/**
 The state store: a list of boards that only grows and never holds a board
 twice, and the finite space of boards it draws from, which bounds how
 often it can grow.
 */
module Store {
  import opened Grid

  /**
   No element occurs twice, stated as the lists are built: each element is
   absent from the part before it.
   */
  predicate NoDup<T(==)>(s: seq<T>)
    decreases |s|
  {
    |s| <= 1 || (s[|s| - 1] !in s[..|s| - 1] && NoDup(s[..|s| - 1]))
  }

  /** Appending x to a list that extends a by b extends a by b + [x]. */
  lemma SnocAssoc<T>(a: seq<T>, b: seq<T>, x: T)
    ensures a + b + [x] == a + (b + [x])
  {
  }

  /** Dropping a prefix of a before appending b equals dropping it after. */
  lemma DropAppend<T>(a: seq<T>, b: seq<T>, n: nat)
    requires n <= |a|
    ensures (a + b)[n..] == a[n..] + b
  {
  }

  /** Appending an element keeps a list duplicate-free exactly when the element is new. */
  lemma NoDupSnoc<T>(s: seq<T>, x: T)
    ensures NoDup(s + [x]) <==> NoDup(s) && x !in s
  {
    assert (s + [x])[..|s|] == s;
  }

  /**
   What appending the elements of cands, in order, to a list that starts as
   known adds, when each is appended only if the list does not hold it yet.
   It is the rule of generate_states (a clone is registered only if it is not
   in state_lst) and of the push loop of depth_first_search (a child is pushed
   only if it is neither in opened nor in closed).
   */
  function Appended<T(==)>(known: seq<T>, cands: seq<T>): (r: seq<T>)
    ensures |r| <= |cands|
    decreases |cands|
  {
    if cands == [] then []
    else
      var prev := Appended(known, cands[..|cands| - 1]);
      var x := cands[|cands| - 1];
      if x in known + prev then prev else prev + [x]
  }

  /**
   What Appended adds is new and duplicate-free, every candidate ends up
   known or added, and a duplicate-free list stays duplicate-free.
   */
  lemma {:induction false} AppendedProperties<T>(known: seq<T>, cands: seq<T>)
    ensures var r := Appended(known, cands);
      && NoDup(r)
      && (forall x :: x in r ==> x in cands && x !in known)
      && (forall x :: x in cands ==> x in known + r)
      && (NoDup(known) ==> NoDup(known + r))
    decreases |cands|
  {
    if cands == [] {
      assert known + [] == known;
    } else {
      var init := cands[..|cands| - 1];
      var prev := Appended(known, init);
      var x := cands[|cands| - 1];
      AppendedProperties(known, init);
      assert cands == init + [x];
      if x !in known + prev {
        assert known + (prev + [x]) == (known + prev) + [x];
        NoDupSnoc(prev, x);
        NoDupSnoc(known + prev, x);
      }
    }
  }

  /** One more candidate, not yet known or added: Appended grows by it. */
  lemma AppendedGrow<T>(known: seq<T>, cands: seq<T>, i: nat)
    requires i < |cands| && cands[i] !in known + Appended(known, cands[..i])
    ensures Appended(known, cands[..i + 1]) == Appended(known, cands[..i]) + [cands[i]]
  {
    assert cands[..i + 1][..i] == cands[..i];
  }

  /** One more candidate, already known or added: Appended stays the same. */
  lemma AppendedSkip<T>(known: seq<T>, cands: seq<T>, i: nat)
    requires i < |cands| && cands[i] in known + Appended(known, cands[..i])
    ensures Appended(known, cands[..i + 1]) == Appended(known, cands[..i])
  {
    assert cands[..i + 1][..i] == cands[..i];
  }

  /** The two halves of a duplicate-free list are duplicate-free and share nothing. */
  lemma {:induction false} NoDupSplit<T>(a: seq<T>, b: seq<T>)
    requires NoDup(a + b)
    ensures NoDup(a) && NoDup(b) && forall x :: x in b ==> x !in a
    decreases |b|
  {
    if b == [] {
      assert a + b == a;
    } else {
      var n := |b| - 1;
      assert a + b == (a + b[..n]) + [b[n]];
      NoDupSnoc(a + b[..n], b[n]);
      NoDupSplit(a, b[..n]);
      assert b == b[..n] + [b[n]];
      NoDupSnoc(b[..n], b[n]);
    }
  }

  /** Two duplicate-free lists with no common element concatenate to a duplicate-free list. */
  lemma {:induction false} NoDupConcat<T>(a: seq<T>, b: seq<T>)
    requires NoDup(a) && NoDup(b) && forall x :: x in b ==> x !in a
    ensures NoDup(a + b)
    decreases |b|
  {
    if b == [] {
      assert a + b == a;
    } else {
      var n := |b| - 1;
      assert b == b[..n] + [b[n]];
      NoDupSnoc(b[..n], b[n]);
      NoDupConcat(a, b[..n]);
      assert a + b == (a + b[..n]) + [b[n]];
      NoDupSnoc(a + b[..n], b[n]);
    }
  }

  /** Every board of s is legal, stated as the store is built: one board at a time. */
  ghost predicate AllLegal(s: seq<Board>)
    decreases |s|
  {
    s == [] || (AllLegal(s[..|s| - 1]) && IsPermutation(s[|s| - 1]))
  }

  /** Each board of a legal store is legal. */
  lemma {:induction false} AllLegalAt(s: seq<Board>, k: int)
    requires AllLegal(s) && 0 <= k < |s|
    ensures IsPermutation(s[k])
    decreases |s|
  {
    if k < |s| - 1 {
      AllLegalAt(s[..|s| - 1], k);
    }
  }

  /** Appending legal boards to a legal store keeps it legal. */
  lemma {:induction false} AllLegalAppend(s: seq<Board>, t: seq<Board>)
    requires AllLegal(s) && forall x :: x in t ==> IsPermutation(x)
    ensures AllLegal(s + t)
    decreases |t|
  {
    if t == [] {
      assert s + t == s;
    } else {
      var n := |t| - 1;
      AllLegalAppend(s, t[..n]);
      assert (s + t)[..|s + t| - 1] == s + t[..n];
      assert t[n] in t;
    }
  }

  /** 9 to the n: how many sequences of n values from 0..8 there are. */
  function Pow9(n: nat): (r: nat)
    ensures r >= 1
  {
    if n == 0 then 1 else 9 * Pow9(n - 1)
  }

  /** The n values from 0..8 that the base-9 digits of k spell, least significant first. */
  function Decode(k: nat, n: nat): (b: Board)
    ensures |b| == n
  {
    if n == 0 then [] else [k % 9] + Decode(k / 9, n - 1)
  }

  /** The base-9 number whose digits, least significant first, are the values of b. */
  function Code(b: Board): int
  {
    if b == [] then 0 else b[0] + 9 * Code(b[1..])
  }

  /** Every sequence of values from 0..8 has a code below 9 to its length, which decodes back to it. */
  lemma {:induction false} DecodeCode(b: Board)
    requires forall i :: 0 <= i < |b| ==> 0 <= b[i] < 9
    ensures 0 <= Code(b) < Pow9(|b|) && Decode(Code(b), |b|) == b
  {
    if b != [] {
      var t := b[1..];
      DecodeCode(t);
      var k := Code(b);
      assert b[0] == k % 9 && Code(t) == k / 9;
      assert b == [b[0]] + t;
    }
  }

  /** The number of sequences of nine values from 0..8: the size of the board space. */
  const SpaceSize: nat := 387420489

  /** The codes of the boards that a store s has not registered yet. */
  ghost function Unregistered(s: seq<Board>): set<nat>
  {
    set k: nat | k < SpaceSize && Decode(k, 9) !in s
  }

  lemma CardSubset<T>(a: set<T>, b: set<T>)
    requires a <= b
    ensures |a| <= |b|
  {
    assert b == a + (b - a);
    assert a * (b - a) == {};
  }

  lemma CardDiff<T>(a: set<T>, b: set<T>)
    requires b <= a
    ensures |a - b| == |a| - |b|
  {
    assert a == (a - b) + b;
    assert (a - b) * b == {};
  }

  /**
   Registering boards never enlarges the unregistered space, and
   registering a new legal board shrinks it.
   */
  lemma RegisteringShrinks(s: seq<Board>, t: seq<Board>)
    ensures |Unregistered(s + t)| <= |Unregistered(s)|
    ensures t != [] && t[0] !in s && IsPermutation(t[0]) ==> |Unregistered(s + t)| < |Unregistered(s)|
  {
    assert Unregistered(s + t) <= Unregistered(s);
    CardSubset(Unregistered(s + t), Unregistered(s));
    if t != [] && t[0] !in s && IsPermutation(t[0]) {
      var x := t[0];
      DecodeCode(x);
      assert Pow9(9) == SpaceSize;
      var k: nat := Code(x);
      assert k in Unregistered(s);
      assert Unregistered(s + t) <= Unregistered(s) - {k};
      CardSubset(Unregistered(s + t), Unregistered(s) - {k});
    }
  }

  ghost function SetOf(s: seq<Board>): set<Board> { set x | x in s }

  /** The stored boards that are neither on the stack o nor closed c. */
  ghost function Unseen(s: seq<Board>, o: seq<Board>, c: seq<Board>): set<Board>
  {
    set x | x in s && x !in o && x !in c
  }

  /** A duplicate-free list has as many distinct elements as positions. */
  lemma {:induction false} NoDupCard(s: seq<Board>)
    requires NoDup(s)
    ensures |SetOf(s)| == |s|
    decreases |s|
  {
    if |s| > 0 {
      var n := |s| - 1;
      assert s == s[..n] + [s[n]];
      NoDupSnoc(s[..n], s[n]);
      NoDupCard(s[..n]);
      assert SetOf(s) == SetOf(s[..n]) + {s[n]};
    }
  }

  /** The sets behind PopPushShrinks: the pushed boards are unseen before, and no longer after. */
  lemma PopPushSets(s: seq<Board>, o: seq<Board>, c: seq<Board>, x: Board, pushed: seq<Board>)
    requires forall y :: y in pushed ==> y in s && y !in o && y !in c && y != x
    ensures SetOf(pushed) <= Unseen(s, o + [x], c)
    ensures Unseen(s, o + pushed, c + [x]) <= Unseen(s, o + [x], c) - SetOf(pushed)
  {
    forall y | y in SetOf(pushed) ensures y in Unseen(s, o + [x], c) {
      assert y !in o + [x];
    }
    forall y | y in Unseen(s, o + pushed, c + [x]) ensures y in Unseen(s, o + [x], c) - SetOf(pushed) {
      assert y !in o + pushed && y !in c + [x];
    }
  }

  /**
   One turn of the depth-first loop that registers nothing: x is popped
   and closed, and pushing distinct unseen boards uses up at least as many
   unseen boards as it pushes.
   */
  lemma PopPushShrinks(s: seq<Board>, o: seq<Board>, c: seq<Board>, x: Board, pushed: seq<Board>)
    requires NoDup(pushed)
    requires forall y :: y in pushed ==> y in s && y !in o && y !in c && y != x
    ensures |Unseen(s, o + pushed, c + [x])| + |pushed| <= |Unseen(s, o + [x], c)|
  {
    var before := Unseen(s, o + [x], c);
    var after := Unseen(s, o + pushed, c + [x]);
    PopPushSets(s, o, c, x, pushed);
    CardSubset(after, before - SetOf(pushed));
    CardDiff(before, SetOf(pushed));
    NoDupCard(pushed);
  }
}
