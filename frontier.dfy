/**
 The frontier of the best-first search: entries (f, g, board) of a
 priority queue that hands out a lexicographically least entry first.
 */
module Frontier {
  import opened Grid

  /** One entry of open_q, the tuple (f, g, board). */
  datatype Entry = Entry(f: int, g: int, board: Board)

  /** Strict lexicographic order on integer lists; a proper prefix comes first. */
  predicate SeqLess(a: seq<int>, b: seq<int>)
  {
    if a == [] then b != []
    else if b == [] then false
    else a[0] < b[0] || (a[0] == b[0] && SeqLess(a[1..], b[1..]))
  }

  /** Tuple order: by f, then by g, then by board. */
  predicate EntryLess(x: Entry, y: Entry)
  {
    x.f < y.f || (x.f == y.f && (x.g < y.g || (x.g == y.g && SeqLess(x.board, y.board))))
  }

  lemma {:induction false} SeqLessIrreflexive(a: seq<int>)
    ensures !SeqLess(a, a)
  {
    if a != [] {
      SeqLessIrreflexive(a[1..]);
    }
  }

  lemma {:induction false} SeqLessTransitive(a: seq<int>, b: seq<int>, c: seq<int>)
    requires SeqLess(a, b) && SeqLess(b, c)
    ensures SeqLess(a, c)
  {
    if a != [] && a[0] == b[0] && b[0] == c[0] {
      SeqLessTransitive(a[1..], b[1..], c[1..]);
    }
  }

  lemma {:induction false} SeqLessTotal(a: seq<int>, b: seq<int>)
    requires a != b
    ensures SeqLess(a, b) || SeqLess(b, a)
  {
    if a != [] && b != [] && a[0] == b[0] {
      assert a == [a[0]] + a[1..] && b == [b[0]] + b[1..];
      SeqLessTotal(a[1..], b[1..]);
    }
  }

  /** EntryLess is a strict total order. */
  lemma EntryLessOrder()
    ensures forall x :: !EntryLess(x, x)
    ensures forall x, y, z :: EntryLess(x, y) && EntryLess(y, z) ==> EntryLess(x, z)
    ensures forall x, y :: x != y ==> EntryLess(x, y) || EntryLess(y, x)
  {
    forall x ensures !EntryLess(x, x) {
      SeqLessIrreflexive(x.board);
    }
    forall x, y, z | EntryLess(x, y) && EntryLess(y, z) ensures EntryLess(x, z) {
      if x.f == y.f == z.f && x.g == y.g == z.g {
        SeqLessTransitive(x.board, y.board, z.board);
      }
    }
    forall x, y | x != y ensures EntryLess(x, y) || EntryLess(y, x) {
      if x.f == y.f && x.g == y.g {
        SeqLessTotal(x.board, y.board);
      }
    }
  }

  /** The position of a least entry of q: what PriorityQueue.get removes. */
  function MinIndex(q: seq<Entry>): (m: nat)
    requires |q| > 0
    ensures m < |q|
    ensures forall j :: 0 <= j < |q| ==> !EntryLess(q[j], q[m])
  {
    if |q| == 1 then EntryLessOrder(); 0
    else
      var m := MinIndex(q[..|q| - 1]);
      EntryLessOrder();
      if EntryLess(q[|q| - 1], q[m]) then |q| - 1 else m
  }

  /** The least entry is unique: any two least entries of q are equal. */
  lemma LeastIsUnique(q: seq<Entry>, x: Entry, y: Entry)
    requires x in q && y in q
    requires forall z {:trigger EntryLess(z, x)} :: z in q ==> !EntryLess(z, x)
    requires forall z {:trigger EntryLess(z, y)} :: z in q ==> !EntryLess(z, y)
    ensures x == y
  {
    assert !EntryLess(x, y) && !EntryLess(y, x);
    EntryLessOrder();
  }
}
