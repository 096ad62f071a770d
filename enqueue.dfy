/**
 The entries that the child loop of best_first_search adds to open_q,
 as values: for each child that is not closed, the tuple
 (heuristic, recorded depth, child).
 */
module Enqueue {
  import opened Grid
  import opened Manhattan
  import opened Store
  import opened Frontier

  /** The entry best_first_search queues for a board b of a legal store. */
  ghost function ChildEntry(s: seq<Board>, d: seq<nat>, b: Board): Entry
    requires |d| == |s| && AllLegal(s) && b in s
  {
    var i := FirstIndex(s, b);
    AllLegalAt(s, i);
    Entry(HeuristicOf(b), d[i], b)
  }

  /**
   The entries queued for the candidate boards bs, in order, skipping every
   board of the closed list c.
   */
  ghost function Enqueued(s: seq<Board>, d: seq<nat>, c: seq<Board>, bs: seq<Board>): seq<Entry>
    requires |d| == |s| && AllLegal(s) && forall b :: b in bs ==> b in s
    decreases |bs|
  {
    if bs == [] then []
    else
      var n := |bs| - 1;
      var prev := Enqueued(s, d, c, bs[..n]);
      if bs[n] in c then prev else prev + [ChildEntry(s, d, bs[n])]
  }

  /** The boards of a list of entries, in order. */
  function BoardsOf(q: seq<Entry>): seq<Board>
  {
    seq(|q|, k requires 0 <= k < |q| => q[k].board)
  }

  /**
   One turn of the child loop, on values: the i-th child is skipped when
   closed and queued otherwise.
   */
  lemma EnqueuedStep(s: seq<Board>, d: seq<nat>, c: seq<Board>, bs: seq<Board>, i: nat,
                     q0: seq<Entry>, cur: seq<Entry>)
    requires |d| == |s| && AllLegal(s) && forall b :: b in bs ==> b in s
    requires i < |bs| && cur == Enqueued(s, d, c, bs[..i])
    ensures bs[i] in s && HasAllTiles(bs[i])
    ensures bs[i] !in c ==> ChildEntry(s, d, bs[i]) == Entry(HeuristicOf(bs[i]), d[FirstIndex(s, bs[i])], bs[i])
    ensures bs[i] in c ==> Enqueued(s, d, c, bs[..i + 1]) == cur
    ensures bs[i] !in c ==>
      && Enqueued(s, d, c, bs[..i + 1]) == cur + [ChildEntry(s, d, bs[i])]
      && (q0 + cur) + [ChildEntry(s, d, bs[i])] == q0 + (cur + [ChildEntry(s, d, bs[i])])
  {
    assert bs[i] in bs;
    AllLegalAt(s, FirstIndex(s, bs[i]));
    assert bs[..i + 1][..i] == bs[..i];
  }

  /**
   Every queued entry is the entry of a candidate that is not closed,
   with the heuristic as its priority and the recorded depth as its g.
   */
  lemma {:induction false} EnqueuedProperties(s: seq<Board>, d: seq<nat>, c: seq<Board>, bs: seq<Board>)
    requires |d| == |s| && AllLegal(s) && forall b :: b in bs ==> b in s
    ensures var r := Enqueued(s, d, c, bs);
      && |r| <= |bs|
      && (forall e :: e in r ==> e.board in bs && e.board !in c)
      && QueueTagged(r, s, d)
    decreases |bs|
  {
    if bs != [] {
      var n := |bs| - 1;
      var init := bs[..n];
      EnqueuedProperties(s, d, c, init);
      var prev := Enqueued(s, d, c, init);
      var r := Enqueued(s, d, c, bs);
      assert bs == init + [bs[n]];
      forall e | e in r
        ensures e.board in bs && e.board !in c
        ensures EntryTagged(s, d, e)
      {
        if e !in prev {
          assert bs[n] in bs;
          assert e == ChildEntry(s, d, bs[n]);
        }
      }
    }
  }

  /** When no candidate is closed, every candidate is queued, in order. */
  lemma {:induction false} EnqueuedAllOpen(s: seq<Board>, d: seq<nat>, c: seq<Board>, bs: seq<Board>)
    requires |d| == |s| && AllLegal(s) && forall b :: b in bs ==> b in s
    requires forall b :: b in bs ==> b !in c
    ensures BoardsOf(Enqueued(s, d, c, bs)) == bs
    decreases |bs|
  {
    if bs != [] {
      var n := |bs| - 1;
      assert bs[n] in bs;
      var prev := Enqueued(s, d, c, bs[..n]);
      var last := ChildEntry(s, d, bs[n]);
      assert Enqueued(s, d, c, bs) == prev + [last];
      EnqueuedAllOpen(s, d, c, bs[..n]);
      BoardsOfConcat(prev, [last]);
      assert BoardsOf([last]) == [bs[n]];
      assert bs == bs[..n] + [bs[n]];
    }
  }

  /**
   After the child loop stopped at position stop, when no candidate was
   closed: the entries queued are those of the first stop candidates, in
   order, and they keep a tagged queue tagged.
   */
  lemma ChildLoopFacts(s: seq<Board>, d: seq<nat>, c: seq<Board>, lc: seq<Board>, stop: nat, q1: seq<Entry>)
    requires |d| == |s| && AllLegal(s) && stop <= |lc|
    requires forall b :: b in lc ==> b in s && b !in c
    ensures var added := Enqueued(s, d, c, lc[..stop]);
      && BoardsOf(added) == lc[..stop] && BoardsOf(added) <= lc
      && (QueueTagged(q1, s, d) ==> QueueTagged(q1 + added, s, d))
  {
    var pre := lc[..stop];
    EnqueuedProperties(s, d, c, pre);
    EnqueuedAllOpen(s, d, c, pre);
    if QueueTagged(q1, s, d) {
      QueueTaggedConcat(q1, Enqueued(s, d, c, pre), s, d);
    }
  }

  lemma BoardsOfConcat(a: seq<Entry>, b: seq<Entry>)
    ensures BoardsOf(a + b) == BoardsOf(a) + BoardsOf(b)
  {
  }

  /** A prefix of a duplicate-free list is duplicate-free. */
  lemma NoDupPrefix<T>(a: seq<T>, b: seq<T>)
    requires a <= b && NoDup(b)
    ensures NoDup(a)
  {
    assert b == a + b[|a|..];
    NoDupSplit(a, b[|a|..]);
  }

  /**
   The first board of a duplicate-free store followed by the boards
   registered from position n on: no board twice.
   */
  lemma RootAndTailNoDup(s: seq<Board>, n: nat)
    requires NoDup(s) && 1 <= n <= |s|
    ensures NoDup([s[0]] + s[n..])
  {
    assert s == s[..n] + s[n..] && s[0] in s[..n];
    NoDupSplit(s[..n], s[n..]);
    NoDupConcat([s[0]], s[n..]);
  }

  /**
   The boards of the entries q that best_first_search has put into open_q
   are the first board of the store s followed by the boards registered
   from position n on.
   */
  predicate Traced(q: seq<Entry>, s: seq<Board>, n: nat)
    requires 1 <= n <= |s|
  {
    BoardsOf(q) == [s[0]] + s[n..]
  }

  /**
   One turn's record: when the store grows by t and the turn puts the
   entries added, whose boards are a prefix of t, the trace grows by added;
   it never holds a board twice, and it is exact when all of t was put.
   */
  lemma QueuedStep(s: seq<Board>, t: seq<Board>, n: nat, q: seq<Entry>, added: seq<Entry>)
    requires 1 <= n <= |s| && NoDup(s + t)
    requires Traced(q, s, n) && BoardsOf(added) <= t
    ensures NoDup(BoardsOf(q + added)) && BoardsOf(q + added) <= [(s + t)[0]] + (s + t)[n..]
    ensures BoardsOf(added) == t ==> Traced(q + added, s + t, n)
  {
    var s2 := s + t;
    BoardsOfConcat(q, added);
    assert s2[n..] == s[n..] + t;
    assert [s2[0]] + s2[n..] == ([s[0]] + s[n..]) + t;
    RootAndTailNoDup(s2, n);
    NoDupPrefix(BoardsOf(q + added), [s2[0]] + s2[n..]);
  }

  /** The trace of a store that holds every board it ever queued never holds a board twice. */
  lemma TracedNoDup(q: seq<Entry>, s: seq<Board>, n: nat)
    requires 1 <= n <= |s| && NoDup(s) && Traced(q, s, n)
    ensures NoDup(BoardsOf(q))
  {
    RootAndTailNoDup(s, n);
  }

  /**
   The queue's balance: an entry that was queued at the start or put since
   is still queued or was taken, counted with multiplicity. Taking e from
   q, leaving rest, and putting added keeps the balance.
   */
  lemma QueueBalance(q0: seq<Entry>, put: seq<Entry>, q: seq<Entry>, taken: seq<Entry>,
                     e: Entry, rest: seq<Entry>, added: seq<Entry>)
    requires multiset(q0) + multiset(put) == multiset(q) + multiset(taken)
    requires e in q && multiset(rest) == multiset(q) - multiset{e}
    ensures multiset(q0) + multiset(put + added) == multiset(rest + added) + multiset(taken + [e])
  {
    assert multiset(q) == multiset(rest) + multiset{e};
    calc {
      multiset(q0) + multiset(put + added);
      multiset(q0) + multiset(put) + multiset(added);
      multiset(rest) + multiset{e} + multiset(taken) + multiset(added);
      multiset(rest + added) + multiset(taken + [e]);
    }
  }

  /**
   The record of one turn of best_first_search's loop: the store grows from
   s by t, the turn takes e from the queue q (leaving rest) and puts added,
   whose boards are newly registered. The trace of puts grows by added, the
   list of takes by e, and the balance and the absence of repeats are kept.
   */
  lemma TurnRecord(s: seq<Board>, t: seq<Board>, n: nat, q0: seq<Entry>, queued0: seq<Entry>,
                   queued: seq<Entry>, taken: seq<Entry>, q: seq<Entry>, e: Entry, rest: seq<Entry>, added: seq<Entry>)
    requires 1 <= n <= |s| && NoDup(s + t)
    requires Traced(queued, s, n) && queued0 <= queued && BoardsOf(added) <= t
    requires multiset(q0) + multiset(queued[|queued0|..]) == multiset(q) + multiset(taken)
    requires e in q && multiset(rest) == multiset(q) - multiset{e}
    ensures queued <= queued + added
    ensures multiset(q0) + multiset((queued + added)[|queued0|..]) == multiset(rest + added) + multiset(taken + [e])
    ensures BoardsOf(taken + [e]) == BoardsOf(taken) + [e.board]
    ensures NoDup(BoardsOf(queued + added)) && BoardsOf(queued + added) <= [(s + t)[0]] + (s + t)[n..]
    ensures BoardsOf(added) == t ==> Traced(queued + added, s + t, n)
  {
    QueuedStep(s, t, n, queued, added);
    QueueBalance(q0, queued[|queued0|..], q, taken, e, rest, added);
    DropAppend(queued, added, |queued0|);
    BoardsOfConcat(taken, [e]);
  }

  /** A queued entry of a registered board carries its heuristic and its recorded depth. */
  ghost predicate EntryTagged(s: seq<Board>, d: seq<nat>, e: Entry)
    requires |d| == |s| && AllLegal(s)
  {
    e.board in s && e == ChildEntry(s, d, e.board)
  }

  /**
   The queue invariant on values: every queued entry is tagged. The
   trigger keeps the verifier from unfolding the entries of a queue that
   a proof does not ask about.
   */
  ghost predicate QueueTagged(q: seq<Entry>, s: seq<Board>, d: seq<nat>)
    requires |d| == |s| && AllLegal(s)
  {
    forall e {:trigger EntryTagged(s, d, e)} :: e in q ==> EntryTagged(s, d, e)
  }

  /** Concatenating tagged queues gives a tagged queue. */
  lemma QueueTaggedConcat(q: seq<Entry>, r: seq<Entry>, s: seq<Board>, d: seq<nat>)
    requires |d| == |s| && AllLegal(s) && QueueTagged(q, s, d) && QueueTagged(r, s, d)
    ensures QueueTagged(q + r, s, d)
  {
  }

  /** A queue whose entries all come from a tagged queue is tagged. */
  lemma QueueTaggedSubset(q: seq<Entry>, r: seq<Entry>, s: seq<Board>, d: seq<nat>)
    requires |d| == |s| && AllLegal(s) && QueueTagged(r, s, d) && forall e :: e in q ==> e in r
    ensures QueueTagged(q, s, d)
  {
  }

  /** Registering more boards, tagged after the old ones, keeps a queue tagged. */
  lemma QueueTaggedExtend(q: seq<Entry>, s: seq<Board>, d: seq<nat>, t: seq<Board>, d2: seq<nat>)
    requires |d| == |s| && AllLegal(s) && QueueTagged(q, s, d)
    requires |d2| == |s + t| && AllLegal(s + t) && d <= d2
    ensures QueueTagged(q, s + t, d2)
  {
    forall e | e in q ensures EntryTagged(s + t, d2, e) {
      assert EntryTagged(s, d, e);
      FirstIndexExtend(s, t, e.board);
      assert d2[FirstIndex(s, e.board)] == d[FirstIndex(s, e.board)];
    }
  }
}
