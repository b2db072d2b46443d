/**
 The intrusive queue of streams as a value: links, ends and counter, stepped as the code steps them
 in any state, and the runs over which they spell out a queue.
 */
module FifoModel {
  import opened Options
  import opened Sequences
  import opened Words

  /** A link for every stream whose `next` is not null, the ends of the queue, and its counter. */
  datatype Links<S> = Links(next: map<S, S>, head: Option<S>, tail: Option<S>, count: Long)

  function Next<S>(l: Links<S>, s: S): Option<S> {
    if s in l.next then Some(l.next[s]) else None
  }

  /** The link of the pushed stream itself is left as it was. */
  function PushStep<S>(l: Links<S>, s: S): Links<S> {
    var count := (l.count + 1) % LONG_RANGE;
    match l.tail
    case Some(last) => Links(l.next[last := s], l.head, Some(s), count)
    case None => Links(l.next, Some(s), Some(s), count)
  }

  /** The counter goes down on an empty queue too, and the popped stream keeps its link. */
  function PopStep<S>(l: Links<S>): (Links<S>, Option<S>) {
    var count := (l.count + LONG_RANGE - 1) % LONG_RANGE;
    match l.head
    case Some(s) => (Links(l.next, Next(l, s), if Next(l, s) == None then None else l.tail, count), Some(s))
    case None => (l.(count := count), None)
  }

  function ItemAt<S>(q: seq<S>, p: nat): Option<S> {
    if p < |q| then Some(q[p]) else None
  }

  function Last<S>(q: seq<S>): Option<S> {
    if q == [] then None else Some(q[|q| - 1])
  }

  /** Ends and links spell out exactly `q`. */
  ghost predicate Spells<S>(l: Links<S>, q: seq<S>) {
    && l.head == ItemAt(q, 0) && l.tail == Last(q) && Injective(q)
    && forall p {:trigger q[p]} :: 0 <= p < |q| ==> Next(l, q[p]) == ItemAt(q, p + 1)
  }

  /** The new chain ends at the pushed stream iff its link is null and it is not queued already. */
  lemma PushSpells<S>(l: Links<S>, q: seq<S>, s: S)
    requires Spells(l, q)
    ensures Spells(PushStep(l, s), q + [s]) <==> s !in l.next && s !in q
  {
    var (after, longer) := (PushStep(l, s), q + [s]);
    assert longer[|q|] == s;
    if s in q {
      var p :| 0 <= p < |q| && q[p] == s;
      assert longer[p] == s;
    } else if s in l.next {
      assert Next(after, s) != None;
    } else {
      forall p | 0 <= p < |longer|
        ensures Next(after, longer[p]) == ItemAt(longer, p + 1)
      {
        if p < |q| {
          assert Next(l, q[p]) == ItemAt(q, p + 1);
        }
      }
    }
  }

  lemma PopSpells<S>(l: Links<S>, q: seq<S>)
    requires Spells(l, q)
    ensures PopStep(l).1 == ItemAt(q, 0) && Spells(PopStep(l).0, if q == [] then [] else q[1..])
  {
    if q != [] {
      assert Next(l, q[0]) == ItemAt(q, 1);
      forall p | 0 <= p < |q| - 1
        ensures Next(l, q[1..][p]) == ItemAt(q[1..], p + 1)
      {
        assert q[1..][p] == q[p + 1];
      }
    }
  }

  // Runs of pushes and pops.

  datatype Call<S> = Push(s: S) | Pop

  /** A run on the links from an empty queue; any stream may have a link already. */
  function RunLinks<S>(next: map<S, S>, calls: seq<Call<S>>): (Links<S>, seq<Option<S>>) {
    if calls == [] then (Links(next, None, None, 0), [])
    else
      var n := |calls| - 1;
      var (l, popped) := RunLinks(next, calls[..n]);
      match calls[n]
      case Push(s) => (PushStep(l, s), popped)
      case Pop => (PopStep(l).0, popped + [PopStep(l).1])
  }

  /** The same run on a sequence. */
  function RunCalls<S>(calls: seq<Call<S>>): (seq<S>, seq<Option<S>>) {
    if calls == [] then ([], [])
    else
      var n := |calls| - 1;
      var (q, popped) := RunCalls(calls[..n]);
      match calls[n]
      case Push(s) => (q + [s], popped)
      case Pop => (if q == [] then [] else q[1..], popped + [ItemAt(q, 0)])
  }

  /** At its push every stream has a null link and is not queued. */
  ghost predicate Proper<S>(next: map<S, S>, calls: seq<Call<S>>) {
    forall k {:trigger calls[k]} :: 0 <= k < |calls| && calls[k].Push? ==>
      calls[k].s !in RunLinks(next, calls[..k]).0.next && calls[k].s !in RunCalls(calls[..k]).0
  }

  /** The links spell out the queue after every call of the run. */
  ghost predicate SpelledThroughout<S>(next: map<S, S>, calls: seq<Call<S>>) {
    forall k :: 0 <= k <= |calls| ==> Spells(RunLinks(next, calls[..k]).0, RunCalls(calls[..k]).0)
  }

  /** Both predicates, one call at a time. */
  lemma ProperSnoc<S>(next: map<S, S>, calls: seq<Call<S>>, n: nat)
    requires |calls| == n + 1
    ensures var (l, q, c) := (RunLinks(next, calls[..n]).0, RunCalls(calls[..n]).0, calls[n]);
      Proper(next, calls) <==> Proper(next, calls[..n]) && (c.Push? ==> c.s !in l.next && c.s !in q)
  {
    hide RunLinks, RunCalls;
    var init := calls[..n];
    assert forall k :: 0 <= k <= n ==> init[..k] == calls[..k];
    assert forall k {:trigger calls[k]} :: 0 <= k < n ==> init[k] == calls[k];
  }

  lemma SpelledSnoc<S>(next: map<S, S>, calls: seq<Call<S>>, n: nat)
    requires |calls| == n + 1
    ensures SpelledThroughout(next, calls)
       <==> SpelledThroughout(next, calls[..n]) && Spells(RunLinks(next, calls).0, RunCalls(calls).0)
  {
    hide RunLinks, RunCalls, Spells;
    var init := calls[..n];
    assert forall k :: 0 <= k <= n ==> init[..k] == calls[..k];
    assert calls[..n + 1] == calls && init[..n] == init;
  }

  /**
   Over a whole run the links spell out the queue throughout iff every push was proper; the pops
   then return what the queue returns.
   */
  lemma {:induction false} LinksAreQueue<S>(next: map<S, S>, calls: seq<Call<S>>)
    ensures SpelledThroughout(next, calls) <==> Proper(next, calls)
    ensures Proper(next, calls) ==> RunLinks(next, calls).1 == RunCalls(calls).1
  {
    if calls == [] {
      assert calls[..0] == [];
    } else {
      hide Spells, Proper, SpelledThroughout;
      var n := |calls| - 1;
      var (l, q) := (RunLinks(next, calls[..n]).0, RunCalls(calls[..n]).0);
      LinksAreQueue(next, calls[..n]);
      ProperSnoc(next, calls, n);
      SpelledSnoc(next, calls, n);
      if Proper(next, calls[..n]) {
        SpelledLast(next, calls[..n]);
        match calls[n]
        case Push(s) => PushSpells(l, q, s);
        case Pop => PopSpells(l, q);
      }
    }
  }

  lemma SpelledLast<S>(next: map<S, S>, calls: seq<Call<S>>)
    requires SpelledThroughout(next, calls)
    ensures Spells(RunLinks(next, calls).0, RunCalls(calls).0)
  {
    assert calls[..|calls|] == calls;
  }

  /** The number of pops that found the queue empty. */
  function EmptyPops<S>(calls: seq<Call<S>>): nat {
    if calls == [] then 0
    else
      var n := |calls| - 1;
      EmptyPops(calls[..n]) + if calls[n] == Pop && RunCalls(calls[..n]).0 == [] then 1 else 0
  }

  lemma CountStep(count: Long, n: int)
    requires count == n % LONG_RANGE
    ensures (count + 1) % LONG_RANGE == (n + 1) % LONG_RANGE
    ensures (count + LONG_RANGE - 1) % LONG_RANGE == (n - 1) % LONG_RANGE
  {
  }

  /** Whatever was pushed, the counter is the length less the empty pops, modulo 2^64. */
  lemma {:induction false} CountOfRun<S>(next: map<S, S>, calls: seq<Call<S>>)
    ensures RunLinks(next, calls).0.count == (|RunCalls(calls).0| - EmptyPops(calls)) % LONG_RANGE
  {
    if calls != [] {
      var n := |calls| - 1;
      var (l, q) := (RunLinks(next, calls[..n]).0, RunCalls(calls[..n]).0);
      CountOfRun(next, calls[..n]);
      CountStep(l.count, |q| - EmptyPops(calls[..n]));
      match calls[n]
      case Push(s) =>
        assert RunLinks(next, calls).0 == PushStep(l, s) && RunCalls(calls).0 == q + [s];
      case Pop =>
        assert RunLinks(next, calls).0 == PopStep(l).0;
        assert RunCalls(calls).0 == if q == [] then [] else q[1..];
    }
  }

  /** The counter is the length of the queue iff the empty pops are a multiple of 2^64. */
  lemma CountIsLength<S>(next: map<S, S>, calls: seq<Call<S>>)
    ensures RunLinks(next, calls).0.count == |RunCalls(calls).0| % LONG_RANGE <==> EmptyPops(calls) % LONG_RANGE == 0
  {
    hide RunLinks, RunCalls, EmptyPops;
    CountOfRun(next, calls);
    SameResidue(|RunCalls(calls).0|, EmptyPops(calls));
  }

  lemma SameResidue(n: nat, e: nat)
    ensures (n - e) % LONG_RANGE == n % LONG_RANGE <==> e % LONG_RANGE == 0
  {
  }

  function Pushed<S>(calls: seq<Call<S>>): seq<S> {
    if calls == [] then []
    else
      var n := |calls| - 1;
      Pushed(calls[..n]) + (match calls[n] case Push(s) => [s] case Pop => [])
  }

  function Present<S>(results: seq<Option<S>>): seq<S> {
    if results == [] then []
    else
      var n := |results| - 1;
      Present(results[..n]) + (match results[n] case Some(s) => [s] case None => [])
  }

  /** First in, first out: what was popped, then what the links spell, is what was pushed, in that order. */
  lemma FirstInFirstOut<S>(next: map<S, S>, calls: seq<Call<S>>)
    requires Proper(next, calls)
    ensures Spells(RunLinks(next, calls).0, RunCalls(calls).0)
    ensures Present(RunLinks(next, calls).1) + RunCalls(calls).0 == Pushed(calls)
  {
    LinksAreQueue(next, calls);
    SpelledLast(next, calls);
    QueueKeepsOrder(calls);
  }

  lemma {:induction false} QueueKeepsOrder<S>(calls: seq<Call<S>>)
    ensures Present(RunCalls(calls).1) + RunCalls(calls).0 == Pushed(calls)
  {
    if calls != [] {
      var n := |calls| - 1;
      QueueKeepsOrder(calls[..n]);
      var (q, popped) := RunCalls(calls[..n]);
      match calls[n]
      case Push(s) =>
        ConcatAssociates(Present(popped), q, [s]);
      case Pop =>
        PresentSnoc(popped, ItemAt(q, 0));
        if q != [] {
          ConcatAssociates(Present(popped), [q[0]], q[1..]);
          assert [q[0]] + q[1..] == q;
        }
    }
  }

  lemma PresentSnoc<S>(results: seq<Option<S>>, r: Option<S>)
    ensures Present(results + [r]) == Present(results) + (match r case Some(s) => [s] case None => [])
  {
    assert (results + [r])[..|results|] == results;
  }

  /** Streams that start without a link and are pushed at most once make a proper run. */
  lemma {:induction false} DistinctStreamsAreProper<S>(next: map<S, S>, calls: seq<Call<S>>)
    requires Injective(Pushed(calls)) && forall s :: s in Pushed(calls) ==> s !in next
    ensures Proper(next, calls)
  {
    if calls != [] {
      hide RunLinks, RunCalls, Proper;
      var n := |calls| - 1;
      var pushed := Pushed(calls[..n]);
      assert pushed == Pushed(calls)[..|pushed|];
      DistinctStreamsAreProper(next, calls[..n]);
      OnlyPushedAreTouched(next, calls[..n]);
      ProperSnoc(next, calls, n);
      if calls[n].Push? {
        assert Pushed(calls)[|pushed|] == calls[n].s;
      }
    } else {
      hide RunLinks, RunCalls;
    }
  }

  lemma {:induction false} OnlyPushedAreTouched<S>(next: map<S, S>, calls: seq<Call<S>>)
    ensures forall s :: s in RunLinks(next, calls).0.next ==> s in next || s in Pushed(calls)
    ensures forall s :: s in RunCalls(calls).0 ==> s in Pushed(calls)
    ensures RunLinks(next, calls).0.tail.Some? ==> RunLinks(next, calls).0.tail.value in Pushed(calls)
  {
    if calls != [] {
      OnlyPushedAreTouched(next, calls[..|calls| - 1]);
    }
  }

  // The run that fails.

  lemma RunSnoc<S>(next: map<S, S>, calls: seq<Call<S>>, c: Call<S>)
    ensures var ((l, popped), after) := (RunLinks(next, calls), RunLinks(next, calls + [c]));
      after == match c case Push(s) => (PushStep(l, s), popped) case Pop => (PopStep(l).0, popped + [PopStep(l).1])
    ensures var ((q, popped), after) := (RunCalls(calls), RunCalls(calls + [c]));
      after == match c
        case Push(s) => (q + [s], popped)
        case Pop => (if q == [] then [] else q[1..], popped + [ItemAt(q, 0)])
  {
    assert (calls + [c])[..|calls|] == calls;
  }

  /** Two streams pushed, the first popped and pushed again, then `n` pops. */
  function PushedAgain<S>(a: S, b: S, n: nat): (calls: seq<Call<S>>)
    ensures |calls| == 4 + n
    ensures calls[..4] == [Push(a), Push(b), Pop, Push(a)]
  {
    if n == 0 then [Push(a), Push(b), Pop, Push(a)] else PushedAgain(a, b, n - 1) + [Pop]
  }

  /**
   The first stream still links to the second, so pushing it again closes a cycle: the pops return
   the two in turn for ever, although the queue is empty after two.
   */
  lemma {:induction false} PushedAgainNeverEnds<S>(a: S, b: S, n: nat)
    requires a != b
    ensures !Proper(map[], PushedAgain(a, b, n))
    ensures var l := RunLinks(map[], PushedAgain(a, b, n)).0;
      l.next == map[a := b, b := a] && l.head == Some(if n % 2 == 0 then b else a) && l.tail == Some(a)
    ensures RunCalls(PushedAgain(a, b, n)).0 == [b, a][if n < 2 then n else 2..]
  {
    hide RunLinks, RunCalls;
    if n == 0 {
      PushedAgainOnce(a, b);
    } else {
      PushedAgainNeverEnds(a, b, n - 1);
      var calls := PushedAgain(a, b, n - 1);
      RunSnoc(map[], calls, Pop);
      hide Proper;
      ProperSnoc(map[], calls + [Pop], n + 3);
      assert (calls + [Pop])[..n + 3] == calls;
    }
  }

  lemma PushedAgainOnce<S>(a: S, b: S)
    requires a != b
    ensures var calls := [Push(a), Push(b), Pop, Push(a)];
      && !Proper(map[], calls)
      && RunLinks(map[], calls).0 == Links(map[a := b, b := a], Some(b), Some(a), 2)
      && RunCalls(calls).0 == [b, a]
  {
    var one: seq<Call<S>> := [] + [Push(a)];
    var two := one + [Push(b)];
    var three := two + [Pop];
    var four := three + [Push(a)];
    assert RunLinks<S>(map[], []).0 == Links(map[], None, None, 0) && RunCalls<S>([]).0 == [];
    RunSnoc(map[], [], Push(a));
    RunSnoc(map[], one, Push(b));
    RunSnoc(map[], two, Pop);
    RunSnoc(map[], three, Push(a));
    hide RunLinks, RunCalls;
    assert RunLinks(map[], one).0 == Links(map[], Some(a), Some(a), 1);
    assert RunLinks(map[], two).0 == Links(map[a := b], Some(a), Some(b), 2);
    assert RunLinks(map[], three).0 == Links(map[a := b], Some(b), Some(b), 1);
    assert RunCalls(one).0 == [a] && RunCalls(two).0 == [a, b] && RunCalls(three).0 == [b];
    assert RunCalls(four).0 == [b, a];
    assert four == [Push(a), Push(b), Pop, Push(a)];
    assert four[..3] == three && four[3] == Push(a);
  }
}
