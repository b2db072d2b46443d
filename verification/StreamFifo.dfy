/** The intrusive queue of streams on the heap, against the steps of FifoModel. */
module StreamFifo {
  import opened Options
  import opened Sequences
  import opened Words
  import opened FifoModel
  import opened Stream

  function Optional(s: Buffered?): Option<Buffered> {
    if s == null then None else Some(s)
  }

  function Members(queue: seq<Buffered>): set<Buffered> {
    set s | s in queue
  }

  class Fifo {
    var count: Long
    var head: Buffered?
    var tail: Buffered?

    /** The streams pushed and not popped. */
    ghost var queue: seq<Buffered>

    /** The links among the streams of `world`, with ends and counter. */
    ghost function View(world: set<Buffered>): Links<Buffered>
      reads this, world
    {
      Links(map s | s in world && s.next != null :: s.next, Optional(head), Optional(tail), count)
    }

    /** `world` holds the queue and whatever its links reach. */
    ghost predicate Within(world: set<Buffered>)
      reads this, world
    {
      && (head == null || head in world) && (tail == null || tail in world)
      && Members(queue) <= world
      && forall s :: s in world && s.next != null ==> s.next in world
    }

    /** Head, tail and links spell out the queue. */
    ghost predicate Chained()
      reads this, queue
    {
      Spells(View(Members(queue)), queue)
    }

    /** The counter is the length of the queue. */
    ghost predicate Counted()
      reads this
    {
      count == |queue| % LONG_RANGE
    }

    /** Whether the queue is chained does not depend on the other streams. */
    lemma ChainedInWorld(world: set<Buffered>)
      requires Members(queue) <= world
      ensures Chained() <==> Spells(View(world), queue)
    {
      forall p | 0 <= p < |queue|
        ensures Next(View(world), queue[p]) == Next(View(Members(queue)), queue[p])
      {
      }
    }

    constructor ()
      ensures Chained() && Counted() && queue == [] && head == null && tail == null && count == 0
    {
      count, head, tail := 0, null, null;
      queue := [];
    }

    /** A chain stays one iff the stream's own link was null and it was not queued already. */
    method Push(s: Buffered, ghost world: set<Buffered>)
      requires Within(world) && s in world
      modifies this, (if tail == null then {} else {tail})`next
      ensures View(world) == PushStep(old(View(world)), s) && Within(world)
      ensures queue == old(queue) + [s]
      ensures old(Chained()) ==> (Chained() <==> old(s.next) == null && s !in old(queue))
      ensures old(Counted()) ==> Counted()
    {
      hide Spells, Next;
      ghost var before, q := View(world), queue;
      ChainedInWorld(world);
      if tail != null {
        tail.next := s;
      } else {
        head := s;
      }
      tail := s;
      count := (count + 1) % LONG_RANGE;
      queue := queue + [s];
      assert View(world).next == PushStep(before, s).next;
      if Spells(before, q) {
        PushSpells(before, q, s);
      }
      ChainedInWorld(world);
    }

    /**
     The first stream, null if there is none.  The counter goes down either way, and the stream
     keeps its link to the stream behind it.
     */
    method Pop(ghost world: set<Buffered>) returns (s: Buffered?)
      requires Within(world)
      modifies this
      ensures (View(world), Optional(s)) == PopStep(old(View(world))) && Within(world)
      ensures queue == if old(queue) == [] then [] else old(queue)[1..]
      ensures old(Chained()) ==> Chained() && Optional(s) == ItemAt(old(queue), 0)
      ensures old(Counted()) ==> (Counted() <==> old(queue) != [])
    {
      hide Spells;
      ghost var before, q := View(world), queue;
      ChainedInWorld(world);
      s := head;
      if s != null {
        head := s.next;
        if head == null {
          tail := null;
        }
      }
      count := (count + LONG_RANGE - 1) % LONG_RANGE;
      queue := if queue == [] then [] else queue[1..];
      assert View(world) == PopStep(before).0;
      if Spells(before, q) {
        PopSpells(before, q);
      }
      ChainedInWorld(world);
    }

    /** Frees every queued stream once, in order. */
    method Clean() returns (ghost freed: seq<Buffered>)
      requires Chained()
      modifies this
      ensures Chained() && Counted() && queue == [] && head == null && tail == null && count == 0
      ensures freed == old(queue) && Injective(freed)
    {
      assert LinkedOnwards(queue) by {
        assert forall p {:trigger queue[p].next} :: 0 <= p < |queue| ==>
          Next(View(Members(queue)), queue[p]) == Optional(queue[p].next);
      }
      freed := FreeFrom(head, queue);
      head, tail := null, null;
      count := 0;
      queue := [];
      NoneSpellsEmpty(View(Members(queue)));
    }
  }

  ghost predicate LinkedOnwards(queue: seq<Buffered>)
    reads queue
  {
    forall p {:trigger queue[p].next} :: 0 <= p < |queue| ==> Optional(queue[p].next) == ItemAt(queue, p + 1)
  }

  /** The loop of the clean-up: each stream's link is read before the stream is freed. */
  method FreeFrom(head: Buffered?, ghost queue: seq<Buffered>) returns (ghost freed: seq<Buffered>)
    requires Optional(head) == ItemAt(queue, 0) && LinkedOnwards(queue)
    ensures freed == queue
  {
    freed := [];
    var s := head;
    while s != null
      invariant |freed| <= |queue| && Optional(s) == ItemAt(queue, |freed|) && freed == queue[..|freed|]
      decreases |queue| - |freed|
    {
      var next := s.next;
      freed := freed + [s];
      s := next;
    }
  }

  lemma NoneSpellsEmpty(l: Links<Buffered>)
    requires l.head == None && l.tail == None
    ensures Spells(l, [])
  {
  }
}
