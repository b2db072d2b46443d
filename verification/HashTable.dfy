/** The chained hash table on the heap: an array of singly linked chains, updated in place. */
module HashTable {
  import opened Options
  import opened Sequences
  import opened Words
  import opened HashModel
  import opened HashSweep

  /** One entry; its key and datum are written when it is made, its link changes. */
  class Bucket<T> {
    var next: Bucket?<T>
    const key: Word
    const data: T

    constructor (data: T, key: Word, next: Bucket?<T>)
      ensures this.data == data && this.key == key && this.next == next
    {
      this.data, this.key, this.next := data, key, next;
    }
  }

  /** The bucket at position `p` of a chain, null past its end. */
  function At<T>(chain: seq<Bucket<T>>, p: nat): Bucket?<T> {
    if p < |chain| then chain[p] else null
  }

  /** `head` and the links spell out exactly `chain`. */
  ghost predicate Linked<T>(head: Bucket?<T>, chain: seq<Bucket<T>>)
    reads chain
  {
    head == At(chain, 0) && forall p {:trigger chain[p].next} :: 0 <= p < |chain| ==> chain[p].next == At(chain, p + 1)
  }

  function DataOf<T>(chain: seq<Bucket<T>>): (s: seq<T>)
    ensures |s| == |chain|
  {
    seq(|chain|, p requires 0 <= p < |chain| => chain[p].data)
  }

  function SlotsOf<T>(chains: seq<seq<Bucket<T>>>): (s: Slots<T>)
    ensures |s| == |chains|
  {
    seq(|chains|, i requires 0 <= i < |chains| => DataOf(chains[i]))
  }

  /**
   The loop of get and release: stops at the first bucket of the chain with the same key and an
   equal datum, or at its end, trailing `pp` one bucket behind.
   */
  method Walk<T(!new)>(h: Hashing<T>, head: Bucket?<T>, ghost chain: seq<Bucket<T>>, key: Word, data: T)
    returns (backet: Bucket?<T>, pp: Bucket?<T>, ghost p: nat)
    requires Lawful(h) && key == h.key(data) && Linked(head, chain)
    requires forall q :: 0 <= q < |chain| ==> chain[q].key == h.key(chain[q].data)
    ensures p == Position(h, DataOf(chain), data)
    ensures backet == At(chain, Position(h, DataOf(chain), data))
    ensures pp == At(chain, if p == 0 then 0 else p - 1)
  {
    hide Lawful, Position;
    backet, pp, p := head, head, 0;
    while backet != null
      invariant p <= |chain| && backet == At(chain, p)
      invariant pp == At(chain, if p == 0 then 0 else p - 1)
      invariant forall q :: 0 <= q < p ==> !h.cmp(DataOf(chain)[q], data)
      decreases |chain| - p
    {
      SameKey(h, backet.data, data);
      if backet.key == key && h.cmp(backet.data, data) {
        PositionUnique(h, DataOf(chain), data, p);
        return;
      }
      pp := backet;
      backet, p := backet.next, p + 1;
    }
    assert Position(h, DataOf(chain), data) == |chain|;
  }

  lemma SlotsAfterPush<T>(chains: seq<seq<Bucket<T>>>, i: nat, b: Bucket<T>)
    requires i < |chains|
    ensures SlotsOf(chains[i := [b] + chains[i]]) == SlotsOf(chains)[i := [b.data] + SlotsOf(chains)[i]]
  {
    assert DataOf([b] + chains[i]) == [b.data] + DataOf(chains[i]);
  }

  lemma SlotsAfterUnlink<T>(chains: seq<seq<Bucket<T>>>, i: nat, p: nat)
    requires i < |chains| && p < |chains[i]|
    ensures SlotsOf(chains[i := RemoveAt(chains[i], p)]) == SlotsOf(chains)[i := RemoveAt(SlotsOf(chains)[i], p)]
  {
    assert DataOf(RemoveAt(chains[i], p)) == RemoveAt(DataOf(chains[i]), p);
  }

  /** Every slot's head and links spell out its chain. */
  ghost predicate AllLinked<T>(index: array<Bucket?<T>>, chains: seq<seq<Bucket<T>>>, buckets: set<Bucket<T>>)
    reads index, buckets
  {
    && |chains| == index.Length
    && (forall i, p :: 0 <= i < |chains| && 0 <= p < |chains[i]| ==> chains[i][p] in buckets)
    && (forall i :: 0 <= i < |chains| ==> Linked(index[i], chains[i]))
  }

  /** Takes the bucket at position `p` out of chain `i`; `pp` is its predecessor, or itself at the head. */
  method Unlink<T>(index: array<Bucket?<T>>, ghost chains: seq<seq<Bucket<T>>>, ghost buckets: set<Bucket<T>>,
                   i: nat, backet: Bucket<T>, pp: Bucket<T>, ghost p: nat)
    requires AllLinked(index, chains, buckets)
    requires i < |chains| && Injective(chains[i])
    requires p < |chains[i]| && backet == chains[i][p] && pp == chains[i][if p == 0 then 0 else p - 1]
    requires forall j :: 0 <= j < |chains| && j != i ==> pp !in chains[j]
    modifies index, pp
    ensures AllLinked(index, chains[i := RemoveAt(chains[i], p)], buckets)
  {
    ghost var chain := chains[i];
    if backet == pp {
      index[i] := backet.next;
    } else {
      pp.next := backet.next;
    }
    ghost var unlinked := chains[i := RemoveAt(chain, p)];
    forall j | 0 <= j < |unlinked|
      ensures Linked(index[j], unlinked[j])
    {
      if j != i {
        assert unlinked[j] == chains[j] && old(Linked(index[j], chains[j]));
      }
    }
  }

  /** Puts a bucket that links to the head of slot `i` in front of it. */
  method PushFront<T>(index: array<Bucket?<T>>, ghost chains: seq<seq<Bucket<T>>>, ghost buckets: set<Bucket<T>>,
                      i: nat, backet: Bucket<T>)
    requires AllLinked(index, chains, buckets) && i < |chains| && backet.next == index[i]
    modifies index
    ensures AllLinked(index, chains[i := [backet] + chains[i]], buckets + {backet})
  {
    index[i] := backet;
    ghost var longer := [backet] + chains[i];
    assert Linked(index[i], longer);
    forall j | 0 <= j < |chains| && j != i
      ensures Linked(index[j], chains[j])
    {
      assert old(Linked(index[j], chains[j]));
    }
  }

  /** Empties slot `i`. */
  method ClearSlot<T>(index: array<Bucket?<T>>, ghost chains: seq<seq<Bucket<T>>>, ghost buckets: set<Bucket<T>>,
                      i: nat)
    requires AllLinked(index, chains, buckets) && i < |chains|
    modifies index
    ensures AllLinked(index, chains[i := []], buckets)
  {
    index[i] := null;
    forall j | 0 <= j < |chains| && j != i
      ensures Linked(index[j], chains[j])
    {
      assert old(Linked(index[j], chains[j]));
    }
  }

  class Table<T(!new)> {
    const index: array<Bucket?<T>>
    const hashing: Hashing<T>
    var count: nat

    /** The buckets of each slot, from the head. */
    ghost var chains: seq<seq<Bucket<T>>>
    /** The footprint: every bucket made for this table, freed ones included. */
    ghost var buckets: set<Bucket<T>>

    ghost function Slots(): Slots<T>
      reads this`chains
    {
      SlotsOf(chains)
    }

    /** The heap part: every chain is linked from its slot and every key is cached. */
    ghost predicate Chained()
      reads this`chains, this`buckets, index, buckets
    {
      && AllLinked(index, chains, buckets)
      && (forall b :: b in buckets ==> b.key == hashing.key(b.data))
    }

    /** The value part: slots hold what belongs there, without duplicates, and are counted. */
    ghost predicate Counted()
      reads this`chains, this`count
    {
      Lawful(hashing) && WellFormed(hashing, Slots()) && count == Total(Slots())
    }

    ghost predicate Valid()
      reads this, index, buckets
    {
      index.Length > 0 && Chained() && Counted()
    }

    constructor (size: Word, hashing: Hashing<T>)
      requires size > 0 && Lawful(hashing)
      ensures Valid() && fresh(index) && buckets == {}
      ensures this.hashing == hashing && index.Length == size && count == 0
      ensures Slots() == seq(size, _ => [])
    {
      var heads := new Bucket?<T>[size](_ => null);
      index := heads;
      this.hashing := hashing;
      count := 0;
      chains := seq(size, _ => []);
      buckets := {};
      new;
      TotalOfEmpty(Slots());
    }

    /** A new bucket in front of the chain of `data`'s slot. */
    method Push(data: T, newdata: T)
      requires Valid()
      requires Find(hashing, Slots(), data) == None && hashing.cmp(newdata, data)
      modifies this, index
      ensures Valid() && fresh(buckets - old(buckets))
      ensures Slots() == Insert(hashing, old(Slots()), data, newdata) && count == old(count) + 1
      ensures Find(hashing, Slots(), data) == Some(newdata)
      ensures var i := hashing.key(data) % index.Length;
        && |chains[i]| > 0 && fresh(chains[i][0]) && chains[i][0].data == newdata
        && chains == old(chains)[i := [chains[i][0]] + old(chains)[i]]
    {
      Reflexive(hashing, data);
      hide WellFormed, Total, Find, Lawful, SlotsOf;
      var key := hashing.key(data);
      var i := key % index.Length;
      SameKey(hashing, newdata, data);
      InsertLaw(hashing, Slots(), data, newdata, data);
      var backet := new Bucket(newdata, key, index[i]);
      count := count + 1;
      SlotsAfterPush(chains, i, backet);
      PushFront(index, chains, buckets, i, backet);
      hide AllLinked;
      chains := chains[i := [backet] + chains[i]];
      buckets := buckets + {backet};
    }

    method Get(data: T, alloc: Option<T -> Option<T>>) returns (r: Option<T>)
      requires Valid()
      requires Honest(hashing, Op.Get(data, Made(alloc, data)))
      modifies this, index
      ensures Valid() && fresh(buckets - old(buckets))
      ensures (Slots(), r) == Apply(hashing, old(Slots()), Op.Get(data, Made(alloc, data)))
      ensures Find(hashing, old(Slots()), data).Some? || Made(alloc, data) == None ==>
        unchanged(this) && unchanged(index)
      ensures Find(hashing, old(Slots()), data).Some? || alloc == None ==> r == Find(hashing, old(Slots()), data)
      ensures Find(hashing, old(Slots()), data) == None && alloc.Some? ==> r == alloc.value(data)
      ensures Find(hashing, old(Slots()), data) == None && r.Some? ==>
        var i := hashing.key(data) % index.Length;
        && Slots() == old(Slots())[i := [r.value] + old(Slots())[i]]
        && Find(hashing, Slots(), data) == r && count == old(count) + 1
    {
      hide WellFormed, Total, Lawful, Linked, Position;
      var key := hashing.key(data);
      var i := key % index.Length;
      var backet, pp, p := Walk(hashing, index[i], chains[i], key, data);
      if backet != null {
        return Some(backet.data);
      }
      assert Find(hashing, Slots(), data) == None;
      if alloc.Some? {
        var newdata := alloc.value(data);
        if newdata == None {
          return None;
        }
        Push(data, newdata.value);
        return newdata;
      }
      return None;
    }

    method Lookup(data: T) returns (r: Option<T>)
      requires Valid()
      modifies this, index
      ensures Valid() && unchanged(this) && unchanged(index)
      ensures r == Find(hashing, Slots(), data)
    {
      r := Get(data, None);
    }

    /** The facts a release of the datum at position `p` rests on. */
    lemma Releasable(data: T, i: nat, p: nat)
      requires Valid() && i == SlotOf(hashing, index.Length, data)
      requires p == Position(hashing, DataOf(chains[i]), data) && p < |chains[i]|
      ensures Injective(chains[i])
      ensures forall j, b :: 0 <= j < |chains| && j != i && b in chains[i] ==> b !in chains[j]
      ensures var unlinked := chains[i := RemoveAt(chains[i], p)];
        && unlinked == RemoveFrom(hashing, chains, data)
        && SlotsOf(unlinked) == Remove(hashing, Slots(), data)
        && Find(hashing, Slots(), data) == Some(chains[i][p].data)
        && WellFormed(hashing, SlotsOf(unlinked))
        && Total(SlotsOf(unlinked)) == count - 1
    {
      hide WellFormed, Total, Position, Find, Remove, RemoveFrom, SlotsOf, Injective, RemoveAt, Linked;
      RemoveLaw(hashing, Slots(), data, data);
      NoSharing(hashing, chains, i);
      RemovalAtPosition(hashing, chains, data);
    }

    /** Unlinks the bucket found at position `p` and counts it off. */
    method Detach(data: T, i: nat, backet: Bucket<T>, pp: Bucket<T>, ghost p: nat)
      requires Valid() && i == SlotOf(hashing, index.Length, data)
      requires p == Position(hashing, DataOf(chains[i]), data) && p < |chains[i]|
      requires backet == chains[i][p] && pp == chains[i][if p == 0 then 0 else p - 1]
      modifies this`chains, this`count, index, pp
      ensures Valid()
      ensures Slots() == Remove(hashing, old(Slots()), data) && Find(hashing, old(Slots()), data) == Some(backet.data)
      ensures chains == RemoveFrom(hashing, old(chains), data)
    {
      hide WellFormed, Total, Position, Find, Remove, RemoveFrom, SlotsOf, DataOf, Injective, RemoveAt, Lawful, Linked;
      Releasable(data, i, p);
      assert pp in chains[i];
      count := count - 1;
      Unlink(index, chains, buckets, i, backet, pp, p);
      chains := chains[i := RemoveAt(chains[i], p)];
    }

    method Release(data: T) returns (ret: Option<T>)
      requires Valid()
      modifies this, index, buckets
      ensures Valid() && buckets == old(buckets)
      ensures (Slots(), ret) == Apply(hashing, old(Slots()), Op.Release(data))
      ensures ret == Find(hashing, old(Slots()), data) && Find(hashing, Slots(), data) == None
      ensures count == old(count) - (if ret.Some? then 1 else 0)
      ensures chains == RemoveFrom(hashing, old(chains), data)
    {
      Reflexive(hashing, data);
      RemoveLaw(hashing, Slots(), data, data);
      hide WellFormed, Total, Position, Find, Remove, RemoveFrom, SlotsOf, DataOf, Lawful;
      var key := hashing.key(data);
      var i := key % index.Length;
      var backet, pp, p := Walk(hashing, index[i], chains[i], key, data);
      if backet == null {
        RemovalAtPosition(hashing, chains, data);
        return None;
      }
      assert pp in chains[i];
      hide Linked;
      Detach(data, i, backet, pp, p);
      hide Chained, Counted;
      ret := Some(backet.data);
    }

    /** Where the bucket under visit stands: after the kept ones, and its link leads to the rest. */
    lemma Visiting(i: nat, kept: seq<Bucket<T>>, rest: seq<Bucket<T>>)
      requires Valid() && i < |chains| && rest != [] && chains[i] == kept + rest
      ensures rest[0].next == At(rest, 1)
      ensures SlotOf(hashing, |chains|, rest[0].data) == i
      ensures RemoveFrom(hashing, chains, rest[0].data) == chains[i := kept + rest[1..]]
    {
      hide Position;
      var p := |kept|;
      assert chains[i][p] == rest[0];
      InItsSlot(hashing, chains, i, rest[0]);
      assert DataOf(chains[i]) == SlotsOf(chains)[i];
      assert hashing.cmp(rest[0].data, rest[0].data);
      FoundIsOnly(hashing, DataOf(chains[i]), rest[0].data, p);
      assert RemoveAt(chains[i], p) == kept + rest[1..];
      assert At(chains[i], p + 1) == At(rest, 1);
    }

    /** One visit; the link is read before the callback may release the bucket. */
    method Visit(cb: Callback<T>, i: nat, hb: Bucket<T>, before: seq<T>,
                 ghost kept: seq<Bucket<T>>, ghost rest: seq<Bucket<T>>)
      returns (hbnext: Bucket?<T>, ghost kept': seq<Bucket<T>>)
      requires Valid() && i < index.Length && rest != [] && chains[i] == kept + rest && hb == rest[0]
      modifies this, index, buckets
      ensures Valid() && buckets == old(buckets) && hbnext == At(rest, 1)
      ensures chains == old(chains)[i := kept' + rest[1..]]
      ensures DataOf(kept') == DataOf(kept) + KeptOne(cb, before, hb.data)
    {
      assert |chains| == index.Length;
      hide WellFormed, Total, Lawful, Linked, RemoveFrom, Remove, Chained, Counted;
      Visiting(i, kept, rest);
      hbnext := hb.next;
      if cb(before, hb.data) {
        var released := Release(hb.data);
        kept' := kept;
      } else {
        kept' := kept + [hb];
        assert kept' + rest[1..] == kept + rest;
      }
    }

    method IterateSlot(cb: Callback<T>, i: nat, before: seq<T>) returns (visited: seq<T>)
      requires Valid() && i < index.Length
      modifies this, index, buckets
      ensures Valid() && buckets == old(buckets)
      ensures visited == before + old(Slots())[i]
      ensures Slots() == old(Slots())[i := Kept(cb, before, old(Slots())[i])]
    {
      ghost var chain, p := chains[i], 0;
      ghost var kept: seq<Bucket<T>> := [];
      visited := before;
      var hb := index[i];
      VisitStart(cb, before, chain);
      assert Linked(hb, chain);
      assert hb == At(chain, 0) && |chains| == index.Length;
      hide WellFormed, Total, Lawful, Linked, Counted, Chained, Kept, KeptOne, SlotsOf, DataOf;
      while hb != null
        invariant Valid() && buckets == old(buckets)
        invariant p <= |chain| && hb == At(chain, p)
        invariant chains == old(chains)[i := kept + chain[p..]]
        invariant VisitState(cb, before, chain, p, kept, visited)
        decreases |chain| - p
      {
        var data := hb.data;
        ghost var kept0 := kept;
        hb, kept := Visit(cb, i, hb, visited, kept, chain[p..]);
        VisitNext(cb, before, chain, p, kept0, visited, kept);
        visited, p := visited + [data], p + 1;
      }
      VisitEnd(cb, before, old(chains), i, kept, visited);
      assert kept + chain[p..] == kept;
    }

    method Iterate(cb: Callback<T>) returns (visited: seq<T>)
      requires Valid()
      modifies this, index, buckets
      ensures Valid()
      ensures visited == Flatten(old(Slots())) && |visited| == old(count)
      ensures count == |Flatten(Slots())|
      ensures Slots() == Swept(cb, old(Slots()))
    {
      ghost var slots := Slots();
      visited := [];
      var i := 0;
      while i < index.Length
        invariant Valid() && buckets == old(buckets) && |slots| == index.Length
        invariant 0 <= i <= index.Length
        invariant visited == Flatten(slots[..i])
        invariant Slots() == SweptUpTo(cb, slots, i)
      {
        hide WellFormed, Total, Lawful, Linked, Counted, Kept, KeptOne;
        SweptNext(cb, slots, i);
        visited := IterateSlot(cb, i, visited);
        i := i + 1;
      }
      assert slots[..i] == slots;
      TotalIsFlattenedLength(slots);
      TotalIsFlattenedLength(Slots());
      assert SweptUpTo(cb, slots, i) == Swept(cb, slots);
    }

    /** The inner loop of the cleaning: frees a chain, counting each bucket off. */
    method FreeChain(head: Bucket?<T>, ghost chain: seq<Bucket<T>>, hasFree: bool)
      returns (freed: seq<T>, ghost gone: seq<Bucket<T>>)
      requires Linked(head, chain) && count >= |chain|
      modifies this`count
      ensures gone == chain && count == old(count) - |chain|
      ensures freed == if hasFree then DataOf(chain) else []
    {
      freed, gone := [], [];
      var hb := head;
      ghost var p := 0;
      while hb != null
        invariant p <= |chain| && hb == At(chain, p) && count == old(count) - p
        invariant FreedUpTo(chain, p, hasFree, freed, gone)
        decreases |chain| - p
      {
        hide FreedUpTo;
        FreedNext(chain, p, hasFree, freed, gone);
        var next := hb.next;
        if hasFree {
          freed := freed + [hb.data];
        }
        gone := gone + [hb];
        count := count - 1;
        hb, p := next, p + 1;
      }
      FreedAll(chain, hasFree, freed, gone);
    }

    /** Frees the chain of slot `i` and empties the slot. */
    method CleanSlot(i: nat, hasFree: bool) returns (freed: seq<T>, ghost gone: seq<Bucket<T>>)
      requires Valid() && i < index.Length
      modifies this`chains, this`count, index
      ensures Valid()
      ensures gone == old(chains)[i] && chains == old(chains)[i := []]
      ensures freed == if hasFree then DataOf(gone) else []
    {
      SlotsAfterClean(hashing, chains, i);
      assert Linked(index[i], chains[i]) && |chains| == index.Length;
      hide WellFormed, Total, Lawful, SlotsOf, AllLinked, Linked;
      freed, gone := FreeChain(index[i], chains[i], hasFree);
      ClearSlot(index, chains, buckets, i);
      chains := chains[i := []];
    }

    method Clean(hasFree: bool) returns (freed: seq<T>, ghost gone: seq<Bucket<T>>)
      requires Valid()
      modifies this`chains, this`count, index
      ensures Valid() && count == 0
      ensures forall i :: 0 <= i < index.Length ==> index[i] == null
      ensures Slots() == seq(index.Length, _ => [])
      ensures gone == Flatten(old(chains)) && Injective(gone)
      ensures freed == if hasFree then Flatten(old(Slots())) else []
    {
      ghost var before := chains;
      FlattenInjective(hashing, before);
      CleanedStart(before);
      freed, gone := [], [];
      var i := 0;
      hide WellFormed, Total, Lawful, Linked, AllLinked, Flatten, DataOf, SlotsOf, CleanedUpTo, Injective;
      while i < index.Length
        invariant Valid() && |before| == index.Length == |chains|
        invariant 0 <= i <= index.Length
        invariant chains == CleanedUpTo(before, i)
        invariant gone == Flatten(before[..i])
        invariant freed == if hasFree then Flatten(SlotsOf(before)[..i]) else []
      {
        CleanedNext(before, i);
        var f, g := CleanSlot(i, hasFree);
        freed, gone := freed + f, gone + g;
        i := i + 1;
      }
      CleanedAll(index, before, buckets);
    }
  }

  /** The chains when the slots below `n` are cleaned. */
  function CleanedUpTo<T>(chains: seq<seq<Bucket<T>>>, n: nat): (r: seq<seq<Bucket<T>>>)
    ensures |r| == |chains|
  {
    seq(|chains|, i requires 0 <= i < |chains| => if i < n then [] else chains[i])
  }

  lemma CleanedStart<T>(chains: seq<seq<Bucket<T>>>)
    ensures CleanedUpTo(chains, 0) == chains
    ensures Flatten(chains[..0]) == [] && Flatten(SlotsOf(chains)[..0]) == []
  {
  }

  lemma CleanedNext<T>(chains: seq<seq<Bucket<T>>>, n: nat)
    requires n < |chains|
    ensures CleanedUpTo(chains, n)[n] == chains[n]
    ensures CleanedUpTo(chains, n)[n := []] == CleanedUpTo(chains, n + 1)
    ensures Flatten(chains[..n + 1]) == Flatten(chains[..n]) + chains[n]
    ensures Flatten(SlotsOf(chains)[..n + 1]) == Flatten(SlotsOf(chains)[..n]) + DataOf(chains[n])
  {
    assert chains[..n + 1][..n] == chains[..n];
    assert SlotsOf(chains)[..n + 1][..n] == SlotsOf(chains)[..n];
  }

  lemma CleanedAll<T>(index: array<Bucket?<T>>, chains: seq<seq<Bucket<T>>>, buckets: set<Bucket<T>>)
    requires AllLinked(index, CleanedUpTo(chains, |chains|), buckets)
    ensures forall i :: 0 <= i < index.Length ==> index[i] == null
    ensures SlotsOf(CleanedUpTo(chains, |chains|)) == seq(|chains|, _ => [])
    ensures Total(SlotsOf(CleanedUpTo(chains, |chains|))) == 0
    ensures chains[..|chains|] == chains && SlotsOf(chains)[..|chains|] == SlotsOf(chains)
  {
    var cleaned := CleanedUpTo(chains, |chains|);
    assert forall i :: 0 <= i < |chains| ==> Linked(index[i], cleaned[i]);
    TotalOfEmpty(SlotsOf(cleaned));
  }

  /** The buckets freed after `p` steps, and the data passed to the free callback if there is one. */
  ghost predicate FreedUpTo<T>(chain: seq<Bucket<T>>, p: nat, hasFree: bool, freed: seq<T>, gone: seq<Bucket<T>>)
    requires p <= |chain|
  {
    gone == chain[..p] && freed == if hasFree then DataOf(gone) else []
  }

  lemma FreedNext<T>(chain: seq<Bucket<T>>, p: nat, hasFree: bool, freed: seq<T>, gone: seq<Bucket<T>>)
    requires p < |chain| && FreedUpTo(chain, p, hasFree, freed, gone)
    ensures FreedUpTo(chain, p + 1, hasFree, if hasFree then freed + [chain[p].data] else freed, gone + [chain[p]])
  {
    assert chain[..p + 1] == chain[..p] + [chain[p]];
  }

  lemma FreedAll<T>(chain: seq<Bucket<T>>, hasFree: bool, freed: seq<T>, gone: seq<Bucket<T>>)
    requires FreedUpTo(chain, |chain|, hasFree, freed, gone)
    ensures gone == chain && freed == if hasFree then DataOf(chain) else []
  {
  }

  lemma SlotsAfterClean<T>(h: Hashing<T>, chains: seq<seq<Bucket<T>>>, i: nat)
    requires WellFormed(h, SlotsOf(chains)) && i < |chains|
    ensures WellFormed(h, SlotsOf(chains[i := []]))
    ensures Total(SlotsOf(chains[i := []])) == Total(SlotsOf(chains)) - |chains[i]|
  {
    assert SlotsOf(chains[i := []]) == SlotsOf(chains)[i := []];
    TotalUpdate(SlotsOf(chains), i, []);
  }

  /** Over the whole table no bucket occurs twice. */
  lemma {:induction false} FlattenInjective<T(!new)>(h: Hashing<T>, chains: seq<seq<Bucket<T>>>)
    requires Lawful(h) && WellFormed(h, SlotsOf(chains))
    ensures Injective(Flatten(chains))
  {
    PrefixInjective(h, chains, |chains|);
    assert chains[..|chains|] == chains;
  }

  lemma {:induction false} PrefixInjective<T(!new)>(h: Hashing<T>, chains: seq<seq<Bucket<T>>>, n: nat)
    requires Lawful(h) && WellFormed(h, SlotsOf(chains)) && n <= |chains|
    ensures Injective(Flatten(chains[..n]))
  {
    if n > 0 {
      PrefixInjective(h, chains, n - 1);
      NoSharing(h, chains, n - 1);
      assert chains[..n][..n - 1] == chains[..n - 1];
      var front := Flatten(chains[..n - 1]);
      forall p | 0 <= p < |front|
        ensures front[p] !in chains[n - 1]
      {
        InFlatten(chains[..n - 1], front[p]);
      }
    }
  }

  /** What an iteration of one chain has seen and kept after `p` visits. */
  ghost predicate VisitState<T>(cb: Callback<T>, before: seq<T>, chain: seq<Bucket<T>>, p: nat,
                                kept: seq<Bucket<T>>, visited: seq<T>)
    requires p <= |chain|
  {
    DataOf(kept) == Kept(cb, before, DataOf(chain)[..p]) && visited == before + DataOf(chain)[..p]
  }

  lemma VisitStart<T>(cb: Callback<T>, before: seq<T>, chain: seq<Bucket<T>>)
    ensures VisitState(cb, before, chain, 0, [], before)
    ensures [] + chain[0..] == chain
  {
  }

  lemma VisitNext<T>(cb: Callback<T>, before: seq<T>, chain: seq<Bucket<T>>, p: nat,
                     kept: seq<Bucket<T>>, visited: seq<T>, kept': seq<Bucket<T>>)
    requires p < |chain| && VisitState(cb, before, chain, p, kept, visited)
    requires DataOf(kept') == DataOf(kept) + KeptOne(cb, visited, chain[p].data)
    ensures VisitState(cb, before, chain, p + 1, kept', visited + [chain[p].data])
    ensures chain[p..][1..] == chain[p + 1..]
  {
    KeptSnoc(cb, before, DataOf(chain), p);
  }

  lemma VisitEnd<T>(cb: Callback<T>, before: seq<T>, chains: seq<seq<Bucket<T>>>, i: nat,
                    kept: seq<Bucket<T>>, visited: seq<T>)
    requires i < |chains| && VisitState(cb, before, chains[i], |chains[i]|, kept, visited)
    ensures visited == before + SlotsOf(chains)[i]
    ensures SlotsOf(chains[i := kept]) == SlotsOf(chains)[i := Kept(cb, before, SlotsOf(chains)[i])]
  {
    assert DataOf(chains[i])[..|chains[i]|] == DataOf(chains[i]);
  }

  /** What release does to the chains, and that it is removal from the slots. */
  lemma RemovalAtPosition<T>(h: Hashing<T>, chains: seq<seq<Bucket<T>>>, d: T)
    requires |chains| > 0
    ensures var i := SlotOf(h, |chains|, d);
      var p := Position(h, DataOf(chains[i]), d);
      && Find(h, SlotsOf(chains), d) == (if p < |chains[i]| then Some(chains[i][p].data) else None)
      && RemoveFrom(h, chains, d) == (if p < |chains[i]| then chains[i := RemoveAt(chains[i], p)] else chains)
    ensures SlotsOf(RemoveFrom(h, chains, d)) == Remove(h, SlotsOf(chains), d)
  {
    var i := SlotOf(h, |chains|, d);
    var p := Position(h, DataOf(chains[i]), d);
    if p < |chains[i]| {
      SlotsAfterUnlink(chains, i, p);
    }
  }

  lemma InItsSlot<T(!new)>(h: Hashing<T>, chains: seq<seq<Bucket<T>>>, i: nat, b: Bucket<T>)
    requires WellFormed(h, SlotsOf(chains)) && i < |chains| && b in chains[i]
    ensures SlotOf(h, |chains|, b.data) == i
  {
    var p :| 0 <= p < |chains[i]| && chains[i][p] == b;
    assert SlotsOf(chains)[i][p] == b.data;
  }

  /** No bucket occurs twice in a chain or in two chains. */
  lemma NoSharing<T(!new)>(h: Hashing<T>, chains: seq<seq<Bucket<T>>>, i: nat)
    requires Lawful(h) && WellFormed(h, SlotsOf(chains)) && i < |chains|
    ensures Injective(chains[i])
    ensures forall j, b :: 0 <= j < |chains| && j != i && b in chains[i] ==> b !in chains[j]
  {
    forall j, b | 0 <= j < |chains| && j != i && b in chains[i]
      ensures b !in chains[j]
    {
      InItsSlot(h, chains, i, b);
      if b in chains[j] {
        InItsSlot(h, chains, j, b);
      }
    }
    assert Distinct(h, SlotsOf(chains)[i]);
    forall p, q | 0 <= p < q < |chains[i]|
      ensures chains[i][p] != chains[i][q]
    {
      var (x, y) := (chains[i][p].data, chains[i][q].data);
      assert !h.cmp(SlotsOf(chains)[i][p], SlotsOf(chains)[i][q]);
      assert h.cmp(x, x) && !h.cmp(x, y);
    }
  }

  function RemoveFrom<T>(h: Hashing<T>, chains: seq<seq<Bucket<T>>>, d: T): seq<seq<Bucket<T>>>
    requires |chains| > 0
  {
    var i := SlotOf(h, |chains|, d);
    var p := Position(h, DataOf(chains[i]), d);
    if p < |chains[i]| then chains[i := RemoveAt(chains[i], p)] else chains
  }

  function Made<T>(alloc: Option<T -> Option<T>>, d: T): Option<T> {
    if alloc.Some? then alloc.value(d) else None
  }

  lemma Reflexive<T(!new)>(h: Hashing<T>, x: T)
    requires Lawful(h)
    ensures h.cmp(x, x)
  {
  }

  lemma SameKey<T(!new)>(h: Hashing<T>, x: T, y: T)
    requires Lawful(h)
    ensures h.cmp(x, y) ==> h.key(x) == h.key(y)
  {
  }

  lemma {:induction false} TotalOfEmpty<T>(slots: Slots<T>)
    requires forall i :: 0 <= i < |slots| ==> slots[i] == []
    ensures Total(slots) == 0 && Flatten(slots) == []
  {
    if slots != [] {
      TotalOfEmpty(slots[..|slots| - 1]);
    }
  }
}
