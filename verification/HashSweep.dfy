/** What an iteration leaves behind when its callback may release the datum it is given. */
module HashSweep {
  import opened Options
  import opened Sequences
  import opened HashModel

  /** Does the callback release this datum, given the data of its earlier calls? */
  type Callback<!T> = (seq<T>, T) -> bool

  function KeptOne<T>(cb: Callback<T>, before: seq<T>, d: T): seq<T> {
    if cb(before, d) then [] else [d]
  }

  /** The data of a chain that survive its visit, `before` being what was visited earlier. */
  function Kept<T>(cb: Callback<T>, before: seq<T>, chain: seq<T>): seq<T> {
    if chain == [] then []
    else
      var n := |chain| - 1;
      Kept(cb, before, chain[..n]) + KeptOne(cb, before + chain[..n], chain[n])
  }

  lemma KeptSnoc<T>(cb: Callback<T>, before: seq<T>, chain: seq<T>, p: nat)
    requires p < |chain|
    ensures Kept(cb, before, chain[..p + 1])
         == Kept(cb, before, chain[..p]) + KeptOne(cb, before + chain[..p], chain[p])
    ensures before + chain[..p + 1] == before + chain[..p] + [chain[p]]
  {
    assert chain[..p + 1][..p] == chain[..p];
  }

  function Swept<T>(cb: Callback<T>, slots: Slots<T>): (r: Slots<T>)
    ensures |r| == |slots|
  {
    seq(|slots|, i requires 0 <= i < |slots| => Kept(cb, Flatten(slots[..i]), slots[i]))
  }

  /** The table when the slots below `n` have been visited. */
  function SweptUpTo<T>(cb: Callback<T>, slots: Slots<T>, n: nat): (r: Slots<T>)
    requires n <= |slots|
    ensures |r| == |slots|
  {
    seq(|slots|, i requires 0 <= i < |slots| =>
      if i < n then Kept(cb, Flatten(slots[..i]), slots[i]) else slots[i])
  }

  lemma SweptNext<T>(cb: Callback<T>, slots: Slots<T>, n: nat)
    requires n < |slots|
    ensures SweptUpTo(cb, slots, n)[n] == slots[n]
    ensures SweptUpTo(cb, slots, n)[n := Kept(cb, Flatten(slots[..n]), slots[n])] == SweptUpTo(cb, slots, n + 1)
    ensures Flatten(slots[..n + 1]) == Flatten(slots[..n]) + slots[n]
  {
    assert slots[..n + 1][..n] == slots[..n];
  }

  lemma PositionSnoc<T>(h: Hashing<T>, s: seq<T>, x: T, e: T)
    ensures var p := Position(h, s, e);
      Position(h, s + [x], e) == if p < |s| then p else if h.cmp(x, e) then |s| else |s| + 1
  {
    var longer := s + [x];
    var p := Position(h, s, e);
    if p < |s| {
      PositionUnique(h, longer, e, p);
    } else if h.cmp(x, e) {
      PositionUnique(h, longer, e, |s|);
    }
  }

  lemma {:induction false} KeptIsPart<T>(cb: Callback<T>, before: seq<T>, chain: seq<T>)
    ensures forall d :: d in Kept(cb, before, chain) ==> d in chain
  {
    if chain != [] {
      KeptIsPart(cb, before, chain[..|chain| - 1]);
    }
  }

  lemma {:induction false} KeptIsDistinct<T>(h: Hashing<T>, cb: Callback<T>, before: seq<T>, chain: seq<T>)
    requires Distinct(h, chain)
    ensures Distinct(h, Kept(cb, before, chain))
  {
    if chain != [] {
      var n := |chain| - 1;
      KeptIsDistinct(h, cb, before, chain[..n]);
      KeptIsPart(cb, before, chain[..n]);
      var kept := Kept(cb, before, chain[..n]);
      forall q | 0 <= q < |kept|
        ensures !h.cmp(kept[q], chain[n])
      {
        assert kept[q] in chain[..n];
      }
    }
  }

  /** The data kept by the visit are found as before; the released ones are not found at all. */
  lemma {:induction false} KeptPosition<T(!new)>(h: Hashing<T>, cb: Callback<T>, before: seq<T>, chain: seq<T>, e: T)
    requires Lawful(h) && Distinct(h, chain)
    ensures var (kept, p) := (Kept(cb, before, chain), Position(h, chain, e));
      var k := Position(h, kept, e);
      && (k < |kept| <==> p < |chain| && !cb(before + chain[..p], chain[p]))
      && (k < |kept| ==> kept[k] == chain[p])
    decreases |chain|
  {
    hide Lawful, Distinct, Position;
    if chain != [] {
      var n := |chain| - 1;
      var (x, init) := (chain[n], chain[..n]);
      assert chain == init + [x];
      assert Distinct(h, init) by {
        DistinctPrefix(h, chain, n);
      }
      KeptPosition(h, cb, before, init, e);
      PositionSnoc(h, init, x, e);
      PositionSnoc(h, Kept(cb, before, init), x, e);
      var p := Position(h, init, e);
      if p < n {
        OnlyOneMatch(h, chain, e, p, n);
        assert init[..p] == chain[..p];
      }
      assert Kept(cb, before, init) + [] == Kept(cb, before, init);
    }
  }

  lemma DistinctPrefix<T>(h: Hashing<T>, chain: seq<T>, n: nat)
    requires Distinct(h, chain) && n <= |chain|
    ensures Distinct(h, chain[..n])
  {
  }

  /** The slot and position at which a lookup finds its datum. */
  function FoundAt<T>(h: Hashing<T>, slots: Slots<T>, e: T): (at: (nat, nat))
    requires |slots| > 0
    ensures at.0 < |slots| && at.1 <= |slots[at.0]|
  {
    var i := SlotOf(h, |slots|, e);
    (i, Position(h, slots[i], e))
  }

  /**
   After an iteration a lookup finds what it found before, unless the visit of that datum, with the
   history it had, released it.
   */
  lemma SweepRemovesExactlyTheReleased<T(!new)>(h: Hashing<T>, cb: Callback<T>, slots: Slots<T>, e: T)
    requires Lawful(h) && WellFormed(h, slots)
    ensures WellFormed(h, Swept(cb, slots))
    ensures Find(h, Swept(cb, slots), e)
         == match Find(h, slots, e)
            case None => None
            case Some(x) => var (i, p) := FoundAt(h, slots, e);
              if cb(Flatten(slots[..i]) + slots[i][..p], x) then None else Some(x)
  {
    forall i | 0 <= i < |slots|
      ensures InSlot(h, |slots|, i, Swept(cb, slots)[i]) && Distinct(h, Swept(cb, slots)[i])
    {
      var kept := Kept(cb, Flatten(slots[..i]), slots[i]);
      KeptIsDistinct(h, cb, Flatten(slots[..i]), slots[i]);
      KeptIsPart(cb, Flatten(slots[..i]), slots[i]);
      forall p | 0 <= p < |kept|
        ensures SlotOf(h, |slots|, kept[p]) == i
      {
        assert kept[p] in slots[i];
      }
    }
    var i := SlotOf(h, |slots|, e);
    KeptPosition(h, cb, Flatten(slots[..i]), slots[i], e);
  }
}
