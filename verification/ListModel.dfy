/** Sequence edits of the list operations, and the theorem that sorted insertion is stable sorting. */
module ListModel {
  import opened Options
  import opened Sequences

  /** A three-way comparison: negative, zero or positive. */
  type Comparison<!T> = (T, T) -> int

  /** The comparison orders the values totally, up to ties, and its sign flips with its arguments. */
  ghost predicate TotalPreorder<T(!new)>(cmp: Comparison<T>) {
    && (forall x, y :: cmp(x, y) < 0 <==> cmp(y, x) > 0)
    && (forall x, y, z :: cmp(x, y) <= 0 && cmp(y, z) <= 0 ==> cmp(x, z) <= 0)
  }

  ghost predicate Sorted<T>(cmp: Comparison<T>, s: seq<T>) {
    forall i, j :: 0 <= i < j < |s| ==> cmp(s[i], s[j]) <= 0
  }

  /** Where sorted insertion stops: the first element greater than `v`, or the end. */
  function SortedIndex<T>(cmp: Comparison<T>, s: seq<T>, v: T): (p: nat)
    ensures p <= |s|
    ensures forall q :: 0 <= q < p ==> cmp(v, s[q]) >= 0
    ensures p < |s| ==> cmp(v, s[p]) < 0
  {
    if s == [] || cmp(v, s[0]) < 0 then 0 else 1 + SortedIndex(cmp, s[1..], v)
  }

  /** Without a comparison the value goes to the end. */
  function SortedInsert<T>(cmp: Option<Comparison<T>>, s: seq<T>, v: T): seq<T> {
    InsertAt(s, if cmp.Some? then SortedIndex(cmp.value, s, v) else |s|, v)
  }

  function SortedInsertAll<T>(cmp: Comparison<T>, values: seq<T>): seq<T> {
    if values == [] then []
    else
      var n := |values| - 1;
      SortedInsert(Some(cmp), SortedInsertAll(cmp, values[..n]), values[n])
  }

  /** Position of the first element equal to `v`, or the length. */
  function IndexOf<T(==)>(s: seq<T>, v: T): (p: nat)
    ensures p <= |s|
    ensures forall q :: 0 <= q < p ==> s[q] != v
    ensures p < |s| ==> s[p] == v
  {
    if s == [] || s[0] == v then 0 else 1 + IndexOf(s[1..], v)
  }

  function RemoveFirst<T(==)>(s: seq<T>, v: T): seq<T> {
    var p := IndexOf(s, v);
    if p < |s| then RemoveAt(s, p) else s
  }

  lemma SortedIndexUnique<T>(cmp: Comparison<T>, s: seq<T>, v: T, p: nat)
    requires p <= |s| && (p < |s| ==> cmp(v, s[p]) < 0)
    requires forall q :: 0 <= q < p ==> cmp(v, s[q]) >= 0
    ensures SortedIndex(cmp, s, v) == p
  {
  }

  lemma IndexOfUnique<T>(s: seq<T>, v: T, p: nat)
    requires p <= |s| && v !in s[..p] && (p < |s| ==> s[p] == v)
    ensures IndexOf(s, v) == p
  {
    assert forall q :: 0 <= q < p ==> s[..p][q] == s[q];
  }

  /** Removing what was inserted in front of every equal element undoes the insertion. */
  lemma RemoveUndoesInsert<T>(s: seq<T>, p: nat, v: T)
    requires p <= |s| && v !in s[..p]
    ensures RemoveFirst(InsertAt(s, p, v), v) == s
    ensures RemoveAt(InsertAt(s, p, v), p) == s
  {
    var longer := InsertAt(s, p, v);
    assert longer[p] == v && longer[..p] == s[..p];
    forall q | 0 <= q < p
      ensures longer[q] != v
    {
      assert longer[q] == s[..p][q];
    }
    assert IndexOf(longer, v) == p;
  }

  /** Removing an absent value changes nothing; of a present one the first occurrence goes. */
  lemma RemoveFirstLaw<T>(s: seq<T>, v: T)
    ensures v !in s ==> RemoveFirst(s, v) == s
    ensures v in s ==> exists p :: 0 <= p < |s| && s[p] == v && v !in s[..p] && RemoveFirst(s, v) == s[..p] + s[p + 1..]
  {
    var p := IndexOf(s, v);
    assert v in s ==> p < |s| && v !in s[..p];
  }

  /** A list without a comparison is kept in the order of insertion. */
  lemma NoComparisonAppends<T>(s: seq<T>, v: T)
    ensures SortedInsert(None, s, v) == s + [v]
  {
  }

  // Stable sorting.

  function TieOf<T>(cmp: Comparison<T>, v: T, x: T): seq<T> {
    if cmp(v, x) == 0 then [x] else []
  }

  /** The elements of `s` that tie with `v`, in the order of `s`. */
  function Ties<T>(cmp: Comparison<T>, v: T, s: seq<T>): seq<T> {
    if s == [] then [] else TieOf(cmp, v, s[0]) + Ties(cmp, v, s[1..])
  }

  /** The result is sorted and ties stay in the order of the input. */
  ghost predicate IsStableSortOf<T(!new)>(cmp: Comparison<T>, result: seq<T>, values: seq<T>) {
    Sorted(cmp, result) && forall v :: Ties(cmp, v, result) == Ties(cmp, v, values)
  }

  lemma {:induction false} TiesConcat<T>(cmp: Comparison<T>, v: T, s: seq<T>, t: seq<T>)
    ensures Ties(cmp, v, s + t) == Ties(cmp, v, s) + Ties(cmp, v, t)
  {
    hide TieOf;
    if s == [] {
      assert s + t == t;
    } else {
      TailOfConcat(s, t);
      TiesConcat(cmp, v, s[1..], t);
      ConcatAssociates(TieOf(cmp, v, s[0]), Ties(cmp, v, s[1..]), Ties(cmp, v, t));
    }
  }

  lemma {:induction false} NoTies<T>(cmp: Comparison<T>, v: T, s: seq<T>)
    requires forall k :: 0 <= k < |s| ==> cmp(v, s[k]) != 0
    ensures Ties(cmp, v, s) == []
  {
    if s != [] {
      NoTies(cmp, v, s[1..]);
    }
  }

  lemma {:induction false} TiesHaveTied<T>(cmp: Comparison<T>, v: T, s: seq<T>)
    ensures Ties(cmp, v, s) != [] ==> exists k :: 0 <= k < |s| && cmp(v, s[k]) == 0
  {
    if s != [] {
      TiesHaveTied(cmp, v, s[1..]);
      if cmp(v, s[0]) != 0 && Ties(cmp, v, s) != [] {
        var k :| 0 <= k < |s[1..]| && cmp(v, s[1..][k]) == 0;
        assert cmp(v, s[k + 1]) == 0;
      }
    }
  }

  lemma Flip<T(!new)>(cmp: Comparison<T>, x: T, y: T)
    requires TotalPreorder(cmp)
    ensures cmp(x, y) < 0 <==> cmp(y, x) > 0
    ensures cmp(x, y) > 0 <==> cmp(y, x) < 0
  {
    assert cmp(y, x) < 0 <==> cmp(x, y) > 0;
  }

  lemma LessLessEqual<T(!new)>(cmp: Comparison<T>, x: T, y: T, z: T)
    requires TotalPreorder(cmp) && cmp(x, y) < 0 && cmp(y, z) <= 0
    ensures cmp(x, z) < 0
  {
    Flip(cmp, x, y);
    Flip(cmp, x, z);
    assert cmp(z, x) <= 0 ==> cmp(y, x) <= 0;
  }

  /** Everything from the insertion point on is greater than the inserted value. */
  lemma RestIsGreater<T(!new)>(cmp: Comparison<T>, s: seq<T>, v: T)
    requires TotalPreorder(cmp) && Sorted(cmp, s)
    ensures forall k :: SortedIndex(cmp, s, v) <= k < |s| ==> cmp(v, s[k]) < 0
  {
    hide TotalPreorder;
    var p := SortedIndex(cmp, s, v);
    forall k | p <= k < |s|
      ensures cmp(v, s[k]) < 0
    {
      if p < k {
        LessLessEqual(cmp, v, s[p], s[k]);
      }
    }
  }

  lemma InsertKeepsSorted<T(!new)>(cmp: Comparison<T>, s: seq<T>, v: T)
    requires TotalPreorder(cmp) && Sorted(cmp, s)
    ensures Sorted(cmp, SortedInsert(Some(cmp), s, v))
  {
    hide TotalPreorder;
    RestIsGreater(cmp, s, v);
    var p := SortedIndex(cmp, s, v);
    var longer := InsertAt(s, p, v);
    assert longer[p] == v;
    assert forall k :: 0 <= k < |longer| && k != p ==> longer[k] == s[if k < p then k else k - 1];
    forall i, j | 0 <= i < j < |longer|
      ensures cmp(longer[i], longer[j]) <= 0
    {
      if j == p {
        Flip(cmp, v, s[i]);
      }
    }
  }

  lemma TiesOfRest<T(!new)>(cmp: Comparison<T>, s: seq<T>, v: T, u: T)
    requires TotalPreorder(cmp) && Sorted(cmp, s) && cmp(u, v) == 0
    ensures Ties(cmp, u, s[SortedIndex(cmp, s, v)..]) == []
  {
    hide TotalPreorder;
    RestIsGreater(cmp, s, v);
    var rest := s[SortedIndex(cmp, s, v)..];
    forall k | 0 <= k < |rest|
      ensures cmp(u, rest[k]) != 0
    {
      TieIsTransitive(cmp, u, v, rest[k]);
    }
    NoTies(cmp, u, rest);
  }

  lemma InsertAppendsTie<T(!new)>(cmp: Comparison<T>, s: seq<T>, v: T, u: T)
    requires TotalPreorder(cmp) && Sorted(cmp, s)
    ensures Ties(cmp, u, SortedInsert(Some(cmp), s, v)) == Ties(cmp, u, s) + Ties(cmp, u, [v])
  {
    var p := SortedIndex(cmp, s, v);
    if cmp(u, v) == 0 {
      TiesOfRest(cmp, s, v, u);
    } else {
      NoTies(cmp, u, [v]);
    }
    assert s == s[..p] + s[p..];
    TiesAround(cmp, s[..p], s[p..], v, u);
  }

  lemma TiesAround<T>(cmp: Comparison<T>, front: seq<T>, back: seq<T>, v: T, u: T)
    requires Ties(cmp, u, back) == [] || Ties(cmp, u, [v]) == []
    ensures Ties(cmp, u, front + [v] + back) == Ties(cmp, u, front + back) + Ties(cmp, u, [v])
  {
    hide Ties;
    TiesConcat(cmp, u, front + [v], back);
    TiesConcat(cmp, u, front, [v]);
    TiesConcat(cmp, u, front, back);
  }

  lemma TieIsTransitive<T(!new)>(cmp: Comparison<T>, x: T, y: T, z: T)
    requires TotalPreorder(cmp) && cmp(x, y) == 0
    ensures cmp(x, z) == 0 <==> cmp(y, z) == 0
    ensures cmp(y, x) == 0
  {
    assert cmp(x, y) <= 0 && cmp(y, x) <= 0;
    assert cmp(x, z) <= 0 <==> cmp(y, z) <= 0;
    assert cmp(z, x) <= 0 <==> cmp(z, y) <= 0;
  }

  lemma {:induction false} SortedInsertAllPermutes<T>(cmp: Comparison<T>, values: seq<T>)
    ensures multiset(SortedInsertAll(cmp, values)) == multiset(values)
  {
    if values != [] {
      var n := |values| - 1;
      var s := SortedInsertAll(cmp, values[..n]);
      SortedInsertAllPermutes(cmp, values[..n]);
      InsertAddsOne(s, SortedIndex(cmp, s, values[n]), values[n]);
      assert values == values[..n] + [values[n]];
    }
  }

  /** Adding a sequence of values one by one to an empty list sorts it stably. */
  lemma {:induction false} SortedInsertAllIsStableSort<T(!new)>(cmp: Comparison<T>, values: seq<T>)
    requires TotalPreorder(cmp)
    ensures IsStableSortOf(cmp, SortedInsertAll(cmp, values), values)
  {
    hide TotalPreorder, Sorted, SortedInsert;
    if values == [] {
      EmptyIsSorted(cmp);
    } else {
      var n := |values| - 1;
      var (init, v) := (values[..n], values[n]);
      var s := SortedInsertAll(cmp, init);
      SortedInsertAllIsStableSort(cmp, init);
      InsertKeepsSorted(cmp, s, v);
      assert values == init + [v];
      hide Ties;
      forall u
        ensures Ties(cmp, u, SortedInsertAll(cmp, values)) == Ties(cmp, u, values)
      {
        InsertAppendsTie(cmp, s, v, u);
        TiesConcat(cmp, u, init, [v]);
      }
    }
  }

  lemma EmptyIsSorted<T>(cmp: Comparison<T>)
    ensures Sorted(cmp, [])
  {
  }

  /** Two sorted sequences with the same ties everywhere start with the same element. */
  lemma SameHead<T(!new)>(cmp: Comparison<T>, s: seq<T>, t: seq<T>)
    requires TotalPreorder(cmp) && Sorted(cmp, s) && Sorted(cmp, t)
    requires forall v :: Ties(cmp, v, s) == Ties(cmp, v, t)
    requires s != [] && t != []
    ensures s[0] == t[0]
  {
    var (x, y) := (s[0], t[0]);
    assert cmp(x, x) == 0 && cmp(y, y) == 0;
    assert Ties(cmp, x, s)[0] == x && Ties(cmp, y, t)[0] == y;
    TiesHaveTied(cmp, x, t);
    TiesHaveTied(cmp, y, s);
    var j :| 0 <= j < |t| && cmp(x, t[j]) == 0;
    var k :| 0 <= k < |s| && cmp(y, s[k]) == 0;
    assert cmp(y, t[j]) <= 0 && cmp(x, s[k]) <= 0;
    TieIsTransitive(cmp, x, t[j], y);
    TieIsTransitive(cmp, y, s[k], x);
    assert cmp(x, y) <= 0 && cmp(y, x) <= 0;
    assert Ties(cmp, x, t)[0] == y;
  }

  /** There is only one stable sort of a sequence. */
  lemma {:induction false} StableSortIsUnique<T(!new)>(cmp: Comparison<T>, s: seq<T>, t: seq<T>)
    requires TotalPreorder(cmp) && Sorted(cmp, s) && Sorted(cmp, t)
    requires forall v :: Ties(cmp, v, s) == Ties(cmp, v, t)
    ensures s == t
    decreases |s|
  {
    SelfTies(cmp, s);
    SelfTies(cmp, t);
    if s != [] && t != [] {
      SameHead(cmp, s, t);
      hide TotalPreorder;
      forall v
        ensures Ties(cmp, v, s[1..]) == Ties(cmp, v, t[1..])
      {
        SameTail(cmp, s, t, v);
      }
      StableSortIsUnique(cmp, s[1..], t[1..]);
      assert s == [s[0]] + s[1..] && t == [t[0]] + t[1..];
    }
  }

  lemma SelfTies<T(!new)>(cmp: Comparison<T>, s: seq<T>)
    requires TotalPreorder(cmp)
    ensures s != [] ==> Ties(cmp, s[0], s) != []
  {
    if s != [] {
      Flip(cmp, s[0], s[0]);
    }
  }

  lemma SameTail<T>(cmp: Comparison<T>, s: seq<T>, t: seq<T>, v: T)
    requires s != [] && t != [] && s[0] == t[0] && Ties(cmp, v, s) == Ties(cmp, v, t)
    ensures Ties(cmp, v, s[1..]) == Ties(cmp, v, t[1..])
  {
    var first := TieOf(cmp, v, s[0]);
    assert Ties(cmp, v, s[1..]) == (first + Ties(cmp, v, s[1..]))[|first|..];
    assert Ties(cmp, v, t[1..]) == (first + Ties(cmp, v, t[1..]))[|first|..];
  }

  /** So the list built by sorted insertion is the stable sort, whatever way one is obtained. */
  lemma SortedInsertAllIsTheStableSort<T(!new)>(cmp: Comparison<T>, values: seq<T>, other: seq<T>)
    requires TotalPreorder(cmp)
    ensures IsStableSortOf(cmp, other, values) <==> other == SortedInsertAll(cmp, values)
  {
    SortedInsertAllIsStableSort(cmp, values);
    if IsStableSortOf(cmp, other, values) {
      StableSortIsUnique(cmp, other, SortedInsertAll(cmp, values));
    }
  }
}
