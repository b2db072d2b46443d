/** Sequence edits shared by the data structures. */
module Sequences {
  function InsertAt<T>(s: seq<T>, p: nat, v: T): seq<T>
    requires p <= |s|
  {
    s[..p] + [v] + s[p..]
  }

  function RemoveAt<T>(s: seq<T>, p: nat): seq<T>
    requires p < |s|
  {
    s[..p] + s[p + 1..]
  }

  /** The sequences one after the other. */
  function Flatten<T>(s: seq<seq<T>>): seq<T> {
    if s == [] then [] else Flatten(s[..|s| - 1]) + s[|s| - 1]
  }

  /** No element occurs twice. */
  ghost predicate Injective<T>(s: seq<T>) {
    forall p, q :: 0 <= p < q < |s| ==> s[p] != s[q]
  }

  lemma InsertIndexed<T>(s: seq<T>, p: nat, v: T)
    requires p <= |s|
    ensures |InsertAt(s, p, v)| == |s| + 1 && InsertAt(s, p, v)[p] == v
    ensures forall q :: 0 <= q < p ==> InsertAt(s, p, v)[q] == s[q]
    ensures forall q :: p <= q < |s| ==> InsertAt(s, p, v)[q + 1] == s[q]
  {
  }

  lemma RemoveIndexed<T>(s: seq<T>, p: nat)
    requires p < |s|
    ensures |RemoveAt(s, p)| == |s| - 1
    ensures forall q :: 0 <= q < p ==> RemoveAt(s, p)[q] == s[q]
    ensures forall q :: p < q < |s| ==> RemoveAt(s, p)[q - 1] == s[q]
    ensures forall q :: p <= q < |s| - 1 ==> RemoveAt(s, p)[q] == s[q + 1]
  {
  }

  lemma InsertKeepsInjective<T>(s: seq<T>, p: nat, v: T)
    requires p <= |s| && Injective(s) && v !in s
    ensures Injective(InsertAt(s, p, v))
  {
    var longer := InsertAt(s, p, v);
    forall q, r | 0 <= q < r < |longer|
      ensures longer[q] != longer[r]
    {
      assert longer[q] == if q < p then s[q] else if q == p then v else s[q - 1];
      assert longer[r] == if r < p then s[r] else if r == p then v else s[r - 1];
    }
  }

  lemma RemoveKeepsInjective<T>(s: seq<T>, p: nat)
    requires Injective(s) && p < |s|
    ensures Injective(RemoveAt(s, p))
  {
  }

  lemma OnlyAt<T>(s: seq<T>, p: nat)
    requires Injective(s) && p < |s|
    ensures forall q :: 0 <= q < |s| && q != p ==> s[q] != s[p]
  {
  }

  lemma InsertAddsOne<T>(s: seq<T>, p: nat, v: T)
    requires p <= |s|
    ensures multiset(InsertAt(s, p, v)) == multiset(s) + multiset{v}
  {
    assert s == s[..p] + s[p..];
  }

  lemma {:induction false} InFlatten<T>(s: seq<seq<T>>, x: T)
    ensures x in Flatten(s) <==> exists j :: 0 <= j < |s| && x in s[j]
  {
    if s != [] {
      var n := |s| - 1;
      InFlatten(s[..n], x);
      assert x in Flatten(s[..n]) ==> exists j :: 0 <= j < n && x in s[..n][j];
    }
  }

  lemma ConcatAssociates<T>(a: seq<T>, b: seq<T>, c: seq<T>)
    ensures a + b + c == a + (b + c)
  {
  }

  lemma TailOfConcat<T>(s: seq<T>, t: seq<T>)
    requires s != []
    ensures (s + t)[0] == s[0] && (s + t)[1..] == s[1..] + t
  {
  }
}
