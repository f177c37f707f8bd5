/**
 * `collections.Counter(xs).most_common()`: every distinct element of `xs`
 * with the number of times it occurs, by descending count. Python 2 breaks
 * ties in the order of its dict; this model breaks them by first occurrence.
 */
module Counter {

  /** The distinct elements of `xs` in order of first occurrence. */
  function Dedup<T(==,!new)>(xs: seq<T>): (r: seq<T>)
    ensures forall x :: x in r <==> x in xs
    ensures forall i, j :: 0 <= i < j < |r| ==> r[i] != r[j]
  {
    if xs == [] then []
    else
      var rest := Dedup(xs[..|xs| - 1]);
      var x := xs[|xs| - 1];
      assert xs == xs[..|xs| - 1] + [x];
      if x in rest then rest else rest + [x]
  }

  /** Each element of `u` paired with its number of occurrences in `xs`. */
  function Tally<T(==,!new)>(u: seq<T>, xs: seq<T>): (r: seq<(T, nat)>)
    ensures |r| == |u|
  {
    seq(|u|, i requires 0 <= i < |u| => (u[i], multiset(xs)[u[i]]))
  }

  /** Descending by count. */
  predicate SortedByCount<T>(s: seq<(T, nat)>)
  {
    forall i, j :: 0 <= i < j < |s| ==> s[i].1 >= s[j].1
  }

  /** Puts `e` after every entry whose count is at least its own. */
  function Insert<T>(e: (T, nat), s: seq<(T, nat)>): (r: seq<(T, nat)>)
    ensures multiset(r) == multiset(s) + multiset{e}
    ensures |r| == |s| + 1
  {
    if s == [] || e.1 > s[0].1 then [e] + s
    else
      assert s == [s[0]] + s[1..];
      [s[0]] + Insert(e, s[1..])
  }

  /** A stable insertion sort by descending count. */
  function SortByCount<T>(s: seq<(T, nat)>): (r: seq<(T, nat)>)
    ensures multiset(r) == multiset(s)
  {
    if s == [] then []
    else
      assert s == s[..|s| - 1] + [s[|s| - 1]];
      Insert(s[|s| - 1], SortByCount(s[..|s| - 1]))
  }

  /** `Counter(xs).most_common()`. */
  function MostCommon<T(==,!new)>(xs: seq<T>): seq<(T, nat)>
  {
    SortByCount(Tally(Dedup(xs), xs))
  }

  /** Inserting into a sorted sequence keeps it sorted. */
  lemma {:induction false} InsertSorted<T>(e: (T, nat), s: seq<(T, nat)>)
    requires SortedByCount(s)
    ensures SortedByCount(Insert(e, s))
    decreases |s|
  {
    if s != [] && e.1 <= s[0].1 {
      InsertSorted(e, s[1..]);
      var r := Insert(e, s);
      forall i, j | 0 <= i < j < |r|
        ensures r[i].1 >= r[j].1
      {
        if i == 0 {
          assert r[j] in multiset(s[1..]) + multiset{e} by {
            assert r[j] in r[1..];
          }
        }
      }
    }
  }

  lemma {:induction false} SortByCountSorted<T>(s: seq<(T, nat)>)
    ensures SortedByCount(SortByCount(s))
    decreases |s|
  {
    if s != [] {
      SortByCountSorted(s[..|s| - 1]);
      InsertSorted(s[|s| - 1], SortByCount(s[..|s| - 1]));
    }
  }

  /** The entries come by descending count. */
  lemma MostCommonSorted<T(!new)>(xs: seq<T>)
    ensures SortedByCount(MostCommon(xs))
  {
    SortByCountSorted(Tally(Dedup(xs), xs));
  }

  /** No two entries share an element, so there is one entry per distinct element of `xs`. */
  lemma MostCommonDistinct<T(!new)>(xs: seq<T>)
    ensures forall i, j :: 0 <= i < j < |MostCommon(xs)| ==> MostCommon(xs)[i].0 != MostCommon(xs)[j].0
    ensures |MostCommon(xs)| == |Dedup(xs)|
  {
    var t := Tally(Dedup(xs), xs);
    var mc := MostCommon(xs);
    assert |mc| == |multiset(mc)| == |multiset(t)| == |t|;
    forall i, j | 0 <= i < j < |mc|
      ensures mc[i].0 != mc[j].0
    {
      if mc[i].0 == mc[j].0 {
        MostCommonEntries(xs, mc[i].0, mc[i].1);
        MostCommonEntries(xs, mc[j].0, mc[j].1);
        assert mc[i] == mc[j];
        RepeatedCount(mc, i, j);
        forall a, b | 0 <= a < b < |t| ensures t[a] != t[b] {
          assert t[a].0 == Dedup(xs)[a] && t[b].0 == Dedup(xs)[b];
        }
        DistinctCount(t, mc[i]);
        assert false;
      }
    }
  }

  /** An element at two positions occurs at least twice. */
  lemma RepeatedCount<T>(s: seq<T>, i: nat, j: nat)
    requires i < j < |s| && s[i] == s[j]
    ensures multiset(s)[s[i]] >= 2
  {
    assert s == s[..j] + s[j..];
    assert s[i] in s[..j];
    assert s[j..][0] == s[j];
  }

  /** In a sequence without repetitions every element occurs at most once. */
  lemma {:induction false} DistinctCount<T>(s: seq<T>, e: T)
    requires forall i, j :: 0 <= i < j < |s| ==> s[i] != s[j]
    ensures multiset(s)[e] <= 1
    decreases |s|
  {
    if s != [] {
      var init := s[..|s| - 1];
      assert s == init + [s[|s| - 1]];
      DistinctCount(init, e);
      if s[|s| - 1] == e {
        assert e !in init;
      }
    }
  }

  /** An entry is a distinct element of `xs` with its exact count, and every element of `xs` has an entry. */
  lemma MostCommonEntries<T(!new)>(xs: seq<T>, x: T, n: nat)
    ensures (x, n) in MostCommon(xs) <==> x in xs && n == multiset(xs)[x]
  {
    var t := Tally(Dedup(xs), xs);
    assert (x, n) in MostCommon(xs) <==> (x, n) in t by {
      var mc := MostCommon(xs);
      assert multiset(mc) == multiset(t);
      assert (x, n) in mc <==> (x, n) in multiset(mc);
      assert (x, n) in t <==> (x, n) in multiset(t);
    }
    if x in xs && n == multiset(xs)[x] {
      var i :| 0 <= i < |Dedup(xs)| && Dedup(xs)[i] == x;
      assert t[i] == (x, n);
    }
  }
}
