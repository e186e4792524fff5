/**
 * The array methods the source relies on (`filter`, `map`, `find`, `some`),
 * written once over sequences, with the facts about them that the rest of the
 * model uses.
 */
module Seqs {
  import opened Wrappers

  /** `s.filter(f)`: the elements of `s` that satisfy `f`, in their order in `s`. */
  function Filter<T(!new)>(s: seq<T>, f: T -> bool): (r: seq<T>)
    ensures |r| <= |s|
    ensures forall x :: x in r <==> x in s && f(x)
    ensures forall i :: 0 <= i < |r| ==> f(r[i])
  {
    if s == [] then []
    else if f(s[0]) then [s[0]] + Filter(s[1..], f)
    else Filter(s[1..], f)
  }

  /** Filters by predicates that agree on every element give the same result. */
  lemma {:induction false} FilterExt<T(!new)>(s: seq<T>, f: T -> bool, g: T -> bool)
    requires forall i :: 0 <= i < |s| ==> f(s[i]) == g(s[i])
    ensures Filter(s, f) == Filter(s, g)
  {
    if s != [] {
      FilterExt(s[1..], f, g);
    }
  }

  /** The negation of a predicate. */
  function Not<T>(f: T -> bool): T -> bool
  {
    x => !f(x)
  }

  /** Filtering distributes over concatenation: the order of `s` is kept. */
  lemma {:induction false} FilterConcat<T(!new)>(a: seq<T>, b: seq<T>, f: T -> bool)
    ensures Filter(a + b, f) == Filter(a, f) + Filter(b, f)
  {
    if a == [] {
      assert a + b == b;
    } else {
      assert (a + b)[0] == a[0];
      assert (a + b)[1..] == a[1..] + b;
      FilterConcat(a[1..], b, f);
    }
  }

  /** A filter that every element passes returns its input. */
  lemma {:induction false} FilterKeepsAll<T(!new)>(s: seq<T>, f: T -> bool)
    requires forall i :: 0 <= i < |s| ==> f(s[i])
    ensures Filter(s, f) == s
  {
    if s != [] {
      FilterKeepsAll(s[1..], f);
      assert [s[0]] + s[1..] == s;
    }
  }

  /** `idx` picks the elements of `r` out of `s` at strictly increasing positions. */
  ghost predicate PicksOut<T>(r: seq<T>, s: seq<T>, idx: seq<int>)
  {
    |idx| == |r| &&
    (forall k :: 0 <= k < |idx| ==> 0 <= idx[k] < |s| && s[idx[k]] == r[k]) &&
    (forall k, l :: 0 <= k < l < |idx| ==> idx[k] < idx[l])
  }

  /** `r` is `s` with some elements left out and the others kept in their order. */
  ghost predicate Subsequence<T>(r: seq<T>, s: seq<T>)
  {
    exists idx: seq<int> :: PicksOut(r, s, idx)
  }

  /** Every position moved one place to the right. */
  function Shift(idx: seq<int>): (r: seq<int>)
    ensures |r| == |idx|
    ensures forall k :: 0 <= k < |r| ==> r[k] == idx[k] + 1
  {
    seq(|idx|, k requires 0 <= k < |idx| => idx[k] + 1)
  }

  /** Positions in the tail of `s` are positions in `s` one further on, with or without its head in front. */
  lemma ShiftPicksOut<T>(r: seq<T>, s: seq<T>, idx: seq<int>)
    requires s != [] && PicksOut(r, s[1..], idx)
    ensures PicksOut(r, s, Shift(idx))
    ensures PicksOut([s[0]] + r, s, [0] + Shift(idx))
  {
    var shifted := Shift(idx);
    assert forall k :: 0 <= k < |shifted| ==> s[shifted[k]] == s[1..][idx[k]];
    var cons := [0] + shifted;
    assert forall k :: 1 <= k < |cons| ==> cons[k] == shifted[k - 1];
  }

  /** The positions of `s` whose elements `Filter(s, f)` keeps. */
  function FilterPositions<T(!new)>(s: seq<T>, f: T -> bool): (idx: seq<int>)
    ensures PicksOut(Filter(s, f), s, idx)
  {
    if s == [] then []
    else
      var rest := FilterPositions(s[1..], f);
      ShiftPicksOut(Filter(s[1..], f), s, rest);
      if f(s[0]) then [0] + Shift(rest) else Shift(rest)
  }

  /** A filter keeps the order of its input. */
  lemma FilterIsSubsequence<T(!new)>(s: seq<T>, f: T -> bool)
    ensures Subsequence(Filter(s, f), s)
  {
    var idx := FilterPositions(s, f);
  }

  /** Two filters can be applied in either order. */
  lemma {:induction false} FilterCommutes<T(!new)>(s: seq<T>, f: T -> bool, g: T -> bool)
    ensures Filter(Filter(s, f), g) == Filter(Filter(s, g), f)
  {
    if s != [] {
      FilterCommutes(s[1..], f, g);
      var x, t := s[0], s[1..];
      if f(x) {
        FilterConcat([x], Filter(t, f), g);
      }
      if g(x) {
        FilterConcat([x], Filter(t, g), f);
      }
    }
  }

  /** Every element passes exactly one of `f` and its negation. */
  lemma {:induction false} FilterPartition<T(!new)>(s: seq<T>, f: T -> bool)
    ensures |Filter(s, f)| + |Filter(s, Not(f))| == |s|
  {
    if s != [] {
      FilterPartition(s[1..], f);
    }
  }

  /** `s.map(f)`. */
  function Map<T, U>(s: seq<T>, f: T -> U): (r: seq<U>)
    ensures |r| == |s|
    ensures forall i :: 0 <= i < |s| ==> r[i] == f(s[i])
  {
    seq(|s|, i requires 0 <= i < |s| => f(s[i]))
  }

  /** Filtering after a map is mapping after the filter when the map does not change what the filter sees. */
  lemma {:induction false} FilterMapCommute<T(!new)>(s: seq<T>, g: T -> T, f: T -> bool)
    requires forall x :: f(g(x)) == f(x)
    ensures Filter(Map(s, g), f) == Map(Filter(s, f), g)
  {
    if s != [] {
      assert Map(s, g)[1..] == Map(s[1..], g);
      FilterMapCommute(s[1..], g, f);
      if f(s[0]) {
        assert Map([s[0]] + Filter(s[1..], f), g) == [g(s[0])] + Map(Filter(s[1..], f), g);
      }
    }
  }

  /** `s.findIndex(f)`: the index of the first element that satisfies `f`. */
  function FindIndex<T>(s: seq<T>, f: T -> bool): (r: Option<nat>)
    ensures r.Some? ==> r.value < |s| && f(s[r.value])
    ensures r.Some? ==> forall j :: 0 <= j < r.value ==> !f(s[j])
    ensures r.None? <==> forall i :: 0 <= i < |s| ==> !f(s[i])
  {
    if s == [] then None
    else if f(s[0]) then Some(0)
    else match FindIndex(s[1..], f)
      case None => None
      case Some(k) => Some(k + 1)
  }

  /** `s.find(f)`: the first element that satisfies `f`. */
  function Find<T>(s: seq<T>, f: T -> bool): (r: Option<T>)
    ensures r.Some? ==> r.value in s && f(r.value)
    ensures r.None? <==> forall i :: 0 <= i < |s| ==> !f(s[i])
    ensures r.Some? ==> exists i :: 0 <= i < |s| && s[i] == r.value && forall j :: 0 <= j < i ==> !f(s[j])
  {
    match FindIndex(s, f)
    case None => None
    case Some(k) => Some(s[k])
  }

  /** `s.some(f)`. */
  predicate Any<T>(s: seq<T>, f: T -> bool)
  {
    exists i :: 0 <= i < |s| && f(s[i])
  }

  /** `some`, `find` and a non-empty `filter` ask the same question. */
  lemma AnyIffFound<T(!new)>(s: seq<T>, f: T -> bool)
    ensures Any(s, f) <==> Find(s, f).Some?
    ensures Any(s, f) <==> Filter(s, f) != []
  {
    if Any(s, f) {
      var i :| 0 <= i < |s| && f(s[i]);
      assert s[i] in Filter(s, f);
    }
  }
}
