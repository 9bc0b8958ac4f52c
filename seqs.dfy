/**
 * The array operations the controllers are built from: `findIndex`/`find`
 * (first element satisfying a predicate) and `filter` (every element
 * satisfying it, in order).
 */
module Seqs {
  import opened Wrappers

  /** `Array.prototype.findIndex`, with None standing for -1. */
  function FirstIndex<T>(s: seq<T>, p: T -> bool): (r: Option<nat>)
    ensures r.None? <==> forall i :: 0 <= i < |s| ==> !p(s[i])
    ensures r.Some? ==> r.value < |s| && p(s[r.value])
    ensures r.Some? ==> forall j :: 0 <= j < r.value ==> !p(s[j])
  {
    if s == [] then None
    else if p(s[0]) then Some(0)
    else match FirstIndex(s[1..], p)
      case None => None
      case Some(k) => Some(k + 1)
  }

  /** `Array.prototype.filter`: the elements satisfying `p`, in their original order. */
  function Filter<T>(s: seq<T>, p: T -> bool): (r: seq<T>)
    ensures |r| <= |s|
    ensures forall i :: 0 <= i < |r| ==> r[i] in s && p(r[i])
    ensures forall i :: 0 <= i < |s| && p(s[i]) ==> s[i] in r
  {
    if s == [] then []
    else (if p(s[0]) then [s[0]] else []) + Filter(s[1..], p)
  }

  /** Filtering commutes with concatenation: the relative order of kept elements is preserved. */
  lemma {:induction false} FilterAppend<T>(a: seq<T>, b: seq<T>, p: T -> bool)
    ensures Filter(a + b, p) == Filter(a, p) + Filter(b, p)
  {
    if a == [] {
      assert a + b == b;
    } else {
      assert (a + b)[1..] == a[1..] + b;
      FilterAppend(a[1..], b, p);
    }
  }

  /** When every element satisfies `p`, filtering returns the sequence itself. */
  lemma {:induction false} FilterKeepsAll<T>(s: seq<T>, p: T -> bool)
    requires forall i :: 0 <= i < |s| ==> p(s[i])
    ensures Filter(s, p) == s
  {
    if s != [] {
      FilterKeepsAll(s[1..], p);
    }
  }

  /** An element that fails `p` contributes nothing at the head of a sequence. */
  lemma FilterSkipsHead<T>(x: T, s: seq<T>, p: T -> bool)
    requires !p(x)
    ensures Filter([x] + s, p) == Filter(s, p)
  {
  }

  /** When exactly the element at `i` fails `p`, filtering removes that element and nothing else. */
  lemma FilterDropsOne<T>(s: seq<T>, i: int, p: T -> bool)
    requires 0 <= i < |s| && !p(s[i])
    requires forall k :: 0 <= k < |s| && k != i ==> p(s[k])
    ensures Filter(s, p) == s[..i] + s[i + 1..]
  {
    var front, back := s[..i], s[i + 1..];
    assert s == front + ([s[i]] + back);
    forall k | 0 <= k < |front|
      ensures p(front[k])
    {
      assert front[k] == s[k];
    }
    forall k | 0 <= k < |back|
      ensures p(back[k])
    {
      assert back[k] == s[i + 1 + k];
    }
    FilterKeepsAll(front, p);
    FilterKeepsAll(back, p);
    FilterSkipsHead(s[i], back, p);
    FilterAppend(front, [s[i]] + back, p);
  }
}
