/** The iterator adaptors the pipelines are built from, on finite
    sequences: `take`, `filter_map` and `map`, each followed by `collect`. */
module Iterators {
  import opened Wrappers

  /** `Iterator::take(n)`: the first `n` elements, or all of them. */
  function Take<T>(s: seq<T>, n: nat): (r: seq<T>)
    ensures |r| == if n <= |s| then n else |s|
    ensures r <= s
  {
    if n <= |s| then s[..n] else s
  }

  /** `Iterator::filter_map(f)`: the `Some` values `f` gives, in order. */
  function FilterMap<A, B>(s: seq<A>, f: A -> Option<B>): (r: seq<B>)
    ensures |r| <= |s|
  {
    if s == [] then []
    else
      match f(s[0])
      case Some(b) => [b] + FilterMap(s[1..], f)
      case None => FilterMap(s[1..], f)
  }

  /** Filtering keeps the input order: it distributes over concatenation. */
  lemma {:induction false} FilterMapAppend<A, B>(s: seq<A>, t: seq<A>, f: A -> Option<B>)
    ensures FilterMap(s + t, f) == FilterMap(s, f) + FilterMap(t, f)
  {
    if s != [] {
      assert (s + t)[0] == s[0] && (s + t)[1..] == s[1..] + t;
      FilterMapAppend(s[1..], t, f);
    } else {
      assert s + t == t;
    }
  }

  /** A value is in the result exactly when `f` gives it for some element. */
  lemma {:induction false} FilterMapMembership<A, B>(s: seq<A>, f: A -> Option<B>, b: B)
    ensures b in FilterMap(s, f) <==> exists k :: 0 <= k < |s| && f(s[k]) == Some(b)
  {
    if s != [] {
      FilterMapMembership(s[1..], f, b);
      assert forall k :: 1 <= k < |s| ==> s[k] == s[1..][k - 1];
      if b in FilterMap(s[1..], f) {
        var j :| 0 <= j < |s[1..]| && f(s[1..][j]) == Some(b);
        assert f(s[j + 1]) == Some(b);
      }
    }
  }

  /** When `f` keeps every element, nothing is dropped and order is kept. */
  lemma {:induction false} FilterMapKeepsAll<A, B>(s: seq<A>, f: A -> Option<B>)
    requires forall k :: 0 <= k < |s| ==> f(s[k]).Some?
    ensures |FilterMap(s, f)| == |s|
    ensures forall k :: 0 <= k < |s| ==> Some(FilterMap(s, f)[k]) == f(s[k])
  {
    if s != [] {
      FilterMapKeepsAll(s[1..], f);
      assert forall k :: 1 <= k < |s| ==> s[k] == s[1..][k - 1];
    }
  }
}
