/** `Vec::dedup`, which the ProductHunt pipeline applies to its records:
    consecutive equal elements collapse to the first of their run; equal
    elements that are not next to each other all stay. */
module VecDedup {

  /** The value `dedup` leaves in the vector, defined the way the standard
      library computes it: each element is compared with the last element
      kept so far and dropped when equal to it. */
  function Dedup<T(==)>(s: seq<T>): (r: seq<T>)
    ensures |r| <= |s|
    ensures r == [] <==> s == []
    ensures s != [] ==> r[0] == s[0] && r[|r| - 1] == s[|s| - 1]
  {
    if s == [] then []
    else
      var d := Dedup(s[..|s| - 1]);
      if d != [] && d[|d| - 1] == s[|s| - 1] then d else d + [s[|s| - 1]]
  }

  predicate NoAdjacentDuplicates<T(==)>(s: seq<T>) {
    forall i :: 0 < i < |s| ==> s[i - 1] != s[i]
  }

  /** An independent description of the same result: walking the input,
      an element is kept exactly when it differs from the element just
      before it in the INPUT (the first element is always kept). */
  function RunHeads<T(==)>(s: seq<T>): seq<T> {
    if s == [] then [] else [s[0]] + Followers(s[0], s[1..])
  }

  /** The elements of `s` that differ from their predecessor, where `prev`
      is the element before `s[0]`. */
  function Followers<T(==)>(prev: T, s: seq<T>): seq<T> {
    if s == [] then []
    else (if s[0] == prev then [] else [s[0]]) + Followers(s[0], s[1..])
  }

  lemma {:induction false} FollowersSnoc<T>(prev: T, s: seq<T>, z: T)
    ensures Followers(prev, s + [z]) ==
            Followers(prev, s) + (if z == (if s == [] then prev else s[|s| - 1]) then [] else [z])
  {
    if s == [] {
      assert Followers(z, []) == [];
    } else {
      assert (s + [z])[1..] == s[1..] + [z];
      FollowersSnoc(s[0], s[1..], z);
    }
  }

  /** `Dedup` and `RunHeads` agree: comparing with the last kept element is
      the same as comparing with the immediate predecessor. */
  lemma {:induction false} DedupIsRunHeads<T>(s: seq<T>)
    ensures Dedup(s) == RunHeads(s)
  {
    if s != [] {
      var init, z := s[..|s| - 1], s[|s| - 1];
      assert s == init + [z];
      if init != [] {
        DedupIsRunHeads(init);
        assert (init + [z])[1..] == init[1..] + [z];
        FollowersSnoc(init[0], init[1..], z);
        assert init[1..] == [] ==> init[0] == init[|init| - 1];
        assert init[1..] != [] ==> init[1..][|init[1..]| - 1] == init[|init| - 1];
      } else {
        assert s == [z];
      }
    }
  }

  /** The result never holds two equal neighbours. */
  lemma {:induction false} DedupHasNoAdjacentDuplicates<T>(s: seq<T>)
    ensures NoAdjacentDuplicates(Dedup(s))
  {
    if s != [] {
      DedupHasNoAdjacentDuplicates(s[..|s| - 1]);
    }
  }

  /** Nothing is invented and no value is lost: the result holds exactly the
      values of the input. */
  lemma {:induction false} DedupKeepsValues<T>(s: seq<T>)
    ensures forall x :: x in Dedup(s) <==> x in s
  {
    if s != [] {
      var init := s[..|s| - 1];
      DedupKeepsValues(init);
      assert s == init + [s[|s| - 1]];
    }
  }

  /** A sequence without equal neighbours is left unchanged; in particular
      equal records separated by a different one both survive. */
  lemma {:induction false} DedupOfDistinctNeighbours<T>(s: seq<T>)
    requires NoAdjacentDuplicates(s)
    ensures Dedup(s) == s
  {
    if s != [] {
      var init := s[..|s| - 1];
      assert NoAdjacentDuplicates(init) by {
        forall i | 0 < i < |init| ensures init[i - 1] != init[i] {
          assert s[i - 1] != s[i];
        }
      }
      DedupOfDistinctNeighbours(init);
      if |s| > 1 {
        assert s[|s| - 2] != s[|s| - 1];
      }
      assert s == init + [s[|s| - 1]];
    }
  }

  /** Applying `dedup` twice is the same as applying it once. */
  lemma DedupIdempotent<T>(s: seq<T>)
    ensures Dedup(Dedup(s)) == Dedup(s)
  {
    DedupHasNoAdjacentDuplicates(s);
    DedupOfDistinctNeighbours(Dedup(s));
  }

  /** Deduplicating a prefix of the input gives a prefix of the result. */
  lemma {:induction false} DedupPrefix<T>(s: seq<T>, k: nat)
    requires k <= |s|
    ensures Dedup(s[..k]) <= Dedup(s)
  {
    if k < |s| {
      DedupPrefix(s[..|s| - 1], k);
      assert s[..|s| - 1][..k] == s[..k];
    } else {
      assert s[..k] == s;
    }
  }

  /** Two pieces whose meeting elements differ are deduplicated separately. */
  lemma {:induction false} DedupAppend<T>(a: seq<T>, b: seq<T>)
    requires a != [] && b != [] && a[|a| - 1] != b[0]
    ensures Dedup(a + b) == Dedup(a) + Dedup(b)
    decreases |b|
  {
    var init := b[..|b| - 1];
    assert (a + b)[..|a + b| - 1] == a + init;
    if init == [] {
      assert b == [b[0]];
      assert Dedup(b) == [b[0]];
    } else {
      DedupAppend(a, init);
    }
  }

  /** Two structurally equal consecutive records collapse to one. */
  lemma {:induction false} DedupCollapsesRepeat<T>(p: seq<T>, x: T, q: seq<T>)
    ensures Dedup(p + [x, x] + q) == Dedup(p + [x] + q)
    decreases |q|
  {
    var long, short := p + [x, x] + q, p + [x] + q;
    if q == [] {
      assert long[..|long| - 1] == p + [x];
      assert short == p + [x];
    } else {
      var init := q[..|q| - 1];
      assert long[..|long| - 1] == p + [x, x] + init;
      assert short[..|short| - 1] == p + [x] + init;
      DedupCollapsesRepeat(p, x, init);
    }
  }

  /** Two equal records separated by a different one both survive, still
      separated by it: only ADJACENT duplicates are removed. */
  lemma DedupSeparatedSurvive<T>(p: seq<T>, x: T, y: T, q: seq<T>)
    requires x != y
    ensures var r, i := Dedup(p + [x, y, x] + q), |Dedup(p + [x])| - 1;
            0 <= i <= |r| - 3 && r[i..i + 3] == [x, y, x]
  {
    var a, b := p + [x], [y, x] + q;
    assert p + [x, y, x] + q == a + b;
    DedupAppend(a, b);
    DedupPrefix(b, 2);
    assert b[..2] == [y, x];
    assert Dedup([y, x]) == [y, x] by {
      assert [y, x][..1] == [y];
      assert Dedup([y]) == [y];
    }
    var d := Dedup(a);
    var i := |d| - 1;
    assert (d + Dedup(b))[i..i + 3] == [x, y, x];
  }

  /** One step of the definition: the next input element is compared with
      the last element kept so far. */
  lemma DedupStep<T>(s: seq<T>, i: nat)
    requires 0 < i < |s|
    ensures var d := Dedup(s[..i]);
            Dedup(s[..i + 1]) == if d[|d| - 1] == s[i] then d else d + [s[i]]
  {
    assert s[..i + 1][..i] == s[..i];
  }

  /** `Vec::dedup` on a vector whose contents are `a[..]`: the kept elements
      are moved to the front, and the returned length is the length the
      vector is truncated to. */
  method DedupInPlace<T(==)>(a: array<T>) returns (len: nat)
    modifies a
    ensures len <= a.Length
    ensures a[..len] == Dedup(old(a[..]))
  {
    ghost var s := a[..];
    if a.Length <= 1 {
      assert a.Length == 1 ==> s == s[..0] + [s[0]];
      return a.Length;
    }
    var read, write := 1, 1;
    assert s[..1] == [s[0]];
    assert Dedup(s[..1]) == [s[0]] by { assert s[..1][..0] == []; }
    while read < a.Length
      invariant 1 <= write <= read <= a.Length
      invariant a[..write] == Dedup(s[..read])
      invariant a[read..] == s[read..]
    {
      DedupStep(s, read);
      ghost var before := a[..];
      assert a[read] == s[read] && a[write - 1] == before[..write][write - 1];
      if a[read] != a[write - 1] {
        a[write] := a[read];
        assert a[..write + 1] == before[..write] + [s[read]];
        write := write + 1;
      }
      assert a[read + 1..] == before[read + 1..];
      read := read + 1;
    }
    assert s[..a.Length] == s;
    len := write;
  }
}
