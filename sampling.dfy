/**
 * The row-id sampler shared by the Blocker constructors: for point-read and
 * write tasks it draws `num_queries_per_task` ids with `rand.nextInt(num_tuple)`,
 * and redraws (do/while) while the id is already in the `used_ids` hash set.
 *
 * The random source is a supplied sequence of raw draws. `Accepted` is the
 * specification: the ids the resample loop keeps from a prefix of the draws,
 * in the order it keeps them.
 */
module Sampling {

  /** `Random.nextInt(bound)` for a bound that is not a power of two: the raw
      31-bit draw reduced modulo the bound. */
  function NextInt(raw: nat, bound: nat): (x: int)
    requires bound > 0
    ensures 0 <= x < bound
  {
    raw % bound
  }

  /** No id occurs twice. */
  predicate Distinct(s: seq<int>)
  {
    forall i, j :: 0 <= i < j < |s| ==> s[i] != s[j]
  }

  /** The ids the resample loop accepts from `draws`: a drawn id is kept
      unless an earlier draw already produced it. */
  function Accepted(draws: seq<nat>, bound: nat): seq<int>
    requires bound > 0
  {
    if draws == [] then []
    else
      var kept := Accepted(draws[..|draws| - 1], bound);
      var id := NextInt(draws[|draws| - 1], bound);
      if id in kept then kept else kept + [id]
  }

  /** The accepted ids are pairwise distinct. */
  lemma {:induction false} AcceptedDistinct(draws: seq<nat>, bound: nat)
    requires bound > 0
    ensures Distinct(Accepted(draws, bound))
  {
    if draws != [] {
      AcceptedDistinct(draws[..|draws| - 1], bound);
    }
  }

  /** Every accepted id lies in [0, bound). */
  lemma {:induction false} AcceptedInRange(draws: seq<nat>, bound: nat)
    requires bound > 0
    ensures forall i :: 0 <= i < |Accepted(draws, bound)| ==> 0 <= Accepted(draws, bound)[i] < bound
  {
    if draws != [] {
      AcceptedInRange(draws[..|draws| - 1], bound);
    }
  }

  /** Rejection only drops repeats: an id is accepted exactly when some draw
      produced it. */
  lemma {:induction false} AcceptedMembers(draws: seq<nat>, bound: nat, x: int)
    requires bound > 0
    ensures x in Accepted(draws, bound) <==> exists i :: 0 <= i < |draws| && NextInt(draws[i], bound) == x
  {
    if draws != [] {
      var init := draws[..|draws| - 1];
      AcceptedMembers(init, bound, x);
      if x in Accepted(draws, bound) && x !in Accepted(init, bound) {
        assert NextInt(draws[|draws| - 1], bound) == x;
      }
      if exists i :: 0 <= i < |draws| && NextInt(draws[i], bound) == x {
        var i :| 0 <= i < |draws| && NextInt(draws[i], bound) == x;
        if i < |draws| - 1 {
          assert init[i] == draws[i];
        }
      }
    }
  }

  /** A duplicate-free sequence of ids in [0, bound) has at most `bound`
      entries. */
  lemma {:induction false} DistinctInRangeBound(s: seq<int>, bound: nat)
    requires Distinct(s)
    requires forall i :: 0 <= i < |s| ==> 0 <= s[i] < bound
    ensures |s| <= bound
    decreases |s|
  {
    if s != [] {
      // drop s[0] and close the gap it leaves in [0, bound)
      var first := s[0];
      var rest := seq(|s| - 1, i requires 0 <= i < |s| - 1 =>
                        if s[i + 1] > first then s[i + 1] - 1 else s[i + 1]);
      forall i | 0 <= i < |rest|
        ensures 0 <= rest[i] < bound - 1
      {
        assert s[i + 1] != first;
      }
      forall i, j | 0 <= i < j < |rest|
        ensures rest[i] != rest[j]
      {
        assert s[i + 1] != s[j + 1] && s[i + 1] != first && s[j + 1] != first;
      }
      DistinctInRangeBound(rest, bound - 1);
    }
  }

  /** The resample loop can only collect `n` ids when `n <= num_tuple`: with
      more queries than rows, no stream of draws ever completes it. */
  lemma AcceptedAtMostBound(draws: seq<nat>, bound: nat)
    requires bound > 0
    ensures |Accepted(draws, bound)| <= bound
  {
    AcceptedDistinct(draws, bound);
    AcceptedInRange(draws, bound);
    DistinctInRangeBound(Accepted(draws, bound), bound);
  }

  /**
   * The constructor's fill loop: for q = 0 .. a.Length - 1, draw until the id
   * is not in `used`, add it to `used` and store it in a[q]. Returns how many
   * draws were taken. The loop stops as soon as the array is full, so the
   * last draw taken is the one that completed it.
   */
  method FillDistinctIds(a: array<int>, numTuple: nat, draws: seq<nat>) returns (consumed: nat)
    requires numTuple > 0
    requires |Accepted(draws, numTuple)| >= a.Length
    modifies a
    ensures consumed <= |draws|
    ensures a[..] == Accepted(draws[..consumed], numTuple)
    ensures consumed > 0 ==> |Accepted(draws[..consumed - 1], numTuple)| < a.Length
    ensures Distinct(a[..])
    ensures forall q :: 0 <= q < a.Length ==> 0 <= a[q] < numTuple
  {
    var used: set<int> := {};
    consumed := 0;
    var q := 0;
    while q < a.Length
      invariant 0 <= q <= a.Length
      invariant consumed <= |draws|
      invariant a[..q] == Accepted(draws[..consumed], numTuple)
      invariant forall x :: x in used <==> x in a[..q]
      invariant consumed > 0 ==> |Accepted(draws[..consumed - 1], numTuple)| < q
      invariant q > 0 ==> consumed > 0
    {
      // draw again while the id is already used
      var id := NextInt(draws[consumed], numTuple);
      consumed := consumed + 1;
      while id in used
        invariant 0 < consumed <= |draws|
        invariant Accepted(draws[..consumed - 1], numTuple) == a[..q]
        invariant id == NextInt(draws[consumed - 1], numTuple)
        decreases |draws| - consumed
      {
        assert draws[..consumed][..consumed - 1] == draws[..consumed - 1];
        assert Accepted(draws[..consumed], numTuple) == a[..q];
        id := NextInt(draws[consumed], numTuple);
        consumed := consumed + 1;
      }
      assert draws[..consumed][..consumed - 1] == draws[..consumed - 1];
      assert Accepted(draws[..consumed], numTuple) == a[..q] + [id];
      used := used + {id};
      a[q] := id;
      assert a[..q + 1] == a[..q] + [id];
      q := q + 1;
    }
    assert a[..] == a[..a.Length];
    AcceptedDistinct(draws[..consumed], numTuple);
    AcceptedInRange(draws[..consumed], numTuple);
  }
}
