/**
 * Seed hit counting (seed_hits): every seed of a read is looked up in the
 * FM-index and the seeds found in full, with a non-empty suffix-array
 * interval, are counted.
 */
module Hits {
  import opened Common
  import opened Seeds

  /**
   * What a backward search reports: the whole seed matched, with its
   * suffix-array interval [lower, upper); only a suffix of `len` symbols
   * matched; or nothing matched.
   */
  datatype SearchResult =
    | Complete(lower: nat, upper: nat)
    | Partial(lower: nat, upper: nat, len: nat)
    | Absent

  /** The FM-index, seen only through its backward search. */
  type Index = seq<byte> -> SearchResult

  /** The index reports complete intervals with lower <= upper, so upper - lower never underflows. */
  ghost predicate WellFormedIndex(search: Index)
  {
    forall q :: search(q).Complete? ==> search(q).lower <= search(q).upper
  }

  /** A seed counts as a hit iff it matched completely and its interval is non-empty. */
  predicate IsHit(r: SearchResult)
  {
    r.Complete? && r.upper > r.lower
  }

  /** The number of seeds that are hits. */
  function CountHits(seeds: seq<seq<byte>>, search: Index): (n: nat)
    ensures n <= |seeds|
  {
    if seeds == [] then 0
    else CountHits(seeds[..|seeds| - 1], search) + (if IsHit(search(seeds[|seeds| - 1])) then 1 else 0)
  }

  /** The indices of the seeds that are hits. */
  ghost function HitPositions(seeds: seq<seq<byte>>, search: Index): set<nat>
  {
    set i: nat | i < |seeds| && IsHit(search(seeds[i]))
  }

  /** The count is the size of the set of hitting positions: every hit counted once, nothing else counted. */
  lemma {:induction false} CountHitsIsCardinality(seeds: seq<seq<byte>>, search: Index)
    ensures CountHits(seeds, search) == |HitPositions(seeds, search)|
  {
    if seeds != [] {
      var init := seeds[..|seeds| - 1];
      var last := |seeds| - 1;
      CountHitsIsCardinality(init, search);
      var before := HitPositions(init, search);
      if IsHit(search(seeds[last])) {
        assert HitPositions(seeds, search) == before + {last};
      } else {
        assert HitPositions(seeds, search) == before;
      }
    }
  }

  /** Counts add up over concatenation: the hits of a read are its forward hits plus its reverse-complement hits. */
  lemma {:induction false} CountHitsAppend(a: seq<seq<byte>>, b: seq<seq<byte>>, search: Index)
    ensures CountHits(a + b, search) == CountHits(a, search) + CountHits(b, search)
  {
    if b != [] {
      var b' := b[..|b| - 1];
      assert (a + b)[..|a + b| - 1] == a + b';
      CountHitsAppend(a, b', search);
    } else {
      assert a + b == a;
    }
  }

  /** No hit at all exactly when no seed matched completely with a non-empty interval. */
  lemma {:induction false} CountHitsZero(seeds: seq<seq<byte>>, search: Index)
    ensures CountHits(seeds, search) == 0 <==> forall i :: 0 <= i < |seeds| ==> !IsHit(search(seeds[i]))
  {
    CountHitsIsCardinality(seeds, search);
    var hits := HitPositions(seeds, search);
    if exists i :: 0 <= i < |seeds| && IsHit(search(seeds[i])) {
      var i :| 0 <= i < |seeds| && IsHit(search(seeds[i]));
      assert i in hits;
    } else {
      assert hits == {};
    }
  }

  /** The hit count of a read, from its sequence and the seed settings. */
  function ReadHits(s: seq<byte>, reverseComplement: ReverseComplement, seedLen: nat, interval: nat, search: Index): nat
    requires interval >= 1
  {
    CountHits(AllSeeds(s, reverseComplement(s), seedLen, interval), search)
  }

  /**
   * seed_hits: extracts the seeds, queries each one and counts it when its
   * complete interval is non-empty. Partial and absent results leave the
   * interval bounds at 0 and are skipped. It never fails.
   */
  method SeedHits(s: seq<byte>, reverseComplement: ReverseComplement, seedLen: nat, interval: nat, search: Index)
    returns (count: nat)
    requires interval >= 1
    requires WellFormedIndex(search)
    ensures count == ReadHits(s, reverseComplement, seedLen, interval, search)
    ensures count <= WindowCount(|s|, seedLen, interval) + WindowCount(|reverseComplement(s)|, seedLen, interval)
  {
    var seeds := GetSeedsBothStrands(s, reverseComplement, seedLen, interval);
    AllSeedsSpec(s, reverseComplement(s), seedLen, interval);
    count := 0;
    for i := 0 to |seeds|
      invariant count == CountHits(seeds[..i], search)
    {
      assert seeds[..i + 1][..i] == seeds[..i];
      var result := search(seeds[i]);
      var intervalUpper: nat := 0;
      var intervalLower: nat := 0;
      match result {
        case Complete(lower, upper) =>
          intervalUpper := upper;
          intervalLower := lower;
        case Partial(_, _, _) =>
        case Absent =>
      }
      // No interval: the seed was not found in full
      if intervalUpper == 0 && intervalLower == 0 {
        continue;
      }
      var nHits: nat := intervalUpper - intervalLower;
      if nHits > 0 {
        count := count + 1;
      }
    }
    assert seeds[..|seeds|] == seeds;
  }
}
