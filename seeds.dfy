/**
 * Seed extraction (get_seeds_both_strands): fixed-length windows taken at a
 * fixed step from a read, then from its reverse complement.
 */
module Seeds {
  import opened Common

  /** The reverse complement of a read, computed outside this model. */
  type ReverseComplement = seq<byte> -> seq<byte>

  /** The windows of length `seedLen` starting at `pos`, `pos + interval`, ... that fit in `s`. */
  function WindowsFrom(s: seq<byte>, seedLen: nat, interval: nat, pos: nat): seq<seq<byte>>
    requires interval >= 1
    decreases |s| - pos
  {
    if pos + seedLen > |s| then []
    else [s[pos..pos + seedLen]] + WindowsFrom(s, seedLen, interval, pos + interval)
  }

  /** All windows of one strand, left to right. */
  function Windows(s: seq<byte>, seedLen: nat, interval: nat): seq<seq<byte>>
    requires interval >= 1
  {
    WindowsFrom(s, seedLen, interval, 0)
  }

  /** The seeds of a read: its own windows, then those of its reverse complement `rc`. */
  function AllSeeds(s: seq<byte>, rc: seq<byte>, seedLen: nat, interval: nat): seq<seq<byte>>
    requires interval >= 1
  {
    Windows(s, seedLen, interval) + Windows(rc, seedLen, interval)
  }

  /** The closed-form number of windows in a strand of length n: floor((n - L) / I) + 1 when n >= L, else 0. */
  function WindowCount(n: nat, seedLen: nat, interval: nat): nat
    requires interval >= 1
  {
    if n < seedLen then 0 else (n - seedLen) / interval + 1
  }

  lemma DivStep(x: nat, d: nat)
    requires d >= 1 && x >= d
    ensures (x - d) / d + 1 == x / d
  {
    var q, r := (x - d) / d, (x - d) % d;
    assert x - d == q * d + r;
    assert x == (q + 1) * d + r;
    DivUnique(x, d, q + 1, r);
  }

  lemma DivUnique(x: nat, d: nat, q: nat, r: nat)
    requires d >= 1 && 0 <= r < d && x == q * d + r
    ensures x / d == q
  {
    var q' := x / d;
    assert q' * d <= x < q' * d + d;
    assert q' * d + d == (q' + 1) * d;
    assert q * d + d == (q + 1) * d;
    MulLess(q', q + 1, d);
    MulLess(q, q' + 1, d);
  }

  lemma MulLess(a: int, b: int, d: int)
    requires d >= 1 && a * d < b * d
    ensures a < b
  {
    assert (b - a) * d == b * d - a * d;
  }

  lemma SmallDiv(x: nat, d: nat)
    requires x < d
    ensures x / d == 0
  {
  }

  /** The number of windows from `pos`: (|s| - L - pos) / I + 1 when the first fits, else none. */
  lemma {:induction false} WindowsFromCount(s: seq<byte>, seedLen: nat, interval: nat, pos: nat)
    requires interval >= 1
    ensures |WindowsFrom(s, seedLen, interval, pos)|
         == if pos + seedLen > |s| then 0 else (|s| - seedLen - pos) / interval + 1
    decreases |s| - pos
  {
    if pos + seedLen <= |s| {
      WindowsFromCount(s, seedLen, interval, pos + interval);
      var x := |s| - seedLen - pos;
      if pos + interval + seedLen <= |s| {
        DivStep(x, interval);
      } else {
        SmallDiv(x, interval);
      }
    }
  }

  /** The k-th window from `pos` is s[pos + k*I .. pos + k*I + L]. */
  lemma {:induction false} WindowsFromAt(s: seq<byte>, seedLen: nat, interval: nat, pos: nat, k: nat)
    requires interval >= 1
    requires k < |WindowsFrom(s, seedLen, interval, pos)|
    ensures pos + k * interval + seedLen <= |s|
    ensures WindowsFrom(s, seedLen, interval, pos)[k] == s[pos + k * interval..pos + k * interval + seedLen]
    decreases k
  {
    if k > 0 {
      WindowsFromAt(s, seedLen, interval, pos + interval, k - 1);
      assert pos + interval + (k - 1) * interval == pos + k * interval;
    }
  }

  /**
   * The windows from `pos` are exactly s[pos + k*I .. pos + k*I + L] for
   * k = 0 .. (|s| - L - pos) / I, and there are none when the first does not fit.
   */
  lemma WindowsFromSpec(s: seq<byte>, seedLen: nat, interval: nat, pos: nat)
    requires interval >= 1
    ensures var w := WindowsFrom(s, seedLen, interval, pos);
      && |w| == (if pos + seedLen > |s| then 0 else (|s| - seedLen - pos) / interval + 1)
      && forall k :: 0 <= k < |w| ==>
           pos + k * interval + seedLen <= |s| && w[k] == s[pos + k * interval..pos + k * interval + seedLen]
  {
    WindowsFromCount(s, seedLen, interval, pos);
    var w := WindowsFrom(s, seedLen, interval, pos);
    forall k | 0 <= k < |w|
      ensures pos + k * interval + seedLen <= |s| && w[k] == s[pos + k * interval..pos + k * interval + seedLen]
    {
      WindowsFromAt(s, seedLen, interval, pos, k);
    }
  }

  /** Seed-count formula and the position of every window on one strand. */
  lemma WindowsSpec(s: seq<byte>, seedLen: nat, interval: nat)
    requires interval >= 1
    ensures var w := Windows(s, seedLen, interval);
      && |w| == WindowCount(|s|, seedLen, interval)
      && forall k :: 0 <= k < |w| ==>
           k * interval + seedLen <= |s| && w[k] == s[k * interval..k * interval + seedLen]
  {
    WindowsFromSpec(s, seedLen, interval, 0);
  }

  /**
   * Strand order: the first WindowCount(|s|) seeds are the read's windows
   * left to right (placed as WindowsSpec says), the rest the reverse
   * complement's.
   */
  lemma AllSeedsSpec(s: seq<byte>, rc: seq<byte>, seedLen: nat, interval: nat)
    requires interval >= 1
    ensures var seeds := AllSeeds(s, rc, seedLen, interval);
      var n := WindowCount(|s|, seedLen, interval);
      && |seeds| == n + WindowCount(|rc|, seedLen, interval)
      && seeds[..n] == Windows(s, seedLen, interval)
      && seeds[n..] == Windows(rc, seedLen, interval)
  {
    WindowsSpec(s, seedLen, interval);
    WindowsSpec(rc, seedLen, interval);
  }

  /** A read shorter than the seed length, and a reverse complement as short, yield no seeds. */
  lemma ShortReadNoSeeds(s: seq<byte>, rc: seq<byte>, seedLen: nat, interval: nat)
    requires interval >= 1 && |s| < seedLen && |rc| < seedLen
    ensures AllSeeds(s, rc, seedLen, interval) == []
  {
  }

  /**
   * get_seeds_both_strands: slides a window of `seedLen` bytes across the
   * read in steps of `interval`, then across its reverse complement. The
   * source loops forever when `interval` is 0 and a window fits, so the
   * step must be positive.
   */
  method GetSeedsBothStrands(s: seq<byte>, reverseComplement: ReverseComplement, seedLen: nat, interval: nat)
    returns (seeds: seq<seq<byte>>)
    requires interval >= 1
    ensures seeds == AllSeeds(s, reverseComplement(s), seedLen, interval)
  {
    seeds := [];

    // Forward strand
    var pos := 0;
    while pos + seedLen <= |s|
      invariant seeds + WindowsFrom(s, seedLen, interval, pos) == Windows(s, seedLen, interval)
      decreases |s| - pos
    {
      var w := s[pos..pos + seedLen];
      assert seeds + WindowsFrom(s, seedLen, interval, pos)
          == (seeds + [w]) + WindowsFrom(s, seedLen, interval, pos + interval);
      seeds := seeds + [w];
      pos := pos + interval;
    }
    ghost var forward := seeds;
    assert forward == Windows(s, seedLen, interval);

    // Reverse complement strand
    var rc := reverseComplement(s);
    ghost var backward := [];
    pos := 0;
    while pos + seedLen <= |rc|
      invariant seeds == forward + backward
      invariant backward + WindowsFrom(rc, seedLen, interval, pos) == Windows(rc, seedLen, interval)
      decreases |rc| - pos
    {
      var w := rc[pos..pos + seedLen];
      assert backward + WindowsFrom(rc, seedLen, interval, pos)
          == (backward + [w]) + WindowsFrom(rc, seedLen, interval, pos + interval);
      seeds := seeds + [w];
      backward := backward + [w];
      pos := pos + interval;
    }
  }
}
