/**
 * The reference text the FM-index is built over
 * (read_and_concat_fasta_with_spacer): the reference sequences in input
 * order, neighbours separated by a run of 'N' bytes, and a '$' sentinel
 * at the end. Reading the FASTA file is outside the model; the records
 * arrive as their sequences.
 */
module Build {
  import opened Common

  /** `vec![b'N'; spacer_len]`. */
  function Spacer(n: nat): (s: seq<byte>)
    ensures |s| == n
    ensures forall i :: 0 <= i < n ==> s[i] == BASE_N
  {
    seq(n, _ => BASE_N)
  }

  /** The records with a spacer between each two neighbours and none before the first or after the last. */
  function Joined(records: seq<seq<byte>>, spacerLen: nat): seq<byte>
  {
    if |records| == 0 then []
    else if |records| == 1 then records[0]
    else Joined(records[..|records| - 1], spacerLen) + Spacer(spacerLen) + records[|records| - 1]
  }

  /** The records one after another with nothing between them. */
  function Flatten(records: seq<seq<byte>>): seq<byte>
  {
    if records == [] then [] else Flatten(records[..|records| - 1]) + records[|records| - 1]
  }

  /** The total length of the records. */
  function SumLengths(records: seq<seq<byte>>): nat
  {
    if records == [] then 0 else SumLengths(records[..|records| - 1]) + |records[|records| - 1]|
  }

  /**
   * read_and_concat_fasta_with_spacer, from the point where the records
   * are read: a spacer before every record but the first, each record's
   * bytes, then the sentinel.
   */
  method ReadAndConcatWithSpacer(records: seq<seq<byte>>, spacerLen: nat) returns (concatenated: seq<byte>)
    ensures concatenated == Joined(records, spacerLen) + [DOLLAR]
    ensures |concatenated| >= 1 && concatenated[|concatenated| - 1] == DOLLAR
    ensures records == [] ==> concatenated == [DOLLAR]
  {
    var spacer := Spacer(spacerLen);
    concatenated := [];
    var first := true;
    for i := 0 to |records|
      invariant first <==> i == 0
      invariant concatenated == Joined(records[..i], spacerLen)
    {
      assert records[..i + 1][..i] == records[..i];
      var record := records[i];
      if !first {
        concatenated := concatenated + spacer;
      }
      concatenated := concatenated + record;
      first := false;
    }
    assert records[..|records|] == records;
    // The sentinel, smaller than every base
    concatenated := concatenated + [DOLLAR];
  }

  /** Length: the record lengths plus one spacer between each two neighbours. */
  lemma {:induction false} JoinedLength(records: seq<seq<byte>>, spacerLen: nat)
    requires records != []
    ensures |Joined(records, spacerLen)| == SumLengths(records) + spacerLen * (|records| - 1)
  {
    if |records| > 1 {
      var init := records[..|records| - 1];
      JoinedLength(init, spacerLen);
      assert spacerLen * (|records| - 1) == spacerLen * (|init| - 1) + spacerLen;
    } else {
      assert records[..0] == [];
    }
  }

  /** The text indexed for k >= 1 records is sum of lengths + spacer_len * (k - 1) + 1 bytes long. */
  lemma ConcatLength(records: seq<seq<byte>>, spacerLen: nat)
    requires records != []
    ensures |Joined(records, spacerLen) + [DOLLAR]| == SumLengths(records) + spacerLen * (|records| - 1) + 1
  {
    JoinedLength(records, spacerLen);
  }

  /** With no spacer the records are simply concatenated. */
  lemma {:induction false} ZeroSpacerFlattens(records: seq<seq<byte>>)
    ensures Joined(records, 0) == Flatten(records)
  {
    if |records| > 1 {
      ZeroSpacerFlattens(records[..|records| - 1]);
    } else if |records| == 1 {
      assert records[..0] == [];
    }
  }

  /** Spacers and records without '$' join into a text without '$'. */
  lemma {:induction false} JoinedSentinelFree(records: seq<seq<byte>>, spacerLen: nat)
    requires forall i :: 0 <= i < |records| ==> Free(records[i], DOLLAR)
    ensures Free(Joined(records, spacerLen), DOLLAR)
  {
    if |records| > 1 {
      var init := records[..|records| - 1];
      assert forall i :: 0 <= i < |init| ==> init[i] == records[i];
      JoinedSentinelFree(init, spacerLen);
      var j := Joined(init, spacerLen) + Spacer(spacerLen);
      assert Free(j, DOLLAR) by {
        forall i | 0 <= i < |j|
          ensures j[i] != DOLLAR
        {
          if i >= |Joined(init, spacerLen)| {
            assert j[i] == Spacer(spacerLen)[i - |Joined(init, spacerLen)|];
          }
        }
      }
      var last := records[|records| - 1];
      assert Free(last, DOLLAR);
      forall i | 0 <= i < |j + last|
        ensures (j + last)[i] != DOLLAR
      {
        if i >= |j| {
          assert (j + last)[i] == last[i - |j|];
        }
      }
    }
  }

  /** When no record contains '$', the sentinel occurs once, at the last index. */
  lemma SentinelUnique(records: seq<seq<byte>>, spacerLen: nat)
    requires forall i :: 0 <= i < |records| ==> Free(records[i], DOLLAR)
    ensures var c := Joined(records, spacerLen) + [DOLLAR];
      forall i :: 0 <= i < |c| ==> (c[i] == DOLLAR <==> i == |c| - 1)
  {
    JoinedSentinelFree(records, spacerLen);
  }

  /** Where record i begins: after each earlier record and the spacer that follows it. */
  function Start(records: seq<seq<byte>>, i: nat, spacerLen: nat): nat
    requires i <= |records|
  {
    if i == 0 then 0 else Start(records, i - 1, spacerLen) + |records[i - 1]| + spacerLen
  }

  /** The text for the first k records is a prefix of the text for all of them. */
  lemma {:induction false} JoinedPrefix(records: seq<seq<byte>>, k: nat, spacerLen: nat)
    requires 1 <= k <= |records|
    ensures |Joined(records[..k], spacerLen)| <= |Joined(records, spacerLen)|
    ensures Joined(records, spacerLen)[..|Joined(records[..k], spacerLen)|] == Joined(records[..k], spacerLen)
    decreases |records|
  {
    if k < |records| {
      var init := records[..|records| - 1];
      assert init[..k] == records[..k];
      JoinedPrefix(init, k, spacerLen);
    } else {
      assert records[..k] == records;
    }
  }

  /** The text for the first i + 1 records ends with record i, after a spacer unless i is 0. */
  lemma JoinedLast(records: seq<seq<byte>>, i: nat, spacerLen: nat)
    requires i < |records|
    ensures i == 0 ==> Joined(records[..i + 1], spacerLen) == records[0]
    ensures i > 0 ==>
      Joined(records[..i + 1], spacerLen) == Joined(records[..i], spacerLen) + Spacer(spacerLen) + records[i]
  {
    assert records[..i + 1][..i] == records[..i];
  }

  /** The text for the first k >= 1 records stops one spacer short of where record k begins. */
  lemma {:induction false} PrefixLength(records: seq<seq<byte>>, k: nat, spacerLen: nat)
    requires 1 <= k <= |records|
    ensures |Joined(records[..k], spacerLen)| + spacerLen == Start(records, k, spacerLen)
  {
    JoinedLast(records, k - 1, spacerLen);
    if k > 1 {
      PrefixLength(records, k - 1, spacerLen);
    }
  }

  /** The text for the first i + 1 records ends where record i ends. */
  lemma PrefixEnd(records: seq<seq<byte>>, i: nat, spacerLen: nat)
    requires i < |records|
    ensures |Joined(records[..i + 1], spacerLen)| == Start(records, i, spacerLen) + |records[i]|
  {
    JoinedLast(records, i, spacerLen);
    if i > 0 {
      PrefixLength(records, i, spacerLen);
    }
  }

  /** Layout: record i occupies [Start(i), Start(i) + |record i|) of the joined text, byte for byte. */
  lemma RecordAt(records: seq<seq<byte>>, i: nat, spacerLen: nat)
    requires i < |records|
    ensures Start(records, i, spacerLen) + |records[i]| <= |Joined(records, spacerLen)|
    ensures Joined(records, spacerLen)[Start(records, i, spacerLen)..Start(records, i, spacerLen) + |records[i]|]
         == records[i]
  {
    var c := Joined(records, spacerLen);
    var st := Start(records, i, spacerLen);
    var upto := Joined(records[..i + 1], spacerLen);
    assert |upto| == st + |records[i]| by {
      PrefixEnd(records, i, spacerLen);
    }
    assert upto[st..] == records[i] by {
      JoinedLast(records, i, spacerLen);
    }
    JoinedPrefix(records, i + 1, spacerLen);
    SliceOfPrefix(c, upto, st, |upto|);
    assert upto[st..|upto|] == upto[st..];
  }

  lemma SliceOfPrefix(c: seq<byte>, prefix: seq<byte>, lo: nat, hi: nat)
    requires |prefix| <= |c| && c[..|prefix|] == prefix && lo <= hi <= |prefix|
    ensures c[lo..hi] == prefix[lo..hi]
  {
    forall k | 0 <= k < hi - lo
      ensures c[lo..hi][k] == prefix[lo..hi][k]
    {
      assert c[lo + k] == c[..|prefix|][lo + k];
    }
  }

  lemma MiddleOf(a: seq<byte>, m: seq<byte>, b: seq<byte>)
    ensures (a + m + b)[|a|..|a| + |m|] == m
  {
  }

  /** Layout: between record i and record i + 1 lies exactly the spacer of 'N's. */
  lemma SpacerAfter(records: seq<seq<byte>>, i: nat, spacerLen: nat)
    requires i + 1 < |records|
    ensures Start(records, i + 1, spacerLen) == Start(records, i, spacerLen) + |records[i]| + spacerLen
    ensures Start(records, i + 1, spacerLen) <= |Joined(records, spacerLen)|
    ensures Joined(records, spacerLen)[Start(records, i, spacerLen) + |records[i]|..Start(records, i + 1, spacerLen)]
         == Spacer(spacerLen)
  {
    var c := Joined(records, spacerLen);
    var upto := Joined(records[..i + 1], spacerLen);
    assert Start(records, i, spacerLen) + |records[i]| == |upto| by {
      PrefixEnd(records, i, spacerLen);
    }
    assert Start(records, i + 1, spacerLen) == |upto| + spacerLen by {
      PrefixLength(records, i + 1, spacerLen);
    }
    assert |upto| + spacerLen <= |c| && c[|upto|..|upto| + spacerLen] == Spacer(spacerLen) by {
      var next := Joined(records[..i + 2], spacerLen);
      assert next == upto + Spacer(spacerLen) + records[i + 1] by {
        JoinedLast(records, i + 1, spacerLen);
        assert records[..i + 2][..i + 1] == records[..i + 1];
      }
      JoinedPrefix(records, i + 2, spacerLen);
      SliceOfPrefix(c, next, |upto|, |upto| + spacerLen);
      MiddleOf(upto, Spacer(spacerLen), records[i + 1]);
    }
  }

  /** Layout: the last record ends the joined text; no spacer follows it. */
  lemma LastRecordAtEnd(records: seq<seq<byte>>, spacerLen: nat)
    requires records != []
    ensures Start(records, |records| - 1, spacerLen) + |records[|records| - 1]| == |Joined(records, spacerLen)|
  {
    PrefixEnd(records, |records| - 1, spacerLen);
    assert records[..|records|] == records;
  }
}
