/**
 * The record loop of the filter stage: every read-1 record, with the
 * read-2 record at the same position when there is one, is classified by
 * its seed hits and written to the "matched" (contaminant) or "filtered"
 * (clean) outputs.
 */
module Filter {
  import opened Common
  import opened Paths
  import opened Records
  import opened Seeds
  import opened Hits

  // ---------------------------------------------------------------------
  // Settings

  /** The filter settings that drive classification. */
  datatype FilterParams = FilterParams(seedSize: nat, seedInterval: nat, cutoff: nat)

  /** The output format: the one asked for, otherwise the one inferred from the read-1 file name. */
  function ChooseFormat(outputFormat: Option<string>, read1Path: string): (format: string)
    ensures outputFormat.Some? ==> format == outputFormat.value
    ensures outputFormat.None? ==> format == InferFormatFromFilename(read1Path)
    ensures outputFormat.None? ==> SupportedFormat(format)
  {
    match outputFormat
    case Some(f) => f
    case None => InferFormatFromFilename(read1Path)
  }

  /** The four output files; the read-2 ones exist only for paired input. */
  datatype OutputPaths = OutputPaths(matched1: string, matched2: Option<string>, filtered1: string, filtered2: Option<string>)

  /** The output paths built from the read paths, the two prefixes and the format; Err where an `unwrap` panics. */
  function BuildOutputPaths(read1: string, read2: Option<string>, matchedPrefix: string, filteredPrefix: string, format: string)
    : (r: Result<OutputPaths>)
    ensures r.Ok? <==> (SplitFileName(read1).Some? && (read2.Some? ==> SplitFileName(read2.value).Some?))
    ensures r.Ok? ==>
      && Ok(r.value.matched1) == BuildOutputPath(read1, matchedPrefix, format)
      && Ok(r.value.filtered1) == BuildOutputPath(read1, filteredPrefix, format)
      && (r.value.matched2.Some? <==> read2.Some?)
      && (r.value.filtered2.Some? <==> read2.Some?)
      && (read2.Some? ==>
            && Ok(r.value.matched2.value) == BuildOutputPath(read2.value, matchedPrefix, format)
            && Ok(r.value.filtered2.value) == BuildOutputPath(read2.value, filteredPrefix, format))
  {
    var m1 := BuildOutputPath(read1, matchedPrefix, format);
    if m1.Err? then Err(m1.error)
    else
      var f1 := BuildOutputPath(read1, filteredPrefix, format);
      match read2
      case None => Ok(OutputPaths(m1.value, None, f1.value, None))
      case Some(path2) =>
        var m2 := BuildOutputPath(path2, matchedPrefix, format);
        if m2.Err? then Err(m2.error)
        else
          var f2 := BuildOutputPath(path2, filteredPrefix, format);
          Ok(OutputPaths(m1.value, Some(m2.value), f1.value, Some(f2.value)))
  }

  // ---------------------------------------------------------------------
  // Classification

  /** A pair is clean iff both mates' hit counts are below the cutoff. */
  predicate IsClean(r1Hits: nat, r2Hits: nat, cutoff: nat)
  {
    r1Hits < cutoff && r2Hits < cutoff
  }

  /** OR semantics across mates: a pair is a contaminant as soon as one mate reaches the cutoff. */
  lemma ContaminantIfEitherMate(r1Hits: nat, r2Hits: nat, cutoff: nat)
    ensures !IsClean(r1Hits, r2Hits, cutoff) <==> (r1Hits >= cutoff || r2Hits >= cutoff)
  {
  }

  /** With cutoff 0 nothing is clean. */
  lemma CutoffZeroNothingClean(r1Hits: nat, r2Hits: nat)
    ensures !IsClean(r1Hits, r2Hits, 0)
  {
  }

  /** Raising the cutoff never turns a clean pair into a contaminant. */
  lemma CleanMonotoneInCutoff(r1Hits: nat, r2Hits: nat, cutoff: nat, cutoff': nat)
    requires cutoff <= cutoff' && IsClean(r1Hits, r2Hits, cutoff)
    ensures IsClean(r1Hits, r2Hits, cutoff')
  {
  }

  /** A read-1 record with the read-2 record read alongside it, if any. */
  datatype Pair = Pair(mate1: Record, mate2: Option<Record>)

  /**
   * Positional pairing: the i-th read-1 record goes with the i-th read-2
   * record while read 2 lasts; later read-1 records go alone.
   */
  function Pairs(reads1: seq<Record>, reads2: Option<seq<Record>>): seq<Pair>
  {
    seq(|reads1|, i requires 0 <= i < |reads1| =>
      Pair(reads1[i], if reads2.Some? && i < |reads2.value| then Some(reads2.value[i]) else None))
  }

  /** The hit count of a read under the given settings. */
  function MateHits(r: Record, params: FilterParams, reverseComplement: ReverseComplement, search: Index): nat
    requires params.seedInterval >= 1
  {
    ReadHits(r.bases, reverseComplement, params.seedSize, params.seedInterval, search)
  }

  /** The classification of a pair: a missing mate 2 counts 0 hits. */
  predicate PairIsClean(p: Pair, params: FilterParams, reverseComplement: ReverseComplement, search: Index)
    requires params.seedInterval >= 1
  {
    IsClean(MateHits(p.mate1, params, reverseComplement, search),
            if p.mate2.Some? then MateHits(p.mate2.value, params, reverseComplement, search) else 0,
            params.cutoff)
  }

  /** The classification under fixed settings, as a test on pairs. */
  function Classifier(params: FilterParams, reverseComplement: ReverseComplement, search: Index): Pair -> bool
    requires params.seedInterval >= 1
  {
    p => PairIsClean(p, params, reverseComplement, search)
  }

  // ---------------------------------------------------------------------
  // Routing

  /** The pairs sent to the matched side and to the filtered side, each in input order. */
  datatype Routing = Routing(matched: seq<Pair>, filtered: seq<Pair>)

  function Route(ps: seq<Pair>, clean: Pair -> bool): Routing
  {
    if ps == [] then Routing([], [])
    else
      var r := Route(ps[..|ps| - 1], clean);
      var p := ps[|ps| - 1];
      if clean(p) then Routing(r.matched, r.filtered + [p]) else Routing(r.matched + [p], r.filtered)
  }

  /** The mate-1 records of some pairs. */
  function Mates1(ps: seq<Pair>): (rs: seq<Record>)
    ensures |rs| == |ps|
  {
    if ps == [] then [] else Mates1(ps[..|ps| - 1]) + [ps[|ps| - 1].mate1]
  }

  /** The mate-2 records of those pairs that have one. */
  function Mates2(ps: seq<Pair>): (rs: seq<Record>)
    ensures |rs| <= |ps|
  {
    if ps == [] then []
    else Mates2(ps[..|ps| - 1]) + (match ps[|ps| - 1].mate2 case Some(r) => [r] case None => [])
  }

  /** Routing loses and duplicates nothing: the two sides together hold exactly the input pairs. */
  lemma {:induction false} RoutePermutation(ps: seq<Pair>, clean: Pair -> bool)
    ensures var r := Route(ps, clean);
      && |r.matched| + |r.filtered| == |ps|
      && multiset(r.matched) + multiset(r.filtered) == multiset(ps)
  {
    if ps != [] {
      var init := ps[..|ps| - 1];
      RoutePermutation(init, clean);
      assert ps == init + [ps[|ps| - 1]];
    }
  }

  /** Every matched pair is a contaminant and every filtered pair is clean. */
  lemma {:induction false} RouteSides(ps: seq<Pair>, clean: Pair -> bool)
    ensures forall i :: 0 <= i < |Route(ps, clean).matched| ==> !clean(Route(ps, clean).matched[i])
    ensures forall i :: 0 <= i < |Route(ps, clean).filtered| ==> clean(Route(ps, clean).filtered[i])
  {
    if ps != [] {
      RouteSides(ps[..|ps| - 1], clean);
    }
  }

  /** Mate 2 goes with mate 1: the read-2 records on each side are exactly the mates of that side's pairs. */
  lemma {:induction false} MatesSplit(ps: seq<Pair>, clean: Pair -> bool)
    ensures multiset(Mates2(Route(ps, clean).matched)) + multiset(Mates2(Route(ps, clean).filtered))
         == multiset(Mates2(ps))
  {
    if ps != [] {
      var init := ps[..|ps| - 1];
      var p := ps[|ps| - 1];
      var r := Route(init, clean);
      MatesSplit(init, clean);
      var x := match p.mate2 case Some(q) => [q] case None => [];
      MultisetAppend(Mates2(r.matched), Mates2(r.filtered), Mates2(init), x);
      if clean(p) {
        Mates2Snoc(r.filtered, p);
      } else {
        Mates2Snoc(r.matched, p);
      }
    }
  }

  lemma MultisetAppend(a: seq<Record>, b: seq<Record>, c: seq<Record>, x: seq<Record>)
    requires multiset(a) + multiset(b) == multiset(c)
    ensures multiset(a) + multiset(b + x) == multiset(c + x)
    ensures multiset(a + x) + multiset(b) == multiset(c + x)
  {
  }

  lemma Mates2Snoc(side: seq<Pair>, p: Pair)
    ensures Mates2(side + [p]) == Mates2(side) + (match p.mate2 case Some(r) => [r] case None => [])
  {
    assert (side + [p])[..|side|] == side;
  }

  /** A stricter classifier never routes more pairs to the filtered side: what it filters, the other filters too. */
  lemma {:induction false} RouteMonotone(ps: seq<Pair>, clean: Pair -> bool, clean': Pair -> bool)
    requires forall p :: clean(p) ==> clean'(p)
    ensures multiset(Route(ps, clean).filtered) <= multiset(Route(ps, clean').filtered)
    ensures |Route(ps, clean).filtered| <= |Route(ps, clean').filtered|
  {
    if ps != [] {
      RouteMonotone(ps[..|ps| - 1], clean, clean');
    }
  }

  /** Raising the cutoff never moves a pair from the filtered side to the matched side. */
  lemma CutoffMonotone(ps: seq<Pair>, params: FilterParams, cutoff': nat, reverseComplement: ReverseComplement, search: Index)
    requires params.seedInterval >= 1 && params.cutoff <= cutoff'
    ensures multiset(Route(ps, Classifier(params, reverseComplement, search)).filtered)
         <= multiset(Route(ps, Classifier(params.(cutoff := cutoff'), reverseComplement, search)).filtered)
    ensures |Route(ps, Classifier(params, reverseComplement, search)).filtered|
         <= |Route(ps, Classifier(params.(cutoff := cutoff'), reverseComplement, search)).filtered|
  {
    RouteMonotone(ps, Classifier(params, reverseComplement, search),
                      Classifier(params.(cutoff := cutoff'), reverseComplement, search));
  }

  /** With cutoff 0 every pair goes to the matched side. */
  lemma {:induction false} CutoffZeroAllMatched(ps: seq<Pair>, params: FilterParams, reverseComplement: ReverseComplement, search: Index)
    requires params.seedInterval >= 1 && params.cutoff == 0
    ensures Route(ps, Classifier(params, reverseComplement, search)) == Routing(ps, [])
  {
    if ps != [] {
      CutoffZeroAllMatched(ps[..|ps| - 1], params, reverseComplement, search);
      assert ps[..|ps| - 1] + [ps[|ps| - 1]] == ps;
    }
  }

  /**
   * The loop is driven by read 1: every read-1 record is written once, and
   * only the first min(|reads1|, |reads2|) read-2 records are ever read and written.
   */
  lemma {:induction false} PairsMates(reads1: seq<Record>, reads2: Option<seq<Record>>)
    ensures Mates1(Pairs(reads1, reads2)) == reads1
    ensures reads2.None? ==> Mates2(Pairs(reads1, reads2)) == []
    ensures reads2.Some? ==>
      var n := if |reads1| < |reads2.value| then |reads1| else |reads2.value|;
      Mates2(Pairs(reads1, reads2)) == reads2.value[..n]
  {
    if reads1 != [] {
      var init := reads1[..|reads1| - 1];
      PairsMates(init, reads2);
      assert Pairs(reads1, reads2)[..|reads1| - 1] == Pairs(init, reads2);
      if reads2.Some? && |reads1| - 1 < |reads2.value| {
        assert reads2.value[..|reads1|] == reads2.value[..|reads1| - 1] + [reads2.value[|reads1| - 1]];
      }
    }
  }

  // ---------------------------------------------------------------------
  // Writing

  /** The text of some records written one after another; the first write error stops it. */
  function RenderAll(rs: seq<Record>, format: string): (r: Result<seq<byte>>)
    ensures r.Ok? <==> (rs == [] || SupportedFormat(format))
  {
    if rs == [] then Ok([])
    else
      var last := rs[|rs| - 1];
      match RenderAll(rs[..|rs| - 1], format)
      case Err(e) => Err(e)
      case Ok(text) =>
        match WriteRecord(last.id, last.bases, last.qual, format)
        case Err(e) => Err(e)
        case Ok(t) => Ok(text + t)
  }

  /** The four output streams and how many read-2 records the loop consumed. */
  datatype Streams = Streams(matched1: seq<byte>, matched2: seq<byte>, filtered1: seq<byte>, filtered2: seq<byte>)

  /** What the record loop writes on success: each side's mate-1 and mate-2 records in input order. */
  function Expected(routing: Routing, format: string): Streams
    requires SupportedFormat(format)
  {
    Streams(RenderAll(Mates1(routing.matched), format).value, RenderAll(Mates2(routing.matched), format).value,
            RenderAll(Mates1(routing.filtered), format).value, RenderAll(Mates2(routing.filtered), format).value)
  }

  lemma RenderStep(rs: seq<Record>, r: Record, format: string)
    requires SupportedFormat(format)
    ensures RenderAll(rs + [r], format).value
         == RenderAll(rs, format).value + WriteRecord(r.id, r.bases, r.qual, format).value
  {
  }

  /** The text of a pair's mate 1. */
  function Text1(p: Pair, format: string): seq<byte>
    requires SupportedFormat(format)
  {
    WriteRecord(p.mate1.id, p.mate1.bases, p.mate1.qual, format).value
  }

  /** The text of a pair's mate 2; nothing when there is none. */
  function Text2(p: Pair, format: string): seq<byte>
    requires SupportedFormat(format)
  {
    if p.mate2.Some? then WriteRecord(p.mate2.value.id, p.mate2.value.bases, p.mate2.value.qual, format).value else []
  }

  /** The text of a pair's mates, appended to the side the pair is routed to. */
  function Emit(out: Streams, p: Pair, toFiltered: bool, format: string): Streams
    requires SupportedFormat(format)
  {
    if toFiltered then out.(filtered1 := out.filtered1 + Text1(p, format), filtered2 := out.filtered2 + Text2(p, format))
    else out.(matched1 := out.matched1 + Text1(p, format), matched2 := out.matched2 + Text2(p, format))
  }

  /** One more pair on a side adds its mates' text to that side's two streams. */
  lemma RenderMatesStep(side: seq<Pair>, p: Pair, format: string)
    requires SupportedFormat(format)
    ensures RenderAll(Mates1(side + [p]), format).value == RenderAll(Mates1(side), format).value + Text1(p, format)
    ensures RenderAll(Mates2(side + [p]), format).value == RenderAll(Mates2(side), format).value + Text2(p, format)
  {
    assert (side + [p])[..|side|] == side;
    RenderStep(Mates1(side), p.mate1, format);
    if p.mate2.Some? {
      RenderStep(Mates2(side), p.mate2.value, format);
    } else {
      assert Mates2(side + [p]) == Mates2(side);
    }
  }

  lemma ExpectedStep(ps: seq<Pair>, clean: Pair -> bool, format: string)
    requires SupportedFormat(format) && ps != []
    ensures var p := ps[|ps| - 1];
      Expected(Route(ps, clean), format) == Emit(Expected(Route(ps[..|ps| - 1], clean), format), p, clean(p), format)
  {
    var p := ps[|ps| - 1];
    var r := Route(ps[..|ps| - 1], clean);
    if clean(p) {
      RenderMatesStep(r.filtered, p, format);
    } else {
      RenderMatesStep(r.matched, p, format);
    }
  }

  /**
   * The decision of the record loop: both mates' seed hits below the
   * cutoff, a mate 2 that was not read counting 0.
   */
  method ClassifyPair(p: Pair, params: FilterParams, reverseComplement: ReverseComplement, search: Index)
    returns (toFiltered: bool)
    requires params.seedInterval >= 1
    requires WellFormedIndex(search)
    ensures toFiltered == PairIsClean(p, params, reverseComplement, search)
  {
    var r1Hits := SeedHits(p.mate1.bases, reverseComplement, params.seedSize, params.seedInterval, search);
    var r2Hits := 0;
    if p.mate2.Some? {
      r2Hits := SeedHits(p.mate2.value.bases, reverseComplement, params.seedSize, params.seedInterval, search);
    }
    toFiltered := r1Hits < params.cutoff && r2Hits < params.cutoff;
  }

  /** What the record loop has written after the given pairs, pair by pair. */
  function Written(ps: seq<Pair>, clean: Pair -> bool, format: string): Streams
    requires SupportedFormat(format)
  {
    if ps == [] then Streams([], [], [], [])
    else Emit(Written(ps[..|ps| - 1], clean, format), ps[|ps| - 1], clean(ps[|ps| - 1]), format)
  }

  lemma WrittenStep(ps: seq<Pair>, i: nat, clean: Pair -> bool, format: string, before: Streams, p: Pair, after: Streams)
    requires SupportedFormat(format) && i < |ps| && p == ps[i]
    requires before == Written(ps[..i], clean, format) && after == Emit(before, p, clean(p), format)
    ensures after == Written(ps[..i + 1], clean, format)
  {
    assert ps[..i + 1][..i] == ps[..i];
  }

  /** Writing pair by pair yields, on each side, the records routed there. */
  lemma {:induction false} WrittenIsRouted(ps: seq<Pair>, clean: Pair -> bool, format: string)
    requires SupportedFormat(format)
    ensures Written(ps, clean, format) == Expected(Route(ps, clean), format)
  {
    if ps != [] {
      WrittenIsRouted(ps[..|ps| - 1], clean, format);
      ExpectedStep(ps, clean, format);
    }
  }

  /**
   * Writes a classified pair: mate 1, then mate 2 if one was read, to the
   * filtered side when the pair is clean and to the matched side otherwise.
   * The first failing write stops it and nothing is written.
   */
  method WritePair(out: Streams, p: Pair, toFiltered: bool, format: string) returns (status: Outcome, out': Streams)
    ensures status.Fail? <==> !SupportedFormat(format)
    ensures status.Fail? ==> status.error == UnsupportedFormat(format) && out' == out
    ensures status.Pass? ==> out' == Emit(out, p, toFiltered, format)
  {
    out' := out;
    var w1 := WriteRecord(p.mate1.id, p.mate1.bases, p.mate1.qual, format);
    if w1.Err? {
      return Fail(w1.error), out;
    }
    status := Pass;
    var t2: seq<byte> := [];
    if p.mate2.Some? {
      var w2 := WriteRecord(p.mate2.value.id, p.mate2.value.bases, p.mate2.value.qual, format);
      t2 := w2.value;
    }
    if toFiltered {
      out' := out'.(filtered1 := out'.filtered1 + w1.value, filtered2 := out'.filtered2 + t2);
    } else {
      out' := out'.(matched1 := out'.matched1 + w1.value, matched2 := out'.matched2 + t2);
    }
  }

  /**
   * The record loop of filter. Each read-1 record is classified together
   * with the read-2 record at the same position (read 2 is read only while
   * it lasts) and both are written to the same side. An unsupported output
   * format fails at the first write; an empty read-1 input writes nothing
   * and succeeds whatever the format. `consumed2` is how many read-2
   * records were taken from the read-2 input.
   */
  method FilterRecords(params: FilterParams, format: string, reverseComplement: ReverseComplement, search: Index,
                       reads1: seq<Record>, reads2: Option<seq<Record>>)
    returns (status: Outcome, out: Streams, consumed2: nat)
    requires params.seedInterval >= 1
    requires WellFormedIndex(search)
    ensures status.Fail? <==> (!SupportedFormat(format) && reads1 != [])
    ensures status.Fail? ==> status.error == UnsupportedFormat(format) && out == Streams([], [], [], [])
    ensures status.Pass? && SupportedFormat(format) ==>
      out == Expected(Route(Pairs(reads1, reads2), Classifier(params, reverseComplement, search)), format)
    ensures status.Pass? && !SupportedFormat(format) ==> out == Streams([], [], [], [])
    ensures status.Pass? ==>
      consumed2 == (if reads2.None? then 0 else if |reads1| < |reads2.value| then |reads1| else |reads2.value|)
  {
    out := Streams([], [], [], []);
    ghost var clean := Classifier(params, reverseComplement, search);
    ghost var ps := Pairs(reads1, reads2);
    consumed2 := 0;
    var i := 0;
    while i < |reads1|
      invariant 0 <= i <= |reads1|
      invariant !SupportedFormat(format) ==> i == 0 && out == Streams([], [], [], [])
      invariant consumed2 == (if reads2.None? then 0 else if i < |reads2.value| then i else |reads2.value|)
      invariant SupportedFormat(format) ==> out == Written(ps[..i], clean, format)
    {
      // reader2.next(), while read 2 lasts
      var rec2: Option<Record> := None;
      if reads2.Some? && consumed2 < |reads2.value| {
        rec2 := Some(reads2.value[consumed2]);
        consumed2 := consumed2 + 1;
      }
      var p := Pair(reads1[i], rec2);
      assert p == ps[i];
      var toFiltered := ClassifyPair(p, params, reverseComplement, search);
      assert toFiltered == clean(ps[i]);

      ghost var before := out;
      var written;
      written, out := WritePair(out, p, toFiltered, format);
      if written.Fail? {
        return written, out, consumed2;
      }
      WrittenStep(ps, i, clean, format, before, p, out);
      i := i + 1;
    }
    assert ps[..|reads1|] == ps;
    if SupportedFormat(format) {
      WrittenIsRouted(ps, clean, format);
    }
    status := Pass;
  }
}
