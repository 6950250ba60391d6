/**
 * The text of one output record, as write_record produces it: a FASTQ
 * block of four lines or a FASTA block of two, chosen by the output-format
 * string; any other format string is an error. The reader side
 * (ParseRecord) recovers the fields from that text.
 */
module Records {
  import opened Common

  /** A sequencing read: identifier, bases and, for FASTQ input, qualities. */
  datatype Record = Record(id: seq<byte>, bases: seq<byte>, qual: Option<seq<byte>>)

  predicate IsFastqFormat(format: string)
  {
    format == "fastq" || format == "fastq.gz"
  }

  predicate IsFastaFormat(format: string)
  {
    format == "fasta" || format == "fasta.gz"
  }

  /** The four format strings write_record accepts; matching is exact and case-sensitive. */
  predicate SupportedFormat(format: string)
  {
    IsFastqFormat(format) || IsFastaFormat(format)
  }

  predicate NoNewline(s: seq<byte>)
  {
    Free(s, NEWLINE)
  }

  /** `"I".repeat(n)`: the quality line written for a read that has none. */
  function Placeholder(n: nat): (q: seq<byte>)
    ensures |q| == n
    ensures forall i :: 0 <= i < n ==> q[i] == QUAL_I
  {
    seq(n, _ => QUAL_I)
  }

  /** The quality line of a FASTQ record: the read's own, or the placeholder as long as the bases. */
  function QualityLine(bases: seq<byte>, qual: Option<seq<byte>>): (q: seq<byte>)
    ensures qual.None? ==> q == Placeholder(|bases|)
    ensures qual.None? ==> |q| == |bases| && Free(q, NEWLINE)
    ensures qual.Some? ==> q == qual.value
  {
    match qual
    case Some(q) => q
    case None => Placeholder(|bases|)
  }

  /** The bytes write_record sends to the writer. */
  function WriteRecord(id: seq<byte>, bases: seq<byte>, qual: Option<seq<byte>>, format: string): (r: Result<seq<byte>>)
    ensures r.Err? <==> !SupportedFormat(format)
    ensures r.Err? ==> r.error == UnsupportedFormat(format)
  {
    if IsFastqFormat(format) then
      Ok([AT] + id + [NEWLINE] + bases + [NEWLINE, PLUS, NEWLINE] + QualityLine(bases, qual) + [NEWLINE])
    else if IsFastaFormat(format) then
      Ok([GREATER] + id + [NEWLINE] + bases + [NEWLINE])
    else
      Err(UnsupportedFormat(format))
  }

  // ---------------------------------------------------------------------
  // Reading a record back

  /** The text up to the first newline and the text after it; None when there is no newline. */
  function SplitLine(t: seq<byte>): (r: Option<(seq<byte>, seq<byte>)>)
    ensures r.Some? ==> NoNewline(r.value.0) && t == r.value.0 + [NEWLINE] + r.value.1
    ensures r.None? ==> NoNewline(t)
  {
    if |t| == 0 then None
    else if t[0] == NEWLINE then Some(([], t[1..]))
    else
      match SplitLine(t[1..])
      case None => None
      case Some((line, rest)) => Some(([t[0]] + line, rest))
  }

  lemma {:induction false} SplitLineOf(line: seq<byte>, rest: seq<byte>)
    requires NoNewline(line)
    ensures SplitLine(line + [NEWLINE] + rest) == Some((line, rest))
  {
    var t := line + [NEWLINE] + rest;
    if line != [] {
      assert t[1..] == line[1..] + [NEWLINE] + rest;
      SplitLineOf(line[1..], rest);
      assert [t[0]] + line[1..] == line;
    }
  }

  /** What a record's text says: identifier, bases and the quality line if it is FASTQ. */
  datatype Fields = Fields(id: seq<byte>, bases: seq<byte>, qual: Option<seq<byte>>)

  /** Reads one FASTQ block ("@id", bases, "+", qualities) or one FASTA block (">id", bases). */
  function ParseRecord(t: seq<byte>): Option<Fields>
  {
    if |t| == 0 then None
    else if t[0] == AT then
      match SplitLine(t[1..])
      case None => None
      case Some((id, r1)) =>
        match SplitLine(r1)
        case None => None
        case Some((bases, r2)) =>
          if |r2| < 2 || r2[..2] != [PLUS, NEWLINE] then None
          else
            match SplitLine(r2[2..])
            case None => None
            case Some((qual, r3)) => if r3 == [] then Some(Fields(id, bases, Some(qual))) else None
    else if t[0] == GREATER then
      match SplitLine(t[1..])
      case None => None
      case Some((id, r1)) =>
        match SplitLine(r1)
        case None => None
        case Some((bases, r2)) => if r2 == [] then Some(Fields(id, bases, None)) else None
    else None
  }

  lemma ParseFastqText(id: seq<byte>, bases: seq<byte>, q: seq<byte>)
    requires NoNewline(id) && NoNewline(bases) && NoNewline(q)
    ensures ParseRecord([AT] + id + [NEWLINE] + bases + [NEWLINE, PLUS, NEWLINE] + q + [NEWLINE])
         == Some(Fields(id, bases, Some(q)))
  {
    var t := [AT] + id + [NEWLINE] + bases + [NEWLINE, PLUS, NEWLINE] + q + [NEWLINE];
    var r2 := [PLUS, NEWLINE] + q + [NEWLINE];
    var r1 := bases + [NEWLINE] + r2;
    assert t[1..] == id + [NEWLINE] + r1;
    SplitLineOf(id, r1);
    SplitLineOf(bases, r2);
    assert r2[2..] == q + [NEWLINE] + [];
    SplitLineOf(q, []);
  }

  lemma ParseFastaText(id: seq<byte>, bases: seq<byte>)
    requires NoNewline(id) && NoNewline(bases)
    ensures ParseRecord([GREATER] + id + [NEWLINE] + bases + [NEWLINE]) == Some(Fields(id, bases, None))
  {
    var t := [GREATER] + id + [NEWLINE] + bases + [NEWLINE];
    assert t[1..] == id + [NEWLINE] + (bases + [NEWLINE]);
    SplitLineOf(id, bases + [NEWLINE]);
    assert bases + [NEWLINE] == bases + [NEWLINE] + [];
    SplitLineOf(bases, []);
  }

  /**
   * Round trip: when no field holds a newline, reading the written text
   * back gives the identifier, the bases and, for FASTQ, the quality line
   * (the placeholder of 'I's for a read without qualities).
   */
  lemma ParseWriteRecord(id: seq<byte>, bases: seq<byte>, qual: Option<seq<byte>>, format: string)
    requires SupportedFormat(format)
    requires NoNewline(id) && NoNewline(bases) && (qual.Some? ==> NoNewline(qual.value))
    ensures ParseRecord(WriteRecord(id, bases, qual, format).value)
         == Some(Fields(id, bases, if IsFastqFormat(format) then Some(QualityLine(bases, qual)) else None))
  {
    if IsFastqFormat(format) {
      ParseFastqText(id, bases, QualityLine(bases, qual));
    } else {
      ParseFastaText(id, bases);
    }
  }

  lemma WriteParsedFastq(t: seq<byte>, id: seq<byte>, bases: seq<byte>, r2: seq<byte>, qual: seq<byte>)
    requires |t| > 0 && t[0] == AT
    requires t[1..] == id + [NEWLINE] + (bases + [NEWLINE] + r2)
    requires |r2| >= 2 && r2[..2] == [PLUS, NEWLINE] && r2[2..] == qual + [NEWLINE]
    ensures WriteRecord(id, bases, Some(qual), "fastq") == Ok(t)
  {
    var text := [AT] + id + [NEWLINE] + bases + [NEWLINE, PLUS, NEWLINE] + qual + [NEWLINE];
    assert r2 == [PLUS, NEWLINE] + qual + [NEWLINE];
    assert t == [AT] + (id + [NEWLINE] + (bases + [NEWLINE] + ([PLUS, NEWLINE] + qual + [NEWLINE])));
    assert t == text;
  }

  lemma WriteParsedFasta(t: seq<byte>, id: seq<byte>, bases: seq<byte>)
    requires |t| > 0 && t[0] == GREATER
    requires t[1..] == id + [NEWLINE] + (bases + [NEWLINE])
    ensures WriteRecord(id, bases, None, "fasta") == Ok(t)
  {
    var text := [GREATER] + id + [NEWLINE] + bases + [NEWLINE];
    assert t == [GREATER] + (id + [NEWLINE] + (bases + [NEWLINE]));
    assert t == text;
  }

  /** The other direction: any text the reader accepts is exactly what write_record writes for its fields. */
  lemma WriteParsedRecord(t: seq<byte>)
    requires ParseRecord(t).Some?
    ensures var f := ParseRecord(t).value;
      WriteRecord(f.id, f.bases, f.qual, if f.qual.Some? then "fastq" else "fasta") == Ok(t)
  {
    var (id, r1) := SplitLine(t[1..]).value;
    var (bases, r2) := SplitLine(r1).value;
    if t[0] == AT {
      var (qual, r3) := SplitLine(r2[2..]).value;
      WriteParsedFastq(t, id, bases, r2, qual);
    } else {
      assert r2 == [];
      assert r1 == bases + [NEWLINE] + r2;
      WriteParsedFasta(t, id, bases);
    }
  }
}
