# RNAsieve core in Dafny

RNAsieve removes rRNA and host reads from sequencing data. `build-index`
joins the reference sequences into one text and builds an FM-index over it.
`filter` then cuts every read, and its reverse complement, into fixed-length
seeds. It looks each seed up in the index and counts the seeds found.
Based on those counts, it writes each read (or read pair) either to the
"matched" (contaminant) outputs or to the "filtered" (clean) outputs.

This project models that logic around the FM-index, which lives in another library:

- `common.dfy` (`Common`) defines bytes, byte constants and the option/result types.
- `paths.dfy` (`Paths`) models `ensure_leading_dot`, `build_output_path`
  (with a Unix model of `Path::parent`, `file_name`, `file_stem` and `join`)
  and `infer_format_from_filename`.
- `records.dfy` (`Records`) models the text `write_record` produces, plus a
  reader for that text so that the text can be shown to be unambiguous.
- `seeds.dfy` (`Seeds`) models `get_seeds_both_strands` as a method with two
  `while` loops. It is proved against the window functions `Windows` and `AllSeeds`.
- `hits.dfy` (`Hits`) models `seed_hits` as a method with a `for` loop. The
  index appears only through its backward search, an opaque function that
  returns `Complete`, `Partial` or `Absent`.
- `filter.dfy` (`Filter`) models the record loop of `filter`.
  - It has a method that pairs, classifies and writes the records to four
    output streams.
  - The method is proved against a pure routing specification: `Pairs`,
    `Route`, `Mates1`/`Mates2` and `RenderAll`.
  - It also models the format choice and the four output paths.
- `build.dfy` (`Build`) models the concatenation loop of
  `read_and_concat_fasta_with_spacer` as a method with a `first` flag. It is
  proved against `Joined`, with layout, length and sentinel lemmas.

Everything is proved for all inputs. The only assumptions are the stated
preconditions: the seed interval is at least 1, and the index reports
`Complete` intervals with `lower <= upper`.

## Model

| member | source | states |
|---|---|---|
| Paths.EnsureLeadingDot | src/filter.rs:15-21 | the result starts with '.'; an already dotted extension is returned unchanged; otherwise the result is '.' followed by the whole extension |
| Paths.EnsureLeadingDotIdempotent | src/filter.rs:15-21 | adding the leading dot twice gives the same as adding it once |
| Paths.SplitFileName | src/filter.rs:26-29 | after skipping trailing '/' and "." components, there is no file name exactly when nothing is left, or only ".", or the path ends in a ".." component. Otherwise the file name is the last component: a plain name (non-empty, no '/', not "." or ".."). The parent is "" when the name is the whole trimmed path; otherwise it is the text before the '/' that precedes the name, with trailing '/' and "." components dropped, or "/" when nothing is left. It is a prefix of the trimmed path and never ends in '/' or a "." component unless it is "/" |
| Paths.FileStem | src/filter.rs:28 | the stem is a non-empty prefix of the name. It differs from the name iff the name has a '.' after its first character, and then it stops at the name's last '.' |
| Paths.OutputFileNameShape | src/filter.rs:31-35 | the new name starts with the prefix. With an empty format, the input's file name follows the prefix. Otherwise a stem of the input name follows, then the dotted format |
| Paths.BuildOutputPath | src/filter.rs:25-38 | fails exactly when the input path has no file name (the source's `unwrap` panics); otherwise returns the parent of the input joined with the new file name |
| Paths.SplitOfJoin | src/filter.rs:37 | joining a parent with a plain name and splitting the result gives back that parent and that name |
| Paths.OutputBesideInput | src/filter.rs:25-38 | the output file lies in the input's own directory: splitting the output path gives the input's parent and the new name (no output directory is involved) |
| Paths.DistinctPrefixesDistinctPaths | src/filter.rs:78-86 | for one input, two different prefixes that do not start with '/' (the matched and the filtered prefix, either possibly empty) give two different output paths |
| Paths.AsciiLower | src/filter.rs:41 | the result is never an upper-case ASCII letter; a character outside 'A'..'Z' is unchanged, and one inside moves up by 32 code points to its lower-case letter |
| Paths.ToAsciiLowercase | src/filter.rs:41 | same length; every character is lowercased independently, and only 'A'..'Z' change |
| Paths.SuffixesExclusive | src/filter.rs:42-45 | no name ends in both a FASTQ extension and a FASTA extension |
| Paths.InferFormatFromFilename | src/filter.rs:40-49 | the result is "fastq" or "fasta"; it is "fasta" iff the lowercased path ends in .fasta, .fasta.gz, .fa or .fa.gz |
| Paths.InferFormatCaseInsensitive | src/filter.rs:41-48 | two paths equal up to ASCII case get the same format |
| Records.Placeholder | src/filter.rs:257 | the placeholder quality line has length n and is all 'I' |
| Records.QualityLine | src/filter.rs:255-257 | the read's own qualities when present; otherwise the all-'I' placeholder with as many bytes as there are bases, with no newline among them |
| Records.WriteRecord | src/filter.rs:244-267 | fails exactly for a format other than "fastq", "fastq.gz", "fasta" and "fasta.gz", with an unsupported-format error naming that format |
| Records.ParseFastqText | src/filter.rs:258 | the text "@id\nseq\n+\nqual\n" reads back as id, seq and qual when no field holds a newline |
| Records.ParseFastaText | src/filter.rs:261 | the text ">id\nseq\n" reads back as id and seq when neither holds a newline |
| Records.ParseWriteRecord | src/filter.rs:253-262 | round trip: the text written for any supported format reads back as the record's id, its bases and, for FASTQ, its quality line ('I's when it had none) |
| Records.WriteParsedRecord | src/filter.rs:253-262 | converse round trip: every text the reader accepts is exactly what `write_record` writes for the fields read |
| Seeds.WindowsFromCount | src/filter.rs:170-173 | from position pos, the loop yields (len - L - pos) / I + 1 windows when the first one fits, and none otherwise |
| Seeds.WindowsFromAt | src/filter.rs:170-173 | the k-th window taken from pos is s[pos + k·I .. pos + k·I + L] and lies inside s |
| Seeds.WindowsSpec | src/filter.rs:169-173 | one strand yields WindowCount windows, and window k is s[k·I .. k·I + L] |
| Seeds.AllSeedsSpec | src/filter.rs:168-181 | strand order: the first WindowCount(len) seeds are the read's windows left to right, and the rest are the reverse complement's windows |
| Seeds.ShortReadNoSeeds | src/filter.rs:170-178 | a read and a reverse complement both shorter than the seed length yield no seeds |
| Seeds.GetSeedsBothStrands | src/filter.rs:165-184 | the loops produce exactly the forward windows followed by the reverse-complement windows |
| Hits.CountHits | src/filter.rs:193-226 | the count never exceeds the number of seeds |
| Hits.CountHitsIsCardinality | src/filter.rs:217-223 | the count equals the number of seed positions whose search is `Complete` with upper > lower |
| Hits.CountHitsAppend | src/filter.rs:192-195 | counts add over concatenation, so the hits of a read are its forward hits plus its reverse-complement hits |
| Hits.CountHitsZero | src/filter.rs:217-223 | the count is 0 iff no seed gives a `Complete` search with a non-empty interval |
| Hits.SeedHits | src/filter.rs:187-229 | the loop's count equals the specified hit count; `Partial`, `Absent` and empty or zero intervals add nothing. The count is at most the number of windows on the two strands, and the method always succeeds |
| Filter.ChooseFormat | src/filter.rs:70-76 | a given format is used as is; without one, the result is `infer_format_from_filename` of the read-1 path, which is always supported |
| Filter.BuildOutputPaths | src/filter.rs:78-86 | succeeds iff read 1 (and read 2, when given) has a file name; the matched and filtered paths of each read are `build_output_path` with the matched and the filtered prefix; read-2 paths exist iff a read 2 is given |
| Filter.ContaminantIfEitherMate | src/filter.rs:133 | a pair is a contaminant iff either mate's hit count reaches the cutoff |
| Filter.CutoffZeroNothingClean | src/filter.rs:133 | with cutoff 0 no pair is clean |
| Filter.CleanMonotoneInCutoff | src/filter.rs:133 | a pair that is clean under one cutoff is clean under every larger cutoff |
| Filter.RoutePermutation | src/filter.rs:133-155 | every pair goes to exactly one side: the two sides together are a permutation of the input pairs |
| Filter.RouteSides | src/filter.rs:133-155 | every matched pair is a contaminant and every filtered pair is clean |
| Filter.MatesSplit | src/filter.rs:135-153 | the mate-2 records of the two sides together are exactly the mate-2 records read, as a multiset: none lost, none duplicated |
| Filter.RouteMonotone | src/filter.rs:133 | a classifier that accepts more pairs as clean sends every pair the stricter one filters to the filtered side as well (multiset inclusion of the filtered sides), so that side is at least as large |
| Filter.CutoffMonotone | src/filter.rs:133 | raising the cutoff never moves a pair from the filtered side to the matched side: every pair filtered under the lower cutoff is filtered under the higher one (multiset inclusion), so the filtered side never shrinks |
| Filter.CutoffZeroAllMatched | src/filter.rs:133-155 | with cutoff 0 every pair goes to the matched side, in input order, and the filtered side stays empty |
| Filter.PairsMates | src/filter.rs:106-131 | the loop is driven by read 1: every read-1 record appears once, in order. Only the first read-2 records, as many as the shorter input has, are paired, and none are paired without a read 2 |
| Filter.RenderAll | src/filter.rs:134-154 | writing a list of records succeeds iff the list is empty or the format is supported |
| Filter.ClassifyPair | src/filter.rs:116-133 | the decision is "clean" iff both mates' hit counts are below the cutoff, a missing mate 2 counting 0 |
| Filter.WrittenIsRouted | src/filter.rs:133-155 | writing pair by pair puts on each side the mate-1 text and mate-2 text of the pairs routed there, in input order |
| Filter.WritePair | src/filter.rs:133-155 | fails iff the format is unsupported, and then writes nothing; otherwise appends mate 1, and mate 2 if present, to the side chosen |
| Filter.FilterRecords | src/filter.rs:106-156 | fails iff the format is unsupported and there is at least one read-1 record, with nothing written. On success the four streams hold the routed pairs' records on their side, in input order, and the number of read-2 records consumed is the smaller of the two input counts |
| Build.Spacer | src/build.rs:46 | the spacer has spacer_len bytes, all 'N' |
| Build.ReadAndConcatWithSpacer | src/build.rs:41-64 | the result is the records joined by spacers, followed by '$'. It is never empty, ends with '$', and is exactly "$" for zero records |
| Build.JoinedLength | src/build.rs:51-58 | k >= 1 joined records have length: sum of record lengths + spacer_len·(k−1) |
| Build.ConcatLength | src/build.rs:53-60 | the concatenated text for k >= 1 records has length: sum of record lengths + spacer_len·(k−1) + 1 |
| Build.ZeroSpacerFlattens | src/build.rs:46-57 | with spacer_len 0 the joined text is the plain concatenation of the records |
| Build.JoinedSentinelFree | src/build.rs:53-57 | records without '$' join into a text without '$' |
| Build.SentinelUnique | src/build.rs:56-60 | if no record contains '$', then '$' occurs in the concatenated text exactly once, at the last index |
| Build.JoinedPrefix | src/build.rs:51-58 | the text for the first k records is a prefix of the text for all records: records appear in input order |
| Build.RecordAt | src/build.rs:56 | record i is copied byte for byte at its start offset (the earlier records and one spacer after each) |
| Build.SpacerAfter | src/build.rs:53-54 | between record i and record i + 1 there are exactly spacer_len 'N' bytes, and record i + 1 starts right after them |
| Build.LastRecordAtEnd | src/build.rs:51-58 | the joined text ends exactly where the last record ends: no spacer follows the last record (and, as `Start` of record 0 is 0, none precedes the first) |

## Left out

- The FM-index is modelled only as its backward search. Suffix array, BWT, `less`, `Occ` and `FMIndex` come from rust-bio and are not part of this model. Backward search is an opaque function-typed parameter.
- Hits.SeedHits: requires that `Complete` intervals have lower <= upper (`WellFormedIndex`). The subtraction at src/filter.rs:220 would underflow otherwise, and that library's behaviour is not visible here.
- The reverse complement (needletail's `reverse_complement`) is an opaque function-typed parameter.
- The index is saved and loaded with bincode, and the index file is created and opened. Both are file I/O and library serialisation.
- FASTA/FASTQ parsing (`parse_fastx_file`, `fasta::Reader`) is not modelled, and neither are its record errors (the `?` on each record).
  - Reads arrive as a sequence of `Record` values, and references as a sequence of byte strings.
- `create_writer` is left out: file creation and the choice between gzip and plain writers. Only the bytes handed to each writer are modelled, as four streams. Files created before a failing write are not modelled.
- `String::from_utf8_lossy` is not modelled: ids, bases and qualities are bytes.
- `println!` logging is not modelled.
- Seeds.GetSeedsBothStrands: requires seed interval >= 1. The command line accepts 0, and with 0 the source's loop never advances once a window fits.
- Seeds.GetSeedsBothStrands: integers are unbounded, so the model assumes that seed_size + seed_interval + the read length fit in `usize`. Outside that range `pos + seed_len` or `pos += interval` (src/filter.rs:170-172) overflows in the source, e.g. with seed size 1 and seed interval `usize::MAX`, and the model does not capture that.
- Path handling is Unix-only: '/' separators, no Windows prefixes. Like `Path::components`, the model skips trailing '/' and "." components and keeps "." and ".." components inside the parent verbatim, as `Path::parent` does.
- The cutoff may be 0. Nothing validates it, and the source then sends every pair to the matched side (Filter.CutoffZeroAllMatched), so it is not a precondition.
- The filter arguments type in src/cli.rs declares neither `matched_prefix` nor `filtered_prefix`, though src/filter.rs reads both. They are parameters of the model. The `outdir` argument is never read by the filter, so the model has none.
- The source calls `seed_hits` for mate 1 before reading mate 2. The model reads mate 2 first, then classifies. Both steps are pure, so the outcome is the same.
- The command-line defaults from src/cli.rs (seed size 20, seed interval 5, cutoff 1, spacer length 50) are ordinary parameter values here. The BWT sampling rate is left out with the index.
