/**
 * File-name handling of the filter stage: the dotted extension, the output
 * path built next to each input, and the format guessed from the read-1
 * file name. Paths are strings separated by '/', as on Unix.
 */
module Paths {
  import opened Common

  predicate StartsWith(s: string, p: string)
  {
    |p| <= |s| && s[..|p|] == p
  }

  predicate EndsWith(s: string, suffix: string)
  {
    |suffix| <= |s| && s[|s| - |suffix|..] == suffix
  }

  predicate HasSlash(s: string)
  {
    exists i :: 0 <= i < |s| && s[i] == '/'
  }

  // ---------------------------------------------------------------------
  // ensure_leading_dot

  /** The extension with exactly one '.' put in front when it has none. */
  function EnsureLeadingDot(ext: string): (r: string)
    ensures StartsWith(r, ".")
    ensures StartsWith(ext, ".") ==> r == ext
    ensures !StartsWith(ext, ".") ==> |r| == |ext| + 1 && r[1..] == ext
  {
    if StartsWith(ext, ".") then ext else "." + ext
  }

  lemma EnsureLeadingDotIdempotent(ext: string)
    ensures EnsureLeadingDot(EnsureLeadingDot(ext)) == EnsureLeadingDot(ext)
  {
  }

  // ---------------------------------------------------------------------
  // Path components: parent directory, final name and its stem

  /**
   * The path without what `Path::components` skips at its end: trailing
   * separators and "." components after a separator. A "." that is the
   * whole remaining path is the current directory and stays.
   */
  function TrimTrailing(s: string): (r: string)
    ensures |r| <= |s| && r == s[..|r|]
    ensures IsTrimmed(r)
    ensures s != [] && r == [] ==> s[0] == '/'
  {
    if |s| > 0 && s[|s| - 1] == '/' then TrimTrailing(s[..|s| - 1])
    else if |s| > 1 && s[|s| - 1] == '.' && s[|s| - 2] == '/' then TrimTrailing(s[..|s| - 1])
    else s
  }

  /** Index of the last occurrence of c, or -1 when there is none. */
  function LastIndexOf(s: string, c: char): (k: int)
    ensures -1 <= k < |s|
    ensures k >= 0 ==> s[k] == c
    ensures forall i :: k < i < |s| ==> s[i] != c
  {
    if |s| == 0 then -1
    else if s[|s| - 1] == c then |s| - 1
    else LastIndexOf(s[..|s| - 1], c)
  }

  /** A path split into the directory that holds it and its final name. */
  datatype PathParts = PathParts(parent: string, fileName: string)

  /** A final component that names a file: not empty, no separator, not "." or "..". */
  predicate IsPlainName(name: string)
  {
    name != "" && name != "." && name != ".." && !HasSlash(name)
  }

  /**
   * A parent as `Path::parent` yields it: empty, the root, or a path that
   * ends neither with '/' nor with a "." component.
   */
  predicate IsParent(dir: string)
  {
    dir == "" || dir == "/" || (dir[|dir| - 1] != '/' && !EndsWith(dir, "/."))
  }

  /**
   * `Path::parent` and `Path::file_name` of a path. The file name is the
   * last component once trailing separators and "." components are
   * skipped; there is none (None) when that leaves nothing, the current
   * directory ".", or a ".." component. The parent is what precedes the
   * '/' before the name (see ParentBefore).
   */
  function SplitFileName(path: string): (r: Option<PathParts>)
    ensures r.None? <==> IsNoName(TrimTrailing(path))
    ensures r.Some? ==> IsSplitOf(TrimTrailing(path), r.value)
  {
    SplitTrimmed(TrimTrailing(path))
  }

  /** A path that ends neither with '/' nor with a "." component after a '/'. */
  predicate IsTrimmed(t: string)
  {
    t == [] || (t[|t| - 1] != '/' && !EndsWith(t, "/."))
  }

  /**
   * parts splits the trimmed path t: its file name is a plain name and the
   * last component of t, and its parent is ParentBefore the '/' that
   * precedes the name, so a prefix of t.
   */
  predicate IsSplitOf(t: string, parts: PathParts)
  {
    && IsPlainName(parts.fileName)
    && IsParent(parts.parent)
    && IsLastComponent(t, parts.fileName)
    && StartsWith(t, parts.parent)
    && |parts.parent| + |parts.fileName| <= |t|
    && parts.parent == ParentBefore(t, |t| - |parts.fileName| - 1)
  }

  /** SplitFileName once the path is trimmed: split at the last '/'. */
  function SplitTrimmed(t: string): (r: Option<PathParts>)
    requires IsTrimmed(t)
    ensures r.None? <==> IsNoName(t)
    ensures r.Some? ==> IsSplitOf(t, r.value)
  {
    var k := LastIndexOf(t, '/');
    var name := t[k + 1..];
    NameOfTrimmed(t, k);
    if name == "" || name == "." || name == ".." then None
    else
      PlainLastName(t, k);
      Some(PathParts(ParentBefore(t, k), name))
  }

  /** What follows the last '/', when it is not "", "." or "..", is a plain name. */
  lemma PlainLastName(t: string, k: int)
    requires k == LastIndexOf(t, '/')
    requires t[k + 1..] != "" && t[k + 1..] != "." && t[k + 1..] != ".."
    ensures IsPlainName(t[k + 1..])
    ensures |t| - |t[k + 1..]| - 1 == k
  {
    var name := t[k + 1..];
    forall i | 0 <= i < |name|
      ensures name[i] != '/'
    {
      assert name[i] == t[k + 1 + i];
    }
  }

  /**
   * The parent of the name that follows index k of t: empty when there is
   * no '/' before the name (k is -1); otherwise the text before that '/'
   * with its trailing separators and "." components dropped, or the root
   * when nothing else is left.
   */
  function ParentBefore(t: string, k: int): (dir: string)
    ensures IsParent(dir)
    ensures k < 0 ==> dir == ""
    ensures 0 <= k < |t| && t[k] == '/' ==> StartsWith(t, dir) && 1 <= |dir| <= k + 1
  {
    if k < 0 || k >= |t| then ""
    else
      var d := TrimTrailing(t[..k]);
      ParentBeforeSlash(t, k);
      if d == "" then "/" else d
  }

  /** The parent left of the last '/': the part before it, trimmed, or the root when that trims to nothing. */
  lemma ParentBeforeSlash(t: string, k: nat)
    requires k < |t|
    ensures IsParent(if TrimTrailing(t[..k]) == "" then "/" else TrimTrailing(t[..k]))
    ensures t[k] == '/' ==> StartsWith(t, if TrimTrailing(t[..k]) == "" then "/" else TrimTrailing(t[..k]))
    ensures |TrimTrailing(t[..k])| <= k
  {
    var dir := TrimTrailing(t[..k]);
    if dir == "" && t[k] == '/' {
      assert t[0] == '/' by {
        if k > 0 {
          assert t[..k][0] == t[0];
        }
      }
    } else {
      assert t[..|dir|] == t[..k][..|dir|];
    }
  }

  /** A trimmed path with no file name: nothing, the current directory, or ending in "..". */
  predicate IsNoName(t: string)
  {
    t == "" || t == "." || t == ".." || EndsWith(t, "/..")
  }

  /** name is the whole of t, or what follows a '/' at the end of t. */
  predicate IsLastComponent(t: string, name: string)
  {
    EndsWith(t, name) && (|name| == |t| || t[|t| - |name| - 1] == '/')
  }

  /** The name after the last '/' of a trimmed path is "", "." or ".." exactly when SplitFileName says None. */
  lemma NameOfTrimmed(t: string, k: int)
    requires IsTrimmed(t)
    requires k == LastIndexOf(t, '/')
    ensures (t[k + 1..] == "" || t[k + 1..] == "." || t[k + 1..] == "..") <==> IsNoName(t)
    ensures IsLastComponent(t, t[k + 1..])
  {
    if k < 0 {
      NameOfUnslashed(t);
    } else {
      NameAfterSlash(t, k);
    }
  }

  lemma NameOfUnslashed(t: string)
    requires LastIndexOf(t, '/') == -1
    ensures !EndsWith(t, "/..")
    ensures t[0..] == t
  {
    if |t| >= 3 {
      assert t[|t| - 3] != '/';
      assert t[|t| - 3..][0] == t[|t| - 3];
    }
  }

  lemma NameAfterSlash(t: string, k: nat)
    requires k < |t| && t[k] == '/'
    requires t[|t| - 1] != '/' && !EndsWith(t, "/.")
    requires forall i :: k < i < |t| ==> t[i] != '/'
    ensures t[k + 1..] != "" && t[k + 1..] != "."
    ensures t[k + 1..] == ".." <==> EndsWith(t, "/..")
    ensures t != "" && t != "." && t != ".."
    ensures IsLastComponent(t, t[k + 1..])
  {
    var name := t[k + 1..];
    assert |name| == |t| - k - 1;
    if name == ".." {
      assert t[|t| - 3..] == [t[k], t[k + 1], t[k + 2]];
    }
    if EndsWith(t, "/..") {
      assert t[|t| - 3] == '/' by { assert t[|t| - 3..][0] == t[|t| - 3]; }
      assert name == t[|t| - 2..];
    }
  }

  /**
   * `Path::file_stem` of a final name: the name without its last extension;
   * a name whose only '.' is its first character has no extension.
   */
  function FileStem(name: string): (stem: string)
    requires IsPlainName(name)
    ensures stem != [] && StartsWith(name, stem)
    ensures stem == name || (name[|stem|] == '.' && '.' !in name[|stem| + 1..])
    ensures stem != name <==> exists i :: 0 < i < |name| && name[i] == '.'
  {
    var d := LastIndexOf(name, '.');
    if d <= 0 then name else name[..d]
  }

  /** `PathBuf::join`: an absolute name replaces the directory; otherwise one '/' is put between them when needed. */
  function Join(dir: string, name: string): string
  {
    if StartsWith(name, "/") || dir == "" then name
    else if dir[|dir| - 1] == '/' then dir + name
    else dir + "/" + name
  }

  // ---------------------------------------------------------------------
  // build_output_path

  /** The `output_filename` of build_output_path, from the input's final name. */
  function OutputFileName(fileName: string, prefix: string, outputFormat: string): string
    requires IsPlainName(fileName)
  {
    prefix + NameAfterPrefix(fileName, outputFormat)
  }

  /** What follows the prefix: the input's name, or its stem and the dotted format. */
  function NameAfterPrefix(fileName: string, outputFormat: string): string
    requires IsPlainName(fileName)
  {
    if outputFormat == "" then fileName else FileStem(fileName) + EnsureLeadingDot(outputFormat)
  }

  /**
   * The new name is the prefix followed by the input's name when no format
   * is given; otherwise by the input's stem (the whole name or the part
   * before its last '.') and the format with a leading dot.
   */
  lemma OutputFileNameShape(fileName: string, prefix: string, outputFormat: string)
    requires IsPlainName(fileName)
    ensures var r := OutputFileName(fileName, prefix, outputFormat);
      && StartsWith(r, prefix)
      && (outputFormat == "" ==> r[|prefix|..] == fileName)
      && (outputFormat != "" ==>
            var ext := EnsureLeadingDot(outputFormat);
            var stem := r[|prefix|..|r| - |ext|];
            && |prefix| < |r| - |ext|
            && EndsWith(r, ext)
            && StartsWith(fileName, stem)
            && (stem == fileName || fileName[|stem|] == '.'))
  {
    var r := OutputFileName(fileName, prefix, outputFormat);
    assert r[..|prefix|] == prefix;
    if outputFormat != "" {
      var ext := EnsureLeadingDot(outputFormat);
      var stem := FileStem(fileName);
      assert r == prefix + stem + ext;
      assert r[|prefix|..|r| - |ext|] == stem;
      assert r[|r| - |ext|..] == ext;
    }
  }

  /**
   * The path of an output file: `prefix` and the input's name (or its stem
   * and the dotted format) in the directory of the input. Err where the
   * source's `unwrap` on the file name panics.
   */
  function BuildOutputPath(inputPath: string, prefix: string, outputFormat: string): (r: Result<string>)
    ensures r.Err? <==> SplitFileName(inputPath).None?
    ensures r.Ok? ==>
      var parts := SplitFileName(inputPath).value;
      r.value == Join(parts.parent, OutputFileName(parts.fileName, prefix, outputFormat))
  {
    match SplitFileName(inputPath)
    case None => Err(NoFileName(inputPath))
    case Some(parts) => Ok(Join(parts.parent, OutputFileName(parts.fileName, prefix, outputFormat)))
  }

  lemma LastSlashOfJoin(dir: string, name: string)
    requires !HasSlash(name)
    ensures LastIndexOf(dir + "/" + name, '/') == |dir|
  {
    var s := dir + "/" + name;
    assert s[|dir|] == '/';
  }

  lemma TrimNoTrailing(s: string)
    requires s == [] || (s[|s| - 1] != '/' && !EndsWith(s, "/."))
    ensures TrimTrailing(s) == s
  {
  }

  /** A path ending in a plain name has nothing to trim. */
  lemma PlainNameEnd(pre: string, name: string)
    requires IsPlainName(name)
    ensures TrimTrailing(pre + name) == pre + name
  {
    var out := pre + name;
    assert out[|out| - 1] == name[|name| - 1];
    assert !EndsWith(out, "/.") by {
      if |name| == 1 {
        assert name == [out[|out| - 1]];
      } else {
        assert out[|out| - 2] == name[|name| - 2];
      }
    }
    TrimNoTrailing(out);
  }

  lemma NoSlashLastSlash(name: string)
    requires !HasSlash(name)
    ensures LastIndexOf(name, '/') == -1
  {
  }

  /** A path that ends in a plain name after its last '/' splits at that '/'. */
  lemma SplitAtSlash(d: string, name: string)
    requires d == [] || (d[|d| - 1] != '/' && !EndsWith(d, "/."))
    requires IsPlainName(name)
    ensures SplitFileName(d + "/" + name) == Some(PathParts(if d == [] then "/" else d, name))
  {
    var out := d + "/" + name;
    assert TrimTrailing(out) == out by { PlainNameEnd(d + "/", name); }
    assert LastIndexOf(out, '/') == |d| by { LastSlashOfJoin(d, name); }
    assert out[|d| + 1..] == name;
    assert TrimTrailing(out[..|d|]) == d by {
      assert out[..|d|] == d;
      TrimNoTrailing(d);
    }
  }

  /** Joining a parent and a plain name, then splitting, gives both back. */
  lemma SplitOfJoin(dir: string, name: string)
    requires IsParent(dir) && IsPlainName(name)
    ensures SplitFileName(Join(dir, name)) == Some(PathParts(dir, name))
  {
    assert name[0] != '/';
    if dir == "" {
      assert Join(dir, name) == name;
      SplitOfName(name);
    } else if dir == "/" {
      assert Join(dir, name) == "" + "/" + name;
      SplitAtSlash("", name);
    } else {
      assert Join(dir, name) == dir + "/" + name;
      SplitAtSlash(dir, name);
    }
  }

  /** A plain name alone splits into an empty parent and itself. */
  lemma SplitOfName(name: string)
    requires IsPlainName(name)
    ensures SplitFileName(name) == Some(PathParts("", name))
  {
    PlainNameEnd("", name);
    assert "" + name == name;
    NoSlashLastSlash(name);
    assert name[0..] == name;
  }

  /**
   * The output file lies in the same directory as the input: splitting the
   * output path gives back the input's parent and the new file name.
   */
  lemma OutputBesideInput(inputPath: string, prefix: string, outputFormat: string)
    requires SplitFileName(inputPath).Some?
    requires IsPlainName(OutputFileName(SplitFileName(inputPath).value.fileName, prefix, outputFormat))
    ensures BuildOutputPath(inputPath, prefix, outputFormat).Ok?
    ensures SplitFileName(BuildOutputPath(inputPath, prefix, outputFormat).value)
         == Some(PathParts(SplitFileName(inputPath).value.parent,
                           OutputFileName(SplitFileName(inputPath).value.fileName, prefix, outputFormat)))
  {
    var parts := SplitFileName(inputPath).value;
    SplitOfJoin(parts.parent, OutputFileName(parts.fileName, prefix, outputFormat));
  }

  /** Under one directory, two relative names give the same joined path only if they are equal. */
  lemma JoinInjective(dir: string, n1: string, n2: string)
    requires !StartsWith(n1, "/") && !StartsWith(n2, "/")
    requires Join(dir, n1) == Join(dir, n2)
    ensures n1 == n2
  {
    if dir != "" {
      var sep := if dir[|dir| - 1] == '/' then "" else "/";
      assert Join(dir, n1) == dir + sep + n1;
      assert Join(dir, n2) == dir + sep + n2;
      assert n1 == Join(dir, n1)[|dir + sep|..];
      assert n2 == Join(dir, n2)[|dir + sep|..];
    }
  }

  lemma PrefixCancel(p1: string, p2: string, tail: string)
    requires p1 + tail == p2 + tail
    ensures p1 == p2
  {
    assert |p1| == |p2|;
    assert p1 == (p1 + tail)[..|p1|];
    assert p2 == (p2 + tail)[..|p2|];
  }

  lemma OutputNamesDiffer(fileName: string, prefix1: string, prefix2: string, outputFormat: string)
    requires IsPlainName(fileName)
    requires prefix1 != prefix2
    ensures OutputFileName(fileName, prefix1, outputFormat) != OutputFileName(fileName, prefix2, outputFormat)
  {
    var tail := NameAfterPrefix(fileName, outputFormat);
    if prefix1 + tail == prefix2 + tail {
      PrefixCancel(prefix1, prefix2, tail);
    }
  }

  /** The new name starts with '/' only when the prefix does. */
  lemma RelativeOutputName(fileName: string, prefix: string, outputFormat: string)
    requires IsPlainName(fileName) && !StartsWith(prefix, "/")
    ensures !StartsWith(OutputFileName(fileName, prefix, outputFormat), "/")
  {
    var tail := NameAfterPrefix(fileName, outputFormat);
    assert tail != [] && tail[0] == fileName[0] by {
      if outputFormat != "" {
        var stem := FileStem(fileName);
        assert stem[0] == fileName[..|stem|][0];
      }
    }
    assert fileName[0] != '/';
    var n := prefix + tail;
    LeadingSlash(prefix);
    LeadingSlash(n);
    assert n[0] == if prefix == "" then tail[0] else prefix[0];
  }

  lemma LeadingSlash(s: string)
    ensures StartsWith(s, "/") <==> s != [] && s[0] == '/'
  {
    if s != [] {
      assert s[..1] == [s[0]];
    }
  }

  /** Outputs built with two different prefixes from one input are different files. */
  lemma DistinctPrefixesDistinctPaths(inputPath: string, prefix1: string, prefix2: string, outputFormat: string)
    requires SplitFileName(inputPath).Some?
    requires !StartsWith(prefix1, "/") && !StartsWith(prefix2, "/")
    requires prefix1 != prefix2
    ensures BuildOutputPath(inputPath, prefix1, outputFormat) != BuildOutputPath(inputPath, prefix2, outputFormat)
  {
    var parts := SplitFileName(inputPath).value;
    var n1 := OutputFileName(parts.fileName, prefix1, outputFormat);
    var n2 := OutputFileName(parts.fileName, prefix2, outputFormat);
    OutputNamesDiffer(parts.fileName, prefix1, prefix2, outputFormat);
    RelativeOutputName(parts.fileName, prefix1, outputFormat);
    RelativeOutputName(parts.fileName, prefix2, outputFormat);
    if BuildOutputPath(inputPath, prefix1, outputFormat) == BuildOutputPath(inputPath, prefix2, outputFormat) {
      JoinInjective(parts.parent, n1, n2);
    }
  }

  // ---------------------------------------------------------------------
  // infer_format_from_filename

  /** `u8::to_ascii_lowercase`: only 'A'..'Z' change. */
  function AsciiLower(c: char): (r: char)
    ensures !('A' <= r <= 'Z')
    ensures !('A' <= c <= 'Z') ==> r == c
    ensures 'A' <= c <= 'Z' ==> r as int == c as int + 32
  {
    if 'A' <= c <= 'Z' then (c as int + 32) as char else c
  }

  function ToAsciiLowercase(s: string): (r: string)
    ensures |r| == |s|
    ensures forall i :: 0 <= i < |s| ==> r[i] == AsciiLower(s[i])
  {
    seq(|s|, i requires 0 <= i < |s| => AsciiLower(s[i]))
  }

  predicate HasFastqSuffix(lower: string)
  {
    EndsWith(lower, ".fastq") || EndsWith(lower, ".fastq.gz") || EndsWith(lower, ".fq") || EndsWith(lower, ".fq.gz")
  }

  predicate HasFastaSuffix(lower: string)
  {
    EndsWith(lower, ".fasta") || EndsWith(lower, ".fasta.gz") || EndsWith(lower, ".fa") || EndsWith(lower, ".fa.gz")
  }

  /** No name ends in both a FASTQ and a FASTA extension: the two tests never compete. */
  lemma SuffixesExclusive(s: string)
    ensures !(HasFastqSuffix(s) && HasFastaSuffix(s))
  {
    var n := |s|;
    if EndsWith(s, ".fastq") || EndsWith(s, ".fq") {
      assert s[n - 1] == 'q';
    }
    if EndsWith(s, ".fastq.gz") || EndsWith(s, ".fq.gz") {
      assert s[n - 1] == 'z' && s[n - 4] == 'q';
    }
    if EndsWith(s, ".fasta") || EndsWith(s, ".fa") {
      assert s[n - 1] == 'a';
    }
    if EndsWith(s, ".fasta.gz") || EndsWith(s, ".fa.gz") {
      assert s[n - 1] == 'z' && s[n - 4] == 'a';
    }
  }

  /**
   * The output format guessed from an input name: "fasta" exactly for the
   * FASTA extensions in any letter case, "fastq" for everything else.
   */
  function InferFormatFromFilename(path: string): (r: string)
    ensures r == "fastq" || r == "fasta"
    ensures r == "fasta" <==> HasFastaSuffix(ToAsciiLowercase(path))
  {
    var lower := ToAsciiLowercase(path);
    SuffixesExclusive(lower);
    if HasFastqSuffix(lower) then "fastq"
    else if HasFastaSuffix(lower) then "fasta"
    else "fastq"
  }

  /** Letter case does not matter: two names that agree up to ASCII case get the same format. */
  lemma InferFormatCaseInsensitive(p: string, q: string)
    requires ToAsciiLowercase(p) == ToAsciiLowercase(q)
    ensures InferFormatFromFilename(p) == InferFormatFromFilename(q)
  {
  }
}
