/**
 * The decisions of convert_any_to_md: the `CONVERTERS` table, `process_file` (where the
 * Markdown goes, whether it is already up to date, which converter runs and what a failed
 * conversion leaves behind) and, in `main`, the choice of files and the progress counter.
 */
module ConvertPipeline {
  import opened Wrappers
  import opened Text
  import opened Paths
  import opened FileSystems

  /** The converters of the table; what each of them does to the disk is not modelled. */
  datatype Converter = PdfToMd | EpubToMd | DocToMd | PlainCopy | KindleToMd

  /** `CONVERTERS`: lower-case suffix to converter. */
  const Converters: map<string, Converter> := map[
    ".pdf" := PdfToMd, ".epub" := EpubToMd, ".doc" := DocToMd, ".docx" := DocToMd,
    ".txt" := PlainCopy, ".mobi" := KindleToMd, ".azw" := KindleToMd, ".azw3" := KindleToMd,
    ".lit" := KindleToMd]

  /** `CONVERTERS.get(path.suffix.lower())` for a file named `name`. */
  function ConverterFor(name: string): Option<Converter>
  {
    var ext := Lower(Suffix(name));
    if ext in Converters then Some(Converters[ext]) else None
  }

  /** Lower-casing moves no dot. */
  lemma {:induction false} LowerLastDot(s: string)
    ensures LastDot(Lower(s)) == LastDot(s)
    decreases |s|
  {
    if s != [] {
      assert Lower(s)[..|s| - 1] == Lower(s[..|s| - 1]);
      LowerLastDot(s[..|s| - 1]);
    }
  }

  /** The suffix of the lower-cased name is the lower-cased suffix. */
  lemma SuffixOfLower(name: string)
    ensures Suffix(Lower(name)) == Lower(Suffix(name))
  {
    LowerLastDot(name);
  }

  lemma LowerTwice(s: string)
    ensures Lower(Lower(s)) == Lower(s)
  {
  }

  /** The lookup ignores case: "REPORT.PDF" finds the converter of "report.pdf". */
  lemma ConverterForIgnoresCase(name: string)
    ensures ConverterFor(Lower(name)) == ConverterFor(name)
  {
    SuffixOfLower(name);
    LowerTwice(Suffix(name));
  }

  /**
   * A name whose only dot is its first character has no suffix for pathlib, so ".txt" or
   * ".pdf" on its own is never converted.
   */
  lemma DotfileNotConverted(rest: string)
    requires forall k :: 0 <= k < |rest| ==> rest[k] != '.'
    ensures ConverterFor("." + rest) == None
  {
    var name := "." + rest;
    assert name[0] == '.';
    assert forall k :: 0 < k < |name| ==> name[k] == rest[k - 1];
    assert LastDot(name) == 0;
  }

  /** Only the last suffix is looked up: "book.pdf.txt" goes to the plain copy. */
  lemma LastSuffixDecides(stem: string, ext: string)
    requires stem != [] && ext in Converters
    ensures ConverterFor(stem + ext) == Some(Converters[ext])
  {
    var name := stem + ext;
    assert ext[0] == '.' && forall k :: 0 < k < |ext| ==> ext[k] != '.';
    assert name[|stem|] == '.';
    assert forall k :: |stem| < k < |name| ==> name[k] == ext[k - |stem|];
    assert LastDot(name) == |stem|;
    assert Suffix(name) == ext;
    assert forall k :: 0 <= k < |ext| ==> !IsUpper(ext[k]);
    assert Lower(ext) == ext;
  }

  /** Why `process_file` raised outside its `try`, so that `future.result()` re-raises. */
  datatype Escape =
    | NotUnderRoot      // `relative_to` raised ValueError
    | EmptyName         // `with_suffix` raised ValueError on a path with an empty name
    | SourceMissing     // `src_path.stat()` raised
    | MakeDirBlocked    // `dst_path.parent.mkdir(...)` raised
    | ErrorFileBlocked  // writing the `.error.txt` file raised inside the `except`

  /** `dst_root / rel_path.with_suffix(".md")` */
  function Destination(dstRoot: Path, rel: Path): Path
    requires Name(rel) != ""
  {
    dstRoot + Parent(rel) + [WithSuffix(Name(rel), ".md")]
  }

  /** The first two lines of `process_file`: the relative path and the destination. */
  function Mirror(src: Path, srcRoot: Path, dstRoot: Path): Result<(Path, Path), Escape>
  {
    match RelativeTo(src, srcRoot)
    case None => Err(NotUnderRoot)
    case Some(rel) => if Name(rel) == "" then Err(EmptyName) else Ok((rel, Destination(dstRoot, rel)))
  }

  /**
   * The destination mirrors the source: the directories below the source root are kept under
   * the destination root, and the file name loses its last suffix to ".md".
   */
  lemma MirrorShape(src: Path, srcRoot: Path, dstRoot: Path)
    ensures Mirror(src, srcRoot, dstRoot).Ok?
            <==> IsPrefix(srcRoot, src) && |src| > |srcRoot| && Name(src) != ""
    ensures Mirror(src, srcRoot, dstRoot).Ok? ==>
              && Mirror(src, srcRoot, dstRoot).value.0 == src[|srcRoot|..]
              && Mirror(src, srcRoot, dstRoot).value.1
                 == dstRoot + src[|srcRoot|..|src| - 1] + [Stem(Name(src)) + ".md"]
  {
    if IsPrefix(srcRoot, src) {
      var rel := src[|srcRoot|..];
      if rel != [] {
        assert Name(rel) == Name(src);
        assert Parent(rel) == src[|srcRoot|..|src| - 1];
      }
    }
  }

  /**
   * Two sources are converted to the same file exactly when they sit in the same directory
   * and share their stem: "a.pdf" and "a.docx" overwrite each other's "a.md".
   */
  lemma SameDestinationIff(a: Path, b: Path, srcRoot: Path, dstRoot: Path)
    requires Mirror(a, srcRoot, dstRoot).Ok? && Mirror(b, srcRoot, dstRoot).Ok?
    ensures Mirror(a, srcRoot, dstRoot).value.1 == Mirror(b, srcRoot, dstRoot).value.1
            <==> Parent(a) == Parent(b) && Stem(Name(a)) == Stem(Name(b))
  {
    if Mirror(a, srcRoot, dstRoot).value.1 == Mirror(b, srcRoot, dstRoot).value.1 {
      SameDestinationOnlyIf(a, b, srcRoot, dstRoot);
    }
    if Parent(a) == Parent(b) && Stem(Name(a)) == Stem(Name(b)) {
      SameDestinationIf(a, b, srcRoot, dstRoot);
    }
  }

  /** Equal destinations come from the same directory and the same stem. */
  lemma SameDestinationOnlyIf(a: Path, b: Path, srcRoot: Path, dstRoot: Path)
    requires Mirror(a, srcRoot, dstRoot).Ok? && Mirror(b, srcRoot, dstRoot).Ok?
    requires Mirror(a, srcRoot, dstRoot).value.1 == Mirror(b, srcRoot, dstRoot).value.1
    ensures Parent(a) == Parent(b) && Stem(Name(a)) == Stem(Name(b))
  {
    MirrorShape(a, srcRoot, dstRoot);
    MirrorShape(b, srcRoot, dstRoot);
    var r := |srcRoot|;
    var sa := Stem(Name(a));
    var sb := Stem(Name(b));
    TailCancel(dstRoot + a[r..|a| - 1], sa + ".md", dstRoot + b[r..|b| - 1], sb + ".md");
    HeadCancel(dstRoot, a[r..|a| - 1], b[r..|b| - 1]);
    assert sa == (sa + ".md")[..|sa|];
    assert sb == (sb + ".md")[..|sb|];
    assert Parent(a) == srcRoot + a[r..|a| - 1];
    assert Parent(b) == srcRoot + b[r..|b| - 1];
  }

  /** Two paths equal as wholes have equal last names and equal parents. */
  lemma TailCancel(x: Path, y: string, x2: Path, y2: string)
    requires x + [y] == x2 + [y2]
    ensures x == x2 && y == y2
  {
    assert |x| == |x2|;
    assert x == (x + [y])[..|x|];
    assert x2 == (x2 + [y2])[..|x2|];
    assert y == (x + [y])[|x|];
  }

  /** Equal paths under the same root have equal remainders. */
  lemma HeadCancel(root: Path, x: Path, x2: Path)
    requires root + x == root + x2
    ensures x == x2
  {
    assert x == (root + x)[|root|..];
    assert x2 == (root + x2)[|root|..];
  }

  /** Files of the same directory with the same stem share a destination. */
  lemma SameDestinationIf(a: Path, b: Path, srcRoot: Path, dstRoot: Path)
    requires Mirror(a, srcRoot, dstRoot).Ok? && Mirror(b, srcRoot, dstRoot).Ok?
    requires Parent(a) == Parent(b) && Stem(Name(a)) == Stem(Name(b))
    ensures Mirror(a, srcRoot, dstRoot).value.1 == Mirror(b, srcRoot, dstRoot).value.1
  {
    MirrorShape(a, srcRoot, dstRoot);
    MirrorShape(b, srcRoot, dstRoot);
    var r := |srcRoot|;
    assert a[r..|a| - 1] == Parent(a)[r..];
    assert b[r..|b| - 1] == Parent(b)[r..];
  }

  /** `dst_path.with_suffix(".error.txt")` */
  function ErrorFile(dst: Path): Path
    requires Name(dst) != ""
  {
    Parent(dst) + [WithSuffix(Name(dst), ".error.txt")]
  }

  /** The error file sits beside the destination, as `<stem>.error.txt`, and is never the destination. */
  lemma ErrorFileBeside(src: Path, srcRoot: Path, dstRoot: Path)
    requires Mirror(src, srcRoot, dstRoot).Ok?
    ensures var dst := Mirror(src, srcRoot, dstRoot).value.1;
            && ErrorFile(dst) == Parent(dst) + [Stem(Name(src)) + ".error.txt"]
            && ErrorFile(dst) != dst
  {
    MirrorShape(src, srcRoot, dstRoot);
    var dst := Mirror(src, srcRoot, dstRoot).value.1;
    var stem := Stem(Name(src));
    var name := stem + ".md";
    assert Name(dst) == name;
    assert name[|stem|] == '.' && name[|stem| + 1] != '.' && name[|stem| + 2] != '.';
    assert LastDot(name) == |stem|;
    assert Stem(name) == name[..|stem|] == stem;
    assert |ErrorFile(dst)| == |dst|;
    assert |ErrorFile(dst)[|dst| - 1]| != |dst[|dst| - 1]|;
  }

  /** What calling the converter did: it returned, or it raised an exception with this text. */
  datatype Attempt = Succeeded | Raised(message: string)

  function SuccessMessage(rel: Path): string
  {
    "Successfully converted: " + Show(rel)
  }

  function ErrorMessage(rel: Path, e: string): string
  {
    "ERROR converting " + Show(rel) + ": " + e
  }

  function ErrorFileText(src: Path, e: string): string
  {
    "Failed to convert " + Show(src) + ":\n\n" + e
  }

  /**
   * The skip test `not force and dst_path.exists() and dst_mtime > src_mtime`, on a destination
   * that is a regular file; a source that is no file makes `stat` raise.
   */
  predicate UpToDate(d: Disk, src: Path, dst: Path, force: bool)
  {
    !force && dst in d.files && src in d.files && d.files[dst].mtime > d.files[src].mtime
  }

  /**
   * `process_file(src_path, src_root, dst_root, force)`: what it returns (a message, None, or
   * the exception that escapes it) and the disk afterwards. `attempt` is what the converter does.
   */
  function ConvertSpec(d: Disk, clock: int, src: Path, srcRoot: Path, dstRoot: Path, force: bool, attempt: Attempt)
    : (Result<Option<string>, Escape>, Disk)
  {
    match Mirror(src, srcRoot, dstRoot)
    case Err(e) => (Err(e), d)
    case Ok((rel, dst)) =>
      if !force && dst in d.files && src !in d.files then (Err(SourceMissing), d)
      else if UpToDate(d, src, dst, force) then (Ok(None), d)
      else if !(Ancestors(Parent(dst)) !! d.files.Keys) then (Err(MakeDirBlocked), d)
      else
        var made := Disk(d.files, d.dirs + Ancestors(Parent(dst)));
        if ConverterFor(Name(src)).None? then (Ok(None), made)
        else
          match attempt
          case Succeeded => (Ok(Some(SuccessMessage(rel))), made)
          case Raised(e) =>
            var errorFile := ErrorFile(dst);
            if CanWrite(made.dirs, errorFile) then
              (Ok(Some(ErrorMessage(rel, e))), Disk(made.files[errorFile := FileEntry(ErrorFileText(src, e), clock)], made.dirs))
            else (Err(ErrorFileBlocked), made)
  }

  /** `process_file` on the file system. */
  method ConvertFile(fs: FileSystem, src: Path, srcRoot: Path, dstRoot: Path, force: bool, attempt: Attempt)
    returns (r: Result<Option<string>, Escape>)
    requires fs.Valid()
    modifies fs
    ensures fs.Valid()
    ensures (r, Disk(fs.files, fs.dirs))
            == ConvertSpec(Disk(old(fs.files), old(fs.dirs)), fs.clock, src, srcRoot, dstRoot, force, attempt)
  {
    var relative := RelativeTo(src, srcRoot);
    if relative.None? {
      return Err(NotUnderRoot);
    }
    var rel := relative.value;
    if Name(rel) == "" {
      return Err(EmptyName);
    }
    var dst := Destination(dstRoot, rel);
    if !force && fs.Exists(dst) && dst in fs.files {
      if src !in fs.files {
        return Err(SourceMissing);
      }
      if fs.files[dst].mtime > fs.files[src].mtime {
        return Ok(None);
      }
    }
    var ok := fs.MakeDirs(Parent(dst));
    if !ok {
      return Err(MakeDirBlocked);
    }
    var converter := ConverterFor(Name(src));
    if converter.None? {
      return Ok(None);
    }
    match attempt {
      case Succeeded =>
        return Ok(Some(SuccessMessage(rel)));
      case Raised(e) =>
        ok := fs.WriteText(ErrorFile(dst), ErrorFileText(src, e));
        if !ok {
          return Err(ErrorFileBlocked);
        }
        return Ok(Some(ErrorMessage(rel, e)));
    }
  }

  /** A source whose destination can be reached: it lies below the root and has a name. */
  predicate Reaches(src: Path, srcRoot: Path, dstRoot: Path, d: Disk)
  {
    && Mirror(src, srcRoot, dstRoot).Ok?
    && src in d.files
    && Ancestors(Parent(Mirror(src, srcRoot, dstRoot).value.1)) !! d.files.Keys
  }

  /**
   * The converter runs exactly when the destination is not newer than the source (a tie
   * converts again, and `force` always converts) and the suffix is in the table.
   */
  lemma ConverterRunsIff(d: Disk, clock: int, src: Path, srcRoot: Path, dstRoot: Path, force: bool)
    requires Reaches(src, srcRoot, dstRoot, d)
    ensures var (rel, dst) := Mirror(src, srcRoot, dstRoot).value;
            ConvertSpec(d, clock, src, srcRoot, dstRoot, force, Succeeded).0 == Ok(Some(SuccessMessage(rel)))
            <==> && (force || dst !in d.files || d.files[dst].mtime <= d.files[src].mtime)
                 && Lower(Suffix(Name(src))) in Converters
  {
  }

  /** An up-to-date destination is left alone, whatever the converter would have done. */
  lemma UpToDateUntouched(d: Disk, clock: int, src: Path, srcRoot: Path, dstRoot: Path, force: bool, attempt: Attempt)
    requires Mirror(src, srcRoot, dstRoot).Ok?
    requires UpToDate(d, src, Mirror(src, srcRoot, dstRoot).value.1, force)
    ensures ConvertSpec(d, clock, src, srcRoot, dstRoot, force, attempt) == (Ok(None), d)
  {
  }

  /**
   * A converter that raises is reported, not propagated: the error file holds the source path
   * and the message, and the result names the relative path, unless a directory stands where
   * the error file goes.
   */
  lemma FailureLeavesErrorFile(d: Disk, clock: int, src: Path, srcRoot: Path, dstRoot: Path, force: bool, e: string)
    requires Reaches(src, srcRoot, dstRoot, d)
    requires !UpToDate(d, src, Mirror(src, srcRoot, dstRoot).value.1, force)
    requires ConverterFor(Name(src)).Some?
    requires ErrorFile(Mirror(src, srcRoot, dstRoot).value.1) !in d.dirs
    ensures var (rel, dst) := Mirror(src, srcRoot, dstRoot).value;
            var (r, after) := ConvertSpec(d, clock, src, srcRoot, dstRoot, force, Raised(e));
            && r == Ok(Some(ErrorMessage(rel, e)))
            && ErrorFile(dst) in after.files
            && after.files[ErrorFile(dst)] == FileEntry(ErrorFileText(src, e), clock)
  {
    var dst := Mirror(src, srcRoot, dstRoot).value.1;
    var made := d.dirs + Ancestors(Parent(dst));
    var errorFile := ErrorFile(dst);
    assert Parent(errorFile) == Parent(dst);
    if |Parent(dst)| > 0 {
      assert Parent(dst) == Parent(dst)[..|Parent(dst)|];
      assert Parent(dst) in Ancestors(Parent(dst));
    }
    ErrorFileBeside(src, srcRoot, dstRoot);
    assert errorFile !in Ancestors(Parent(dst));
    assert CanWrite(made, errorFile);
  }

  /** Every file other than `q` is in `after` exactly when it is in `before`, with the same entry. */
  ghost predicate SameFilesExcept(before: map<Path, FileEntry>, after: map<Path, FileEntry>, q: Path)
  {
    forall p :: p != q ==> (p in after <==> p in before) && (p in before ==> after[p] == before[p])
  }

  /**
   * Apart from what the converter itself writes, `process_file` writes at most the error file,
   * and makes at most the destination's missing parent directories.
   */
  lemma ConvertChangesLittle(d: Disk, clock: int, src: Path, srcRoot: Path, dstRoot: Path, force: bool, attempt: Attempt)
    requires Mirror(src, srcRoot, dstRoot).Ok?
    ensures var dst := Mirror(src, srcRoot, dstRoot).value.1;
            var after := ConvertSpec(d, clock, src, srcRoot, dstRoot, force, attempt).1;
            && d.dirs <= after.dirs <= d.dirs + Ancestors(Parent(dst))
            && SameFilesExcept(d.files, after.files, ErrorFile(dst))
  {
    var dst := Mirror(src, srcRoot, dstRoot).value.1;
    var after := ConvertSpec(d, clock, src, srcRoot, dstRoot, force, attempt).1;
    var made := d.dirs + Ancestors(Parent(dst));
    if (!force && dst in d.files && src !in d.files) || UpToDate(d, src, dst, force)
       || !(Ancestors(Parent(dst)) !! d.files.Keys) {
      assert after == d;
    } else if ConverterFor(Name(src)).None? || attempt.Succeeded? || !CanWrite(made, ErrorFile(dst)) {
      assert after == Disk(d.files, made);
    } else {
      var entry := FileEntry(ErrorFileText(src, attempt.message), clock);
      assert after == Disk(d.files[ErrorFile(dst) := entry], made);
    }
  }

  /**
   * A file whose suffix is not in the table gets no message and the same disk whatever the
   * converter would do; its destination directory is still made first.
   */
  lemma UnknownSuffixSkipped(d: Disk, clock: int, src: Path, srcRoot: Path, dstRoot: Path, force: bool, a: Attempt, b: Attempt)
    requires ConverterFor(Name(src)).None?
    ensures ConvertSpec(d, clock, src, srcRoot, dstRoot, force, a) == ConvertSpec(d, clock, src, srcRoot, dstRoot, force, b)
    ensures ConvertSpec(d, clock, src, srcRoot, dstRoot, force, a).0.Ok? ==>
              ConvertSpec(d, clock, src, srcRoot, dstRoot, force, a).0.value.None?
    ensures Reaches(src, srcRoot, dstRoot, d) && !UpToDate(d, src, Mirror(src, srcRoot, dstRoot).value.1, force) ==>
              ConvertSpec(d, clock, src, srcRoot, dstRoot, force, a)
              == (Ok(None), Disk(d.files, d.dirs + Ancestors(Parent(Mirror(src, srcRoot, dstRoot).value.1))))
  {
  }

  /** A path the enumeration keeps: a regular file whose lower-cased suffix is in the table. */
  predicate Chosen(p: Path, isFile: set<Path>)
  {
    p in isFile && Lower(Suffix(Name(p))) in Converters
  }

  /** `[p for p in src_root.rglob("*") if p.is_file() and p.suffix.lower() in CONVERTERS]` */
  function Eligible(found: seq<Path>, isFile: set<Path>): (r: seq<Path>)
    ensures |r| <= |found|
    ensures forall p :: p in r <==> p in found && Chosen(p, isFile)
  {
    if found == [] then []
    else
      var rest := Eligible(found[1..], isFile);
      if Chosen(found[0], isFile) then [found[0]] + rest else rest
  }

  /** The filter keeps the enumeration order: it distributes over concatenation. */
  lemma {:induction false} EligibleAppend(a: seq<Path>, b: seq<Path>, isFile: set<Path>)
    ensures Eligible(a + b, isFile) == Eligible(a, isFile) + Eligible(b, isFile)
    decreases |a|
  {
    if a == [] {
      assert a + b == b;
    } else {
      var head := a[0];
      var ab := a + b;
      assert ab[0] == head;
      assert ab[1..] == a[1..] + b;
      EligibleAppend(a[1..], b, isFile);
      var tail := Eligible(a[1..], isFile) + Eligible(b, isFile);
      assert Eligible(ab, isFile) == (if Chosen(head, isFile) then [head] + tail else tail);
      assert Eligible(a, isFile)
             == (if Chosen(head, isFile) then [head] + Eligible(a[1..], isFile) else Eligible(a[1..], isFile));
    }
  }

  /** Every chosen file has a converter. */
  lemma EligibleConvertible(found: seq<Path>, isFile: set<Path>)
    ensures forall p :: p in Eligible(found, isFile) ==> ConverterFor(Name(p)).Some?
  {
  }

  /** What `future.result()` gives for one finished file: its message, or the exception it re-raises. */
  type ItemResult = Result<Option<string>, Escape>

  /** How many finished files `main` counts: it stops at the first result that re-raises. */
  function Completed(results: seq<ItemResult>): (n: nat)
    ensures n <= |results|
    ensures forall k :: 0 <= k < n ==> results[k].Ok?
    ensures n < |results| ==> results[n].Err?
  {
    if results == [] || results[0].Err? then 0 else 1 + Completed(results[1..])
  }

  /** Every file is counted exactly when none of them escapes. */
  lemma CompletedAll(results: seq<ItemResult>)
    ensures Completed(results) == |results| <==> forall k :: 0 <= k < |results| ==> results[k].Ok?
  {
  }

  function ProgressLine(count: nat, total: nat): string
  {
    "Progress: " + Decimal(count) + "/" + Decimal(total)
  }

  /**
   * The loop over `as_completed(futures)`; `results` are the outcomes in the order the files
   * finish. It returns the progress lines, the final `processed_count`, and the exception that
   * ends `main` early, if any.
   */
  method ReportProgress(results: seq<ItemResult>) returns (lines: seq<string>, processed: nat, escaped: Option<Escape>)
    ensures processed == Completed(results)
    ensures |lines| == processed && forall k :: 0 <= k < processed ==> lines[k] == ProgressLine(k + 1, |results|)
    ensures escaped == if processed < |results| then Some(results[processed].error) else None
  {
    lines, processed, escaped := [], 0, None;
    while processed < |results| && escaped.None?
      invariant processed <= |results|
      invariant forall k :: 0 <= k < processed ==> results[k].Ok?
      invariant escaped.Some? ==> processed < |results| && results[processed].Err? && escaped == Some(results[processed].error)
      invariant |lines| == processed && forall k :: 0 <= k < processed ==> lines[k] == ProgressLine(k + 1, |results|)
      decreases |results| - processed, if escaped.None? then 1 else 0
    {
      var result := results[processed];
      if result.Err? {
        escaped := Some(result.error);
      } else {
        processed := processed + 1;
        lines := lines + [ProgressLine(processed, |results|)];
      }
    }
  }
}
