/**
 * The file side of split_md_by_heading: `_write_chapters`, the per-file policy of
 * `process_file` (split, copy or skip) and the worker count chosen by `main`.
 */
module SplitPipeline {
  import opened Wrappers
  import opened Text
  import opened Paths
  import opened FileSystems
  import opened HeadingMatch
  import opened MarkdownSplit
  import opened ChapterNames

  /**
   * The file names of the chapters, in order: `ch{idx:02d}_{sanitize_filename(title)}.md`.
   * No two chapters of a book share a file, even when their titles sanitize alike, and each
   * name gives back its chapter's position.
   */
  function FileNames(chapters: seq<Chapter>): (names: seq<string>)
    ensures |names| == |chapters|
    ensures forall k :: 0 <= k < |chapters| ==> names[k] == ChapterFileName(k, chapters[k].title)
    ensures Distinct(names)
    ensures forall k :: 0 <= k < |names| ==> |names[k]| >= 2 && ChapterIndex(names[k]) == k
  {
    var names := seq(|chapters|, k requires 0 <= k < |chapters| => ChapterFileName(k, chapters[k].title));
    IndexedNames(chapters, names);
    names
  }

  /** What is written to each chapter file: `content + "\n"`. */
  function FileTexts(chapters: seq<Chapter>): (texts: seq<string>)
    ensures |texts| == |chapters|
    ensures forall k :: 0 <= k < |chapters| ==> texts[k] == chapters[k].text + "\n"
  {
    seq(|chapters|, k requires 0 <= k < |chapters| => chapters[k].text + "\n")
  }

  predicate Distinct(names: seq<string>)
  {
    forall i, j :: 0 <= i < |names| && 0 <= j < |names| && i != j ==> names[i] != names[j]
  }

  /** Names built from their positions are distinct and give their positions back. */
  lemma IndexedNames(chapters: seq<Chapter>, names: seq<string>)
    requires |names| == |chapters|
    requires forall k :: 0 <= k < |chapters| ==> names[k] == ChapterFileName(k, chapters[k].title)
    ensures Distinct(names)
    ensures forall k :: 0 <= k < |names| ==> |names[k]| >= 2 && ChapterIndex(names[k]) == k
  {
    forall k | 0 <= k < |names| ensures |names[k]| >= 2 && ChapterIndex(names[k]) == k {
      ChapterIndexRoundTrip(k, chapters[k].title);
    }
    forall i, j | 0 <= i < |names| && 0 <= j < |names| && i != j
      ensures names[i] != names[j]
    {
      ChapterFileNamesDistinct(i, chapters[i].title, j, chapters[j].title);
    }
  }

  /** The files named by the first `n` names, in `dir`. */
  function PathsIn(dir: Path, names: seq<string>, n: nat): set<Path>
    requires n <= |names|
  {
    set k | 0 <= k < n :: dir + [names[k]]
  }

  /** The files once the first `n` texts are written into `dir` under their names. */
  function Written(files: map<Path, FileEntry>, dir: Path, names: seq<string>, texts: seq<string>, n: nat, clock: int)
    : map<Path, FileEntry>
    requires n <= |names| == |texts|
  {
    if n == 0 then files
    else Written(files, dir, names, texts, n - 1, clock)[dir + [names[n - 1]] := FileEntry(texts[n - 1], clock)]
  }

  /**
   * With distinct names, after the first `n` writes every written file holds its own text
   * (no later write overwrites an earlier one) and every other file is as it was.
   */
  lemma {:induction false} WrittenAt(files: map<Path, FileEntry>, dir: Path, names: seq<string>, texts: seq<string>, n: nat, clock: int)
    requires n <= |names| == |texts| && Distinct(names)
    ensures forall k :: 0 <= k < n ==>
              var w := Written(files, dir, names, texts, n, clock);
              dir + [names[k]] in w && w[dir + [names[k]]] == FileEntry(texts[k], clock)
    ensures forall p :: p !in PathsIn(dir, names, n) ==>
              var w := Written(files, dir, names, texts, n, clock);
              (p in w <==> p in files) && (p in files ==> w[p] == files[p])
  {
    WrittenHolds(files, dir, names, texts, n, clock);
    WrittenOnly(files, dir, names, texts, n, clock);
  }

  /** With distinct names, after the first `n` writes every written file holds its own text. */
  lemma {:induction false} WrittenHolds(files: map<Path, FileEntry>, dir: Path, names: seq<string>, texts: seq<string>, n: nat, clock: int)
    requires n <= |names| == |texts| && Distinct(names)
    ensures forall k :: 0 <= k < n ==>
              dir + [names[k]] in Written(files, dir, names, texts, n, clock)
              && Written(files, dir, names, texts, n, clock)[dir + [names[k]]] == FileEntry(texts[k], clock)
  {
    if n > 0 {
      WrittenHolds(files, dir, names, texts, n - 1, clock);
      var last := dir + [names[n - 1]];
      var before := Written(files, dir, names, texts, n - 1, clock);
      assert Written(files, dir, names, texts, n, clock) == before[last := FileEntry(texts[n - 1], clock)];
      forall k | 0 <= k < n - 1
        ensures dir + [names[k]] != last
      {
        assert (dir + [names[k]])[|dir|] == names[k];
        assert last[|dir|] == names[n - 1];
      }
    }
  }

  /** After the first `n` writes, every file other than the ones written is as it was. */
  lemma {:induction false} WrittenOnly(files: map<Path, FileEntry>, dir: Path, names: seq<string>, texts: seq<string>, n: nat, clock: int)
    requires n <= |names| == |texts|
    ensures forall p :: p !in PathsIn(dir, names, n) ==>
              var w := Written(files, dir, names, texts, n, clock);
              (p in w <==> p in files) && (p in files ==> w[p] == files[p])
  {
    if n > 0 {
      WrittenOnly(files, dir, names, texts, n - 1, clock);
      var last := dir + [names[n - 1]];
      forall p | p !in PathsIn(dir, names, n)
        ensures p !in PathsIn(dir, names, n - 1) && p != last
      {
      }
    }
  }

  /** The first position from `from` on whose file an existing directory takes. */
  function FirstBlocked(dirs: set<Path>, dir: Path, names: seq<string>, from: nat): (k: nat)
    requires from <= |names|
    ensures from <= k <= |names|
    ensures forall j :: from <= j < k ==> dir + [names[j]] !in dirs
    ensures k < |names| ==> dir + [names[k]] in dirs
    decreases |names| - from
  {
    if from == |names| || dir + [names[from]] in dirs then from
    else FirstBlocked(dirs, dir, names, from + 1)
  }

  /** The first blocked position is the one where the writes stop. */
  lemma {:induction false} FirstBlockedIs(dirs: set<Path>, dir: Path, names: seq<string>, from: nat, k: nat)
    requires from <= k <= |names|
    requires forall j :: from <= j < k ==> dir + [names[j]] !in dirs
    requires k < |names| ==> dir + [names[k]] in dirs
    ensures FirstBlocked(dirs, dir, names, from) == k
    decreases k - from
  {
    if from < k {
      FirstBlockedIs(dirs, dir, names, from + 1, k);
    }
  }

  /** Why `_write_chapters` raised. */
  datatype WriteFailure =
    | RemoveNotADirectory   // `--force` and a regular file stands where the book directory goes
    | MakeDirBlocked        // a regular file stands at the book directory or one of its ancestors
    | WriteBlocked(index: nat)  // a directory stands where chapter `index` is to be written

  /** `shutil.rmtree(book_dir)` when `force` is set and the book directory exists. */
  function Cleared(d: Disk, bookDir: Path, force: bool): Disk
  {
    if force && bookDir in d.dirs then Disk(PruneFiles(d.files, bookDir), PruneDirs(d.dirs, bookDir)) else d
  }

  /**
   * The first two statements of `_write_chapters`: `rmtree` when forced, then `mkdir`. The
   * outcome is the failure, if one was raised, and the disk afterwards.
   */
  function PrepareSpec(d: Disk, bookDir: Path, force: bool): (Option<WriteFailure>, Disk)
  {
    if force && bookDir in d.files then (Some(RemoveNotADirectory), d)
    else
      var cleared := Cleared(d, bookDir, force);
      if !(Ancestors(bookDir) !! cleared.files.Keys) then (Some(MakeDirBlocked), cleared)
      else (None, Disk(cleared.files, cleared.dirs + Ancestors(bookDir)))
  }

  /**
   * `_write_chapters(book_dir, chapters, force, dry_run)`: the outcome (the number of files
   * written, or why it raised) and the disk afterwards.
   */
  function WriteChaptersSpec(d: Disk, clock: int, bookDir: Path, chapters: seq<Chapter>, force: bool, dryRun: bool)
    : (Result<nat, WriteFailure>, Disk)
  {
    var (failure, made) := PrepareSpec(d, bookDir, force);
    if failure.Some? then (Err(failure.value), made)
    else if dryRun then (Ok(0), made)
    else
      var names := FileNames(chapters);
      var k := FirstBlocked(made.dirs, bookDir, names, 0);
      var after := Disk(Written(made.files, bookDir, names, FileTexts(chapters), k, clock), made.dirs);
      if k < |chapters| then (Err(WriteBlocked(k)), after) else (Ok(|chapters|), after)
  }

  /** `_write_chapters` itself, on the file system. */
  method WriteChapters(fs: FileSystem, bookDir: Path, chapters: seq<Chapter>, force: bool, dryRun: bool)
    returns (r: Result<nat, WriteFailure>)
    requires fs.Valid() && bookDir != []
    modifies fs
    ensures fs.Valid()
    ensures (r, Disk(fs.files, fs.dirs))
            == WriteChaptersSpec(Disk(old(fs.files), old(fs.dirs)), fs.clock, bookDir, chapters, force, dryRun)
  {
    var failure := PrepareBookDir(fs, bookDir, force);
    if failure.Some? {
      return Err(failure.value);
    }
    var names := FileNames(chapters);  // the `fname` of every position
    var texts := FileTexts(chapters);
    assert bookDir == bookDir[..|bookDir|];
    var written := WriteFiles(fs, bookDir, names, texts, dryRun);
    if written < |chapters| {
      return Err(WriteBlocked(written));
    }
    return Ok(if dryRun then 0 else |chapters|);
  }

  /** `rmtree` when forced and the book directory exists, then `mkdir(parents=True, exist_ok=True)`. */
  method PrepareBookDir(fs: FileSystem, bookDir: Path, force: bool) returns (failure: Option<WriteFailure>)
    requires fs.Valid()
    modifies fs
    ensures fs.Valid()
    ensures (failure, Disk(fs.files, fs.dirs)) == PrepareSpec(Disk(old(fs.files), old(fs.dirs)), bookDir, force)
  {
    if force && fs.Exists(bookDir) {
      if bookDir in fs.files {
        return Some(RemoveNotADirectory);
      }
      fs.RemoveTree(bookDir);
    }
    var ok := fs.MakeDirs(bookDir);
    if !ok {
      return Some(MakeDirBlocked);
    }
    return None;
  }

  /**
   * The loop of `_write_chapters`: writes each text under its name in `dir`, in order, and
   * stops at the first write that raises; a dry run writes nothing. Returns how many
   * positions were passed (all of them unless a write raised).
   */
  method WriteFiles(fs: FileSystem, dir: Path, names: seq<string>, texts: seq<string>, dryRun: bool)
    returns (passed: nat)
    requires fs.Valid() && dir != [] && dir in fs.dirs && |names| == |texts|
    modifies fs
    ensures fs.Valid() && fs.dirs == old(fs.dirs)
    ensures dryRun ==> passed == |names| && fs.files == old(fs.files)
    ensures !dryRun ==> passed == FirstBlocked(old(fs.dirs), dir, names, 0)
                        && fs.files == Written(old(fs.files), dir, names, texts, passed, fs.clock)
  {
    assert dir == dir[..|dir|];
    for idx := 0 to |names|
      invariant fs.Valid() && fs.dirs == old(fs.dirs)
      invariant dryRun ==> fs.files == old(fs.files)
      invariant !dryRun ==> fs.files == Written(old(fs.files), dir, names, texts, idx, fs.clock)
      invariant !dryRun ==> forall j :: 0 <= j < idx ==> dir + [names[j]] !in fs.dirs
    {
      if dryRun {
        continue;
      }
      var path := dir + [names[idx]];
      assert Parent(path) == dir;
      var ok := fs.WriteText(path, texts[idx]);
      if !ok {
        FirstBlockedIs(fs.dirs, dir, names, 0, idx);
        return idx;
      }
    }
    if !dryRun {
      FirstBlockedIs(fs.dirs, dir, names, 0, |names|);
    }
    return |names|;
  }

  /** Every chapter file holds its chapter followed by a newline once the writing succeeds. */
  lemma WriteChaptersContents(d: Disk, clock: int, bookDir: Path, chapters: seq<Chapter>, force: bool)
    requires WriteChaptersSpec(d, clock, bookDir, chapters, force, false).0.Ok?
    ensures var (r, after) := WriteChaptersSpec(d, clock, bookDir, chapters, force, false);
            && r == Ok(|chapters|)
            && forall k :: 0 <= k < |chapters| ==>
                 var p := bookDir + [ChapterFileName(k, chapters[k].title)];
                 p in after.files && after.files[p] == FileEntry(chapters[k].text + "\n", clock)
  {
    var made := PrepareSpec(d, bookDir, force).1;
    var names := FileNames(chapters);
    WrittenAt(made.files, bookDir, names, FileTexts(chapters), |chapters|, clock);
  }

  /** `p` lies in the directory `dir` or below it. */
  predicate Under(dir: Path, p: Path)
  {
    IsPrefix(dir, p)
  }

  /** Whatever happens, nothing outside the book directory changes. */
  lemma WriteChaptersOutside(d: Disk, clock: int, bookDir: Path, chapters: seq<Chapter>, force: bool, dryRun: bool)
    ensures var after := WriteChaptersSpec(d, clock, bookDir, chapters, force, dryRun).1;
            forall p :: !Under(bookDir, p) ==>
              (p in after.files <==> p in d.files) && (p in d.files ==> after.files[p] == d.files[p])
  {
    var made := PrepareSpec(d, bookDir, force).1;
    PrepareOutside(d, bookDir, force);
    var names := FileNames(chapters);
    var k := FirstBlocked(made.dirs, bookDir, names, 0);
    WrittenOutside(made.files, bookDir, names, FileTexts(chapters), k, clock);
  }

  /** Removing and making the book directory changes no file outside it. */
  lemma PrepareOutside(d: Disk, bookDir: Path, force: bool)
    ensures var made := PrepareSpec(d, bookDir, force).1;
            forall p :: !Under(bookDir, p) ==>
              (p in made.files <==> p in d.files) && (p in d.files ==> made.files[p] == d.files[p])
  {
  }

  /** The chapter writes change no file outside the directory they write into. */
  lemma WrittenOutside(files: map<Path, FileEntry>, dir: Path, names: seq<string>, texts: seq<string>, n: nat, clock: int)
    requires n <= |names| == |texts|
    ensures var w := Written(files, dir, names, texts, n, clock);
            forall p :: !Under(dir, p) ==> (p in w <==> p in files) && (p in files ==> w[p] == files[p])
  {
    var w := Written(files, dir, names, texts, n, clock);
    WrittenOnly(files, dir, names, texts, n, clock);
    forall p | !Under(dir, p)
      ensures p !in PathsIn(dir, names, n)
    {
      forall j | 0 <= j < n ensures p != dir + [names[j]] {
        assert Under(dir, dir + [names[j]]) by {
          assert (dir + [names[j]])[..|dir|] == dir;
        }
      }
    }
  }

  /** A dry run writes no file: every file afterwards was there before, unchanged. */
  lemma DryRunWritesNothing(d: Disk, clock: int, bookDir: Path, chapters: seq<Chapter>, force: bool)
    ensures var after := WriteChaptersSpec(d, clock, bookDir, chapters, force, true).1;
            forall p :: p in after.files ==> p in d.files && after.files[p] == d.files[p]
  {
  }

  /**
   * A dry run with `--force` still removes an existing book directory: none of the files
   * that were in it are left.
   */
  lemma DryRunForceRemoves(d: Disk, clock: int, bookDir: Path, chapters: seq<Chapter>)
    requires bookDir in d.dirs && bookDir !in d.files
    ensures var after := WriteChaptersSpec(d, clock, bookDir, chapters, true, true).1;
            forall p :: p in d.files && Under(bookDir, p) ==> p !in after.files
  {
  }

  /** With `--force`, a book directory that existed holds only the new chapter files afterwards. */
  lemma ForceLeavesOnlyChapters(d: Disk, clock: int, bookDir: Path, chapters: seq<Chapter>)
    requires bookDir in d.dirs && d.files.Keys !! d.dirs
    requires WriteChaptersSpec(d, clock, bookDir, chapters, true, false).0.Ok?
    ensures var after := WriteChaptersSpec(d, clock, bookDir, chapters, true, false).1;
            forall p :: p in after.files && Under(bookDir, p) ==>
              p in PathsIn(bookDir, FileNames(chapters), |chapters|)
  {
    var made := PrepareSpec(d, bookDir, true).1;
    assert made.files == PruneFiles(d.files, bookDir);
    var names := FileNames(chapters);
    assert FirstBlocked(made.dirs, bookDir, names, 0) == |chapters|;
    var after := WriteChaptersSpec(d, clock, bookDir, chapters, true, false).1;
    assert after.files == Written(made.files, bookDir, names, FileTexts(chapters), |chapters|, clock);
    WrittenAt(made.files, bookDir, names, FileTexts(chapters), |chapters|, clock);
    forall p | p in after.files && Under(bookDir, p)
      ensures p in PathsIn(bookDir, names, |chapters|)
    {
      assert p !in made.files;
    }
  }

  /**
   * Without `--force`, files already in the book directory that are not chapter files of
   * this run (say, chapters of a longer earlier version) stay where they are.
   */
  lemma NoForceKeepsOthers(d: Disk, clock: int, bookDir: Path, chapters: seq<Chapter>, dryRun: bool)
    ensures var after := WriteChaptersSpec(d, clock, bookDir, chapters, false, dryRun).1;
            forall p :: p in d.files && p !in PathsIn(bookDir, FileNames(chapters), |chapters|) ==>
              p in after.files && after.files[p] == d.files[p]
  {
    var made := PrepareSpec(d, bookDir, false).1;
    var names := FileNames(chapters);
    var k := FirstBlocked(made.dirs, bookDir, names, 0);
    WrittenAt(made.files, bookDir, names, FileTexts(chapters), k, clock);
    forall p | p !in PathsIn(bookDir, names, |chapters|)
      ensures p !in PathsIn(bookDir, names, k)
    {
    }
  }

  /** `--no-split-action` */
  datatype NoSplitAction = Skip | Copy

  /** `dst_root / src_path.stem` */
  function BookDir(dstRoot: Path, src: Path): Path
  {
    dstRoot + [Stem(Name(src))]
  }

  /** `book_dir.with_suffix(".md")`: where a file that does not split is copied. */
  function CopyTarget(dstRoot: Path, src: Path): Path
    requires Name(src) != ""
  {
    dstRoot + [WithSuffix(Stem(Name(src)), ".md")]
  }

  /** A name with a single dot, such as "notes.md", is copied under its own name. */
  lemma CopyTargetPlain(dstRoot: Path, src: Path, stem: string)
    requires stem != "" && (forall k :: 0 <= k < |stem| ==> stem[k] != '.') && Name(src) == stem + ".md"
    ensures CopyTarget(dstRoot, src) == dstRoot + [Name(src)]
  {
    var name := stem + ".md";
    assert name[|stem|] == '.';
    assert forall k :: |stem| < k < |name| ==> name[k] != '.';
    assert LastDot(name) == |stem|;
    assert name[..|stem|] == stem;
    assert LastDot(stem) == -1;
  }

  /**
   * The stem already lost the last suffix, and `with_suffix` replaces the next one: "v1.2.md"
   * and "v1.5.md" are both copied to "v1.md".
   */
  lemma CopyTargetDropsInnerSuffix(dstRoot: Path)
    ensures CopyTarget(dstRoot, ["v1.2.md"]) == dstRoot + ["v1.md"]
    ensures CopyTarget(dstRoot, ["v1.5.md"]) == dstRoot + ["v1.md"]
  {
    InnerSuffix(dstRoot, "v1.2.md", '2');
    InnerSuffix(dstRoot, "v1.5.md", '5');
  }

  lemma InnerSuffix(dstRoot: Path, name: string, c: char)
    requires name == ['v', '1', '.', c, '.', 'm', 'd'] && c != '.'
    ensures CopyTarget(dstRoot, [name]) == dstRoot + ["v1.md"]
  {
    assert Name([name]) == name;
    assert name[4] == '.' && name[5] != '.' && name[6] != '.';
    assert LastDot(name) == 4;
    var stem := name[..4];
    assert Stem(name) == stem;
    assert stem[2] == '.' && stem[3] != '.';
    assert LastDot(stem) == 2;
    assert Stem(stem) == "v1";
    assert WithSuffix(stem, ".md") == "v1" + ".md" == "v1.md";
  }

  /** Sources with the same stem share a book directory, whatever directory they come from. */
  lemma BookDirIgnoresFolders(dstRoot: Path, a: Path, b: Path)
    requires Name(a) == Name(b)
    ensures BookDir(dstRoot, a) == BookDir(dstRoot, b)
  {
  }

  /** What `process_file` will do with a text. */
  datatype Plan =
    | PlanSkip
    | PlanCopy(target: Path)
    | PlanWrite(bookDir: Path, chapters: seq<Chapter>)

  /** `process_file`'s decision: one chapter or none is copied or skipped; more are written. */
  function PlanFor(text: string, src: Path, dstRoot: Path, level: nat, action: NoSplitAction): Plan
    requires Name(src) != ""
  {
    var chapters := Split(text, level);
    if |chapters| <= 1 then
      if action == Copy then PlanCopy(CopyTarget(dstRoot, src)) else PlanSkip
    else PlanWrite(BookDir(dstRoot, src), chapters)
  }

  /**
   * A file is split into chapter files exactly when it has two headings of the level, or one
   * heading after some non-blank text.
   */
  lemma PlanWriteIff(text: string, src: Path, dstRoot: Path, level: nat, action: NoSplitAction)
    requires level >= 1 && Name(src) != ""
    ensures PlanFor(text, src, dstRoot, level, action).PlanWrite?
            <==> |Headings(text, level)| + (if Strip(Prologue(text, level), Whitespace) == [] then 0 else 1) >= 2
  {
    ChapterLayout(text, level);
  }

  /** What `process_file` did. */
  datatype SplitOutcome =
    | Skipped
    | WouldCopy(target: Path)
    | Copied(target: Path)
    | Wrote(chapters: nat)
    | Failed  // an exception was raised, logged and swallowed

  /**
   * How `process_file` leaves the disk `before` as `after`, with outcome `outcome`: an unreadable
   * source fails and changes nothing; one chapter or none is skipped, announced in a dry run, or
   * copied (or fails); more are written as `_write_chapters` specifies, and its failure is `Failed`.
   */
  predicate ProcessedAs(before: Disk, after: Disk, clock: int, src: Path, dstRoot: Path, level: nat, force: bool,
                        action: NoSplitAction, dryRun: bool, outcome: SplitOutcome)
    requires Name(src) != ""
  {
    if src !in before.files then outcome == Failed && after == before
    else
      match PlanFor(before.files[src].content, src, dstRoot, level, action)
      case PlanSkip => outcome == Skipped && after == before
      case PlanCopy(target) =>
        if dryRun then outcome == WouldCopy(target) && after == before
        else (outcome == Copied(target) || outcome == Failed)
             && (outcome == Copied(target) ==>
                   var written := CopyDestination(before.dirs, src, target);
                   written in after.files && after.files[written] == FileEntry(before.files[src].content, clock))
      case PlanWrite(bookDir, chapters) =>
        var (r, disk) := WriteChaptersSpec(before, clock, bookDir, chapters, force, dryRun);
        after == disk && outcome == (if r.Ok? then Wrote(|chapters|) else Failed)
  }

  /** `process_file(src_path, dst_root, level, force, no_split_action, dry_run)` */
  method ProcessFile(fs: FileSystem, src: Path, dstRoot: Path, level: nat, force: bool, action: NoSplitAction, dryRun: bool)
    returns (outcome: SplitOutcome)
    requires fs.Valid() && Name(src) != "" && level >= 1
    modifies fs
    ensures fs.Valid()
    ensures ProcessedAs(Disk(old(fs.files), old(fs.dirs)), Disk(fs.files, fs.dirs), fs.clock,
                        src, dstRoot, level, force, action, dryRun, outcome)
  {
    var bookDir := BookDir(dstRoot, src);
    if src !in fs.files {
      return Failed;
    }
    var text := fs.files[src].content;
    var chapters := SplitMarkdown(text, level);
    if |chapters| <= 1 {
      if action == Copy {
        var dst := CopyTarget(dstRoot, src);
        if dryRun {
          return WouldCopy(dst);
        }
        var ok := fs.MakeDirs(Parent(dst));
        if !ok {
          return Failed;
        }
        ok := fs.Copy(src, dst);
        if !ok {
          return Failed;
        }
        assert dst !in Ancestors(Parent(dst));
        return Copied(dst);
      }
      return Skipped;
    }
    var r := WriteChapters(fs, bookDir, chapters, force, dryRun);
    if r.Err? {
      return Failed;
    }
    return Wrote(|chapters|);
  }

  /**
   * `os.cpu_count() if workers == 0 else max(1, workers)`; `cpuCount` is what `os.cpu_count()`
   * reports (None when it cannot tell).
   */
  function EffectiveWorkers(requested: int, cpuCount: Option<nat>): (w: Option<int>)
    requires cpuCount.Some? ==> cpuCount.value >= 1
    ensures requested != 0 ==> w.Some? && w.value >= 1 && w.value >= requested
    ensures requested == 0 ==> w == if cpuCount.Some? then Some(cpuCount.value as int) else None
  {
    if requested == 0 then (if cpuCount.Some? then Some(cpuCount.value as int) else None)
    else if requested < 1 then Some(1) else Some(requested)
  }

  /** A positive request is honoured as it is. */
  lemma PositiveWorkersKept(requested: int, cpuCount: Option<nat>)
    requires requested >= 1 && (cpuCount.Some? ==> cpuCount.value >= 1)
    ensures EffectiveWorkers(requested, cpuCount) == Some(requested)
  {
  }

  /**
   * The files are processed one after another, in the calling process, exactly when the request
   * is 1 or negative, or 0 on a machine with a single CPU.
   */
  lemma SequentialIff(requested: int, cpuCount: Option<nat>)
    requires cpuCount.Some? ==> cpuCount.value >= 1
    ensures EffectiveWorkers(requested, cpuCount) == Some(1)
            <==> requested == 1 || requested < 0 || (requested == 0 && cpuCount == Some(1))
  {
  }

  /** What `process_file` yields in a dry run without `--force`, on files `files`. */
  predicate DryRunOutcome(files: map<Path, FileEntry>, src: Path, dstRoot: Path, level: nat, action: NoSplitAction, o: SplitOutcome)
    requires Name(src) != ""
  {
    if src !in files then o == Failed
    else match PlanFor(files[src].content, src, dstRoot, level, action)
      case PlanSkip => o == Skipped
      case PlanCopy(target) => o == WouldCopy(target)
      case PlanWrite(_, chapters) => o == Wrote(|chapters|) || o == Failed
  }

  /** Without `--force`, a dry run of `_write_chapters` leaves every file as it was. */
  lemma DryRunKeepsFiles(d: Disk, clock: int, bookDir: Path, chapters: seq<Chapter>)
    ensures WriteChaptersSpec(d, clock, bookDir, chapters, false, true).1.files == d.files
  {
  }

  /** One dry run of `process_file` without `--force`: no file changes, and the outcome is the planned one. */
  lemma DryRunStep(before: Disk, after: Disk, clock: int, src: Path, dstRoot: Path, level: nat, action: NoSplitAction,
                   o: SplitOutcome)
    requires Name(src) != ""
    requires ProcessedAs(before, after, clock, src, dstRoot, level, false, action, true, o)
    ensures after.files == before.files && DryRunOutcome(before.files, src, dstRoot, level, action, o)
  {
    if src in before.files {
      match PlanFor(before.files[src].content, src, dstRoot, level, action)
      case PlanSkip =>
      case PlanCopy(_) =>
      case PlanWrite(bookDir, chapters) =>
        DryRunKeepsFiles(before, clock, bookDir, chapters);
    }
  }

  /**
   * The sequential branch of `main`: `process_file` for every source in turn. Since
   * `process_file` swallows its failures, every source gets its turn. A dry run without
   * `--force` changes no file, so each source's outcome is decided by the files as they were.
   */
  method SplitAll(fs: FileSystem, sources: seq<Path>, dstRoot: Path, level: nat, force: bool, action: NoSplitAction, dryRun: bool)
    returns (outcomes: seq<SplitOutcome>)
    requires fs.Valid() && level >= 1
    requires forall k :: 0 <= k < |sources| ==> Name(sources[k]) != ""
    modifies fs
    ensures fs.Valid() && |outcomes| == |sources|
    ensures dryRun && !force ==>
              && fs.files == old(fs.files)
              && forall k :: 0 <= k < |sources| ==>
                   DryRunOutcome(old(fs.files), sources[k], dstRoot, level, action, outcomes[k])
  {
    outcomes := [];
    for i := 0 to |sources|
      invariant fs.Valid() && |outcomes| == i
      invariant dryRun && !force ==>
                  && fs.files == old(fs.files)
                  && forall k :: 0 <= k < i ==>
                       DryRunOutcome(old(fs.files), sources[k], dstRoot, level, action, outcomes[k])
    {
      ghost var before := Disk(fs.files, fs.dirs);
      var o := ProcessFile(fs, sources[i], dstRoot, level, force, action, dryRun);
      if dryRun && !force {
        DryRunStep(before, Disk(fs.files, fs.dirs), fs.clock, sources[i], dstRoot, level, action, o);
      }
      outcomes := outcomes + [o];
    }
  }
}
