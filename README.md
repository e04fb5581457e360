# AI-doc2md: Markdown splitting and document conversion, modelled in Dafny

AI-doc2md prepares document collections for language models with two scripts.

- `scripts/convert_any_to_md.py` walks a source tree. It converts every PDF, EPUB, Word, text
  and Kindle file to Markdown, into the same place under a destination tree.
- `scripts/split_md_by_heading.py` cuts each Markdown file into chapters at the headings of
  one level. It writes the chapters as `chNN_<title>.md` files into a "book" directory named
  after the source file.

This project models the decision logic of both scripts and proves what they promise:

- the heading scan, done as Python's `re` does it;
- the chapters `split_markdown` returns;
- `sanitize_filename` and the chapter file names;
- what `_write_chapters` leaves on disk;
- the per-file copy/skip/split policy;
- the worker count;
- the destination, staleness, converter-dispatch and error-file rules of the converter's
  `process_file`;
- its file filter and progress counter.

## Layout

| file | module | contents |
|---|---|---|
| `wrappers.dfy` | `Wrappers` | `Option`, `Result` |
| `text.dfy` | `Text` | `str.isspace`, `str.strip`, ASCII `str.lower`, `str(n)`, `<` on `str`, `str.join` |
| `paths.dfy` | `Paths` | pathlib on component sequences: `name`, `parent`, `suffix`, `stem`, `with_suffix`, `relative_to` |
| `filesystem.dfy` | `FileSystems` | class `FileSystem`: files with text and mtime, directories, `mkdir`, `write_text`, `rmtree`, `shutil.copy` |
| `heading_match.dfy` | `HeadingMatch` | the pattern `^(#{level})\s+(.+)$` under `re.MULTILINE` and `finditer` |
| `markdown_split.dfy` | `MarkdownSplit` | `split_markdown`: its two loops as methods, proved equal to the function `Split`, and the chapter layout |
| `chapter_names.dfy` | `ChapterNames` | `sanitize_filename`, `ch{idx:02d}_{title}.md` |
| `split_pipeline.dfy` | `SplitPipeline` | `_write_chapters`, `process_file`, the worker count, the sequential batch |
| `convert_pipeline.dfy` | `ConvertPipeline` | `CONVERTERS`, `process_file`, the file filter and progress loop of `main` |

The heading pattern is modelled as Python's backtracking matcher runs it:

- `\s+` may run across line breaks.
- Group 2 starts at the last position the greedy `\s+` can give it.
- A match ends at the next line break.

So a line `#` followed by a blank line and `text` is a heading titled `text`, and
`HeadingsComplete` shows that no split point is missed. Whitespace is the full `str.isspace`
table, which is also the `\s` class of `re` on `str` patterns.

State-changing code is modelled imperatively:

- `split_markdown` is the method `MarkdownSplit.SplitMarkdown`. It is built from two loops (`ScanParts`, `AddHeadingLines`) and proved equal to the function `MarkdownSplit.Split`.
- `_write_chapters` is `SplitPipeline.WriteChapters`, a method on a `FileSystems.FileSystem` object. It is proved equal to the function `WriteChaptersSpec`.
- The converter's `process_file` is `ConvertPipeline.ConvertFile`. It is proved equal to `ConvertSpec`.

The lemmas are stated on those functions.

Four behaviours of the code are easy to miss:

- A destination whose mtime equals the source's is converted again, because the staleness test
  is `dst_mtime > src_mtime` (`ConverterRunsIff`).
- A prologue that does not begin with `#` gets `"<hashes> prologue\n\n"` in front of it, like
  every other chapter without a leading `#` (`ChapterLayout`).
- Chapter file names sort in document order only below 100 chapters: `ch100_…` sorts before
  `ch11_…` (`ChapterFileNamesOrderBreaks`).
- A file that does not split is copied to `book_dir.with_suffix(".md")`. That replaces one more
  suffix of the stem, so "v1.2.md" is copied to "v1.md", not under its own name
  (`CopyTargetDropsInnerSuffix`).

## Model

| member | source | states |
|---|---|---|
| Text.Strip | scripts/split_md_by_heading.py:71-78 | definition of `str.strip()` for a set of characters; it never lengthens the text and leaves none of them at either end; `StripSpec` and `StripFirst` state the rest |
| Text.Lower | scripts/split_md_by_heading.py:41 | definition of ASCII `str.lower()`: the same length, each character lower-cased; `SquashLower` and `ConverterForIgnoresCase` rely on it |
| Text.StripSpec | scripts/split_md_by_heading.py:71-72 | `strip()` keeps a contiguous infix with only whitespace around it, and is empty exactly when the text is all whitespace |
| Text.StripFirst | scripts/split_md_by_heading.py:85 | a text that starts with a non-space character keeps that first character when stripped |
| HeadingMatch.MatchAt | scripts/split_md_by_heading.py:62-63 | a match starts where it was tried, and its title is non-empty and starts after the hashes and at least one whitespace character (which may be a line break) |
| HeadingMatch.MatchAtSpec | scripts/split_md_by_heading.py:62-63 | a match exists at a position exactly when the pattern matches there; group 2 starts at the greatest admissible position and the match ends at the end of that line |
| HeadingMatch.DeeperHeadingNoMatch | scripts/split_md_by_heading.py:62 | a line starting with more than `level` hashes is never a split point |
| HeadingMatch.NextMatch | scripts/split_md_by_heading.py:69 | the match `finditer` resumes with lies at or after the position and is the match at its start |
| HeadingMatch.NextMatchLeftmost | scripts/split_md_by_heading.py:69 | that match is the leftmost one: no match is skipped before it, and none is found only when none exists |
| HeadingMatch.HeadingsFrom | scripts/split_md_by_heading.py:69 | the matches come in order and do not overlap |
| HeadingMatch.HeadingsAreMatches | scripts/split_md_by_heading.py:69 | each yielded match is the match at its start |
| HeadingMatch.HeadingsComplete | scripts/split_md_by_heading.py:62-69 | every position where the pattern matches is the start of a yielded match or lies inside one |
| MarkdownSplit.Split | scripts/split_md_by_heading.py:52-89 | definition of what `split_markdown` returns; `SplitMarkdown` computes it, `ChapterLayout` and `ChaptersWellFormed` state its behaviour |
| MarkdownSplit.SplitMarkdown | scripts/split_md_by_heading.py:52-89 | the method returns exactly the chapters `Split` defines |
| MarkdownSplit.ScanParts | scripts/split_md_by_heading.py:65-80 | the first loop collects the stripped non-blank regions, the prologue first, then each match's region under its stripped title |
| MarkdownSplit.ScanStep | scripts/split_md_by_heading.py:69-76 | one iteration emits the region before the match under the previous title, and continues from the match's start with its title |
| MarkdownSplit.ScanEnd | scripts/split_md_by_heading.py:78-80 | after the last match only the tail from the last start remains |
| MarkdownSplit.AddHeadingLines | scripts/split_md_by_heading.py:83-87 | the second loop puts the heading line in front of every chapter that does not start with `#` |
| MarkdownSplit.KeepTrimmed | scripts/split_md_by_heading.py:70-72 | every kept chapter text is non-empty and has no surrounding whitespace |
| MarkdownSplit.PiecesCover | scripts/split_md_by_heading.py:69-78 | the regions sliced between matches, concatenated, are the text from the start: nothing is lost or repeated before stripping |
| MarkdownSplit.PiecesAt | scripts/split_md_by_heading.py:69-80 | region 0 runs from the start to the first match under "prologue", region k+1 from match k to the next match under match k's title |
| MarkdownSplit.KeepNonBlank | scripts/split_md_by_heading.py:70-72 | regions that are not blank are all kept, each stripped, in order |
| MarkdownSplit.ChaptersWellFormed | scripts/split_md_by_heading.py:70-87 | every chapter text is non-empty, starts with `#` and ends in a non-space character |
| MarkdownSplit.HeadingRegion | scripts/split_md_by_heading.py:74-80 | a heading's region is never blank after stripping and still begins with `#` |
| MarkdownSplit.ChapterLayout | scripts/split_md_by_heading.py:62-87 | the chapters are the prologue (only if non-blank, with the heading prefix when it lacks a `#`) and then one chapter per match: its stripped title and its stripped region up to the next match |
| MarkdownSplit.NoHeadingAtMostOneChapter | scripts/split_md_by_heading.py:69-80 | a text with no heading of the level yields at most one chapter |
| MarkdownSplit.LeadingHeadingNoPrologue | scripts/split_md_by_heading.py:66-72 | a heading on the first line gives no prologue: one chapter per heading, the first titled by that heading |
| ChapterNames.Clean | scripts/split_md_by_heading.py:41 | definition of the cleaned name, lower-cased, substituted and stripped of `_`; `CleanChars` and `CleanEmpty` state its behaviour |
| ChapterNames.ChapterFileName | scripts/split_md_by_heading.py:106 | definition of `ch{idx:02d}_{sanitize_filename(title)}.md`; `ChapterIndexRoundTrip`, `ChapterFileNamesDistinct` and `ChapterFileNamesOrdered` state its behaviour |
| ChapterNames.SquashFrom | scripts/split_md_by_heading.py:37-41 | the substitution leaves only characters of `[A-Za-z0-9._-]` and never lengthens the text |
| ChapterNames.SquashIdentity | scripts/split_md_by_heading.py:37-41 | the substitution changes nothing exactly when every character is allowed |
| ChapterNames.SquashIdempotent | scripts/split_md_by_heading.py:41 | substituting twice is substituting once |
| ChapterNames.SquashUnderscores | scripts/split_md_by_heading.py:41 | the substitution yields only underscores exactly when the text has nothing but disallowed characters and underscores |
| ChapterNames.PyPrefix | scripts/split_md_by_heading.py:42 | `s[:n]` is a prefix of length `min(n, len)`, or counts from the end for negative `n` |
| ChapterNames.Sanitize | scripts/split_md_by_heading.py:40-42 | the result is non-empty, never starts with `_`, holds only lower-case-safe `[a-z0-9._-]` characters, is at most `max_len` long unless it is "untitled", and is otherwise a prefix of the cleaned name |
| ChapterNames.CleanChars | scripts/split_md_by_heading.py:41 | the cleaned name has only allowed, non-upper-case characters and no `_` at either end |
| ChapterNames.SquashLower | scripts/split_md_by_heading.py:41 | substitution after `lower()` introduces no upper-case letter |
| ChapterNames.CleanEmpty | scripts/split_md_by_heading.py:41 | nothing survives cleaning exactly when the name has only disallowed characters and underscores |
| ChapterNames.FillerUntitled | scripts/split_md_by_heading.py:42 | such a name becomes "untitled" |
| ChapterNames.SanitizeFixedPoint | scripts/split_md_by_heading.py:40-42 | a name that is already clean and short enough is returned unchanged |
| ChapterNames.SanitizeIdempotent | scripts/split_md_by_heading.py:40-42 | sanitizing twice is sanitizing once, when the first result has no trailing `_` and `max_len` admits "untitled" |
| ChapterNames.TruncationLeavesUnderscore | scripts/split_md_by_heading.py:41-42 | truncation happens after stripping, so "ab c" at length 3 gives "ab_", and that result is not a fixed point |
| ChapterNames.SanitizeShort | scripts/split_md_by_heading.py:41-42 | a cleaned name within `max_len` is returned whole |
| ChapterNames.TitlesCollide | scripts/split_md_by_heading.py:40-42 | distinct titles can sanitize alike: "Part 1!!" and "Part 1??" both give "part_1" |
| ChapterNames.Pad2 | scripts/split_md_by_heading.py:106 | `{idx:02d}` is all digits, at least two of them, exactly two below 100, and reads back as `idx` |
| ChapterNames.ChapterIndexRoundTrip | scripts/split_md_by_heading.py:106 | the index can be read back from every chapter file name |
| ChapterNames.ChapterFileNamesDistinct | scripts/split_md_by_heading.py:105-106 | chapters with different indices get different file names, whatever their titles |
| ChapterNames.ChapterFileNamesOrdered | scripts/split_md_by_heading.py:106 | below 100 chapters, name order (`<` on `str`) is chapter order |
| ChapterNames.ChapterFileNamesOrderBreaks | scripts/split_md_by_heading.py:106 | from 100 on it is not: chapter 100's name sorts before chapter 11's |
| SplitPipeline.WriteChaptersSpec | scripts/split_md_by_heading.py:95-112 | definition of `_write_chapters`'s outcome and disk; `WriteChapters` computes it, `WriteChaptersContents`, `WriteChaptersOutside`, `DryRunWritesNothing`, `DryRunForceRemoves`, `ForceLeavesOnlyChapters` and `NoForceKeepsOthers` state its behaviour |
| SplitPipeline.PlanFor | scripts/split_md_by_heading.py:124-141 | definition of `process_file`'s choice between skip, copy and write; `PlanWriteIff` and `ProcessFile` state its behaviour |
| SplitPipeline.BookDir | scripts/split_md_by_heading.py:124 | definition of `dst_root / src_path.stem`; `BookDirIgnoresFolders` states its behaviour |
| SplitPipeline.CopyTarget | scripts/split_md_by_heading.py:130 | definition of `book_dir.with_suffix(".md")`; `CopyTargetPlain` and `CopyTargetDropsInnerSuffix` state its behaviour |
| SplitPipeline.ProcessedAs | scripts/split_md_by_heading.py:115-144 | definition of what `process_file` does to the disk and returns; `ProcessFile` meets it, `DryRunStep` states its dry-run case |
| SplitPipeline.DryRunOutcome | scripts/split_md_by_heading.py:123-141 | definition of the outcome of a dry run without `--force`; `DryRunStep` and `SplitAll` state that it is met |
| SplitPipeline.FileNames | scripts/split_md_by_heading.py:105-106 | no two chapters of a book get the same file name, even when their titles sanitize alike, and each name gives back its chapter's position |
| SplitPipeline.WrittenAt | scripts/split_md_by_heading.py:105-111 | after the first n writes each written file holds its own text and every other file is as before |
| SplitPipeline.FirstBlockedIs | scripts/split_md_by_heading.py:105-111 | the first chapter whose write fails is the first whose path is taken by a directory |
| SplitPipeline.WriteChapters | scripts/split_md_by_heading.py:95-112 | the outcome and the new disk are those of `WriteChaptersSpec` |
| SplitPipeline.PrepareBookDir | scripts/split_md_by_heading.py:101-103 | `rmtree` when forced and present (failing on a regular file), then `mkdir(parents=True, exist_ok=True)` |
| SplitPipeline.WriteFiles | scripts/split_md_by_heading.py:105-112 | writes the files in order, stops at the first failing write, and writes nothing in a dry run |
| SplitPipeline.WriteChaptersContents | scripts/split_md_by_heading.py:105-111 | on success every chapter file holds its chapter text followed by a newline |
| SplitPipeline.WriteChaptersOutside | scripts/split_md_by_heading.py:101-111 | nothing outside the book directory changes |
| SplitPipeline.DryRunWritesNothing | scripts/split_md_by_heading.py:108-110 | a dry run creates or changes no file |
| SplitPipeline.DryRunForceRemoves | scripts/split_md_by_heading.py:101-103 | a dry run with `--force` still deletes the existing book directory's files |
| SplitPipeline.ForceLeavesOnlyChapters | scripts/split_md_by_heading.py:101-111 | with `--force`, an existing book directory holds only this run's chapter files afterwards |
| SplitPipeline.NoForceKeepsOthers | scripts/split_md_by_heading.py:101-111 | without `--force`, files in the book directory that are not this run's chapters (stale chapters of a longer version) survive |
| SplitPipeline.CopyTargetPlain | scripts/split_md_by_heading.py:124-130 | a name with a single dot such as "notes.md" is copied to the destination root under its own name |
| SplitPipeline.CopyTargetDropsInnerSuffix | scripts/split_md_by_heading.py:124-130 | "v1.2.md" and "v1.5.md" are both copied to "v1.md" |
| SplitPipeline.BookDirIgnoresFolders | scripts/split_md_by_heading.py:124 | sources with the same name in different directories share one book directory |
| SplitPipeline.PlanWriteIff | scripts/split_md_by_heading.py:126-141 | a file is split into chapter files exactly when its headings plus a non-blank prologue number at least two |
| SplitPipeline.ProcessFile | scripts/split_md_by_heading.py:115-144 | an unreadable source fails; one chapter or none is skipped, or copied (only announced in a dry run); more are written as `_write_chapters` specifies; every exception becomes `Failed` |
| SplitPipeline.EffectiveWorkers | scripts/split_md_by_heading.py:181 | a non-zero request gives at least one worker and at least the request; zero gives the CPU count |
| SplitPipeline.PositiveWorkersKept | scripts/split_md_by_heading.py:181 | a positive request is used as given |
| SplitPipeline.SequentialIff | scripts/split_md_by_heading.py:181-186 | the sequential loop runs exactly for a request of 1, a negative request, or 0 on a single-CPU machine |
| SplitPipeline.DryRunKeepsFiles | scripts/split_md_by_heading.py:101-110 | without `--force`, a dry run of `_write_chapters` leaves every file as it was |
| SplitPipeline.DryRunStep | scripts/split_md_by_heading.py:115-141 | a dry run of `process_file` without `--force` changes no file; an unreadable source fails, and otherwise the source is skipped, announced for copying, or written or failed, as its text decides (`DryRunOutcome`) |
| SplitPipeline.SplitAll | scripts/split_md_by_heading.py:184-187 | every source gets an outcome; a dry run without `--force` changes no file, and each source is then skipped, announced for copying, or written or failed, as its text as it was before the run decides |
| FileSystems.FileSystem.MakeDirs | scripts/split_md_by_heading.py:103 | `mkdir(parents=True, exist_ok=True)` succeeds unless a regular file stands on the path, and then adds the path and its ancestors |
| FileSystems.FileSystem.WriteText | scripts/split_md_by_heading.py:111 | `write_text` succeeds exactly when the parent exists and no directory is in the way, and sets the text and mtime |
| FileSystems.FileSystem.RemoveTree | scripts/split_md_by_heading.py:102 | `rmtree` removes the directory and everything below it |
| FileSystems.FileSystem.Copy | scripts/split_md_by_heading.py:134 | `shutil.copy` writes the source text at the target, or into it when the target is a directory |
| Paths.Suffix | scripts/convert_any_to_md.py:137 | definition of pathlib's `suffix`: from the last dot, when that dot is neither the first nor the last character of the name; `SuffixOfLower`, `DotfileNotConverted` and `WithSuffixRoundTrip` state its behaviour |
| Paths.Stem | scripts/split_md_by_heading.py:124 | definition of pathlib's `stem`, non-empty for a non-empty name; `WithSuffixRoundTrip` states its behaviour |
| Paths.WithSuffix | scripts/convert_any_to_md.py:130 | definition of pathlib's `with_suffix`, never empty; `WithSuffixRoundTrip` states its behaviour |
| Paths.RelativeTo | scripts/convert_any_to_md.py:129 | `relative_to` succeeds exactly for paths under the root, and the root followed by the result is the path |
| Paths.WithSuffixRoundTrip | scripts/convert_any_to_md.py:130 | after `with_suffix(".md")` the stem is unchanged and the suffix is ".md" |
| ConvertPipeline.ConverterFor | scripts/convert_any_to_md.py:111-121 | definition of `CONVERTERS.get(src_path.suffix.lower())` over the nine-entry table; `ConverterForIgnoresCase`, `LastSuffixDecides`, `DotfileNotConverted` and `EligibleConvertible` state its behaviour |
| ConvertPipeline.ConverterForIgnoresCase | scripts/convert_any_to_md.py:137-138 | the lookup gives the same converter for a name and its lower-cased form |
| ConvertPipeline.SuffixOfLower | scripts/convert_any_to_md.py:137 | the suffix of the lower-cased name is the lower-cased suffix |
| ConvertPipeline.DotfileNotConverted | scripts/convert_any_to_md.py:137-142 | a name like ".txt" has no suffix for pathlib and finds no converter |
| ConvertPipeline.LastSuffixDecides | scripts/convert_any_to_md.py:111-121 | a name ending in a table suffix after a non-empty stem gets that suffix's converter; only the last suffix counts |
| ConvertPipeline.Mirror | scripts/convert_any_to_md.py:129-130 | definition of `rel_path` and `dst_path`, or why computing them raises; `MirrorShape` and `SameDestinationIff` state its behaviour |
| ConvertPipeline.Destination | scripts/convert_any_to_md.py:130 | definition of `dst_root / rel_path.with_suffix(".md")`; `MirrorShape` states its behaviour |
| ConvertPipeline.MirrorShape | scripts/convert_any_to_md.py:129-130 | the destination exists exactly for a named path strictly under the source root, and is the destination root, the same directories, and the stem with ".md" |
| ConvertPipeline.SameDestinationIff | scripts/convert_any_to_md.py:129-130 | two sources share a destination exactly when they share the directory and the stem ("a.pdf" and "a.docx") |
| ConvertPipeline.ErrorFile | scripts/convert_any_to_md.py:151 | definition of `dst_path.with_suffix(".error.txt")`; `ErrorFileBeside` states its behaviour |
| ConvertPipeline.ErrorFileBeside | scripts/convert_any_to_md.py:151 | the error file is `<stem>.error.txt` beside the destination and never the destination itself |
| ConvertPipeline.UpToDate | scripts/convert_any_to_md.py:132-134 | definition of the skip test `not force and dst exists and dst mtime > src mtime`; `ConverterRunsIff` and `UpToDateUntouched` state its behaviour |
| ConvertPipeline.ConvertSpec | scripts/convert_any_to_md.py:125-153 | definition of `process_file`'s result and disk; `ConvertFile` computes it, `ConverterRunsIff`, `UpToDateUntouched`, `FailureLeavesErrorFile`, `ConvertChangesLittle` and `UnknownSuffixSkipped` state its behaviour |
| ConvertPipeline.ConvertFile | scripts/convert_any_to_md.py:125-153 | the result and the new disk are those of `ConvertSpec` |
| ConvertPipeline.ConverterRunsIff | scripts/convert_any_to_md.py:132-147 | the conversion runs and succeeds exactly when `force` is set, the destination is absent, or it is not strictly newer than the source, and the suffix is in the table |
| ConvertPipeline.UpToDateUntouched | scripts/convert_any_to_md.py:132-134 | a strictly newer destination is left alone and nothing is returned, whatever the converter would do |
| ConvertPipeline.FailureLeavesErrorFile | scripts/convert_any_to_md.py:148-153 | a raising converter is reported as "ERROR converting rel: e" and leaves "Failed to convert src:\n\ne" in the error file, unless a directory occupies that path |
| ConvertPipeline.ConvertChangesLittle | scripts/convert_any_to_md.py:136-153 | apart from what the converter itself writes, `process_file` writes at most the error file and makes at most the destination's parent directories |
| ConvertPipeline.UnknownSuffixSkipped | scripts/convert_any_to_md.py:136-142 | an unknown suffix returns no message whatever the converter, but the destination directory is still made |
| ConvertPipeline.Eligible | scripts/convert_any_to_md.py:177 | exactly the regular files whose lower-cased suffix is in the table are chosen |
| ConvertPipeline.EligibleAppend | scripts/convert_any_to_md.py:177 | the filter keeps the enumeration order |
| ConvertPipeline.EligibleConvertible | scripts/convert_any_to_md.py:177 | every chosen file has a converter |
| ConvertPipeline.Completed | scripts/convert_any_to_md.py:187-193 | the count is the number of results before the first one that re-raises |
| ConvertPipeline.CompletedAll | scripts/convert_any_to_md.py:187-193 | every file is counted exactly when none re-raises |
| ConvertPipeline.ReportProgress | scripts/convert_any_to_md.py:187-193 | the counter rises by one per finished file, line k reports k+1 of the total, and the loop ends at the first re-raised exception |

## Left out

- The converters themselves (`pdf_to_md`, `epub_to_md`, `doc_to_md`, `kindle_to_md`, `plain_copy`, `run_command`) are not modelled. A conversion is a parameter that succeeds or raises with a message, and what a converter writes to disk is not modelled.
- `check_dependencies`, `setup_logging`, all logging and the module-level logging setup are not modelled. The progress lines are kept only as the visible form of the counter.
- argparse and the rest of both `main` functions are not modelled: the source-directory checks, `mkdir` of the destination root, and the empty-list warning.
- `ProcessPoolExecutor` and `as_completed` are not modelled. The split batch is the sequential loop. For the progress loop, the completion order is a parameter.
- `iter_markdown_files` and `rglob` are not modelled: the files found are a parameter.
- Decoding with `errors="ignore"` is not modelled: a source's content is already text.
- Modification times are integers, not floats.
- Text.Lower: only 'A'..'Z' are lower-cased. Unicode case mapping is not modelled.
- Paths.Show joins the components with "/"; an absolute path's root component is not treated specially.
- ConvertPipeline.UpToDate: a destination that is a directory counts as absent, because directory mtimes are not modelled.
- ConvertPipeline.UpToDate: a source that is a directory counts as missing.
- SplitPipeline.ProcessFile: on the copy path it states only two things. The copy either succeeds, leaving the source text at `shutil.copy`'s target, or it fails. The exact conditions are those of `FileSystem.MakeDirs` and `FileSystem.Copy`, which the method calls.
- SplitPipeline.SplitAll: outside a dry run without `--force`, states only that every source gets an outcome. Each outcome is what `ProcessFile` states for the disk as it is at that point.
- SplitPipeline.EffectiveWorkers: assumes that `os.cpu_count()` reports at least one CPU when it reports a number.
- The pool branch for more than one worker is not modelled, so the per-file effects of the parallel run are not covered.
