# ZIP context-menu tool: a verified model of its decision logic

`zip_tool.py` is a command-line tool, run from a desktop context menu. It
compresses a folder into a ZIP archive (`-c`) or extracts a ZIP archive into a
folder (`-x`). This project models, in Dafny, what the tool decides. The
filesystem and the `zipfile` library are replaced by given facts and outcomes:

- what `exists()` / `is_file()` / `is_dir()` say about a path;
- the paths `rglob('*')` yields;
- whether `mkdir`, opening the archive, `testzip()` and each write succeed.

The model proves properties of those decisions:

- **Entry-name safety** (line 119). A member name is skipped when it contains
  the substring `".."` anywhere or starts with `/`. `EntrySafety` models the
  test exactly as written. It proves:
  - what the test accepts, character by character;
  - that any name it accepts, joined onto the destination by plain `pathlib`
    rules, lands inside the destination. This holds without the `zipfile`
    library's own sanitising.
  - that the test is wider than traversal: `a..b.txt` is refused;
  - that it is narrower than Windows needs: `\evil.txt` and `C:\evil.txt` pass.
- **Extraction** (`Extract.ExtractZip`):
  - three path checks, then the destination directory;
  - the archive is opened, then the integrity check runs;
  - one pass over the members (`Extract.ExtractMembers`, a loop with
    invariants). It skips unsafe names, keeps going after a failed write,
    keeps member order and still returns True.
  - `if bad_file:` stops only when the bad-member name is non-empty. So a
    corrupt member whose name is the empty string lets extraction go on. The
    model keeps this (`Extract.PassesIntegrityGate`).
- **Compression** (`Compress.CompressFolder`):
  - two folder checks, the default archive path, `mkdir`, opening the archive;
  - a loop that writes one entry per regular file, named by its relative path;
  - a write that raises ends the call with False. The entries written before
    it stay in the archive.
- **Paths** (`PurePaths`): `pathlib`'s `name`, `suffix`, `stem`,
  `with_suffix`, `parent` and `/`. The suffix starts at the last dot only
  when that dot is neither the first nor the last character. So folder `a.b`
  compresses to `a.zip`, which extracts into `a`. An archive named `..zip` has
  the stem `.` and is extracted straight into the folder that holds it.
- **Dispatch** (`Dispatch.RunMain`): compress wins when both flags are set.
  No flag means failure. The exit code is 0 exactly when the operation
  succeeded and nothing raised around it.
- **Round trip** (`RoundTrip.CompressThenExtract`): extracting what the tool
  archived gives back exactly the files none of whose path names holds `..`,
  in order.

One might expect that extracting a compressed folder restores every file of
the folder. The code does not do that: a file such as
`a..b.txt` is archived (lines 51-55) but skipped on extraction (line 119). The
model follows the code, and `RoundTrip.DoubleDotFileIsNotRestored` shows the
smallest case.

## Model

| member | source | states |
|---|---|---|
| `PurePaths.LastDot` | zip_tool.py:88 | the position of the last `.` in a name (`rfind`), or -1: a dot is there and none comes after it |
| `PurePaths.SuffixStart` | zip_tool.py:88 | pathlib cuts the suffix at the last dot only when it is neither the first nor the last character; otherwise the whole name is the stem, exactly when the name is empty, ends in `.` or has no dot after position 0 |
| `PurePaths.StemAndSuffix` | zip_tool.py:88-94 | stem and suffix concatenate to the name; a suffix is `.` plus at least one character with no further dot; a non-empty name has a non-empty stem with no `/` |
| `PurePaths.WithZipSuffix` | zip_tool.py:38-39 | `with_suffix('.zip')` raises exactly for an empty name; otherwise the result sits beside the folder, is named stem + `.zip`, and has suffix `.zip` and the folder's stem |
| `PurePaths.ZipNameSplits` | zip_tool.py:39 | a non-empty stem without `/` followed by `.zip` has that stem and the suffix `.zip` |
| `PurePaths.JoinName` | zip_tool.py:94 | `parent / stem` appends the stem as the last name, except that `""` and `.` leave the path unchanged |
| `PurePaths.IsZipSuffix` | zip_tool.py:88 | `suffix.lower() == '.zip'` holds exactly for a four-character suffix `.` z i p in any mix of cases |
| `EntrySafety.SafeExactly` | zip_tool.py:119 | a name passes exactly when no two adjacent characters are both dots and it does not start with `/` |
| `EntrySafety.DotDotAnywhereIsUnsafe` | zip_tool.py:119 | `..` anywhere in a name, whatever surrounds it, makes it unsafe |
| `EntrySafety.AbsoluteIsUnsafe` | zip_tool.py:119 | a name starting with `/` is unsafe |
| `EntrySafety.SafeNameStaysWithin` | zip_tool.py:119-123 | a name that passes, joined onto the destination with no sanitising, is the destination followed by names none of which is `..` |
| `EntrySafety.BenignDoubleDotIsRefused` | zip_tool.py:119-121 | a single name with `..` inside it and no `/`, such as `a..b.txt`, is refused although it would land inside the destination |
| `EntrySafety.WindowsFormsPass` | zip_tool.py:119 | a passing name still passes behind a backslash root, `C:\` or `C:/` |
| `Compress.CompressFolder` | zip_tool.py:26-63 | returns True exactly when the folder is a directory, the archive path can be formed, `mkdir` and opening succeed and every file can be written; a missing or non-directory folder creates nothing; the directory made is the archive's parent; the entries written are those of `Archived` |
| `Compress.WriteFiles` | zip_tool.py:51-56 | the loop writes exactly the entries of `Archived`, in order, and reports whether it reached the end |
| `Compress.ArchivedMatchesFileNames` | zip_tool.py:49-59 | the entries written are always a prefix of one entry per regular file in listing order; the loop completes exactly when every regular file is readable, and then they are all written |
| `Compress.NoFilesNoEntries` | zip_tool.py:49-59 | a tree with no regular files gives an empty archive and the call completes |
| `Compress.EntryNamesAreRelative` | zip_tool.py:51-55 | every entry name written is non-empty and does not start with `/` |
| `Compress.EntryNameHasDotDot` | zip_tool.py:54-55 | an entry name holds `..` exactly when one of the names in the file's relative path does |
| `Extract.Report` | zip_tool.py:116-128 | the loop produces exactly one outcome per member |
| `Extract.ReportAt` | zip_tool.py:116-128 | the k-th outcome belongs to the k-th member; it is a skip exactly when the name is unsafe, and a write exactly when the name is safe and the write succeeds |
| `Extract.ExtractMembers` | zip_tool.py:116-128 | the loop visits every member in order, and neither a skip nor a failed write stops it; skipped exactly the unsafe names; every name written lands inside the destination |
| `Extract.ReportStaysWithin` | zip_tool.py:116-128 | for every member the outcome carries its name, is a skip exactly when the name is unsafe, and a write only when the write succeeds; every name written lands inside the destination |
| `Extract.ExtractZip` | zip_tool.py:77-138 | returns True exactly when the path exists, is a file and has a `.zip` suffix in any case, `mkdir` succeeds, the archive opens and passes the integrity gate; a failed path check makes no directory and opens nothing; the directory is the explicit one or `parent / stem`; a failed gate extracts nothing; on success the report is the per-member loop's and every name written stays inside the destination |
| `Dispatch.ExitCode` | zip_tool.py:180 | the exit code is 0 or 1, and 0 exactly on success |
| `Dispatch.RunMain` | zip_tool.py:141-180 | compress runs when its flag is set, even with the extract flag; extract runs only without the compress flag; neither flag runs nothing; an exception around the operation runs nothing or turns success into failure; exit code 0 exactly when the operation that ran succeeded |
| `RoundTrip.ExtractKeepsNamesWithoutDotDot` | zip_tool.py:116-124 | extracting relative names that all write successfully writes exactly those without `..`, in order |
| `RoundTrip.KeptNamesAreRestorableFiles` | zip_tool.py:54-55 | the archived names without `..` are the names of the files none of whose path names holds `..` |
| `RoundTrip.CompressThenExtract` | zip_tool.py:49-128 | with every file readable and every write succeeding, compressing then extracting restores exactly the files none of whose path names holds `..`, in order |
| `RoundTrip.DoubleDotFileIsNotRestored` | zip_tool.py:51-121 | a folder holding only `a..b.txt` gives an archive with that entry, and extracting it writes nothing |
| `RoundTrip.DefaultPaths` | zip_tool.py:39-94 | the default archive of a named folder has a suffix extraction accepts; its default destination is `parent / stem` of the folder, which is the folder itself exactly when the folder's name has no suffix |
| `RoundTrip.SuffixedFolderExtractsBesideIt` | zip_tool.py:39-94 | a folder named `stem.ext` compresses to `stem.zip` beside it, which extracts into the sibling folder `stem` and not into the folder itself (`a.b` gives `a.zip`, extracted into `a`) |
| `RoundTrip.DotStemExtractsIntoParent` | zip_tool.py:94 | an archive named `..zip` is accepted and extracted into the folder that holds it |

## Left out

- The ZIP format, Deflate compression (`ZIP_DEFLATED`, `compresslevel=6`) and the CRC checks inside `testzip`. These are library calls; the model takes their outcomes as inputs (`Container`, `Integrity`, `Member.writes`, `Listed.readable`).
- The sanitising that `zipfile.extract` does itself. The model does not use it; the safety lemmas hold without it.
- File contents and the actual byte writes. Only entry names are modelled, so the round trip is about which files come back, not their bytes.
- Filesystem effects. `mkdir` and the archive file are returned as values (`madeDir`, `archive`, `entries`, `report`), not kept as mutable state. An archive written inside the folder being compressed, which `rglob` could then list, is not modelled.
- `rglob` order and traversal errors. The listing is a given sequence. `Compress.IsListing` says what a real directory listing guarantees: every path lies strictly below the folder, and no name is `..`.
- Symbolic links. `is_file()` and `is_dir()` are given facts.
- Path parsing from strings. A path is kept as pathlib's parsed parts. The `//` root, Windows drives and backslash separators are not modelled.
- `str.lower()` is modelled on ASCII letters only. No other character lower-cases to `z`, `i` or `p` (`İ` lower-cases to two characters), so the `.zip` test gives the same answer.
- Logging (`print`), `sys.version`, `os.getcwd()` and `traceback.print_exc()`. An exception in the logging around the operation is an input of `Dispatch.RunMain`.
- `argparse`. The parsed flags are two booleans and the path is given. A malformed command line makes `argparse` exit with its own code, because `SystemExit` is not caught by `except Exception`. That is not modelled.
- The explicit output paths (`zip_path`, `extract_path`). `CompressFolder` and `ExtractZip` take them, but `main` never passes them.
