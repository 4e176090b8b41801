# repo-to-text: the ignore-and-render pipeline in Dafny

repo-to-text turns a repository into one text document: a `tree` listing of
the directory, then the contents of every file, each wrapped in
`<content full_path="...">` tags. This project models the pure core of that
pipeline and proves what it promises:

- **Ignore decision** (`Ignore`): `is_ignored_path` and `should_ignore_file`.
  A path is normalised (one leading `./` removed, `/` appended for a
  directory) and hidden when any of five checks holds. The module also models
  how `load_ignore_specs` merges the settings file, `.gitignore` and the
  command-line patterns, and the `repo-to-text_` output-file name that makes
  earlier snapshots hide themselves.
- **Tree-listing filter** (`TreeFilter`): `extract_full_path`,
  `mark_non_empty_dirs`, `process_line`, `filter_tree_output` and the branch
  of `get_tree_structure`. The filter is a left fold over the listing lines
  that threads the set of directories marked non-empty.
- **Empty-directory pruning** (`EmptyDirs`): the two-pass `remove_empty_dirs`
  of utils.py.
- **Document assembly** (`Render`): `generate_output_content`, with the UTF-8
  read and its Latin-1 fallback.
- **Legacy entry module** (`Legacy`): `is_ignored_path` and the line filter of
  `get_tree_structure` in main.py.

Supporting modules:

- `Str`: the Python `str` methods the code calls. These are `find`,
  `replace(_, _, 1)`, `strip` with Python's whitespace set, `splitlines` and
  `'\n'.join`.
- `PosixPath`: the `posixpath` functions `dirname`, `basename` and `join`,
  and the ancestor chain.
- `Seqs`: generic filtering, flattening and unions.
- `Optional`: `None`.

The external inputs are parameters:

- the `tree` listing is a string, or `None` when `tree` is not installed
- `os.path.isdir` and `os.path.relpath` are total functions
- the `os.walk` result is a sequence of files
- the outcome of reading a file is either its text or its raw bytes
- `pathspec` matching is an uninterpreted `Matcher`

A `PathSpec` is falsy in Python when it holds no patterns, because it
defines `__len__`. `PathSpec.from_lines` skips empty lines, so a spec built
from the lines `[""]`, or from no lines, is falsy. `Ignore.Truthy` models
this: a spec is usable exactly when one of its lines is non-empty, and an
unusable spec never matches. The lines of `.gitignore` are taken as iterating
the open file yields them, each keeping its line terminator, so a `.gitignore`
that holds only blank lines still gives a truthy spec.

`generate_output_content` assembles the document as one string.

When the gitignore spec or the tree-and-content spec is truthy,
`get_tree_structure` filters the listing. `process_line` then keeps a
directory line only if its parent was marked by an **earlier** file line; it
does not prune bottom-up. One consequence: on that branch a directory
directly under the root never survives, because `''` is never marked
(`TreeFilter.TopLevelDirectoryDropped`). When neither spec is truthy,
`get_tree_structure` returns the listing verbatim.

## Model

| member | source | states |
|---|---|---|
| Ignore.EmptyLinesMakeNoPattern | repo_to_text/core/core.py:30 | a spec whose lines are all empty is falsy, so it counts as absent in the test `if not gitignore_spec and not tree_and_content_ignore_spec:`; one non-empty line makes it truthy |
| Ignore.IsIgnoredPath | repo_to_text/utils/utils.py:33-49 | a path is hidden exactly when `.git` occurs somewhere in it or it starts with `repo-to-text_` |
| Ignore.NormalizeRel | repo_to_text/core/core.py:176-182 | a directory's normalised path ends in `/`; removing that `/`, and putting back the one leading `./` that was removed, gives the original relative path |
| Ignore.ShouldIgnoreFile | repo_to_text/core/core.py:157-205 | the hard-coded path rule or the output-name basename always hides a file; otherwise a file can be hidden only when one of the three specs is truthy |
| Ignore.IsIgnoredPathExamples | tests/test_core.py:63-68 | `.git/config` and `repo-to-text_output.txt` are hidden; `src/main.py` and `normal_file.txt` are not |
| Ignore.GitSubstringExamples | repo_to_text/utils/utils.py:42-46 | the `.git` test is a substring test, so `.gitignore` and `.github/workflows/ci.yml` are hidden too |
| Ignore.LeadingGitIgnored | repo_to_text/utils/utils.py:42-46 | any path that starts with `.git` is hidden |
| Ignore.LeadingPrefixIgnored | repo_to_text/utils/utils.py:43-45 | any path that starts with `repo-to-text_` is hidden |
| Ignore.HardRuleAlwaysIgnores | repo_to_text/core/core.py:184-199 | the hard-coded path rule or the output-name basename hides a file, whatever the three specs are |
| Ignore.NoSpecsOnlyHardRules | repo_to_text/core/core.py:184-199 | with every spec absent or empty, a file is hidden exactly when one of the two hard-coded checks holds |
| Ignore.AddingSpecOnlyIgnoresMore | repo_to_text/core/core.py:184-199 | replacing `None` by a spec, in any of the three positions, can only turn "kept" into "ignored" |
| Ignore.ContentSpecMattersOnlyByMatching | repo_to_text/core/core.py:190-193 | the decision with the content-only spec is the decision without it, or'ed with that spec's own match |
| Ignore.NormalizeIgnoresDotSlash | repo_to_text/core/core.py:176-182 | normalisation removes exactly one leading `./`, so `./p` and `p` normalise alike |
| Ignore.DotSlashSameDecision | repo_to_text/core/core.py:176-199 | `./src/main.py` and `src/main.py` get the same ignore decision |
| Ignore.DirectoriesMatchedWithSlash | repo_to_text/core/core.py:181-182 | a directory is matched with a trailing `/`, which is exactly `rel + "/"` when `rel` has no leading `./` |
| Ignore.LoadIgnoreSpecs | repo_to_text/core/core.py:124-155 | tree-and-content patterns are the settings list followed by the CLI patterns; the content spec exists iff the settings have `ignore-content`; the gitignore spec exists iff `.gitignore` exists and the flag is not false; the pattern lists are passed through unchanged |
| Ignore.LoadWithoutSettings | repo_to_text/core/core.py:124-155 | without a settings file: no content spec, only the CLI patterns, and `.gitignore` whenever it exists |
| Ignore.OutputFileName | repo_to_text/core/core.py:310-316 | the written file's last component is `repo-to-text_<timestamp>.txt`, whether or not an output directory is given |
| Ignore.OutputNameHasPrefix | repo_to_text/core/core.py:311 | that last component starts with the output prefix and holds no `/` |
| Ignore.EarlierOutputIgnored | repo_to_text/core/core.py:198 | an earlier snapshot, found anywhere in a later walk, is hidden whatever the specs say |
| Str.Find | repo_to_text/core/core.py:98-100 | `find` gives the first index where the substring occurs, or nothing when it occurs nowhere |
| Str.ReplaceFirst | repo_to_text/core/core.py:93 | `replace(pat, repl, 1)` rewrites the first occurrence only, and leaves a string without `pat` unchanged |
| Str.Strip | repo_to_text/core/core.py:101 | `strip` returns the contiguous slice of its argument left after removing the leading and trailing whitespace: everything before and after the slice is whitespace, the slice neither starts nor ends with whitespace, and it is empty exactly for all-whitespace strings |
| Str.SplitLines | repo_to_text/core/core.py:53 | `splitlines` gives pieces that hold no line boundary, and gives none exactly for the empty text |
| Str.JoinLines | repo_to_text/core/core.py:61 | `'\n'.join` of no lines is empty; otherwise it starts with the first line and ends with the last |
| Str.JoinSplitRoundTrip | repo_to_text/utils/utils.py:54-82 | when every line boundary of a text is `\n` and it does not end with one, `'\n'.join(text.splitlines())` gives the text back |
| Str.SplitJoinRoundTrip | repo_to_text/utils/utils.py:54-82 | `'\n'.join` followed by `splitlines` gives back lines that hold no line break, when the last one is non-empty |
| Str.LastWord | repo_to_text/main.py:26-28 | the last whitespace-separated word is a space-free suffix preceded by a space, or is the whole string |
| PosixPath.Dirname | repo_to_text/core/core.py:105-108 | `dirname` is the head of the path up to its last `/` with the trailing slashes removed: a prefix of the head, followed in the head only by slashes, `''` without a `/`, ending in `/` only when it is all slashes, and the whole head when the head is all slashes |
| PosixPath.Basename | repo_to_text/core/core.py:198 | `basename` is the `/`-free suffix after the last `/` |
| PosixPath.PathJoin | repo_to_text/core/core.py:316 | `join(a, b)` is `b` when `b` is absolute; otherwise it starts with `a`, ends with `b`, and is at most one character longer than `a` and `b` together: exactly `a + b` when `a` is empty or ends in `/`, and exactly `a + "/" + b` otherwise; its basename is `b` when `b` has no `/` |
| PosixPath.AncestorsExact | repo_to_text/core/core.py:103-108 | for a relative path, the marked set is exactly the non-empty results of applying `dirname` once or more; `''` is never marked |
| PosixPath.MarkLoopAgreesOnRelative | repo_to_text/core/core.py:105-108 | on a relative path the marking loop as written stops and marks exactly `AncestorsFrom` |
| PosixPath.MarkLoopSound | repo_to_text/utils/utils.py:65-68 | whenever the marking loop as written stops, on any path, it has marked exactly `AncestorsFrom` |
| PosixPath.MarkLoopDivergesOnAbsolute | repo_to_text/utils/utils.py:65-68 | on an absolute path the marking loop as written never stops |
| PosixPath.MarkLoopDivergesOnTmp | repo_to_text/utils/utils.py:61-68 | the listing line `/tmp` makes the loop reach `/` and stay there; the corrected marks are `{"/"}` |
| TreeFilter.ExtractFullPath | repo_to_text/core/core.py:96-101 | the path is the stripped rest of the line from the first `./`, else from the first occurrence of the root; `None` when neither occurs; it starts with `./` when the line has one |
| TreeFilter.Classify | repo_to_text/core/core.py:73-89 | a line is listed exactly when it has a path other than `''` and `.` that the ignore decision keeps, with no content-only spec; a listed line carries the path's relative form and whether it is a directory |
| TreeFilter.StepOn | repo_to_text/core/core.py:89-94 | a listed file adds its ancestors to the marks; a line is kept exactly when it is a listed file, or a listed directory whose parent is already marked; it is shown with its first `./` removed |
| TreeFilter.ProcessLine | repo_to_text/core/core.py:65-94 | a line only ever adds marks; a kept line is shown as its display form; a line is kept or adds marks only when it has a path other than `''` and `.` that the ignore decision keeps; only a file line adds marks |
| TreeFilter.FilterTreeOutput | repo_to_text/core/core.py:46-63 | the returned text splits back into exactly the non-empty entries of the per-line fold (`filter(None, ...)` of the `process_line` results), which are a subsequence of the input lines in their display form |
| TreeFilter.GetTreeStructure | repo_to_text/core/core.py:17-35 | without `tree` the listing is empty; with neither a usable gitignore spec nor a usable tree-and-content spec it is returned verbatim; otherwise it is filtered |
| TreeFilter.ProcessFromIndex | repo_to_text/core/core.py:56-59 | the marks the comprehension threads into line `i` are exactly the marks of the lines before it |
| TreeFilter.FilterDecision | repo_to_text/core/core.py:56-94 | line `i` yields its displayed form exactly when it is kept given the marks of the earlier lines, and nothing otherwise |
| TreeFilter.MarksUpToMembers | repo_to_text/core/core.py:103-108 | a directory is marked exactly when it is an ancestor of some listed file among the lines seen so far |
| TreeFilter.DirectoryLineKept | repo_to_text/core/core.py:92 | a listed directory line survives exactly when its parent is an ancestor of a listed file that comes earlier |
| TreeFilter.FileLineKept | repo_to_text/core/core.py:89-93 | a listed file line always survives, shown with its first `./` removed |
| TreeFilter.UnlistedLineDropped | repo_to_text/core/core.py:73-87 | lines without a path, the `.` line and ignored lines are dropped |
| TreeFilter.TopLevelDirectoryDropped | repo_to_text/core/core.py:92-108 | when the gitignore or tree-and-content spec is truthy (otherwise `get_tree_structure` returns the listing verbatim), a directory whose parent is `''` never survives the filter |
| TreeFilter.CompactIsSubseq | repo_to_text/core/core.py:61 | `filter(None, ...)` keeps a subsequence of the candidate lines, in order |
| TreeFilter.FilteredLinesInOrder | repo_to_text/core/core.py:56-61 | the filtered listing is a subsequence of the displayed input lines, in input order |
| TreeFilter.ContentOnlyMatchStaysListed | repo_to_text/core/core.py:79-85 | a file that only the content-only spec matches is hidden from content emission but still kept in the listing |
| TreeFilter.GitPathsUnlisted | repo_to_text/core/core.py:79-87 | when the gitignore or tree-and-content spec is truthy (otherwise `get_tree_structure` returns the listing verbatim), a line whose path contains `.git` never survives the filter, `.gitignore` included |
| EmptyDirs.RemoveEmptyDirLines | repo_to_text/utils/utils.py:51-82 | the surviving lines are a subsequence of the input lines |
| EmptyDirs.ReversalIrrelevant | repo_to_text/utils/utils.py:61-68 | walking the lines in reverse marks the same directories as walking them forwards |
| EmptyDirs.NonEmptyDirsMembers | repo_to_text/utils/utils.py:58-68 | a directory is marked exactly when some line of the listing marks it |
| EmptyDirs.FileLinesKept | repo_to_text/utils/utils.py:71-79 | every line whose stripped form does not end in `/` survives |
| EmptyDirs.DirLineKept | repo_to_text/utils/utils.py:61-78 | a line ending in `/` survives exactly when its directory is an ancestor of some file line |
| EmptyDirs.OutputIsSubsequence | repo_to_text/utils/utils.py:71-82 | the surviving lines are a subsequence of the input lines, in order |
| EmptyDirs.SameMarksAfterRemoval | repo_to_text/utils/utils.py:58-79 | removing directory lines changes no marks |
| EmptyDirs.RemoveEmptyDirLinesIdempotent | repo_to_text/utils/utils.py:58-79 | on line sequences, pruning twice prunes nothing more |
| EmptyDirs.RemoveEmptyDirsLines | repo_to_text/utils/utils.py:51-82 | on a listing without blank lines, the returned text splits back into exactly the surviving lines |
| EmptyDirs.RemoveEmptyDirsIdempotent | repo_to_text/utils/utils.py:51-82 | on a listing without blank lines, `remove_empty_dirs` is idempotent on text |
| Render.Latin1Decode | repo_to_text/core/core.py:295-298 | Latin-1 decoding gives one character per byte, with code point equal to the byte |
| Render.Latin1RoundTrip | repo_to_text/core/core.py:295-298 | the decoded text encodes back to the same bytes |
| Render.Latin1Onto | repo_to_text/core/core.py:295-298 | every Latin-1 text is the decoding of its encoding |
| Render.BlockContents | repo_to_text/core/core.py:289-291 | a file's block starts with the opening tag, ends with `\n</content>\n`, and holds the contents between them |
| Render.FileBlockShape | repo_to_text/core/core.py:283-299 | a hidden file has an empty block; a kept file's block is the opening tag, its contents, and `\n</content>\n`, with nothing else |
| Render.NothingEmittedNoBlocks | repo_to_text/core/core.py:269-281 | when the walk holds no kept file, there are no blocks |
| Render.IgnoredFileAddsNothing | repo_to_text/core/core.py:274-281 | an ignored file adds nothing: removing it from the walk leaves the blocks unchanged |
| Render.EmittedFileBlock | repo_to_text/core/core.py:269-299 | each kept file adds exactly its block, after the blocks of the files walked before it and before those walked after it |
| Render.ContentSpecHidesBlock | repo_to_text/core/core.py:274-281 | a file the content-only spec matches gets no block |
| Render.EarlierSnapshotHasNoBlock | repo_to_text/core/core.py:274-281 | an earlier snapshot in the walked tree gets no block |
| Render.GenerateOutputContent | repo_to_text/core/core.py:253-306 | the document starts with `<repo-to-text>\nDirectory: <name>\n\nDirectory Structure:\n<directory_structure>\n.\n`, where `<name>` is the root's basename, and ends with `\n</repo-to-text>\n` |
| Render.OutputLayout | repo_to_text/core/core.py:257-306 | the document is the head (preamble, plus the `├── .gitignore` line exactly when `.gitignore` exists), then the listing, the `</directory_structure>` tag follows the listing, and the blocks fill the rest up to the closing tag |
| Render.GitignoreLine | repo_to_text/core/core.py:261-266 | the `├── .gitignore` line follows the root `.` when `.gitignore` exists; otherwise the listing follows it directly |
| Legacy.LegacyIsIgnoredPath | repo_to_text/main.py:45-53 | a path is hidden exactly when `.git` occurs somewhere in it or it starts with `repo_snapshot_` |
| Legacy.HardRulesAgreeOnGit | repo_to_text/main.py:45-53 | both hard-coded rules hide every path containing `.git` |
| Legacy.LegacyRuleOnPlainPaths | repo_to_text/main.py:46-50 | without `.git`, the legacy rule hides exactly the `repo_snapshot_` paths and the current rule exactly the `repo-to-text_` paths |
| Legacy.LegacyTreeStructure | repo_to_text/main.py:19-21 | without a usable spec the listing is returned unchanged |
| Legacy.LegacyLineDecision | repo_to_text/main.py:24-31 | line `i` contributes its displayed form exactly when it has a last word whose relative path neither the spec nor the hard-coded rule matches, and nothing otherwise; the output of the other lines stays in order around it |
| Legacy.LegacyLinesSound | repo_to_text/main.py:24-34 | every output line is an input line the test keeps, with its first `./` removed |
| Legacy.LegacyDropsBlankLines | repo_to_text/main.py:26-27 | blank and all-whitespace lines never survive |

## Left out

- The `tree` process (`run_tree_command`, `check_tree_command`, and the subprocess call in main.py). Its listing is an input string, or `None` when `tree` is missing.
- File-system queries: `os.path.isdir`, `os.path.relpath`, `os.path.abspath`, `os.path.exists`, `os.walk` and `open`/`read`. They are inputs. Walked entries are taken to be files, not directories, so `should_ignore_file` sees `isdir` false for them.
- `pathspec` gitwildmatch semantics. This is a foreign library, so matching is an uninterpreted total function. Only a spec's truthiness (at least one non-empty pattern line) is modelled.
- YAML parsing. The settings file is a record of the three keys `load_ignore_specs` reads, typed as the code expects. Not modelled: an empty settings file, where `safe_load` returns `None` and `.get` fails, and keys whose values have another type.
- Writing the output file, the timestamp clock, `copy_to_clipboard` and `save_repo_to_text`. Side effects only; the output-file name is modelled.
- The CLI (`cli.py`), logging, and the legacy `remove_empty_dirs` and `save_repo_to_text` of main.py. These are file-system and clipboard driven.
- Read errors other than `UnicodeDecodeError` (a missing file, a permission error). They propagate out of `generate_output_content` and abort it; the model's read outcome is only the decoded text or the raw bytes.
- Newline translation. Text-mode reading turns `\r\n` and `\r` into `\n`, and the Latin-1 fallback reads bytes and does not. A `Text` outcome is taken to be the already translated text.
- `os.sep` other than `/`. `replace(os.sep, '/')` is the identity on POSIX.
- Render.GitignoreLine: states one direction only. The `├── .gitignore` line is present when `.gitignore` exists. When it does not exist, the lemma states that the listing follows the root `.`. It does not state that the line is absent, because a listing given verbatim may itself begin with any text.
- Legacy.LegacyTreeStructure: its own contract covers only the unfiltered branch. The filtered branch is stated line by line by `Legacy.LegacyLineDecision` and `Legacy.LegacyLinesSound`.
- PosixPath.AncestorsFrom: the marking walk also stops at a directory that is its own `dirname` (`/`). The loop as written does not stop there; see Findings.

## Findings

| source | as written | input that shows it | evidently intended | confidence | as-written member | corrected member |
|---|---|---|---|---|---|---|
| repo_to_text/utils/utils.py:65-68 | `while parent_dir:` replaces `parent_dir` by its `dirname` until it is empty, but `dirname('/')` is `'/'`, so from an absolute path the loop never ends (core.py:106-108 has the same loop, fed only relative paths) | a listing containing the line `/tmp`, which is the first line `tree -f /tmp` prints | mark each ancestor once and stop when `dirname` no longer shortens the path | not executed | PosixPath.MarkLoopDivergesOnTmp | PosixPath.AncestorsFrom |
