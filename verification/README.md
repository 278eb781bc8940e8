# gpt-code-extractor: the extraction core in Dafny

This project models `extract_code_blocks` from `Main/gpt_code_extractor.py`. That function takes text pasted from an assistant's answer and does three things:

1. It splits the text into lines.
2. It pairs each filename marker with the code fence found at most `LINE_LIMIT` (3) lines after it.
3. It writes each (filename, code) pair into the output directory. Before the write, an existing file is either overwritten in place or moved to the file's `.version` archive directory.

The model is made of seven modules:

- **`Options`** (`options.dfy`): the `Option` type. `None` plays the part of Python's `None`.
- **`Text`** (`text.dfy`):
  - `str.split` on one character and `str.join`, as an inverse pair.
  - Python's `\s`, given as the characters `str.isspace` accepts.
- **`Patterns`** (`patterns.dfy`): the two regular expressions of lines 25 and 28, as explicit matchers with `re.search` semantics.
  - The leftmost start position wins.
  - At one position, the alternatives, and the optional tags, are tried in the order written.
  - `[^`]+` and `[^'\s]+` are greedy.
  - `[\s\S]*?` is lazy. It stops at the first closing ticks.
- **`Scanner`** (`scanner.dfy`): the loop of lines 37-74.
  - It is a left fold of `Step` over the lines.
  - It is generic in the two line matchers.
  - It keeps the loop's variables: the active filename, the line counter, the code buffer, the two output lists, and the log messages.
  - It comes with a declarative reference for its outputs (`RefNames`, `RefBlocks`).
- **`Paths`** (`paths.dfy`): `posixpath.join`, `posixpath.splitext` and the archive path of line 94 and line 98.
- **`Writer`** (`writer.dfy`): the write loop of lines 85-108.
  - The filesystem is a map from path to content.
  - The user's answer to "Overwrite?" is an oracle, `ask(i)`, indexed by the 1-based file number.
  - How the `try` block of lines 103-108 ends is a second oracle, `io(i)`. There are three outcomes: the code is written; `open` fails and nothing is touched; or `open(filepath, 'w')` creates or truncates the file and the write then raises, leaving some partial content.
- **`Extractor`** (`extractor.dfy`): the whole function.
  - `Run` takes the matchers as parameters.
  - `ExtractCodeBlocks` fixes them to the program's two patterns.

Two facts about the program as written are proved rather than assumed.

**The fence pattern never matches a scanned line.** The pattern requires a newline after the opening backticks and the optional language tag, and no line produced by `split('\n')` contains one. So `ExtractCodeBlocks` writes nothing for any text, and its log always ends with "Processing 0 files...". The model keeps the code as written. The general scanner is proved correct for every fence matcher, so the gap rule and the pairing are stated for the matcher a corrected pattern would give.

**The mismatch branch of lines 76-78 is dead.** The two output lists grow together, so their lengths are always equal.

Three further consequences of the code as written:

- **No version suffix.** The archive path is `archive_root/<stem>.version/<filename>`, with nothing added to tell versions apart. The path's shape is stated by `Paths.ArchivePathShape`. A second move onto the same archive path replaces the earlier file, because `Writer.WriteOneArchive` puts the incumbent's content there whatever the archive path held before.
- **Fence lines only.** A marker followed by a fenced block that spans several lines produces no file, because no single line holds the fence (`Extractor.ExtractCodeBlocks`).
- **The line-limit check.** The check tests only the counter, and only a marker line resets the counter. So once a filename has been dropped, every later plain line logs another "exceeded line limit" message naming `None` (`Scanner.StaleRun`).

## Model

| member | source | states |
|---|---|---|
| Text.Split | Main/gpt_code_extractor.py:30 | `text.split('\n')` yields at least one line, and no line contains the separator. |
| Text.JoinSplit | Main/gpt_code_extractor.py:30 | Joining the lines of a split with the separator gives back the original text, so no character is lost or invented. |
| Text.SplitJoin | Main/gpt_code_extractor.py:30 | Splitting a join of separator-free pieces gives back exactly those pieces. This is the other direction of the round trip. |
| Text.SplitCount | Main/gpt_code_extractor.py:30 | The number of lines is the number of newlines plus one. |
| Patterns.MarkerAt | Main/gpt_code_extractor.py:25-46 | Whenever the marker pattern matches at a position, the selected capture `group(1) or group(2) or group(3)` is a non-empty name. |
| Patterns.LabelledAtExact | Main/gpt_code_extractor.py:25 | The first alternative matches at `i` with capture `n` iff the line there reads: `Filename:`, whitespace, a backtick, the non-empty backtick-free `n`, a backtick. The whitespace run is the whole run, because `\s*` is greedy. |
| Patterns.QuotedAtExact | Main/gpt_code_extractor.py:25 | A quoted alternative matches at `i` with capture `n` iff `n` is non-empty, holds no quote and no whitespace, and is enclosed in that quote. |
| Patterns.MarkerFromLeftmost | Main/gpt_code_extractor.py:25-39 | `re.search` from `i` yields `n` iff some position at or after `i` matches with `n` and no earlier position matches at all. |
| Patterns.MarkerSearchLeftmost | Main/gpt_code_extractor.py:39-46 | The whole-line marker search gives the name captured at the leftmost matching position. |
| Patterns.MarkerSearch | Main/gpt_code_extractor.py:39-46 | A marker line always yields a non-empty filename, so the name set on line 46 is truthy. |
| Patterns.NoOpenerNoMarker | Main/gpt_code_extractor.py:25 | A line containing no `F`, no single quote and no double quote matches no alternative of the marker pattern. |
| Patterns.FenceWithTagExact | Main/gpt_code_extractor.py:28 | The fence with one tag matches at `i` and captures `b` iff the line reads: three backticks, the tag, a newline, then `b` up to the first three backticks after the newline. This is the lazy `[\s\S]*?`. |
| Patterns.FenceWithTagsFirst | Main/gpt_code_extractor.py:28 | The optional tag group matches with the first listed tag that makes the fence match, in the order python, html, css, javascript, js, txt, none. |
| Patterns.FenceFromLeftmost | Main/gpt_code_extractor.py:28-55 | `re.search` for the fence yields the capture at the leftmost position where the fence matches. |
| Patterns.FenceSearch | Main/gpt_code_extractor.py:28-55 | A fence match needs a newline in the line, and its capture never contains the closing ticks. |
| Patterns.NoNewlineNoFence | Main/gpt_code_extractor.py:28-55 | On a line without a newline, which is every line `split('\n')` produces, the fence search fails. |
| Patterns.LabelledExample | Main/gpt_code_extractor.py:25-46 | ``Filename: `a.py` `` yields the filename `a.py`. |
| Patterns.FenceExample | Main/gpt_code_extractor.py:28 | The string "```python", newline, "print(1)", newline, "```", taken as one line, matches the fence and captures `print(1)` followed by a newline. |
| Scanner.AfterLine | Main/gpt_code_extractor.py:70-74 | The check restores the loop invariant: after it, an active name is at most `LINE_LIMIT` lines back, whatever the counter was before. It changes the state only past the limit, never touches the output lists or the counter, and adds at most one message, naming the filename as it stood (possibly `None`). |
| Scanner.Step | Main/gpt_code_extractor.py:37-74 | One line keeps the loop invariant. A marker line sets the name, counter 0 and an empty buffer. The log only grows. The output lists grow together, by the name that was active. |
| Scanner.Scan | Main/gpt_code_extractor.py:30-76 | After every prefix of the lines, the buffer is empty, the two output lists have equal length, and an active name is at most `LINE_LIMIT` lines back. |
| Scanner.MarkerLine | Main/gpt_code_extractor.py:39-50 | A marker line is never tested against the fence: the fence matcher does not affect its step. It logs "no code found" for a truthy previous name, then "Detected". It resets the counter and the buffer. |
| Scanner.FenceLine | Main/gpt_code_extractor.py:52-68 | On a fence line with counter `k`, the block is taken iff `k <= LINE_LIMIT`. Then the name and the capture are appended and "Code block added" is logged. Otherwise `k` is exactly `LINE_LIMIT + 1` and "too many lines" is logged. Either way the name is cleared. |
| Scanner.GapRun | Main/gpt_code_extractor.py:52-71 | Plain lines within the limit only advance the counter of an active name. |
| Scanner.StaleRun | Main/gpt_code_extractor.py:48-74 | Once a name has been dropped past the limit, each later non-marker line logs "exceeded line limit" with `None` and changes nothing else. |
| Scanner.GapBoundary | Main/gpt_code_extractor.py:9-74 | For a marker, then `g` plain lines, then a fence line: the block is taken iff `g + 1 <= 3`. At `g + 1 = 4` it is refused as too far. Beyond that, the name is dropped with its own message, followed by `g - 3` messages naming `None`. |
| Scanner.FarDrop | Main/gpt_code_extractor.py:70-74 | `LINE_LIMIT + 1` plain lines after a marker drop its name, with a single message naming it. |
| Scanner.FarFence | Main/gpt_code_extractor.py:48-74 | A fence line more than `LINE_LIMIT + 1` lines after the marker finds the name already dropped. It adds one more `None` message. |
| Scanner.ScanMatchesReference | Main/gpt_code_extractor.py:46-66 | The outputs equal the reference. Each filename is the capture of the nearest preceding marker line, with no fence between them and at most 3 lines apart. Each block is its fence line's capture exactly. Both appear in line order. The active name is exactly the pending one. |
| Scanner.NoFenceNoPairs | Main/gpt_code_extractor.py:57-63 | If no line matches the fence, both output lists are empty. |
| Scanner.AtMostOnePerMarker | Main/gpt_code_extractor.py:46-66 | The number of output pairs plus a still-pending name is at most the number of marker lines. |
| Paths.PathJoinShape | Main/gpt_code_extractor.py:87-98 | `os.path.join(a, b)` ends with `b`. An absolute `b` replaces `a`. Otherwise the result starts with `a`, with exactly one slash at the seam. |
| Paths.SplitExt | Main/gpt_code_extractor.py:94 | `splitext` splits the path into two parts that concatenate back to it. The extension is non-empty iff the last dot lies in the last component after a non-dot character. Such an extension starts with its only dot and has no slash. |
| Paths.SplitExtExamples | Main/gpt_code_extractor.py:94 | `a.py`, `a.tar.gz`, `.bashrc` and `pkg.d/Makefile` split as `posixpath.splitext` splits them. |
| Paths.ArchivePathShape | Main/gpt_code_extractor.py:94-98 | For a relative filename, the archive path is the root, the stem, `.version`, a slash, and the filename unchanged. There is no version suffix. |
| Paths.AbsoluteFilenameArchivesInPlace | Main/gpt_code_extractor.py:87-99 | For an absolute filename, both the output path and the archive path are the filename itself. |
| Paths.ArchivePathExample | Main/gpt_code_extractor.py:94-98 | `a.py` under root `archive` is archived at `archive/a.version/a.py`. |
| Writer.Plan | Main/gpt_code_extractor.py:87-98 | The output path is `output_dir/filename`. The archive path is `<root>/<stem>.version/<filename>`. An absolute filename escapes both directories. |
| Writer.WriteOne | Main/gpt_code_extractor.py:89-108 | The archive message is logged iff the target existed and the answer was no. The last message is "created successfully" when the write completes, and "Error creating" when `open` fails or the write raises after `open`. |
| Writer.WriteOneStores | Main/gpt_code_extractor.py:103-108 | After a successful write, the target holds the code. When the write raises after `open`, the target holds the partial content, not its old content. |
| Writer.WriteOneFrame | Main/gpt_code_extractor.py:87-108 | Only the target changes, unless the incumbent is archived; then the archive path changes too. A failed `open` that followed no archive move changes nothing. |
| Writer.WriteOneArchive | Main/gpt_code_extractor.py:92-108 | An archived incumbent's content ends up at the archive path. This holds whatever the archive path held before. If `open` then fails, the target is missing, because the move is not undone. If the write raises after `open`, the target holds only the partial content. |
| Writer.WriteAll | Main/gpt_code_extractor.py:85-108 | The loop logs at least two messages per pair: its "Processing file" line and the outcome of its write. |
| Writer.WriteAllAnnounces | Main/gpt_code_extractor.py:85-86 | For every i, the i-th pair's "Processing file i/N: name" message is in the log. |
| Writer.WriteAllFrame | Main/gpt_code_extractor.py:85-108 | The loop changes no path other than the pairs' output paths and archive paths. |
| Writer.LastWriteWins | Main/gpt_code_extractor.py:85-108 | Suppose the i-th write completes and no later pair writes to its target or archives onto it. Then the target ends up holding the i-th code. |
| Writer.FreshTargetsNew | Main/gpt_code_extractor.py:89-106 | Suppose the targets are distinct and all absent, and every write completes. Then the only new paths are the targets. |
| Writer.FreshTargetsKeep | Main/gpt_code_extractor.py:89-106 | Under the same conditions, every old file is kept unchanged. |
| Writer.FreshTargetsStore | Main/gpt_code_extractor.py:89-106 | Under the same conditions, every target holds its pair's code. |
| Writer.FreshTargetsArchiveNothing | Main/gpt_code_extractor.py:89-100 | Under the same conditions, nothing is archived. |
| Extractor.Run | Main/gpt_code_extractor.py:76-78 | The mismatch error is never logged. |
| Extractor.RunLog | Main/gpt_code_extractor.py:76-86 | The log is the scan's messages, then "Processing N files..." with N the number of reference pairs, then only write-loop messages. |
| Extractor.RunFrame | Main/gpt_code_extractor.py:85-108 | A run changes the files only at the output and archive paths of the extracted pairs. |
| Extractor.NoFenceInAnyLine | Main/gpt_code_extractor.py:28-55 | No line of a split text matches the fence pattern. |
| Extractor.ScanYieldsNothing | Main/gpt_code_extractor.py:28-63 | With the program's two patterns, the scan yields no filename and no block for any text. |
| Extractor.ExtractCodeBlocks | Main/gpt_code_extractor.py:11-108 | For any text, the function leaves the files as they were. It logs the scan's messages followed by "Processing 0 files...". |

## Left out

- **The Tk interface.** This covers the widgets, `messagebox`, `filedialog`, `ScrolledText`, the auto-scroll of line 111, the clipboard (`pyperclip`), and the other files under `Main/`: settings, macros, tabs, theme, and file-operation stubs. None of it is part of the extraction logic.
- **The log console.** It is modelled as a sequence of message values, not as formatted text. The exception text of "Error creating" is not kept.
- **Dialog and write outcomes.** The answer to the overwrite dialog is `ask(i)`, and the outcome of `open`/`write` is `io(i)`. Both are oracles, because they come from the user and the operating system. The partial content left by a write that raises after `open` is any string: the model does not say which prefix of the encoded code reached the disk.
- **Platform.** Paths follow `posixpath`. Windows `ntpath` semantics are not modelled: `\` separators and drive letters. Nor is text-mode newline translation on write, `'\n'` to `'\r\n'`. So "the target holds the code" (`Writer.WriteOneStores`) means the code as written on a POSIX system.
- **Empty marker captures.** The scanner's marker matcher is assumed never to return an empty capture. Line 46's `or` chain would turn an empty capture into `None`, and the generic `Scanner.Step` keeps it as `Some("")`. The program's own marker search never captures an empty name (`Patterns.MarkerSearch`).
- **Directories.** `os.makedirs` is not modelled: directories do not exist in the file map, and the model's move into the archive directory always succeeds. `os.path.exists` is modelled as "the path is a key of the map", so an existing directory at the target path is not modelled.
- **Move failures.** A failing `shutil.move`, which is outside the `try` and would end the function, is not modelled.
- **Moves onto an existing archive file.** These replace it, as `os.rename` does on POSIX. A move onto an existing archive directory, which would place the file inside it, is not modelled.
- **Regular-expression engines in general.** Only the two fixed patterns are modelled.
- **Characters.** A `char` is a Unicode scalar value, and a string is a sequence of them.
- **The caller's checks.** The output-directory checks and the trailing-newline handling of the caller `process_extraction` are not part of this model.
- Writer.WriteOneArchive: the model's move always succeeds. In the program it can fail: for a relative filename containing `/`, such as `src/a.py`, line 95 creates only `<root>/src/a.version`. Line 98 then moves to `<root>/src/a.version/src/a.py`, whose parent directory `…/a.version/src` was never created. `shutil.move` raises outside the `try`, so the function stops with the incumbent unmoved. The model archives it. Directories and an aborting run are not modelled.
- Writer.FreshTargetsArchiveNothing, Writer.FreshTargetsKeep, Writer.FreshTargetsNew, Writer.FreshTargetsStore, Writer.WriteOne: paths are compared as strings. There is no normalisation of `.`, `..` or repeated `/`, and no symlinks or case-insensitive filesystems. So `out/a.py` and `out/./a.py` count as two distinct absent targets. The program's `os.path.exists` on line 89 would find the second one after the first write, and would then ask "Overwrite?" and possibly archive it.
- Writer.WriteAll: its contract gives a lower bound on the log length, not the exact log. `Writer.WriteAllAnnounces` adds that each pair's "Processing file" message is present. The exact write effects are stated per pair by `Writer.WriteOne` and its lemmas, and for the whole loop by `Writer.WriteAllFrame`, `Writer.LastWriteWins` and the `Writer.FreshTargets…` lemmas.
