# fix_version_refs — a Dafny model

`fix_version_refs.py` is a one-shot maintenance script. It walks the current
directory, picks the text files it is willing to read, and reports every line
whose lower-cased text contains `3v1`. It then rewrites each reported file
and scans again to verify. This project models the script's string and path
logic and its three phases (discover, replace, verify). The filesystem is an
explicit input.

- `strings.dfy`, module `Strings`: the parts of Python's text handling the
  script relies on. This covers ASCII `str.lower()`, `t in s`, and the
  non-overlapping left-to-right match count (`len(re.findall(...))` for a
  literal pattern). It also covers `str.replace` and the line list that
  `readlines()` produces.
- `paths.dfy`, module `Paths`: an absolute path as directory names plus a
  final name. It gives `parents` (nearest first, ending with the root, whose
  name is empty) and `PurePath.suffix`.
- `fix_version_refs.dfy`, module `FixVersionRefs`: the script itself.
  - The exclusion set and the extension allow-list.
  - `should_process_file` as a loop over the parents.
  - The line-number comprehension.
  - `find_3v1_references`, twice: as a fold (`References`) and as the loop
    that appends (`FindReferences`).
  - `replace_3v1_with_3v1`, twice: on the text (`RewriteFile`) and with its
    read and write (`ReplaceInFile`).
  - `main`: `TotalLines`, `ReplacePhase` and `Run`.

A directory walk is a sequence of entries, one per regular file, in walk
order. Each entry holds the file's absolute path and its text, or `None`
when reading it raises `UnicodeDecodeError` (not valid UTF-8) or
`PermissionError`, the two errors the finder catches at line 62. The text is what Python's text
mode returns, so `'\r\n'` and `'\r'` have already become `'\n'`. On such
text, `readlines()` is a split after each `'\n'`.

What the proofs establish:
- A file under a directory with an excluded name is never scanned, whatever
  its extension. The paths are absolute, so this includes directories above
  the scanned one: started inside `/…/build/repo`, the script finds nothing.
- Otherwise a file is scanned exactly when its suffix is allowed. Names
  without a suffix are allowed; that includes dotfiles and names ending in
  `.`.
- Line numbers are 1-based, strictly increasing and within range. A number
  is present exactly when that line matches.
- The finder keeps walk order. It returns only accepted, readable files that
  have at least one matching line, and it returns all of them.
- A file yields matching lines exactly when its whole text contains `3v1`.
  The rewrite's count is at least the number of matching lines.
- The three `replace` calls at lines 81-83 each map a literal to itself, and
  `ReplaceAll(s, x, x) == s` for every `s` and `x`. So every file is written
  back unchanged.
- When every write succeeds, every reported file gets a positive count, and
  the total number of lines never exceeds the total number of replacements.
  A reported file that is readable but not writable breaks both (see
  "Left out").
- The verification scan reports exactly the files of the first scan. So when
  the first scan finds anything, the final warning always appears.

The module docstring and the function docstring speak of replacing `3v1`.
The code's literals replace each string with itself, and the model follows
the code. It does not guess at a different intended target.

## Model

| member | source | states |
|---|---|---|
| `Paths.ParentNames` | fix_version_refs.py:37 | the names of `filepath.parents`, nearest first, one per directory, ending with the root's empty name |
| `Paths.Suffix` | fix_version_refs.py:42 | `PurePath.suffix`: either empty, or a proper tail of the name made of a '.' and at least one non-dot character. It is empty exactly when no '.' follows the first character or the name ends in '.' |
| `FixVersionRefs.ShouldProcessFile` | fix_version_refs.py:34-42 | false when any ancestor's name is excluded, whatever the extension; otherwise true exactly when the suffix is in the allow-list |
| `FixVersionRefs.ExtensionlessAccepted` | fix_version_refs.py:26-32 | a name with no '.' after its first character (README, LICENSE, .gitignore) outside excluded directories is scanned, because the allow-list holds the empty suffix |
| `Strings.Lines` | fix_version_refs.py:57 | `readlines()` on newline-translated text: the lines join back to the text, and none is empty |
| `Strings.LinesShape` | fix_version_refs.py:57 | every line but the last ends in '\n', and no line has a '\n' anywhere but at its end |
| `FixVersionRefs.MatchingLines` | fix_version_refs.py:58 | the numbers are 1-based, strictly increasing and at most the number of lines; n is present exactly when line n, lower-cased, contains "3v1" |
| `Strings.CountPositiveIff` | fix_version_refs.py:75-78 | the non-overlapping match count is positive exactly when the pattern occurs, so the `count == 0` early return means "no occurrence" |
| `Strings.CountOverLines` | fix_version_refs.py:75 | for a pattern without '\n', counting over the whole lower-cased text equals the sum of the per-line counts: no match crosses a line end |
| `FixVersionRefs.MatchingLinesWithinCount` | fix_version_refs.py:58 | there are never more matching lines than occurrences over all lines, and there are none exactly when there are no occurrences |
| `FixVersionRefs.MatchesVersusOccurrences` | fix_version_refs.py:75-78 | a file's text yields matching lines exactly when it contains "3v1" case-insensitively, and the rewrite's count is at least the number of matching lines |
| `FixVersionRefs.References` | fix_version_refs.py:44-66 | the finder as a fold: at most one record per file, and every record has a non-empty line list |
| `FixVersionRefs.ReferencesAccepted` | fix_version_refs.py:52-53 | every record the finder returns has a path the filter accepts |
| `FixVersionRefs.ReferencesConcat` | fix_version_refs.py:48-61 | the result for a walk split in two is the result for the first part followed by the result for the second, so walk order is kept |
| `FixVersionRefs.GatherExactly` | fix_version_refs.py:48-61 | for any per-file step, a record is in what the walk yields exactly when some file of the walk yields it |
| `FixVersionRefs.ReferencesExactly` | fix_version_refs.py:49-64 | a record is returned exactly when some file of the walk passes the filter, is readable, and has that record's non-empty line list |
| `FixVersionRefs.NoRecordForUnreadable` | fix_version_refs.py:55-64 | no record carries a path under which the walk met only unreadable files |
| `FixVersionRefs.UnreadableOmitted` | fix_version_refs.py:55-64 | a file whose read raises `UnicodeDecodeError` or `PermissionError` contributes no record, and the scan goes on |
| `FixVersionRefs.ExcludedScanRootFindsNothing` | fix_version_refs.py:37-39 | when the scan root has an excluded directory name among its own ancestors, nothing is found, because `root_dir` is absolute (lines 48 and 94) |
| `FixVersionRefs.FindReferences` | fix_version_refs.py:44-66 | the loop that appends records returns exactly the fold `References` of the walk |
| `Strings.ReplaceLength` | fix_version_refs.py:81 | `str.replace` with a non-empty pattern changes the length by the size difference once for each non-overlapping match |
| `Strings.ReplaceIdentity` | fix_version_refs.py:81-83 | replacing a string by itself leaves every text unchanged |
| `Strings.ReplaceAbsent` | fix_version_refs.py:81-83 | a text without a match of the pattern is returned unchanged |
| `FixVersionRefs.RewriteFile` | fix_version_refs.py:68-91 | an unreadable file gives 0 and no write. A text with no case-insensitive "3v1" gives 0 and no write. Otherwise the count is the number of non-overlapping case-insensitive occurrences, it is positive, and the text written is the text read |
| `FixVersionRefs.StoreSame` | fix_version_refs.py:85-86 | writing back the text a file already holds leaves the filesystem unchanged |
| `FixVersionRefs.ReplaceInFile` | fix_version_refs.py:70-88 | returns the count `RewriteFile` gives the file's current text. When paths are unique, the filesystem afterwards equals the filesystem before |
| `FixVersionRefs.ReportedFileCount` | fix_version_refs.py:122-124 | every file the finder reported holds a positive number of case-insensitive occurrences when re-read, at least its number of matching lines. This is the count `replace_3v1_with_3v1` returns when its write succeeds |
| `FixVersionRefs.TotalLines` | fix_version_refs.py:108-113 | `total_lines` is the sum of the lengths of the line lists |
| `FixVersionRefs.LineTotalWithinReplacements` | fix_version_refs.py:108-127 | when each file's count is at least its number of lines, `total_lines` is at most `total_replacements` |
| `FixVersionRefs.ReplacePhase` | fix_version_refs.py:121-127 | assuming every write succeeds: one count per record, each being `RewriteFile`'s count for that path. The total sums only the positive counts, and every file ends as it began |
| `FixVersionRefs.Run` | fix_version_refs.py:93-146 | assuming every write succeeds: the first scan is the fold over the walk; with no records, `main` stops and reports nothing more. Otherwise every count is positive and at least its file's number of matching lines, `total_lines <= total_replacements`, and the verification scan returns exactly the first scan's records |

## Left out

- Directory enumeration (`rglob('*')`, `is_file()`), `open`, `read`, `write`, UTF-8 decoding, `Path.cwd()` and `relative_to` are filesystem I/O. The walk is an input sequence of (path, text or None). Symbolic links and the walk's own order are not modelled.
- Line endings on write are not modelled. Python's text mode writes '\n' as the platform's line separator, so a file with '\r\n' endings can change on disk even though the text written equals the text read.
- `str.lower()` and `re.IGNORECASE` fold full Unicode case; the model folds ASCII letters only.
- `FixVersionRefs.RewriteFile`: the `except Exception` handler at lines 89-91 is modelled only for a failed read (a count of 0). A failed write is not modelled, and neither is the printed message. A file that cannot be opened for writing also gets a count of 0 from that handler; it is skipped at line 124. So `FixVersionRefs.ReplacePhase`, `FixVersionRefs.Run` and `FixVersionRefs.ReportedFileCount` promise a positive count per reported file, and `total_lines <= total_replacements`, only when every write succeeds. One reported read-only file gives `total_lines >= 1` with a total of 0 for that file. A write that fails part-way may also leave the file truncated.
- `FixVersionRefs.FindReferences` and `FixVersionRefs.References`: any read error other than `UnicodeDecodeError` and `PermissionError` is not modelled. Examples are a file removed after the walk listed it, or another `OSError`. The script does not catch such an error at line 62, so it aborts the scan and `main` with a traceback.
- `FixVersionRefs.ReplacePhase` and `FixVersionRefs.Run` require a walk without repeated paths, which `rglob` provides: they read a file by its path. Reading and writing by path are modelled as `Lookup` and `Store` over the entries.
- All console output of `main` (headings, relative paths, the comma-joined line lists, and the warning for remaining files) is not modelled. What would be printed is returned in a `Report` value instead.
- `Paths.Suffix` rests on an assumption about `pathlib`, whose source is not part of this model. It takes the text from the last '.' and returns '' when that dot is the name's first or last character. A Python version with a different rule for a trailing '.' would change which files are scanned.
