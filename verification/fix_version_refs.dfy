/** The script fix_version_refs.py: which files it looks at, how it finds the
    lines that mention "3v1", how it rewrites a file, and the three phases of
    its main routine (discover, replace, verify).

    The filesystem is an input. A directory walk is a sequence of entries,
    one per regular file, in the order the walk yields them; each entry holds
    the file's absolute path and its text, or None when reading it raises
    UnicodeDecodeError (not valid UTF-8) or PermissionError. The text is the one Python's text mode hands
    over, so its line endings are already '\n'. */
module FixVersionRefs {
  import opened Strings
  import opened Paths

  datatype Option<T> = None | Some(value: T)

  /** Directory names whose whole subtrees are skipped. */
  const EXCLUDE_DIRS: set<string> :=
    {".git", "__pycache__", ".pytest_cache", "node_modules", ".venv", "venv", "build", "dist", ".uv"}

  /** Suffixes of the files that are scanned; "" admits names without one. */
  const TEXT_EXTENSIONS: set<string> :=
    {".md", ".txt", ".py", ".vhd", ".vhdl", ".sh", ".bash",
     ".json", ".yaml", ".yml", ".toml", ".cfg", ".ini",
     ".rst", ".tex", ".html", ".xml", ".csv",
     ""}

  /** The text searched for, in lower case. */
  const TARGET: string := "3v1"

  // ---------------------------------------------------------------------
  // Path filter

  /** Some ancestor directory of the file has an excluded name. The path is
      absolute, so this includes directories above the directory scanned. */
  predicate InExcludedDir(p: FilePath)
  {
    exists i | 0 <= i < |p.dirs| :: p.dirs[i] in EXCLUDE_DIRS
  }

  predicate Accepted(p: FilePath)
  {
    !InExcludedDir(p) && Suffix(p.name) in TEXT_EXTENSIONS
  }

  /** should_process_file: walk the parents, nearest first, and give up at
      the first excluded name; otherwise decide by the suffix alone. */
  method ShouldProcessFile(p: FilePath) returns (ok: bool)
    ensures InExcludedDir(p) ==> !ok
    ensures !InExcludedDir(p) ==> (ok <==> Suffix(p.name) in TEXT_EXTENSIONS)
    ensures ok == Accepted(p)
  {
    var parents := ParentNames(p);
    for i := 0 to |parents|
      invariant forall k :: 0 <= k && |p.dirs| - i <= k < |p.dirs| ==> p.dirs[k] !in EXCLUDE_DIRS
    {
      if parents[i] in EXCLUDE_DIRS {
        return false;
      }
    }
    ok := Suffix(p.name) in TEXT_EXTENSIONS;
  }

  /** A name with no '.' after its first character (README, Makefile,
      .gitignore) has the empty suffix and is scanned unless it sits in an
      excluded directory. */
  lemma {:induction false} ExtensionlessAccepted(p: FilePath)
    requires !InExcludedDir(p)
    requires forall k :: 0 < k < |p.name| ==> p.name[k] != '.'
    ensures Accepted(p)
  {
  }

  // ---------------------------------------------------------------------
  // Line matcher

  /** `'3v1' in line.lower()` */
  predicate LineHit(line: string)
  {
    Contains(Lower(line), TARGET)
  }

  /** The numbers of the matching lines among the first `n`. */
  function MatchingUpTo(lines: seq<string>, n: nat): (r: seq<nat>)
    requires n <= |lines|
    ensures forall k :: 0 <= k < |r| ==> 1 <= r[k] <= n
    ensures forall j, k :: 0 <= j < k < |r| ==> r[j] < r[k]
    ensures forall x :: x in r <==> 1 <= x <= n && LineHit(lines[x - 1])
    decreases n
  {
    if n == 0 then []
    else MatchingUpTo(lines, n - 1) + (if LineHit(lines[n - 1]) then [n] else [])
  }

  /** The comprehension in find_3v1_references: the 1-based numbers of the
      lines whose lower-cased text contains "3v1", in increasing order. */
  function MatchingLines(lines: seq<string>): (r: seq<nat>)
    ensures forall k :: 0 <= k < |r| ==> 1 <= r[k] <= |lines|
    ensures forall j, k :: 0 <= j < k < |r| ==> r[j] < r[k]
    ensures forall x :: x in r <==> 1 <= x <= |lines| && LineHit(lines[x - 1])
  {
    MatchingUpTo(lines, |lines|)
  }

  /** A line that reports a match holds at least one occurrence, so among
      the first `n` lines there are never more matching lines than
      occurrences; and there are none exactly when there are no
      occurrences. */
  lemma {:induction false} MatchingUpToWithinCount(lines: seq<string>, n: nat)
    requires n <= |lines|
    ensures |MatchingUpTo(lines, n)| <= CountLines(lines[..n], TARGET)
    ensures MatchingUpTo(lines, n) == [] <==> CountLines(lines[..n], TARGET) == 0
    decreases n
  {
    if n > 0 {
      assert lines[..n] == lines[..n - 1] + [lines[n - 1]];
      MatchingUpToWithinCount(lines, n - 1);
      CountLinesSnoc(lines[..n - 1], lines[n - 1], TARGET);
      CountPositiveIff(Lower(lines[n - 1]), TARGET);
    }
  }

  /** Over all lines: no more matching lines than occurrences, and none
      exactly when there are no occurrences. */
  lemma {:induction false} MatchingLinesWithinCount(lines: seq<string>)
    ensures |MatchingLines(lines)| <= CountLines(lines, TARGET)
    ensures MatchingLines(lines) == [] <==> CountLines(lines, TARGET) == 0
  {
    MatchingUpToWithinCount(lines, |lines|);
    assert lines[..|lines|] == lines;
  }

  /** A file's text yields matching lines exactly when the whole lower-cased
      text contains "3v1"; and the matching lines never outnumber the
      occurrences that the rewrite counts. */
  lemma {:induction false} MatchesVersusOccurrences(text: string)
    ensures MatchingLines(Lines(text)) != [] <==> Contains(Lower(text), TARGET)
    ensures |MatchingLines(Lines(text))| <= Count(Lower(text), TARGET)
  {
    CountOverLines(text, TARGET);
    MatchingLinesWithinCount(Lines(text));
    CountPositiveIff(Lower(text), TARGET);
  }

  // ---------------------------------------------------------------------
  // Reference finder

  /** One file of the walk: its path and its text, or None when reading it
      raises one of the two errors the finder skips. */
  datatype Entry = Entry(path: FilePath, content: Option<string>)

  /** A file that mentions "3v1", with its matching line numbers. */
  datatype Match = Match(path: FilePath, lines: seq<nat>)

  /** What one file of the walk contributes to the result: nothing when the
      filter rejects it, when it cannot be read, or when no line matches;
      otherwise one record with the file's path. */
  function ScanEntry(e: Entry): (r: seq<Match>)
    ensures |r| <= 1
    ensures r != [] ==> r[0].path == e.path && e.content.Some? && Accepted(e.path)
  {
    if !Accepted(e.path) then []
    else
      match e.content
      case None => []
      case Some(text) =>
        var lines := MatchingLines(Lines(text));
        if lines == [] then [] else [Match(e.path, lines)]
  }

  /** find_3v1_references as a fold over the walk. It returns at most one
      record per file, and every record has at least one line number. */
  function References(entries: seq<Entry>): (ms: seq<Match>)
    ensures |ms| <= |entries|
    ensures forall k :: 0 <= k < |ms| ==> ms[k].lines != []
    decreases |entries|
  {
    if entries == [] then []
    else References(entries[..|entries| - 1]) + ScanEntry(entries[|entries| - 1])
  }

  /** Every record the finder returns has a path the filter accepts. */
  lemma {:induction false} ReferencesAccepted(entries: seq<Entry>)
    ensures forall k :: 0 <= k < |References(entries)| ==> Accepted(References(entries)[k].path)
    decreases |entries|
  {
    if entries != [] {
      var n := |entries| - 1;
      ReferencesAccepted(entries[..n]);
      var head: seq<Match>, tail: seq<Match> := References(entries[..n]), ScanEntry(entries[n]);
      var found := References(entries);
      assert found == head + tail;
      forall k | 0 <= k < |found|
        ensures Accepted(found[k].path)
      {
        if k >= |head| {
          assert found[k] == tail[0];
        } else {
          assert found[k] == head[k];
        }
      }
    }
  }

  /** The result for two consecutive stretches of the walk is the result for
      the first followed by the result for the second: the walk's order is
      kept. */
  lemma {:induction false} ReferencesConcat(a: seq<Entry>, b: seq<Entry>)
    ensures References(a + b) == References(a) + References(b)
    decreases |b|
  {
    if b == [] {
      assert a + b == a;
    } else {
      var b' := b[..|b| - 1];
      assert (a + b)[..|a + b| - 1] == a + b';
      assert (a + b)[|a + b| - 1] == b[|b| - 1];
      ReferencesConcat(a, b');
    }
  }

  /** What the walk yields when each file contributes `scan(e)`, in walk
      order. References is this with `scan` set to ScanEntry. */
  function Gather(scan: Entry -> seq<Match>, entries: seq<Entry>): seq<Match>
    decreases |entries|
  {
    if entries == [] then []
    else Gather(scan, entries[..|entries| - 1]) + scan(entries[|entries| - 1])
  }

  /** The finder is the general fold with ScanEntry as its per-file step. */
  lemma {:induction false} ReferencesAsGather(entries: seq<Entry>)
    ensures References(entries) == Gather(ScanEntry, entries)
    decreases |entries|
  {
    if entries != [] {
      ReferencesAsGather(entries[..|entries| - 1]);
    }
  }

  /** A record is in what the walk yields exactly when some file yields it. */
  lemma {:induction false} GatherExactly(scan: Entry -> seq<Match>, entries: seq<Entry>, m: Match)
    ensures m in Gather(scan, entries) <==> exists k :: 0 <= k < |entries| && m in scan(entries[k])
    decreases |entries|
  {
    if entries != [] {
      var n := |entries| - 1;
      var prefix := entries[..n];
      GatherExactly(scan, prefix, m);
      if m in Gather(scan, entries) {
        if m in Gather(scan, prefix) {
          var k :| 0 <= k < |prefix| && m in scan(prefix[k]);
          assert entries[k] == prefix[k];
        } else {
          assert m in scan(entries[n]);
        }
      }
      if exists k :: 0 <= k < |entries| && m in scan(entries[k]) {
        var k :| 0 <= k < |entries| && m in scan(entries[k]);
        if k < n {
          assert prefix[k] == entries[k];
        }
      }
    }
  }

  /** A record is returned exactly when some file of the walk is accepted,
      readable, and has that record's non-empty list of matching lines. */
  lemma {:induction false} ReferencesExactly(entries: seq<Entry>, m: Match)
    ensures m in References(entries) <==>
      exists k :: 0 <= k < |entries| && ScanEntry(entries[k]) == [m]
  {
    ReferencesAsGather(entries);
    GatherExactly(ScanEntry, entries, m);
    if m in References(entries) {
      var k :| 0 <= k < |entries| && m in ScanEntry(entries[k]);
      assert ScanEntry(entries[k]) == [m];
    }
  }

  /** No record carries a path under which the walk only ever met an
      unreadable file. */
  lemma {:induction false} NoRecordForUnreadable(entries: seq<Entry>, p: FilePath)
    requires forall j :: 0 <= j < |entries| && entries[j].path == p ==> entries[j].content.None?
    ensures forall m :: m in References(entries) ==> m.path != p
    decreases |entries|
  {
    if entries != [] {
      var n := |entries| - 1;
      var prefix, last := entries[..n], entries[n];
      forall j | 0 <= j < |prefix| && prefix[j].path == p
        ensures prefix[j].content.None?
      {
        assert prefix[j] == entries[j];
      }
      NoRecordForUnreadable(prefix, p);
      var tail := ScanEntry(last);
      assert References(entries) == References(prefix) + tail;
      assert tail != [] ==> tail[0].path == last.path && last.content.Some?;
    }
  }

  /** A file that cannot be read is left out of the result, without any
      error: no record carries its path. */
  lemma {:induction false} UnreadableOmitted(entries: seq<Entry>, k: nat)
    requires UniquePaths(entries) && k < |entries| && entries[k].content.None?
    ensures forall m :: m in References(entries) ==> m.path != entries[k].path
  {
    OnlyFileWithPath(entries, k);
    NoRecordForUnreadable(entries, entries[k].path);
  }

  /** Running the script from inside a directory with an excluded name (say
      /home/u/build/repo) finds nothing at all, because every file's path
      passes through that directory. */
  lemma {:induction false} ExcludedScanRootFindsNothing(root: seq<string>, entries: seq<Entry>)
    requires exists i | 0 <= i < |root| :: root[i] in EXCLUDE_DIRS
    requires forall k :: 0 <= k < |entries| ==> root <= entries[k].path.dirs
    ensures References(entries) == []
    decreases |entries|
  {
    if entries != [] {
      var last := entries[|entries| - 1];
      var i :| 0 <= i < |root| && root[i] in EXCLUDE_DIRS;
      assert last.path.dirs[i] == root[i];
      assert !Accepted(last.path);
      ExcludedScanRootFindsNothing(root, entries[..|entries| - 1]);
    }
  }

  /** find_3v1_references: the loop that appends one record per matching
      file. */
  method FindReferences(entries: seq<Entry>) returns (matches: seq<Match>)
    ensures matches == References(entries)
  {
    matches := [];
    for i := 0 to |entries|
      invariant matches == References(entries[..i])
    {
      assert entries[..i + 1][..i] == entries[..i];
      var e := entries[i];
      var ok := ShouldProcessFile(e.path);
      if ok && e.content.Some? {
        var lines := MatchingLines(Lines(e.content.value));
        if lines != [] {
          matches := matches + [Match(e.path, lines)];
        }
      }
    }
    assert entries[..|entries|] == entries;
  }

  // ---------------------------------------------------------------------
  // Rewrite

  /** What replace_3v1_with_3v1 does to one file: the count it returns and
      the text it writes, if it writes at all. */
  datatype Rewritten = Rewritten(count: nat, written: Option<string>)

  /** replace_3v1_with_3v1 on a file's text (None: the read fails, which the
      handler turns into a count of 0). It counts the case-insensitive
      matches; with none it returns 0 and writes nothing; otherwise it applies
      the three replace calls of the source, each of which maps a literal to
      itself, writes the result back, and returns the count. So whatever it
      writes is the text it read. */
  function RewriteFile(content: Option<string>): (r: Rewritten)
    ensures content.None? ==> r == Rewritten(0, None)
    ensures content.Some? ==> r.count == Count(Lower(content.value), TARGET)
    ensures content.Some? ==> (r.count > 0 <==> Contains(Lower(content.value), TARGET))
    ensures r.count == 0 ==> r.written == None
    ensures r.count > 0 ==> r.written == content
  {
    match content
    case None => Rewritten(0, None)
    case Some(text) =>
      CountPositiveIff(Lower(text), TARGET);
      var count := Count(Lower(text), TARGET);
      if count == 0 then Rewritten(0, None)
      else
        var step1 := ReplaceAll(text, "3v1", "3v1");
        var step2 := ReplaceAll(step1, "3V1", "3V1");
        var step3 := ReplaceAll(step2, "3v1", "3v1");
        ReplaceIdentity(text, "3v1");
        ReplaceIdentity(step1, "3V1");
        ReplaceIdentity(step2, "3v1");
        Rewritten(count, Some(step3))
  }

  // ---------------------------------------------------------------------
  // main

  /** Sum of the line-list lengths of the records (total_lines). */
  function LineTotal(ms: seq<Match>): nat
    decreases |ms|
  {
    if ms == [] then 0 else LineTotal(ms[..|ms| - 1]) + |ms[|ms| - 1].lines|
  }

  /** Sum of the strictly positive per-file counts (total_replacements). */
  function ReplacementTotal(counts: seq<nat>): nat
    decreases |counts|
  {
    if counts == [] then 0
    else
      var last := counts[|counts| - 1];
      ReplacementTotal(counts[..|counts| - 1]) + (if last > 0 then last else 0)
  }

  /** When every file has at least as many occurrences as matching lines,
      the total of lines never exceeds the total of replacements. */
  lemma {:induction false} LineTotalWithinReplacements(ms: seq<Match>, counts: seq<nat>)
    requires |counts| == |ms|
    requires forall k :: 0 <= k < |ms| ==> |ms[k].lines| <= counts[k]
    ensures LineTotal(ms) <= ReplacementTotal(counts)
    decreases |ms|
  {
    if ms != [] {
      LineTotalWithinReplacements(ms[..|ms| - 1], counts[..|counts| - 1]);
    }
  }

  /** The first loop of main: add up the lengths of the line lists. */
  method TotalLines(matches: seq<Match>) returns (total: nat)
    ensures total == LineTotal(matches)
  {
    total := 0;
    for i := 0 to |matches|
      invariant total == LineTotal(matches[..i])
    {
      assert matches[..i + 1][..i] == matches[..i];
      total := total + |matches[i].lines|;
    }
    assert matches[..|matches|] == matches;
  }

  /** A walk yields each file once. */
  predicate UniquePaths(entries: seq<Entry>)
  {
    forall i, j :: 0 <= i < j < |entries| ==> entries[i].path != entries[j].path
  }

  /** With unique paths, a file is the only one that carries its path. */
  lemma {:induction false} OnlyFileWithPath(entries: seq<Entry>, k: nat)
    requires UniquePaths(entries) && k < |entries|
    ensures forall j :: 0 <= j < |entries| && entries[j].path == entries[k].path ==> j == k
  {
  }

  /** Opening a path for reading: the text of the file at that path, or None
      when there is no such file or it cannot be read. */
  function Lookup(entries: seq<Entry>, p: FilePath): Option<string>
    decreases |entries|
  {
    if entries == [] then None
    else if entries[0].path == p then entries[0].content
    else Lookup(entries[1..], p)
  }

  /** Writing `text` to the file at path `p`. */
  function Store(entries: seq<Entry>, p: FilePath, text: string): seq<Entry>
  {
    seq(|entries|, i requires 0 <= i < |entries| =>
      if entries[i].path == p then Entry(p, Some(text)) else entries[i])
  }

  /** The count replace_3v1_with_3v1 returns for the file at path `p`. */
  function ReplacementsIn(entries: seq<Entry>, p: FilePath): nat
  {
    match Lookup(entries, p)
    case None => 0
    case Some(text) => Count(Lower(text), TARGET)
  }

  /** In a walk without repeated paths, reading a file's path gives that
      file's text. */
  lemma {:induction false} LookupAt(entries: seq<Entry>, i: nat)
    requires UniquePaths(entries) && i < |entries|
    ensures Lookup(entries, entries[i].path) == entries[i].content
    decreases i
  {
    if i > 0 {
      assert entries[0].path != entries[i].path;
      assert entries[1..][i - 1] == entries[i];
      LookupAt(entries[1..], i - 1);
    }
  }

  /** Writing back the text a file already holds leaves the filesystem as it
      was. */
  lemma {:induction false} StoreSame(entries: seq<Entry>, p: FilePath, text: string)
    requires UniquePaths(entries) && Lookup(entries, p) == Some(text)
    ensures Store(entries, p, text) == entries
  {
    forall i | 0 <= i < |entries| && entries[i].path == p
      ensures entries[i] == Entry(p, Some(text))
    {
      LookupAt(entries, i);
    }
  }

  /** Every file the finder reports holds at least as many occurrences as it
      has matching lines, so re-reading it in the replace phase yields a
      positive count. */
  lemma {:induction false} ReportedFileCount(entries: seq<Entry>, m: Match)
    requires UniquePaths(entries) && m in References(entries)
    ensures 0 < |m.lines| <= ReplacementsIn(entries, m.path)
  {
    ReferencesExactly(entries, m);
    var e :| e in entries && ScanEntry(e) == [m];
    var i :| 0 <= i < |entries| && entries[i] == e;
    LookupAt(entries, i);
    MatchesVersusOccurrences(e.content.value);
  }

  /** replace_3v1_with_3v1 with its reads and writes: open the file, rewrite
      its text, write the result back when there is one, and return the
      count. On a filesystem without repeated paths, the file is left as it
      was. */
  method ReplaceInFile(files: seq<Entry>, path: FilePath) returns (files': seq<Entry>, count: nat)
    ensures count == ReplacementsIn(files, path)
    ensures UniquePaths(files) ==> files' == files
  {
    var r := RewriteFile(Lookup(files, path));
    files' := files;
    if r.written.Some? {
      assert UniquePaths(files) ==> Store(files, path, r.written.value) == files by {
        if UniquePaths(files) {
          StoreSame(files, path, r.written.value);
        }
      }
      files' := Store(files, path, r.written.value);
    }
    count := r.count;
  }

  /** The second loop of main: rewrite each reported file in turn and add up
      the positive counts. Since every rewrite writes back the text it read,
      the files end as they began. */
  method ReplacePhase(entries: seq<Entry>, matches: seq<Match>)
      returns (after: seq<Entry>, counts: seq<nat>, total: nat)
    requires UniquePaths(entries)
    ensures after == entries
    ensures |counts| == |matches|
    ensures forall k :: 0 <= k < |matches| ==>
      counts[k] == ReplacementsIn(entries, matches[k].path)
    ensures total == ReplacementTotal(counts)
  {
    after, counts, total := entries, [], 0;
    for i := 0 to |matches|
      invariant after == entries
      invariant |counts| == i
      invariant forall k :: 0 <= k < i ==>
        counts[k] == ReplacementsIn(entries, matches[k].path)
      invariant total == ReplacementTotal(counts)
    {
      var count;
      after, count := ReplaceInFile(after, matches[i].path);
      ghost var before := counts;
      counts := counts + [count];
      assert counts[..i] == before;
      if count > 0 {
        total := total + count;
      }
    }
  }

  /** What main reports: the records of the first scan, the total of their
      line lists, the per-file counts and their total, and the records of
      the verification scan (None when main stops after an empty first scan). */
  datatype Report = Report(
    found: seq<Match>,
    totalLines: nat,
    counts: seq<nat>,
    totalReplacements: nat,
    remaining: Option<seq<Match>>)

  /** main: scan, stop if nothing was found, total the lines, rewrite every
      reported file, and scan again. Every reported file gets a positive
      count at least its number of matching lines; and because no rewrite
      changes a file, the verification scan reports exactly the files of
      the first scan. */
  method Run(entries: seq<Entry>) returns (report: Report)
    requires UniquePaths(entries)
    ensures report.found == References(entries)
    ensures report.found == [] ==> report == Report([], 0, [], 0, None)
    ensures report.found != [] ==>
      && report.totalLines == LineTotal(report.found)
      && |report.counts| == |report.found|
      && (forall k :: 0 <= k < |report.found| ==>
            report.counts[k] == ReplacementsIn(entries, report.found[k].path)
            && 0 < |report.found[k].lines| <= report.counts[k])
      && report.totalReplacements == ReplacementTotal(report.counts)
      && report.totalLines <= report.totalReplacements
      && report.remaining == Some(report.found)
  {
    var found := FindReferences(entries);
    if found == [] {
      return Report([], 0, [], 0, None);
    }
    var totalLines := TotalLines(found);
    var after, counts, totalReplacements := ReplacePhase(entries, found);
    forall k | 0 <= k < |found|
      ensures 0 < |found[k].lines| <= counts[k]
    {
      ReportedFileCount(entries, found[k]);
    }
    LineTotalWithinReplacements(found, counts);
    var remaining := FindReferences(after);
    report := Report(found, totalLines, counts, totalReplacements, Some(remaining));
  }
}
