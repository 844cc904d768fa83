/**
 * The Claude metrics side of the main process: the per-workspace metrics
 * file name, the tail-follower that reports only appended lines, and the
 * ordering rules of the analytics summary.  File contents are strings (one
 * character per byte); `JSON.parse` of a line is a parameter that either
 * yields an entry or fails.  A timestamp's ISO date is represented by its
 * UTC day number.
 */
module Metrics {
  import opened Wrappers
  import opened Strings

  // ---------------------------------------------------------------------------
  // File names
  // ---------------------------------------------------------------------------

  /** The characters the file-name sanitiser replaces: `: < > " | ? *`. */
  predicate IsUnsafe(c: char)
  {
    c == ':' || c == '<' || c == '>' || c == '"' || c == '|' || c == '?' || c == '*'
  }

  /** Every unsafe character becomes `_`; everything else is kept. */
  function Sanitize(s: string): (r: string)
    ensures |r| == |s|
    ensures forall i :: 0 <= i < |s| ==> r[i] == (if IsUnsafe(s[i]) then '_' else s[i])
  {
    if |s| == 0 then [] else [if IsUnsafe(s[0]) then '_' else s[0]] + Sanitize(s[1..])
  }

  /** The sanitised name contains no unsafe character. */
  lemma SanitizeIsSafe(s: string)
    ensures forall i :: 0 <= i < |Sanitize(s)| ==> !IsUnsafe(Sanitize(s)[i])
  {
  }

  /** Sanitising twice is sanitising once. */
  lemma SanitizeIdempotent(s: string)
    ensures Sanitize(Sanitize(s)) == Sanitize(s)
  {
  }

  /** A name with no unsafe character is its own file name stem; a workspace UUID is one. */
  lemma SanitizeSafeIsIdentity(s: string)
    requires forall i :: 0 <= i < |s| ==> !IsUnsafe(s[i])
    ensures Sanitize(s) == s
  {
  }

  /** The stem of the metrics file for a workspace; the directory is left out. */
  function MetricsFileName(workspaceId: string): (name: string)
    ensures |name| == |workspaceId| + 6 && EndsWith(name, ".jsonl")
    ensures name[..|workspaceId|] == Sanitize(workspaceId)
  {
    Sanitize(workspaceId) + ".jsonl"
  }

  // ---------------------------------------------------------------------------
  // Reading appended lines
  // ---------------------------------------------------------------------------

  /** The positions of `s` whose element `keep` accepts, in increasing order. */
  function Selected<X>(s: seq<X>, keep: X -> bool): seq<nat>
    decreases |s|
  {
    if |s| == 0 then [] else Selected(s[..|s| - 1], keep) + (if keep(s[|s| - 1]) then [|s| - 1] else [])
  }

  /** Every selected position lies in `s` and is accepted. */
  lemma {:induction false} SelectedAccepted<X>(s: seq<X>, keep: X -> bool)
    ensures forall k :: 0 <= k < |Selected(s, keep)| ==>
      Selected(s, keep)[k] < |s| && keep(s[Selected(s, keep)[k]])
    decreases |s|
  {
    if |s| > 0 {
      var p := s[..|s| - 1];
      SelectedAccepted(p, keep);
      var sp, idx := Selected(p, keep), Selected(s, keep);
      forall k | 0 <= k < |idx|
        ensures idx[k] < |s| && keep(s[idx[k]])
      {
        if k < |sp| {
          assert idx[k] == sp[k];
          assert s[sp[k]] == p[sp[k]];
        }
      }
    }
  }

  /** The selected positions increase strictly. */
  lemma {:induction false} SelectedIncreasing<X>(s: seq<X>, keep: X -> bool)
    ensures forall k, l :: 0 <= k < l < |Selected(s, keep)| ==> Selected(s, keep)[k] < Selected(s, keep)[l]
    decreases |s|
  {
    if |s| > 0 {
      var p := s[..|s| - 1];
      SelectedIncreasing(p, keep);
      SelectedAccepted(p, keep);
      var sp, idx := Selected(p, keep), Selected(s, keep);
      forall k, l | 0 <= k < l < |idx|
        ensures idx[k] < idx[l]
      {
        assert idx[k] == sp[k];
        if l < |sp| {
          assert idx[l] == sp[l];
        }
      }
    }
  }

  /** Every accepted position is selected. */
  lemma {:induction false} SelectedComplete<X>(s: seq<X>, keep: X -> bool)
    ensures forall i :: 0 <= i < |s| && keep(s[i]) ==> i in Selected(s, keep)
    decreases |s|
  {
    if |s| > 0 {
      var p := s[..|s| - 1];
      SelectedComplete(p, keep);
      var sp, idx := Selected(p, keep), Selected(s, keep);
      forall i | 0 <= i < |s| && keep(s[i])
        ensures i in idx
      {
        if i < |p| {
          assert p[i] == s[i];
          assert i in sp;
        }
      }
    }
  }

  /** A line whose `trim()` is empty. */
  predicate Blank(line: string)
  {
    forall i :: 0 <= i < |line| ==> IsSpace(line[i])
  }

  /** A line is blank exactly when `trim()` leaves nothing of it. */
  lemma BlankIsEmptyTrim(line: string)
    ensures Blank(line) <==> TrimStart(line) == ""
  {
    var t := TrimStart(line);
    if |t| > 0 {
      assert t[0] == line[|line| - |t|];
    }
  }

  /** The entries of some lines in order: blank lines dropped, lines that do not parse skipped. */
  function Reported<T>(lines: seq<string>, parse: string -> Option<T>): (r: seq<T>)
    ensures |r| <= |lines|
    ensures forall e :: e in r ==> exists i :: 0 <= i < |lines| && !Blank(lines[i]) && parse(lines[i]) == Some(e)
    decreases |lines|
  {
    if |lines| == 0 then []
    else
      var head := if Blank(lines[0]) || parse(lines[0]).None? then [] else [parse(lines[0]).value];
      var tail := Reported(lines[1..], parse);
      assert forall e :: e in tail ==> exists i :: 1 <= i < |lines| && !Blank(lines[i]) && parse(lines[i]) == Some(e) by {
        forall e | e in tail
          ensures exists i :: 1 <= i < |lines| && !Blank(lines[i]) && parse(lines[i]) == Some(e)
        {
          var j :| 0 <= j < |lines[1..]| && !Blank(lines[1..][j]) && parse(lines[1..][j]) == Some(e);
          assert lines[j + 1] == lines[1..][j];
        }
      }
      head + tail
  }

  lemma {:induction false} ReportedConcat<T>(a: seq<string>, b: seq<string>, parse: string -> Option<T>)
    ensures Reported(a + b, parse) == Reported(a, parse) + Reported(b, parse)
    decreases |a|
  {
    if |a| == 0 {
      assert a + b == b;
    } else {
      assert (a + b)[0] == a[0] && (a + b)[1..] == a[1..] + b;
      ReportedConcat(a[1..], b, parse);
    }
  }

  /** A line that yields an entry: not blank, and parsed. */
  predicate WellFormed<T>(line: string, parse: string -> Option<T>)
  {
    !Blank(line) && parse(line).Some?
  }

  /** No line yields an entry. */
  predicate NoneWellFormed<T>(lines: seq<string>, parse: string -> Option<T>)
  {
    forall i :: 0 <= i < |lines| ==> !WellFormed(lines[i], parse)
  }

  /** Line `i` is the last one that yields an entry. */
  predicate LastWellFormedAt<T>(lines: seq<string>, parse: string -> Option<T>, i: int)
  {
    0 <= i < |lines| && WellFormed(lines[i], parse) && forall j :: i < j < |lines| ==> !WellFormed(lines[j], parse)
  }

  /** The entries reported are those of the well-formed lines, one each, in line order. */
  lemma {:induction false} ReportedSelected<T>(lines: seq<string>, parse: string -> Option<T>, keep: string -> bool)
    requires forall line :: keep(line) == WellFormed(line, parse)
    ensures |Reported(lines, parse)| == |Selected(lines, keep)|
    ensures forall k :: 0 <= k < |Selected(lines, keep)| ==>
      Selected(lines, keep)[k] < |lines| && Some(Reported(lines, parse)[k]) == parse(lines[Selected(lines, keep)[k]])
    decreases |lines|
  {
    if |lines| > 0 {
      var n := |lines| - 1;
      var p := lines[..n];
      ReportedSelected(p, parse, keep);
      ReportedConcat(p, [lines[n]], parse);
      assert p + [lines[n]] == lines;
      var sp, idx := Selected(p, keep), Selected(lines, keep);
      var rp, r := Reported(p, parse), Reported(lines, parse);
      assert Reported([lines[n]], parse) == if keep(lines[n]) then [parse(lines[n]).value] else [] by {
        assert [lines[n]][1..] == [];
      }
      forall k | 0 <= k < |idx|
        ensures idx[k] < |lines| && Some(r[k]) == parse(lines[idx[k]])
      {
        if k < |sp| {
          assert idx[k] == sp[k] && r[k] == rp[k];
          assert lines[sp[k]] == p[sp[k]];
        }
      }
    }
  }

  /** Reporting a run of lines ends with the report of its last line. */
  lemma ReportedSnoc<T>(lines: seq<string>, parse: string -> Option<T>)
    requires |lines| > 0
    ensures var last := lines[|lines| - 1];
      Reported(lines, parse) ==
        Reported(lines[..|lines| - 1], parse) + (if WellFormed(last, parse) then [parse(last).value] else [])
  {
    var n := |lines| - 1;
    ReportedConcat(lines[..n], [lines[n]], parse);
    assert lines[..n] + [lines[n]] == lines;
    assert [lines[n]][1..] == [];
  }

  /** A read reports nothing exactly when no line is well-formed. */
  lemma {:induction false} ReportedEmpty<T>(lines: seq<string>, parse: string -> Option<T>)
    ensures Reported(lines, parse) == [] <==> NoneWellFormed(lines, parse)
    decreases |lines|
  {
    if |lines| > 0 {
      var n := |lines| - 1;
      var p := lines[..n];
      ReportedEmpty(p, parse);
      ReportedSnoc(lines, parse);
      assert forall j :: 0 <= j < n ==> p[j] == lines[j];
    }
  }

  /** The last entry a read reports, the one kept as the latest, is that of the last well-formed line. */
  lemma {:induction false} ReportedLast<T>(lines: seq<string>, parse: string -> Option<T>, i: int)
    requires LastWellFormedAt(lines, parse, i)
    ensures |Reported(lines, parse)| > 0
    ensures Some(Reported(lines, parse)[|Reported(lines, parse)| - 1]) == parse(lines[i])
    decreases |lines|
  {
    var n := |lines| - 1;
    var p := lines[..n];
    ReportedSnoc(lines, parse);
    if i < n {
      assert LastWellFormedAt(p, parse, i) by {
        assert forall j :: 0 <= j < n ==> p[j] == lines[j];
      }
      ReportedLast(p, parse, i);
    }
  }

  /** The entries in a stretch of text: `text.split('\n').filter(line => line.trim())`, each parsed. */
  function EntriesIn<T>(text: string, parse: string -> Option<T>): (r: seq<T>)
    ensures '\n' !in text && (Blank(text) || parse(text).None?) ==> r == []
    ensures '\n' !in text && !Blank(text) && parse(text).Some? ==> r == [parse(text).value]
  {
    if '\n' !in text then SplitNoSep(text, '\n'); Reported(Split(text, '\n'), parse)
    else Reported(Split(text, '\n'), parse)
  }

  /**
   * Reading a file in two pieces reports the same entries as reading it at
   * once, as long as the first piece ends at a line break.
   */
  lemma ChunkedEntries<T>(a: string, b: string, parse: string -> Option<T>)
    requires |a| > 0 && a[|a| - 1] == '\n'
    ensures EntriesIn(a + b, parse) == EntriesIn(a, parse) + EntriesIn(b, parse)
  {
    var a' := a[..|a| - 1];
    var pa := Split(a', '\n');
    assert a == a' + ['\n'] + "";
    assert a + b == a' + ['\n'] + b;
    assert Reported([""], parse) == [] by {
      assert Blank("");
    }
    calc {
      EntriesIn(a + b, parse);
      Reported(Split(a' + ['\n'] + b, '\n'), parse);
      { SplitConcat(a', b, '\n'); }
      Reported(pa + Split(b, '\n'), parse);
      { ReportedConcat(pa, Split(b, '\n'), parse); }
      Reported(pa, parse) + EntriesIn(b, parse);
    }
    calc {
      EntriesIn(a, parse);
      Reported(Split(a' + ['\n'] + "", '\n'), parse);
      { SplitConcat(a', "", '\n'); }
      Reported(pa + Split("", '\n'), parse);
      { ReportedConcat(pa, Split("", '\n'), parse); }
      Reported(pa, parse) + Reported([""], parse);
      Reported(pa, parse);
    }
  }

  /** What one `readNewBytes` call reports, and the offset it leaves behind. */
  datatype ReadResult<T> = ReadResult(offset: nat, entries: seq<T>)

  /**
   * `readNewBytes`: when the file (if it can be read at all) has grown past
   * the offset, the bytes after the offset are read and the offset moves to
   * the size seen; otherwise nothing happens.
   */
  function ReadNewBytes<T>(offset: nat, content: Option<string>, parse: string -> Option<T>): (r: ReadResult<T>)
    ensures offset <= r.offset
    ensures content.None? || |content.value| <= offset ==> r == ReadResult(offset, [])
    ensures content.Some? && |content.value| > offset ==>
      r.offset == |content.value| && r.entries == EntriesIn(content.value[offset..], parse)
  {
    if content.None? || |content.value| <= offset then ReadResult(offset, [])
    else ReadResult(|content.value|, EntriesIn(content.value[offset..], parse))
  }

  /** The tail-follower's state for one workspace: the live offset and the latest entry seen. */
  datatype Watcher<T> = Watcher(offset: nat, latest: Option<T>)

  /** `startMetricsWatcher`: an already-watched workspace is left alone; otherwise following starts at the current size. */
  function StartWatcher<T>(watchers: map<string, Watcher<T>>, id: string, content: string, latest: Option<T>): (r: map<string, Watcher<T>>)
    ensures id in watchers ==> r == watchers
    ensures id !in watchers ==> r == watchers[id := Watcher(|content|, latest)]
  {
    if id in watchers then watchers else watchers[id := Watcher(|content|, latest)]
  }

  /** A change event: read what is new and remember the last entry among it. */
  function OnChange<T>(w: Watcher<T>, content: Option<string>, parse: string -> Option<T>): (r: Watcher<T>)
    ensures w.offset <= r.offset
    ensures var added := ReadNewBytes(w.offset, content, parse).entries;
      r.latest == if |added| == 0 then w.latest else Some(added[|added| - 1])
  {
    var read := ReadNewBytes(w.offset, content, parse);
    Watcher(read.offset, if |read.entries| == 0 then w.latest else Some(read.entries[|read.entries| - 1]))
  }

  /**
   * After a change event over grown content, the latest entry is that of the
   * last well-formed appended line, or the previous one when no appended line
   * is well-formed.
   */
  lemma OnChangeLatest<T>(w: Watcher<T>, content: string, parse: string -> Option<T>)
    requires |content| > w.offset
    ensures var lines := Split(content[w.offset..], '\n');
      var r := OnChange(w, Some(content), parse);
      && r.offset == |content|
      && (NoneWellFormed(lines, parse) ==> r.latest == w.latest)
      && (forall i :: LastWellFormedAt(lines, parse, i) ==> r.latest == parse(lines[i]))
  {
    var lines := Split(content[w.offset..], '\n');
    ReportedEmpty(lines, parse);
    var read := ReadNewBytes(w.offset, Some(content), parse);
    assert read.entries == Reported(lines, parse);
    assert OnChange(w, Some(content), parse).latest ==
      if |read.entries| == 0 then w.latest else Some(read.entries[|read.entries| - 1]);
    forall i | LastWellFormedAt(lines, parse, i)
      ensures OnChange(w, Some(content), parse).latest == parse(lines[i])
    {
      ReportedLast(lines, parse, i);
    }
  }

  /** Content present when following starts is never reported: a grown file reports exactly the appended lines. */
  lemma OnlyAppendedReported<T>(watchers: map<string, Watcher<T>>, id: string, initial: string, appended: string,
                                 latest: Option<T>, parse: string -> Option<T>)
    requires id !in watchers && |appended| > 0
    ensures var w := StartWatcher(watchers, id, initial, latest)[id];
      ReadNewBytes(w.offset, Some(initial + appended), parse).entries == EntriesIn(appended, parse)
  {
    assert (initial + appended)[|initial|..] == appended;
  }

  /**
   * Two change events over whole appended lines report, in order, exactly
   * the entries of everything appended.
   */
  lemma TwoReadsReportAppended<T>(initial: string, first: string, second: string, parse: string -> Option<T>)
    requires |first| > 0 && first[|first| - 1] == '\n' && |second| > 0
    ensures var r1 := ReadNewBytes(|initial|, Some(initial + first), parse);
      var r2 := ReadNewBytes(r1.offset, Some(initial + first + second), parse);
      r1.entries + r2.entries == EntriesIn(first + second, parse)
  {
    assert (initial + first)[|initial|..] == first;
    assert (initial + first + second)[|initial + first|..] == second;
    ChunkedEntries(first, second, parse);
  }

  /** A file that shrank is not re-read: until it grows past the old offset nothing is reported. */
  lemma ShrunkNotReread<T>(w: Watcher<T>, content: string, parse: string -> Option<T>)
    requires |content| <= w.offset
    ensures OnChange(w, Some(content), parse) == w
  {
  }

  // ---------------------------------------------------------------------------
  // Analytics
  // ---------------------------------------------------------------------------

  /** The metrics an entry carries; each field may be missing. */
  datatype Usage = Usage(cost: Option<real>, model: Option<string>, linesAdded: Option<int>, linesRemoved: Option<int>)

  /**
   * A parsed line: its timestamp, and its `metrics` value, `None` when that
   * is missing or null (reading a field of it then throws, so the line is
   * skipped by every loop that reads the figures).
   */
  datatype Entry = Entry(timestamp: int, usage: Option<Usage>)

  /** The entries that carry metrics, in order: those the figures and the daily history read. */
  function Measured(entries: seq<Entry>): (ms: seq<Entry>)
    ensures |ms| <= |entries|
    ensures |ms| > 0 ==> ms[|ms| - 1].usage.Some?
    decreases |entries|
  {
    if |entries| == 0 then []
    else Measured(entries[..|entries| - 1]) + (if entries[|entries| - 1].usage.Some? then [entries[|entries| - 1]] else [])
  }

  /** The entries kept are exactly those with metrics. */
  lemma {:induction false} MeasuredMembers(entries: seq<Entry>)
    ensures forall e :: e in Measured(entries) <==> e in entries && e.usage.Some?
    decreases |entries|
  {
    if |entries| > 0 {
      var prefix := entries[..|entries| - 1];
      MeasuredMembers(prefix);
      assert entries == prefix + [entries[|entries| - 1]];
    }
  }

  const MillisPerDay: int := 86400000

  /** The UTC day of a timestamp, standing for its ISO `YYYY-MM-DD` date. */
  function DayOf(timestamp: int): (d: int)
    ensures d * MillisPerDay <= timestamp < d * MillisPerDay + MillisPerDay
  {
    timestamp / MillisPerDay
  }

  /** What one metrics file contributes: the figures of its last entry and the latest timestamp. */
  datatype FileStats = FileStats(cost: real, model: string, lastActive: int, linesAdded: int, linesRemoved: int)

  /**
   * The scan of a file's entries: each entry with metrics overwrites the
   * figures and may raise the latest timestamp above 0; an entry without
   * metrics is skipped.
   */
  function Scan(entries: seq<Entry>): (st: FileStats)
    ensures |Measured(entries)| == 0 ==> st == FileStats(0.0, "", 0, 0, 0)
    ensures |Measured(entries)| > 0 ==>
      var last := Measured(entries)[|Measured(entries)| - 1].usage.value;
      && st.cost == last.cost.GetOr(0.0) && st.model == last.model.GetOr("")
      && st.linesAdded == last.linesAdded.GetOr(0) && st.linesRemoved == last.linesRemoved.GetOr(0)
    ensures 0 <= st.lastActive
    ensures forall i :: 0 <= i < |entries| && entries[i].usage.Some? ==> entries[i].timestamp <= st.lastActive
    ensures st.lastActive == 0 || exists i :: 0 <= i < |entries| && entries[i].usage.Some? && entries[i].timestamp == st.lastActive
    decreases |entries|
  {
    if |entries| == 0 then FileStats(0.0, "", 0, 0, 0)
    else
      var prefix := entries[..|entries| - 1];
      var prev := Scan(prefix);
      var e := entries[|entries| - 1];
      assert forall i :: 0 <= i < |prefix| ==> entries[i] == prefix[i];
      if e.usage.None? then
        assert Measured(entries) == Measured(prefix);
        prev
      else
        assert Measured(entries) == Measured(prefix) + [e];
        Overwrite(prev, e.timestamp, e.usage.value)
  }

  /** One entry with metrics read over the figures so far: its figures replace them, its time may raise the latest. */
  function Overwrite(prev: FileStats, timestamp: int, u: Usage): FileStats
  {
    FileStats(
      u.cost.GetOr(0.0),
      u.model.GetOr(""),
      if timestamp > prev.lastActive then timestamp else prev.lastActive,
      u.linesAdded.GetOr(0),
      u.linesRemoved.GetOr(0))
  }

  /**
   * The per-file figures are the last entry's: earlier entries' costs are
   * not added up, and an entry without metrics changes nothing.
   */
  lemma ScanUsesLastEntry(entries: seq<Entry>, e: Entry)
    ensures e.usage.Some? ==>
      && Scan(entries + [e]).cost == e.usage.value.cost.GetOr(0.0)
      && Scan(entries + [e]).model == e.usage.value.model.GetOr("")
    ensures e.usage.None? ==> Scan(entries + [e]) == Scan(entries)
  {
    assert (entries + [e])[..|entries|] == entries;
  }

  /** The scan reads only the entries with metrics. */
  lemma {:induction false} ScanOnlyMeasured(entries: seq<Entry>)
    ensures Scan(entries) == Scan(Measured(entries))
    decreases |entries|
  {
    if |entries| > 0 {
      var prefix := entries[..|entries| - 1];
      var e := entries[|entries| - 1];
      ScanOnlyMeasured(prefix);
      var mp := Measured(prefix);
      if e.usage.Some? {
        assert Measured(entries) == mp + [e];
        assert (mp + [e])[..|mp|] == mp;
        assert Scan(entries) == Overwrite(Scan(prefix), e.timestamp, e.usage.value);
        assert Scan(mp + [e]) == Overwrite(Scan(mp), e.timestamp, e.usage.value);
      } else {
        assert Measured(entries) == mp;
      }
    }
  }

  /** The distinct days of some entries, in order of first appearance. */
  function Days(entries: seq<Entry>): (days: seq<int>)
    ensures forall i, j :: 0 <= i < j < |days| ==> days[i] != days[j]
    ensures forall d :: d in days <==> exists i :: 0 <= i < |entries| && DayOf(entries[i].timestamp) == d
    decreases |entries|
  {
    if |entries| == 0 then []
    else
      var prev := Days(entries[..|entries| - 1]);
      var d := DayOf(entries[|entries| - 1].timestamp);
      assert forall i :: 0 <= i < |entries| - 1 ==> entries[i] == entries[..|entries| - 1][i];
      if d in prev then prev else prev + [d]
  }

  datatype WorkspaceStats = WorkspaceStats(
    workspaceId: string,
    name: string,
    cost: real,
    sessions: nat,
    model: string,
    lastActive: int,
    linesAdded: int,
    linesRemoved: int)

  /** `path.basename(file, '.jsonl')`: the name without the extension. */
  function Stem(fileName: string): (stem: string)
    requires EndsWith(fileName, ".jsonl")
    ensures stem + ".jsonl" == fileName
  {
    fileName[..|fileName| - 6]
  }

  /** The workspace's stored name, or the id when there is none or it is empty. */
  function DisplayName(names: map<string, string>, id: string): (n: string)
    ensures id in names && names[id] != "" ==> n == names[id]
    ensures id !in names || names[id] == "" ==> n == id
  {
    if id in names && names[id] != "" then names[id] else id
  }

  /**
   * One file's row: the last measured entry's figures, the latest timestamp,
   * and one session per distinct day of any parsed entry, with metrics or
   * without (at least one when there is any entry).
   */
  function StatsFor(id: string, name: string, entries: seq<Entry>): (w: WorkspaceStats)
    ensures w.workspaceId == id && w.name == name
    ensures w.sessions == |Days(entries)|
    ensures |entries| > 0 ==> w.sessions >= 1
    ensures var st := Scan(entries);
      && w.cost == st.cost && w.model == st.model && w.lastActive == st.lastActive
      && w.linesAdded == st.linesAdded && w.linesRemoved == st.linesRemoved
  {
    var st := Scan(entries);
    var days := Days(entries);
    assert |entries| > 0 ==> DayOf(entries[0].timestamp) in days;
    var sessions := if |days| != 0 then |days| else if |Measured(entries)| > 0 then 1 else 0;
    WorkspaceStats(id, name, st.cost, sessions, st.model, st.lastActive, st.linesAdded, st.linesRemoved)
  }

  /**
   * A line without metrics is a session day for the row but leaves every
   * figure as it was.
   */
  lemma UnmeasuredOnlyCountsDay(id: string, name: string, entries: seq<Entry>, e: Entry)
    requires e.usage.None?
    ensures var before, after := StatsFor(id, name, entries), StatsFor(id, name, entries + [e]);
      && after.cost == before.cost && after.model == before.model && after.lastActive == before.lastActive
      && after.linesAdded == before.linesAdded && after.linesRemoved == before.linesRemoved
      && after.sessions == before.sessions + (if DayOf(e.timestamp) in Days(entries) then 0 else 1)
  {
    ScanUsesLastEntry(entries, e);
    assert (entries + [e])[..|entries|] == entries;
  }

  /** A directory entry: its name, and its text when it could be read. */
  datatype MetricsFile = MetricsFile(name: string, content: Option<string>)

  /** The files that take part: `.jsonl` names that could be read. */
  predicate Counted(f: MetricsFile)
  {
    EndsWith(f.name, ".jsonl") && f.content.Some?
  }

  // -- Ordering -------------------------------------------------------------

  ghost predicate SortedBy<T>(s: seq<T>, key: T -> int)
  {
    forall i, j :: 0 <= i < j < |s| ==> key(s[i]) <= key(s[j])
  }

  /** Insert after every element whose key is not greater, so equal keys keep their order. */
  function InsertBy<T>(x: T, s: seq<T>, key: T -> int): (r: seq<T>)
    requires SortedBy(s, key)
    ensures SortedBy(r, key)
    ensures multiset(r) == multiset(s) + multiset{x}
    ensures |r| == |s| + 1
    decreases |s|
  {
    if |s| == 0 then [x]
    else if key(x) < key(s[0]) then
      ConsSorted(x, s, key);
      [x] + s
    else
      var rest := InsertBy(x, s[1..], key);
      assert s == [s[0]] + s[1..];
      HeadBelowInserted(x, s, rest, key);
      ConsSorted(s[0], rest, key);
      [s[0]] + rest
  }

  /** A sorted sequence stays sorted behind an element whose key is not greater than any of it. */
  lemma ConsSorted<T>(h: T, s: seq<T>, key: T -> int)
    requires SortedBy(s, key)
    requires forall i :: 0 <= i < |s| ==> key(h) <= key(s[i])
    ensures SortedBy([h] + s, key)
  {
    var r := [h] + s;
    forall i, j | 0 <= i < j < |r|
      ensures key(r[i]) <= key(r[j])
    {
      assert r[j] == s[j - 1];
      if i > 0 {
        assert r[i] == s[i - 1];
      }
    }
  }

  /** The head of a sorted sequence is below everything its tail turns into once `x`, not below it, is inserted. */
  lemma HeadBelowInserted<T>(x: T, s: seq<T>, rest: seq<T>, key: T -> int)
    requires |s| > 0 && SortedBy(s, key) && key(s[0]) <= key(x)
    requires multiset(rest) == multiset(s[1..]) + multiset{x}
    ensures forall i :: 0 <= i < |rest| ==> key(s[0]) <= key(rest[i])
  {
    forall i | 0 <= i < |rest|
      ensures key(s[0]) <= key(rest[i])
    {
      var y := rest[i];
      assert y in multiset(rest);
      if y != x {
        assert y in multiset(s[1..]);
        var j :| 0 <= j < |s[1..]| && s[1..][j] == y;
        assert s[j + 1] == y;
      }
    }
  }

  /** A stable insertion sort on an integer key, as `Array.prototype.sort` with a numeric comparator. */
  function SortBy<T>(s: seq<T>, key: T -> int): (r: seq<T>)
    ensures SortedBy(r, key)
    ensures multiset(r) == multiset(s)
    ensures |r| == |s|
    decreases |s|
  {
    if |s| == 0 then []
    else
      assert s == s[..|s| - 1] + [s[|s| - 1]];
      InsertBy(s[|s| - 1], SortBy(s[..|s| - 1], key), key)
  }

  /** The entries of a file that takes part, none for any other. */
  function FileEntries(f: MetricsFile, parse: string -> Option<Entry>): seq<Entry>
  {
    if Counted(f) then EntriesIn(f.content.value, parse) else []
  }

  /** The row of a file that takes part. */
  function Row(f: MetricsFile, names: map<string, string>, parse: string -> Option<Entry>): (w: WorkspaceStats)
    requires Counted(f)
    ensures w.workspaceId + ".jsonl" == f.name
    ensures w.workspaceId in names && names[w.workspaceId] != "" ==> w.name == names[w.workspaceId]
    ensures w.workspaceId !in names || names[w.workspaceId] == "" ==> w.name == w.workspaceId
    ensures w.sessions == |Days(FileEntries(f, parse))|
    ensures var st := Scan(FileEntries(f, parse));
      && w.cost == st.cost && w.model == st.model && w.lastActive == st.lastActive
      && w.linesAdded == st.linesAdded && w.linesRemoved == st.linesRemoved
  {
    var id := Stem(f.name);
    StatsFor(id, DisplayName(names, id), FileEntries(f, parse))
  }

  /** The rows in directory order, one per file that takes part. */
  function Rows(files: seq<MetricsFile>, names: map<string, string>, parse: string -> Option<Entry>): (rows: seq<WorkspaceStats>)
    ensures |rows| <= |files|
  {
    Picked(files, Counted, RowOf(names, parse))
  }

  /** `Row` as a value, defined on every file; it is only ever applied to files that take part. */
  function RowOf(names: map<string, string>, parse: string -> Option<Entry>): MetricsFile -> WorkspaceStats
  {
    (f: MetricsFile) => if Counted(f) then Row(f, names, parse) else WorkspaceStats("", "", 0.0, 0, "", 0, 0, 0)
  }

  /** The images under `f` of the elements `keep` accepts, in order. */
  function Picked<X, Y>(xs: seq<X>, keep: X -> bool, f: X -> Y): (ys: seq<Y>)
    ensures |ys| <= |xs|
    decreases |xs|
  {
    if |xs| == 0 then []
    else Picked(xs[..|xs| - 1], keep, f) + (if keep(xs[|xs| - 1]) then [f(xs[|xs| - 1])] else [])
  }

  /** The picked images are those of the selected positions, one each, in order. */
  lemma {:induction false} PickedAtSelected<X, Y>(xs: seq<X>, keep: X -> bool, f: X -> Y)
    ensures |Picked(xs, keep, f)| == |Selected(xs, keep)|
    ensures forall k :: 0 <= k < |Selected(xs, keep)| ==>
      Selected(xs, keep)[k] < |xs| && Picked(xs, keep, f)[k] == f(xs[Selected(xs, keep)[k]])
    decreases |xs|
  {
    if |xs| > 0 {
      var p := xs[..|xs| - 1];
      PickedAtSelected(p, keep, f);
      var sp, idx := Selected(p, keep), Selected(xs, keep);
      var pp, ys := Picked(p, keep, f), Picked(xs, keep, f);
      forall k | 0 <= k < |idx|
        ensures idx[k] < |xs| && ys[k] == f(xs[idx[k]])
      {
        if k < |sp| {
          assert idx[k] == sp[k] && ys[k] == pp[k];
          assert xs[sp[k]] == p[sp[k]];
        }
      }
    }
  }

  /** The rows are those of the files that take part, one each, in directory order. */
  lemma RowsFollowFiles(files: seq<MetricsFile>, names: map<string, string>, parse: string -> Option<Entry>)
    ensures |Rows(files, names, parse)| == |Selected(files, Counted)|
    ensures forall k :: 0 <= k < |Selected(files, Counted)| ==>
      var i := Selected(files, Counted)[k];
      i < |files| && Counted(files[i]) && Rows(files, names, parse)[k] == Row(files[i], names, parse)
  {
    PickedAtSelected(files, Counted, RowOf(names, parse));
    SelectedAccepted(files, Counted);
  }

  /** Every row is some counted file's, and every counted file has its row. */
  lemma RowsMembers(files: seq<MetricsFile>, names: map<string, string>, parse: string -> Option<Entry>)
    ensures forall w :: w in Rows(files, names, parse) ==>
      exists i :: 0 <= i < |files| && Counted(files[i]) && w == Row(files[i], names, parse)
    ensures forall i :: 0 <= i < |files| && Counted(files[i]) ==> Row(files[i], names, parse) in Rows(files, names, parse)
  {
    RowsFollowFiles(files, names, parse);
    SelectedComplete(files, Counted);
    var idx := Selected(files, Counted);
    var rows := Rows(files, names, parse);
    forall w | w in rows
      ensures exists i :: 0 <= i < |files| && Counted(files[i]) && w == Row(files[i], names, parse)
    {
      var k :| 0 <= k < |rows| && rows[k] == w;
      assert Counted(files[idx[k]]) && w == Row(files[idx[k]], names, parse);
    }
    forall i | 0 <= i < |files| && Counted(files[i])
      ensures Row(files[i], names, parse) in rows
    {
      assert Counted(files[i]);
      var k :| 0 <= k < |idx| && idx[k] == i;
      assert rows[k] == Row(files[i], names, parse);
    }
  }

  /** Every entry of every file that takes part, in directory order. */
  function AllEntries(files: seq<MetricsFile>, parse: string -> Option<Entry>): (all: seq<Entry>)
    ensures forall e :: e in all <==> exists i :: 0 <= i < |files| && e in FileEntries(files[i], parse)
    decreases |files|
  {
    if |files| == 0 then []
    else
      assert forall i :: 1 <= i < |files| ==> files[i] == files[1..][i - 1];
      FileEntries(files[0], parse) + AllEntries(files[1..], parse)
  }

  datatype Analytics = Analytics(perWorkspace: seq<WorkspaceStats>, history: seq<int>)

  /**
   * `getAnalytics`: one row per file that takes part, most recently active
   * first, and every day on which an entry with metrics was written,
   * earliest first and each once.
   */
  function GetAnalytics(files: seq<MetricsFile>, names: map<string, string>, parse: string -> Option<Entry>): (a: Analytics)
    ensures forall i, j :: 0 <= i < j < |a.perWorkspace| ==> a.perWorkspace[i].lastActive >= a.perWorkspace[j].lastActive
    ensures multiset(a.perWorkspace) == multiset(Rows(files, names, parse))
    ensures forall i, j :: 0 <= i < j < |a.history| ==> a.history[i] < a.history[j]
    ensures forall d :: d in a.history <==> exists e :: e in AllEntries(files, parse) && e.usage.Some? && DayOf(e.timestamp) == d
  {
    var rows := Rows(files, names, parse);
    var days := Days(Measured(AllEntries(files, parse)));
    MeasuredMembers(AllEntries(files, parse));
    var perWorkspace := SortBy(rows, (w: WorkspaceStats) => -w.lastActive);
    var history := SortBy(days, (d: int) => d);
    assert forall d :: d in history <==> d in days by {
      forall d
        ensures d in history <==> d in days
      {
        assert d in history <==> d in multiset(history);
      }
    }
    DistinctSortedIsStrict(days, history);
    Analytics(perWorkspace, history)
  }

  /** Sorting distinct numbers ascending gives a strictly increasing sequence. */
  lemma DistinctSortedIsStrict(s: seq<int>, r: seq<int>)
    requires forall i, j :: 0 <= i < j < |s| ==> s[i] != s[j]
    requires multiset(r) == multiset(s)
    requires SortedBy(r, (d: int) => d)
    ensures forall i, j :: 0 <= i < j < |r| ==> r[i] < r[j]
  {
    forall i, j | 0 <= i < j < |r|
      ensures r[i] < r[j]
    {
      if r[i] == r[j] {
        assert multiset(r)[r[i]] >= 2 by {
          assert r == r[..i] + [r[i]] + r[i + 1..j] + [r[j]] + r[j + 1..];
        }
        DistinctCountsOne(s, r[i]);
      }
    }
  }

  lemma DistinctCountsOne(s: seq<int>, x: int)
    requires forall i, j :: 0 <= i < j < |s| ==> s[i] != s[j]
    ensures multiset(s)[x] <= 1
    decreases |s|
  {
    if |s| > 0 {
      assert s == [s[0]] + s[1..];
      DistinctCountsOne(s[1..], x);
    }
  }
}
