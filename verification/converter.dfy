/**
 * The conversion loop of `main` (src/main.rs:211-267): each log line updates the
 * entry being built, a `User@Host` line closes the previous entry, and the end of
 * the input closes the last one. An entry is written out only when it is valid.
 *
 * `Step` and `Run` give the meaning of the loop on values; the class
 * `SlowLogConverter` is the loop's state updated in place, and `Convert` drives it
 * over a whole log.
 */
module Converter {
  import opened Options
  import opened Text
  import opened Entries
  import opened LineClassifier
  import opened Cleanup

  // ---------------------------------------------------------------- time

  /**
   * `format_log_time` (src/main.rs:161-165): the whitespace-separated words of the
   * text joined by single spaces are handed to `parse`, which stands for chrono's
   * `%y%m%d %H:%M:%S` parse followed by the `%Y-%m-%d %H:%M:%S` format.
   */
  function FormatLogTime(logTime: string, parse: string -> Option<string>): Option<string> {
    parse(CollapseSpaces(logTime))
  }

  /** The text `chrono` is given is its words with single spaces, whatever the spacing of the log. */
  lemma FormatLogTimeInput(logTime: string)
    ensures Words(CollapseSpaces(logTime)) == Words(logTime)
    ensures CollapseSpaces(CollapseSpaces(logTime)) == CollapseSpaces(logTime)
  {
    WordsAreWords(logTime);
    WordsOfJoin(Words(logTime));
    CollapseSpacesIdempotent(logTime);
  }

  /** The value a `# Time:` line leaves in `last_seen_time`: the reformatted time, or the trimmed raw text. */
  function TimeValue(rawTime: string, parse: string -> Option<string>): (t: string)
    ensures FormatLogTime(Trim(rawTime), parse).None? ==> t == Trim(rawTime) && Tight(t)
    ensures FormatLogTime(Trim(rawTime), parse).Some? ==> t == FormatLogTime(Trim(rawTime), parse).value
  {
    match FormatLogTime(Trim(rawTime), parse)
    case Some(formatted) => formatted
    case None => Trim(rawTime)
  }

  // ---------------------------------------------------------------- user and host

  /** `s.split(c).next()`: the text before the first `c`, or all of `s` when there is none. */
  function TakeUntil(s: string, c: char): (r: string)
    ensures |r| <= |s| && r == s[..|r|]
    ensures c !in r
    ensures |r| < |s| ==> s[|r|] == c
  {
    if s == [] || s[0] == c then [] else [s[0]] + TakeUntil(s[1..], c)
  }

  /** The characters `trim_matches` strips from a host. */
  predicate IsHostJunk(c: char) {
    c == '[' || c == ']' || c == ' '
  }

  predicate AllHostJunk(s: string) {
    forall i :: 0 <= i < |s| ==> IsHostJunk(s[i])
  }

  function TrimJunkStart(s: string): (r: string)
    ensures |r| <= |s|
    ensures r == [] || !IsHostJunk(r[0])
  {
    if s != [] && IsHostJunk(s[0]) then TrimJunkStart(s[1..]) else s
  }

  /** What `TrimJunkStart` keeps is a suffix, and what it removes is junk. */
  lemma {:induction false} TrimJunkStartSuffix(s: string)
    ensures TrimJunkStart(s) == s[|s| - |TrimJunkStart(s)|..]
    ensures AllHostJunk(s[..|s| - |TrimJunkStart(s)|])
  {
    if s != [] && IsHostJunk(s[0]) {
      var r := TrimJunkStart(s[1..]);
      TrimJunkStartSuffix(s[1..]);
      assert s[..|s| - |r|] == [s[0]] + s[1..][..|s| - 1 - |r|];
    }
  }

  function TrimJunkEnd(s: string): (r: string)
    ensures |r| <= |s|
    ensures r == [] || !IsHostJunk(r[|r| - 1])
  {
    if s != [] && IsHostJunk(s[|s| - 1]) then TrimJunkEnd(s[..|s| - 1]) else s
  }

  /** What `TrimJunkEnd` keeps is a prefix, and what it removes is junk. */
  lemma {:induction false} TrimJunkEndPrefix(s: string)
    ensures TrimJunkEnd(s) == s[..|TrimJunkEnd(s)|]
    ensures AllHostJunk(s[|TrimJunkEnd(s)|..])
  {
    if s != [] && IsHostJunk(s[|s| - 1]) {
      var r := TrimJunkEnd(s[..|s| - 1]);
      TrimJunkEndPrefix(s[..|s| - 1]);
      assert s[|r|..] == s[..|s| - 1][|r|..] + [s[|s| - 1]];
    }
  }

  /** `trim_matches(|c| c == '[' || c == ']' || c == ' ')`: strips those characters at both ends. */
  function TrimJunk(s: string): (r: string)
    ensures r == [] || (!IsHostJunk(r[0]) && !IsHostJunk(r[|r| - 1]))
  {
    var front := TrimJunkStart(s);
    var r := TrimJunkEnd(front);
    assert r != [] ==> r[0] == front[0] by {
      TrimJunkEndPrefix(front);
    }
    r
  }

  /** Only a host made entirely of brackets and spaces is stripped to nothing. */
  lemma TrimJunkEmpty(s: string)
    ensures TrimJunk(s) == [] <==> AllHostJunk(s)
  {
    var front := TrimJunkStart(s);
    TrimJunkStartSuffix(s);
    TrimJunkEndPrefix(front);
    var k := |s| - |front|;
    assert s == s[..k] + front;
    if TrimJunk(s) == [] {
      assert front[0..] == front;
      AllHostJunkConcat(s[..k], front);
    }
    if AllHostJunk(s) {
      assert AllHostJunk(s[k..]);
    }
  }

  lemma AllHostJunkConcat(a: string, b: string)
    requires AllHostJunk(a) && AllHostJunk(b)
    ensures AllHostJunk(a + b)
  {
    forall i | 0 <= i < |a + b| ensures IsHostJunk((a + b)[i]) {
      if i < |a| {
        assert (a + b)[i] == a[i];
      } else {
        assert (a + b)[i] == b[i - |a|];
      }
    }
  }

  /** The user column (src/main.rs:230-231): the trimmed capture up to its first `[`. */
  function CleanUser(user: string): (r: string)
    ensures '[' !in r
    ensures |r| <= |Trim(user)| && r == Trim(user)[..|r|]
    ensures |r| < |Trim(user)| ==> Trim(user)[|r|] == '['
  {
    TakeUntil(Trim(user), '[')
  }

  /** The host column (src/main.rs:232-235): the trimmed capture with brackets and spaces stripped at both ends. */
  function CleanHost(host: string): (r: string)
    ensures r == [] || (!IsHostJunk(r[0]) && !IsHostJunk(r[|r| - 1]))
  {
    TrimJunk(Trim(host))
  }

  /** The user before a bracketed part: `split('[')` stops at the first `[`. */
  lemma CleanUserOfBracketed(user: string, w: string, rest: string)
    requires Tight(user) && '[' !in w && user == w + ("[" + rest)
    ensures CleanUser(user) == w
  {
    TrimTight(user);
    TakeUntilFirst(w, '[', rest);
  }

  /** `split(c).next()` on a text with a `c` stops at the first one. */
  lemma {:induction false} TakeUntilFirst(w: string, c: char, rest: string)
    requires c !in w
    ensures TakeUntil(w + ([c] + rest), c) == w
  {
    var s := w + ([c] + rest);
    if w == [] {
      assert s[0] == c;
    } else {
      assert s[0] == w[0] && s[1..] == w[1..] + ([c] + rest);
      TakeUntilFirst(w[1..], c, rest);
    }
  }

  /** Stripping junk at the end removes exactly a junk tail behind a non-junk character. */
  lemma {:induction false} TrimJunkEndJunk(w: string, junk: string)
    requires w != [] && !IsHostJunk(w[|w| - 1]) && AllHostJunk(junk)
    ensures TrimJunkEnd(w + junk) == w
  {
    if junk == [] {
      assert w + junk == w;
    } else {
      var s := w + junk;
      assert s[|s| - 1] == junk[|junk| - 1];
      assert s[..|s| - 1] == w + junk[..|junk| - 1];
      TrimJunkEndJunk(w, junk[..|junk| - 1]);
    }
  }

  /** A host followed by brackets and spaces is cleaned to the host alone. */
  lemma CleanHostOfPadded(host: string, w: string, junk: string)
    requires w != [] && !IsHostJunk(w[0]) && !IsHostJunk(w[|w| - 1]) && AllHostJunk(junk)
    requires Tight(host) && host == w + junk
    ensures CleanHost(host) == w
  {
    TrimTight(host);
    assert host[0] == w[0];
    assert TrimJunkStart(host) == host;
    TrimJunkEndJunk(w, junk);
  }

  /** The user of `root[root]` is `root`. */
  lemma CleanUserExample(user: string)
    requires user == "root[root]"
    ensures CleanUser(user) == "root"
  {
    assert user == "root" + ("[" + "root]");
    CleanUserOfBracketed(user, "root", "root]");
  }

  /** The host of `localhost []` is `localhost`. */
  lemma CleanHostExample(host: string)
    requires host == "localhost []"
    ensures CleanHost(host) == "localhost"
  {
    assert host == "localhost" + " []";
    CleanHostOfPadded(host, "localhost", " []");
  }

  // ---------------------------------------------------------------- the loop on values

  /**
   * The loop's variables: the entry being built, the sticky `last_seen_time`, and the
   * entries written so far, in order (`entry_count` is their number).
   */
  datatype State = State(current: Entry, lastSeenTime: string, emitted: seq<Entry>)

  /** Before the first line: a default entry, no time seen, nothing written. */
  const Init: State := State(Default, "", [])

  /** The entries written after the current one is closed: it is appended iff it is valid. */
  function Close(st: State): (r: seq<Entry>)
    ensures st.current.IsValid() ==> r == st.emitted + [st.current]
    ensures !st.current.IsValid() ==> r == st.emitted
  {
    if st.current.IsValid() then st.emitted + [st.current] else st.emitted
  }

  /** One iteration of the loop body (src/main.rs:218-261), given what the line is. */
  function Apply(st: State, kind: LineKind, parse: string -> Option<string>): State {
    match kind
    case TimeHeader(rawTime) =>
      st.(lastSeenTime := TimeValue(rawTime, parse))
    case UserHost(user, host) =>
      State(Started(st.lastSeenTime, CleanUser(user), CleanHost(host)), st.lastSeenTime, Close(st))
    case ThreadInfo(threadId, schema, qcHit) =>
      st.(current := st.current.(threadId := threadId, schema := Trim(schema), qcHit := Trim(qcHit)))
    case QueryStats(queryTime, lockTime, rowsSent, rowsExamined) =>
      st.(current := st.current.(queryTime := queryTime, lockTime := lockTime,
                                 rowsSent := ParseU64(rowsSent), rowsExamined := ParseU64(rowsExamined)))
    case RowStats(rowsAffected, bytesSent) =>
      st.(current := st.current.(rowsAffected := ParseU64(rowsAffected), bytesSent := ParseU64(bytesSent)))
    case Body(text) =>
      st.(current := st.current.(query := st.current.query + text + "\n"))
    case Ignored =>
      st
  }

  /** One iteration of the loop: classify the line, then apply it. */
  function Step(st: State, line: string, parse: string -> Option<string>): State {
    Apply(st, Classify(line), parse)
  }

  /** What each line of a log is. */
  function KindsOf(lines: seq<string>): (kinds: seq<LineKind>)
    ensures |kinds| == |lines|
  {
    if lines == [] then [] else KindsOf(lines[..|lines| - 1]) + [Classify(lines[|lines| - 1])]
  }

  lemma {:induction false} KindsOfAt(lines: seq<string>, i: nat)
    requires i < |lines|
    ensures KindsOf(lines)[i] == Classify(lines[i])
  {
    if i < |lines| - 1 {
      KindsOfAt(lines[..|lines| - 1], i);
    }
  }

  lemma KindsOfSnoc(lines: seq<string>, i: nat)
    requires i < |lines|
    ensures KindsOf(lines[..i + 1]) == KindsOf(lines[..i]) + [Classify(lines[i])]
  {
    assert lines[..i + 1][..i] == lines[..i];
  }

  /** The state after lines of the given kinds, starting from `Init`. */
  function Run(kinds: seq<LineKind>, parse: string -> Option<string>): State {
    if kinds == [] then Init else Apply(Run(kinds[..|kinds| - 1], parse), kinds[|kinds| - 1], parse)
  }

  lemma RunSnoc(kinds: seq<LineKind>, kind: LineKind, parse: string -> Option<string>)
    ensures Run(kinds + [kind], parse) == Apply(Run(kinds, parse), kind, parse)
  {
    assert (kinds + [kind])[..|kinds|] == kinds;
  }

  /** The entries written for a whole log: those closed by `User@Host` lines, then the last one if valid. */
  function Parse(lines: seq<string>, parse: string -> Option<string>): seq<Entry> {
    Close(Run(KindsOf(lines), parse))
  }

  // ---------------------------------------------------------------- one line

  /** A `# Time:` line changes only `last_seen_time`, falling back to the trimmed raw text. */
  lemma StepTime(st: State, kind: LineKind, parse: string -> Option<string>)
    requires kind.TimeHeader?
    ensures Apply(st, kind, parse).current == st.current
    ensures Apply(st, kind, parse).emitted == st.emitted
    ensures FormatLogTime(Trim(kind.rawTime), parse).Some? ==>
      Apply(st, kind, parse).lastSeenTime == FormatLogTime(Trim(kind.rawTime), parse).value
    ensures FormatLogTime(Trim(kind.rawTime), parse).None? ==>
      Apply(st, kind, parse).lastSeenTime == Trim(kind.rawTime)
  {
  }

  /**
   * A `User@Host` line writes the current entry iff it is valid, then starts a new
   * one carrying the sticky time, the cleaned user and host, and defaults elsewhere.
   */
  lemma StepUserHost(st: State, kind: LineKind, parse: string -> Option<string>)
    requires kind.UserHost?
    ensures Apply(st, kind, parse).emitted == if st.current.IsValid() then st.emitted + [st.current] else st.emitted
    ensures Apply(st, kind, parse).lastSeenTime == st.lastSeenTime
    ensures Apply(st, kind, parse).current.time == st.lastSeenTime
    ensures Apply(st, kind, parse).current.user == CleanUser(kind.user)
    ensures Apply(st, kind, parse).current.host == CleanHost(kind.host)
    ensures Apply(st, kind, parse).current.(time := "", user := "", host := "") == Default
    ensures !Apply(st, kind, parse).current.IsValid()
    ensures '[' !in Apply(st, kind, parse).current.user
    ensures Apply(st, kind, parse).current.host == [] ||
      (!IsHostJunk(Apply(st, kind, parse).current.host[0]) &&
       !IsHostJunk(Apply(st, kind, parse).current.host[|Apply(st, kind, parse).current.host| - 1]))
  {
  }

  /**
   * A `# Thread_id:` line overwrites only thread id, schema and QC hit, and makes the
   * entry valid, whether or not a `User@Host` line started it.
   */
  lemma StepThreadInfo(st: State, kind: LineKind, parse: string -> Option<string>)
    requires kind.ThreadInfo? && kind.threadId != []
    ensures Apply(st, kind, parse).current.IsValid()
    ensures Apply(st, kind, parse).current.threadId == kind.threadId
    ensures Apply(st, kind, parse).current.schema == Trim(kind.schema)
    ensures Apply(st, kind, parse).current.qcHit == Trim(kind.qcHit)
    ensures Apply(st, kind, parse).current.(threadId := "", schema := "", qcHit := "") ==
      st.current.(threadId := "", schema := "", qcHit := "")
    ensures Apply(st, kind, parse).lastSeenTime == st.lastSeenTime && Apply(st, kind, parse).emitted == st.emitted
  {
  }

  /** A `# Query_time:` line overwrites only the two timings and the two row counters. */
  lemma StepQueryStats(st: State, kind: LineKind, parse: string -> Option<string>)
    requires kind.QueryStats?
    ensures Apply(st, kind, parse).current.(queryTime := "", lockTime := "", rowsSent := 0, rowsExamined := 0) ==
      st.current.(queryTime := "", lockTime := "", rowsSent := 0, rowsExamined := 0)
    ensures Apply(st, kind, parse).current.queryTime == kind.queryTime
    ensures Apply(st, kind, parse).current.lockTime == kind.lockTime
    ensures Apply(st, kind, parse).current.rowsSent == ParseU64(kind.rowsSent)
    ensures Apply(st, kind, parse).current.rowsExamined == ParseU64(kind.rowsExamined)
    ensures Apply(st, kind, parse).lastSeenTime == st.lastSeenTime && Apply(st, kind, parse).emitted == st.emitted
  {
  }

  /** A `# Rows_affected:` line overwrites only the two remaining counters. */
  lemma StepRowStats(st: State, kind: LineKind, parse: string -> Option<string>)
    requires kind.RowStats?
    ensures Apply(st, kind, parse).current.(rowsAffected := 0, bytesSent := 0) ==
      st.current.(rowsAffected := 0, bytesSent := 0)
    ensures Apply(st, kind, parse).current.rowsAffected == ParseU64(kind.rowsAffected)
    ensures Apply(st, kind, parse).current.bytesSent == ParseU64(kind.bytesSent)
    ensures Apply(st, kind, parse).lastSeenTime == st.lastSeenTime && Apply(st, kind, parse).emitted == st.emitted
  {
  }

  /**
   * A line that does not start with `#` and is not blank is query text: it is
   * appended with a line break, and nothing else changes.
   */
  lemma StepBody(st: State, line: string, parse: string -> Option<string>)
    requires !StartsWith(line, "#") && !AllSpace(line)
    ensures Step(st, line, parse).current.query == st.current.query + line + "\n"
    ensures Step(st, line, parse).current.(query := "") == st.current.(query := "")
    ensures Step(st, line, parse).lastSeenTime == st.lastSeenTime && Step(st, line, parse).emitted == st.emitted
  {
    ClassifyBody(line);
    assert Step(st, line, parse) == Apply(st, Body(line), parse);
  }

  /** A blank line, or a `#` line no header pattern accepts, changes nothing. */
  lemma StepIgnored(st: State, line: string, parse: string -> Option<string>)
    requires !IsHeader(line) && (StartsWith(line, "#") || AllSpace(line))
    ensures Step(st, line, parse) == st
  {
    ClassifyIgnored(line);
    assert Step(st, line, parse) == Apply(st, Ignored, parse);
  }

  /** Only a `User@Host` line writes an entry, and then exactly one; written entries are never changed. */
  lemma StepEmits(st: State, kind: LineKind, parse: string -> Option<string>)
    ensures |Apply(st, kind, parse).emitted| ==
      |st.emitted| + (if kind.UserHost? && st.current.IsValid() then 1 else 0)
    ensures Apply(st, kind, parse).emitted[..|st.emitted|] == st.emitted
  {
    assert Close(st)[..|st.emitted|] == st.emitted;
  }

  // ---------------------------------------------------------------- whole logs

  /** Every written entry is valid. */
  predicate AllValid(es: seq<Entry>) {
    forall i :: 0 <= i < |es| ==> es[i].IsValid()
  }

  /** A line never writes an invalid entry. */
  lemma StepKeepsValid(st: State, kind: LineKind, parse: string -> Option<string>)
    requires AllValid(st.emitted)
    ensures AllValid(Apply(st, kind, parse).emitted)
  {
    if kind.UserHost? && st.current.IsValid() {
      var es := st.emitted + [st.current];
      assert Apply(st, kind, parse).emitted == es;
      forall i | 0 <= i < |es| ensures es[i].IsValid() {
        if i < |st.emitted| {
          assert es[i] == st.emitted[i];
        }
      }
    }
  }

  lemma {:induction false} RunEmitsValid(kinds: seq<LineKind>, parse: string -> Option<string>)
    ensures AllValid(Run(kinds, parse).emitted)
  {
    if kinds != [] {
      RunEmitsValid(kinds[..|kinds| - 1], parse);
      StepKeepsValid(Run(kinds[..|kinds| - 1], parse), kinds[|kinds| - 1], parse);
    }
  }

  /** Only valid entries reach the output (src/main.rs:222 and 264). */
  lemma ParseEmitsValid(lines: seq<string>, parse: string -> Option<string>)
    ensures AllValid(Parse(lines, parse))
  {
    RunEmitsValid(KindsOf(lines), parse);
  }

  /** The number of `User@Host` lines. */
  function CountUserHost(kinds: seq<LineKind>): (n: nat)
    ensures n <= |kinds|
  {
    if kinds == [] then 0
    else CountUserHost(kinds[..|kinds| - 1]) + (if kinds[|kinds| - 1].UserHost? then 1 else 0)
  }

  lemma {:induction false} RunEmitsAtMostUserHost(kinds: seq<LineKind>, parse: string -> Option<string>)
    ensures |Run(kinds, parse).emitted| <= CountUserHost(kinds)
  {
    if kinds != [] {
      RunEmitsAtMostUserHost(kinds[..|kinds| - 1], parse);
      StepEmits(Run(kinds[..|kinds| - 1], parse), kinds[|kinds| - 1], parse);
    }
  }

  /** At most one entry per `User@Host` line, plus the one closed at the end of input. */
  lemma ParseCount(lines: seq<string>, parse: string -> Option<string>)
    ensures |Parse(lines, parse)| <= CountUserHost(KindsOf(lines)) + 1
  {
    RunEmitsAtMostUserHost(KindsOf(lines), parse);
  }

  /** Some line is a `# Thread_id:` line. */
  predicate HasThreadLine(kinds: seq<LineKind>) {
    exists i :: 0 <= i < |kinds| && kinds[i].ThreadInfo?
  }

  /** Every `# Thread_id:` line carries a thread id, as the pattern's `\d+` demands. */
  predicate ThreadIdsPresent(kinds: seq<LineKind>) {
    forall i :: 0 <= i < |kinds| && kinds[i].ThreadInfo? ==> kinds[i].threadId != []
  }

  lemma HasThreadLineSnoc(kinds: seq<LineKind>)
    requires kinds != []
    ensures HasThreadLine(kinds) <==> HasThreadLine(kinds[..|kinds| - 1]) || kinds[|kinds| - 1].ThreadInfo?
    ensures ThreadIdsPresent(kinds) ==> ThreadIdsPresent(kinds[..|kinds| - 1])
  {
    var front := kinds[..|kinds| - 1];
    if HasThreadLine(kinds) {
      var i :| 0 <= i < |kinds| && kinds[i].ThreadInfo?;
      if i < |front| {
        assert front[i] == kinds[i];
      }
    }
    if HasThreadLine(front) {
      var i :| 0 <= i < |front| && front[i].ThreadInfo?;
      assert kinds[i] == front[i];
    }
    if ThreadIdsPresent(kinds) {
      forall i | 0 <= i < |front| && front[i].ThreadInfo? ensures front[i].threadId != [] {
        assert front[i] == kinds[i];
      }
    }
  }

  /** Without `User@Host` lines nothing is written, and an entry is valid iff a thread id was seen. */
  lemma StepWithoutUserHost(st: State, kind: LineKind, parse: string -> Option<string>)
    requires !kind.UserHost? && (kind.ThreadInfo? ==> kind.threadId != [])
    ensures Apply(st, kind, parse).emitted == st.emitted
    ensures Apply(st, kind, parse).current.IsValid() <==> st.current.IsValid() || kind.ThreadInfo?
  {
  }

  lemma {:induction false} RunWithoutUserHost(kinds: seq<LineKind>, parse: string -> Option<string>)
    requires CountUserHost(kinds) == 0 && ThreadIdsPresent(kinds)
    ensures Run(kinds, parse).emitted == []
    ensures Run(kinds, parse).current.IsValid() <==> HasThreadLine(kinds)
  {
    if kinds != [] {
      var front := kinds[..|kinds| - 1];
      var last := kinds[|kinds| - 1];
      HasThreadLineSnoc(kinds);
      RunWithoutUserHost(front, parse);
      StepWithoutUserHost(Run(front, parse), last, parse);
    }
  }

  /** A `# Thread_id:` line occurs after the last `User@Host` line (or anywhere, when there is none). */
  predicate ThreadSinceUserHost(kinds: seq<LineKind>) {
    exists i :: 0 <= i < |kinds| && kinds[i].ThreadInfo? && forall j :: i < j < |kinds| ==> !kinds[j].UserHost?
  }

  lemma ThreadSinceUserHostSnoc(kinds: seq<LineKind>)
    requires kinds != []
    ensures ThreadSinceUserHost(kinds) <==>
      !kinds[|kinds| - 1].UserHost? && (ThreadSinceUserHost(kinds[..|kinds| - 1]) || kinds[|kinds| - 1].ThreadInfo?)
  {
    var front := kinds[..|kinds| - 1];
    var n := |kinds| - 1;
    if ThreadSinceUserHost(kinds) {
      var i :| 0 <= i < |kinds| && kinds[i].ThreadInfo? && forall j :: i < j < |kinds| ==> !kinds[j].UserHost?;
      if i < n {
        assert !kinds[n].UserHost?;
        forall j | i < j < |front| ensures !front[j].UserHost? {
          assert front[j] == kinds[j];
        }
        assert front[i] == kinds[i];
      }
    }
    if !kinds[n].UserHost? && ThreadSinceUserHost(front) {
      var i :| 0 <= i < |front| && front[i].ThreadInfo? && forall j :: i < j < |front| ==> !front[j].UserHost?;
      assert kinds[i] == front[i];
      forall j | i < j < |kinds| ensures !kinds[j].UserHost? {
        if j < n {
          assert kinds[j] == front[j];
        }
      }
    }
  }

  /** A line leaves the open entry valid iff it is a `# Thread_id:` line or the entry was valid and the line is not `User@Host`. */
  lemma StepValidity(st: State, kind: LineKind, parse: string -> Option<string>)
    requires kind.ThreadInfo? ==> kind.threadId != []
    ensures Apply(st, kind, parse).current.IsValid() <==> !kind.UserHost? && (st.current.IsValid() || kind.ThreadInfo?)
  {
  }

  /**
   * The open entry is valid exactly when a `# Thread_id:` line came after the last
   * `User@Host` line, or anywhere when there was none.
   */
  lemma {:induction false} RunCurrentValid(kinds: seq<LineKind>, parse: string -> Option<string>)
    requires ThreadIdsPresent(kinds)
    ensures Run(kinds, parse).current.IsValid() <==> ThreadSinceUserHost(kinds)
  {
    if kinds != [] {
      var front := kinds[..|kinds| - 1];
      HasThreadLineSnoc(kinds);
      ThreadSinceUserHostSnoc(kinds);
      RunCurrentValid(front, parse);
      StepValidity(Run(front, parse), kinds[|kinds| - 1], parse);
    }
  }

  /** The `User@Host` lines that close an entry holding a thread id. */
  function ValidCloses(kinds: seq<LineKind>): (n: nat)
    ensures n <= CountUserHost(kinds)
  {
    if kinds == [] then 0
    else
      var front := kinds[..|kinds| - 1];
      ValidCloses(front) + (if kinds[|kinds| - 1].UserHost? && ThreadSinceUserHost(front) then 1 else 0)
  }

  /** The loop writes one entry per `User@Host` line that closes a valid entry. */
  lemma {:induction false} RunEmittedCount(kinds: seq<LineKind>, parse: string -> Option<string>)
    requires ThreadIdsPresent(kinds)
    ensures |Run(kinds, parse).emitted| == ValidCloses(kinds)
  {
    if kinds != [] {
      var front := kinds[..|kinds| - 1];
      HasThreadLineSnoc(kinds);
      RunEmittedCount(front, parse);
      RunCurrentValid(front, parse);
      StepEmits(Run(front, parse), kinds[|kinds| - 1], parse);
    }
  }

  /**
   * The number of rows: the `User@Host` lines that close a valid entry, plus one when the
   * entry open at the end of input is valid.
   */
  lemma ParseExactCount(lines: seq<string>, parse: string -> Option<string>)
    ensures |Parse(lines, parse)| == ValidCloses(KindsOf(lines)) + (if ThreadSinceUserHost(KindsOf(lines)) then 1 else 0)
  {
    var kinds := KindsOf(lines);
    KindsOfThreadIds(lines);
    RunEmittedCount(kinds, parse);
    RunCurrentValid(kinds, parse);
  }

  /** Every line `Classify` calls a `# Thread_id:` line has a thread id. */
  lemma KindsOfThreadIds(lines: seq<string>)
    ensures ThreadIdsPresent(KindsOf(lines))
  {
    var kinds := KindsOf(lines);
    forall i | 0 <= i < |kinds| && kinds[i].ThreadInfo? ensures kinds[i].threadId != [] {
      KindsOfAt(lines, i);
      ClassifyHeaders(lines[i]);
    }
  }

  /**
   * A log without any `User@Host` line still yields one entry, the default entry the
   * metadata lines wrote into, exactly when some `# Thread_id:` line occurs.
   */
  lemma ParseWithoutUserHost(lines: seq<string>, parse: string -> Option<string>)
    requires CountUserHost(KindsOf(lines)) == 0
    ensures |Parse(lines, parse)| <= 1
    ensures |Parse(lines, parse)| == 1 <==> exists i :: 0 <= i < |lines| && Classify(lines[i]).ThreadInfo?
  {
    var kinds := KindsOf(lines);
    KindsOfThreadIds(lines);
    RunWithoutUserHost(kinds, parse);
    if exists i :: 0 <= i < |lines| && Classify(lines[i]).ThreadInfo? {
      var i :| 0 <= i < |lines| && Classify(lines[i]).ThreadInfo?;
      KindsOfAt(lines, i);
    }
    if HasThreadLine(kinds) {
      var i :| 0 <= i < |kinds| && kinds[i].ThreadInfo?;
      KindsOfAt(lines, i);
    }
  }

  /** The value of the last `# Time:` line, or the empty text when there is none. */
  function LastTime(kinds: seq<LineKind>, parse: string -> Option<string>): string {
    if kinds == [] then ""
    else if kinds[|kinds| - 1].TimeHeader? then TimeValue(kinds[|kinds| - 1].rawTime, parse)
    else LastTime(kinds[..|kinds| - 1], parse)
  }

  /** `last_seen_time` is sticky: it is the value of the most recent `# Time:` line. */
  lemma {:induction false} RunLastSeenTime(kinds: seq<LineKind>, parse: string -> Option<string>)
    ensures Run(kinds, parse).lastSeenTime == LastTime(kinds, parse)
  {
    if kinds != [] {
      RunLastSeenTime(kinds[..|kinds| - 1], parse);
    }
  }

  /**
   * The entry a `User@Host` line starts carries the time of the latest `# Time:`
   * line before it, however many entries ago that line was.
   */
  lemma EntryTimeIsLastTime(lines: seq<string>, i: nat, parse: string -> Option<string>)
    requires i < |lines| && Classify(lines[i]).UserHost?
    ensures Run(KindsOf(lines[..i + 1]), parse).current.time == LastTime(KindsOf(lines[..i]), parse)
  {
    KindsOfSnoc(lines, i);
    RunSnoc(KindsOf(lines[..i]), Classify(lines[i]), parse);
    RunLastSeenTime(KindsOf(lines[..i]), parse);
    StepUserHost(Run(KindsOf(lines[..i]), parse), Classify(lines[i]), parse);
  }

  // ---------------------------------------------------------------- an example log

  /**
   * A log of one entry (its `User@Host` line, a `# Thread_id:` line and one line of
   * query text) yields exactly that entry: no time, the cleaned user and host, the
   * thread id, the trimmed schema and QC hit, and the query line with its line break.
   */
  lemma OneEntryLog(lines: seq<string>, l0: string, l1: string, l2: string, parse: string -> Option<string>)
    requires lines == [l0, l1, l2]
    requires Classify(l0).UserHost? && Classify(l1).ThreadInfo? && Classify(l2) == Body(l2)
    ensures Parse(lines, parse) ==
      [Started("", CleanUser(Classify(l0).user), CleanHost(Classify(l0).host))
         .(threadId := Classify(l1).threadId, schema := Trim(Classify(l1).schema),
           qcHit := Trim(Classify(l1).qcHit), query := l2 + "\n")]
  {
    KindsOfThree(lines, l0, l1, l2);
    KindsOfThreadIds(lines);
    assert Classify(l1).threadId != [] by {
      assert KindsOf(lines)[1] == Classify(l1);
    }
    OneEntryRun(Classify(l0), Classify(l1), Classify(l2), l2, parse);
  }

  /** The same on the kinds of the three lines. */
  lemma OneEntryRun(k0: LineKind, k1: LineKind, k2: LineKind, text: string, parse: string -> Option<string>)
    requires k0.UserHost? && k1.ThreadInfo? && k1.threadId != [] && k2 == Body(text)
    ensures Close(Run([k0, k1, k2], parse)) ==
      [Started("", CleanUser(k0.user), CleanHost(k0.host))
         .(threadId := k1.threadId, schema := Trim(k1.schema), qcHit := Trim(k1.qcHit), query := text + "\n")]
  {
    RunThree(k0, k1, k2, parse);
    var s1 := Apply(Init, k0, parse);
    assert s1.current == Started("", CleanUser(k0.user), CleanHost(k0.host)) && s1.emitted == [];
    var s2 := Apply(s1, k1, parse);
    assert s2.current == s1.current.(threadId := k1.threadId, schema := Trim(k1.schema), qcHit := Trim(k1.qcHit));
    var s3 := Apply(s2, k2, parse);
    assert s3.current == s2.current.(query := s2.current.query + text + "\n") && s3.emitted == [];
    assert s2.current.query + text + "\n" == text + "\n";
  }

  /** The kinds of a three-line log, line by line. */
  lemma KindsOfThree(lines: seq<string>, l0: string, l1: string, l2: string)
    requires lines == [l0, l1, l2]
    ensures KindsOf(lines) == [Classify(l0), Classify(l1), Classify(l2)]
  {
    KindsOfAt(lines, 0);
    KindsOfAt(lines, 1);
    KindsOfAt(lines, 2);
  }

  /** Running over three kinds applies them in order, starting from `Init`. */
  lemma RunThree(k0: LineKind, k1: LineKind, k2: LineKind, parse: string -> Option<string>)
    ensures Run([k0, k1, k2], parse) == Apply(Apply(Apply(Init, k0, parse), k1, parse), k2, parse)
  {
    RunSnoc([], k0, parse);
    assert [] + [k0] == [k0];
    RunSnoc([k0], k1, parse);
    assert [k0] + [k1] == [k0, k1];
    RunSnoc([k0, k1], k2, parse);
    assert [k0, k1] + [k2] == [k0, k1, k2];
  }

  /**
   * The log `# User@Host: root[root] @ localhost []`, `# Thread_id: 5  Schema: test  QC_hit: No`,
   * `SELECT 1;` yields one record: user `root`, host `localhost`, thread id `5`, schema
   * `test`, QC hit `No`, no time, default timings and counters, and the query line with
   * its line break.
   */
  lemma LogExample(lines: seq<string>, l0: string, l1: string, l2: string, parse: string -> Option<string>)
    requires l0 == "# User@Host: root[root] @ localhost []"
    requires l1 == "# Thread_id: 5  Schema: test  QC_hit: No"
    requires l2 == "SELECT 1;"
    requires lines == [l0, l1, l2]
    ensures Parse(lines, parse) == [Entry("", "root", "localhost", "5", "test", "No", "", "", 0, 0, 0, 0, l2 + "\n")]
  {
    var k0, k1 := Classify(l0), Classify(l1);
    UserHostExample(l0);
    ThreadInfoExample(l1);
    BodyExample(l2);
    CleanUserExample(k0.user);
    CleanHostExample(k0.host);
    TrimTight(k1.schema);
    TrimTight(k1.qcHit);
    OneEntryLog(lines, l0, l1, l2, parse);
    StartedThenFilled("", CleanUser(k0.user), CleanHost(k0.host), k1.threadId, Trim(k1.schema), Trim(k1.qcHit), l2 + "\n");
  }

  /** A started entry with its thread fields and query filled in; the timings and counters keep their defaults. */
  lemma StartedThenFilled(time: string, user: string, host: string, threadId: string, schema: string, qcHit: string,
                          query: string)
    ensures Started(time, user, host).(threadId := threadId, schema := schema, qcHit := qcHit, query := query) ==
      Entry(time, user, host, threadId, schema, qcHit, "", "", 0, 0, 0, 0, query)
  {
  }

  // ---------------------------------------------------------------- the loop in place

  /** The CSV records for a list of entries, in order. */
  function Rows(es: seq<Entry>, showFloat: string -> string): (rows: seq<seq<string>>)
    ensures |rows| == |es|
  {
    Map(es, (e: Entry) => RowOf(e, showFloat))
  }

  /** `f` applied to each element of `xs`, in order. */
  function Map<A, B>(xs: seq<A>, f: A -> B): (ys: seq<B>)
    ensures |ys| == |xs|
  {
    seq(|xs|, i requires 0 <= i < |xs| => f(xs[i]))
  }

  lemma MapSnoc<A, B>(xs: seq<A>, x: A, f: A -> B)
    ensures Map(xs + [x], f) == Map(xs, f) + [f(x)]
  {
    var l := Map(xs + [x], f);
    var r := Map(xs, f) + [f(x)];
    forall i | 0 <= i < |l| ensures l[i] == r[i] {
      if i < |xs| { assert (xs + [x])[i] == xs[i]; }
    }
  }

  lemma AppendAssoc<T>(a: seq<T>, b: seq<T>, c: seq<T>)
    ensures (a + b) + c == a + (b + c)
  {
  }

  method AppendRecord(out: seq<seq<string>>, ghost es: seq<Entry>, e: Entry, showFloat: string -> string)
    returns (out': seq<seq<string>>)
    requires out == [Header] + Rows(es, showFloat)
    ensures out' == [Header] + Rows(es + [e], showFloat)
  {
    var row := WriteRecord(e, showFloat);
    FlushOutput(out, es, e, row, showFloat);
    out' := out + [row];
  }

  lemma FlushOutput(out: seq<seq<string>>, es: seq<Entry>, e: Entry, row: seq<string>, showFloat: string -> string)
    requires out == [Header] + Rows(es, showFloat) && row == RowOf(e, showFloat)
    ensures out + [row] == [Header] + Rows(es + [e], showFloat)
  {
    RecordsSnoc(es, e, row, showFloat);
  }

  lemma RecordsSnoc(es: seq<Entry>, e: Entry, row: seq<string>, showFloat: string -> string)
    requires row == RowOf(e, showFloat)
    ensures ([Header] + Rows(es, showFloat)) + [row] == [Header] + Rows(es + [e], showFloat)
  {
    RowsSnoc(es, e, showFloat);
    AppendAssoc([Header], Rows(es, showFloat), [row]);
  }

  lemma RowsSnoc(es: seq<Entry>, e: Entry, showFloat: string -> string)
    ensures Rows(es + [e], showFloat) == Rows(es, showFloat) + [RowOf(e, showFloat)]
  {
    MapSnoc(es, e, (e: Entry) => RowOf(e, showFloat));
  }

  /**
   * The state of `main` while it reads the log: the entry being built, the sticky
   * time, the number of entries written, and the records handed to the CSV writer
   * (the header row first).
   */
  class SlowLogConverter {
    /** chrono's parse-and-format of a time (see `FormatLogTime`). */
    const parse: string -> Option<string>
    /** `f64` parse and display of a captured timing (see `FloatColumn`). */
    const showFloat: string -> string

    var current: Entry
    var lastSeenTime: string
    var entryCount: nat
    var output: seq<seq<string>>
    /** The entries written so far, in order. */
    ghost var emitted: seq<Entry>

    ghost predicate Valid()
      reads this`entryCount, this`emitted, this`output
    {
      entryCount == |emitted| && output == [Header] + Rows(emitted, showFloat)
    }

    /** The loop's variables as a value. */
    ghost function Model(): State
      reads this
    {
      State(current, lastSeenTime, emitted)
    }

    /** Writes the header row and starts from a default entry (src/main.rs:193-213). */
    constructor (parse: string -> Option<string>, showFloat: string -> string)
      ensures Valid() && Model() == Init
      ensures this.parse == parse && this.showFloat == showFloat
      ensures output == [Header] && entryCount == 0
    {
      this.parse := parse;
      this.showFloat := showFloat;
      current := Default;
      lastSeenTime := "";
      entryCount := 0;
      output := [Header];
      emitted := [];
    }

    /** `write_to_csv` of the current entry and `entry_count += 1`. */
    method Flush()
      requires Valid()
      modifies this`output, this`entryCount, this`emitted
      ensures Valid()
      ensures emitted == old(emitted) + [current]
    {
      output := AppendRecord(output, emitted, current, showFloat);
      entryCount := entryCount + 1;
      emitted := emitted + [current];
    }

    /** One iteration of the loop over the log's lines (src/main.rs:216-261). */
    method ProcessLine(line: string)
      requires Valid()
      modifies this
      ensures Valid()
      ensures Model() == Apply(old(Model()), Classify(line), parse)
    {
      Handle(Classify(line));
    }

    /** The branch of the loop body taken for a line of the given kind. */
    method Handle(kind: LineKind)
      requires Valid()
      modifies this
      ensures Valid()
      ensures Model() == Apply(old(Model()), kind, parse)
    {
      match kind {
        case TimeHeader(rawTime) =>
          OnTime(rawTime);
        case UserHost(user, host) =>
          OnUserHost(user, host);
        case ThreadInfo(threadId, schema, qcHit) =>
          OnThreadInfo(threadId, schema, qcHit);
        case QueryStats(queryTime, lockTime, rowsSent, rowsExamined) =>
          OnQueryStats(queryTime, lockTime, rowsSent, rowsExamined);
        case RowStats(rowsAffected, bytesSent) =>
          OnRowStats(rowsAffected, bytesSent);
        case Body(text) =>
          OnBody(text);
        case Ignored =>
      }
    }

    /**
     * A `# Time:` line sets the sticky time to the reformatted time, or to the
     * trimmed raw text when `chrono` rejects it (src/main.rs:218-220).
     */
    method OnTime(rawTime: string)
      modifies this`lastSeenTime
      ensures lastSeenTime == TimeValue(rawTime, parse)
    {
      var trimmed := Trim(rawTime);
      match FormatLogTime(trimmed, parse) {
        case Some(formatted) => lastSeenTime := formatted;
        case None => lastSeenTime := trimmed;
      }
    }

    /**
     * A `# User@Host:` line writes the entry being built when it is valid, then
     * starts a new one stamped with the sticky time (src/main.rs:221-235).
     */
    method OnUserHost(user: string, host: string)
      requires Valid()
      modifies this`output, this`entryCount, this`emitted, this`current
      ensures Valid()
      ensures emitted == Close(old(Model()))
      ensures current == Started(lastSeenTime, CleanUser(user), CleanHost(host))
    {
      WriteIfValid();
      StartEntry(user, host);
    }

    /** The new entry of a `User@Host` line: the sticky time, the cleaned user and host, defaults elsewhere. */
    method StartEntry(user: string, host: string)
      modifies this`current
      ensures current == Started(lastSeenTime, CleanUser(user), CleanHost(host))
    {
      current := Started(lastSeenTime, CleanUser(user), CleanHost(host));
    }

    /** A `# Thread_id:` line sets the thread id, the schema and the cache flag (src/main.rs:236-239). */
    method OnThreadInfo(threadId: string, schema: string, qcHit: string)
      modifies this`current
      ensures current == old(current).(threadId := threadId, schema := Trim(schema), qcHit := Trim(qcHit))
    {
      current := current.(threadId := threadId);
      current := current.(schema := Trim(schema));
      current := current.(qcHit := Trim(qcHit));
    }

    /** A `# Query_time:` line sets the two timings and two row counters (src/main.rs:240-249). */
    method OnQueryStats(queryTime: string, lockTime: string, rowsSent: string, rowsExamined: string)
      modifies this`current
      ensures current == old(current).(queryTime := queryTime, lockTime := lockTime,
                                       rowsSent := ParseU64(rowsSent), rowsExamined := ParseU64(rowsExamined))
    {
      current := current.(queryTime := queryTime);
      current := current.(lockTime := lockTime);
      current := current.(rowsSent := ParseU64(rowsSent));
      current := current.(rowsExamined := ParseU64(rowsExamined));
    }

    /** A `# Rows_affected:` line sets the two remaining counters (src/main.rs:250-253). */
    method OnRowStats(rowsAffected: string, bytesSent: string)
      modifies this`current
      ensures current == old(current).(rowsAffected := ParseU64(rowsAffected), bytesSent := ParseU64(bytesSent))
    {
      current := current.(rowsAffected := ParseU64(rowsAffected));
      current := current.(bytesSent := ParseU64(bytesSent));
    }

    /** A body line is appended to the query, followed by a line break (src/main.rs:254-261). */
    method OnBody(text: string)
      modifies this`current
      ensures current == old(current).(query := old(current).query + text + "\n")
    {
      current := current.(query := current.query + text);
      current := current.(query := current.query + "\n");
    }

    /**
     * Writes the entry being built when it is valid: done for each `User@Host`
     * line (src/main.rs:222-225) and once at the end of input (src/main.rs:264-267).
     */
    method WriteIfValid()
      requires Valid()
      modifies this`output, this`entryCount, this`emitted
      ensures Valid()
      ensures emitted == Close(old(Model()))
    {
      if current.IsValid() {
        Flush();
      }
    }
  }

  /**
   * The whole conversion: the header row, then one record per written entry, and
   * the number of entries written (the count `main` reports).
   */
  method Convert(lines: seq<string>, parse: string -> Option<string>, showFloat: string -> string)
    returns (records: seq<seq<string>>, count: nat)
    ensures records == [Header] + Rows(Parse(lines, parse), showFloat)
    ensures count == |Parse(lines, parse)| && |records| == count + 1
  {
    var converter := new SlowLogConverter(parse, showFloat);
    for i := 0 to |lines|
      invariant converter.Valid()
      invariant converter.parse == parse && converter.showFloat == showFloat
      invariant converter.Model() == Run(KindsOf(lines[..i]), parse)
    {
      KindsOfSnoc(lines, i);
      RunSnoc(KindsOf(lines[..i]), Classify(lines[i]), parse);
      converter.ProcessLine(lines[i]);
    }
    assert lines[..|lines|] == lines;
    converter.WriteIfValid();
    records := converter.output;
    count := converter.entryCount;
  }
}
