/**
 * The line patterns of src/main.rs:20-32, each written out as the shape it
 * accepts, and the first-match-wins dispatch of the main loop (src/main.rs:218-261).
 *
 * Every greedy run in these patterns is followed by a character that cannot
 * belong to it (digits by whitespace, whitespace by a letter), so backtracking
 * never shortens a run: each run below is maximal.
 */
module LineClassifier {
  import opened Options
  import opened Text

  /** What one log line is, with the text the pattern captured. */
  datatype LineKind =
    | TimeHeader(rawTime: string)
    | UserHost(user: string, host: string)
    | ThreadInfo(threadId: string, schema: string, qcHit: string)
    | QueryStats(queryTime: string, lockTime: string, rowsSent: string, rowsExamined: string)
    | RowStats(rowsAffected: string, bytesSent: string)
    | Body(text: string)
    | Ignored

  const TimeMarker := "# Time: "
  const UserHostMarker := "# User@Host: "
  const ThreadMarker := "# Thread_id: "
  const QueryTimeMarker := "# Query_time: "
  const RowsAffectedMarker := "# Rows_affected: "

  /** A token and what follows it. */
  datatype Cut = Cut(token: string, rest: string)

  /** The rest of `s` after a literal prefix. */
  function After(s: string, lit: string): (r: Option<string>)
    ensures r.Some? <==> StartsWith(s, lit)
    ensures r.Some? ==> s == lit + r.value
  {
    if StartsWith(s, lit) then Some(s[|lit|..]) else None
  }

  /** A greedy, non-empty run of class `k` at the start of `s` (`\d+`, `\s+`, `[\d.]+`). */
  function Token(s: string, k: CharClass): (r: Option<Cut>)
    ensures r.Some? <==> s != [] && InClass(s[0], k)
    ensures r.Some? ==> s == r.value.token + r.value.rest && r.value.token != []
    ensures r.Some? ==> forall i :: 0 <= i < |r.value.token| ==> InClass(r.value.token[i], k)
    ensures r.Some? ==> r.value.rest == [] || !InClass(r.value.rest[0], k)
  {
    var n := SpanOf(s, k);
    if n == 0 then None else Some(Cut(s[..n], s[n..]))
  }

  /** `pat` occurs in `s` at position `j`. */
  predicate OccursAt(s: string, pat: string, j: nat) {
    j + |pat| <= |s| && s[j..j + |pat|] == pat
  }

  /** Leftmost position at or after `from` where `pat` occurs in `s`. */
  function IndexOf(s: string, pat: string, from: nat): (r: Option<nat>)
    requires from <= |s|
    ensures r.Some? ==> from <= r.value && OccursAt(s, pat, r.value)
    ensures r.Some? ==> forall j :: from <= j < r.value ==> !OccursAt(s, pat, j)
    ensures r.None? ==> forall j :: from <= j <= |s| ==> !OccursAt(s, pat, j)
    decreases |s| - from
  {
    if OccursAt(s, pat, from) then Some(from)
    else if from == |s| then None
    else IndexOf(s, pat, from + 1)
  }

  /** `marker` occurs in `s` at `m`, right after a whitespace character. */
  predicate MarkerAt(s: string, marker: string, m: nat) {
    1 <= m <= |s| && IsSpace(s[m - 1]) && OccursAt(s, marker, m)
  }

  /** Leftmost position `m >= from` where `marker` occurs in `s` right after whitespace. */
  function MarkerAfterSpace(s: string, marker: string, from: nat): (r: Option<nat>)
    requires 1 <= from <= |s| + 1
    ensures r.Some? ==> from <= r.value && MarkerAt(s, marker, r.value)
    ensures r.Some? ==> forall m :: from <= m < r.value ==> !MarkerAt(s, marker, m)
    ensures r.None? ==> forall m :: from <= m <= |s| ==> !MarkerAt(s, marker, m)
    decreases |s| + 1 - from
  {
    if from > |s| then None
    else if MarkerAt(s, marker, from) then Some(from)
    else MarkerAfterSpace(s, marker, from + 1)
  }

  /** `^# Time: (.*)` */
  function MatchTime(line: string): (r: Option<LineKind>)
    ensures r.Some? <==> StartsWith(line, TimeMarker)
    ensures r.Some? ==> r.value.TimeHeader? && line == TimeMarker + r.value.rawTime
  {
    var rest :- After(line, TimeMarker);
    Some(TimeHeader(rest))
  }

  /**
   * `^# User@Host: (.*?) @\s*(.*)`: the lazy user capture ends at the first `" @"`,
   * the host capture is what follows it once the whitespace after it is skipped.
   */
  function MatchUserHost(line: string): (r: Option<LineKind>)
    ensures r.Some? ==> r.value.UserHost?
    ensures !StartsWith(line, UserHostMarker) ==> r.None?
  {
    var rest :- After(line, UserHostMarker);
    var i :- IndexOf(rest, " @", 0);
    var after := rest[i + 2..];
    Some(UserHost(rest[..i], after[SpanOf(after, Spaces)..]))
  }

  /**
   * A matched line is the marker, the user, `" @"`, whitespace and the host; the
   * user holds no `" @"` (the capture is lazy) and the host starts with no whitespace.
   */
  lemma MatchUserHostShape(line: string, user: string, host: string)
    requires MatchUserHost(line) == Some(UserHost(user, host))
    ensures StartsWith(line, UserHostMarker + user + " @")
    ensures forall j :: 0 <= j < |user| ==> !OccursAt(user, " @", j)
    ensures |UserHostMarker + user + " @"| + |host| <= |line|
    ensures AllSpace(line[|UserHostMarker + user + " @"|..|line| - |host|])
    ensures line[|line| - |host|..] == host
    ensures host == [] || !IsSpace(host[0])
  {
    var rest, i, gap := UserHostCaptures(line, user, host);
    UserIsLazy(rest, i);
    Reassemble(line, UserHostMarker, rest, i, " @", gap, user, host);
  }

  /** Where the two captures of a matched `User@Host` line come from. */
  lemma UserHostCaptures(line: string, user: string, host: string) returns (rest: string, i: nat, gap: nat)
    requires MatchUserHost(line) == Some(UserHost(user, host))
    ensures StartsWith(line, UserHostMarker) && rest == line[|UserHostMarker|..]
    ensures OccursAt(rest, " @", i) && forall j :: 0 <= j < i ==> !OccursAt(rest, " @", j)
    ensures gap <= |rest| - i - 2 && AllSpace(rest[i + 2..][..gap])
    ensures user == rest[..i] && host == rest[i + 2..][gap..]
    ensures host == [] || !IsSpace(host[0])
  {
    rest := line[|UserHostMarker|..];
    i := IndexOf(rest, " @", 0).value;
    gap := SpanOf(rest[i + 2..], Spaces);
  }

  /** `line` cut into a head, a token up to position `i` of the rest, a separator, a gap and a tail. */
  lemma Reassemble(line: string, marker: string, rest: string, i: nat, sep: string, gap: nat,
                   user: string, host: string)
    requires StartsWith(line, marker) && rest == line[|marker|..]
    requires OccursAt(rest, sep, i) && gap <= |rest| - i - |sep|
    requires user == rest[..i] && host == rest[i + |sep|..][gap..]
    ensures StartsWith(line, marker + user + sep)
    ensures |marker + user + sep| + |host| <= |line|
    ensures line[|marker + user + sep|..|line| - |host|] == rest[i + |sep|..][..gap]
    ensures line[|line| - |host|..] == host
  {
    var after := rest[i + |sep|..];
    assert rest == user + sep + after;
    var head := marker + user + sep;
    assert line == marker + rest;
    assert line == head + after[..gap] + host;
  }

  /** Before the first `" @"` of `rest` there is no `" @"`. */
  lemma UserIsLazy(rest: string, i: nat)
    requires i <= |rest| && forall j :: 0 <= j < i ==> !OccursAt(rest, " @", j)
    ensures forall j :: 0 <= j < i ==> !OccursAt(rest[..i], " @", j)
  {
    forall j | 0 <= j < i ensures !OccursAt(rest[..i], " @", j) {
      assert !OccursAt(rest, " @", j);
      if j + 2 <= i {
        assert rest[..i][j..j + 2] == rest[j..j + 2];
      }
    }
  }

  /** `^# Thread_id: (\d+)\s+Schema: (.*?)\s+QC_hit: (.*)` */
  function MatchThreadInfo(line: string): (r: Option<LineKind>)
    ensures r.Some? ==> r.value.ThreadInfo? && r.value.threadId != [] && AllDigits(r.value.threadId)
    ensures r.Some? ==> r.value.schema == [] || !IsSpace(r.value.schema[|r.value.schema| - 1])
    ensures !StartsWith(line, ThreadMarker) ==> r.None?
  {
    var rest :- After(line, ThreadMarker);
    var id :- Token(rest, Digits);
    var gap :- Token(id.rest, Spaces);
    var tail :- After(gap.rest, "Schema: ");
    var m :- MarkerAfterSpace(tail, "QC_hit: ", 1);
    // The lazy schema capture stops where the whitespace before the marker begins.
    Some(ThreadInfo(id.token, TrimEnd(tail[..m]), tail[m + 8..]))
  }

  /** `^# Query_time: ([\d.]+)\s+Lock_time: ([\d.]+)\s+Rows_sent: (\d+)\s+Rows_examined: (\d+)` */
  function MatchQueryStats(line: string): (r: Option<LineKind>)
    ensures r.Some? ==> r.value.QueryStats?
    ensures r.Some? ==> r.value.queryTime != [] && r.value.lockTime != []
    ensures r.Some? ==> r.value.rowsSent != [] && AllDigits(r.value.rowsSent)
    ensures r.Some? ==> r.value.rowsExamined != [] && AllDigits(r.value.rowsExamined)
    ensures !StartsWith(line, QueryTimeMarker) ==> r.None?
  {
    var r0 :- After(line, QueryTimeMarker);
    var qt :- Token(r0, DigitsOrDots);
    var g1 :- Token(qt.rest, Spaces);
    var r1 :- After(g1.rest, "Lock_time: ");
    var lt :- Token(r1, DigitsOrDots);
    var g2 :- Token(lt.rest, Spaces);
    var r2 :- After(g2.rest, "Rows_sent: ");
    var rs :- Token(r2, Digits);
    var g3 :- Token(rs.rest, Spaces);
    var r3 :- After(g3.rest, "Rows_examined: ");
    var re :- Token(r3, Digits);
    Some(QueryStats(qt.token, lt.token, rs.token, re.token))
  }

  /** `^# Rows_affected: (\d+)\s+Bytes_sent: (\d+)` */
  function MatchRowStats(line: string): (r: Option<LineKind>)
    ensures r.Some? ==> r.value.RowStats?
    ensures r.Some? ==> r.value.rowsAffected != [] && AllDigits(r.value.rowsAffected)
    ensures r.Some? ==> r.value.bytesSent != [] && AllDigits(r.value.bytesSent)
    ensures !StartsWith(line, RowsAffectedMarker) ==> r.None?
  {
    var r0 :- After(line, RowsAffectedMarker);
    var ra :- Token(r0, Digits);
    var g :- Token(ra.rest, Spaces);
    var r1 :- After(g.rest, "Bytes_sent: ");
    var bs :- Token(r1, Digits);
    Some(RowStats(ra.token, bs.token))
  }

  // ---------------------------------------------------------------- which lines match

  lemma AfterPrefix(lit: string, x: string)
    ensures After(lit + x, lit) == Some(x)
  {
    assert (lit + x)[..|lit|] == lit;
    assert (lit + x)[|lit|..] == x;
  }

  lemma TokenOfRun(tok: string, rest: string, k: CharClass)
    requires IsRun(tok, k) && (rest == [] || !InClass(rest[0], k))
    ensures Token(tok + rest, k) == Some(Cut(tok, rest))
  {
    var s := tok + rest;
    assert forall i :: 0 <= i < |tok| ==> s[i] == tok[i];
    assert |tok| < |s| ==> s[|tok|] == rest[0];
    SpanOfRun(s, |tok|, k);
    assert s[..|tok|] == tok && s[|tok|..] == rest;
  }

  /** A field, the whitespace after it and the next label: the three steps that consume them. */
  lemma FieldThenLabel(tok: string, gap: string, next: string, rest: string, k: CharClass)
    requires k == Digits || k == DigitsOrDots
    requires IsRun(tok, k) && IsRun(gap, Spaces) && next != [] && !IsSpace(next[0])
    ensures Token(tok + (gap + (next + rest)), k) == Some(Cut(tok, gap + (next + rest)))
    ensures Token(gap + (next + rest), Spaces) == Some(Cut(gap, next + rest))
    ensures After(next + rest, next) == Some(rest)
  {
    TokenOfRun(tok, gap + (next + rest), k);
    TokenOfRun(gap, next + rest, Spaces);
    AfterPrefix(next, rest);
  }

  /** The leftmost occurrence at or after `from` is the one `IndexOf` reports. */
  lemma {:induction false} IndexOfFirst(s: string, pat: string, from: nat, i: nat)
    requires from <= i && OccursAt(s, pat, i)
    requires forall j :: from <= j < i ==> !OccursAt(s, pat, j)
    ensures IndexOf(s, pat, from) == Some(i)
    decreases i - from
  {
    if from < i {
      IndexOfFirst(s, pat, from + 1, i);
    }
  }

  /** The leftmost marker after whitespace at or after `from` is the one `MarkerAfterSpace` reports. */
  lemma {:induction false} MarkerAfterSpaceFirst(s: string, marker: string, from: nat, m: nat)
    requires 1 <= from <= m && MarkerAt(s, marker, m)
    requires forall j :: from <= j < m ==> !MarkerAt(s, marker, j)
    ensures MarkerAfterSpace(s, marker, from).Some? && MarkerAfterSpace(s, marker, from).value == m
    decreases m - from
  {
    if from < m {
      MarkerAfterSpaceFirst(s, marker, from + 1, m);
    }
  }

  /**
   * The line `# User@Host: <user> @<gap><host>`: the user holds no `" @"`, the gap is
   * whitespace and the host does not begin with whitespace.
   */
  predicate UserHostLine(line: string, user: string, gap: string, host: string) {
    && line == UserHostMarker + (user + (" @" + (gap + host)))
    && (forall j :: 0 <= j < |user| ==> !OccursAt(user, " @", j))
    && AllSpace(gap)
    && (host == [] || !IsSpace(host[0]))
  }

  /** The `User@Host` pattern matches iff a `" @"` follows the marker somewhere. */
  lemma MatchUserHostWhen(line: string)
    ensures MatchUserHost(line).Some? <==>
      StartsWith(line, UserHostMarker) && exists j :: OccursAt(line[|UserHostMarker|..], " @", j)
  {
    if StartsWith(line, UserHostMarker) {
      var rest := line[|UserHostMarker|..];
      assert After(line, UserHostMarker) == Some(rest);
      if IndexOf(rest, " @", 0).Some? {
        assert OccursAt(rest, " @", IndexOf(rest, " @", 0).value);
      }
    }
  }

  lemma MatchUserHostComplete(line: string, user: string, gap: string, host: string)
    requires UserHostLine(line, user, gap, host)
    ensures MatchUserHost(line) == Some(UserHost(user, host))
  {
    var after := gap + host;
    var sepAfter := " @" + after;
    var rest := user + sepAfter;
    AfterPrefix(UserHostMarker, rest);
    NoSeparatorBefore(user, sepAfter);
    assert rest[|user|..|user| + 2] == sepAfter[..2];
    IndexOfFirst(rest, " @", 0, |user|);
    assert rest[|user| + 2..] == after;
    assert forall i :: 0 <= i < |gap| ==> after[i] == gap[i];
    assert |gap| < |after| ==> after[|gap|] == host[0];
    SpanOfRun(after, |gap|, Spaces);
    assert after[|gap|..] == host;
    assert rest[..|user|] == user;
  }

  /** A user without `" @"` followed by text starting with a space has no `" @"` before that text. */
  lemma NoSeparatorBefore(user: string, after: string)
    requires forall j :: 0 <= j < |user| ==> !OccursAt(user, " @", j)
    requires after != [] && after[0] == ' '
    ensures forall j :: 0 <= j < |user| ==> !OccursAt(user + after, " @", j)
  {
    var rest := user + after;
    forall j | 0 <= j < |user| ensures !OccursAt(rest, " @", j) {
      if j + 2 <= |user| {
        assert rest[j..j + 2] == user[j..j + 2];
        assert !OccursAt(user, " @", j);
      } else {
        assert rest[j..j + 2][1] == after[0];
      }
    }
  }

  lemma MatchUserHostSound(line: string, user: string, host: string) returns (gap: string)
    requires MatchUserHost(line) == Some(UserHost(user, host))
    ensures UserHostLine(line, user, gap, host)
  {
    var rest, i, g := UserHostCaptures(line, user, host);
    UserIsLazy(rest, i);
    gap := rest[i + 2..][..g];
    CutAround(line, UserHostMarker, rest, i, " @", g);
  }

  /** A line that starts with `marker` is the marker, the rest up to `i`, the separator there, a gap and the remainder. */
  lemma CutAround(line: string, marker: string, rest: string, i: nat, sep: string, g: nat)
    requires StartsWith(line, marker) && rest == line[|marker|..]
    requires OccursAt(rest, sep, i) && g <= |rest| - i - |sep|
    ensures line == marker + (rest[..i] + (sep + (rest[i + |sep|..][..g] + rest[i + |sep|..][g..])))
  {
    var after := rest[i + |sep|..];
    assert after == after[..g] + after[g..];
    assert rest[i..] == rest[i..i + |sep|] + after;
    assert rest == rest[..i] + rest[i..];
    assert line == line[..|marker|] + rest;
  }

  /** The `User@Host` captures are exactly the user and host of a line of that shape. */
  lemma MatchUserHostIff(line: string, user: string, host: string)
    ensures MatchUserHost(line) == Some(UserHost(user, host)) <==>
      exists gap :: UserHostLine(line, user, gap, host)
  {
    if MatchUserHost(line) == Some(UserHost(user, host)) {
      var gap := MatchUserHostSound(line, user, host);
    }
    if gap :| UserHostLine(line, user, gap, host) {
      MatchUserHostComplete(line, user, gap, host);
    }
  }

  /**
   * The line `# Thread_id: <id><gap>Schema: <text>QC_hit: <qcHit>` where `<text>` ends
   * in whitespace and no whitespace-preceded `QC_hit: ` occurs earlier after `Schema: `.
   */
  predicate ThreadInfoLine(line: string, threadId: string, gap: string, text: string, qcHit: string) {
    && line == ThreadMarker + (threadId + (gap + ("Schema: " + (text + ("QC_hit: " + qcHit)))))
    && IsRun(threadId, Digits) && IsRun(gap, Spaces)
    && text != [] && IsSpace(text[|text| - 1])
    && (forall m :: 1 <= m < |text| ==> !MarkerAt(text + ("QC_hit: " + qcHit), "QC_hit: ", m))
  }

  lemma MatchThreadInfoComplete(line: string, threadId: string, gap: string, text: string, qcHit: string)
    requires ThreadInfoLine(line, threadId, gap, text, qcHit)
    ensures MatchThreadInfo(line) == Some(ThreadInfo(threadId, TrimEnd(text), qcHit))
  {
    var tail := text + ("QC_hit: " + qcHit);
    var afterGap := "Schema: " + tail;
    var afterId := gap + afterGap;
    var rest := threadId + afterId;
    AfterPrefix(ThreadMarker, rest);
    TokenOfRun(threadId, afterId, Digits);
    TokenOfRun(gap, afterGap, Spaces);
    AfterPrefix("Schema: ", tail);
    FirstQcHit(text, qcHit);
  }

  /** After `Schema: `, the first whitespace-preceded `QC_hit: ` splits the text from the QC hit. */
  lemma FirstQcHit(text: string, qcHit: string)
    requires text != [] && IsSpace(text[|text| - 1])
    requires forall m :: 1 <= m < |text| ==> !MarkerAt(text + ("QC_hit: " + qcHit), "QC_hit: ", m)
    ensures MarkerAfterSpace(text + ("QC_hit: " + qcHit), "QC_hit: ", 1).Some?
    ensures MarkerAfterSpace(text + ("QC_hit: " + qcHit), "QC_hit: ", 1).value == |text|
    ensures (text + ("QC_hit: " + qcHit))[..|text|] == text
    ensures (text + ("QC_hit: " + qcHit))[|text| + 8..] == qcHit
  {
    var marked := "QC_hit: " + qcHit;
    var tail := text + marked;
    assert tail[|text|..|text| + 8] == marked[..8];
    assert tail[|text| - 1] == text[|text| - 1];
    MarkerAfterSpaceFirst(tail, "QC_hit: ", 1, |text|);
  }

  lemma MatchThreadInfoSound(line: string, threadId: string, schema: string, qcHit: string)
    returns (gap: string, text: string)
    requires MatchThreadInfo(line) == Some(ThreadInfo(threadId, schema, qcHit))
    ensures ThreadInfoLine(line, threadId, gap, text, qcHit) && schema == TrimEnd(text)
  {
    var rest := After(line, ThreadMarker).value;
    var id := Token(rest, Digits).value;
    var g := Token(id.rest, Spaces).value;
    var tail := After(g.rest, "Schema: ").value;
    gap := g.token;
    text := SplitAtFirstQcHit(tail);
    assert qcHit == tail[|text| + 8..] && schema == TrimEnd(text);
    assert text + ("QC_hit: " + qcHit) == tail;
    assert line == ThreadMarker + (threadId + (gap + ("Schema: " + tail)));
  }

  /** Cutting at the first whitespace-preceded `QC_hit: ` leaves text ending in whitespace and holding no earlier marker. */
  lemma SplitAtFirstQcHit(tail: string) returns (text: string)
    requires MarkerAfterSpace(tail, "QC_hit: ", 1).Some?
    ensures text == tail[..MarkerAfterSpace(tail, "QC_hit: ", 1).value]
    ensures tail == text + ("QC_hit: " + tail[|text| + 8..])
    ensures text != [] && IsSpace(text[|text| - 1])
    ensures forall m :: 1 <= m < |text| ==> !MarkerAt(tail, "QC_hit: ", m)
  {
    var m := MarkerAfterSpace(tail, "QC_hit: ", 1).value;
    text := tail[..m];
    SplitAtQcHit(tail, m);
  }

  /** Cutting at a whitespace-preceded `QC_hit: ` leaves text ending in whitespace, the marker and the QC hit. */
  lemma SplitAtQcHit(tail: string, m: nat)
    requires MarkerAt(tail, "QC_hit: ", m)
    ensures tail == tail[..m] + ("QC_hit: " + tail[m + 8..])
    ensures tail[..m] != [] && IsSpace(tail[..m][m - 1])
  {
    assert tail[m..] == tail[m..m + 8] + tail[m + 8..];
    assert tail == tail[..m] + tail[m..];
  }

  /** The `Thread_id` captures are exactly those of a line of that shape; the lazy schema is the text before the marker, trimmed at its end. */
  lemma MatchThreadInfoIff(line: string, threadId: string, schema: string, qcHit: string)
    ensures MatchThreadInfo(line) == Some(ThreadInfo(threadId, schema, qcHit)) <==>
      exists gap, text :: ThreadInfoLine(line, threadId, gap, text, qcHit) && schema == TrimEnd(text)
  {
    if MatchThreadInfo(line) == Some(ThreadInfo(threadId, schema, qcHit)) {
      var gap, text := MatchThreadInfoSound(line, threadId, schema, qcHit);
    }
    if gap, text :| ThreadInfoLine(line, threadId, gap, text, qcHit) && schema == TrimEnd(text) {
      MatchThreadInfoComplete(line, threadId, gap, text, qcHit);
    }
  }

  /**
   * The line `# Query_time: <q><g1>Lock_time: <l><g2>Rows_sent: <s><g3>Rows_examined: <e><tail>`
   * with maximal runs: timings of digits and dots, counters of digits, non-empty whitespace gaps.
   */
  predicate QueryStatsLine(line: string, queryTime: string, lockTime: string, rowsSent: string,
                           rowsExamined: string, g1: string, g2: string, g3: string, tail: string) {
    && line == QueryTimeMarker + (queryTime + (g1 + ("Lock_time: " + (lockTime + (g2 + ("Rows_sent: "
               + (rowsSent + (g3 + ("Rows_examined: " + (rowsExamined + tail))))))))))
    && IsRun(queryTime, DigitsOrDots) && IsRun(lockTime, DigitsOrDots)
    && IsRun(rowsSent, Digits) && IsRun(rowsExamined, Digits)
    && IsRun(g1, Spaces) && IsRun(g2, Spaces) && IsRun(g3, Spaces)
    && (tail == [] || !IsDigit(tail[0]))
  }

  lemma MatchQueryStatsComplete(line: string, queryTime: string, lockTime: string, rowsSent: string,
                                rowsExamined: string, g1: string, g2: string, g3: string, tail: string)
    requires QueryStatsLine(line, queryTime, lockTime, rowsSent, rowsExamined, g1, g2, g3, tail)
    ensures MatchQueryStats(line) == Some(QueryStats(queryTime, lockTime, rowsSent, rowsExamined))
  {
    AfterPrefix(QueryTimeMarker, queryTime + (g1 + ("Lock_time: " + (lockTime + (g2 + ("Rows_sent: "
      + (rowsSent + (g3 + ("Rows_examined: " + (rowsExamined + tail))))))))));
    FieldThenLabel(queryTime, g1, "Lock_time: ", lockTime + (g2 + ("Rows_sent: "
      + (rowsSent + (g3 + ("Rows_examined: " + (rowsExamined + tail)))))), DigitsOrDots);
    FieldThenLabel(lockTime, g2, "Rows_sent: ", rowsSent + (g3 + ("Rows_examined: " + (rowsExamined + tail))),
                   DigitsOrDots);
    FieldThenLabel(rowsSent, g3, "Rows_examined: ", rowsExamined + tail, Digits);
    TokenOfRun(rowsExamined, tail, Digits);
  }

  lemma MatchQueryStatsSound(line: string, queryTime: string, lockTime: string, rowsSent: string, rowsExamined: string)
    returns (g1: string, g2: string, g3: string, tail: string)
    requires MatchQueryStats(line) == Some(QueryStats(queryTime, lockTime, rowsSent, rowsExamined))
    ensures QueryStatsLine(line, queryTime, lockTime, rowsSent, rowsExamined, g1, g2, g3, tail)
  {
    var r0 := After(line, QueryTimeMarker).value;
    var qt := Token(r0, DigitsOrDots).value;
    var c1 := Token(qt.rest, Spaces).value;
    var r1 := After(c1.rest, "Lock_time: ").value;
    var lt := Token(r1, DigitsOrDots).value;
    var c2 := Token(lt.rest, Spaces).value;
    var r2 := After(c2.rest, "Rows_sent: ").value;
    var rs := Token(r2, Digits).value;
    var c3 := Token(rs.rest, Spaces).value;
    var r3 := After(c3.rest, "Rows_examined: ").value;
    var re := Token(r3, Digits).value;
    g1, g2, g3, tail := c1.token, c2.token, c3.token, re.rest;
  }

  /** The `Query_time` captures are exactly those of a line of that shape. */
  lemma MatchQueryStatsIff(line: string, queryTime: string, lockTime: string, rowsSent: string, rowsExamined: string)
    ensures MatchQueryStats(line) == Some(QueryStats(queryTime, lockTime, rowsSent, rowsExamined)) <==>
      exists g1, g2, g3, tail :: QueryStatsLine(line, queryTime, lockTime, rowsSent, rowsExamined, g1, g2, g3, tail)
  {
    if MatchQueryStats(line) == Some(QueryStats(queryTime, lockTime, rowsSent, rowsExamined)) {
      var g1, g2, g3, tail := MatchQueryStatsSound(line, queryTime, lockTime, rowsSent, rowsExamined);
    }
    if g1, g2, g3, tail :| QueryStatsLine(line, queryTime, lockTime, rowsSent, rowsExamined, g1, g2, g3, tail) {
      MatchQueryStatsComplete(line, queryTime, lockTime, rowsSent, rowsExamined, g1, g2, g3, tail);
    }
  }

  /** The line `# Rows_affected: <a><gap>Bytes_sent: <b><tail>` with maximal digit runs. */
  predicate RowStatsLine(line: string, rowsAffected: string, gap: string, bytesSent: string, tail: string) {
    && line == RowsAffectedMarker + (rowsAffected + (gap + ("Bytes_sent: " + (bytesSent + tail))))
    && IsRun(rowsAffected, Digits) && IsRun(gap, Spaces) && IsRun(bytesSent, Digits)
    && (tail == [] || !IsDigit(tail[0]))
  }

  lemma MatchRowStatsComplete(line: string, rowsAffected: string, gap: string, bytesSent: string, tail: string)
    requires RowStatsLine(line, rowsAffected, gap, bytesSent, tail)
    ensures MatchRowStats(line) == Some(RowStats(rowsAffected, bytesSent))
  {
    AfterPrefix(RowsAffectedMarker, rowsAffected + (gap + ("Bytes_sent: " + (bytesSent + tail))));
    FieldThenLabel(rowsAffected, gap, "Bytes_sent: ", bytesSent + tail, Digits);
    TokenOfRun(bytesSent, tail, Digits);
  }

  lemma MatchRowStatsSound(line: string, rowsAffected: string, bytesSent: string) returns (gap: string, tail: string)
    requires MatchRowStats(line) == Some(RowStats(rowsAffected, bytesSent))
    ensures RowStatsLine(line, rowsAffected, gap, bytesSent, tail)
  {
    var r0 := After(line, RowsAffectedMarker).value;
    var ra := Token(r0, Digits).value;
    var g := Token(ra.rest, Spaces).value;
    var r1 := After(g.rest, "Bytes_sent: ").value;
    var bs := Token(r1, Digits).value;
    gap, tail := g.token, bs.rest;
  }

  /** The `Rows_affected` captures are exactly those of a line of that shape. */
  lemma MatchRowStatsIff(line: string, rowsAffected: string, bytesSent: string)
    ensures MatchRowStats(line) == Some(RowStats(rowsAffected, bytesSent)) <==>
      exists gap, tail :: RowStatsLine(line, rowsAffected, gap, bytesSent, tail)
  {
    if MatchRowStats(line) == Some(RowStats(rowsAffected, bytesSent)) {
      var gap, tail := MatchRowStatsSound(line, rowsAffected, bytesSent);
    }
    if gap, tail :| RowStatsLine(line, rowsAffected, gap, bytesSent, tail) {
      MatchRowStatsComplete(line, rowsAffected, gap, bytesSent, tail);
    }
  }

  /** True when one of the five header patterns matches `line`. */
  predicate IsHeader(line: string) {
    MatchTime(line).Some? || MatchUserHost(line).Some? || MatchThreadInfo(line).Some?
    || MatchQueryStats(line).Some? || MatchRowStats(line).Some?
  }

  /** The patterns tried in the order of the main loop; the first match wins. */
  function Classify(line: string): LineKind {
    if MatchTime(line).Some? then MatchTime(line).value
    else if MatchUserHost(line).Some? then MatchUserHost(line).value
    else if MatchThreadInfo(line).Some? then MatchThreadInfo(line).value
    else if MatchQueryStats(line).Some? then MatchQueryStats(line).value
    else if MatchRowStats(line).Some? then MatchRowStats(line).value
    else if !StartsWith(line, "#") && Trim(line) != [] then Body(line)
    else Ignored
  }

  lemma HashPrefix(line: string, marker: string)
    requires marker != [] && marker[0] == '#' && StartsWith(line, marker)
    ensures StartsWith(line, "#")
  {
    assert line[0] == marker[0];
  }

  /** Every header pattern begins with `#`. */
  lemma HeadersStartWithHash(line: string)
    requires IsHeader(line)
    ensures StartsWith(line, "#")
  {
    if MatchTime(line).Some? {
      HashPrefix(line, TimeMarker);
    } else if MatchUserHost(line).Some? {
      HashPrefix(line, UserHostMarker);
    } else if MatchThreadInfo(line).Some? {
      HashPrefix(line, ThreadMarker);
    } else if MatchQueryStats(line).Some? {
      HashPrefix(line, QueryTimeMarker);
    } else {
      HashPrefix(line, RowsAffectedMarker);
    }
  }

  /** A line is query text iff it does not start with `#` and is not blank; it is kept whole. */
  lemma ClassifyBody(line: string)
    ensures Classify(line).Body? <==> !StartsWith(line, "#") && !AllSpace(line)
    ensures Classify(line).Body? ==> Classify(line).text == line
  {
    TrimEmpty(line);
    if IsHeader(line) {
      HeadersStartWithHash(line);
    }
  }

  /** A line is ignored iff it is blank, or starts with `#` and matches no header pattern. */
  lemma ClassifyIgnored(line: string)
    ensures Classify(line) == Ignored <==> !IsHeader(line) && (StartsWith(line, "#") || AllSpace(line))
  {
    TrimEmpty(line);
  }

  /** The kind `Classify` reports is the kind of the first pattern that matched. */
  lemma ClassifyHeaders(line: string)
    ensures Classify(line).TimeHeader? <==> MatchTime(line).Some?
    ensures Classify(line).UserHost? <==> MatchTime(line).None? && MatchUserHost(line).Some?
    ensures Classify(line).ThreadInfo? <==> MatchTime(line).None? && MatchUserHost(line).None? && MatchThreadInfo(line).Some?
    ensures Classify(line).QueryStats? <==>
      MatchTime(line).None? && MatchUserHost(line).None? && MatchThreadInfo(line).None? && MatchQueryStats(line).Some?
    ensures Classify(line).RowStats? <==>
      MatchTime(line).None? && MatchUserHost(line).None? && MatchThreadInfo(line).None? && MatchQueryStats(line).None?
      && MatchRowStats(line).Some?
  {
    if IsHeader(line) {
      HeadersStartWithHash(line);
    }
  }

  /** A line that starts with the thread marker is neither a time line nor a user line. */
  lemma NeitherTimeNorUserHost(line: string)
    requires StartsWith(line, ThreadMarker)
    ensures MatchTime(line).None? && MatchUserHost(line).None?
  {
    assert line[..|ThreadMarker|][3] == line[3] == 'h';
    assert line[..|ThreadMarker|][2] == line[2] == 'T';
    assert line[..|TimeMarker|][3] != TimeMarker[3];
    assert line[..|UserHostMarker|][2] != UserHostMarker[2];
  }

  /** A text without `Q` holds no `QC_hit: ` marker before its end. */
  lemma NoQcHitWithoutQ(text: string, qcHit: string)
    requires forall i :: 0 <= i < |text| ==> text[i] != 'Q'
    ensures forall m :: 1 <= m < |text| ==> !MarkerAt(text + ("QC_hit: " + qcHit), "QC_hit: ", m)
  {
    var tail := text + ("QC_hit: " + qcHit);
    forall m | 1 <= m < |text| ensures !MarkerAt(tail, "QC_hit: ", m) {
      assert tail[m..m + 8][0] == tail[m] == text[m];
    }
  }

  /** The metadata line of a typical log entry, cut into the pieces of its pattern. */
  lemma ThreadInfoExampleShape(line: string)
    requires line == "# Thread_id: 5  Schema: test  QC_hit: No"
    ensures ThreadInfoLine(line, "5", "  ", "test  ", "No")
  {
    assert line == ThreadMarker + ("5" + ("  " + ("Schema: " + ("test  " + ("QC_hit: " + "No")))));
    NoQcHitWithoutQ("test  ", "No");
  }

  /** The captures that line yields. */
  lemma ThreadInfoExampleMatch(line: string)
    requires line == "# Thread_id: 5  Schema: test  QC_hit: No"
    ensures MatchThreadInfo(line) == Some(ThreadInfo("5", "test", "No"))
    ensures StartsWith(line, ThreadMarker)
  {
    ThreadInfoExampleShape(line);
    MatchThreadInfoComplete(line, "5", "  ", "test  ", "No");
    TrimEndSpaces("test", "  ");
    assert "test" + "  " == "test  ";
  }

  /** The same line, classified: no earlier pattern claims it. */
  lemma ThreadInfoExample(line: string)
    requires line == "# Thread_id: 5  Schema: test  QC_hit: No"
    ensures Classify(line) == ThreadInfo("5", "test", "No")
  {
    ThreadInfoExampleMatch(line);
    NeitherTimeNorUserHost(line);
  }

  /** The user line of a typical log entry, cut into the pieces of its pattern. */
  lemma UserHostExampleShape(line: string, user: string, host: string)
    requires line == "# User@Host: root[root] @ localhost []"
    requires user == "root[root]" && host == "localhost []"
    ensures UserHostLine(line, user, " ", host)
  {
    assert line == UserHostMarker + (user + (" @" + (" " + host)));
    forall j | 0 <= j < |user| ensures !OccursAt(user, " @", j) {
      if j + 2 <= |user| {
        assert user[j..j + 2][0] == user[j];
      }
    }
  }

  /** The captures that line yields: the lazy user stops at the first ` @`, the host follows the space. */
  lemma UserHostExampleMatch(line: string, user: string, host: string)
    requires line == "# User@Host: root[root] @ localhost []"
    requires user == "root[root]" && host == "localhost []"
    ensures MatchUserHost(line).Some? && MatchUserHost(line).value == UserHost(user, host)
    ensures !StartsWith(line, TimeMarker)
  {
    UserHostExampleShape(line, user, host);
    MatchUserHostComplete(line, user, " ", host);
    assert line[2] != TimeMarker[2];
  }

  /** A `User@Host` match on a line that is not a `# Time:` line decides its kind. */
  lemma ClassifyUserHost(line: string)
    requires !StartsWith(line, TimeMarker) && MatchUserHost(line).Some?
    ensures Classify(line) == MatchUserHost(line).value
  {
  }

  /** That line, classified. */
  lemma UserHostExample(line: string)
    requires line == "# User@Host: root[root] @ localhost []"
    ensures Classify(line).UserHost?
    ensures Classify(line).user == "root[root]" && Classify(line).host == "localhost []"
  {
    UserHostExampleMatch(line, "root[root]", "localhost []");
    ClassifyUserHost(line);
  }

  /** A query line of that entry is kept whole as body text. */
  lemma BodyExample(line: string)
    requires line == "SELECT 1;"
    ensures Classify(line) == Body(line)
  {
    assert line[0] == 'S';
    ClassifyBody(line);
  }
}
