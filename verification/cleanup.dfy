/**
 * The query clean-up and row mapping of `write_to_csv` (src/main.rs:63-132):
 * the first `SET timestamp=<digits>;` and `use <ident>;` directives are moved
 * to their own columns and the rest of the query is flattened to one line.
 */
module Cleanup {
  import opened Options
  import opened Text
  import opened Entries

  /** The two directive patterns of src/main.rs:36-39. */
  datatype Directive = SetTimestamp | UseSchema

  /** The bounds of a match: `s[start..end]`. */
  datatype Span = Span(start: nat, end: nat)

  /**
   * Case-insensitive comparison under the `(?i)` flag of a subject character with a
   * lower-case pattern character: ASCII letters fold, and `s` also matches U+017F.
   */
  predicate FoldsTo(c: char, p: char) {
    c == p || ('a' <= p <= 'z' && c as int == p as int - 32) || (p == 's' && c as int == 0x17F)
  }

  predicate StartsWithFolded(s: string, lit: string) {
    |lit| <= |s| && forall i :: 0 <= i < |lit| ==> FoldsTo(s[i], lit[i])
  }

  function Keyword(d: Directive): (k: string)
    ensures |k| >= 4 && (k[0] == 's' || k[0] == 'u')
  {
    match d
    case SetTimestamp => "set timestamp="
    case UseSchema => "use "
  }

  /**
   * Length of the directive proper at the start of `s`, without the whitespace
   * around it: `SET timestamp=\d+;` or `` use `?\w+`?; ``.
   */
  function CoreLength(d: Directive, s: string): (r: Option<nat>)
    ensures r.Some? ==> |Keyword(d)| < r.value <= |s| && StartsWithFolded(s, Keyword(d)) && s[r.value - 1] == ';'
    ensures r.Some? && d == SetTimestamp ==> r.value >= 16 && AllDigits(s[14..r.value - 1])
  {
    match d
    case SetTimestamp =>
      if !StartsWithFolded(s, "set timestamp=") then None
      else
        var n := SpanOf(s[14..], Digits);
        if n > 0 && 14 + n < |s| && s[14 + n] == ';' then
          assert s[14..15 + n - 1] == s[14..][..n];
          Some(15 + n)
        else None
    case UseSchema =>
      if !StartsWithFolded(s, "use ") then None
      else
        // An opening backtick is taken when present, the identifier is a maximal run
        // of word characters, and a closing backtick is taken only right before `;`.
        var k := if 4 < |s| && s[4] == '`' then 5 else 4;
        var w := SpanOf(s[k..], WordChars);
        var e := k + w;
        if w == 0 then None
        else if e < |s| && s[e] == ';' then Some(e + 1)
        else if e + 1 < |s| && s[e] == '`' && s[e + 1] == ';' then Some(e + 2)
        else None
  }

  /** The end of the whitespace run `\s*` starting at `p`. */
  function SkipSpaces(s: string, p: nat): (q: nat)
    requires p <= |s|
    ensures p <= q <= |s| && AllSpace(s[p..q])
  {
    p + SpanOf(s[p..], Spaces)
  }

  /** End of the match of `\s*<directive>\s*` tried at position `p`, if the pattern matches there. */
  function MatchEnd(d: Directive, s: string, p: nat): (r: Option<nat>)
    requires p <= |s|
    ensures r.Some? ==> p < r.value <= |s|
  {
    var q := SkipSpaces(s, p);
    match CoreLength(d, s[q..])
    case None => None
    case Some(c) => Some(SkipSpaces(s, q + c))
  }

  /** Leftmost match at or after `p` (`Regex::find`). */
  function FindFrom(d: Directive, s: string, p: nat): (r: Option<Span>)
    requires p <= |s|
    ensures r.Some? ==> p <= r.value.start <= |s| && MatchEnd(d, s, r.value.start) == Some(r.value.end)
    decreases |s| - p
  {
    var here := MatchEnd(d, s, p);
    if here.Some? then Some(Span(p, here.value))
    else if p == |s| then None
    else FindFrom(d, s, p + 1)
  }

  function Find(d: Directive, s: string): Option<Span> {
    FindFrom(d, s, 0)
  }

  /** No match starts before the one `FindFrom` reports, nor anywhere when it reports none. */
  lemma {:induction false} FindFromLeftmost(d: Directive, s: string, p: nat, j: nat)
    requires p <= j <= |s|
    requires FindFrom(d, s, p).None? || j < FindFrom(d, s, p).value.start
    ensures MatchEnd(d, s, j).None?
    decreases j - p
  {
    if j > p {
      FindFromLeftmost(d, s, p + 1, j);
    }
  }

  /** The directive column: the trimmed leftmost match, or empty when there is none. */
  function DirectiveText(d: Directive, s: string): string {
    match Find(d, s)
    case None => ""
    case Some(m) => Trim(s[m.start..m.end])
  }

  /** `s` with its leftmost match cut out, or `s` itself when there is none. */
  function RemoveFirst(d: Directive, s: string): string {
    match Find(d, s)
    case None => s
    case Some(m) => s[..m.start] + s[m.end..]
  }

  /**
   * What a directive column holds when its pattern matched: the keyword in any case,
   * the argument and the closing `;`, with no whitespace at either end; for
   * `SET timestamp=` the argument is a non-empty run of digits.
   */
  predicate DirectiveShape(d: Directive, t: string) {
    && t != [] && Tight(t) && t[|t| - 1] == ';'
    && StartsWithFolded(t, Keyword(d))
    && (d == SetTimestamp ==> |t| >= 16 && AllDigits(t[14..|t| - 1]))
  }

  /** The directive column is empty iff the pattern does not match, and otherwise has the directive's shape. */
  lemma DirectiveTextShape(d: Directive, s: string)
    ensures DirectiveText(d, s) == [] <==> Find(d, s).None?
    ensures Find(d, s).Some? ==> DirectiveShape(d, DirectiveText(d, s))
  {
    if Find(d, s).Some? {
      var m := Find(d, s).value;
      MatchShape(d, s, m.start, m.end);
    }
  }

  /** The trimmed text of a match is the directive proper. */
  lemma MatchShape(d: Directive, s: string, p: nat, e: nat)
    requires p <= |s| && MatchEnd(d, s, p) == Some(e)
    ensures p <= e <= |s| && DirectiveShape(d, Trim(s[p..e]))
  {
    var q, c := MatchSplit(d, s, p, e);
    CoreShape(d, s[q..], c);
    TrimSlice(d, s, p, q, c, e);
  }

  /** A match is leading whitespace `s[p..q]`, the directive proper `s[q..q + c]` and trailing whitespace. */
  lemma MatchSplit(d: Directive, s: string, p: nat, e: nat) returns (q: nat, c: nat)
    requires p <= |s| && MatchEnd(d, s, p) == Some(e)
    ensures p <= q && q + c <= e <= |s| && CoreLength(d, s[q..]) == Some(c)
    ensures AllSpace(s[p..q]) && AllSpace(s[q + c..e])
  {
    q := SkipSpaces(s, p);
    c := CoreLength(d, s[q..]).value;
  }

  lemma TrimSlice(d: Directive, s: string, p: nat, q: nat, c: nat, e: nat)
    requires p <= q && q + c <= e <= |s|
    requires AllSpace(s[p..q]) && AllSpace(s[q + c..e]) && DirectiveShape(d, s[q..][..c])
    ensures DirectiveShape(d, Trim(s[p..e]))
  {
    PrefixOfSuffix(s, q, c);
    ShapeOfEqual(d, s[q..][..c], s[q..q + c]);
    TrimSliceAround(s, p, q, q + c, e);
    ShapeOfEqual(d, s[q..q + c], Trim(s[p..e]));
  }

  lemma ShapeOfEqual(d: Directive, x: string, y: string)
    requires x == y && DirectiveShape(d, x)
    ensures DirectiveShape(d, y)
  {
  }

  /** The directive proper at the start of `s` has the directive's shape. */
  lemma CoreShape(d: Directive, s: string, c: nat)
    requires CoreLength(d, s) == Some(c)
    ensures DirectiveShape(d, s[..c])
  {
    FoldedPrefixOfPrefix(s, Keyword(d), c);
    if d == SetTimestamp {
      assert s[..c][14..c - 1] == s[14..c - 1];
    }
  }

  lemma FoldedPrefixOfPrefix(s: string, lit: string, n: nat)
    requires StartsWithFolded(s, lit) && |lit| <= n <= |s|
    ensures StartsWithFolded(s[..n], lit)
  {
    assert forall i :: 0 <= i < |lit| ==> s[..n][i] == s[i];
  }

  // ---------------------------------------------------------------- which texts match

  /** `SET timestamp=\d+;` takes `c` characters of `s` exactly when they are the keyword, digits and `;`. */
  lemma CoreLengthSetIff(s: string, c: nat)
    ensures CoreLength(SetTimestamp, s) == Some(c) <==>
      StartsWithFolded(s, "set timestamp=") && 16 <= c <= |s| && IsRun(s[14..c - 1], Digits) && s[c - 1] == ';'
  {
    if CoreLength(SetTimestamp, s) == Some(c) {
      assert AllDigits(s[14..c - 1]);
    }
    if StartsWithFolded(s, "set timestamp=") && 16 <= c <= |s| && IsRun(s[14..c - 1], Digits) && s[c - 1] == ';' {
      CoreLengthSetComplete(s, c);
    }
  }

  lemma CoreLengthSetComplete(s: string, c: nat)
    requires StartsWithFolded(s, "set timestamp=") && 16 <= c <= |s| && IsRun(s[14..c - 1], Digits) && s[c - 1] == ';'
    ensures CoreLength(SetTimestamp, s) == Some(c)
  {
    forall i | 0 <= i < c - 15 ensures InClass(s[14..][i], Digits) {
      assert s[14..][i] == s[14..c - 1][i];
    }
    assert s[14..][c - 15] == ';';
    SpanOfRun(s[14..], c - 15, Digits);
  }

  /** `` `?\w+`? ``: an optional backtick, a non-empty run of word characters and an optional backtick. */
  function Backticked(open: bool, w: string, close: bool): string {
    (if open then "`" else "") + (w + (if close then "`" else ""))
  }

  ghost predicate UseArgument(a: string) {
    exists open: bool, w: string, close: bool :: IsRun(w, WordChars) && a == Backticked(open, w, close)
  }

  /** `` use `?\w+`?; `` takes `c` characters of `s` exactly when they are the keyword, an argument and `;`. */
  lemma CoreLengthUseIff(s: string, c: nat)
    ensures CoreLength(UseSchema, s) == Some(c) <==>
      StartsWithFolded(s, "use ") && 6 <= c <= |s| && s[c - 1] == ';' && UseArgument(s[4..c - 1])
  {
    if CoreLength(UseSchema, s) == Some(c) {
      var open, w, close := CoreLengthUseSound(s, c);
      assert IsRun(w, WordChars) && s[4..c - 1] == Backticked(open, w, close);
    }
    if StartsWithFolded(s, "use ") && 6 <= c <= |s| && s[c - 1] == ';' && UseArgument(s[4..c - 1]) {
      var open: bool, w: string, close: bool :| IsRun(w, WordChars) && s[4..c - 1] == Backticked(open, w, close);
      CoreLengthUseComplete(s, c, open, w, close);
    }
  }

  lemma CoreLengthUseSound(s: string, c: nat) returns (open: bool, w: string, close: bool)
    requires CoreLength(UseSchema, s) == Some(c)
    ensures 6 <= c <= |s| && IsRun(w, WordChars) && s[4..c - 1] == Backticked(open, w, close)
  {
    var k, e := UseCoreParts(s, c);
    open, w, close := ArgumentOfParts(s, c, k, e);
  }

  /** An optional backtick at 4, word characters up to `e` and an optional backtick before `c - 1`, read as an argument. */
  lemma ArgumentOfParts(s: string, c: nat, k: nat, e: nat) returns (open: bool, w: string, close: bool)
    requires k < e && c <= |s| && (c == e + 1 || (c == e + 2 && s[e] == '`'))
    requires (k == 5 && s[4] == '`') || k == 4
    requires forall i :: k <= i < e ==> InClass(s[i], WordChars)
    ensures IsRun(w, WordChars) && s[4..c - 1] == Backticked(open, w, close)
  {
    open := k == 5;
    close := c == e + 2;
    w := s[k..e];
    forall i | 0 <= i < |w| ensures InClass(w[i], WordChars) {
      assert w[i] == s[k + i];
    }
    var head := s[4..k];
    var last := s[e..c - 1];
    if open {
      assert head == [s[4]];
    } else {
      assert head == [];
    }
    if close {
      assert last == [s[e]];
    } else {
      assert last == [];
    }
    assert s[k..c - 1] == w + last;
    assert s[4..c - 1] == head + s[k..c - 1];
  }

  /** Where `CoreLength` found the opening backtick, the end of the word and the closing `;`. */
  lemma UseCoreParts(s: string, c: nat) returns (k: nat, e: nat)
    requires CoreLength(UseSchema, s) == Some(c)
    ensures k == (if 4 < |s| && s[4] == '`' then 5 else 4) && k < e < |s|
    ensures forall i :: k <= i < e ==> InClass(s[i], WordChars)
    ensures (c == e + 1 && s[e] == ';') || (c == e + 2 && s[e] == '`' && s[e + 1] == ';')
  {
    k := if 4 < |s| && s[4] == '`' then 5 else 4;
    e := k + SpanOf(s[k..], WordChars);
    forall i | k <= i < e ensures InClass(s[i], WordChars) {
      assert s[i] == s[k..][i - k];
    }
  }

  lemma CoreLengthUseComplete(s: string, c: nat, open: bool, w: string, close: bool)
    requires StartsWithFolded(s, "use ") && 5 <= c <= |s| && s[c - 1] == ';'
    requires IsRun(w, WordChars) && s[4..c - 1] == Backticked(open, w, close)
    ensures CoreLength(UseSchema, s) == Some(c)
  {
    UseArgumentAt(s, c, open, w, close);
  }

  /** The pieces of an argument at their places in `s`: the backtick test, the word's span and the character after it. */
  lemma UseArgumentAt(s: string, c: nat, open: bool, w: string, close: bool)
    requires 5 <= c <= |s| && s[c - 1] == ';'
    requires IsRun(w, WordChars) && s[4..c - 1] == Backticked(open, w, close)
    ensures var k := if open then 5 else 4; var e := k + |w|;
      && (4 < |s| && s[4] == '`' <==> open)
      && SpanOf(s[k..], WordChars) == |w|
      && c == e + (if close then 2 else 1)
      && (close ==> s[e] == '`')
  {
    var k := if open then 5 else 4;
    var e := k + |w|;
    BacktickedAt(open, w, close);
    assert s[4] == s[4..c - 1][0];
    forall i | 0 <= i < |w| ensures InClass(s[k..][i], WordChars) {
      assert s[k..][i] == s[4..c - 1][k - 4 + i];
    }
    assert s[k..][|w|] == s[e];
    if close {
      assert s[e] == s[4..c - 1][e - 4];
    }
    SpanOfRun(s[k..], |w|, WordChars);
  }

  /** Where the backticks and the word sit in an argument. */
  lemma BacktickedAt(open: bool, w: string, close: bool)
    requires w != []
    ensures var a := Backticked(open, w, close); var k := if open then 1 else 0;
      && |a| == k + |w| + (if close then 1 else 0)
      && a[0] == (if open then '`' else w[0])
      && (forall i :: 0 <= i < |w| ==> a[k + i] == w[i])
      && (close ==> a[k + |w|] == '`')
  {
  }

  /** A directive proper is recognised whatever follows it. */
  lemma CoreLengthExtend(d: Directive, t: string, rest: string)
    requires CoreLength(d, t) == Some(|t|)
    ensures CoreLength(d, t + rest) == Some(|t|)
  {
    var s := t + rest;
    var c := |t|;
    FoldedOfPrefix(t, rest, Keyword(d));
    assert s[c - 1] == t[c - 1];
    if d == SetTimestamp {
      CoreLengthSetIff(t, c);
      assert s[14..c - 1] == t[14..c - 1];
      CoreLengthSetIff(s, c);
    } else {
      CoreLengthUseIff(t, c);
      assert s[4..c - 1] == t[4..c - 1];
      CoreLengthUseIff(s, c);
    }
  }

  lemma FoldedOfPrefix(t: string, rest: string, lit: string)
    requires StartsWithFolded(t, lit)
    ensures StartsWithFolded(t + rest, lit)
  {
    assert forall i :: 0 <= i < |lit| ==> (t + rest)[i] == t[i];
  }


  /** A match whose leading whitespace ends at `q`, whose directive proper is `c` long and whose trailing whitespace ends at `e`. */
  lemma MatchEndAt(d: Directive, s: string, p: nat, q: nat, c: nat, e: nat)
    requires p <= q <= |s| && AllSpace(s[p..q]) && (q == |s| || !IsSpace(s[q]))
    requires CoreLength(d, s[q..]) == Some(c)
    requires q + c <= e <= |s| && AllSpace(s[q + c..e]) && (e == |s| || !IsSpace(s[e]))
    ensures MatchEnd(d, s, p).Some? && MatchEnd(d, s, p).value == e
  {
    SkipSpacesTo(s, p, q);
    SkipSpacesTo(s, q + c, e);
    MatchEndOf(d, s, p, q, c, e);
  }

  lemma MatchEndOf(d: Directive, s: string, p: nat, q: nat, c: nat, e: nat)
    requires p <= q <= |s| && SkipSpaces(s, p) == q
    requires CoreLength(d, s[q..]) == Some(c)
    requires q + c <= e <= |s| && SkipSpaces(s, q + c) == e
    ensures MatchEnd(d, s, p).Some? && MatchEnd(d, s, p).value == e
  {
  }

  /** `\s*` from `p` stops at the first non-blank position. */
  lemma SkipSpacesTo(s: string, p: nat, q: nat)
    requires p <= q <= |s| && AllSpace(s[p..q]) && (q == |s| || !IsSpace(s[q]))
    ensures SkipSpaces(s, p) == q
  {
    forall i | 0 <= i < q - p ensures InClass(s[p..][i], Spaces) {
      assert s[p..][i] == s[p..q][i];
    }
    if q < |s| {
      assert s[p..][q - p] == s[q];
    }
    SpanOfRun(s[p..], q - p, Spaces);
  }

  /** A match at `p` with none between `from` and `p` is the one `FindFrom` reports (`Regex::find` is leftmost). */
  lemma {:induction false} FindFromFirst(d: Directive, s: string, from: nat, p: nat)
    requires from <= p <= |s| && MatchEnd(d, s, p).Some?
    requires forall j :: from <= j < p ==> MatchEnd(d, s, j).None?
    ensures FindFrom(d, s, from).Some? && FindFrom(d, s, from).value == Span(p, MatchEnd(d, s, p).value)
    decreases p - from
  {
    if from < p {
      assert MatchEnd(d, s, from).None?;
      FindFromFirst(d, s, from + 1, p);
      assert FindFrom(d, s, from) == FindFrom(d, s, from + 1);
    }
  }

  /**
   * A query that opens with a directive: its column is that directive and removing it
   * leaves what follows the whitespace after it.
   */
  lemma DirectiveAtStart(d: Directive, s: string, core: string, gap: string, rest: string)
    requires CoreLength(d, core) == Some(|core|) && AllSpace(gap) && (rest == [] || !IsSpace(rest[0]))
    requires s == core + (gap + rest)
    ensures Find(d, s).Some? && Find(d, s).value == Span(0, |core| + |gap|)
    ensures DirectiveText(d, s) == core
    ensures RemoveFirst(d, s) == rest
  {
    MatchAtStart(d, core, gap, rest);
    MatchedAtStart(d, s, core, gap, rest);
  }

  /** The same, from the match the directive's pattern makes at the start. */
  lemma MatchedAtStart(d: Directive, s: string, core: string, gap: string, rest: string)
    requires core != [] && Tight(core) && AllSpace(gap) && s == core + (gap + rest)
    requires MatchEnd(d, s, 0).Some? && MatchEnd(d, s, 0).value == |core| + |gap|
    ensures Find(d, s).Some? && Find(d, s).value == Span(0, |core| + |gap|)
    ensures DirectiveText(d, s) == core
    ensures RemoveFirst(d, s) == rest
  {
    var m := Span(0, |core| + |gap|);
    FindFromFirst(d, s, 0, 0);
    CutMatch(d, s, m);
    CutAtStart(core, gap, rest);
  }

  /** The column and the remainder of a query whose leftmost match is `m`. */
  lemma CutMatch(d: Directive, s: string, m: Span)
    requires Find(d, s).Some? && Find(d, s).value == m
    ensures m.start <= m.end <= |s|
    ensures DirectiveText(d, s) == Trim(s[m.start..m.end])
    ensures RemoveFirst(d, s) == s[..m.start] + s[m.end..]
  {
  }

  /** A tight text, whitespace and a rest: trimming the first two gives the text, cutting them gives the rest. */
  lemma CutAtStart(core: string, gap: string, rest: string)
    requires core != [] && Tight(core) && AllSpace(gap)
    ensures Trim((core + (gap + rest))[0..|core| + |gap|]) == core
    ensures (core + (gap + rest))[..0] + (core + (gap + rest))[|core| + |gap|..] == rest
  {
    var s := core + (gap + rest);
    var c := |core|;
    var e := c + |gap|;
    assert s[0..c] == core && s[c..e] == gap && s[0..0] == [];
    TrimSliceAround(s, 0, 0, c, e);
    assert s[..0] + s[e..] == rest;
  }

  lemma MatchAtStart(d: Directive, core: string, gap: string, rest: string)
    requires CoreLength(d, core) == Some(|core|) && AllSpace(gap) && (rest == [] || !IsSpace(rest[0]))
    ensures core != [] && Tight(core)
    ensures MatchEnd(d, core + (gap + rest), 0).Some? && MatchEnd(d, core + (gap + rest), 0).value == |core| + |gap|
  {
    var s := core + (gap + rest);
    CoreShape(d, core, |core|);
    assert core[..|core|] == core;
    CoreLengthExtend(d, core, gap + rest);
    assert s[0..] == s;
    SpacesAroundCore(s, core, gap, rest);
    MatchEndOf(d, s, 0, 0, |core|, |core| + |gap|);
  }

  /** Where `\s*` stops before and after a tight text followed by whitespace. */
  lemma SpacesAroundCore(s: string, core: string, gap: string, rest: string)
    requires core != [] && Tight(core) && AllSpace(gap) && (rest == [] || !IsSpace(rest[0]))
    requires s == core + (gap + rest)
    ensures SkipSpaces(s, 0) == 0 && SkipSpaces(s, |core|) == |core| + |gap|
  {
    var c := |core|;
    var e := c + |gap|;
    assert s[0..0] == [] && s[0] == core[0];
    SkipSpacesTo(s, 0, 0);
    assert s[c..e] == gap;
    if e < |s| {
      assert s[e] == rest[0];
    }
    SkipSpacesTo(s, c, e);
  }

  /** With no `u` or `U` up to a non-blank position `n`, no `use` directive matches at or before `n`. */
  lemma NoUseUpTo(s: string, n: nat)
    requires n < |s| && !IsSpace(s[n])
    requires forall i :: 0 <= i <= n ==> s[i] != 'u' && s[i] != 'U'
    ensures forall p :: 0 <= p <= n ==> MatchEnd(UseSchema, s, p).None?
  {
    forall p | 0 <= p <= n ensures MatchEnd(UseSchema, s, p).None? {
      assert s[p..][n - p] == s[n];
      var q := SkipSpaces(s, p);
      assert s[q..][0] == s[q];
    }
  }

  /**
   * `replace` removes the leftmost match only: the span cut out is a match, no match
   * starts before it, and the text shrinks; a text the pattern matches nowhere passes
   * through unchanged.
   */
  lemma RemoveFirstCutsLeftmostMatch(d: Directive, s: string)
    ensures Find(d, s).None? <==> forall j :: 0 <= j <= |s| ==> MatchEnd(d, s, j).None?
    ensures Find(d, s).None? ==> RemoveFirst(d, s) == s
    ensures Find(d, s).Some? ==>
      var m := Find(d, s).value;
      && MatchEnd(d, s, m.start) == Some(m.end)
      && (forall j :: 0 <= j < m.start ==> MatchEnd(d, s, j).None?)
      && RemoveFirst(d, s) == s[..m.start] + s[m.end..]
      && |RemoveFirst(d, s)| < |s|
  {
    forall j | 0 <= j <= |s| && (Find(d, s).None? || j < Find(d, s).value.start)
      ensures MatchEnd(d, s, j).None?
    {
      FindFromLeftmost(d, s, 0, j);
    }
    if forall j :: 0 <= j <= |s| ==> MatchEnd(d, s, j).None? {
      FindFromNone(d, s, 0);
    }
  }

  // ---------------------------------------------------------------- one line

  /** Each line trimmed, blank lines dropped. */
  function NonBlankTrimmed(lines: seq<string>): seq<string>
  {
    if lines == [] then []
    else
      var t := Trim(lines[|lines| - 1]);
      NonBlankTrimmed(lines[..|lines| - 1]) + (if t == [] then [] else [t])
  }

  /** The query flattened to one line: trimmed non-blank lines joined by single spaces. */
  function Normalize(text: string): string {
    JoinWith(NonBlankTrimmed(Lines(text)), ' ')
  }

  /** Pieces that are non-empty and have no whitespace at either end. */
  predicate TightPieces(pieces: seq<string>) {
    forall i :: 0 <= i < |pieces| ==> pieces[i] != [] && Tight(pieces[i])
  }

  /** Every kept line is non-empty and trimmed. */
  lemma {:induction false} NonBlankTrimmedTight(lines: seq<string>)
    ensures TightPieces(NonBlankTrimmed(lines))
  {
    if lines != [] {
      NonBlankTrimmedTight(lines[..|lines| - 1]);
    }
  }

  lemma {:induction false} NonBlankTrimmedOneLine(lines: seq<string>)
    requires NoLineBreaks(lines)
    ensures NoLineBreaks(NonBlankTrimmed(lines))
  {
    if lines != [] {
      NonBlankTrimmedOneLine(lines[..|lines| - 1]);
      TrimOneLine(lines[|lines| - 1]);
    }
  }

  lemma {:induction false} JoinTight(pieces: seq<string>)
    requires TightPieces(pieces)
    ensures Tight(JoinWith(pieces, ' '))
    ensures JoinWith(pieces, ' ') == [] <==> pieces == []
  {
    if |pieces| > 1 {
      JoinTight(pieces[..|pieces| - 1]);
    }
  }

  lemma {:induction false} JoinOneLine(pieces: seq<string>)
    requires NoLineBreaks(pieces)
    ensures '\n' !in JoinWith(pieces, ' ')
  {
    if |pieces| > 1 {
      JoinOneLine(pieces[..|pieces| - 1]);
    }
  }

  /** The flattened query has no line break and no whitespace at either end. */
  lemma NormalizeShape(text: string)
    ensures '\n' !in Normalize(text)
    ensures Tight(Normalize(text))
  {
    LinesHaveNoBreaks(text);
    NonBlankTrimmedOneLine(Lines(text));
    JoinOneLine(NonBlankTrimmed(Lines(text)));
    NonBlankTrimmedTight(Lines(text));
    JoinTight(NonBlankTrimmed(Lines(text)));
  }

  /** Every line is blank. */
  predicate AllBlank(lines: seq<string>) {
    forall i :: 0 <= i < |lines| ==> AllSpace(lines[i])
  }

  lemma {:induction false} NonBlankTrimmedEmpty(lines: seq<string>)
    ensures NonBlankTrimmed(lines) == [] <==> AllBlank(lines)
  {
    if lines != [] {
      TrimEmpty(lines[|lines| - 1]);
      NonBlankTrimmedEmpty(lines[..|lines| - 1]);
      assert forall i :: 0 <= i < |lines| - 1 ==> lines[..|lines| - 1][i] == lines[i];
    }
  }

  /** The flattened query is empty iff every line of the text is blank. */
  lemma NormalizeEmpty(text: string)
    ensures Normalize(text) == [] <==> AllBlank(Lines(text))
  {
    var pieces := NonBlankTrimmed(Lines(text));
    NonBlankTrimmedTight(Lines(text));
    JoinTight(pieces);
    NonBlankTrimmedEmpty(Lines(text));
    assert Normalize(text) == JoinWith(pieces, ' ');
  }

  /** Flattening an already flattened query returns it unchanged. */
  lemma NormalizeIdempotent(text: string)
    ensures Normalize(Normalize(text)) == Normalize(text)
  {
    NormalizeShape(text);
    NormalizeOneLine(Normalize(text));
  }

  /** Flattening loses no word: only whitespace is dropped or replaced by single spaces. */
  lemma NormalizeKeepsWords(text: string)
    ensures Words(Normalize(text)) == Words(text)
  {
    WordsOfJoinWith(NonBlankTrimmed(Lines(text)), ' ');
    WordsOfNonBlankTrimmed(Lines(text));
    WordsOfLines(text);
  }

  /** Trimming the lines and dropping blank ones keeps every word, in order. */
  lemma {:induction false} WordsOfNonBlankTrimmed(lines: seq<string>)
    ensures WordsOfAll(NonBlankTrimmed(lines)) == WordsOfAll(lines)
    decreases |lines|
  {
    if lines != [] {
      var init := lines[..|lines| - 1];
      var last := lines[|lines| - 1];
      var t := Trim(last);
      var kept := NonBlankTrimmed(init);
      WordsOfNonBlankTrimmed(init);
      WordsOfTrim(last);
      if t == [] {
        assert kept + [] == kept;
      } else {
        assert (kept + [t])[..|kept|] == kept;
      }
    }
  }

  /** A line with no line break and no whitespace at either end is already flat. */
  lemma NormalizeOneLine(t: string)
    requires '\n' !in t && Tight(t)
    ensures Normalize(t) == t
  {
    LinesOfOneLine(t);
    TrimTight(t);
    assert [t][..0] == [];
    assert NonBlankTrimmed([t]) == if t == [] then [] else [t];
  }

  /** One more line: a blank one changes nothing, another one is joined on with a space unless it is the first. */
  lemma FlattenStep(lines: seq<string>, i: nat)
    requires i < |lines|
    ensures Trim(lines[i]) == [] ==>
      && JoinWith(NonBlankTrimmed(lines[..i + 1]), ' ') == JoinWith(NonBlankTrimmed(lines[..i]), ' ')
      && |NonBlankTrimmed(lines[..i + 1])| == |NonBlankTrimmed(lines[..i])|
    ensures Trim(lines[i]) != [] ==>
      && |NonBlankTrimmed(lines[..i + 1])| > 0
      && JoinWith(NonBlankTrimmed(lines[..i + 1]), ' ') ==
        (if |NonBlankTrimmed(lines[..i])| == 0 then "" else JoinWith(NonBlankTrimmed(lines[..i]), ' ') + " ") + Trim(lines[i])
  {
    assert lines[..i + 1][..i] == lines[..i];
    var done := NonBlankTrimmed(lines[..i]);
    var t := Trim(lines[i]);
    assert NonBlankTrimmed(lines[..i + 1]) == done + (if t == [] then [] else [t]);
    if t != [] {
      JoinSnoc(done, t, ' ');
      if done == [] {
        assert "" + t == t;
      }
    } else {
      assert done + [] == done;
    }
  }

  /** The loop of src/main.rs:100-110 with its `first` flag. */
  method Flatten(text: string) returns (single: string)
    ensures single == Normalize(text)
  {
    var lines := Lines(text);
    single := "";
    var first := true;
    for i := 0 to |lines|
      invariant single == JoinWith(NonBlankTrimmed(lines[..i]), ' ')
      invariant first <==> |NonBlankTrimmed(lines[..i])| == 0
    {
      var trimmed := Trim(lines[i]);
      FlattenStep(lines, i);
      if trimmed != [] {
        if !first {
          single := single + " ";
        }
        single := single + trimmed;
        first := false;
      }
    }
    assert lines[..|lines|] == lines;
  }

  /** The query column: first SET timestamp, then first USE removed, the rest flattened. */
  function CleanedQuery(query: string): string {
    Normalize(RemoveFirst(UseSchema, RemoveFirst(SetTimestamp, query)))
  }

  /**
   * Steps 1-3 of `write_to_csv`. Both directive columns are looked up in the
   * original query; the USE removal is looked up in the text left after the SET removal.
   */
  method CleanQuery(query: string) returns (setTimestamp: string, useSchema: string, single: string)
    ensures setTimestamp == DirectiveText(SetTimestamp, query)
    ensures useSchema == DirectiveText(UseSchema, query)
    ensures single == CleanedQuery(query)
    ensures '\n' !in single && Tight(single)
  {
    setTimestamp := DirectiveText(SetTimestamp, query);
    useSchema := DirectiveText(UseSchema, query);
    var remaining := query;
    match Find(SetTimestamp, remaining) {
      case Some(m) => remaining := remaining[..m.start] + remaining[m.end..];
      case None =>
    }
    match Find(UseSchema, remaining) {
      case Some(m) => remaining := remaining[..m.start] + remaining[m.end..];
      case None =>
    }
    single := Flatten(remaining);
    NormalizeShape(remaining);
  }

  // ---------------------------------------------------------------- a query opening with both directives

  /**
   * A query made of a SET timestamp directive, whitespace, a USE directive, whitespace and a
   * statement: the two directive columns are the two directives and the query column is the
   * statement flattened.
   */
  lemma DirectivesThenStatement(q: string, setCore: string, gap1: string, useCore: string, gap2: string, stmt: string)
    requires CoreLength(SetTimestamp, setCore) == Some(|setCore|) && CoreLength(UseSchema, useCore) == Some(|useCore|)
    requires AllSpace(gap1) && AllSpace(gap2) && (stmt == [] || !IsSpace(stmt[0]))
    requires q == setCore + (gap1 + (useCore + (gap2 + stmt)))
    ensures DirectiveText(SetTimestamp, q) == setCore
    ensures DirectiveText(UseSchema, q) == useCore
    ensures CleanedQuery(q) == Normalize(stmt)
  {
    var r := useCore + (gap2 + stmt);
    CoreIsTight(UseSchema, useCore);
    assert r[0] == useCore[0];
    DirectiveAtStart(SetTimestamp, q, setCore, gap1, r);
    DirectiveAtStart(UseSchema, r, useCore, gap2, stmt);
    UseAfterSet(q, setCore, gap1, useCore, gap2, stmt);
  }

  /** A whole directive is non-empty and has no whitespace at either end. */
  lemma CoreIsTight(d: Directive, t: string)
    requires CoreLength(d, t) == Some(|t|)
    ensures t != [] && Tight(t)
  {
    CoreShape(d, t, |t|);
    assert t[..|t|] == t;
  }

  /** In such a query the USE column is the USE directive, found in the original query past the SET one. */
  lemma UseAfterSet(q: string, setCore: string, gap1: string, useCore: string, gap2: string, stmt: string)
    requires CoreLength(SetTimestamp, setCore) == Some(|setCore|) && CoreLength(UseSchema, useCore) == Some(|useCore|)
    requires AllSpace(gap1) && AllSpace(gap2) && (stmt == [] || !IsSpace(stmt[0]))
    requires q == setCore + (gap1 + (useCore + (gap2 + stmt)))
    ensures DirectiveText(UseSchema, q) == useCore
  {
    var p := |setCore|;
    var k := p + |gap1|;
    var c := k + |useCore|;
    var e := c + |gap2|;
    CoreIsTight(UseSchema, useCore);
    SetInQuery(q, setCore, gap1 + (useCore + (gap2 + stmt)));
    UseSlices(q, setCore, gap1, useCore, gap2, stmt, k, c, e);
    CoreInQuery(UseSchema, q, k, useCore, gap2 + stmt);
    UseColumnIs(q, p, k, c, e, useCore);
  }

  /** The same over positions: the USE directive sits between `k` and `c`, with whitespace up to `e`. */
  lemma UseColumnIs(q: string, p: nat, k: nat, c: nat, e: nat, useCore: string)
    requires 0 < p <= |q| && CoreLength(SetTimestamp, q[..p]) == Some(p)
    requires useCore != [] && Tight(useCore) && k <= |q| && CoreLength(UseSchema, q[k..]) == Some(|useCore|)
    requires p <= k && c == k + |useCore| && c <= e <= |q|
    requires AllSpace(q[p..k]) && !IsSpace(q[k]) && q[k..c] == useCore
    requires AllSpace(q[c..e]) && (e == |q| || !IsSpace(q[e]))
    ensures DirectiveText(UseSchema, q) == useCore
  {
    UseColumnAt(q, p, k, c, e);
  }

  /** A SET directive that opens a query is a whole directive there. */
  lemma SetInQuery(q: string, setCore: string, rest: string)
    requires CoreLength(SetTimestamp, setCore) == Some(|setCore|) && q == setCore + rest
    ensures 0 < |setCore| <= |q| && CoreLength(SetTimestamp, q[..|setCore|]) == Some(|setCore|)
  {
    assert q[..|setCore|] == setCore;
  }

  /**
   * A query that opens with a SET directive, then whitespace, a USE directive and more
   * whitespace: its USE column is that USE directive.
   */
  lemma UseColumnAt(q: string, p: nat, k: nat, c: nat, e: nat)
    requires 0 < p <= k < c <= e <= |q|
    requires CoreLength(SetTimestamp, q[..p]) == Some(p)
    requires AllSpace(q[p..k]) && !IsSpace(q[k]) && CoreLength(UseSchema, q[k..]) == Some(c - k) && Tight(q[k..c])
    requires AllSpace(q[c..e]) && (e == |q| || !IsSpace(q[e]))
    ensures DirectiveText(UseSchema, q) == q[k..c]
  {
    NoUseInSet(q, p);
    MatchEndAt(UseSchema, q, p, k, c - k, e);
    FindFromFirst(UseSchema, q, 0, p);
    TextOfMatchAround(UseSchema, q, p, k, c, e);
  }

  /** A leftmost match made of whitespace, a tight text and whitespace has that text as its column. */
  lemma TextOfMatchAround(d: Directive, s: string, p: nat, q: nat, k: nat, e: nat)
    requires Find(d, s).Some? && Find(d, s).value == Span(p, e)
    requires p <= q < k <= e <= |s| && AllSpace(s[p..q]) && AllSpace(s[k..e]) && Tight(s[q..k])
    ensures DirectiveText(d, s) == s[q..k]
  {
    CutMatch(d, s, Span(p, e));
    TrimSliceAround(s, p, q, k, e);
  }

  /** No USE match starts inside a SET directive that opens the query. */
  lemma NoUseInSet(q: string, p: nat)
    requires 0 < p <= |q| && CoreLength(SetTimestamp, q[..p]) == Some(p)
    ensures forall j :: 0 <= j < p ==> MatchEnd(UseSchema, q, j).None?
  {
    var t := q[..p];
    SetCoreChars(t);
    CoreLengthSetIff(t, p);
    assert q[p - 1] == t[p - 1] == ';';
    assert forall i :: 0 <= i <= p - 1 ==> q[i] == t[i];
    NoUseUpTo(q, p - 1);
  }

  /** A SET timestamp directive holds no `u`, `U` or line break: no USE pattern can begin inside one. */
  lemma SetCoreChars(t: string)
    requires CoreLength(SetTimestamp, t) == Some(|t|)
    ensures forall i :: 0 <= i < |t| ==> t[i] != 'u' && t[i] != 'U' && t[i] != '\n'
  {
    CoreLengthSetIff(t, |t|);
    forall i | 0 <= i < |t| ensures t[i] != 'u' && t[i] != 'U' && t[i] != '\n' {
      if i < 14 {
        assert FoldsTo(t[i], "set timestamp="[i]);
      } else if i < |t| - 1 {
        assert t[14..|t| - 1][i - 14] == t[i];
      }
    }
  }

  /** A whole directive placed in a query is matched by its core pattern there. */
  lemma CoreInQuery(d: Directive, q: string, k: nat, core: string, after: string)
    requires CoreLength(d, core) == Some(|core|) && k <= |q| && q[k..] == core + after
    ensures CoreLength(d, q[k..]) == Some(|core|)
  {
    CoreLengthExtend(d, core, after);
  }

  /** Where the USE directive and the whitespace around it lie in such a query. */
  lemma UseSlices(q: string, setCore: string, gap1: string, useCore: string, gap2: string, stmt: string, k: nat, c: nat, e: nat)
    requires useCore != [] && AllSpace(gap1) && AllSpace(gap2) && (stmt == [] || !IsSpace(stmt[0]))
    requires q == setCore + (gap1 + (useCore + (gap2 + stmt)))
    requires k == |setCore| + |gap1| && c == k + |useCore| && e == c + |gap2|
    ensures e <= |q| && AllSpace(q[|setCore|..k]) && q[k] == useCore[0]
    ensures q[k..] == useCore + (gap2 + stmt) && q[k..c] == useCore
    ensures AllSpace(q[c..e]) && (e == |q| || !IsSpace(q[e]))
  {
    assert q[|setCore|..k] == gap1 && q[c..e] == gap2;
    if e < |q| {
      assert q[e] == stmt[0];
    }
  }

  // ---------------------------------------------------------------- cleaning twice

  /**
   * Cleaning is not idempotent: a query holding the same SET directive twice loses only the
   * first one, so its query column still holds a SET directive that a second cleaning would
   * report and remove.
   */
  lemma CleanTwiceDiffers(q: string, t: string)
    requires CoreLength(SetTimestamp, t) == Some(|t|) && q == t + ("\n" + t)
    ensures t != [] && CleanedQuery(q) == t
    ensures DirectiveText(SetTimestamp, CleanedQuery(q)) == t
    ensures CleanedQuery(CleanedQuery(q)) != CleanedQuery(q)
  {
    CoreIsTight(SetTimestamp, t);
    CleanTwiceOnce(q, t);
    CleanSetCore(t);
  }

  /** Cleaning the doubled directive removes the first copy only. */
  lemma CleanTwiceOnce(q: string, t: string)
    requires CoreLength(SetTimestamp, t) == Some(|t|) && q == t + ("\n" + t)
    ensures CleanedQuery(q) == t
  {
    CoreIsTight(SetTimestamp, t);
    DirectiveAtStart(SetTimestamp, q, t, "\n", t);
    NoUseInSetCore(t);
    SetCoreChars(t);
    NormalizeOneLine(t);
  }

  /** A SET directive on its own is its own SET column and cleans to the empty query. */
  lemma CleanSetCore(t: string)
    requires CoreLength(SetTimestamp, t) == Some(|t|)
    ensures DirectiveText(SetTimestamp, t) == t && CleanedQuery(t) == []
  {
    DirectiveAtStart(SetTimestamp, t, t, "", "");
    NoMatchAtEnd(UseSchema, "");
    FindFromNone(UseSchema, "", 0);
    NormalizeOneLine("");
  }

  /** A SET directive alone holds no USE match, so the USE removal leaves it as it is. */
  lemma NoUseInSetCore(t: string)
    requires CoreLength(SetTimestamp, t) == Some(|t|)
    ensures Find(UseSchema, t).None? && RemoveFirst(UseSchema, t) == t
  {
    CoreIsTight(SetTimestamp, t);
    assert t[..|t|] == t;
    NoUseInSet(t, |t|);
    NoMatchAtEnd(UseSchema, t);
    FindFromNone(UseSchema, t, 0);
  }

  /** No directive matches at the very end of a text. */
  lemma NoMatchAtEnd(d: Directive, s: string)
    ensures MatchEnd(d, s, |s|).None?
  {
    assert s[|s|..] == [];
  }

  /** With no match from `from` on, the search reports none. */
  lemma {:induction false} FindFromNone(d: Directive, s: string, from: nat)
    requires from <= |s|
    requires forall j :: from <= j <= |s| ==> MatchEnd(d, s, j).None?
    ensures FindFrom(d, s, from).None?
    decreases |s| - from
  {
    if from < |s| {
      FindFromNone(d, s, from + 1);
    }
  }

  /** The query `SET timestamp=1;` written twice on two lines cleans to one `SET timestamp=1;`. */
  lemma CleanTwiceExample(q: string, t: string)
    requires t == "SET timestamp=1;" && q == t + ("\n" + t)
    ensures CleanedQuery(q) == "SET timestamp=1;"
    ensures DirectiveText(SetTimestamp, CleanedQuery(q)) == "SET timestamp=1;"
  {
    SetCoreOneExample(t);
    CleanTwiceDiffers(q, t);
  }

  // ---------------------------------------------------------------- an example query

  /**
   * The query `SET timestamp=123;` / `use mydb;` / `SELECT 1;` on three lines: the two
   * directive columns are the two directives and the query column is the statement after them.
   */
  lemma CleanQueryExample(q: string, setCore: string, useCore: string, stmt: string)
    requires setCore == "SET timestamp=123;" && useCore == "use mydb;" && stmt == "SELECT 1;"
    requires q == setCore + ("\n" + (useCore + ("\n" + stmt)))
    ensures DirectiveText(SetTimestamp, q) == "SET timestamp=123;"
    ensures DirectiveText(UseSchema, q) == "use mydb;"
    ensures CleanedQuery(q) == "SELECT 1;"
  {
    SetCoreExample(setCore);
    UseCoreExample(useCore);
    DirectivesThenStatement(q, setCore, "\n", useCore, "\n", stmt);
    StatementExample(stmt);
  }

  /** `SELECT 1;` is a single line with nothing to trim. */
  lemma StatementExample(t: string)
    requires t == "SELECT 1;"
    ensures Normalize(t) == t
  {
    assert !IsSpace(t[0]) && !IsSpace(t[8]);
    assert forall i :: 0 <= i < |t| ==> t[i] != '\n';
    NormalizeOneLine(t);
  }

  /** `SET timestamp=123;` is a whole SET timestamp directive. */
  lemma SetCoreExample(t: string)
    requires t == "SET timestamp=123;"
    ensures CoreLength(SetTimestamp, t) == Some(|t|)
  {
    assert t[14..17] == "123";
    CoreLengthSetComplete(t, 18);
  }

  /** `SET timestamp=1;` is a whole SET timestamp directive. */
  lemma SetCoreOneExample(t: string)
    requires t == "SET timestamp=1;"
    ensures CoreLength(SetTimestamp, t) == Some(|t|)
  {
    assert t[14..15] == "1";
    CoreLengthSetComplete(t, 16);
  }

  /** `use mydb;` is a whole USE directive. */
  lemma UseCoreExample(t: string)
    requires t == "use mydb;"
    ensures CoreLength(UseSchema, t) == Some(|t|)
  {
    var w := "mydb";
    assert t[4..8] == Backticked(false, w, false);
    CoreLengthUseComplete(t, 9, false, w, false);
  }

  // ---------------------------------------------------------------- the row

  /** Column names and order of the header row (src/main.rs:193-209). */
  const Header: seq<string> := ["time", "user", "host", "thread_id", "schema", "qc_hit",
    "set_timestamp", "use_schema", "query", "query_time", "lock_time", "rows_sent",
    "rows_examined", "rows_affected", "bytes_sent"]

  /**
   * An `f64` column: `showFloat` stands for `parse::<f64>().unwrap_or(0.0).to_string()`
   * of the captured text; an entry that never saw the field prints the default `0`.
   */
  function FloatColumn(raw: string, showFloat: string -> string): string {
    if raw == [] then "0" else showFloat(raw)
  }

  /** The 15 fields `write_to_csv` hands to the CSV writer, in header order, given the three query columns. */
  function RowWith(e: Entry, setTimestamp: string, useSchema: string, single: string,
                   showFloat: string -> string): seq<string> {
    [e.time, e.user, e.host, e.threadId, e.schema, e.qcHit,
     setTimestamp, useSchema, single,
     FloatColumn(e.queryTime, showFloat), FloatColumn(e.lockTime, showFloat),
     ShowDecimal(e.rowsSent as nat), ShowDecimal(e.rowsExamined as nat),
     ShowDecimal(e.rowsAffected as nat), ShowDecimal(e.bytesSent as nat)]
  }

  /** The record `write_to_csv` writes for an entry. */
  function RowOf(e: Entry, showFloat: string -> string): seq<string> {
    RowWith(e, DirectiveText(SetTimestamp, e.query), DirectiveText(UseSchema, e.query),
            CleanedQuery(e.query), showFloat)
  }

  /**
   * A row has one field per header column: the identity columns carry the entry's
   * fields, the three query columns sit under `set_timestamp`, `use_schema` and
   * `query`, and the counter columns parse back to the entry's counters.
   */
  lemma {:induction false} RowColumns(e: Entry, setTimestamp: string, useSchema: string, single: string,
                                      showFloat: string -> string)
    ensures |RowWith(e, setTimestamp, useSchema, single, showFloat)| == |Header| == 15
    ensures RowWith(e, setTimestamp, useSchema, single, showFloat)[..6] ==
      [e.time, e.user, e.host, e.threadId, e.schema, e.qcHit]
    ensures RowWith(e, setTimestamp, useSchema, single, showFloat)[6..9] == [setTimestamp, useSchema, single]
    ensures Header[6..9] == ["set_timestamp", "use_schema", "query"]
    ensures ParseU64(RowWith(e, setTimestamp, useSchema, single, showFloat)[11]) == e.rowsSent
    ensures ParseU64(RowWith(e, setTimestamp, useSchema, single, showFloat)[12]) == e.rowsExamined
    ensures ParseU64(RowWith(e, setTimestamp, useSchema, single, showFloat)[13]) == e.rowsAffected
    ensures ParseU64(RowWith(e, setTimestamp, useSchema, single, showFloat)[14]) == e.bytesSent
  {
    assert Header[6..9] == [Header[6], Header[7], Header[8]];
    ParseShowU64(e.rowsSent);
    ParseShowU64(e.rowsExamined);
    ParseShowU64(e.rowsAffected);
    ParseShowU64(e.bytesSent);
  }

  /** `write_to_csv`: clean the query and build the record. */
  method WriteRecord(e: Entry, showFloat: string -> string) returns (row: seq<string>)
    ensures row == RowOf(e, showFloat)
    ensures |row| == |Header| && '\n' !in row[8] && Tight(row[8])
  {
    var setTimestamp, useSchema, single := CleanQuery(e.query);
    row := RowWith(e, setTimestamp, useSchema, single, showFloat);
    RowColumns(e, setTimestamp, useSchema, single, showFloat);
    assert row[8] == row[6..9][2];
  }
}
