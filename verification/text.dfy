/**
 * String primitives of the Rust standard library that the converter relies on:
 * `char::is_whitespace`, `str::trim`, `str::lines`, `str::split_whitespace`,
 * `[&str]::join` and the decimal rendering and parsing of unsigned integers.
 */
module Text {

  /** Unicode White_Space: the set used by `char::is_whitespace`, `str::trim` and the regex class `\s`. */
  predicate IsSpace(c: char) {
    c == ' ' || ('\t' <= c <= '\r') || c as int == 0x85 || c as int == 0xA0 || c as int == 0x1680
    || (0x2000 <= c as int <= 0x200A) || c as int == 0x2028 || c as int == 0x2029
    || c as int == 0x202F || c as int == 0x205F || c as int == 0x3000
  }

  predicate IsDigit(c: char) {
    '0' <= c <= '9'
  }

  predicate AllSpace(s: string) {
    forall i :: 0 <= i < |s| ==> IsSpace(s[i])
  }

  predicate NoSpace(s: string) {
    forall i :: 0 <= i < |s| ==> !IsSpace(s[i])
  }

  predicate AllDigits(s: string) {
    forall i :: 0 <= i < |s| ==> IsDigit(s[i])
  }

  /** Neither starts nor ends with whitespace (the shape of a trimmed string). */
  predicate Tight(s: string) {
    s == [] || (!IsSpace(s[0]) && !IsSpace(s[|s| - 1]))
  }

  predicate StartsWith(s: string, prefix: string) {
    |prefix| <= |s| && s[..|prefix|] == prefix
  }

  /** The character classes the log patterns use; `\d` and `\w` are taken as ASCII. */
  datatype CharClass = Digits | Spaces | DigitsOrDots | WordChars

  predicate InClass(c: char, k: CharClass) {
    match k
    case Digits => IsDigit(c)
    case Spaces => IsSpace(c)
    case DigitsOrDots => IsDigit(c) || c == '.'
    case WordChars => IsDigit(c) || ('a' <= c <= 'z') || ('A' <= c <= 'Z') || c == '_'
  }

  /** Length of the longest prefix of `s` in class `k` (what a greedy `k*` consumes). */
  function SpanOf(s: string, k: CharClass): (n: nat)
    ensures n <= |s|
    ensures forall i :: 0 <= i < n ==> InClass(s[i], k)
    ensures n == |s| || !InClass(s[n], k)
  {
    if s != [] && InClass(s[0], k) then 1 + SpanOf(s[1..], k) else 0
  }

  /** A non-empty run of class `k` (what `\d+`, `\s+` or `[\d.]+` matches). */
  predicate IsRun(s: string, k: CharClass) {
    s != [] && forall i :: 0 <= i < |s| ==> InClass(s[i], k)
  }

  /** A greedy run stops exactly where its class does. */
  lemma SpanOfRun(s: string, n: nat, k: CharClass)
    requires n <= |s| && forall i :: 0 <= i < n ==> InClass(s[i], k)
    requires n == |s| || !InClass(s[n], k)
    ensures SpanOf(s, k) == n
  {
  }

  // ---------------------------------------------------------------- trimming

  /** `str::trim_start`. */
  function TrimStart(s: string): (r: string)
    ensures |r| <= |s|
    ensures r == [] || !IsSpace(r[0])
  {
    if s != [] && IsSpace(s[0]) then TrimStart(s[1..]) else s
  }

  /** `trim_start` keeps a suffix and removes only whitespace. */
  lemma {:induction false} TrimStartSuffix(s: string)
    ensures TrimStart(s) == s[|s| - |TrimStart(s)|..]
    ensures AllSpace(s[..|s| - |TrimStart(s)|])
  {
    if s != [] && IsSpace(s[0]) {
      var r := TrimStart(s[1..]);
      TrimStartSuffix(s[1..]);
      assert s[..|s| - |r|] == [s[0]] + s[1..][..|s| - 1 - |r|];
    }
  }

  /** `str::trim_end`. */
  function TrimEnd(s: string): (r: string)
    ensures |r| <= |s|
    ensures r == [] || !IsSpace(r[|r| - 1])
  {
    if s != [] && IsSpace(s[|s| - 1]) then TrimEnd(s[..|s| - 1]) else s
  }

  /** `trim_end` keeps a prefix and removes only whitespace. */
  lemma {:induction false} TrimEndPrefix(s: string)
    ensures TrimEnd(s) == s[..|TrimEnd(s)|]
    ensures AllSpace(s[|TrimEnd(s)|..])
  {
    if s != [] && IsSpace(s[|s| - 1]) {
      var r := TrimEnd(s[..|s| - 1]);
      TrimEndPrefix(s[..|s| - 1]);
      assert s[|r|..] == s[..|s| - 1][|r|..] + [s[|s| - 1]];
    }
  }

  /** `str::trim`: the longest slice of `s` with no whitespace at either end. */
  function Trim(s: string): (r: string)
    ensures |r| <= |s| && Tight(r)
  {
    var t := TrimStart(s);
    var r := TrimEnd(t);
    assert r != [] ==> r[0] == t[0] by {
      TrimEndPrefix(t);
    }
    r
  }

  /** `trim` gives the empty string exactly for all-whitespace input. */
  lemma TrimEmpty(s: string)
    ensures Trim(s) == [] <==> AllSpace(s)
  {
    var t := TrimStart(s);
    TrimStartSuffix(s);
    TrimEndPrefix(t);
    var k := |s| - |t|;
    assert s == s[..k] + t;
    if Trim(s) == [] {
      assert t[0..] == t;
      AllSpaceConcat(s[..k], t);
    }
    if AllSpace(s) {
      assert AllSpace(s[k..]);
    }
  }

  lemma AllSpaceConcat(a: string, b: string)
    requires AllSpace(a) && AllSpace(b)
    ensures AllSpace(a + b)
  {
    forall i | 0 <= i < |a + b| ensures IsSpace((a + b)[i]) {
      if i < |a| {
        assert (a + b)[i] == a[i];
      } else {
        assert (a + b)[i] == b[i - |a|];
      }
    }
  }

  /** Trimming a string without a line break gives a string without one. */
  lemma TrimOneLine(s: string)
    requires '\n' !in s
    ensures '\n' !in Trim(s)
  {
    var t := TrimStart(s);
    var r := Trim(s);
    TrimStartSuffix(s);
    TrimEndPrefix(t);
    forall i | 0 <= i < |r| ensures r[i] != '\n' {
      assert r[i] == t[i] == s[|s| - |t| + i];
    }
  }

  /** Whitespace on both sides of a tight, non-empty core is exactly what `Trim` removes. */
  lemma {:induction false} TrimAround(before: string, core: string, after: string)
    requires AllSpace(before) && AllSpace(after)
    requires core != [] && Tight(core)
    ensures Trim(before + core + after) == core
  {
    var all := before + core + after;
    assert all == before + (core + after);
    TrimStartSpaces(before, core + after);
    assert TrimStart(all) == core + after;
    TrimEndSpaces(core, after);
    assert TrimEnd(core + after) == core;
  }

  lemma {:induction false} TrimStartSpaces(spaces: string, rest: string)
    requires AllSpace(spaces)
    requires rest == [] || !IsSpace(rest[0])
    ensures TrimStart(spaces + rest) == rest
    decreases |spaces|
  {
    if spaces != [] {
      assert (spaces + rest)[1..] == spaces[1..] + rest;
      TrimStartSpaces(spaces[1..], rest);
    }
  }

  lemma {:induction false} TrimEndSpaces(rest: string, spaces: string)
    requires AllSpace(spaces)
    requires rest == [] || !IsSpace(rest[|rest| - 1])
    ensures TrimEnd(rest + spaces) == rest
    decreases |spaces|
  {
    if spaces != [] {
      assert (rest + spaces)[..|rest + spaces| - 1] == rest + spaces[..|spaces| - 1];
      TrimEndSpaces(rest, spaces[..|spaces| - 1]);
    }
  }

  /** Trimming a slice with only whitespace around its tight middle `s[q..k]` leaves that middle. */
  lemma TrimSliceAround(s: string, p: nat, q: nat, k: nat, e: nat)
    requires p <= q < k <= e <= |s|
    requires AllSpace(s[p..q]) && AllSpace(s[k..e]) && Tight(s[q..k])
    ensures Trim(s[p..e]) == s[q..k]
  {
    SliceSplit(s, p, q, k, e);
    TrimAround(s[p..q], s[q..k], s[k..e]);
  }

  /** Three adjacent slices make up the slice they span. */
  lemma SliceSplit(s: string, p: nat, q: nat, k: nat, e: nat)
    requires p <= q <= k <= e <= |s|
    ensures s[p..e] == s[p..q] + s[q..k] + s[k..e]
  {
  }

  lemma PrefixOfSuffix(s: string, q: nat, c: nat)
    requires q + c <= |s|
    ensures s[q..][..c] == s[q..q + c]
  {
  }

  /** Trimming a tight string changes nothing. */
  lemma TrimTight(s: string)
    requires Tight(s)
    ensures Trim(s) == s
  {
    TrimStartSpaces([], s);
    assert [] + s == s;
    TrimEndSpaces(s, []);
    assert s + [] == s;
  }

  // ---------------------------------------------------------------- joining

  /** `pieces.join(sep)`. */
  function JoinWith(pieces: seq<string>, sep: char): string
  {
    if |pieces| == 0 then ""
    else if |pieces| == 1 then pieces[0]
    else JoinWith(pieces[..|pieces| - 1], sep) + [sep] + pieces[|pieces| - 1]
  }

  /** Appending a piece appends the separator and the piece, unless it is the first one. */
  lemma JoinSnoc(pieces: seq<string>, x: string, sep: char)
    ensures JoinWith(pieces + [x], sep) == if pieces == [] then x else JoinWith(pieces, sep) + [sep] + x
  {
    assert (pieces + [x])[..|pieces|] == pieces;
  }

  lemma {:induction false} JoinCons(x: string, pieces: seq<string>, sep: char)
    requires pieces != []
    ensures JoinWith([x] + pieces, sep) == x + [sep] + JoinWith(pieces, sep)
    decreases |pieces|
  {
    var all := [x] + pieces;
    if |pieces| > 1 {
      assert all[..|all| - 1] == [x] + pieces[..|pieces| - 1];
      JoinCons(x, pieces[..|pieces| - 1], sep);
    } else {
      assert all[..|all| - 1] == [x];
    }
  }

  // ---------------------------------------------------------------- lines

  /**
   * The pieces of `s` between `'\n'` characters, a final empty piece included.
   * `str::lines` drops that final empty piece and a `'\r'` before each `'\n'`;
   * every caller here trims each piece and drops blank ones, which makes the two
   * splittings give the same result.
   */
  function Lines(s: string): (r: seq<string>)
    ensures |r| >= 1
  {
    if s == [] then [""]
    else
      var rest := Lines(s[1..]);
      if s[0] == '\n' then [""] + rest
      else [[s[0]] + rest[0]] + rest[1..]
  }

  /** No piece holds a line break. */
  predicate NoLineBreaks(pieces: seq<string>) {
    forall i :: 0 <= i < |pieces| ==> '\n' !in pieces[i]
  }

  lemma {:induction false} LinesHaveNoBreaks(s: string)
    ensures NoLineBreaks(Lines(s))
  {
    if s != [] {
      var rest := Lines(s[1..]);
      LinesHaveNoBreaks(s[1..]);
      if s[0] != '\n' {
        assert '\n' !in [s[0]] + rest[0];
        assert forall i :: 1 <= i < |rest| ==> rest[1..][i - 1] == rest[i];
      }
    }
  }

  /** Joining the lines of `s` with line breaks gives `s` back. */
  lemma {:induction false} LinesRoundTrip(s: string)
    ensures JoinWith(Lines(s), '\n') == s
  {
    if s != [] {
      LinesRoundTrip(s[1..]);
      assert s == [s[0]] + s[1..];
      if s[0] == '\n' {
        JoinCons("", Lines(s[1..]), '\n');
      } else {
        JoinFirstGrows(s[0], Lines(s[1..]));
      }
    }
  }

  /** Prefixing the first piece with a character prefixes the joined text with it. */
  lemma {:induction false} JoinFirstGrows(c: char, rest: seq<string>)
    requires rest != []
    ensures JoinWith([[c] + rest[0]] + rest[1..], '\n') == [c] + JoinWith(rest, '\n')
    decreases |rest|
  {
    var grown := [[c] + rest[0]] + rest[1..];
    if |rest| == 1 {
      assert grown == [[c] + rest[0]];
    } else {
      var front := rest[..|rest| - 1];
      var last := rest[|rest| - 1];
      assert grown[..|grown| - 1] == [[c] + front[0]] + front[1..];
      assert grown[|grown| - 1] == last;
      JoinFirstGrows(c, front);
      assert JoinWith(grown, '\n') == ([c] + JoinWith(front, '\n')) + ['\n'] + last;
      assert JoinWith(rest, '\n') == JoinWith(front, '\n') + ['\n'] + last;
    }
  }

  /** A string without a line break is a single line. */
  lemma {:induction false} LinesOfOneLine(s: string)
    requires '\n' !in s
    ensures Lines(s) == [s]
  {
    if s != [] {
      assert '\n' !in s[1..] by {
        forall c | c in s[1..] ensures c != '\n' {
          var i :| 0 <= i < |s[1..]| && s[1..][i] == c;
          assert s[i + 1] == c;
        }
      }
      LinesOfOneLine(s[1..]);
      assert s == [s[0]] + s[1..];
    }
  }

  // ---------------------------------------------------------------- words

  /** Length of the longest prefix of `s` without whitespace. */
  function WordLength(s: string): (n: nat)
    ensures n <= |s|
    ensures NoSpace(s[..n])
    ensures n == |s| || IsSpace(s[n])
  {
    if s != [] && !IsSpace(s[0]) then 1 + WordLength(s[1..]) else 0
  }

  /** `str::split_whitespace`: the maximal non-empty runs of non-whitespace. */
  function Words(s: string): seq<string>
    decreases |s|
  {
    var t := TrimStart(s);
    if t == [] then []
    else
      var k := WordLength(t);
      [t[..k]] + Words(t[k..])
  }

  /** Non-empty pieces without whitespace. */
  predicate AreWords(pieces: seq<string>) {
    forall i :: 0 <= i < |pieces| ==> pieces[i] != [] && NoSpace(pieces[i])
  }

  /** Every word is non-empty and holds no whitespace. */
  lemma {:induction false} WordsAreWords(s: string)
    ensures AreWords(Words(s))
    decreases |s|
  {
    var t := TrimStart(s);
    if t != [] {
      var k := WordLength(t);
      var rest := Words(t[k..]);
      WordsAreWords(t[k..]);
      assert Words(s) == [t[..k]] + rest;
      forall i | 0 <= i < |rest| + 1 ensures Words(s)[i] != [] && NoSpace(Words(s)[i]) {
        if i > 0 {
          assert Words(s)[i] == rest[i - 1];
        }
      }
    }
  }

  /** `s.split_whitespace().collect::<Vec<&str>>().join(" ")`. */
  function CollapseSpaces(s: string): string {
    JoinWith(Words(s), ' ')
  }

  /** Splitting a space-joined list of words gives the words back. */
  lemma {:induction false} WordsOfJoin(pieces: seq<string>)
    requires AreWords(pieces)
    ensures Words(JoinWith(pieces, ' ')) == pieces
    decreases |pieces|
  {
    if pieces == [] {
    } else {
      var w := pieces[0];
      var tail := pieces[1..];
      assert pieces == [w] + tail;
      if tail == [] {
        assert JoinWith(pieces, ' ') == w;
        TrimStartSpaces([], w);
        assert [] + w == w;
        WordOfNoSpace(w, "");
        assert w + "" == w;
        assert w[|w|..] == [];
      } else {
        var j := JoinWith(tail, ' ');
        JoinCons(w, tail, ' ');
        var all := w + [' '] + j;
        TrimStartSpaces([], all);
        assert [] + all == all;
        WordOfNoSpace(w, [' '] + j);
        assert all == w + ([' '] + j);
        assert all[..|w|] == w;
        assert all[|w|..] == [' '] + j;
        WordsOfJoin(tail);
        WordsAfterSpace(j);
      }
    }
  }

  lemma WordOfNoSpace(w: string, rest: string)
    requires NoSpace(w)
    requires rest == [] || IsSpace(rest[0])
    ensures WordLength(w + rest) == |w|
    decreases |w|
  {
    if w != [] {
      assert (w + rest)[1..] == w[1..] + rest;
      WordOfNoSpace(w[1..], rest);
    }
  }

  lemma WordsAfterSpace(j: string)
    ensures Words([' '] + j) == Words(j)
  {
    assert ([' '] + j)[1..] == j;
  }

  /** Collapsing whitespace twice is collapsing it once. */
  lemma CollapseSpacesIdempotent(s: string)
    ensures CollapseSpaces(CollapseSpaces(s)) == CollapseSpaces(s)
  {
    WordsAreWords(s);
    WordsOfJoin(Words(s));
  }

  /** Whitespace in front of a text adds no word. */
  lemma WordsSkipSpaces(spaces: string, s: string)
    requires AllSpace(spaces)
    ensures Words(spaces + s) == Words(s)
  {
    TrimStartAfterSpaces(spaces, s);
  }

  lemma {:induction false} TrimStartAfterSpaces(spaces: string, s: string)
    requires AllSpace(spaces)
    ensures TrimStart(spaces + s) == TrimStart(s)
    decreases |spaces|
  {
    if spaces == [] {
      assert spaces + s == s;
    } else {
      assert (spaces + s)[1..] == spaces[1..] + s;
      TrimStartAfterSpaces(spaces[1..], s);
    }
  }

  /** A word cannot run past a whitespace character that follows it. */
  lemma {:induction false} WordLengthAppend(x: string, b: string)
    requires b == [] || IsSpace(b[0])
    ensures WordLength(x + b) == WordLength(x)
    decreases |x|
  {
    if x == [] {
      assert x + b == b;
    } else if !IsSpace(x[0]) {
      assert (x + b)[1..] == x[1..] + b;
      WordLengthAppend(x[1..], b);
    }
  }

  /** Gluing a text that starts with whitespace (or nothing) onto another one joins their words. */
  lemma {:induction false} WordsAppend(a: string, b: string)
    requires b == [] || IsSpace(b[0])
    ensures Words(a + b) == Words(a) + Words(b)
    decreases |a|
  {
    var ta := TrimStart(a);
    if ta == [] {
      TrimStartSuffix(a);
      assert a[..|a|] == a;
      WordsSkipSpaces(a, b);
    } else {
      var k := WordLength(ta);
      TrimStartAppend(a, b);
      WordLengthAppend(ta, b);
      WordsAppendStep(ta, b, k);
      WordsAppend(ta[k..], b);
    }
  }

  /** One word of `ta + b` when the first word of `ta` ends before `b`. */
  lemma WordsAppendStep(ta: string, b: string, k: nat)
    requires ta != [] && !IsSpace(ta[0]) && k == WordLength(ta) && WordLength(ta + b) == k
    ensures 0 < k <= |ta|
    ensures Words(ta + b) == [ta[..k]] + Words(ta[k..] + b)
  {
    assert (ta + b)[..k] == ta[..k];
    assert (ta + b)[k..] == ta[k..] + b;
    TrimStartSpaces([], ta + b);
    assert [] + (ta + b) == ta + b;
  }

  /** Trimming the start of `a + b` stops inside `a` once `a` has a non-blank character. */
  lemma {:induction false} TrimStartAppend(a: string, b: string)
    requires TrimStart(a) != []
    ensures TrimStart(a + b) == TrimStart(a) + b
    decreases |a|
  {
    assert a != [];
    if IsSpace(a[0]) {
      assert (a + b)[1..] == a[1..] + b;
      TrimStartAppend(a[1..], b);
    }
  }

  /** `trim` removes no word. */
  lemma WordsOfTrim(s: string)
    ensures Words(Trim(s)) == Words(s)
  {
    WordsOfTrimStart(s);
    WordsOfTrimEnd(TrimStart(s));
  }

  lemma WordsOfTrimStart(s: string)
    ensures Words(TrimStart(s)) == Words(s)
  {
    var t := TrimStart(s);
    TrimStartSuffix(s);
    assert s == s[..|s| - |t|] + t;
    WordsSkipSpaces(s[..|s| - |t|], t);
  }

  lemma WordsOfTrimEnd(t: string)
    ensures Words(TrimEnd(t)) == Words(t)
  {
    var r := TrimEnd(t);
    TrimEndPrefix(t);
    var tail := t[|r|..];
    assert t == r + tail;
    WordsAppend(r, tail);
    WordsSkipSpaces(tail, []);
    assert tail + [] == tail;
  }

  /** The words of each piece in turn. */
  function WordsOfAll(pieces: seq<string>): seq<string> {
    if pieces == [] then [] else WordsOfAll(pieces[..|pieces| - 1]) + Words(pieces[|pieces| - 1])
  }

  /** Joining pieces with a whitespace separator keeps their words, in order. */
  lemma {:induction false} WordsOfJoinWith(pieces: seq<string>, sep: char)
    requires IsSpace(sep)
    ensures Words(JoinWith(pieces, sep)) == WordsOfAll(pieces)
    decreases |pieces|
  {
    if |pieces| == 1 {
      assert pieces[..0] == [];
    } else if |pieces| > 1 {
      var init := pieces[..|pieces| - 1];
      var last := pieces[|pieces| - 1];
      var j := JoinWith(init, sep);
      assert JoinWith(pieces, sep) == j + ([sep] + last);
      WordsAppend(j, [sep] + last);
      WordsSkipSpaces([sep], last);
      WordsOfJoinWith(init, sep);
    }
  }

  /** The words of a text are the words of its lines. */
  lemma WordsOfLines(s: string)
    ensures WordsOfAll(Lines(s)) == Words(s)
  {
    LinesRoundTrip(s);
    WordsOfJoinWith(Lines(s), '\n');
  }

  // ---------------------------------------------------------------- decimals

  function DigitChar(d: nat): (c: char)
    requires d < 10
    ensures IsDigit(c) && c as int - '0' as int == d
  {
    ('0' as int + d) as char
  }

  /** Value of a string of ASCII decimal digits (no bound: callers check for overflow). */
  function DecimalValue(s: string): nat
    requires AllDigits(s)
  {
    if s == [] then 0
    else DecimalValue(s[..|s| - 1]) * 10 + (s[|s| - 1] as int - '0' as int)
  }

  /** `to_string` of an unsigned integer: shortest decimal rendering, no sign. */
  function ShowDecimal(n: nat): (r: string)
    ensures r != [] && AllDigits(r)
    ensures |r| > 1 ==> r[0] != '0'
  {
    if n < 10 then [DigitChar(n)] else ShowDecimal(n / 10) + [DigitChar(n % 10)]
  }

  /** Parsing the rendering of `n` gives `n` back. */
  lemma {:induction false} DecimalRoundTrip(n: nat)
    ensures DecimalValue(ShowDecimal(n)) == n
  {
    if n >= 10 {
      var r := ShowDecimal(n);
      assert r[..|r| - 1] == ShowDecimal(n / 10);
      DecimalRoundTrip(n / 10);
    }
  }
}
