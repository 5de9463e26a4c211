/**
 * The parts of Python's string behaviour the application relies on: str.isspace/strip, str.splitlines,
 * str.split with one separator, str.join, int() on text, and the newline translation done by
 * pathlib.Path.write_text and read_text on Windows.
 */
module Text {
  import opened Outcomes

  /** Characters for which str.isspace() holds, i.e. what str.strip() removes. */
  predicate IsSpace(c: char) {
    || ('\t' <= c <= '\r')
    || ('\U{1C}' <= c <= ' ')
    || c == '\U{85}' || c == '\U{A0}' || c == '\U{1680}'
    || ('\U{2000}' <= c <= '\U{200A}')
    || c == '\U{2028}' || c == '\U{2029}' || c == '\U{202F}' || c == '\U{205F}' || c == '\U{3000}'
  }

  /** Line boundaries recognised by str.splitlines(). */
  predicate IsLineBreak(c: char) {
    || ('\n' <= c <= '\r')
    || ('\U{1C}' <= c <= '\U{1E}')
    || c == '\U{85}' || c == '\U{2028}' || c == '\U{2029}'
  }

  predicate NoLineBreak(s: string) {
    forall c :: c in s ==> !IsLineBreak(c)
  }

  predicate IsDigit(c: char) {
    '0' <= c <= '9'
  }

  predicate AllDigits(s: string) {
    forall i :: 0 <= i < |s| ==> IsDigit(s[i])
  }

  predicate StartsWith(s: string, prefix: string) {
    |prefix| <= |s| && s[..|prefix|] == prefix
  }

  predicate EndsWith(s: string, c: char) {
    |s| > 0 && s[|s| - 1] == c
  }

  // ---------------------------------------------------------------- stripping

  /** Where str.rstrip() cuts `s[..e]`: the end of its last non-whitespace character, or 0. */
  function RightEnd(s: string, e: nat): (j: nat)
    requires e <= |s|
    ensures j <= e
    ensures forall i :: j <= i < e ==> IsSpace(s[i])
    ensures j == 0 || !IsSpace(s[j - 1])
    decreases e
  {
    if e > 0 && IsSpace(s[e - 1]) then RightEnd(s, e - 1) else e
  }

  /** Where str.lstrip() cuts `s[b..e]`: the first non-whitespace position, or e. */
  function LeftStart(s: string, b: nat, e: nat): (j: nat)
    requires b <= e <= |s|
    ensures b <= j <= e
    ensures forall i :: b <= i < j ==> IsSpace(s[i])
    ensures j == e || !IsSpace(s[j])
    decreases e - b
  {
    if b < e && IsSpace(s[b]) then LeftStart(s, b + 1, e) else b
  }

  /** The end of what str.strip() keeps. */
  function StripEnd(s: string): (e: nat)
    ensures e <= |s|
  {
    RightEnd(s, |s|)
  }

  /**
   * str.strip(): the text between the first and the last non-whitespace characters. Only leading
   * whitespace lies before it and only trailing whitespace after it.
   */
  function Strip(s: string): (r: string)
    ensures var e := StripEnd(s); |r| <= e && r == s[e - |r|..e]
    ensures forall i :: 0 <= i < StripEnd(s) - |r| ==> IsSpace(s[i])
    ensures forall i :: StripEnd(s) <= i < |s| ==> IsSpace(s[i])
    ensures r == [] || (!IsSpace(r[0]) && !IsSpace(r[|r| - 1]))
  {
    var e := StripEnd(s);
    var b := LeftStart(s, 0, e);
    StripEnds(s, b, e);
    s[b..e]
  }

  /** The slice str.strip() keeps starts and ends with a non-whitespace character. */
  lemma StripEnds(s: string, b: nat, e: nat)
    requires e == StripEnd(s) && b == LeftStart(s, 0, e)
    ensures var r := s[b..e]; r == [] || (!IsSpace(r[0]) && !IsSpace(r[|r| - 1]))
  {
    if b < e {
      assert s[b..e][e - b - 1] == s[e - 1];
    }
  }

  /** str.strip() keeps characters, never invents them. */
  lemma StripKeeps(s: string)
    ensures forall c :: c in Strip(s) ==> c in s
  {
    var e := StripEnd(s);
    var r := Strip(s);
    forall c | c in r ensures c in s {
      var k :| 0 <= k < |r| && r[k] == c;
      assert s[e - |r| + k] == c;
    }
  }

  /** A string with nothing for str.strip() to remove. */
  predicate IsStripped(s: string) {
    s == [] || (!IsSpace(s[0]) && !IsSpace(s[|s| - 1]))
  }

  lemma StripStripped(s: string)
    requires IsStripped(s)
    ensures Strip(s) == s
  {
  }

  /** str.rstrip("\r\n"): drops every trailing carriage return and line feed. */
  function TrimLineEnding(s: string): (r: string)
    ensures r <= s
    ensures forall i :: |r| <= i < |s| ==> s[i] == '\r' || s[i] == '\n'
    ensures r == [] || (r[|r| - 1] != '\r' && r[|r| - 1] != '\n')
  {
    if s != [] && (s[|s| - 1] == '\r' || s[|s| - 1] == '\n') then TrimLineEnding(s[..|s| - 1]) else s
  }

  // ---------------------------------------------------------------- lines and fields

  /** Index of the first line boundary at or after `i`, or |s| if there is none. */
  function LineEnd(s: string, i: nat): (j: nat)
    requires i <= |s|
    ensures i <= j <= |s|
    ensures j < |s| ==> IsLineBreak(s[j])
    ensures forall k :: i <= k < j ==> !IsLineBreak(s[k])
    decreases |s| - i
  {
    if i == |s| || IsLineBreak(s[i]) then i else LineEnd(s, i + 1)
  }

  /**
   * str.splitlines(): "\r\n" counts as one boundary, the boundaries are dropped, and a final boundary
   * does not start an empty last line.
   */
  function SplitLines(s: string): (lines: seq<string>)
    ensures forall k :: 0 <= k < |lines| ==> NoLineBreak(lines[k])
    ensures s == [] <==> lines == []
    decreases |s|
  {
    if s == [] then []
    else
      var j := LineEnd(s, 0);
      if j == |s| then [s]
      else
        var w := if s[j] == '\r' && j + 1 < |s| && s[j + 1] == '\n' then 2 else 1;
        [s[..j]] + SplitLines(s[j + w..])
  }

  /** str.join: `sep` between consecutive parts. SplitJoin and JoinSplit show it undoes SplitOn. */
  function Join(parts: seq<string>, sep: string): (r: string)
    ensures |parts| >= 1 ==> parts[0] <= r
  {
    if |parts| == 0 then ""
    else if |parts| == 1 then parts[0]
    else parts[0] + sep + Join(parts[1..], sep)
  }

  /** Index of the first `c` in `s`, or |s| if there is none. */
  function Find(s: string, c: char): (j: nat)
    ensures j <= |s|
    ensures j < |s| ==> s[j] == c
    ensures forall k :: 0 <= k < j ==> s[k] != c
  {
    if s == [] then 0
    else if s[0] == c then 0
    else 1 + Find(s[1..], c)
  }

  /** str.split(c): the fields between occurrences of `c`; empty fields are kept. */
  function SplitOn(s: string, c: char): (parts: seq<string>)
    ensures |parts| == Occurrences(s, c) + 1
    ensures forall k :: 0 <= k < |parts| ==> c !in parts[k]
    decreases |s|
  {
    var j := Find(s, c);
    FindSplits(s, c);
    if j == |s| then [s] else [s[..j]] + SplitOn(s[j + 1..], c)
  }

  /** How many times `c` occurs in `s`. */
  function Occurrences(s: string, c: char): nat {
    if s == [] then 0 else (if s[0] == c then 1 else 0) + Occurrences(s[1..], c)
  }

  /** The first `c` of `s` accounts for one of its occurrences, the text before it for none. */
  lemma {:induction false} FindSplits(s: string, c: char)
    ensures var j := Find(s, c);
      Occurrences(s, c) == if j == |s| then 0 else Occurrences(s[j + 1..], c) + 1
  {
    if s != [] && s[0] != c {
      FindSplits(s[1..], c);
      if Find(s[1..], c) < |s| - 1 {
        assert s[1..][Find(s[1..], c) + 1..] == s[Find(s, c) + 1..];
      }
    }
  }

  /** The non-empty elements, in order. */
  function NonEmpty(xs: seq<string>): (ys: seq<string>)
    ensures forall k :: 0 <= k < |ys| ==> ys[k] != ""
    ensures forall x :: x in ys <==> x in xs && x != ""
  {
    if xs == [] then []
    else (if xs[0] == "" then [] else [xs[0]]) + NonEmpty(xs[1..])
  }

  lemma FindAfter(p: string, c: char, t: string)
    requires c !in p
    ensures Find(p + [c] + t, c) == |p|
  {
    var s := p + [c] + t;
    assert s[|p|] == c;
    assert forall k :: 0 <= k < |p| ==> s[k] == p[k];
  }

  /** A field free of `c`, then `c`, is split off as the first field. */
  lemma SplitOnAfter(p: string, c: char, rest: string)
    requires c !in p
    ensures SplitOn(p + [c] + rest, c) == [p] + SplitOn(rest, c)
  {
    var s := p + [c] + rest;
    FindAfter(p, c, rest);
    assert s[..|p|] == p;
    assert s[|p| + 1..] == rest;
  }

  /** Text without the separator is a single field. */
  lemma LoneField(s: string, c: char)
    requires c !in s
    ensures SplitOn(s, c) == [s]
  {
    assert forall k :: 0 <= k < |s| ==> s[k] in s;
    assert Find(s, c) == |s|;
  }

  /** Splitting at an occurrence of the separator splits the two sides independently. */
  lemma {:induction false} SplitOnConcat(a: string, c: char, b: string)
    ensures SplitOn(a + [c] + b, c) == SplitOn(a, c) + SplitOn(b, c)
    decreases |a|
  {
    var j := Find(a, c);
    if j == |a| {
      SplitOnAfter(a, c, b);
    } else {
      var p, t := a[..j], a[j + 1..];
      assert a == p + [c] + t;
      assert c !in p;
      assert a + [c] + b == p + [c] + (t + [c] + b);
      SplitOnAfter(p, c, t + [c] + b);
      SplitOnConcat(t, c, b);
    }
  }

  /** Splitting a joined list gives the list back, when no element contains the separator. */
  lemma {:induction false} SplitJoin(parts: seq<string>, c: char)
    requires |parts| >= 1
    requires forall k :: 0 <= k < |parts| ==> c !in parts[k]
    ensures SplitOn(Join(parts, [c]), c) == parts
  {
    if |parts| == 1 {
      assert forall k :: 0 <= k < |parts[0]| ==> parts[0][k] in parts[0];
    } else {
      var rest := Join(parts[1..], [c]);
      var s := parts[0] + [c] + rest;
      assert Join(parts, [c]) == s;
      SplitOnAfter(parts[0], c, rest);
      assert SplitOn(rest, c) == parts[1..] by {
        SplitJoin(parts[1..], c);
      }
      assert parts == [parts[0]] + parts[1..];
    }
  }

  /** Joining the fields of a split gives the original text back. */
  lemma {:induction false} JoinSplit(s: string, c: char)
    ensures Join(SplitOn(s, c), [c]) == s
    decreases |s|
  {
    var j := Find(s, c);
    if j < |s| {
      var rest := SplitOn(s[j + 1..], c);
      var parts := [s[..j]] + rest;
      assert SplitOn(s, c) == parts;
      assert parts[0] == s[..j] && parts[1..] == rest;
      calc {
        Join(parts, [c]);
        s[..j] + [c] + Join(rest, [c]);
        { JoinSplit(s[j + 1..], c); }
        s[..j] + [c] + s[j + 1..];
        { assert s[j] == c; }
        s;
      }
    }
  }

  lemma LineEndAfter(p: string, t: string)
    requires NoLineBreak(p)
    ensures LineEnd(p + "\n" + t, 0) == |p|
  {
    var s := p + "\n" + t;
    assert s[|p|] == '\n';
    assert forall k :: 0 <= k < |p| ==> s[k] == p[k];
  }

  lemma LineEndWhole(p: string)
    requires NoLineBreak(p)
    ensures LineEnd(p, 0) == |p|
  {
    assert forall k :: 0 <= k < |p| ==> p[k] in p;
  }

  /**
   * Reading back a newline-joined list of break-free lines yields its non-empty lines: the only line
   * splitlines can lose is an empty last one, and the readers discard empty lines anyway.
   */
  lemma {:induction false} SplitLinesJoin(parts: seq<string>)
    requires forall k :: 0 <= k < |parts| ==> NoLineBreak(parts[k])
    ensures NonEmpty(SplitLines(Join(parts, "\n"))) == NonEmpty(parts)
  {
    if |parts| == 0 {
    } else if |parts| == 1 {
      if parts[0] != "" {
        LineEndWhole(parts[0]);
      }
    } else {
      var rest := Join(parts[1..], "\n");
      calc {
        NonEmpty(SplitLines(Join(parts, "\n")));
        NonEmpty(SplitLines(parts[0] + "\n" + rest));
        { SplitLinesCons(parts[0], rest); }
        NonEmpty([parts[0]] + SplitLines(rest));
        { NonEmptyAppend([parts[0]], SplitLines(rest)); }
        NonEmpty([parts[0]]) + NonEmpty(SplitLines(rest));
        { SplitLinesJoin(parts[1..]); }
        NonEmpty([parts[0]]) + NonEmpty(parts[1..]);
        { NonEmptyAppend([parts[0]], parts[1..]); assert parts == [parts[0]] + parts[1..]; }
        NonEmpty(parts);
      }
    }
  }

  /** A break-free line followed by "\n" is split off as the first line. */
  lemma SplitLinesCons(p: string, rest: string)
    requires NoLineBreak(p)
    ensures SplitLines(p + "\n" + rest) == [p] + SplitLines(rest)
  {
    var s := p + "\n" + rest;
    LineEndAfter(p, rest);
    assert s[..|p|] == p;
    assert s[|p| + 1..] == rest;
  }

  lemma {:induction false} NonEmptyAppend(xs: seq<string>, ys: seq<string>)
    ensures NonEmpty(xs + ys) == NonEmpty(xs) + NonEmpty(ys)
  {
    if xs == [] {
      assert xs + ys == ys;
    } else {
      assert (xs + ys)[1..] == xs[1..] + ys;
      NonEmptyAppend(xs[1..], ys);
    }
  }

  // ---------------------------------------------------------------- newline translation

  /** Path.write_text on Windows: every "\n" is written as "\r\n". */
  function WindowsNewlines(s: string): (r: string)
    ensures |r| == |s| + Occurrences(s, '\n')
  {
    if s == [] then []
    else (if s[0] == '\n' then "\r\n" else [s[0]]) + WindowsNewlines(s[1..])
  }

  /** Path.read_text with universal newlines: "\r\n" and a lone "\r" both read as "\n". */
  function UniversalNewlines(s: string): (r: string)
    ensures '\r' !in r
    ensures |r| <= |s|
  {
    if s == [] then []
    else if s[0] == '\r' then "\n" + UniversalNewlines(if |s| > 1 && s[1] == '\n' then s[2..] else s[1..])
    else [s[0]] + UniversalNewlines(s[1..])
  }

  /** Text without carriage returns survives a write_text/read_text round trip unchanged. */
  lemma {:induction false} NewlinesRoundTrip(s: string)
    requires '\r' !in s
    ensures UniversalNewlines(WindowsNewlines(s)) == s
  {
    if s != [] {
      assert '\r' !in s[1..] by {
        forall c | c in s[1..] ensures c != '\r' {
          assert c in s;
        }
      }
      NewlinesRoundTrip(s[1..]);
      var w := WindowsNewlines(s[1..]);
      if s[0] == '\n' {
        assert WindowsNewlines(s) == "\r\n" + w;
        assert ("\r\n" + w)[2..] == w;
      } else {
        assert WindowsNewlines(s) == [s[0]] + w;
        assert ([s[0]] + w)[1..] == w;
      }
    }
  }

  // ---------------------------------------------------------------- numbers

  function DigitValue(c: char): nat
    requires IsDigit(c)
  {
    c as int - '0' as int
  }

  function DigitChar(d: nat): (c: char)
    requires d < 10
    ensures IsDigit(c) && DigitValue(c) == d
  {
    ('0' as int + d) as char
  }

  /** The value of a run of decimal digits (leading zeros allowed, "" reads as 0). */
  function DigitsValue(s: string): nat
    requires AllDigits(s)
  {
    if s == [] then 0 else DigitsValue(s[..|s| - 1]) * 10 + DigitValue(s[|s| - 1])
  }

  /** str(n) for a natural number: the shortest decimal spelling. */
  function NatToString(n: nat): (s: string)
    ensures |s| >= 1 && AllDigits(s)
    ensures n > 0 ==> s[0] != '0'
  {
    if n < 10 then [DigitChar(n)] else NatToString(n / 10) + [DigitChar(n % 10)]
  }

  lemma {:induction false} NatToStringValue(n: nat)
    ensures DigitsValue(NatToString(n)) == n
  {
    if n >= 10 {
      NatToStringValue(n / 10);
      var s := NatToString(n);
      assert s[..|s| - 1] == NatToString(n / 10);
    }
  }

  /** Digit groups separated by single underscores, the body int() accepts ("1_000"). */
  predicate IsDigitGroups(s: string) {
    && |s| > 0
    && IsDigit(s[0])
    && IsDigit(s[|s| - 1])
    && (forall i :: 0 <= i < |s| ==> IsDigit(s[i]) || s[i] == '_')
    && (forall i :: 0 < i < |s| ==> s[i] == '_' ==> s[i - 1] != '_')
  }

  function DropUnderscores(s: string): (r: string)
    requires forall i :: 0 <= i < |s| ==> IsDigit(s[i]) || s[i] == '_'
    ensures AllDigits(r)
  {
    if s == [] then []
    else (if s[0] == '_' then [] else [s[0]]) + DropUnderscores(s[1..])
  }

  /**
   * int(text) for a str argument: surrounding whitespace, an optional sign, then decimal digit groups.
   * `None` stands for the ValueError raised on anything else, including "".
   */
  function ParseInt(text: string): (r: Option<int>)
    ensures r.Some? ==> exists i :: 0 <= i < |text| && IsDigit(text[i])
    ensures text == "" ==> r.None?
    ensures |text| >= 1 && AllDigits(text) ==> r == Some(DigitsValue(text) as int)
  {
    ParseIntDigits(text);
    var t := Strip(text);
    var signed := |t| > 0 && (t[0] == '-' || t[0] == '+');
    var body := if signed then t[1..] else t;
    if !IsDigitGroups(body) then None
    else
      assert IsDigit(body[0]);
      var magnitude := DigitsValue(DropUnderscores(body)) as int;
      Some(if signed && t[0] == '-' then -magnitude else magnitude)
  }

  lemma {:induction false} DropUnderscoresOfDigits(s: string)
    requires AllDigits(s)
    ensures DropUnderscores(s) == s
  {
    if s != [] {
      DropUnderscoresOfDigits(s[1..]);
      assert s == [s[0]] + s[1..];
    }
  }

  /** A plain run of digits needs neither stripping nor underscore removal. */
  lemma ParseIntDigits(text: string)
    ensures |text| >= 1 && AllDigits(text) ==>
      && Strip(text) == text
      && IsDigitGroups(text)
      && DropUnderscores(text) == text
  {
    if |text| >= 1 && AllDigits(text) {
      assert IsDigit(text[0]) && IsDigit(text[|text| - 1]);
      StripStripped(text);
      DropUnderscoresOfDigits(text);
    }
  }

  /** int(str(n)) == n */
  lemma ParseIntNat(n: nat)
    ensures ParseInt(NatToString(n)) == Some(n)
  {
    NatToStringValue(n);
  }
}
