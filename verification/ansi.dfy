/**
 * AnsiTextFormatter: turns text with inline CSI escape sequences (ECMA-48, SGR in section 8.3.117)
 * into HTML spans. Six display attributes persist between calls; only sequences whose final byte is
 * 'm' change them, every other recognised sequence is dropped from the output.
 */
module Ansi {
  import opened Outcomes
  import opened Text

  const Esc: char := '\U{1B}'

  /** An index into Colors. */
  type ColorIndex = i: nat | i < 8

  /** The font weights PARAM_MAP can set. */
  type Weight = w: nat | w == 200 || w == 400 || w == 800 witness 400

  const Colors: seq<string> := ["#000", "#F44", "#2E2", "#FF0", "#48F", "#F4D", "#0DF", "#CCC"]

  datatype Attrs = Attrs(
    fg: ColorIndex,
    bg: ColorIndex,
    weight: Weight,
    italic: bool,
    underline: bool,
    strikethrough: bool)

  /** The attributes after reset(). */
  const Default: Attrs := Attrs(7, 0, 400, false, false, false)

  /** An entry of PARAM_MAP: the attribute to set and its new value. */
  datatype Action =
    | SetFg(color: ColorIndex)
    | SetBg(color: ColorIndex)
    | SetWeight(weight: Weight)
    | SetItalic(on: bool)
    | SetUnderline(on: bool)
    | SetStrikethrough(on: bool)

  /** len(PARAM_MAP): larger parameter values are ignored. */
  const ParamMapSize: nat := 108

  /** PARAM_MAP[v]; `None` where the table holds None. */
  function ParamAction(v: nat): Option<Action>
    requires v < ParamMapSize
  {
    if v == 1 then Some(SetWeight(800))
    else if v == 2 then Some(SetWeight(200))
    else if v == 3 then Some(SetItalic(true))
    else if v == 4 then Some(SetUnderline(true))
    else if v == 9 then Some(SetStrikethrough(true))
    else if v == 22 then Some(SetWeight(400))
    else if v == 23 then Some(SetItalic(false))
    else if v == 24 then Some(SetUnderline(false))
    else if v == 29 then Some(SetStrikethrough(false))
    else if v == 39 then Some(SetFg(7))
    else if v == 49 then Some(SetBg(0))
    else if 30 <= v < 38 then Some(SetFg(v - 30))
    else if 40 <= v < 48 then Some(SetBg(v - 40))
    else if 90 <= v < 98 then Some(SetFg(v - 90))
    else if 100 <= v < 108 then Some(SetBg(v - 100))
    else None
  }

  function Apply(a: Attrs, act: Action): Attrs {
    match act
    case SetFg(c) => a.(fg := c)
    case SetBg(c) => a.(bg := c)
    case SetWeight(w) => a.(weight := w)
    case SetItalic(b) => a.(italic := b)
    case SetUnderline(b) => a.(underline := b)
    case SetStrikethrough(b) => a.(strikethrough := b)
  }

  /** How many of the six attributes differ between `a` and `b`. */
  function ChangedAttrs(a: Attrs, b: Attrs): nat {
    (if a.fg != b.fg then 1 else 0) + (if a.bg != b.bg then 1 else 0)
    + (if a.weight != b.weight then 1 else 0) + (if a.italic != b.italic then 1 else 0)
    + (if a.underline != b.underline then 1 else 0) + (if a.strikethrough != b.strikethrough then 1 else 0)
  }

  /**
   * One numeric SGR parameter. A table entry wins; 0 resets; 38 and 48 only `continue` the loop, so
   * they leave the attributes alone like every other unmapped or out-of-table value.
   */
  function ApplyParam(a: Attrs, v: nat): (r: Attrs)
    ensures v == 0 ==> r == Default
    ensures v >= ParamMapSize ==> r == a
    ensures v != 0 ==> ChangedAttrs(a, r) <= 1
  {
    if v < ParamMapSize then
      match ParamAction(v)
      case Some(act) => Apply(a, act)
      case None => if v == 0 then Default else a
    else a
  }

  // ---------------------------------------------------------------- SGR parameter lists

  /** Index of the first non-digit at or after the start, or |s|. */
  function FirstNonDigit(s: string): (j: nat)
    ensures j <= |s|
    ensures j < |s| ==> !IsDigit(s[j])
    ensures forall k :: 0 <= k < j ==> IsDigit(s[k])
  {
    if s == [] || !IsDigit(s[0]) then 0 else 1 + FirstNonDigit(s[1..])
  }

  /** re.split(r"\D", args): the digit fields between non-digits, empty fields included. */
  function Fields(s: string): (fs: seq<string>)
    ensures |fs| >= 1
    ensures forall k :: 0 <= k < |fs| ==> AllDigits(fs[k])
    decreases |s|
  {
    var j := FirstNonDigit(s);
    if j == |s| then [s] else [s[..j]] + Fields(s[j + 1..])
  }

  /** The attributes after an SGR parameter list; `BadParam` is int('') raising on an empty field. */
  datatype SgrResult = Applied(attrs: Attrs) | BadParam(attrs: Attrs)

  function ApplyFields(a: Attrs, fs: seq<string>): SgrResult
    requires forall k :: 0 <= k < |fs| ==> AllDigits(fs[k])
    decreases |fs|
  {
    if fs == [] then Applied(a)
    else if fs[0] == "" then BadParam(a)
    else ApplyFields(ApplyParam(a, DigitsValue(fs[0])), fs[1..])
  }

  /** The parameters of one `ESC [ args m` sequence; an empty list resets. */
  function ApplySgr(a: Attrs, args: string): SgrResult {
    if args == "" then Applied(Default) else ApplyFields(a, Fields(args))
  }

  // ---------------------------------------------------------------- splitting text at escape sequences

  predicate IsParamChar(c: char) {
    IsDigit(c) || c == ';' || c == ':'
  }

  /** The class [a-zA-z]: the range A-z also takes in [ \ ] ^ _ and the backquote. */
  predicate IsFinalByte(c: char) {
    ('a' <= c <= 'z') || ('A' <= c <= 'z')
  }

  /** End of the run of parameter characters starting at `i`. */
  function ParamEnd(s: string, i: nat): (j: nat)
    requires i <= |s|
    ensures i <= j <= |s|
    ensures j < |s| ==> !IsParamChar(s[j])
    ensures forall k :: i <= k < j ==> IsParamChar(s[k])
    decreases |s| - i
  {
    if i == |s| || !IsParamChar(s[i]) then i else ParamEnd(s, i + 1)
  }

  /** The pattern \x1b\[([\d;:]*)([a-zA-z]) matches at `p`. */
  predicate SequenceAt(s: string, p: nat) {
    && p + 2 <= |s|
    && s[p] == Esc
    && s[p + 1] == '['
    && ParamEnd(s, p + 2) < |s|
    && IsFinalByte(s[ParamEnd(s, p + 2)])
  }

  /** The leftmost match at or after `p`, or |s|. */
  function NextSequence(s: string, p: nat): (m: nat)
    requires p <= |s|
    ensures p <= m <= |s|
    ensures m < |s| ==> SequenceAt(s, m)
    ensures forall q :: p <= q < m ==> !SequenceAt(s, q)
    decreases |s| - p
  {
    if p == |s| then p
    else if SequenceAt(s, p) then p
    else NextSequence(s, p + 1)
  }

  /** The pattern matches nowhere in `s`. */
  predicate NoSequence(s: string) {
    forall q :: 0 <= q < |s| ==> !SequenceAt(s, q)
  }

  /**
   * One batch of three of `["", ""] + re.split(...)`: the parameters and final byte of a sequence,
   * and the plain text up to the next one. The first section has an empty final byte.
   */
  datatype Section = Section(args: string, final: string, plain: string)

  /** A section that starts with a matched sequence: parameter characters and one final byte. */
  predicate IsSequenceSection(sec: Section) {
    && |sec.final| == 1
    && IsFinalByte(sec.final[0])
    && forall i :: 0 <= i < |sec.args| ==> IsParamChar(sec.args[i])
  }

  /** Every section after the first starts with a matched sequence. */
  predicate LaterSequences(secs: seq<Section>) {
    forall k :: 1 <= k < |secs| ==> IsSequenceSection(secs[k])
  }

  /** No plain run holds a match: re.split cut the text at every one. */
  predicate PlainRunsClean(secs: seq<Section>) {
    forall k :: 0 <= k < |secs| ==> NoSequence(secs[k].plain)
  }

  function SectionsFrom(s: string, args: string, final: string): (secs: seq<Section>)
    ensures |secs| >= 1 && secs[0].args == args && secs[0].final == final
    ensures LaterSequences(secs)
    ensures PlainRunsClean(secs)
    decreases |s|
  {
    var m := NextSequence(s, 0);
    if m == |s| then [Section(args, final, s)]
    else
      var e := ParamEnd(s, m + 2);
      PrefixBeforeMatch(s, m);
      [Section(args, final, s[..m])] + SectionsFrom(s[e + 1..], s[m + 2..e], [s[e]])
  }

  /**
   * The sections of a text: the first has no sequence, every later one starts with a matched
   * sequence, and together they are the text.
   */
  function Sections(s: string): (r: seq<Section>)
    ensures |r| >= 1 && r[0].args == "" && r[0].final == ""
    ensures LaterSequences(r)
    ensures PlainRunsClean(r)
    ensures Unsplit(r) == s
  {
    SectionsFromUnsplit(s, "", "");
    assert Lead("", "") == "";
    SectionsFrom(s, "", "")
  }

  /** The escape sequence a section starts with, as it appeared in the text. */
  function Lead(args: string, final: string): string {
    if final == "" then "" else [Esc, '['] + args + final
  }

  /** The source text a section stands for. */
  function SectionText(sec: Section): string {
    Lead(sec.args, sec.final) + sec.plain
  }

  function Unsplit(secs: seq<Section>): string
    decreases |secs|
  {
    if secs == [] then "" else SectionText(secs[0]) + Unsplit(secs[1..])
  }

  lemma Reassemble(s: string, m: nat, e: nat)
    requires m + 2 <= e < |s| && s[m] == Esc && s[m + 1] == '['
    ensures s == s[..m] + (Lead(s[m + 2..e], [s[e]]) + s[e + 1..])
  {
    assert Lead(s[m + 2..e], [s[e]]) == [Esc, '['] + s[m + 2..e] + [s[e]];
    assert s[m..] == [Esc, '['] + s[m + 2..];
    assert s[m + 2..] == s[m + 2..e] + ([s[e]] + s[e + 1..]);
    assert s == s[..m] + s[m..];
  }

  /** Splitting loses nothing: the sections put back together are the text. */
  lemma {:induction false} SectionsFromUnsplit(s: string, args: string, final: string)
    ensures Unsplit(SectionsFrom(s, args, final)) == Lead(args, final) + s
    decreases |s|
  {
    var m := NextSequence(s, 0);
    if m == |s| {
      var secs := SectionsFrom(s, args, final);
      assert secs == [Section(args, final, s)];
      assert Unsplit(secs) == SectionText(secs[0]) + Unsplit([]);
    } else {
      var e := ParamEnd(s, m + 2);
      SectionsFromUnsplit(s[e + 1..], s[m + 2..e], [s[e]]);
      SectionsFromUnsplitStep(s, args, final, m, e);
    }
  }

  /** A match inside a prefix of `s` is a match in `s`: the parameter run and final byte are the same. */
  lemma SequenceInPrefix(s: string, n: nat, q: nat)
    requires n <= |s|
    ensures SequenceAt(s[..n], q) ==> SequenceAt(s, q)
  {
    if SequenceAt(s[..n], q) {
      var t := s[..n];
      var j := ParamEnd(t, q + 2);
      assert forall k :: q + 2 <= k <= j ==> s[k] == t[k];
      ParamEndOfRun(s, q + 2, j);
    }
  }

  /** The text before the leftmost match holds no match. */
  lemma PrefixBeforeMatch(s: string, m: nat)
    requires m <= |s|
    requires forall q :: 0 <= q < m ==> !SequenceAt(s, q)
    ensures NoSequence(s[..m])
  {
    forall q | 0 <= q < m
      ensures !SequenceAt(s[..m], q)
    {
      SequenceInPrefix(s, m, q);
    }
  }

  /** The step of SectionsFromUnsplit: the text before the first sequence, then the rest. */
  lemma SectionsFromUnsplitStep(s: string, args: string, final: string, m: nat, e: nat)
    requires m == NextSequence(s, 0) < |s| && e == ParamEnd(s, m + 2)
    requires Unsplit(SectionsFrom(s[e + 1..], s[m + 2..e], [s[e]])) == Lead(s[m + 2..e], [s[e]]) + s[e + 1..]
    ensures Unsplit(SectionsFrom(s, args, final)) == Lead(args, final) + s
  {
    var rest := SectionsFrom(s[e + 1..], s[m + 2..e], [s[e]]);
    var secs := [Section(args, final, s[..m])] + rest;
    SectionsFromStep(s, args, final, m, e);
    calc {
      Unsplit(SectionsFrom(s, args, final));
      Unsplit(secs);
      { assert secs[1..] == rest; }
      SectionText(Section(args, final, s[..m])) + Unsplit(rest);
      Lead(args, final) + s[..m] + (Lead(s[m + 2..e], [s[e]]) + s[e + 1..]);
      { Reassemble(s, m, e); }
      Lead(args, final) + s;
    }
  }

  // ---------------------------------------------------------------- HTML output

  /** html.escape(c) with quote=True. */
  function EscapeChar(c: char): string {
    if c == '&' then "&amp;"
    else if c == '<' then "&lt;"
    else if c == '>' then "&gt;"
    else if c == '"' then "&quot;"
    else if c == '\'' then "&#x27;"
    else [c]
  }

  predicate IsHtmlSpecial(c: char) {
    c == '&' || c == '<' || c == '>' || c == '"' || c == '\''
  }

  /** html.escape(s) */
  function HtmlEscape(s: string): (r: string)
    ensures (s == []) <==> (r == [])
    ensures Esc in r ==> Esc in s
    ensures (forall i :: 0 <= i < |s| ==> !IsHtmlSpecial(s[i])) ==> r == s
  {
    if s == [] then []
    else
      var r := EscapeChar(s[0]) + HtmlEscape(s[1..]);
      assert Esc in r ==> Esc in s by {
        if Esc in HtmlEscape(s[1..]) {
          assert Esc in s[1..];
        }
      }
      r
  }

  /** The colour text is drawn in: fg, but black is drawn as grey; on a coloured background, black. */
  function TextColor(a: Attrs): (r: string)
    ensures r in Colors
    ensures (a.bg == 0) <==> (r != Colors[0])
  {
    if a.bg == 0 then Colors[if a.fg == 0 then 7 else a.fg] else Colors[0]
  }

  function ColorStyle(a: Attrs): seq<string> {
    if a.bg == 0 then ["color: " + TextColor(a)]
    else ["color: " + TextColor(a), "background-color: " + Colors[a.bg]]
  }

  function WeightStyle(a: Attrs): seq<string> {
    if a.weight != 400 then ["font-weight: " + NatToString(a.weight)] else []
  }

  function ItalicStyle(a: Attrs): seq<string> {
    if a.italic then ["font-style: italic"] else []
  }

  function DecorationStyle(a: Attrs): seq<string> {
    if a.underline && a.strikethrough then ["text-decoration: underline line-through"]
    else if a.underline then ["text-decoration: underline"]
    else if a.strikethrough then ["text-decoration: line-through"]
    else []
  }

  /** The declarations of the style attribute, in output order. */
  function StyleParts(a: Attrs): (r: seq<string>)
    ensures 1 <= |r| <= 5
    ensures r[0] == "color: " + TextColor(a)
    ensures a.bg != 0 ==> |r| >= 2 && r[1] == "background-color: " + Colors[a.bg]
  {
    ColorStyle(a) + WeightStyle(a) + ItalicStyle(a) + DecorationStyle(a)
  }

  /** The plain text wrapped in a span: the text comes last before the closing tag. */
  function Span(a: Attrs, plain: string): (r: string)
    ensures |r| >= |plain| + 7
    ensures r[|r| - 7 - |plain|..|r| - 7] == plain && r[|r| - 7..] == "</span>"
    ensures |r| >= 13 && r[..13] == "<span style=\""
  {
    var open := "<span style=\"" + Join(StyleParts(a), "; ") + "\">";
    Wrapped(open, plain, "</span>");
    assert open[..13] == "<span style=\"";
    open + plain + "</span>"
  }

  lemma Wrapped(open: string, mid: string, close: string)
    ensures var r := open + mid + close;
      && r[..|open|] == open
      && r[|open|..|open| + |mid|] == mid
      && r[|open| + |mid|..] == close
  {
  }

  // ---------------------------------------------------------------- format()

  /** The result of format(): `Rejected` is the ValueError, with the attributes as they stood then. */
  datatype Formatted = Rendered(attrs: Attrs, html: string) | Rejected(attrs: Attrs)

  function ApplySection(a: Attrs, sec: Section): SgrResult {
    if sec.final == "m" then ApplySgr(a, sec.args) else Applied(a)
  }

  /** No section starts with an SGR sequence. */
  predicate NoSgr(secs: seq<Section>) {
    forall k :: 0 <= k < |secs| ==> secs[k].final != "m"
  }

  /** No section has plain text after its sequence. */
  predicate NoPlain(secs: seq<Section>) {
    forall k :: 0 <= k < |secs| ==> secs[k].plain == ""
  }

  /**
   * Sections without an SGR sequence never change the attributes and never fail; sections without
   * plain text produce no HTML.
   */
  function FormatSections(a: Attrs, secs: seq<Section>): (r: Formatted)
    ensures NoSgr(secs) ==> r.Rendered? && r.attrs == a
    ensures NoPlain(secs) && r.Rendered? ==> r.html == ""
    decreases |secs|
  {
    if secs == [] then Rendered(a, "")
    else
      match ApplySection(a, secs[0])
      case BadParam(b) => Rejected(b)
      case Applied(b) =>
        var span := if secs[0].plain == "" then "" else Span(b, secs[0].plain);
        match FormatSections(b, secs[1..])
        case Rejected(c) => Rejected(c)
        case Rendered(c, html) => Rendered(c, span + html)
  }

  /** format(text): the HTML for `text` and the attributes the next call starts from. */
  function Format(a: Attrs, text: string): (r: Formatted)
    ensures NoSequence(text) ==> r.Rendered? && r.attrs == a
    ensures Esc !in text ==> r.Rendered? && r.attrs == a
    ensures text == "" ==> r == Rendered(a, "")
  {
    FormatWithoutSequence(a, text);
    EscFreeNoSequence(text);
    FormatSections(a, Sections(HtmlEscape(text)))
  }

  // ---------------------------------------------------------------- properties

  /** The facts behind Format's contract: text the pattern does not match is a single plain section. */
  lemma FormatWithoutSequence(a: Attrs, text: string)
    ensures NoSequence(text) ==>
      var r := FormatSections(a, Sections(HtmlEscape(text)));
      r.Rendered? && r.attrs == a && (text == "" ==> r.html == "")
  {
    if NoSequence(text) {
      var s := HtmlEscape(text);
      EscapeKeepsNoSequence(text);
      OneSection(s);
      assert NoSgr([Section("", "", s)]);
    }
  }

  /** Text without an escape character holds no match. */
  lemma EscFreeNoSequence(s: string)
    ensures Esc !in s ==> NoSequence(s)
  {
    assert forall q :: 0 <= q < |s| ==> s[q] in s;
  }

  /** Text the pattern does not match is a single section with no arguments and no final byte. */
  lemma OneSection(s: string)
    requires NoSequence(s)
    ensures Sections(s) == [Section("", "", s)]
  {
    assert NextSequence(s, 0) == |s|;
  }

  /** Formatting one section that carries no SGR sequence. */
  lemma FormatPlainSection(a: Attrs, sec: Section)
    requires sec.final != "m"
    ensures FormatSections(a, [sec]) == Rendered(a, if sec.plain == "" then "" else Span(a, sec.plain))
  {
    assert [sec][1..] == [];
  }

  /** Text the pattern does not match is one span in the current style; empty text is "". */
  lemma PlainText(a: Attrs, text: string)
    requires NoSequence(text)
    ensures Format(a, text) == Rendered(a, if text == "" then "" else Span(a, HtmlEscape(text)))
  {
    var s := HtmlEscape(text);
    EscapeKeepsNoSequence(text);
    OneSection(s);
    FormatPlainSection(a, Section("", "", s));
  }

  /** `w` starts with parameter characters followed by a final byte. */
  predicate RunThenFinal(w: string)
    decreases |w|
  {
    w != [] && (IsFinalByte(w[0]) || (IsParamChar(w[0]) && RunThenFinal(w[1..])))
  }

  /** The pattern matches at the start of `u`. */
  predicate StartsSequence(u: string) {
    |u| >= 2 && u[0] == Esc && u[1] == '[' && RunThenFinal(u[2..])
  }

  lemma {:induction false} RunThenFinalAt(s: string, i: nat)
    requires i <= |s|
    ensures (ParamEnd(s, i) < |s| && IsFinalByte(s[ParamEnd(s, i)])) <==> RunThenFinal(s[i..])
    decreases |s| - i
  {
    if i < |s| && IsParamChar(s[i]) {
      RunThenFinalAt(s, i + 1);
      assert s[i..][1..] == s[i + 1..];
    }
  }

  /** Whether the pattern matches at `p` depends only on the text from `p` on. */
  lemma SequenceAtSuffix(s: string, p: nat)
    requires p <= |s|
    ensures SequenceAt(s, p) <==> StartsSequence(s[p..])
  {
    if p + 2 <= |s| {
      RunThenFinalAt(s, p + 2);
      assert s[p..][2..] == s[p + 2..];
    }
  }

  /** A match after the text `x` is a match in what follows `x`, and back. */
  lemma SequenceAtAfter(x: string, y: string, q: nat)
    requires |x| <= q <= |x| + |y|
    ensures SequenceAt(x + y, q) <==> SequenceAt(y, q - |x|)
  {
    SequenceAtSuffix(x + y, q);
    SequenceAtSuffix(y, q - |x|);
    assert (x + y)[q..] == y[q - |x|..];
  }

  /** An escaped run of parameters and a final byte was one before escaping. */
  lemma {:induction false} EscapedRun(w: string)
    ensures RunThenFinal(HtmlEscape(w)) ==> RunThenFinal(w)
    decreases |w|
  {
    if w != [] && !IsHtmlSpecial(w[0]) {
      var e := HtmlEscape(w);
      assert e == [w[0]] + HtmlEscape(w[1..]);
      assert e[1..] == HtmlEscape(w[1..]);
      EscapedRun(w[1..]);
    }
  }

  /** A match at the start of escaped text was a match at the start of the text. */
  lemma EscapedStart(t: string)
    ensures StartsSequence(HtmlEscape(t)) ==> StartsSequence(t)
  {
    if |t| >= 2 {
      EscapeTwo(t);
      EscapeCharShape(t[0]);
      EscapeCharShape(t[1]);
      if !IsHtmlSpecial(t[0]) && !IsHtmlSpecial(t[1]) {
        assert HtmlEscape(t)[2..] == HtmlEscape(t[2..]);
        EscapedRun(t[2..]);
      }
    } else if t != [] {
      assert HtmlEscape(t) == EscapeChar(t[0]) + HtmlEscape(t[1..]);
      EscapeCharShape(t[0]);
    }
  }

  /** The escape of a text of two or more characters, its first two characters unfolded. */
  lemma EscapeTwo(t: string)
    requires |t| >= 2
    ensures HtmlEscape(t) == EscapeChar(t[0]) + (EscapeChar(t[1]) + HtmlEscape(t[2..]))
  {
    assert HtmlEscape(t) == EscapeChar(t[0]) + HtmlEscape(t[1..]);
    assert t[1..][1..] == t[2..];
  }

  /** A special character becomes an entity starting with '&'; any other stays as it is. */
  lemma EscapeCharShape(c: char)
    ensures IsHtmlSpecial(c) ==> |EscapeChar(c)| >= 2 && EscapeChar(c)[0] == '&'
    ensures !IsHtmlSpecial(c) ==> EscapeChar(c) == [c]
  {
  }

  /** html.escape never creates a match: it only adds '&', letters, digits, '#' and ';' after an '&'. */
  lemma {:induction false} EscapeKeepsNoSequence(t: string)
    ensures NoSequence(t) ==> NoSequence(HtmlEscape(t))
    decreases |t|
  {
    if t != [] && NoSequence(t) {
      NoSequenceTail(t);
      EscapeKeepsNoSequence(t[1..]);
      EscapedCons(t);
    }
  }

  /** Dropping the first character creates no match. */
  lemma NoSequenceTail(t: string)
    requires t != [] && NoSequence(t)
    ensures NoSequence(t[1..])
  {
    assert t == [t[0]] + t[1..];
    forall q | 0 <= q < |t[1..]|
      ensures !SequenceAt(t[1..], q)
    {
      SequenceAtAfter([t[0]], t[1..], q + 1);
    }
  }

  /** The escape of the first character, put before match-free escaped text, creates no match. */
  lemma EscapedCons(t: string)
    requires t != [] && NoSequence(t) && NoSequence(HtmlEscape(t[1..]))
    ensures NoSequence(HtmlEscape(t))
  {
    var x, rest := EscapeChar(t[0]), HtmlEscape(t[1..]);
    var e := HtmlEscape(t);
    assert e == x + rest;
    EscapeCharShape(t[0]);
    forall q | 0 <= q < |e|
      ensures !SequenceAt(e, q)
    {
      if q >= |x| {
        SequenceAtAfter(x, rest, q);
      } else if IsHtmlSpecial(t[0]) {
        EntityNoEsc(t[0], q);
      } else {
        EscapedStart(t);
        SequenceAtSuffix(e, 0);
        SequenceAtSuffix(t, 0);
        assert e[0..] == e && t[0..] == t;
      }
    }
  }

  /** An entity holds no escape character. */
  lemma EntityNoEsc(c: char, q: nat)
    requires IsHtmlSpecial(c) && q < |EscapeChar(c)|
    ensures EscapeChar(c)[q] != Esc
  {
  }

  lemma ParamEndOfRun(s: string, i: nat, j: nat)
    requires i <= j <= |s|
    requires forall k :: i <= k < j ==> IsParamChar(s[k])
    requires j < |s| ==> !IsParamChar(s[j])
    ensures ParamEnd(s, i) == j
  {
  }

  /** The text of a single escape sequence with parameters `args` and final byte `f`. */
  function Csi(args: string, f: char): string {
    [Esc, '['] + args + [f]
  }

  lemma SectionsOfEmpty(args: string, final: string)
    ensures SectionsFrom("", args, final) == [Section(args, final, "")]
  {
    assert NextSequence("", 0) == 0;
  }

  lemma CsiEscapesToItself(args: string, f: char)
    requires forall i :: 0 <= i < |args| ==> IsParamChar(args[i])
    requires IsFinalByte(f)
    ensures HtmlEscape(Csi(args, f)) == Csi(args, f)
  {
    var s := Csi(args, f);
    forall i | 0 <= i < |s| ensures !IsHtmlSpecial(s[i]) {
      if 2 <= i < |s| - 1 {
        assert s[i] == args[i - 2];
      }
    }
  }

  /** A lone sequence is split into an empty leading section and its own empty-text section. */
  lemma CsiSections(args: string, f: char)
    requires forall i :: 0 <= i < |args| ==> IsParamChar(args[i])
    requires IsFinalByte(f)
    ensures HtmlEscape(Csi(args, f)) == Csi(args, f)
    ensures Sections(Csi(args, f)) == [Section("", "", ""), Section(args, [f], "")]
  {
    CsiEscapesToItself(args, f);
    CsiSplit(args, f);
  }

  lemma CsiSplit(args: string, f: char)
    requires forall i :: 0 <= i < |args| ==> IsParamChar(args[i])
    requires IsFinalByte(f)
    ensures Sections(Csi(args, f)) == [Section("", "", ""), Section(args, [f], "")]
  {
    assert "" + Csi(args, f) + "" == Csi(args, f);
    SectionsAtCsi("", args, f, "", "", "");
    SectionsOfEmpty(args, [f]);
  }

  /** Formatting a single section. */
  lemma FormatOne(a: Attrs, sec: Section)
    ensures FormatSections(a, [sec]) ==
      match ApplySection(a, sec)
      case BadParam(b) => Rejected(b)
      case Applied(b) => Rendered(b, if sec.plain == "" then "" else Span(b, sec.plain))
  {
    assert [sec][1..] == [];
  }

  /** Formatting a leading empty section followed by one more section. */
  lemma FormatAfterEmptyLead(a: Attrs, sec: Section)
    ensures FormatSections(a, [Section("", "", ""), sec]) ==
      match ApplySection(a, sec)
      case BadParam(b) => Rejected(b)
      case Applied(b) => Rendered(b, if sec.plain == "" then "" else Span(b, sec.plain))
  {
    var secs := [Section("", "", ""), sec];
    assert secs[1..] == [sec];
    assert ApplySection(a, secs[0]) == Applied(a);
    FormatOne(a, sec);
    match FormatSections(a, [sec])
    case Rejected(c) =>
    case Rendered(c, html) =>
      assert "" + html == html;
  }

  /** A sequence whose final byte is not 'm' changes nothing and produces no output. */
  lemma NonSgrSequenceIgnored(a: Attrs, args: string, f: char)
    requires forall i :: 0 <= i < |args| ==> IsParamChar(args[i])
    requires IsFinalByte(f) && f != 'm'
    ensures Format(a, Csi(args, f)) == Rendered(a, "")
  {
    var secs := [Section("", "", ""), Section(args, [f], "")];
    assert Format(a, Csi(args, f)) == FormatSections(a, secs) by {
      CsiSections(args, f);
    }
    FormatAfterEmptyLead(a, Section(args, [f], ""));
  }

  /** A lone SGR sequence produces no output and leaves the attributes its parameters select. */
  lemma SgrSequence(a: Attrs, args: string)
    requires forall i :: 0 <= i < |args| ==> IsParamChar(args[i])
    ensures Format(a, Csi(args, 'm')) ==
      match ApplySgr(a, args)
      case Applied(b) => Rendered(b, "")
      case BadParam(b) => Rejected(b)
  {
    var secs := [Section("", "", ""), Section(args, "m", "")];
    assert Format(a, Csi(args, 'm')) == FormatSections(a, secs) by {
      CsiSections(args, 'm');
    }
    FormatAfterEmptyLead(a, Section(args, "m", ""));
  }

  /** SgrSequence for a parameter list that applies cleanly. */
  lemma SgrApplied(a: Attrs, args: string, b: Attrs)
    requires forall i :: 0 <= i < |args| ==> IsParamChar(args[i])
    requires ApplySgr(a, args) == Applied(b)
    ensures Format(a, Csi(args, 'm')) == Rendered(b, "")
  {
    SgrSequence(a, args);
  }

  /** SgrSequence for a parameter list that raises part-way. */
  lemma SgrRejected(a: Attrs, args: string, b: Attrs)
    requires forall i :: 0 <= i < |args| ==> IsParamChar(args[i])
    requires ApplySgr(a, args) == BadParam(b)
    ensures Format(a, Csi(args, 'm')) == Rejected(b)
  {
    SgrSequence(a, args);
  }

  lemma FieldsOfDigits(d: string)
    requires AllDigits(d)
    ensures Fields(d) == [d]
  {
    assert FirstNonDigit(d) == |d|;
  }

  lemma FieldsOfSeparated(d: string, sep: char, rest: string)
    requires AllDigits(d) && !IsDigit(sep)
    ensures Fields(d + [sep] + rest) == [d] + Fields(rest)
  {
    var s := d + [sep] + rest;
    assert forall k :: 0 <= k < |d| ==> s[k] == d[k];
    assert s[|d|] == sep;
    assert FirstNonDigit(s) == |d|;
    assert s[..|d|] == d && s[|d| + 1..] == rest;
  }

  lemma ApplyFieldsStep(a: Attrs, d: string, rest: seq<string>)
    requires AllDigits(d) && d != ""
    requires forall k :: 0 <= k < |rest| ==> AllDigits(rest[k])
    ensures ApplyFields(a, [d] + rest) == ApplyFields(ApplyParam(a, DigitsValue(d)), rest)
  {
    assert ([d] + rest)[0] == d && ([d] + rest)[1..] == rest;
  }

  lemma SingleDigit(c: char)
    requires IsDigit(c)
    ensures DigitsValue([c]) == DigitValue(c)
  {
    assert [c][..0] == [];
  }

  lemma TwoDigits(c: char, d: char)
    requires IsDigit(c) && IsDigit(d)
    ensures DigitsValue([c, d]) == DigitValue(c) * 10 + DigitValue(d)
  {
    assert [c, d][..1] == [c];
    SingleDigit(c);
  }

  lemma ZeroParams(a: Attrs)
    ensures ApplySgr(a, "0") == Applied(Default)
  {
    FieldsOfDigits("0");
    SingleDigit('0');
    ApplyFieldsStep(a, "0", []);
    assert ["0"] + [] == ["0"];
  }

  /** ESC[m and ESC[0m both restore the default attributes, whatever came before. */
  lemma ResetSequences(a: Attrs)
    ensures Format(a, Csi("", 'm')) == Rendered(Default, "")
    ensures Format(a, Csi("0", 'm')) == Rendered(Default, "")
  {
    SgrApplied(a, "", Default);
    ZeroParams(a);
    SgrApplied(a, "0", Default);
  }

  /** The parameter table: colours by index, the default colours, and nothing at or above 108. */
  lemma ParamMapping(a: Attrs, v: nat)
    ensures 30 <= v < 38 ==> ApplyParam(a, v) == a.(fg := v - 30)
    ensures 90 <= v < 98 ==> ApplyParam(a, v) == a.(fg := v - 90)
    ensures 40 <= v < 48 ==> ApplyParam(a, v) == a.(bg := v - 40)
    ensures 100 <= v < 108 ==> ApplyParam(a, v) == a.(bg := v - 100)
    ensures v == 39 ==> ApplyParam(a, v) == a.(fg := 7)
    ensures v == 49 ==> ApplyParam(a, v) == a.(bg := 0)
    ensures v == 0 ==> ApplyParam(a, v) == Default
    ensures v == 38 || v == 48 || v >= ParamMapSize ==> ApplyParam(a, v) == a
  {
  }

  /** The final byte class takes in ']' and '\\' too, so ESC[1] and ESC[2\\ are swallowed without effect. */
  lemma BracketFinalBytes(a: Attrs)
    ensures Format(a, Csi("1", ']')) == Rendered(a, "")
    ensures Format(a, Csi("2", '\\')) == Rendered(a, "")
  {
    NonSgrSequenceIgnored(a, "1", ']');
    NonSgrSequenceIgnored(a, "2", '\\');
  }

  lemma ExtendedFields()
    ensures Fields("38;5;4") == ["38"] + (["5"] + ["4"])
  {
    ExtendedSpelling();
    FieldsOfThree("38", "5", "4");
  }

  lemma ExtendedSpelling()
    ensures "38;5;4" == "38" + [';'] + ("5" + [';'] + "4")
  {
  }

  /** Three digit fields separated by semicolons. */
  lemma FieldsOfThree(x: string, y: string, z: string)
    requires AllDigits(x) && AllDigits(y) && AllDigits(z)
    ensures Fields(x + [';'] + (y + [';'] + z)) == [x] + ([y] + [z])
  {
    FieldsOfSeparated(x, ';', y + [';'] + z);
    FieldsOfSeparated(y, ';', z);
    FieldsOfDigits(z);
  }

  lemma ExtendedParams(a: Attrs)
    ensures ApplySgr(a, "38;5;4") == Applied(a.(underline := true))
  {
    ExtendedFields();
    ExtendedFieldsApplied(a);
  }

  lemma ExtendedFieldsApplied(a: Attrs)
    ensures ApplyFields(a, ["38"] + (["5"] + ["4"])) == Applied(a.(underline := true))
  {
    ExtendedDigits();
    calc {
      ApplyFields(a, ["38"] + (["5"] + ["4"]));
      { ApplyThreeFields(a, "38", "5", "4"); }
      Applied(ApplyParam(ApplyParam(ApplyParam(a, DigitsValue("38")), DigitsValue("5")), DigitsValue("4")));
      Applied(ApplyParam(ApplyParam(ApplyParam(a, 38), 5), 4));
      { ExtendedParamValues(a); }
      Applied(a.(underline := true));
    }
  }

  /** The three fields of ESC[38;5;4m are digit runs with the values 38, 5 and 4. */
  lemma ExtendedDigits()
    ensures AllDigits("38") && AllDigits("5") && AllDigits("4")
    ensures DigitsValue("38") == 38 && DigitsValue("5") == 5 && DigitsValue("4") == 4
  {
    TwoDigits('3', '8');
    SingleDigit('5');
    SingleDigit('4');
  }

  /** Three well-formed fields are applied one after the other. */
  lemma ApplyThreeFields(a: Attrs, x: string, y: string, z: string)
    requires AllDigits(x) && x != "" && AllDigits(y) && y != "" && AllDigits(z) && z != ""
    ensures ApplyFields(a, [x] + ([y] + [z])) ==
      Applied(ApplyParam(ApplyParam(ApplyParam(a, DigitsValue(x)), DigitsValue(y)), DigitsValue(z)))
  {
    var b := ApplyParam(a, DigitsValue(x));
    var c := ApplyParam(b, DigitsValue(y));
    ApplyFieldsStep(a, x, [y] + [z]);
    assert [z] == [z] + [];
    ApplyFieldsStep(b, y, [z]);
    ApplyFieldsStep(c, z, []);
  }

  /** 38 and 5 change nothing; 4 turns underlining on. */
  lemma ExtendedParamValues(a: Attrs)
    ensures ApplyParam(a, 38) == a && ApplyParam(a, 5) == a
    ensures ApplyParam(a, 4) == a.(underline := true)
  {
  }

  /**
   * 38 does not swallow the extended-colour parameters after it: in ESC[38;5;4m the palette index 4
   * is read as "underline on", and 5 is ignored as unmapped.
   */
  lemma ExtendedColourNotSkipped(a: Attrs)
    ensures Format(a, Csi("38;5;4", 'm')) == Rendered(a.(underline := true), "")
  {
    ExtendedParams(a);
    SgrApplied(a, "38;5;4", a.(underline := true));
  }

  lemma EmptyFieldParams(a: Attrs)
    ensures ApplySgr(a, "1;") == BadParam(a.(weight := 800))
  {
    FieldsOfDigits("");
    FieldsOfSeparated("1", ';', "");
    assert "1" + [';'] + "" == "1;";
    SingleDigit('1');
    ApplyFieldsStep(a, "1", [""]);
    assert ApplyParam(a, 1) == a.(weight := 800);
  }

  /** An empty field makes int('') raise, after the fields before it have taken effect. */
  lemma EmptyFieldRaises(a: Attrs)
    ensures Format(a, Csi("1;", 'm')) == Rejected(a.(weight := 800))
  {
    EmptyFieldParams(a);
    SgrRejected(a, "1;", a.(weight := 800));
  }

  lemma BoldParams(a: Attrs)
    ensures ApplySgr(a, "1") == Applied(a.(weight := 800))
  {
    FieldsOfDigits("1");
    SingleDigit('1');
    ApplyFieldsStep(a, "1", []);
    assert ["1"] + [] == ["1"];
    assert ApplyParam(a, 1) == a.(weight := 800);
  }

  /** ESC[1m turns bold on and renders nothing. */
  lemma BoldSequence(a: Attrs)
    ensures Format(a, Csi("1", 'm')) == Rendered(a.(weight := 800), "")
  {
    BoldParams(a);
    SgrApplied(a, "1", a.(weight := 800));
  }

  lemma WeightSpelling()
    ensures NatToString(200) == "200" && NatToString(400) == "400" && NatToString(800) == "800"
  {
    assert NatToString(2) == "2" && NatToString(4) == "4" && NatToString(8) == "8";
    assert NatToString(20) == "20" && NatToString(40) == "40" && NatToString(80) == "80";
  }

  /** Bold text is styled with font-weight 800. */
  lemma BoldDeclared(b: Attrs)
    requires b.weight == 800
    ensures "font-weight: 800" in StyleParts(b)
  {
    WeightSpelling();
    assert "font-weight: " + NatToString(800) == "font-weight: 800";
    WeightDeclared(b);
  }

  /** Attributes carry over from one call to the next: a bold sequence alone styles later text. */
  lemma AttributesCarryOver(a: Attrs, text: string)
    requires NoSequence(text) && text != ""
    ensures Format(a, Csi("1", 'm')) == Rendered(a.(weight := 800), "")
    ensures Format(a.(weight := 800), text) == Rendered(a.(weight := 800), Span(a.(weight := 800), HtmlEscape(text)))
    ensures "font-weight: 800" in StyleParts(a.(weight := 800))
  {
    BoldSequence(a);
    PlainText(a.(weight := 800), text);
    BoldDeclared(a.(weight := 800));
  }

  /**
   * Readability: exactly one of text and background is black. On the default background the text is
   * never black (fg 0 is drawn grey); on a coloured background the text is black.
   */
  lemma Readable(a: Attrs)
    ensures a.bg == 0 ==> TextColor(a) != Colors[0] && TextColor(a) == Colors[if a.fg == 0 then 7 else a.fg]
    ensures a.bg != 0 ==> TextColor(a) == Colors[0] && "background-color: " + Colors[a.bg] in StyleParts(a)
    ensures a.bg != 0 ==> Colors[a.bg] != Colors[0]
    ensures StyleParts(a)[0] == "color: " + TextColor(a)
  {
  }

  lemma InStyleParts(a: Attrs, p: string)
    ensures p in StyleParts(a) <==>
      p in ColorStyle(a) || p in WeightStyle(a) || p in ItalicStyle(a) || p in DecorationStyle(a)
  {
  }

  /** Colour declarations start with 'c' or 'b', font ones with 'f', decoration ones with 't'. */
  lemma StyleInitials(a: Attrs, p: string)
    ensures p in ColorStyle(a) ==> |p| > 0 && (p[0] == 'c' || p[0] == 'b')
    ensures p in WeightStyle(a) ==> |p| > 5 && p[0] == 'f' && p[5] == 'w'
    ensures p in ItalicStyle(a) ==> |p| > 5 && p[0] == 'f' && p[5] == 's'
    ensures p in DecorationStyle(a) ==> |p| > 0 && p[0] == 't'
  {
    assert ("color: " + TextColor(a))[0] == 'c';
    assert ("background-color: " + Colors[a.bg])[0] == 'b';
    var w := "font-weight: " + NatToString(a.weight);
    assert w[0] == 'f' && w[5] == 'w';
  }

  /** font-weight is declared exactly when the weight is not the normal 400. */
  lemma WeightDeclared(a: Attrs)
    ensures ("font-weight: " + NatToString(a.weight) in StyleParts(a)) <==> a.weight != 400
  {
    var w := "font-weight: " + NatToString(a.weight);
    assert w[0] == 'f' && w[5] == 'w';
    InStyleParts(a, w);
    StyleInitials(a, w);
  }

  /** background-color is declared exactly when the background is not the default black. */
  lemma BackgroundDeclared(a: Attrs)
    ensures ("background-color: " + Colors[a.bg] in StyleParts(a)) <==> a.bg != 0
  {
    var b := "background-color: " + Colors[a.bg];
    assert b[0] == 'b';
    if a.bg == 0 {
      assert ("color: " + TextColor(a))[0] == 'c';
      InStyleParts(a, b);
      StyleInitials(a, b);
    }
  }

  /** font-style is declared exactly when italic is on. */
  lemma ItalicDeclared(a: Attrs)
    ensures ("font-style: italic" in StyleParts(a)) <==> a.italic
  {
    var i := "font-style: italic";
    assert i[0] == 'f' && i[5] == 's';
    InStyleParts(a, i);
    StyleInitials(a, i);
  }

  /** Underline and strikethrough together give the one combined declaration. */
  lemma DecorationDeclared(a: Attrs)
    ensures ("text-decoration: underline line-through" in StyleParts(a)) <==> a.underline && a.strikethrough
    ensures ("text-decoration: underline" in StyleParts(a)) <==> a.underline && !a.strikethrough
    ensures ("text-decoration: line-through" in StyleParts(a)) <==> !a.underline && a.strikethrough
  {
    var both, under, through := "text-decoration: underline line-through", "text-decoration: underline", "text-decoration: line-through";
    assert both[0] == 't' && under[0] == 't' && through[0] == 't';
    assert |both| == 39 && |under| == 26 && |through| == 29;
    InStyleParts(a, both);
    InStyleParts(a, under);
    InStyleParts(a, through);
    StyleInitials(a, both);
    StyleInitials(a, under);
    StyleInitials(a, through);
  }

  // ---------------------------------------------------------------- composing texts

  /** html.escape works character by character. */
  lemma {:induction false} HtmlEscapeConcat(x: string, y: string)
    ensures HtmlEscape(x + y) == HtmlEscape(x) + HtmlEscape(y)
    decreases |x|
  {
    if x != [] {
      assert (x + y)[0] == x[0] && (x + y)[1..] == x[1..] + y;
      HtmlEscapeConcat(x[1..], y);
    } else {
      assert x + y == y;
    }
  }

  /** Text after the last sequence is the plain text of the last section. */
  lemma PlainSectionsFrom(s: string, args: string, final: string)
    requires Esc !in s
    ensures SectionsFrom(s, args, final) == [Section(args, final, s)]
  {
    assert forall q :: 0 <= q < |s| ==> s[q] in s;
    assert NextSequence(s, 0) == |s|;
  }

  /** One unfolding of SectionsFrom at the first sequence of `s`, which starts at `m` and ends at `e`. */
  lemma SectionsFromStep(s: string, args: string, final: string, m: nat, e: nat)
    requires m == NextSequence(s, 0) < |s| && e == ParamEnd(s, m + 2)
    ensures SectionsFrom(s, args, final) == [Section(args, final, s[..m])] + SectionsFrom(s[e + 1..], s[m + 2..e], [s[e]])
  {
  }

  /** The first match of the pattern is the one at `m` when there is none before it. */
  lemma NextSequenceAt(s: string, m: nat)
    requires m <= |s| && SequenceAt(s, m)
    requires forall q :: 0 <= q < m ==> !SequenceAt(s, q)
    ensures NextSequence(s, 0) == m
  {
  }

  /** In `p + Csi(args, f) + s` the parameters after `p` end where `f` stands. */
  lemma CsiParamEnd(p: string, args: string, f: char, s: string)
    requires forall i :: 0 <= i < |args| ==> IsParamChar(args[i])
    requires IsFinalByte(f)
    ensures ParamEnd(p + Csi(args, f) + s, |p| + 2) == |p| + 2 + |args|
  {
    var t := p + Csi(args, f) + s;
    var m := |p|;
    var e := m + 2 + |args|;
    assert forall k :: m + 2 <= k < e ==> t[k] == args[k - m - 2];
    assert t[e] == f;
    ParamEndOfRun(t, m + 2, e);
  }

  /** In `p + Csi(args, f) + s` a sequence starts right after `p`. */
  lemma CsiAfterPlainMatches(p: string, args: string, f: char, s: string)
    requires forall i :: 0 <= i < |args| ==> IsParamChar(args[i])
    requires IsFinalByte(f)
    ensures SequenceAt(p + Csi(args, f) + s, |p|)
  {
    var t := p + Csi(args, f) + s;
    CsiParamEnd(p, args, f, s);
    assert t[|p|] == Esc && t[|p| + 1] == '[' && t[|p| + 2 + |args|] == f;
  }

  /** In `p + Csi(args, f) + s` the first sequence is the one after `p`, ending at `f`. */
  lemma CsiAfterPlain(p: string, args: string, f: char, s: string)
    requires Esc !in p
    requires forall i :: 0 <= i < |args| ==> IsParamChar(args[i])
    requires IsFinalByte(f)
    ensures var t := p + Csi(args, f) + s;
      && NextSequence(t, 0) == |p|
      && ParamEnd(t, |p| + 2) == |p| + 2 + |args|
  {
    var t := p + Csi(args, f) + s;
    CsiParamEnd(p, args, f, s);
    CsiAfterPlainMatches(p, args, f, s);
    forall q | 0 <= q < |p| ensures !SequenceAt(t, q) {
      assert t[q] == p[q] && p[q] in p;
    }
    NextSequenceAt(t, |p|);
  }

  /** The pieces of `p + Csi(args, f) + s` around its parameters. */
  lemma CsiAfterPlainPieces(p: string, args: string, f: char, s: string)
    ensures var t := p + Csi(args, f) + s; var m := |p|; var e := m + 2 + |args|;
      t[..m] == p && t[m + 2..e] == args && t[e] == f && t[e + 1..] == s
  {
  }

  /** Plain text, then a sequence: the plain text closes the current section and the sequence opens the next. */
  lemma SectionsAtCsi(p: string, args: string, f: char, s: string, args0: string, final0: string)
    requires Esc !in p
    requires forall i :: 0 <= i < |args| ==> IsParamChar(args[i])
    requires IsFinalByte(f)
    ensures SectionsFrom(p + Csi(args, f) + s, args0, final0) == [Section(args0, final0, p)] + SectionsFrom(s, args, [f])
  {
    var t := p + Csi(args, f) + s;
    var m := |p|;
    var e := m + 2 + |args|;
    CsiAfterPlain(p, args, f, s);
    CsiAfterPlainPieces(p, args, f, s);
    SectionsFromPieces(t, args0, final0, m, e, p, args, f, s);
  }

  /** SectionsFromStep with the pieces of the text named. */
  lemma SectionsFromPieces(t: string, args0: string, final0: string, m: nat, e: nat, p: string, args: string, f: char, s: string)
    requires m == NextSequence(t, 0) < |t| && e == ParamEnd(t, m + 2)
    requires t[..m] == p && t[m + 2..e] == args && t[e] == f && t[e + 1..] == s
    ensures SectionsFrom(t, args0, final0) == [Section(args0, final0, p)] + SectionsFrom(s, args, [f])
  {
    SectionsFromStep(t, args0, final0, m, e);
    assert [t[e]] == [f];
  }

  /** One step of FormatSections, for a section whose parameters apply cleanly. */
  lemma FormatSectionsCons(a: Attrs, sec: Section, b: Attrs, rest: seq<Section>)
    requires ApplySection(a, sec) == Applied(b)
    ensures FormatSections(a, [sec] + rest).Rejected? <==> FormatSections(b, rest).Rejected?
    ensures FormatSections(a, [sec] + rest).attrs == FormatSections(b, rest).attrs
    ensures FormatSections(b, rest).Rendered? ==>
      FormatSections(a, [sec] + rest).html == (if sec.plain == "" then "" else Span(b, sec.plain)) + FormatSections(b, rest).html
  {
    assert ([sec] + rest)[0] == sec && ([sec] + rest)[1..] == rest;
  }
}
