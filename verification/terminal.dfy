/**
 * The output view of OutputDialog: lines of a command's output are formatted as HTML and appended,
 * and a line ending in a carriage return is overwritten by the next non-empty line, which is how
 * progress bars printed by command-line tools stay on one row.
 */
module Terminal {
  import opened Text
  import opened Ansi

  /**
   * The view: the HTML of each displayed row, whether the last row is to be overwritten
   * (replace_line), and the state of the text formatter.
   */
  datatype View = View(lines: seq<string>, replace: bool, style: Attrs)

  /** The view after an update; `FormatError` is format() raising, with the view as it was left. */
  datatype Update = Shown(view: View) | FormatError(view: View)

  /**
   * The rows of a Qt document. A document always holds one block; while that block is empty the
   * document counts as empty, and it is shown here as no rows. So a first row is never "".
   */
  predicate Valid(v: View) {
    v.lines != [] ==> v.lines[0] != ""
  }

  /** A fresh view. */
  const Empty: View := View([], false, Default)

  /**
   * appendHtml: the HTML goes into a new block after the last one, except in an empty document,
   * whose only block takes it. So "" appended to an empty document leaves it empty.
   */
  function AppendHtml(lines: seq<string>, html: string): (r: seq<string>)
    ensures lines == [] && html == "" ==> r == []
    ensures lines != [] || html != "" ==> r == lines + [html]
  {
    if lines == [] && html == "" then [] else lines + [html]
  }

  /**
   * Selecting the block under a cursor in the last block and removing the selection. An empty block
   * selects nothing, so an empty last row stays; the only row of a document leaves it empty.
   */
  function RemoveLastBlock(lines: seq<string>): (r: seq<string>)
    ensures lines != [] && lines[|lines| - 1] != "" ==> r == lines[..|lines| - 1]
    ensures lines == [] || lines[|lines| - 1] == "" ==> r == lines
  {
    if lines == [] || lines[|lines| - 1] == "" then lines else lines[..|lines| - 1]
  }

  /** A non-empty last row awaits replacement: the next non-empty line takes its place. */
  predicate PendingRow(v: View) {
    v.replace && v.lines != [] && v.lines[|v.lines| - 1] != ""
  }

  /**
   * add_line. A lone "\r" is ignored. Otherwise the line without its trailing "\r"/"\n" characters is
   * formatted if it is non-empty and replaces the pending row, if that row is not empty; an empty
   * line only adds an empty row when no row is pending and the document is not empty. The line's
   * own trailing "\r" decides whether the next line replaces this one.
   */
  function AddLine(v: View, line: string): (r: Update)
    ensures Valid(v) ==> Valid(r.view)
    ensures r.FormatError? ==> r.view.lines == v.lines && r.view.replace == v.replace
    ensures r.Shown? && line != "\r" ==> r.view.replace == EndsWith(line, '\r')
    ensures |r.view.lines| <= |v.lines| + 1
    ensures r.Shown? && (line == "\r" || (TrimLineEnding(line) == "" && v.replace)) ==> r.view.lines == v.lines
    ensures line != "\r" && TrimLineEnding(line) == "" && !v.replace ==>
      r.view.lines == (if v.lines == [] then [] else v.lines + [""])
    ensures r.Shown? && line != "\r" && TrimLineEnding(line) != "" && (|v.lines| >= 2 || (v.lines != [] && !PendingRow(v))) ==>
      |r.view.lines| == |v.lines| + (if PendingRow(v) then 0 else 1)
    ensures |v.lines| > 0 ==> r.view.lines[..|v.lines| - 1] == v.lines[..|v.lines| - 1]
  {
    if line == "\r" then Shown(v)
    else
      var text := TrimLineEnding(line);
      if text != "" then
        match Format(v.style, text)
        case Rejected(b) => FormatError(v.(style := b))
        case Rendered(b, html) => Shown(ShowRow(v, html, EndsWith(line, '\r'), b))
      else if v.replace then Shown(v.(replace := EndsWith(line, '\r')))
      else
        EarlierRowsKept(v.lines, v.lines, "");
        Shown(View(AppendHtml(v.lines, ""), EndsWith(line, '\r'), v.style))
  }

  /** A formatted row: it replaces the pending row, if there is one, and is appended. */
  function ShowRow(v: View, html: string, replace: bool, b: Attrs): (w: View)
    ensures Valid(v) ==> Valid(w)
    ensures w.replace == replace && w.style == b
    ensures |w.lines| <= |v.lines| + 1
    ensures |v.lines| >= 2 || (v.lines != [] && !PendingRow(v)) ==>
      |w.lines| == |v.lines| + (if PendingRow(v) then 0 else 1)
    ensures |v.lines| > 0 ==> w.lines[..|v.lines| - 1] == v.lines[..|v.lines| - 1]
    ensures html != "" ==> w.lines == (if PendingRow(v) then v.lines[..|v.lines| - 1] else v.lines) + [html]
  {
    var kept := if v.replace then RemoveLastBlock(v.lines) else v.lines;
    EarlierRowsKept(v.lines, kept, html);
    View(AppendHtml(kept, html), replace, b)
  }

  /** Appending a row to the rows, with or without the last one, keeps every row before the last. */
  lemma EarlierRowsKept(lines: seq<string>, kept: seq<string>, row: string)
    requires kept == lines || kept == RemoveLastBlock(lines)
    ensures |lines| > 0 ==> AppendHtml(kept, row)[..|lines| - 1] == lines[..|lines| - 1]
  {
    if |lines| > 0 && AppendHtml(kept, row) != [] {
      assert forall k :: 0 <= k < |lines| - 1 ==> AppendHtml(kept, row)[k] == kept[k] == lines[k];
    }
  }

  /** Lines added one after the other, stopping at the first that cannot be formatted. */
  function AddLines(v: View, xs: seq<string>): (r: Update)
    ensures Valid(v) ==> Valid(r.view)
    decreases |xs|
  {
    if xs == [] then Shown(v)
    else
      match AddLine(v, xs[0])
      case FormatError(w) => FormatError(w)
      case Shown(w) => AddLines(w, xs[1..])
  }

  /** The prompt written before a command: "$ " in yellow, then the command in the default style. */
  function CommandText(cmd: string): string {
    Csi("0;33", 'm') + "$ " + Csi("0", 'm') + cmd
  }

  /** add_command_line: the next line is never a replacement, whether or not formatting succeeds. */
  function AddCommandLine(v: View, cmd: string): (r: Update)
    ensures Valid(v) ==> Valid(r.view)
    ensures !r.view.replace
    ensures r.Shown? ==> |r.view.lines| == |v.lines| + 1 && r.view.lines[..|v.lines|] == v.lines
    ensures r.FormatError? ==> r.view.lines == v.lines
  {
    PromptRowShown(v.style, cmd);
    match Format(v.style, CommandText(cmd))
    case Rejected(b) => FormatError(View(v.lines, false, b))
    case Rendered(b, html) => Shown(View(AppendHtml(v.lines, html), false, b))
  }

  // ---------------------------------------------------------------- properties

  /** A lone carriage return changes nothing. */
  lemma LoneCarriageReturn(v: View)
    ensures AddLine(v, "\r") == Shown(v)
  {
  }

  /** Trimming the line ending keeps the text free of escape characters. */
  lemma TrimKeepsNoEsc(line: string)
    requires Esc !in line
    ensures Esc !in TrimLineEnding(line)
  {
    var t := TrimLineEnding(line);
    assert forall i :: 0 <= i < |t| ==> t[i] == line[i] && line[i] in line;
  }

  /** A non-empty plain line after a carriage return overwrites the last row, when that row is not empty. */
  lemma OverwritesPendingRow(v: View, line: string)
    requires PendingRow(v)
    requires Esc !in line && TrimLineEnding(line) != ""
    ensures AddLine(v, line) ==
      Shown(View(v.lines[..|v.lines| - 1] + [Span(v.style, HtmlEscape(TrimLineEnding(line)))], EndsWith(line, '\r'), v.style))
  {
    PlainLine(v.style, line);
  }

  /**
   * An empty last row cannot be selected, so it is not removed: after a carriage return, a non-empty
   * plain line is appended after it. The same holds when the document is empty.
   */
  lemma NothingToReplace(v: View, line: string)
    requires v.replace && !PendingRow(v)
    requires Esc !in line && TrimLineEnding(line) != ""
    ensures AddLine(v, line) ==
      Shown(View(v.lines + [Span(v.style, HtmlEscape(TrimLineEnding(line)))], EndsWith(line, '\r'), v.style))
  {
    PlainLine(v.style, line);
  }

  /** A non-empty plain line with nothing pending is appended as a new row. */
  lemma AppendsRow(v: View, line: string)
    requires !v.replace
    requires Esc !in line && TrimLineEnding(line) != ""
    ensures AddLine(v, line) ==
      Shown(View(v.lines + [Span(v.style, HtmlEscape(TrimLineEnding(line)))], EndsWith(line, '\r'), v.style))
  {
    PlainLine(v.style, line);
  }

  /**
   * A line made only of a non-SGR escape sequence, ending in "\r", shows as an empty row. That row
   * cannot be selected, so the next plain line is appended after it instead of replacing it.
   */
  lemma SequenceOnlyRowStays(v: View, args: string, f: char, next: string)
    requires !v.replace && v.lines != []
    requires ParamChars(args) && IsFinalByte(f) && f != 'm'
    requires Esc !in next && TrimLineEnding(next) != ""
    ensures AddLines(v, [Csi(args, f) + "\r", next]) ==
      Shown(View(v.lines + [""] + [Span(v.style, HtmlEscape(TrimLineEnding(next)))], EndsWith(next, '\r'), v.style))
  {
    var line := Csi(args, f) + "\r";
    var w := View(v.lines + [""], true, v.style);
    SequenceOnlyLine(v, args, f);
    AddLinesCons(v, [line, next], w);
    NothingToReplace(w, next);
    var u := View(w.lines + [Span(v.style, HtmlEscape(TrimLineEnding(next)))], EndsWith(next, '\r'), v.style);
    assert [line, next][1..] == [next];
    AddLinesCons(w, [next], u);
    assert [next][1..] == [];
  }

  /** A line made only of a non-SGR escape sequence and "\r" appends an empty row and leaves it pending. */
  lemma SequenceOnlyLine(v: View, args: string, f: char)
    requires !v.replace && v.lines != []
    requires ParamChars(args) && IsFinalByte(f) && f != 'm'
    ensures AddLine(v, Csi(args, f) + "\r") == Shown(View(v.lines + [""], true, v.style))
  {
    TrimCarriageReturn(Csi(args, f));
    NonSgrSequenceIgnored(v.style, args, f);
  }

  /**
   * A blank line adds nothing to an empty document, which has no block to show it in, so the first
   * non-empty line becomes the first row.
   */
  lemma BlankLineOnEmptyDocument(line: string, next: string)
    requires line != "\r" && TrimLineEnding(line) == ""
    requires Esc !in next && TrimLineEnding(next) != ""
    ensures AddLines(Empty, [line, next]) ==
      Shown(View([Span(Default, HtmlEscape(TrimLineEnding(next)))], EndsWith(next, '\r'), Default))
  {
    var w := View([], EndsWith(line, '\r'), Default);
    assert AddLine(Empty, line) == Shown(w);
    AddLinesCons(Empty, [line, next], w);
    if w.replace {
      NothingToReplace(w, next);
    } else {
      AppendsRow(w, next);
    }
    var u := View([Span(Default, HtmlEscape(TrimLineEnding(next)))], EndsWith(next, '\r'), Default);
    assert [line, next][1..] == [next];
    assert [] + [Span(Default, HtmlEscape(TrimLineEnding(next)))] == u.lines;
    AddLinesCons(w, [next], u);
    assert [next][1..] == [];
  }

  /** rstrip("\r\n") of a line that ends in one "\r" after other text. */
  lemma TrimCarriageReturn(x: string)
    requires x != [] && x[|x| - 1] != '\r' && x[|x| - 1] != '\n'
    ensures TrimLineEnding(x + "\r") == x
  {
    assert (x + "\r")[..|x|] == x;
  }

  /** A non-empty plain line, trimmed, formats as one non-empty span. */
  lemma PlainLine(a: Attrs, line: string)
    requires Esc !in line && TrimLineEnding(line) != ""
    ensures Format(a, TrimLineEnding(line)) == Rendered(a, Span(a, HtmlEscape(TrimLineEnding(line))))
    ensures Span(a, HtmlEscape(TrimLineEnding(line))) != ""
  {
    TrimKeepsNoEsc(line);
    EscFreeNoSequence(TrimLineEnding(line));
    PlainText(a, TrimLineEnding(line));
  }

  /** An empty line after a carriage return adds nothing and keeps the row pending only if it too ends in "\r". */
  lemma EmptyLineKeepsRow(v: View, line: string)
    requires v.replace && line != "\r" && TrimLineEnding(line) == ""
    ensures AddLine(v, line) == Shown(v.(replace := EndsWith(line, '\r')))
  {
  }

  /** A line of a progress bar: plain, non-empty once trimmed, and ending in "\r". */
  predicate ProgressLine(line: string) {
    Esc !in line && TrimLineEnding(line) != "" && EndsWith(line, '\r')
  }

  predicate ProgressLines(xs: seq<string>) {
    forall i :: 0 <= i < |xs| ==> ProgressLine(xs[i])
  }

  lemma ProgressLinesSplit(xs: seq<string>)
    requires xs != [] && ProgressLines(xs)
    ensures ProgressLine(xs[0]) && ProgressLines(xs[1..])
  {
    assert forall i :: 0 <= i < |xs[1..]| ==> xs[1..][i] == xs[i + 1];
  }

  /**
   * A run of progress lines, each ending in "\r", occupies a single row: after the run, the view has
   * one row more than before, showing the last line of the run.
   */
  lemma {:induction false} ProgressLinesShareRow(v: View, xs: seq<string>)
    requires !v.replace && |xs| > 0
    requires ProgressLines(xs)
    ensures AddLines(v, xs) ==
      Shown(View(v.lines + [Span(v.style, HtmlEscape(TrimLineEnding(xs[|xs| - 1])))], true, v.style))
  {
    var w := View(v.lines + [Span(v.style, HtmlEscape(TrimLineEnding(xs[0])))], true, v.style);
    ProgressLinesSplit(xs);
    AppendsRow(v, xs[0]);
    AddLinesCons(v, xs, w);
    assert w.lines[..|v.lines|] == v.lines;
    OverwriteRun(w, xs[1..], v.lines);
    if |xs| > 1 {
      assert xs[1..][|xs[1..]| - 1] == xs[|xs| - 1];
    }
  }

  /** A line that shows adds its row and hands the view on to the lines after it. */
  lemma AddLinesCons(v: View, xs: seq<string>, w: View)
    requires xs != [] && AddLine(v, xs[0]) == Shown(w)
    ensures AddLines(v, xs) == AddLines(w, xs[1..])
  {
  }

  /** The rows before the pending one are untouched by a run of progress lines. */
  lemma {:induction false} OverwriteRun(w: View, xs: seq<string>, before: seq<string>)
    requires PendingRow(w) && |w.lines| == |before| + 1 && w.lines[..|before|] == before
    requires ProgressLines(xs)
    ensures xs == [] ==> AddLines(w, xs) == Shown(w)
    ensures xs != [] ==>
      AddLines(w, xs) == Shown(View(before + [Span(w.style, HtmlEscape(TrimLineEnding(xs[|xs| - 1])))], true, w.style))
    decreases |xs|
  {
    if xs != [] {
      ProgressLinesSplit(xs);
      OverwritesPendingRow(w, xs[0]);
      var u := View(before + [Span(w.style, HtmlEscape(TrimLineEnding(xs[0])))], true, w.style);
      assert w.lines[..|w.lines| - 1] == before;
      AddLinesCons(w, xs, u);
      assert u.lines[..|before|] == before;
      OverwriteRun(u, xs[1..], before);
      if |xs| > 1 {
        assert xs[1..][|xs[1..]| - 1] == xs[|xs| - 1];
      }
    }
  }

  lemma PromptParams(a: Attrs)
    ensures ApplySgr(a, "0;33") == Applied(Default.(fg := 3))
  {
    calc {
      ApplySgr(a, "0;33");
      ApplyFields(a, Fields("0;33"));
      { PromptFields(); }
      ApplyFields(a, ["0"] + ["33"]);
      { SingleDigit('0'); ApplyFieldsStep(a, "0", ["33"]); }
      ApplyFields(ApplyParam(a, 0), ["33"]);
      { assert ApplyParam(a, 0) == Default; assert ["33"] == ["33"] + []; }
      ApplyFields(Default, ["33"] + []);
      { TwoDigits('3', '3'); ApplyFieldsStep(Default, "33", []); }
      ApplyFields(ApplyParam(Default, 33), []);
      { assert ApplyParam(Default, 33) == Default.(fg := 3); }
      Applied(Default.(fg := 3));
    }
  }

  /** The yellow prompt's parameters are the two fields 0 and 33. */
  lemma PromptFields()
    ensures Fields("0;33") == ["0"] + ["33"]
  {
    assert "0;33" == "0" + [';'] + "33";
    FieldsOfSeparated("0", ';', "33");
    FieldsOfDigits("33");
  }

  predicate ParamChars(args: string) {
    forall i :: 0 <= i < |args| ==> IsParamChar(args[i])
  }

  /** Escaping leaves the two sequences and the plain `q` alone. */
  lemma TwoSequencesEscaped(p1: string, q: string, p2: string, cmd: string)
    requires ParamChars(p1) && ParamChars(p2)
    requires forall i :: 0 <= i < |q| ==> !IsHtmlSpecial(q[i])
    ensures HtmlEscape(Csi(p1, 'm') + q + Csi(p2, 'm') + cmd) == Csi(p1, 'm') + q + Csi(p2, 'm') + HtmlEscape(cmd)
  {
    var a, b := Csi(p1, 'm'), Csi(p2, 'm');
    HtmlEscapeConcat(a + q + b, cmd);
    HtmlEscapeConcat(a + q, b);
    HtmlEscapeConcat(a, q);
    CsiEscapesToItself(p1, 'm');
    CsiEscapesToItself(p2, 'm');
  }

  /** Two sequences with plain text between them: the first two sections, whatever follows. */
  lemma TwoSequencesLead(p1: string, q: string, p2: string, e: string)
    requires ParamChars(p1) && ParamChars(p2)
    requires Esc !in q
    ensures Sections(Csi(p1, 'm') + q + Csi(p2, 'm') + e) ==
      [Section("", "", "")] + ([Section(p1, "m", q)] + SectionsFrom(e, p2, "m"))
  {
    var rest := q + Csi(p2, 'm') + e;
    assert Csi(p1, 'm') + q + Csi(p2, 'm') + e == "" + Csi(p1, 'm') + rest;
    SectionsAtCsi("", p1, 'm', rest, "", "");
    SectionsAtCsi(q, p2, 'm', e, p1, "m");
  }

  lemma TwoSequencesSections(p1: string, q: string, p2: string, e: string)
    requires ParamChars(p1) && ParamChars(p2)
    requires Esc !in q && Esc !in e
    ensures Sections(Csi(p1, 'm') + q + Csi(p2, 'm') + e) ==
      [Section("", "", "")] + ([Section(p1, "m", q)] + [Section(p2, "m", e)])
  {
    TwoSequencesLead(p1, q, p2, e);
    PlainSectionsFrom(e, p2, "m");
  }

  lemma FormatThreeSections(a: Attrs, p1: string, q: string, p2: string, e: string, b1: Attrs, b2: Attrs)
    requires q != []
    requires ApplySgr(a, p1) == Applied(b1) && ApplySgr(b1, p2) == Applied(b2)
    ensures FormatSections(a, [Section("", "", "")] + ([Section(p1, "m", q)] + [Section(p2, "m", e)])) ==
      Rendered(b2, Span(b1, q) + (if e == "" then "" else Span(b2, e)))
  {
    var s0, s1, s2 := Section("", "", ""), Section(p1, "m", q), Section(p2, "m", e);
    FormatOne(b1, s2);
    FormatSectionsCons(a, s1, b1, [s2]);
    FormatSectionsCons(a, s0, a, [s1] + [s2]);
  }

  /** Text made of two SGR sequences, each followed by plain text, the first of it non-empty. */
  lemma FormatTwoSequences(a: Attrs, p1: string, q: string, p2: string, cmd: string, b1: Attrs, b2: Attrs)
    requires ParamChars(p1) && ParamChars(p2)
    requires q != [] && Esc !in q && forall i :: 0 <= i < |q| ==> !IsHtmlSpecial(q[i])
    requires Esc !in cmd
    requires ApplySgr(a, p1) == Applied(b1) && ApplySgr(b1, p2) == Applied(b2)
    ensures Format(a, Csi(p1, 'm') + q + Csi(p2, 'm') + cmd) ==
      Rendered(b2, Span(b1, q) + (if cmd == "" then "" else Span(b2, HtmlEscape(cmd))))
  {
    TwoSequencesEscaped(p1, q, p2, cmd);
    var e := HtmlEscape(cmd);
    TwoSequencesSections(p1, q, p2, e);
    FormatThreeSections(a, p1, q, p2, e, b1, b2);
  }

  /**
   * A command without escape characters is shown as a yellow "$ " followed by the command in the
   * default style, and the formatter is left in its default state.
   */
  lemma CommandLineRendering(v: View, cmd: string)
    requires Esc !in cmd
    ensures AddCommandLine(v, cmd) ==
      Shown(View(v.lines + [Span(Default.(fg := 3), "$ ") + (if cmd == "" then "" else Span(Default, HtmlEscape(cmd)))], false, Default))
  {
    PromptFormat(v.style, cmd);
  }

  /** The formatter's view of the prompt line: the two sequences select yellow, then the defaults. */
  lemma PromptFormat(a: Attrs, cmd: string)
    requires Esc !in cmd
    ensures Format(a, CommandText(cmd)) ==
      Rendered(Default, Span(Default.(fg := 3), "$ ") + (if cmd == "" then "" else Span(Default, HtmlEscape(cmd))))
  {
    PromptParams(a);
    ZeroParams(Default.(fg := 3));
    PromptLiterals();
    FormatTwoSequences(a, "0;33", "$ ", "0", cmd, Default.(fg := 3), Default);
  }

  /**
   * The prompt row is never empty, whatever the command: the yellow "$ " is always a span of its own,
   * so appendHtml always adds a block for it.
   */
  lemma PromptRowShown(a: Attrs, cmd: string)
    ensures Format(a, CommandText(cmd)).Rendered? ==> Format(a, CommandText(cmd)).html != ""
  {
    PromptSections(cmd);
    PromptSpanFirst(a, SectionsFrom(HtmlEscape(cmd), "0", "m"));
  }

  /** The escaped prompt line splits into a bare section, the yellow "$ ", and the command's sections. */
  lemma PromptSections(cmd: string)
    ensures Sections(HtmlEscape(CommandText(cmd))) ==
      [Section("", "", "")] + ([Section("0;33", "m", "$ ")] + SectionsFrom(HtmlEscape(cmd), "0", "m"))
  {
    PromptLiterals();
    TwoSequencesEscaped("0;33", "$ ", "0", cmd);
    TwoSequencesLead("0;33", "$ ", "0", HtmlEscape(cmd));
  }

  /** Whatever follows it, the yellow "$ " section puts a span into the HTML. */
  lemma PromptSpanFirst(a: Attrs, tail: seq<Section>)
    ensures var r := FormatSections(a, [Section("", "", "")] + ([Section("0;33", "m", "$ ")] + tail));
      r.Rendered? ==> r.html != ""
  {
    PromptParams(a);
    FormatSectionsCons(a, Section("", "", ""), a, [Section("0;33", "m", "$ ")] + tail);
    FormatSectionsCons(a, Section("0;33", "m", "$ "), Default.(fg := 3), tail);
  }

  /** The prompt's parameters are parameter characters and its "$ " needs neither escaping nor splitting. */
  lemma PromptLiterals()
    ensures ParamChars("0;33") && ParamChars("0")
    ensures Esc !in "$ " && forall i :: 0 <= i < |"$ "| ==> !IsHtmlSpecial("$ "[i])
  {
  }
}
