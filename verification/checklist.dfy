/** `toggle_checkbox` (static/item.js): when a checklist entry is clicked on
    the item page, the description is rewritten line by line so that every
    checklist line whose caption the clicked text ends with shows the new
    state. The clicked text and whether it was checked before are inputs;
    the page elements they come from are not modelled. */
module Checklist {
  import opened Wrappers
  import opened Text
  import opened CheckboxRegex
  import Extract

  /** The character the rewritten box holds: a space when the entry was
      checked before the click, `x` when it was not. */
  function NewMark(wasChecked: bool): (c: char)
    ensures (c == 'x') != wasChecked
    ensures c == ' ' || c == 'x'
  {
    if wasChecked then ' ' else 'x'
  }

  /** What one line becomes: where JavaScript's `exec` finds the pattern and
      the clicked text ends with the caption, the line is replaced by a fresh
      `- [mark] caption` (anything before the match is dropped); otherwise
      the line is kept. */
  function ToggleLine(line: string, clicked: string, wasChecked: bool): (r: string)
    ensures r != line ==> Exec(JavaScript, line).Some? && EndsWith(clicked, Exec(JavaScript, line).value.caption)
  {
    match Exec(JavaScript, line)
    case None => line
    case Some(m) =>
      if EndsWith(clicked, m.caption) then Head([NewMark(wasChecked)]) + m.caption else line
  }

  /** The lines rewritten one after another; each line's rewrite depends on
      that line alone. */
  function ToggleLines(lines: seq<string>, clicked: string, wasChecked: bool): (r: seq<string>)
    ensures |r| == |lines|
    ensures forall k :: 0 <= k < |lines| ==> r[k] == ToggleLine(lines[k], clicked, wasChecked)
    decreases |lines|
  {
    if |lines| == 0 then []
    else
      ToggleLines(lines[..|lines| - 1], clicked, wasChecked)
        + [ToggleLine(lines[|lines| - 1], clicked, wasChecked)]
  }

  /** `toggle_checkbox(description, ...)` as a value: split at `\n`, rewrite
      each line, join with `\n`. A one-line description is that line
      rewritten. */
  function Toggled(description: string, clicked: string, wasChecked: bool): (r: string)
    ensures '\n' !in description ==> r == ToggleLine(description, clicked, wasChecked)
  {
    var lines := Split(description, '\n');
    assert '\n' !in description ==> lines == [description] by {
      if '\n' !in description {
        SplitNoSep(description, '\n');
      }
    }
    Join(ToggleLines(lines, clicked, wasChecked), '\n')
  }

  /** `toggle_checkbox`: walks the lines and pushes each one, rewritten or
      not, onto the output, then joins them. */
  method ToggleCheckbox(description: string, clicked: string, wasChecked: bool) returns (out: string)
    ensures out == Toggled(description, clicked, wasChecked)
  {
    var inLines := Split(description, '\n');
    var outLines: seq<string> := [];
    for i := 0 to |inLines|
      invariant outLines == ToggleLines(inLines[..i], clicked, wasChecked)
    {
      var line := inLines[i];
      var newLine := RewriteLine(line, clicked, wasChecked);
      ToggleLinesSnoc(inLines[..i], line, clicked, wasChecked);
      assert inLines[..i + 1] == inLines[..i] + [line];
      outLines := outLines + [newLine];
    }
    assert inLines[..|inLines|] == inLines;
    out := Join(outLines, '\n');
  }

  /** The callback `forEach` runs on one line: `exec` the pattern, and where
      it matches and the clicked text ends with the caption, build the
      rewritten line; otherwise keep the line. */
  method RewriteLine(line: string, clicked: string, wasChecked: bool) returns (newLine: string)
    ensures newLine == ToggleLine(line, clicked, wasChecked)
  {
    newLine := line;
    var m := Exec(JavaScript, line);
    if m.Some? {
      var newBox := 'x';
      if wasChecked {
        newBox := ' ';
      }
      if EndsWith(clicked, m.value.caption) {
        newLine := "- [" + [newBox] + "] " + m.value.caption;
      }
    }
  }

  /** Rewriting one more line appends its rewrite. */
  lemma ToggleLinesSnoc(lines: seq<string>, line: string, clicked: string, wasChecked: bool)
    ensures ToggleLines(lines + [line], clicked, wasChecked)
      == ToggleLines(lines, clicked, wasChecked) + [ToggleLine(line, clicked, wasChecked)]
  {
    assert (lines + [line])[..|lines|] == lines;
  }

  /** A rewritten line holds no newline, since a caption stops at the first
      line terminator. */
  lemma ToggleLineNoNewline(line: string, clicked: string, wasChecked: bool)
    requires '\n' !in line
    ensures '\n' !in ToggleLine(line, clicked, wasChecked)
  {
    var m := Exec(JavaScript, line);
    if m.Some? {
      var cap := m.value.caption;
      assert forall k :: 0 <= k < |cap| ==> cap[k] != '\n';
    }
  }

  /** The output has exactly the lines of the input, each rewritten on its
      own; in particular as many of them. */
  lemma {:induction false} ToggledLines(description: string, clicked: string, wasChecked: bool)
    ensures Split(Toggled(description, clicked, wasChecked), '\n')
      == ToggleLines(Split(description, '\n'), clicked, wasChecked)
    ensures |Split(Toggled(description, clicked, wasChecked), '\n')| == |Split(description, '\n')|
  {
    var lines := Split(description, '\n');
    var out := ToggleLines(lines, clicked, wasChecked);
    forall k | 0 <= k < |out| ensures '\n' !in out[k] {
      ToggleLineNoNewline(lines[k], clicked, wasChecked);
    }
    SplitJoin(out, '\n');
  }

  /** A line on which the pattern matches nowhere is copied unchanged. */
  lemma UnmatchedLineKept(line: string, clicked: string, wasChecked: bool)
    requires forall j :: 0 <= j <= |line| ==>
      !AcceptsAt(JavaScript, line, j, "") && forall c :: !AcceptsAt(JavaScript, line, j, [c])
    ensures ToggleLine(line, clicked, wasChecked) == line
  {
    forall j | 0 <= j <= |line| ensures !HeadAt(JavaScript, line, j) {
      NoAcceptNoHead(JavaScript, line, j);
    }
  }

  /** The full behaviour on a checklist line `pre - [sym] t`, where `pre` has
      no `-` and `t` no line terminator: with a caption the clicked text ends
      with, the line becomes `- [mark] t` and `pre` is dropped; otherwise it is
      kept. */
  lemma ToggleAfterPrefix(pre: string, sym: string, t: string, clicked: string, wasChecked: bool)
    requires '-' !in pre
    requires |sym| <= 1 && (forall k :: 0 <= k < |sym| ==> BoxChar(JavaScript, sym[k]))
    requires forall k :: 0 <= k < |t| ==> Dot(JavaScript, t[k])
    ensures ToggleLine(pre + Head(sym) + t, clicked, wasChecked)
      == if EndsWith(clicked, t) then Head([NewMark(wasChecked)]) + t else pre + Head(sym) + t
  {
    ExecAfterPrefix(JavaScript, pre, sym, t);
  }

  /** An empty caption is a suffix of every clicked text, so a line like
      `- [x] ` is rewritten whatever was clicked. */
  lemma EmptyCaptionAlwaysToggled(pre: string, sym: string, clicked: string, wasChecked: bool)
    requires '-' !in pre
    requires |sym| <= 1 && (forall k :: 0 <= k < |sym| ==> BoxChar(JavaScript, sym[k]))
    ensures ToggleLine(pre + Head(sym), clicked, wasChecked) == Head([NewMark(wasChecked)])
  {
    ToggleAfterPrefix(pre, sym, "", clicked, wasChecked);
    assert pre + Head(sym) + "" == pre + Head(sym);
    assert Head([NewMark(wasChecked)]) + "" == Head([NewMark(wasChecked)]);
  }

  /** A rewritten line is left as it is by the same click. */
  lemma RewrittenLineStable(cap: string, clicked: string, wasChecked: bool)
    requires EndsWith(clicked, cap)
    requires forall k :: 0 <= k < |cap| ==> Dot(JavaScript, cap[k])
    ensures ToggleLine(Head([NewMark(wasChecked)]) + cap, clicked, wasChecked)
      == Head([NewMark(wasChecked)]) + cap
  {
    var h := Head([NewMark(wasChecked)]);
    ToggleAfterPrefix("", [NewMark(wasChecked)], cap, clicked, wasChecked);
    assert "" + h + cap == h + cap;
  }

  /** Toggling a line twice with the same click is toggling it once. */
  lemma ToggleLineIdempotent(line: string, clicked: string, wasChecked: bool)
    ensures ToggleLine(ToggleLine(line, clicked, wasChecked), clicked, wasChecked)
      == ToggleLine(line, clicked, wasChecked)
  {
    var m := Exec(JavaScript, line);
    if m.Some? && EndsWith(clicked, m.value.caption) {
      RewrittenLineStable(m.value.caption, clicked, wasChecked);
    }
  }

  /** `toggle_checkbox` applied twice with the same click gives the same
      description as applying it once. */
  lemma ToggledIdempotent(description: string, clicked: string, wasChecked: bool)
    ensures Toggled(Toggled(description, clicked, wasChecked), clicked, wasChecked)
      == Toggled(description, clicked, wasChecked)
  {
    var once := ToggleLines(Split(description, '\n'), clicked, wasChecked);
    ToggledLines(description, clicked, wasChecked);
    var twice := ToggleLines(once, clicked, wasChecked);
    forall k | 0 <= k < |once| ensures twice[k] == once[k] {
      ToggleLineIdempotent(Split(description, '\n')[k], clicked, wasChecked);
    }
    assert twice == once;
  }

  /** A rewritten line reads back on the server as a checkbox with the new
      state and the same caption. */
  lemma ToggledLineExtracts(line: string, clicked: string, wasChecked: bool)
    requires ToggleLine(line, clicked, wasChecked) != line
    ensures Exec(JavaScript, line).Some?
    ensures Extract.CheckboxOf(ToggleLine(line, clicked, wasChecked))
      == Some(Extract.Checkbox(!wasChecked, Exec(JavaScript, line).value.caption))
  {
    var cap := Exec(JavaScript, line).value.caption;
    assert forall k :: 0 <= k < |cap| ==> cap[k] != '\n';
    Extract.OneCharBox(NewMark(wasChecked), cap);
  }

  /** On a line free of line terminators that starts with the pattern, the
      browser finds the same checkbox as the server, provided the box
      character is one UTF-16 unit. */
  lemma BrowserAgreesAtLineStart(line: string)
    requires forall k :: 0 <= k < |line| ==> Dot(JavaScript, line[k])
    requires 3 < |line| ==> OneUnit(line[3])
    requires Match(Python, line).Some?
    ensures Exec(JavaScript, line) == Match(Python, line)
  {
    DialectsAgree(line, 0);
    ExecAtStart(JavaScript, line);
  }

  /** Where they disagree: a checklist line with text before the box is no
      checkbox to the server's anchored match, yet the browser's unanchored
      search finds it, and clicking its caption rewrites it. */
  lemma BrowserFindsIndentedBox(pre: string, sym: string, t: string, wasChecked: bool)
    requires pre != "" && '-' !in pre
    requires |sym| <= 1 && (forall k :: 0 <= k < |sym| ==> BoxChar(JavaScript, sym[k]))
    requires forall k :: 0 <= k < |t| ==> Dot(JavaScript, t[k])
    ensures Extract.CheckboxOf(pre + Head(sym) + t) == None
    ensures Exec(JavaScript, pre + Head(sym) + t) == Some(CheckboxMatch(|pre|, sym, t))
    ensures ToggleLine(pre + Head(sym) + t, t, wasChecked) == Head([NewMark(wasChecked)]) + t
  {
    var line := pre + Head(sym) + t;
    assert line[0] == pre[0];
    Extract.NotCheckboxLine(line);
    ExecAfterPrefix(JavaScript, pre, sym, t);
    ToggleAfterPrefix(pre, sym, t, t, wasChecked);
  }

  /** Where they disagree the other way: a box character beyond U+FFFF makes
      a checkbox for the server, but the browser's `.?` cannot take it, so
      when the caption holds no `-` the line is copied unchanged. */
  lemma AstralBoxKept(c: char, t: string, clicked: string, wasChecked: bool)
    requires !OneUnit(c) && '\n' !in t && '-' !in t
    ensures Extract.CheckboxOf(Head([c]) + t) == Some(Extract.Checkbox(false, t))
    ensures ToggleLine(Head([c]) + t, clicked, wasChecked) == Head([c]) + t
  {
    assert '\n' !in [c] + t;
    Extract.OneCharBox(c, t);
    ExecMissesAstralBox(c, t);
  }
}
