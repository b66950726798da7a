/** The checklist pattern `- \[(.?)\] (.*)`, shared by the server, which
    applies it with Python's `re.match` (anchored at the start of the line),
    and by the browser, which applies it with JavaScript's `RegExp.exec`
    (unanchored: the leftmost position where it matches). The two engines also
    differ in what `.` matches. */
module CheckboxRegex {
  import opened Wrappers

  /** The regular-expression engine that runs the pattern. */
  datatype Dialect = Python | JavaScript

  /** Whether `.` matches `c`: Python's `.` excludes only `\n`; JavaScript's
      excludes every line terminator. */
  predicate Dot(d: Dialect, c: char)
  {
    match d
    case Python => c != '\n'
    case JavaScript => c != '\n' && c != '\r' && c != '\U{2028}' && c != '\U{2029}'
  }

  /** `c` is one UTF-16 code unit: it lies in the Basic Multilingual Plane. */
  predicate OneUnit(c: char)
  {
    c as int < 0x1_0000
  }

  /** Whether `.?` can take `c` as group 1. Python's `.` reads one code
      point. JavaScript's, in a pattern without the `u` flag, reads one UTF-16
      code unit, so a character beyond U+FFFF, which is two units, cannot be
      group 1 there. In the caption `(.*)` such a character is simply two
      units that `.` accepts, so `Dot` decides the caption in both engines. */
  predicate BoxChar(d: Dialect, c: char)
  {
    Dot(d, c) && (d == JavaScript ==> OneUnit(c))
  }

  /** A match: where it starts, group 1 (the box character, possibly empty)
      and group 2 (the caption). */
  datatype CheckboxMatch = CheckboxMatch(start: nat, sym: string, caption: string)

  /** What the pattern reads before the label, for a given group 1. */
  function Head(sym: string): string
  {
    "- [" + sym + "] "
  }

  /** `s` begins with `prefix`. */
  predicate StartsWith(s: string, prefix: string)
  {
    |prefix| <= |s| && s[..|prefix|] == prefix
  }

  /** `(.*)` at the end of the pattern: the longest prefix of `s` that `.`
      matches throughout. */
  function DotRun(d: Dialect, s: string): (r: string)
    ensures StartsWith(s, r)
    ensures forall k :: 0 <= k < |r| ==> Dot(d, r[k])
    ensures |r| == |s| || !Dot(d, s[|r|])
    decreases |s|
  {
    if |s| > 0 && Dot(d, s[0]) then [s[0]] + DotRun(d, s[1..]) else ""
  }

  /** The pattern can match at `i` with this group 1: `sym` is empty or one
      character `.?` can take, and the line continues with `- [`, `sym`, `] `. */
  predicate AcceptsAt(d: Dialect, line: string, i: nat, sym: string)
  {
    i <= |line| && |sym| <= 1 && (forall k :: 0 <= k < |sym| ==> BoxChar(d, sym[k]))
    && StartsWith(line[i..], Head(sym))
  }

  /** The pattern reads one character for group 1 exactly when the line has
      `- [`, a character `.?` can take, and `] ` at `i`. */
  lemma AcceptsOneChar(d: Dialect, line: string, i: nat, c: char)
    requires i <= |line|
    ensures AcceptsAt(d, line, i, [c]) <==>
      i + 6 <= |line| && line[i..i + 3] == "- [" && line[i + 3] == c && BoxChar(d, c) && line[i + 4..i + 6] == "] "
  {
    var h := Head([c]);
    assert h == ['-', ' ', '[', c, ']', ' '];
    if i + 6 <= |line| {
      var w := line[i..][..6];
      assert w == line[i..i + 6];
      assert w == h <==> w[..3] == h[..3] && w[3] == c && w[4..] == h[4..];
      assert line[i..i + 3] == w[..3] && line[i + 4..i + 6] == w[4..];
    }
  }

  /** The pattern reads an empty group 1 exactly when the line has `- [] `
      at `i`. */
  lemma AcceptsEmpty(d: Dialect, line: string, i: nat)
    requires i <= |line|
    ensures AcceptsAt(d, line, i, "") <==> i + 5 <= |line| && line[i..i + 5] == "- [] "
  {
    if i + 5 <= |line| {
      assert line[i..][..5] == line[i..i + 5];
    }
  }

  /** Whether `- [`, a character `.?` can take and `] ` stand at `i`. */
  predicate OneCharHeadAt(d: Dialect, line: string, i: nat)
  {
    i + 6 <= |line| && line[i..i + 3] == "- [" && BoxChar(d, line[i + 3]) && line[i + 4..i + 6] == "] "
  }

  /** Whether the pattern's fixed part, with one character or none for
      group 1, stands at `i`. */
  predicate HeadAt(d: Dialect, line: string, i: nat)
    requires i <= |line|
  {
    OneCharHeadAt(d, line, i) || (i + 5 <= |line| && line[i..i + 5] == "- [] ")
  }

  /** The match the engine reports at position `i`, if any. `.?` is greedy,
      so a one-character group 1 is preferred over an empty one, and the
      caption is the longest run `.` accepts. */
  function MatchAt(d: Dialect, line: string, i: nat): (r: Option<CheckboxMatch>)
    requires i <= |line|
    ensures r.Some? ==>
      r.value.start == i && AcceptsAt(d, line, i, r.value.sym)
      && r.value.caption == DotRun(d, line[i + |Head(r.value.sym)|..])
    ensures r.Some? && r.value.sym == "" ==> forall c :: !AcceptsAt(d, line, i, [c])
    ensures r.Some? && r.value.sym != "" ==> i + 3 < |line| && r.value.sym == [line[i + 3]]
    ensures r.None? ==> !AcceptsAt(d, line, i, "") && forall c :: !AcceptsAt(d, line, i, [c])
    ensures r.Some? <==> HeadAt(d, line, i)
  {
    MatchAtFacts(d, line, i);
    if OneCharHeadAt(d, line, i) then
      Some(CheckboxMatch(i, [line[i + 3]], DotRun(d, line[i + 6..])))
    else if i + 5 <= |line| && line[i..i + 5] == "- [] " then
      Some(CheckboxMatch(i, "", DotRun(d, line[i + 5..])))
    else
      None
  }

  lemma MatchAtFacts(d: Dialect, line: string, i: nat)
    requires i <= |line|
    ensures OneCharHeadAt(d, line, i) ==> AcceptsAt(d, line, i, [line[i + 3]]) && |Head([line[i + 3]])| == 6
    ensures !OneCharHeadAt(d, line, i) ==> forall c :: !AcceptsAt(d, line, i, [c])
    ensures AcceptsAt(d, line, i, "") <==> i + 5 <= |line| && line[i..i + 5] == "- [] "
    ensures i + 5 <= |line| && line[i..i + 5] == "- [] " ==> !OneCharHeadAt(d, line, i)
  {
    AcceptsEmpty(d, line, i);
    forall c ensures AcceptsAt(d, line, i, [c]) <==> OneCharHeadAt(d, line, i) && line[i + 3] == c
    {
      AcceptsOneChar(d, line, i, c);
    }
    if i + 6 <= |line| && line[i..i + 5] == "- [] " {
      assert line[i + 4..i + 6][0] == line[i..i + 5][4];
    }
  }

  /** Where neither group 1 form is accepted, the fixed part is not there. */
  lemma NoAcceptNoHead(d: Dialect, line: string, i: nat)
    requires i <= |line|
    requires !AcceptsAt(d, line, i, "") && forall c :: !AcceptsAt(d, line, i, [c])
    ensures !HeadAt(d, line, i)
  {
    MatchAtFacts(d, line, i);
  }

  /** Python's `re.match`: the pattern anchored at the start of the line. It
      succeeds exactly when some form of group 1 is accepted there, and then
      the line begins with the head it read. */
  function Match(d: Dialect, line: string): (r: Option<CheckboxMatch>)
    ensures r.Some? <==> AcceptsAt(d, line, 0, "") || exists c :: AcceptsAt(d, line, 0, [c])
    ensures r.Some? ==> r.value.start == 0 && StartsWith(line, Head(r.value.sym))
  {
    MatchAt(d, line, 0)
  }

  /** `RegExp.exec` from position `i`: the leftmost position at or after `i`
      where the pattern matches. */
  function ExecFrom(d: Dialect, line: string, i: nat): (r: Option<CheckboxMatch>)
    requires i <= |line|
    ensures r.Some? ==> i <= r.value.start <= |line| && MatchAt(d, line, r.value.start) == r
    ensures r.Some? ==> forall j :: i <= j < r.value.start ==> !HeadAt(d, line, j)
    ensures r.None? ==> forall j :: i <= j <= |line| ==> !HeadAt(d, line, j)
    decreases |line| - i
  {
    if HeadAt(d, line, i) then MatchAt(d, line, i)
    else if i == |line| then None
    else ExecFrom(d, line, i + 1)
  }

  /** `exec` reports the leftmost match: the pattern matches at no earlier
      position, and where it reports none it matches nowhere. */
  lemma ExecFromLeftmost(d: Dialect, line: string, i: nat)
    requires i <= |line|
    ensures var r := ExecFrom(d, line, i);
      r.Some? ==> forall j :: i <= j < r.value.start ==> MatchAt(d, line, j).None?
    ensures ExecFrom(d, line, i).None? ==> forall j :: i <= j <= |line| ==> MatchAt(d, line, j).None?
  {
  }

  /** JavaScript's `RegExp.exec` on a whole line: the match at the leftmost
      position where the pattern matches, or none when it matches nowhere. */
  function Exec(d: Dialect, line: string): (r: Option<CheckboxMatch>)
    ensures r.Some? ==> r.value.start <= |line| && MatchAt(d, line, r.value.start) == r
    ensures r.Some? ==> forall j :: 0 <= j < r.value.start ==> MatchAt(d, line, j).None?
    ensures r.None? ==> forall j :: 0 <= j <= |line| ==> MatchAt(d, line, j).None?
  {
    ExecFromLeftmost(d, line, 0);
    ExecFrom(d, line, 0)
  }

  /** `(.*)` takes the whole of a text that `.` accepts throughout. */
  lemma {:induction false} DotRunWhole(d: Dialect, s: string)
    requires forall k :: 0 <= k < |s| ==> Dot(d, s[k])
    ensures DotRun(d, s) == s
    decreases |s|
  {
    if |s| > 0 {
      DotRunWhole(d, s[1..]);
      assert s == [s[0]] + s[1..];
    }
  }

  /** The pattern starts with `-`, so it cannot match where there is none. */
  lemma NoMatchWithoutDash(d: Dialect, line: string, i: nat)
    requires i < |line| && line[i] != '-'
    ensures !HeadAt(d, line, i) && MatchAt(d, line, i).None?
  {
    if i + 3 <= |line| {
      assert line[i..i + 3][0] == line[i];
    }
    if i + 5 <= |line| {
      assert line[i..i + 5][0] == line[i];
    }
  }

  /** The search passes over a stretch of the line that holds no `-`. */
  lemma {:induction false} ExecSkips(d: Dialect, line: string, i: nat, p: nat)
    requires i <= p <= |line|
    requires forall j :: i <= j < p ==> line[j] != '-'
    ensures ExecFrom(d, line, i) == ExecFrom(d, line, p)
    decreases p - i
  {
    if i < p {
      NoMatchWithoutDash(d, line, i);
      ExecSkips(d, line, i + 1, p);
    }
  }

  /** Where the head `- [sym] ` stands at `p` and `.` accepts the rest of
      the line, the match at `p` has group 1 `sym` and the rest as group 2. */
  lemma MatchAtHead(d: Dialect, line: string, p: nat, sym: string, t: string)
    requires |sym| <= 1 && (forall k :: 0 <= k < |sym| ==> BoxChar(d, sym[k]))
    requires forall k :: 0 <= k < |t| ==> Dot(d, t[k])
    requires p <= |line| && line[p..] == Head(sym) + t
    ensures MatchAt(d, line, p) == Some(CheckboxMatch(p, sym, t))
  {
    DotRunWhole(d, t);
    if |sym| == 1 {
      MatchAtOneCharHead(d, line, p, sym[0], t);
      assert sym == [sym[0]];
    } else {
      MatchAtEmptyHead(d, line, p, t);
    }
  }

  /** `MatchAtHead` for a one-character group 1. */
  lemma MatchAtOneCharHead(d: Dialect, line: string, p: nat, c: char, t: string)
    requires BoxChar(d, c) && DotRun(d, t) == t
    requires p <= |line| && line[p..] == Head([c]) + t
    ensures MatchAt(d, line, p) == Some(CheckboxMatch(p, [c], t))
  {
    var rest := line[p..];
    assert rest[..6] == Head([c]) && rest[6..] == t;
    assert line[p..p + 3] == rest[..3] && line[p + 4..p + 6] == rest[4..6];
    assert line[p + 3] == c;
    assert line[p + 6..] == t;
    assert OneCharHeadAt(d, line, p);
  }

  /** `MatchAtHead` for an empty group 1. */
  lemma MatchAtEmptyHead(d: Dialect, line: string, p: nat, t: string)
    requires DotRun(d, t) == t
    requires p <= |line| && line[p..] == Head("") + t
    ensures MatchAt(d, line, p) == Some(CheckboxMatch(p, "", t))
  {
    var rest := line[p..];
    assert rest[..5] == Head("") && rest[5..] == t;
    assert line[p..p + 5] == rest[..5];
    assert line[p + 4] == ' ';
    assert line[p + 5..] == t;
    assert !OneCharHeadAt(d, line, p);
  }

  /** `exec` finds the first head after a stretch without `-`. */
  lemma ExecAfterPrefix(d: Dialect, pre: string, sym: string, t: string)
    requires '-' !in pre
    requires |sym| <= 1 && (forall k :: 0 <= k < |sym| ==> BoxChar(d, sym[k]))
    requires forall k :: 0 <= k < |t| ==> Dot(d, t[k])
    ensures Exec(d, pre + Head(sym) + t) == Some(CheckboxMatch(|pre|, sym, t))
  {
    var rest := Head(sym) + t;
    var line := pre + rest;
    assert pre + Head(sym) + t == line;
    NoDashInPrefix(pre, rest);
    ExecSkips(d, line, 0, |pre|);
    assert line[|pre|..] == rest;
    MatchAtHead(d, line, |pre|, sym, t);
    ExecFoundAt(d, line, |pre|);
  }

  /** A prefix without `-` contributes no `-` to the front of a line. */
  lemma NoDashInPrefix(pre: string, rest: string)
    requires '-' !in pre
    ensures forall j :: 0 <= j < |pre| ==> (pre + rest)[j] != '-'
  {
    forall j | 0 <= j < |pre| ensures (pre + rest)[j] != '-' {
      assert (pre + rest)[j] == pre[j];
    }
  }

  /** `exec` from a position where the pattern matches reports that match. */
  lemma ExecFoundAt(d: Dialect, line: string, p: nat)
    requires p <= |line| && MatchAt(d, line, p).Some?
    ensures ExecFrom(d, line, p) == MatchAt(d, line, p)
  {
  }

  /** At the start of a line, `exec` and the anchored match agree. */
  lemma ExecAtStart(d: Dialect, line: string)
    requires Match(d, line).Some?
    ensures Exec(d, line) == Match(d, line)
  {
  }

  /** A character JavaScript's `.` accepts is one Python's `.` accepts too. */
  lemma DotDialects(c: char)
    ensures Dot(JavaScript, c) ==> Dot(Python, c)
    ensures Dot(Python, c) && c != '\r' && c != '\U{2028}' && c != '\U{2029}' ==> Dot(JavaScript, c)
  {
  }

  /** On a line free of line terminators the two dialects match alike,
      provided the character where group 1 would stand is one UTF-16 unit. */
  lemma DialectsAgree(line: string, i: nat)
    requires i <= |line|
    requires forall k :: 0 <= k < |line| ==> Dot(JavaScript, line[k])
    requires i + 3 < |line| ==> OneUnit(line[i + 3])
    ensures MatchAt(Python, line, i) == MatchAt(JavaScript, line, i)
  {
    assert forall k :: 0 <= k < |line| ==> Dot(Python, line[k]);
    if i + 6 <= |line| {
      var s := line[i + 6..];
      DotRunWhole(Python, s);
      DotRunWhole(JavaScript, s);
    }
    if i + 5 <= |line| {
      var s := line[i + 5..];
      DotRunWhole(Python, s);
      DotRunWhole(JavaScript, s);
    }
  }

  /** Where the dialects part: a box character beyond U+FFFF is group 1 to
      Python, but JavaScript's `.?` cannot take its two code units, so the
      pattern does not match there. */
  lemma AstralBoxDialects(c: char, t: string)
    requires !OneUnit(c)
    ensures MatchAt(Python, Head([c]) + t, 0) == Some(CheckboxMatch(0, [c], DotRun(Python, t)))
    ensures MatchAt(JavaScript, Head([c]) + t, 0).None?
  {
    var line := Head([c]) + t;
    assert line[..6] == Head([c]) && line[6..] == t;
    assert line[0..3] == "- [" && line[3] == c && line[4..6] == "] ";
    assert OneCharHeadAt(Python, line, 0);
    assert !OneCharHeadAt(JavaScript, line, 0);
    assert line[0..5][3] == c;
  }

  /** `exec` finds nothing on `- [c] t` when `c` is beyond U+FFFF and the
      caption holds no `-`. */
  lemma ExecMissesAstralBox(c: char, t: string)
    requires !OneUnit(c) && '-' !in t
    ensures Exec(JavaScript, Head([c]) + t).None?
  {
    var line := Head([c]) + t;
    AstralBoxDialects(c, t);
    assert !HeadAt(JavaScript, line, 0);
    assert ExecFrom(JavaScript, line, 0) == ExecFrom(JavaScript, line, 1);
    NoDashAfterHead(c, t);
    ExecSkips(JavaScript, line, 1, |line|);
  }

  /** After its first character, `- [c] t` holds a `-` only where `c` or `t`
      does. */
  lemma NoDashAfterHead(c: char, t: string)
    requires c != '-' && '-' !in t
    ensures forall j :: 1 <= j < |Head([c]) + t| ==> (Head([c]) + t)[j] != '-'
  {
    var line := Head([c]) + t;
    forall j | 1 <= j < |line| ensures line[j] != '-' {
      if j >= 6 {
        assert line[j] == t[j - 6];
      }
    }
  }
}
