/** The string and list primitives the application relies on: `str.split` /
    JS `String.split` on one character, `join`, `str.strip`, `str.lower`,
    `endswith`, `int()` on a digit string, `str()` of a number and
    `list.index`. */
module Text {

  /** `str.split(sep)` and JS `s.split(sep)` for a one-character separator:
      there is always at least one piece, and no piece holds the separator. */
  function Split(s: string, sep: char): (r: seq<string>)
    ensures |r| >= 1
    ensures forall k :: 0 <= k < |r| ==> sep !in r[k]
    decreases |s|
  {
    if |s| == 0 then [""]
    else
      var rest := Split(s[1..], sep);
      if s[0] == sep then [""] + rest
      else [[s[0]] + rest[0]] + rest[1..]
  }

  /** `sep.join(parts)` / JS `parts.join(sep)`: empty for no parts, at least
      as long as the first part, and holding the separator once there are two
      parts. */
  function Join(parts: seq<string>, sep: char): (r: string)
    ensures |parts| == 0 ==> r == ""
    ensures |parts| > 0 ==> |parts[0]| <= |r|
    ensures |parts| >= 2 ==> sep in r
  {
    if |parts| == 0 then ""
    else if |parts| == 1 then parts[0]
    else
      var r := parts[0] + [sep] + Join(parts[1..], sep);
      assert r[|parts[0]|] == sep;
      r
  }

  predicate NoSep(parts: seq<string>, sep: char)
  {
    forall k :: 0 <= k < |parts| ==> sep !in parts[k]
  }

  /** Joining the pieces restores the string that was split. */
  lemma {:induction false} JoinSplit(s: string, sep: char)
    ensures Join(Split(s, sep), sep) == s
    decreases |s|
  {
    if |s| > 0 {
      JoinSplit(s[1..], sep);
      var rest := Split(s[1..], sep);
      if s[0] == sep {
        assert Join([""] + rest, sep) == "" + [sep] + Join(rest, sep);
      } else if |rest| == 1 {
        assert Split(s, sep) == [[s[0]] + rest[0]];
      } else {
        var r := Split(s, sep);
        assert r[1..] == rest[1..];
        assert Join(rest, sep) == rest[0] + [sep] + Join(rest[1..], sep);
        assert Join(r, sep) == [s[0]] + rest[0] + [sep] + Join(rest[1..], sep);
      }
    }
  }

  /** A string without the separator splits into itself alone. */
  lemma {:induction false} SplitNoSep(s: string, sep: char)
    requires sep !in s
    ensures Split(s, sep) == [s]
    decreases |s|
  {
    if |s| > 0 {
      SplitNoSep(s[1..], sep);
      assert s == [s[0]] + s[1..];
    }
  }

  /** Splitting distributes over a separator placed between two strings. */
  lemma {:induction false} SplitAround(a: string, b: string, sep: char)
    ensures Split(a + [sep] + b, sep) == Split(a, sep) + Split(b, sep)
    decreases |a|
  {
    if |a| == 0 {
      assert a + [sep] + b == [sep] + b;
      SplitCons(sep, b, sep);
    } else {
      SplitAround(a[1..], b, sep);
      SplitAroundStep(a, b, sep);
    }
  }

  /** The inductive step of `SplitAround`: from the string without its first
      character to the whole. */
  lemma SplitAroundStep(a: string, b: string, sep: char)
    requires |a| > 0
    requires Split(a[1..] + [sep] + b, sep) == Split(a[1..], sep) + Split(b, sep)
    ensures Split(a + [sep] + b, sep) == Split(a, sep) + Split(b, sep)
  {
    var c := a[0];
    var tail := a[1..] + [sep] + b;
    assert a + [sep] + b == [c] + tail;
    assert a == [c] + a[1..];
    SplitCons(c, tail, sep);
    SplitCons(c, a[1..], sep);
    PiecesAppend(c, sep, Split(a[1..], sep), Split(b, sep));
  }

  /** Putting a first character in front of the pieces commutes with
      appending more pieces. */
  lemma PiecesAppend(c: char, sep: char, ra: seq<string>, rb: seq<string>)
    requires |ra| >= 1
    ensures var rt := ra + rb;
      (if c == sep then [""] + rt else [[c] + rt[0]] + rt[1..])
      == (if c == sep then [""] + ra else [[c] + ra[0]] + ra[1..]) + rb
  {
    var rt := ra + rb;
    assert rt[0] == ra[0];
    assert rt[1..] == ra[1..] + rb;
  }

  /** How splitting treats the first character. */
  lemma SplitCons(c: char, t: string, sep: char)
    ensures Split([c] + t, sep) ==
      if c == sep then [""] + Split(t, sep) else [[c] + Split(t, sep)[0]] + Split(t, sep)[1..]
  {
    assert ([c] + t)[1..] == t;
  }

  /** Splitting a join gives back the parts, provided none holds the separator. */
  lemma {:induction false} SplitJoin(parts: seq<string>, sep: char)
    requires |parts| >= 1
    requires NoSep(parts, sep)
    ensures Split(Join(parts, sep), sep) == parts
    decreases |parts|
  {
    if |parts| == 1 {
      SplitNoSep(parts[0], sep);
    } else {
      SplitJoin(parts[1..], sep);
      SplitAround(parts[0], Join(parts[1..], sep), sep);
      SplitNoSep(parts[0], sep);
      assert parts == [parts[0]] + parts[1..];
    }
  }

  /** Whitespace as Python's `str.isspace` sees it, which is what `str.strip()`
      removes. */
  predicate IsSpace(c: char)
  {
    c == ' ' || c == '\t' || c == '\n' || c == '\r' || c == '\U{0B}' || c == '\U{0C}'
    || ('\U{1C}' <= c <= '\U{1F}') || c == '\U{85}' || c == '\U{A0}' || c == '\U{1680}'
    || ('\U{2000}' <= c <= '\U{200A}') || c == '\U{2028}' || c == '\U{2029}'
    || c == '\U{202F}' || c == '\U{205F}' || c == '\U{3000}'
  }

  function TrimStart(s: string): string
    decreases |s|
  {
    if |s| > 0 && IsSpace(s[0]) then TrimStart(s[1..]) else s
  }

  function TrimEnd(s: string): string
    decreases |s|
  {
    if |s| > 0 && IsSpace(s[|s| - 1]) then TrimEnd(s[..|s| - 1]) else s
  }

  /** Every character of `s` is whitespace. */
  predicate AllSpace(s: string)
  {
    forall k :: 0 <= k < |s| ==> IsSpace(s[k])
  }

  /** `str.strip()`: the result is a slice of the input that neither starts nor
      ends with whitespace, and everything cut away is whitespace. */
  function Strip(s: string): (r: string)
    ensures exists i, j :: 0 <= i <= j <= |s| && r == s[i..j] && AllSpace(s[..i]) && AllSpace(s[j..])
    ensures |r| > 0 ==> !IsSpace(r[0]) && !IsSpace(r[|r| - 1])
  {
    StripSlice(s);
    TrimEnd(TrimStart(s))
  }

  lemma StripSlice(s: string)
    ensures exists i, j ::
      0 <= i <= j <= |s| && TrimEnd(TrimStart(s)) == s[i..j] && AllSpace(s[..i]) && AllSpace(s[j..])
    ensures var r := TrimEnd(TrimStart(s)); |r| > 0 ==> !IsSpace(r[0]) && !IsSpace(r[|r| - 1])
  {
    var t := TrimStart(s);
    TrimStartSlice(s);
    TrimEndSlice(t);
    var r := TrimEnd(t);
    CutBothEnds(s, t, r, |s| - |t|, |r|);
  }

  /** A prefix cut from a suffix is a middle slice; the cut-away parts and the
      ends of what is left keep their whitespace facts. */
  lemma CutBothEnds(s: string, t: string, r: string, i: nat, j: nat)
    requires i <= |s| && t == s[i..] && AllSpace(s[..i])
    requires j <= |t| && r == t[..j] && AllSpace(t[j..])
    requires |t| > 0 ==> !IsSpace(t[0])
    requires |r| > 0 ==> !IsSpace(r[|r| - 1])
    ensures i + j <= |s| && r == s[i..i + j] && AllSpace(s[i + j..])
    ensures |r| > 0 ==> !IsSpace(r[0])
  {
    assert s[i + j..] == t[j..];
    if |r| > 0 {
      assert r[0] == t[0];
    }
  }

  /** `lstrip` cuts a run of whitespace off the front and stops at a
      non-whitespace character. */
  lemma {:induction false} TrimStartSlice(s: string)
    ensures |TrimStart(s)| <= |s|
    ensures TrimStart(s) == s[|s| - |TrimStart(s)|..]
    ensures AllSpace(s[..|s| - |TrimStart(s)|])
    ensures |TrimStart(s)| > 0 ==> !IsSpace(TrimStart(s)[0])
    decreases |s|
  {
    if |s| > 0 && IsSpace(s[0]) {
      var u := s[1..];
      TrimStartSlice(u);
      var i := |u| - |TrimStart(u)|;
      assert TrimStart(s) == TrimStart(u);
      assert u[i..] == s[i + 1..];
      assert s[..i + 1] == [s[0]] + u[..i];
    } else {
      assert TrimStart(s) == s;
      assert s[..0] == [];
    }
  }

  /** `rstrip` cuts a run of whitespace off the end and stops at a
      non-whitespace character. */
  lemma {:induction false} TrimEndSlice(t: string)
    ensures |TrimEnd(t)| <= |t|
    ensures TrimEnd(t) == t[..|TrimEnd(t)|]
    ensures AllSpace(t[|TrimEnd(t)|..])
    ensures |TrimEnd(t)| > 0 ==> !IsSpace(TrimEnd(t)[|TrimEnd(t)| - 1])
    decreases |t|
  {
    if |t| > 0 && IsSpace(t[|t| - 1]) {
      var u := t[..|t| - 1];
      TrimEndSlice(u);
      var j := |TrimEnd(u)|;
      assert TrimEnd(t) == TrimEnd(u);
      assert u[..j] == t[..j];
      assert t[j..] == u[j..] + [t[|t| - 1]];
    } else {
      assert TrimEnd(t) == t;
      assert t[|t|..] == [];
    }
  }

  /** `str.lower()` on one character: an ASCII capital becomes its small
      letter; every other character is kept. */
  function LowerChar(c: char): char
  {
    if 'A' <= c <= 'Z' then (c as int + 32) as char else c
  }

  /** `str.lower()` on ASCII letters, one character at a time from the
      front: each character is lowered where it stands, and the result holds
      no ASCII capital. */
  function Lower(s: string): (r: string)
    ensures |r| == |s|
    ensures forall k :: 0 <= k < |s| ==> r[k] == LowerChar(s[k])
    ensures forall k :: 0 <= k < |r| ==> !('A' <= r[k] <= 'Z')
    decreases |s|
  {
    if |s| == 0 then ""
    else Lower(s[..|s| - 1]) + [LowerChar(s[|s| - 1])]
  }

  /** Lowering commutes with taking a suffix. */
  lemma {:induction false} LowerSuffix(s: string, i: nat)
    requires i <= |s|
    ensures Lower(s)[i..] == Lower(s[i..])
    decreases |s|
  {
    if i < |s| {
      var init := s[..|s| - 1];
      var c := LowerChar(s[|s| - 1]);
      LowerSuffix(init, i);
      LowerSnoc(s[i..]);
      assert s[i..][..|s[i..]| - 1] == init[i..];
      LowerSnoc(s);
      SuffixSnoc(Lower(init), [c], i);
    }
  }

  lemma LowerSnoc(s: string)
    requires |s| > 0
    ensures Lower(s) == Lower(s[..|s| - 1]) + [LowerChar(s[|s| - 1])]
  {
  }

  lemma SuffixSnoc(a: string, b: string, i: nat)
    requires i <= |a|
    ensures (a + b)[i..] == a[i..] + b
  {
  }

  /** A string without ASCII capitals is its own lower case; in particular
      lowering twice is lowering once. */
  lemma LowerKeepsSmall(s: string)
    requires forall k :: 0 <= k < |s| ==> !('A' <= s[k] <= 'Z')
    ensures Lower(s) == s
  {
    var r := Lower(s);
    assert forall k :: 0 <= k < |s| ==> r[k] == LowerChar(s[k]) == s[k];
  }

  /** `s.endswith(suffix)` / JS `s.endsWith(suffix)`. Every string ends
      with the empty string. */
  predicate EndsWith(s: string, suffix: string)
    ensures suffix == "" ==> EndsWith(s, suffix)
  {
    |suffix| <= |s| && s[|s| - |suffix|..] == suffix
  }

  predicate IsDigit(c: char)
  {
    '0' <= c <= '9'
  }

  /** A non-empty run of ASCII digits: what `int()` is applied to here. */
  predicate IsDigits(s: string)
  {
    |s| > 0 && forall k :: 0 <= k < |s| ==> IsDigit(s[k])
  }

  /** `int(s)` for a string of digits; leading zeros are allowed. The value
      is zero exactly when every digit is `0`. */
  function DigitsValue(s: string): (r: nat)
    requires forall k :: 0 <= k < |s| ==> IsDigit(s[k])
    ensures r == 0 <==> forall k :: 0 <= k < |s| ==> s[k] == '0'
    decreases |s|
  {
    if |s| == 0 then 0
    else
      assert IsDigit(s[|s| - 1]);
      DigitsValue(s[..|s| - 1]) * 10 + (s[|s| - 1] as int - '0' as int)
  }

  /** `str(n)` for a natural number: decimal, no leading zero. */
  function NatToString(n: nat): (r: string)
    ensures IsDigits(r)
    ensures |r| > 1 ==> r[0] != '0'
    decreases n
  {
    var d := ['0' + (n % 10) as char];
    if n < 10 then d else NatToString(n / 10) + d
  }

  /** `int(str(n)) == n`. */
  lemma {:induction false} DigitsValueOfNatToString(n: nat)
    ensures DigitsValue(NatToString(n)) == n
    decreases n
  {
    var s := NatToString(n);
    if n >= 10 {
      DigitsValueOfNatToString(n / 10);
      assert s[..|s| - 1] == NatToString(n / 10);
    }
  }

  /** A leading zero does not change the number, so `007` and `7` name the
      same ID. */
  lemma {:induction false} DigitsValueLeadingZero(s: string)
    requires forall k :: 0 <= k < |s| ==> IsDigit(s[k])
    ensures DigitsValue("0" + s) == DigitsValue(s)
    decreases |s|
  {
    if |s| > 0 {
      var init := s[..|s| - 1];
      DigitsValueLeadingZero(init);
      assert ("0" + s)[..|"0" + s| - 1] == "0" + init;
    }
  }

  /** `elems.index(elem)`: the position of the first occurrence. */
  function IndexOf<T(==)>(elems: seq<T>, elem: T): (i: nat)
    requires elem in elems
    ensures i < |elems| && elems[i] == elem && elem !in elems[..i]
  {
    if elems[0] == elem then 0
    else
      var i := IndexOf(elems[1..], elem);
      assert elems[1..][..i] == elems[1..i + 1];
      assert elems[..i + 1] == [elems[0]] + elems[1..i + 1];
      i + 1
  }
}
