/** `prev_and_next_elems` (app.py): the elements just before and just after
    a given element of a list, used to offer "move left / move right" links. */
module Neighbours {
  import opened Wrappers
  import opened Text

  /** `prev_and_next_elems(elems, elem)` for a list: the neighbours of the
      first occurrence of `elem`, `None` at either end, and `(None, None)`
      when the list is empty or lacks `elem`. */
  function PrevAndNext<T(==)>(elems: seq<T>, elem: T): (r: (Option<T>, Option<T>))
    ensures elem !in elems ==> r == (None, None)
    ensures elem in elems ==> (r.0 == None <==> elems[0] == elem)
    ensures elem in elems ==> (r.1 == None <==> elem !in elems[..|elems| - 1])
    ensures r.0.Some? ==> exists i :: 0 < i < |elems| && elems[i] == elem && elem !in elems[..i] && elems[i - 1] == r.0.value
    ensures r.1.Some? ==> exists i :: 0 <= i < |elems| - 1 && elems[i] == elem && elem !in elems[..i] && elems[i + 1] == r.1.value
  {
    if |elems| == 0 || elem !in elems then (None, None)
    else
      var idx := IndexOf(elems, elem);
      var prev := if idx > 0 then Some(elems[idx - 1]) else None;
      var next := if idx < |elems| - 1 then Some(elems[idx + 1]) else None;
      assert idx > 0 ==> elems[0] != elem by {
        if idx > 0 { assert elems[0] == elems[..idx][0]; }
      }
      assert elem in elems[..|elems| - 1] <==> idx < |elems| - 1 by {
        if idx < |elems| - 1 { assert elems[..|elems| - 1][idx] == elem; }
        if idx == |elems| - 1 { assert elems[..|elems| - 1] == elems[..idx]; }
      }
      (prev, next)
  }

  /** Both neighbours found means `prev, elem, next` stand side by side in
      the list, around the first occurrence of `elem`. */
  lemma NeighboursAdjacent<T>(elems: seq<T>, elem: T, p: T, n: T)
    requires PrevAndNext(elems, elem) == (Some(p), Some(n))
    ensures exists i :: 0 < i < |elems| - 1 && elems[i - 1..i + 2] == [p, elem, n] && elem !in elems[..i]
  {
    var i := IndexOf(elems, elem);
    assert 0 < i < |elems| - 1;
    assert elems[i - 1] == p && elems[i + 1] == n;
    assert elems[i - 1..i + 2] == [elems[i - 1], elems[i], elems[i + 1]];
  }

  /** `elem in s` for two strings: a substring test. */
  predicate IsSubstring(a: string, b: string)
  {
    exists i, j :: 0 <= i <= j <= |b| && b[i..j] == a
  }

  /** What Python raises when `list.index` does not find the element. */
  datatype Raised = ValueError

  /** `prev_and_next_elems(elems, elem)` when `elems` is a comma-separated
      string: the membership test is a substring test made BEFORE splitting,
      so an element that occurs only inside a piece reaches `index` on the
      split list and raises `ValueError`. */
  function PrevAndNextCsv(elems: string, elem: string): (r: Result<(Option<string>, Option<string>), Raised>)
    ensures r.Failure? <==> elems != "" && IsSubstring(elem, elems) && elem !in Split(elems, ',')
    ensures !IsSubstring(elem, elems) ==> r == Success((None, None))
  {
    if elems == "" || !IsSubstring(elem, elems) then Success((None, None))
    else
      var pieces := Split(elems, ',');
      if elem in pieces then Success(PrevAndNext(pieces, elem)) else Failure(ValueError)
  }

  /** Each part of a join is a substring of it. */
  lemma {:induction false} JoinHasPart(parts: seq<string>, sep: char, k: nat)
    requires k < |parts|
    ensures IsSubstring(parts[k], Join(parts, sep))
    decreases |parts|
  {
    if |parts| == 1 {
      assert Join(parts, sep) == parts[0] + "";
      SubstringOfPrefix(parts[0], "");
    } else {
      var rest := Join(parts[1..], sep);
      assert Join(parts, sep) == parts[0] + ([sep] + rest) == (parts[0] + [sep]) + rest;
      if k == 0 {
        SubstringOfPrefix(parts[0], [sep] + rest);
      } else {
        JoinHasPart(parts[1..], sep, k - 1);
        assert parts[1..][k - 1] == parts[k];
        SubstringInSuffix(parts[k], parts[0] + [sep], rest);
      }
    }
  }

  /** A string is a substring of itself followed by anything. */
  lemma SubstringOfPrefix(x: string, tail: string)
    ensures IsSubstring(x, x + tail)
  {
    assert (x + tail)[0..|x|] == x;
  }

  /** A substring of the end of a string is a substring of the whole. */
  lemma SubstringInSuffix(x: string, pre: string, rest: string)
    requires IsSubstring(x, rest)
    ensures IsSubstring(x, pre + rest)
  {
    var a, b :| 0 <= a <= b <= |rest| && rest[a..b] == x;
    assert (pre + rest)[|pre| + a..|pre| + b] == rest[a..b];
  }

  /** For an element that is one of the pieces, the string form agrees with
      the list form on the split pieces. */
  lemma CsvAgreesWithList(elems: string, elem: string)
    requires elems != "" && elem in Split(elems, ',')
    ensures PrevAndNextCsv(elems, elem) == Success(PrevAndNext(Split(elems, ','), elem))
  {
    var pieces := Split(elems, ',');
    var k :| 0 <= k < |pieces| && pieces[k] == elem;
    JoinHasPart(pieces, ',', k);
    JoinSplit(elems, ',');
  }

  /** The crash: "2" is a substring of "12,3" but not one of its pieces. */
  lemma CsvSubstringRaises()
    ensures PrevAndNextCsv("12,3", "2") == Failure(ValueError)
  {
    var s := "12,3";
    assert s[1..2] == "2";
    assert s == "12" + [','] + "3";
    SplitAround("12", "3", ',');
    SplitNoSep("12", ',');
    SplitNoSep("3", ',');
    assert Split(s, ',') == ["12", "3"];
  }
}
