/** The subtask relationships of an item (app.py, the POST branch of the
    item page). The description is the single source of truth: every time it
    is saved non-empty, all relationships the item starts are deleted and one
    "subtask" relationship is added for each distinct existing item the
    description mentions as `subtask #N`, in order of first mention. The save
    fails after the delete was committed, and the rows added so far are
    rolled back, when the first reference has too many digits for `int()` or
    a reference is too large for SQLite's 64-bit INTEGER. */
module Subtasks {
  import opened Wrappers
  import opened Text

  /** What introduces a reference in a description. */
  const Marker: string := "subtask #"

  /** The relationship type the item page creates and lists. */
  const SubtaskKind: int := 100

  /** The largest value SQLite's 64-bit INTEGER holds. Binding a larger
      Python int to a query parameter raises, so the existence check of a
      reference above it fails the request. */
  const SqliteIntMax: nat := 0x7FFF_FFFF_FFFF_FFFF

  /** CPython's default limit on the digits `int()` converts from a string
      (`sys.get_int_max_str_digits()`): a longer digit string, leading zeros
      included, raises `ValueError`. */
  const MaxStrDigits: nat := 4300

  /** Every reference `int()` converted can be bound to the existence query. */
  predicate Storable(refs: seq<Option<nat>>)
  {
    forall k :: 0 <= k < |refs| && refs[k].Some? ==> refs[k].value <= SqliteIntMax
  }

  /** The loop over the references runs to its end. A capture `int()` cannot
      convert is passed over and leaves `subtask_int` as it was: at the first
      reference it is still unbound, and reading it raises. Every value it
      takes must fit the existence query. */
  predicate Completes(refs: seq<Option<nat>>)
  {
    (|refs| == 0 || refs[0].Some?) && Storable(refs)
  }

  /** A row of the relationship table: `item1` starts it, `item2` is the
      other end, `kind` its type. */
  datatype Edge = Edge(item1: nat, item2: nat, kind: int)

  /** `subtask #` stands at `i`. */
  predicate MarkerAt(s: string, i: nat)
  {
    i + |Marker| <= |s| && s[i..i + |Marker|] == Marker
  }

  /** The length of the run of digits starting at `i`: what a greedy `\d+`
      takes. */
  function DigitRun(s: string, i: nat): (n: nat)
    requires i <= |s|
    ensures i + n <= |s|
    ensures forall k :: i <= k < i + n ==> IsDigit(s[k])
    ensures i + n == |s| || !IsDigit(s[i + n])
    decreases |s| - i
  {
    if i < |s| && IsDigit(s[i]) then 1 + DigitRun(s, i + 1) else 0
  }

  /** The pattern `subtask #(\d+)` matches at `i`. */
  predicate RefAt(s: string, i: nat)
  {
    MarkerAt(s, i) && DigitRun(s, i + |Marker|) > 0
  }

  /** Where the match at `i` ends. */
  function RefEnd(s: string, i: nat): (e: nat)
    requires RefAt(s, i)
    ensures i < e <= |s|
  {
    i + |Marker| + DigitRun(s, i + |Marker|)
  }

  /** `int()` of the digits the match at `i` captures, `None` where it
      raises: the run is longer than `MaxStrDigits`. */
  function RefValue(s: string, i: nat): (r: Option<nat>)
    requires RefAt(s, i)
    ensures r.None? <==> RefEnd(s, i) - (i + |Marker|) > MaxStrDigits
  {
    var start := i + |Marker|;
    var digits := s[start..RefEnd(s, i)];
    assert forall k :: 0 <= k < |digits| ==> digits[k] == s[start + k];
    if |digits| > MaxStrDigits then None else Some(DigitsValue(digits))
  }

  /** A run of exactly `n` digits starts at `i`. */
  lemma DigitRunIs(s: string, i: nat, n: nat)
    requires i + n <= |s| && forall k :: i <= k < i + n ==> IsDigit(s[k])
    requires i + n == |s| || !IsDigit(s[i + n])
    ensures DigitRun(s, i) == n
  {
  }

  /** A mention `subtask #` plus digits, not followed by another digit,
      captures exactly those digits; `int()` reads their value unless there
      are more than `MaxStrDigits` of them. */
  lemma RefValueOfMention(pre: string, d: string, t: string)
    requires IsDigits(d) && (|t| == 0 || !IsDigit(t[0]))
    ensures RefAt(pre + Marker + d + t, |pre|)
    ensures RefEnd(pre + Marker + d + t, |pre|) == |pre| + |Marker| + |d|
    ensures RefValue(pre + Marker + d + t, |pre|)
      == if |d| <= MaxStrDigits then Some(DigitsValue(d)) else None
  {
    MentionShape(pre, d, t);
    RefValueAt(pre + Marker + d + t, |pre|, |d|);
  }

  /** Where `pre + Marker + d + t` holds the marker, the digits and what
      follows them. */
  lemma MentionShape(pre: string, d: string, t: string)
    ensures MarkerAt(pre + Marker + d + t, |pre|)
    ensures (pre + Marker + d + t)[|pre| + |Marker|..|pre| + |Marker| + |d|] == d
    ensures |t| > 0 ==> (pre + Marker + d + t)[|pre| + |Marker| + |d|] == t[0]
  {
    var s := pre + Marker + d + t;
    var i := |pre|;
    var m := |Marker|;
    assert s[i..i + m] == Marker;
    assert s[i + m..i + m + |d|] == d;
  }

  /** A match at `i` whose digit run has length `n`. */
  lemma RefValueAt(s: string, i: nat, n: nat)
    requires MarkerAt(s, i) && i + |Marker| + n <= |s|
    requires IsDigits(s[i + |Marker|..i + |Marker| + n])
    requires i + |Marker| + n == |s| || !IsDigit(s[i + |Marker| + n])
    ensures RefAt(s, i) && RefEnd(s, i) == i + |Marker| + n
    ensures RefValue(s, i)
      == if n <= MaxStrDigits then Some(DigitsValue(s[i + |Marker|..i + |Marker| + n])) else None
  {
    var j := i + |Marker|;
    assert forall k :: j <= k < j + n ==> s[k] == s[j..j + n][k - j];
    DigitRunIs(s, j, n);
  }

  /** Writing `subtask #` and the decimal form of `n` refers to `n`, as long
      as `int()` accepts that many digits. */
  lemma MentionReadsBack(n: nat, t: string)
    requires |NatToString(n)| <= MaxStrDigits && (|t| == 0 || !IsDigit(t[0]))
    ensures RefAt(Marker + NatToString(n) + t, 0)
    ensures RefValue(Marker + NatToString(n) + t, 0) == Some(n)
  {
    var d := NatToString(n);
    var s := Marker + d + t;
    Pieces(Marker, d, t);
    RefValueAt(s, 0, |d|);
    DigitsValueOfNatToString(n);
  }

  /** Where the pieces of `a + b + c` stand. */
  lemma Pieces(a: string, b: string, c: string)
    ensures var s := a + b + c;
      s[0..|a|] == a && s[|a|..|a| + |b|] == b && (|c| > 0 ==> s[|a| + |b|] == c[0])
  {
  }

  /** `re.findall(r"subtask #(\d+)", s)` scanning from `k`, each capture
      converted by `int()`: a match is taken where one starts and the scan
      resumes after it; elsewhere the scan moves one character on. */
  function RefsFrom(s: string, k: nat): (r: seq<Option<nat>>)
    ensures |r| == 0 || 10 * |r| + k <= |s|
    decreases |s| - k
  {
    if k >= |s| then []
    else if RefAt(s, k) then [RefValue(s, k)] + RefsFrom(s, RefEnd(s, k))
    else RefsFrom(s, k + 1)
  }

  /** The numbers a description refers to, in order, repetitions kept, and
      `None` for each that `int()` rejects. Each takes at least ten
      characters: the marker and a digit. */
  function SubtaskRefs(description: string): (r: seq<Option<nat>>)
    ensures 10 * |r| <= |description|
  {
    RefsFrom(description, 0)
  }

  /** The description mentions `n` as `subtask #N` at or after `k`, with `N`
      the whole digit run there, short enough for `int()`. */
  ghost predicate MentionedFrom(s: string, k: nat, n: nat)
  {
    exists i :: k <= i < |s| && RefAt(s, i) && RefValue(s, i) == Some(n)
  }

  /** No `subtask #` starts inside a match: the marker does not overlap
      itself, and a digit is not an `s`. */
  lemma NoMarkerInsideRef(s: string, k: nat, i: nat)
    requires RefAt(s, k) && k < i < RefEnd(s, k)
    ensures !MarkerAt(s, i)
  {
    var m := |Marker|;
    MarkerFirstChars(s, i);
    if i < k + m {
      assert s[i] == s[k..k + m][i - k];
      if i + 1 < k + m {
        assert s[i + 1] == s[k..k + m][i - k + 1];
      }
    } else {
      assert IsDigit(s[i]);
    }
  }

  /** The marker starts with `su`. */
  lemma MarkerFirstChars(s: string, i: nat)
    ensures MarkerAt(s, i) ==> s[i] == 's' && s[i + 1] == 'u'
  {
    if MarkerAt(s, i) {
      assert s[i] == s[i..i + |Marker|][0];
      assert s[i + 1] == s[i..i + |Marker|][1];
    }
  }

  /** The scan finds exactly the numbers mentioned at or after `k`: a mention
      is never swallowed by an earlier match. */
  lemma {:induction false} RefsFromMentions(s: string, k: nat, n: nat)
    ensures Some(n) in RefsFrom(s, k) <==> MentionedFrom(s, k, n)
    decreases |s| - k
  {
    if k < |s| {
      if RefAt(s, k) {
        var e := RefEnd(s, k);
        RefsFromMentions(s, e, n);
        assert RefsFrom(s, k) == [RefValue(s, k)] + RefsFrom(s, e);
        MentionedSkipsRef(s, k, n);
      } else {
        RefsFromMentions(s, k + 1, n);
        assert RefsFrom(s, k) == RefsFrom(s, k + 1);
        assert MentionedFrom(s, k, n) <==> MentionedFrom(s, k + 1, n) by {
          if MentionedFrom(s, k, n) {
            var i :| k <= i < |s| && RefAt(s, i) && RefValue(s, i) == Some(n);
            assert i != k;
          }
        }
      }
    }
  }

  /** The mentions from a match on are that match and those after it. */
  lemma MentionedSkipsRef(s: string, k: nat, n: nat)
    requires RefAt(s, k)
    ensures MentionedFrom(s, k, n) <==> RefValue(s, k) == Some(n) || MentionedFrom(s, RefEnd(s, k), n)
  {
    var e := RefEnd(s, k);
    if MentionedFrom(s, k, n) && RefValue(s, k) != Some(n) {
      var i :| k <= i < |s| && RefAt(s, i) && RefValue(s, i) == Some(n);
      if k < i < e {
        NoMarkerInsideRef(s, k, i);
      }
      assert e <= i;
    }
  }

  /** A number is referred to exactly when the description mentions it. */
  lemma SubtaskRefsMentions(description: string, n: nat)
    ensures Some(n) in SubtaskRefs(description) <==> MentionedFrom(description, 0, n)
  {
    RefsFromMentions(description, 0, n);
  }

  /** The subtasks the loop adds, in order: each referred number that names
      an existing item, the first time it comes. A capture `int()` rejected
      adds nothing: `subtask_int` still holds an earlier reference, which was
      dealt with already. */
  function Targets(refs: seq<Option<nat>>, items: set<nat>): (r: seq<nat>)
    ensures forall n :: n in r <==> Some(n) in refs && n in items
    ensures forall i, j :: 0 <= i < j < |r| ==> r[i] != r[j]
    decreases |refs|
  {
    if |refs| == 0 then []
    else
      var init := refs[..|refs| - 1];
      var last := refs[|refs| - 1];
      assert refs == init + [last];
      var t := Targets(init, items);
      if last.Some? && last.value in items && last.value !in t then t + [last.value] else t
  }

  /** The subtasks come in the order in which they are first mentioned. */
  lemma {:induction false} TargetsInFirstMentionOrder(refs: seq<Option<nat>>, items: set<nat>, i: nat, j: nat)
    requires i < j < |Targets(refs, items)|
    ensures IndexOf(refs, Some(Targets(refs, items)[i])) < IndexOf(refs, Some(Targets(refs, items)[j]))
    decreases |refs|
  {
    var init := refs[..|refs| - 1];
    var last := refs[|refs| - 1];
    var t := Targets(init, items);
    var r := Targets(refs, items);
    assert refs == init + [last];
    assert r[i] in t by {
      assert i < |t|;
      assert r[i] == t[i];
    }
    assert Some(r[i]) in init;
    IndexOfPrefix(init, last, Some(r[i]));
    if j < |t| {
      assert r[j] == t[j];
      TargetsInFirstMentionOrder(init, items, i, j);
      IndexOfPrefix(init, last, Some(r[j]));
    } else {
      assert last == Some(r[j]) && r[j] !in t;
      assert last !in init;
      assert IndexOf(refs, last) == |init| by {
        assert refs[..|init|] == init;
      }
    }
  }

  /** Appending leaves the first index of an element of the prefix alone. */
  lemma IndexOfPrefix(init: seq<Option<nat>>, n: Option<nat>, x: Option<nat>)
    requires x in init
    ensures IndexOf(init + [n], x) == IndexOf(init, x)
  {
    var a := IndexOf(init + [n], x);
    var b := IndexOf(init, x);
    assert (init + [n])[b] == x;
    assert (init + [n])[..b] == init[..b];
  }

  /** The rows with `item1` other than `id`, in order. */
  function Without(edges: seq<Edge>, id: nat): (r: seq<Edge>)
    ensures forall e :: e in r <==> e in edges && e.item1 != id
    decreases |edges|
  {
    if |edges| == 0 then []
    else
      var init := edges[..|edges| - 1];
      var e := edges[|edges| - 1];
      assert edges == init + [e];
      Without(init, id) + (if e.item1 != id then [e] else [])
  }

  /** The rows `id` starts, in order. */
  function Outgoing(edges: seq<Edge>, id: nat): (r: seq<Edge>)
    ensures forall e :: e in r <==> e in edges && e.item1 == id
    decreases |edges|
  {
    if |edges| == 0 then []
    else
      var init := edges[..|edges| - 1];
      var e := edges[|edges| - 1];
      assert edges == init + [e];
      Outgoing(init, id) + (if e.item1 == id then [e] else [])
  }

  /** The subtask rows `id` starts: the relationships the item page lists. */
  function SubtaskEdges(edges: seq<Edge>, id: nat): (r: seq<Edge>)
    ensures forall e :: e in r <==> e in edges && e.item1 == id && e.kind == SubtaskKind
    decreases |edges|
  {
    if |edges| == 0 then []
    else
      var init := edges[..|edges| - 1];
      var e := edges[|edges| - 1];
      assert edges == init + [e];
      SubtaskEdges(init, id) + (if e.item1 == id && e.kind == SubtaskKind then [e] else [])
  }

  /** One subtask row from `id` to each target, in order. */
  function EdgesTo(id: nat, targets: seq<nat>): (r: seq<Edge>)
    ensures |r| == |targets|
    ensures forall e :: e in r <==> e.item1 == id && e.kind == SubtaskKind && e.item2 in targets
    decreases |targets|
  {
    if |targets| == 0 then []
    else
      var init := targets[..|targets| - 1];
      var n := targets[|targets| - 1];
      assert targets == init + [n];
      EdgesTo(id, init) + [Edge(id, n, SubtaskKind)]
  }

  /** The relationship table after the item `id` is saved with `description`:
      untouched for an empty (or absent) description; otherwise every row `id`
      starts is gone, whatever its type, and the subtask rows of the
      description follow the remaining rows. The delete is committed before
      the references are walked, so when the loop fails (see `Completes`)
      the rows added so far are rolled back and the item is left starting
      no rows at all. */
  function Reconciled(edges: seq<Edge>, items: set<nat>, id: nat, description: string): (r: seq<Edge>)
    ensures description == "" ==> r == edges
    ensures forall e: Edge :: e.item1 != id ==> (e in r <==> e in edges)
    ensures description != "" ==> forall e :: e in r && e.item1 == id ==> e.kind == SubtaskKind && e.item2 in items
  {
    if description == "" then edges
    else
      var refs := SubtaskRefs(description);
      if !Completes(refs) then Without(edges, id)
      else Without(edges, id) + EdgesTo(id, Targets(refs, items))
  }

  /** The item page's store: the items that exist and the relationship table. */
  class RelationshipStore {
    var items: set<nat>
    var edges: seq<Edge>

    /** Every relationship joins two existing items: an integrity fact that
        saving preserves, not a precondition of any operation here. */
    predicate Valid()
      reads this
    {
      forall e :: e in edges ==> e.item1 in items && e.item2 in items
    }

    constructor (existing: set<nat>)
      ensures items == existing && edges == []
      ensures Valid()
    {
      items := existing;
      edges := [];
    }

    /** Saving item `id` with `description`: when the description is
        non-empty, delete every row the item starts, then walk the references
        and add a subtask row for each one that names an existing item and
        was not added already. */
    method Reconcile(id: nat, description: string)
      requires id in items
      modifies this
      ensures items == old(items)
      ensures edges == Reconciled(old(edges), items, id, description)
      ensures description == "" ==> edges == old(edges)
      ensures old(Valid()) ==> Valid()
    {
      if Valid() {
        ReconciledValid(edges, items, id, description);
      }
      if description != "" {
        edges := Without(edges, id);
        var ok := AddSubtaskRows(id, SubtaskRefs(description));
      }
    }

    /** The loop over the references (see `VisitRef` for one turn of it).
        Rows are queued in `pending`; when the loop raises, `ok` is false and
        the queued rows are dropped with the session. Otherwise the final
        commit appends them. */
    method AddSubtaskRows(id: nat, refs: seq<Option<nat>>) returns (ok: bool)
      requires id in items
      modifies this
      ensures items == old(items)
      ensures ok <==> Completes(refs)
      ensures ok ==> edges == old(edges) + EdgesTo(id, Targets(refs, items))
      ensures !ok ==> edges == old(edges)
    {
      var pending: seq<Edge> := [];
      var added: set<nat> := {};
      var current: Option<nat> := None;
      for j := 0 to |refs|
        invariant items == old(items) && edges == old(edges)
        invariant LoopState(refs, j, items, id, current, pending, added)
      {
        var failed: bool;
        failed, current, pending, added := VisitRef(refs, j, items, id, current, pending, added);
        if failed {
          return false;
        }
      }
      assert refs[..|refs|] == refs;
      edges := edges + pending;
      ok := true;
    }

    /** The subtask relationships item `id` starts, as the item page lists
        them. */
    method SubtasksOf(id: nat) returns (rels: seq<Edge>)
      ensures forall e :: e in rels <==> e in edges && e.item1 == id && e.kind == SubtaskKind
      ensures rels == SubtaskEdges(edges, id)
    {
      rels := [];
      for i := 0 to |edges|
        invariant rels == SubtaskEdges(edges[..i], id)
      {
        if edges[i].item1 == id && edges[i].kind == SubtaskKind {
          rels := rels + [edges[i]];
        }
        assert edges[..i + 1] == edges[..i] + [edges[i]];
      }
      assert edges[..|edges|] == edges;
    }
  }

  /** What holds after the first `j` turns of the loop in `AddSubtaskRows`:
      none of them raised, `current` is bound once a turn has run and holds
      a value the existence query took, and the rows queued and the numbers
      remembered are those of the targets so far. */
  ghost predicate LoopState(refs: seq<Option<nat>>, j: nat, items: set<nat>, id: nat,
                            current: Option<nat>, pending: seq<Edge>, added: set<nat>)
    requires j <= |refs|
  {
    && Completes(refs[..j])
    && (current.Some? <==> j > 0)
    && (current.Some? ==> current.value <= SqliteIntMax)
    && (current.Some? && current.value in items ==> current.value in added)
    && pending == EdgesTo(id, Targets(refs[..j], items))
    && (forall n :: n in added <==> n in Targets(refs[..j], items))
  }

  /** One turn of the loop: `int()` of the capture, when it succeeds, becomes
      `current` (`subtask_int`); reading an unbound `current` or querying a
      number above `SqliteIntMax` raises; a number that names an existing
      item not remembered in `added` queues a subtask row. */
  method VisitRef(refs: seq<Option<nat>>, j: nat, items: set<nat>, id: nat,
                  current: Option<nat>, pending: seq<Edge>, added: set<nat>)
    returns (failed: bool, current1: Option<nat>, pending1: seq<Edge>, added1: set<nat>)
    requires j < |refs| && LoopState(refs, j, items, id, current, pending, added)
    ensures failed ==> !Completes(refs)
    ensures !failed ==> LoopState(refs, j + 1, items, id, current1, pending1, added1)
  {
    current1, pending1, added1 := current, pending, added;
    if refs[j].Some? {
      current1 := refs[j];
    }
    if current1.None? {
      RefFails(refs, 0);
      return true, current1, pending1, added1;
    }
    var n := current1.value;
    if n > SqliteIntMax {
      RefFails(refs, j);
      return true, current1, pending1, added1;
    }
    if n in items && n !in added {
      LoopStateAdd(refs, j, items, id, current, pending, added);
      pending1 := pending + [Edge(id, n, SubtaskKind)];
      added1 := added + {n};
    } else {
      LoopStateSkip(refs, j, items, id, current, pending, added, current1);
    }
    failed := false;
  }

  /** A turn that queues a row for the number it converted. */
  lemma LoopStateAdd(refs: seq<Option<nat>>, j: nat, items: set<nat>, id: nat,
                     current: Option<nat>, pending: seq<Edge>, added: set<nat>)
    requires j < |refs| && LoopState(refs, j, items, id, current, pending, added)
    requires refs[j].Some? && refs[j].value <= SqliteIntMax
    requires refs[j].value in items && refs[j].value !in added
    ensures LoopState(refs, j + 1, items, id, refs[j], pending + [Edge(id, refs[j].value, SubtaskKind)],
                      added + {refs[j].value})
  {
    CompletesStep(refs, j);
    TargetsAdd(refs, j, items);
    EdgesToAppend(id, Targets(refs[..j], items), refs[j].value);
  }

  /** A turn that queues nothing: the number `next` holds names no item or
      one queued already. */
  lemma LoopStateSkip(refs: seq<Option<nat>>, j: nat, items: set<nat>, id: nat,
                      current: Option<nat>, pending: seq<Edge>, added: set<nat>, next: Option<nat>)
    requires j < |refs| && LoopState(refs, j, items, id, current, pending, added)
    requires next == if refs[j].Some? then refs[j] else current
    requires next.Some? && next.value <= SqliteIntMax
    requires next.value !in items || next.value in added
    ensures LoopState(refs, j + 1, items, id, next, pending, added)
  {
    CompletesStep(refs, j);
    TargetsSkip(refs, j, items, next.value);
  }

  /** The loop fails at a first reference `int()` rejected, and at a
      reference too large for the existence query. */
  lemma RefFails(refs: seq<Option<nat>>, j: nat)
    requires j < |refs|
    requires (j == 0 && refs[0].None?) || (refs[j].Some? && refs[j].value > SqliteIntMax)
    ensures !Completes(refs)
  {
  }

  /** The loop survives one more reference that, where converted, fits, once
      `current` is bound. */
  lemma CompletesStep(refs: seq<Option<nat>>, j: nat)
    requires j < |refs| && Completes(refs[..j]) && (j > 0 || refs[0].Some?)
    requires refs[j].Some? ==> refs[j].value <= SqliteIntMax
    ensures Completes(refs[..j + 1])
  {
    assert refs[..j + 1] == refs[..j] + [refs[j]];
  }

  /** A reference naming an existing item not yet among the targets is
      added to them. */
  lemma TargetsAdd(refs: seq<Option<nat>>, j: nat, items: set<nat>)
    requires j < |refs| && refs[j].Some?
    requires refs[j].value in items && refs[j].value !in Targets(refs[..j], items)
    ensures Targets(refs[..j + 1], items) == Targets(refs[..j], items) + [refs[j].value]
  {
    TargetsStep(refs, j, items);
  }

  /** A capture `int()` rejected, or a number that names no item or one
      already added, leaves the targets as they were. */
  lemma TargetsSkip(refs: seq<Option<nat>>, j: nat, items: set<nat>, n: nat)
    requires j < |refs| && (refs[j].Some? ==> refs[j].value == n)
    requires n !in items || n in Targets(refs[..j], items)
    ensures Targets(refs[..j + 1], items) == Targets(refs[..j], items)
  {
    TargetsStep(refs, j, items);
  }

  /** One more reference extends the targets by it exactly when it names an
      existing item not yet among them. */
  lemma TargetsStep(refs: seq<Option<nat>>, j: nat, items: set<nat>)
    requires j < |refs|
    ensures Targets(refs[..j + 1], items) == var t := Targets(refs[..j], items);
      if refs[j].Some? && refs[j].value in items && refs[j].value !in t then t + [refs[j].value] else t
  {
    assert refs[..j + 1][..j] == refs[..j];
  }

  lemma EdgesToAppend(id: nat, t: seq<nat>, n: nat)
    ensures EdgesTo(id, t + [n]) == EdgesTo(id, t) + [Edge(id, n, SubtaskKind)]
  {
    assert (t + [n])[..|t|] == t;
  }

  /** Filtering by `item1` distributes over concatenation. */
  lemma {:induction false} WithoutAppend(a: seq<Edge>, b: seq<Edge>, id: nat)
    ensures Without(a + b, id) == Without(a, id) + Without(b, id)
    decreases |b|
  {
    if |b| > 0 {
      var init := b[..|b| - 1];
      WithoutAppend(a, init, id);
      assert (a + b)[..|a + b| - 1] == a + init;
    } else {
      assert a + b == a;
    }
  }

  lemma {:induction false} OutgoingAppend(a: seq<Edge>, b: seq<Edge>, id: nat)
    ensures Outgoing(a + b, id) == Outgoing(a, id) + Outgoing(b, id)
    decreases |b|
  {
    if |b| > 0 {
      var init := b[..|b| - 1];
      OutgoingAppend(a, init, id);
      assert (a + b)[..|a + b| - 1] == a + init;
    } else {
      assert a + b == a;
    }
  }

  /** Rows all started by `id` vanish when the rows of `id` are removed. */
  lemma {:induction false} WithoutAllFrom(edges: seq<Edge>, id: nat)
    requires forall k :: 0 <= k < |edges| ==> edges[k].item1 == id
    ensures Without(edges, id) == []
    decreases |edges|
  {
    if |edges| > 0 {
      var init := edges[..|edges| - 1];
      assert forall k :: 0 <= k < |init| ==> init[k] == edges[k];
      WithoutAllFrom(init, id);
    }
  }

  /** Rows all started by `id` are all among `id`'s rows. */
  lemma {:induction false} OutgoingAllFrom(edges: seq<Edge>, id: nat)
    requires forall k :: 0 <= k < |edges| ==> edges[k].item1 == id
    ensures Outgoing(edges, id) == edges
    decreases |edges|
  {
    if |edges| > 0 {
      var init := edges[..|edges| - 1];
      var e := edges[|edges| - 1];
      assert edges == init + [e];
      assert forall k :: 0 <= k < |init| ==> init[k] == edges[k];
      OutgoingAllFrom(init, id);
    }
  }

  /** Rows started by items other than `x` are not among `x`'s. */
  lemma {:induction false} OutgoingNoneFrom(edges: seq<Edge>, x: nat)
    requires forall k :: 0 <= k < |edges| ==> edges[k].item1 != x
    ensures Outgoing(edges, x) == []
    decreases |edges|
  {
    if |edges| > 0 {
      OutgoingNoneFrom(edges[..|edges| - 1], x);
    }
  }

  /** Removing `id`'s rows leaves every other item's rows as they were. */
  lemma {:induction false} OutgoingWithout(edges: seq<Edge>, id: nat, x: nat)
    requires x != id
    ensures Outgoing(Without(edges, id), x) == Outgoing(edges, x)
    decreases |edges|
  {
    if |edges| > 0 {
      var init := edges[..|edges| - 1];
      var e := edges[|edges| - 1];
      OutgoingWithout(init, id, x);
      OutgoingAppend(Without(init, id), if e.item1 != id then [e] else [], x);
    }
  }

  /** Scoped delete: every row the saved item does not start survives, in
      its order, and nothing else is left of the old rows. */
  lemma ReconcileKeepsOtherRows(edges: seq<Edge>, items: set<nat>, id: nat, description: string)
    requires description != ""
    ensures Without(Reconciled(edges, items, id, description), id) == Without(edges, id)
  {
    var added := if Completes(SubtaskRefs(description)) then EdgesTo(id, Targets(SubtaskRefs(description), items)) else [];
    assert Reconciled(edges, items, id, description) == Without(edges, id) + added;
    WithoutAppend(Without(edges, id), added, id);
    WithoutAllFrom(added, id);
    WithoutTwice(edges, id);
  }

  lemma {:induction false} WithoutTwice(edges: seq<Edge>, id: nat)
    ensures Without(Without(edges, id), id) == Without(edges, id)
    decreases |edges|
  {
    if |edges| > 0 {
      var init := edges[..|edges| - 1];
      var e := edges[|edges| - 1];
      WithoutTwice(init, id);
      WithoutAppend(Without(init, id), if e.item1 != id then [e] else [], id);
    }
  }

  /** After saving with a non-empty description, the rows the item starts are
      exactly one subtask row per distinct existing item the description
      mentions, in order of first mention, or none at all when a reference is
      too large for the existence query; other items' rows are unchanged. */
  lemma ReconciledOutgoing(edges: seq<Edge>, items: set<nat>, id: nat, description: string, x: nat)
    requires description != ""
    ensures Outgoing(Reconciled(edges, items, id, description), id)
      == if Completes(SubtaskRefs(description)) then EdgesTo(id, Targets(SubtaskRefs(description), items)) else []
    ensures x != id ==> Outgoing(Reconciled(edges, items, id, description), x) == Outgoing(edges, x)
  {
    var added := if Completes(SubtaskRefs(description)) then EdgesTo(id, Targets(SubtaskRefs(description), items)) else [];
    assert Reconciled(edges, items, id, description) == Without(edges, id) + added;
    assert forall k :: 0 <= k < |added| ==> added[k] in added;
    OutgoingReplaced(edges, added, id, x);
  }

  /** Replacing the rows `id` starts by `added`, all of which it starts. */
  lemma OutgoingReplaced(edges: seq<Edge>, added: seq<Edge>, id: nat, x: nat)
    requires forall k :: 0 <= k < |added| ==> added[k].item1 == id
    ensures Outgoing(Without(edges, id) + added, id) == added
    ensures x != id ==> Outgoing(Without(edges, id) + added, x) == Outgoing(edges, x)
  {
    var kept := Without(edges, id);
    OutgoingAppend(kept, added, id);
    assert forall k :: 0 <= k < |kept| ==> kept[k] in kept;
    OutgoingNoneFrom(kept, id);
    OutgoingAllFrom(added, id);
    if x != id {
      OutgoingAppend(kept, added, x);
      OutgoingWithout(edges, id, x);
      OutgoingNoneFrom(added, x);
    }
  }

  /** Which subtask rows item `id` starts after saving: exactly those to the
      existing items the description mentions, provided the loop runs to its
      end. */
  lemma ReconciledSubtaskRows(edges: seq<Edge>, items: set<nat>, id: nat, description: string, n: nat)
    requires description != ""
    ensures Edge(id, n, SubtaskKind) in Reconciled(edges, items, id, description)
      <==> Completes(SubtaskRefs(description)) && n in items && MentionedFrom(description, 0, n)
    ensures forall e :: e in Reconciled(edges, items, id, description) && e.item1 == id ==> e.kind == SubtaskKind
  {
    SubtaskRefsMentions(description, n);
  }

  /** An item may list itself as its own subtask; nothing rejects it. */
  lemma SelfReferenceKept(edges: seq<Edge>, items: set<nat>, id: nat, description: string)
    requires description != "" && id in items && MentionedFrom(description, 0, id)
    ensures Edge(id, id, SubtaskKind) in Reconciled(edges, items, id, description)
      <==> Completes(SubtaskRefs(description))
  {
    ReconciledSubtaskRows(edges, items, id, description, id);
  }

  /** A mention of a number too large for SQLite's INTEGER fails the save
      after the delete was committed: the item is left starting no rows, and
      every other item's rows are kept. */
  lemma ReconcileOversizeRef(edges: seq<Edge>, items: set<nat>, id: nat, description: string, n: nat)
    requires description != "" && n > SqliteIntMax && MentionedFrom(description, 0, n)
    ensures Reconciled(edges, items, id, description) == Without(edges, id)
    ensures Outgoing(Reconciled(edges, items, id, description), id) == []
  {
    SubtaskRefsMentions(description, n);
    ReconciledOutgoing(edges, items, id, description, id);
  }

  /** When the first reference has more digits than `int()` accepts,
      `subtask_int` is read before it was ever bound and the save fails
      after the delete was committed, whatever the number's value: the item
      is left starting no rows. */
  lemma ReconcileOverlongFirstRef(edges: seq<Edge>, items: set<nat>, id: nat, d: string, t: string)
    requires IsDigits(d) && |d| > MaxStrDigits && (|t| == 0 || !IsDigit(t[0]))
    ensures Reconciled(edges, items, id, Marker + d + t) == Without(edges, id)
    ensures Outgoing(Reconciled(edges, items, id, Marker + d + t), id) == []
  {
    var s := Marker + d + t;
    RefValueOfMention("", d, t);
    assert "" + Marker + d + t == s;
    assert SubtaskRefs(s)[0] == None;
    ReconciledOutgoing(edges, items, id, s, id);
  }

  /** A reference with more digits than `int()` accepts, after one it did
      accept, is passed over: `subtask_int` still holds the earlier number,
      which was dealt with already, and the save goes through. */
  lemma ReconcileOverlongLaterRef(edges: seq<Edge>, items: set<nat>, id: nat, d1: string, d2: string)
    requires IsDigits(d1) && |d1| <= MaxStrDigits && DigitsValue(d1) <= SqliteIntMax
    requires IsDigits(d2) && |d2| > MaxStrDigits
    ensures Outgoing(Reconciled(edges, items, id, Marker + d1 + " " + Marker + d2), id)
      == if DigitsValue(d1) in items then [Edge(id, DigitsValue(d1), SubtaskKind)] else []
  {
    OverlongLaterRefs(d1, d2);
    ReconcileOneThenNone(edges, items, id, Marker + d1 + " " + Marker + d2, DigitsValue(d1));
  }

  /** Saving a description whose references are one storable number and then
      one `int()` rejects. */
  lemma ReconcileOneThenNone(edges: seq<Edge>, items: set<nat>, id: nat, s: string, v: nat)
    requires SubtaskRefs(s) == [Some(v), None] && v <= SqliteIntMax
    ensures Outgoing(Reconciled(edges, items, id, s), id)
      == if v in items then [Edge(id, v, SubtaskKind)] else []
  {
    OneThenNoneTargets(v, items, id);
    assert Completes(SubtaskRefs(s));
    ReconciledOutgoing(edges, items, id, s, id);
  }

  lemma OneThenNoneTargets(v: nat, items: set<nat>, id: nat)
    ensures EdgesTo(id, Targets([Some(v), None], items))
      == if v in items then [Edge(id, v, SubtaskKind)] else []
  {
    var t := if v in items then [v] else [];
    assert [Some(v), None][..1] == [Some(v)] && [Some(v)][..0] == [];
    assert Targets([Some(v)], items) == t;
    assert [v][..0] == [];
  }

  /** The references of `subtask #d1 subtask #d2` with `d2` too long for
      `int()`. */
  lemma OverlongLaterRefs(d1: string, d2: string)
    requires IsDigits(d1) && |d1| <= MaxStrDigits
    requires IsDigits(d2) && |d2| > MaxStrDigits
    ensures SubtaskRefs(Marker + d1 + " " + Marker + d2) == [Some(DigitsValue(d1)), None]
  {
    var s := Marker + d1 + " " + Marker + d2;
    var m := |Marker|;
    var e := m + |d1|;
    SpacedPieces(Marker, d1, Marker, d2);
    TwoRefs(s, |d1|, |d2|);
  }

  /** A match with `n1` digits, a space and a match with `n2` digits running
      to the end. */
  lemma TwoRefs(s: string, n1: nat, n2: nat)
    requires |s| == 2 * |Marker| + n1 + 1 + n2
    requires MarkerAt(s, 0) && IsDigits(s[|Marker|..|Marker| + n1]) && s[|Marker| + n1] == ' '
    requires MarkerAt(s, |Marker| + n1 + 1) && IsDigits(s[2 * |Marker| + n1 + 1..])
    ensures RefAt(s, 0) && RefAt(s, |Marker| + n1 + 1)
    ensures SubtaskRefs(s) == [RefValue(s, 0), RefValue(s, |Marker| + n1 + 1)]
    ensures RefValue(s, 0) == if n1 <= MaxStrDigits then Some(DigitsValue(s[|Marker|..|Marker| + n1])) else None
    ensures RefValue(s, |Marker| + n1 + 1)
      == if n2 <= MaxStrDigits then Some(DigitsValue(s[2 * |Marker| + n1 + 1..])) else None
  {
    var e := |Marker| + n1;
    assert s[e + 1 + |Marker|..] == s[e + 1 + |Marker|..e + 1 + |Marker| + n2];
    RefValueAt(s, 0, n1);
    RefValueAt(s, e + 1, n2);
    TwoMatches(s, e);
  }

  /** A match ending at `e`, a space and a match running to the end. */
  lemma TwoMatches(s: string, e: nat)
    requires RefAt(s, 0) && RefEnd(s, 0) == e && e < |s| && s[e] == ' '
    requires RefAt(s, e + 1) && RefEnd(s, e + 1) == |s|
    ensures SubtaskRefs(s) == [RefValue(s, 0), RefValue(s, e + 1)]
  {
    MarkerFirstChars(s, e);
    RefsFromMatch(s, 0);
    assert RefsFrom(s, e) == RefsFrom(s, e + 1);
    RefsFromMatch(s, e + 1);
  }

  /** The scan at a match takes it and resumes after it. */
  lemma RefsFromMatch(s: string, k: nat)
    requires RefAt(s, k)
    ensures RefsFrom(s, k) == [RefValue(s, k)] + RefsFrom(s, RefEnd(s, k))
  {
  }

  /** Where the pieces of `a + b + " " + c + d` stand. */
  lemma SpacedPieces(a: string, b: string, c: string, d: string)
    ensures var s := a + b + " " + c + d;
      var e := |a| + |b|;
      s[0..|a|] == a && s[|a|..e] == b && s[e] == ' '
      && s[e + 1..e + 1 + |c|] == c && s[e + 1 + |c|..|s|] == d
  {
  }

  /** Saving the same description twice leaves the table as saving it once. */
  lemma ReconcileIdempotent(edges: seq<Edge>, items: set<nat>, id: nat, description: string)
    ensures Reconciled(Reconciled(edges, items, id, description), items, id, description)
      == Reconciled(edges, items, id, description)
  {
    if description != "" {
      ReconcileKeepsOtherRows(edges, items, id, description);
    }
  }

  /** Saving keeps every relationship between existing items, given that the
      saved item exists. */
  lemma ReconciledValid(edges: seq<Edge>, items: set<nat>, id: nat, description: string)
    requires id in items
    requires forall e :: e in edges ==> e.item1 in items && e.item2 in items
    ensures forall e :: e in Reconciled(edges, items, id, description) ==> e.item1 in items && e.item2 in items
  {
  }
}
