/** `list_reorder` (app.py): lanes of a board and columns of a lane are shown
    in the order of a stored sort spec, a comma-separated list of child IDs.
    The spec is also a visibility filter: children it does not list are not
    shown, and IDs that no longer name a child show nothing. */
module Ordering {
  import opened Text

  /** A lane or a column, as far as ordering and sort specs are concerned. */
  datatype Child = Child(id: nat, name: string)

  /** A sort spec `int()` accepts in every piece: empty (the stored `None` or
      `""`), or comma-separated runs of digits. */
  predicate WellFormedSpec(spec: string)
  {
    spec == "" || forall k :: 0 <= k < |Split(spec, ',')| ==> IsDigits(Split(spec, ',')[k])
  }

  /** `int(piece)` for every piece of a split spec. */
  function ParseIds(pieces: seq<string>): (ids: seq<nat>)
    requires forall k :: 0 <= k < |pieces| ==> IsDigits(pieces[k])
    ensures |ids| == |pieces|
  {
    seq(|pieces|, k requires 0 <= k < |pieces| => assert IsDigits(pieces[k]); DigitsValue(pieces[k]))
  }

  /** The IDs a non-empty spec lists, in order, repetitions kept. */
  function SpecIds(spec: string): (ids: seq<nat>)
    requires spec != "" && WellFormedSpec(spec)
    ensures |ids| == |Split(spec, ',')|
  {
    ParseIds(Split(spec, ','))
  }

  /** The children whose ID is `id`, in their original order. */
  function Select(children: seq<Child>, id: nat): seq<Child>
    decreases |children|
  {
    if |children| == 0 then []
    else
      var last := children[|children| - 1];
      Select(children[..|children| - 1], id) + (if last.id == id then [last] else [])
  }

  /** For each ID in turn, the children that carry it. */
  function Gather(children: seq<Child>, ids: seq<nat>): seq<Child>
    decreases |ids|
  {
    if |ids| == 0 then []
    else Gather(children, ids[..|ids| - 1]) + Select(children, ids[|ids| - 1])
  }

  /** What `list_reorder(children, spec)` yields: the children as they are
      when there is no spec, and never anything but children. */
  function Reordered(children: seq<Child>, spec: string): (r: seq<Child>)
    requires WellFormedSpec(spec)
    ensures spec == "" ==> r == children
    ensures forall c :: c in r ==> c in children
  {
    if spec == "" then children
    else
      GatherSubset(children, SpecIds(spec));
      Gather(children, SpecIds(spec))
  }

  /** `list_reorder`: with no spec every child in its own order; otherwise, for
      each listed ID in order, every child with that ID. */
  method ListReorder(children: seq<Child>, spec: string) returns (out: seq<Child>)
    requires WellFormedSpec(spec)
    ensures out == Reordered(children, spec)
    ensures spec == "" ==> out == children
  {
    out := [];
    if spec != "" {
      var pieces := Split(spec, ',');
      var ids := ParseIds(pieces);
      for i := 0 to |pieces|
        invariant out == Gather(children, ids[..i])
      {
        var id := DigitsValue(pieces[i]);
        for j := 0 to |children|
          invariant out == Gather(children, ids[..i]) + Select(children[..j], id)
        {
          SelectPrefixStep(children, j, id);
          if children[j].id == id {
            out := out + [children[j]];
          }
        }
        GatherPrefixStep(children, ids, i);
        assert children[..|children|] == children;
      }
      assert ids[..|pieces|] == ids;
    } else {
      for j := 0 to |children|
        invariant out == children[..j]
      {
        out := out + [children[j]];
      }
    }
  }

  /** `Select` over one more child of a prefix. */
  lemma SelectPrefixStep(children: seq<Child>, j: nat, id: nat)
    requires j < |children|
    ensures Select(children[..j + 1], id)
      == Select(children[..j], id) + (if children[j].id == id then [children[j]] else [])
  {
    assert children[..j + 1][..j] == children[..j];
  }

  /** `Gather` over one more ID of a prefix. */
  lemma GatherPrefixStep(children: seq<Child>, ids: seq<nat>, i: nat)
    requires i < |ids|
    ensures Gather(children, ids[..i + 1]) == Gather(children, ids[..i]) + Select(children, ids[i])
  {
    assert ids[..i + 1][..i] == ids[..i];
  }

  /** A child occurs in `Select(children, id)` as often as in `children` if it
      carries `id`, and not at all otherwise. */
  lemma {:induction false} SelectCount(children: seq<Child>, id: nat, c: Child)
    ensures multiset(Select(children, id))[c] == if c.id == id then multiset(children)[c] else 0
    decreases |children|
  {
    if |children| > 0 {
      var init := children[..|children| - 1];
      SelectCount(init, id, c);
      assert children == init + [children[|children| - 1]];
    }
  }

  /** Multiplicity: each child appears once per time the spec lists its ID. So
      unlisted children are omitted and a repeated ID repeats its children. */
  lemma {:induction false} GatherCount(children: seq<Child>, ids: seq<nat>, c: Child)
    ensures multiset(Gather(children, ids))[c] == multiset(children)[c] * multiset(ids)[c.id]
    decreases |ids|
  {
    if |ids| > 0 {
      var init := ids[..|ids| - 1];
      var last := ids[|ids| - 1];
      assert ids == init + [last];
      GatherCount(children, init, c);
      GatherStep(children, init, last, c);
    }
  }

  /** The counting step of `GatherCount`: one more ID at the end. */
  lemma GatherStep(children: seq<Child>, init: seq<nat>, last: nat, c: Child)
    requires multiset(Gather(children, init))[c] == multiset(children)[c] * multiset(init)[c.id]
    ensures var ids := init + [last];
      multiset(Gather(children, ids))[c] == multiset(children)[c] * multiset(ids)[c.id]
  {
    var ids := init + [last];
    assert ids[..|ids| - 1] == init;
    var g := Gather(children, init);
    var sel := Select(children, last);
    assert Gather(children, ids) == g + sel;
    SelectCount(children, last, c);
    CountAppend(g, sel, c);
    IdCountAppend(init, last, c.id);
    var mi: multiset<nat> := multiset(init);
    var mids: multiset<nat> := multiset(ids);
    CountStep(multiset(g)[c], multiset(sel)[c], multiset(children)[c], mi[c.id], mids[c.id], c.id == last);
  }

  /** The count after one more ID: `m * n` plus `m` more when the ID is the
      child's own. */
  lemma CountStep(g: nat, sel: nat, m: nat, n: nat, total: nat, isLast: bool)
    requires g == m * n
    requires sel == (if isLast then m else 0) && total == (if isLast then n + 1 else n)
    ensures g + sel == m * total
  {
    if isLast {
      MulSucc(m, n);
    }
  }

  /** Occurrences add up over a concatenation. */
  lemma CountAppend(a: seq<Child>, b: seq<Child>, c: Child)
    ensures multiset(a + b)[c] == multiset(a)[c] + multiset(b)[c]
  {
    assert multiset(a + b) == multiset(a) + multiset(b);
  }

  /** Appending an ID adds one occurrence of it. */
  lemma IdCountAppend(init: seq<nat>, last: nat, x: nat)
    ensures var ms: multiset<nat> := multiset(init + [last]); var mi: multiset<nat> := multiset(init);
      ms[x] == mi[x] + (if x == last then 1 else 0)
  {
    assert multiset(init + [last]) == multiset(init) + multiset{last};
  }

  lemma MulSucc(m: int, n: int)
    ensures m * (n + 1) == m * n + m
  {
  }

  /** With a non-empty spec, a child is shown iff it exists and its ID is listed. */
  lemma ReorderedMembership(children: seq<Child>, spec: string, c: Child)
    requires spec != "" && WellFormedSpec(spec)
    ensures c in Reordered(children, spec) <==> c in children && c.id in SpecIds(spec)
  {
    var ids := SpecIds(spec);
    GatherCount(children, ids, c);
    var idms: multiset<nat> := multiset(ids);
    MulPositive(multiset(children)[c], idms[c.id]);
  }

  /** Gathering yields only children. */
  lemma GatherSubset(children: seq<Child>, ids: seq<nat>)
    ensures forall c :: c in Gather(children, ids) ==> c in children
  {
    forall c | c in Gather(children, ids) ensures c in children {
      GatherCount(children, ids, c);
      var idms: multiset<nat> := multiset(ids);
      MulPositive(multiset(children)[c], idms[c.id]);
    }
  }

  lemma MulPositive(m: nat, n: nat)
    ensures m * n > 0 <==> m > 0 && n > 0
  {
    if m > 0 && n > 0 {
      assert m * n >= n;
    }
  }

  /** Some child carries `id`. */
  predicate HasId(children: seq<Child>, id: nat)
  {
    exists k :: 0 <= k < |children| && children[k].id == id
  }

  /** An ID no child carries selects nothing. */
  lemma {:induction false} SelectStale(children: seq<Child>, id: nat)
    requires !HasId(children, id)
    ensures Select(children, id) == []
    decreases |children|
  {
    if |children| > 0 {
      var init := children[..|children| - 1];
      assert forall i :: 0 <= i < |init| ==> init[i] == children[i];
      SelectStale(init, id);
    }
  }

  /** The IDs of `ids` that name some child, in order. */
  function KnownIds(children: seq<Child>, ids: seq<nat>): (r: seq<nat>)
    ensures forall id :: id in r <==> id in ids && HasId(children, id)
    decreases |ids|
  {
    if |ids| == 0 then []
    else
      var init := ids[..|ids| - 1];
      var last := ids[|ids| - 1];
      assert ids == init + [last];
      KnownIds(children, init) + (if HasId(children, last) then [last] else [])
  }

  /** Stale IDs are skipped silently: the result is the same as if the spec
      listed only the IDs that still name a child. */
  lemma {:induction false} StaleIdsSkipped(children: seq<Child>, ids: seq<nat>)
    ensures Gather(children, ids) == Gather(children, KnownIds(children, ids))
    decreases |ids|
  {
    if |ids| > 0 {
      var init := ids[..|ids| - 1];
      var last := ids[|ids| - 1];
      StaleIdsSkipped(children, init);
      var known := KnownIds(children, init);
      if HasId(children, last) {
        var k := known + [last];
        assert KnownIds(children, ids) == k;
        assert k[..|k| - 1] == known;
      } else {
        assert KnownIds(children, ids) == known;
        SelectStale(children, last);
      }
    }
  }

  /** Children carry distinct IDs (they are database rows). */
  predicate UniqueIds(children: seq<Child>)
  {
    forall i, j :: 0 <= i < j < |children| ==> children[i].id != children[j].id
  }

  /** With distinct IDs, an ID selects exactly the one child that carries it. */
  lemma {:induction false} SelectUnique(children: seq<Child>, k: nat)
    requires UniqueIds(children) && k < |children|
    ensures Select(children, children[k].id) == [children[k]]
    decreases |children|
  {
    var init := children[..|children| - 1];
    var last := children[|children| - 1];
    var id := children[k].id;
    if k == |children| - 1 {
      assert forall i :: 0 <= i < |init| ==> init[i] == children[i];
      SelectStale(init, id);
    } else {
      SelectUnique(init, k);
      assert children[k].id != last.id;
    }
  }
}
