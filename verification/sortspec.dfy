/** Editing a sort spec (app.py, `board_edit` for `lanes_sorted` and
    `lane_edit` for `columns_sorted`; the two handlers are the same code over
    lanes and over columns). The form carries child NAMES separated by commas;
    they are mapped to IDs through a name-to-ID dictionary and stored as the
    comma-joined IDs. An unknown name raises `KeyError`, which the handler
    catches, leaving the stored spec as it was. Showing the edit page maps the
    stored IDs back to names through an ID-to-name dictionary. */
module SortSpec {
  import opened Text
  import opened Wrappers
  import opened Ordering

  /** A dictionary comprehension `{k: v for ...}`: keys are those of the pairs,
      and a later pair with the same key overwrites an earlier one. */
  function DictOf<K(==), V>(pairs: seq<(K, V)>): (m: map<K, V>)
    decreases |pairs|
  {
    if |pairs| == 0 then map[]
    else DictOf(pairs[..|pairs| - 1])[pairs[|pairs| - 1].0 := pairs[|pairs| - 1].1]
  }
  /** No pair after position `i` has the key of pair `i`. */
  predicate LastKey<K(==), V>(pairs: seq<(K, V)>, i: nat)
    requires i < |pairs|
  {
    forall j :: i < j < |pairs| ==> pairs[j].0 != pairs[i].0
  }
  /** The keys of the dictionary are the keys of the pairs. */
  lemma {:induction false} DictOfKeys<K, V>(pairs: seq<(K, V)>, k: K)
    ensures k in DictOf(pairs) <==> exists i :: 0 <= i < |pairs| && pairs[i].0 == k
    decreases |pairs|
  {
    if |pairs| > 0 {
      var n := |pairs| - 1;
      DictOfKeys(pairs[..n], k);
      assert forall i :: 0 <= i < n ==> pairs[..n][i] == pairs[i];
    }
  }
  /** Every value in the dictionary comes from a pair with that key. */
  lemma {:induction false} DictOfValue<K, V>(pairs: seq<(K, V)>, k: K)
    requires k in DictOf(pairs)
    ensures exists i :: 0 <= i < |pairs| && pairs[i].0 == k && DictOf(pairs)[k] == pairs[i].1
    decreases |pairs|
  {
    var n := |pairs| - 1;
    if pairs[n].0 == k {
      assert DictOf(pairs)[k] == pairs[n].1;
    } else {
      DictOfValue(pairs[..n], k);
      var i :| 0 <= i < n && pairs[..n][i].0 == k && DictOf(pairs[..n])[k] == pairs[..n][i].1;
      assert pairs[i].0 == k && DictOf(pairs)[k] == pairs[i].1;
    }
  }
  /** The last pair with a given key decides its value. */
  lemma {:induction false} DictOfLast<K, V>(pairs: seq<(K, V)>, i: nat)
    requires i < |pairs| && LastKey(pairs, i)
    ensures pairs[i].0 in DictOf(pairs) && DictOf(pairs)[pairs[i].0] == pairs[i].1
    decreases |pairs|
  {
    var n := |pairs| - 1;
    if i < n {
      assert LastKey(pairs[..n], i);
      DictOfLast(pairs[..n], i);
    }
  }

  /** Every key the pairs carry is in the dictionary, and no other. */
  lemma DictOfAllKeys<K, V>(pairs: seq<(K, V)>)
    ensures forall k :: k in DictOf(pairs) <==> exists i :: 0 <= i < |pairs| && pairs[i].0 == k
  {
    forall k ensures k in DictOf(pairs) <==> exists i :: 0 <= i < |pairs| && pairs[i].0 == k {
      DictOfKeys(pairs, k);
    }
  }

  /** `{child.name: child.id for child in children}`: its keys are exactly
      the children's names. */
  function NameToId(children: seq<Child>): (m: map<string, nat>)
    ensures forall name :: name in m <==> exists i :: 0 <= i < |children| && children[i].name == name
  {
    var pairs := seq(|children|, k requires 0 <= k < |children| => (children[k].name, children[k].id));
    DictOfAllKeys(pairs);
    assert forall i :: 0 <= i < |children| ==> pairs[i].0 == children[i].name;
    DictOf(pairs)
  }

  /** `{child.id: child.name for child in children}`: its keys are exactly
      the children's IDs. */
  function IdToName(children: seq<Child>): (m: map<nat, string>)
    ensures forall id :: id in m <==> HasId(children, id)
  {
    var pairs := seq(|children|, k requires 0 <= k < |children| => (children[k].id, children[k].name));
    DictOfAllKeys(pairs);
    assert forall i :: 0 <= i < |children| ==> pairs[i].0 == children[i].id;
    DictOf(pairs)
  }

  /** `[m[k] for k in keys]`, evaluated left to right: the first missing key
      raises `KeyError`, reported here as a `Failure` carrying that key. */
  function LookupAll<K(==), V>(m: map<K, V>, keys: seq<K>): (r: Result<seq<V>, K>)
    ensures r.Success? <==> forall k :: 0 <= k < |keys| ==> keys[k] in m
    ensures r.Success? ==> |r.value| == |keys| && forall k :: 0 <= k < |keys| ==> r.value[k] == m[keys[k]]
    ensures r.Failure? ==> r.error !in m && exists i ::
      0 <= i < |keys| && keys[i] == r.error && forall j :: 0 <= j < i ==> keys[j] in m
    decreases |keys|
  {
    if |keys| == 0 then Success([])
    else if keys[0] !in m then Failure(keys[0])
    else
      match LookupAll(m, keys[1..])
      case Success(vs) => Success([m[keys[0]]] + vs)
      case Failure(k) =>
        FirstMissingShift(m, keys, k);
        Failure(k)
  }

  /** A first missing key of the tail, behind a present head, is a first
      missing key of the whole. */
  lemma FirstMissingShift<K, V>(m: map<K, V>, keys: seq<K>, k: K)
    requires |keys| > 0 && keys[0] in m
    requires exists i :: 0 <= i < |keys| - 1 && keys[1..][i] == k && forall j :: 0 <= j < i ==> keys[1..][j] in m
    ensures exists i :: 0 <= i < |keys| && keys[i] == k && forall j :: 0 <= j < i ==> keys[j] in m
  {
    var i :| 0 <= i < |keys| - 1 && keys[1..][i] == k && forall j :: 0 <= j < i ==> keys[1..][j] in m;
    assert keys[i + 1] == k;
    forall j | 0 <= j < i + 1 ensures keys[j] in m {
      if j > 0 {
        assert keys[j] == keys[1..][j - 1];
      }
    }
  }

  /** The stripped names a submitted form lists, in order. */
  function FormNames(form: string): (names: seq<string>)
    ensures |names| == |Split(form, ',')| >= 1
  {
    var pieces := Split(form, ',');
    seq(|pieces|, k requires 0 <= k < |pieces| => Strip(pieces[k]))
  }

  /** `",".join([str(id) for id in ids])`: empty, and so read as no spec,
      exactly when there are no IDs. */
  function IdsToSpec(ids: seq<nat>): (spec: string)
    ensures spec == "" <==> ids == []
  {
    var strs := seq(|ids|, k requires 0 <= k < |ids| => NatToString(ids[k]));
    assert |ids| > 0 ==> |strs[0]| > 0;
    Join(strs, ',')
  }

  /** The stored sort spec after the sort form is submitted with `form`, the
      spec being `current` before. A spec the handler writes is well formed
      and names only existing children; an unknown name changes nothing. */
  function SubmitSortSpec(children: seq<Child>, form: string, current: string): (stored: string)
    ensures WellFormedSpec(current) ==> WellFormedSpec(stored)
    ensures stored == current || (stored != "" && WellFormedSpec(stored)
      && forall k :: 0 <= k < |SpecIds(stored)| ==> HasId(children, SpecIds(stored)[k]))
  {
    match LookupAll(NameToId(children), FormNames(form))
    case Failure(_) => current
    case Success(ids) =>
      SpecOfIds(ids);
      forall k | 0 <= k < |ids| ensures HasId(children, ids[k]) {
        NameToIdValue(children, FormNames(form)[k]);
      }
      IdsToSpec(ids)
  }

  /** Every ID the name-to-ID dictionary yields belongs to a child of that name. */
  lemma NameToIdValue(children: seq<Child>, name: string)
    requires name in NameToId(children)
    ensures NamedChild(children, NameToId(children)[name], name)
    ensures HasId(children, NameToId(children)[name])
  {
    var pairs := seq(|children|, k requires 0 <= k < |children| => (children[k].name, children[k].id));
    DictOfValue(pairs, name);
    var i :| 0 <= i < |pairs| && pairs[i].0 == name && NameToId(children)[name] == pairs[i].1;
    assert children[i].name == name;
  }

  /** The ID-to-name dictionary knows exactly the IDs of the children, and maps
      each to the name of a child with that ID. */
  lemma IdToNameEntry(children: seq<Child>, id: nat)
    ensures id in IdToName(children) <==> HasId(children, id)
    ensures id in IdToName(children) ==> NamedChild(children, id, IdToName(children)[id])
  {
    var pairs := seq(|children|, k requires 0 <= k < |children| => (children[k].id, children[k].name));
    DictOfKeys(pairs, id);
    if HasId(children, id) {
      var i :| 0 <= i < |children| && children[i].id == id;
      assert pairs[i].0 == id;
    }
    if id in IdToName(children) {
      DictOfValue(pairs, id);
      var i :| 0 <= i < |pairs| && pairs[i].0 == id && IdToName(children)[id] == pairs[i].1;
      assert children[i].id == id;
    }
  }

  /** The stored form of a non-empty ID list is well formed and parses back. */
  lemma SpecOfIds(ids: seq<nat>)
    requires |ids| >= 1
    ensures IdsToSpec(ids) != "" && WellFormedSpec(IdsToSpec(ids))
    ensures SpecIds(IdsToSpec(ids)) == ids
  {
    var strs := seq(|ids|, k requires 0 <= k < |ids| => NatToString(ids[k]));
    assert forall k :: 0 <= k < |strs| ==> IsDigits(strs[k]);
    assert NoSep(strs, ',') by {
      forall k | 0 <= k < |strs| ensures ',' !in strs[k] {
        assert IsDigits(strs[k]);
      }
    }
    SplitJoin(strs, ',');
    assert Split(IdsToSpec(ids), ',') == strs;
    assert |strs[0]| > 0;
    assert Split("", ',') == [""];
    forall k | 0 <= k < |ids| ensures SpecIds(IdsToSpec(ids))[k] == ids[k] {
      DigitsValueOfNatToString(ids[k]);
    }
  }

  /** When every submitted name is known, the stored spec lists their IDs, in
      the submitted order. */
  lemma SubmitKnownNames(children: seq<Child>, form: string, current: string)
    requires forall k :: 0 <= k < |FormNames(form)| ==> FormNames(form)[k] in NameToId(children)
    ensures var stored := SubmitSortSpec(children, form, current);
      stored != "" && WellFormedSpec(stored)
      && SpecIds(stored) == seq(|FormNames(form)|, k requires 0 <= k < |FormNames(form)| =>
           NameToId(children)[FormNames(form)[k]])
  {
    var names := FormNames(form);
    var r := LookupAll(NameToId(children), names);
    SpecOfIds(r.value);
  }

  /** A single unknown name leaves the stored spec untouched. */
  lemma SubmitUnknownName(children: seq<Child>, form: string, current: string, k: nat)
    requires k < |FormNames(form)| && FormNames(form)[k] !in NameToId(children)
    ensures SubmitSortSpec(children, form, current) == current
  {
  }

  /** Some child has this ID and this name. */
  predicate NamedChild(children: seq<Child>, id: nat, name: string)
  {
    exists i :: 0 <= i < |children| && children[i].id == id && children[i].name == name
  }

  /** Submitting an empty form cannot clear the spec: the one empty name it
      yields is unknown unless some child is named "". */
  lemma SubmitEmptyForm(children: seq<Child>, current: string)
    requires forall k :: 0 <= k < |children| ==> children[k].name != ""
    ensures SubmitSortSpec(children, "", current) == current
  {
    assert FormNames("")[0] == "";
    if "" in NameToId(children) {
      NameToIdValue(children, "");
    }
  }

  /** The names the edit page shows for a stored spec: `None` for an empty
      spec, otherwise the name of each listed ID; an ID that names no child
      raises `KeyError` (a `Failure` carrying that ID). */
  function DecodeSortSpec(children: seq<Child>, stored: string): (r: Result<Option<seq<string>>, nat>)
    requires WellFormedSpec(stored)
    ensures stored == "" ==> r == Success(None)
    ensures r.Failure? <==> stored != "" && exists k :: 0 <= k < |SpecIds(stored)| && !HasId(children, SpecIds(stored)[k])
    ensures r.Success? && stored != "" ==> r.value.Some? && |r.value.value| == |SpecIds(stored)|
    ensures r.Success? && stored != "" ==>
      forall k :: 0 <= k < |SpecIds(stored)| ==> NamedChild(children, SpecIds(stored)[k], r.value.value[k])
  {
    if stored == "" then Success(None)
    else
      var ids := SpecIds(stored);
      var m := IdToName(children);
      forall k | 0 <= k < |ids| ensures ids[k] in m <==> HasId(children, ids[k]) {
        IdToNameEntry(children, ids[k]);
      }
      match LookupAll(m, ids)
      case Failure(id) => Failure(id)
      case Success(names) =>
        forall k | 0 <= k < |ids| ensures NamedChild(children, ids[k], names[k]) {
          IdToNameEntry(children, ids[k]);
        }
        Success(Some(names))
  }

  /** With distinct child IDs, an ID names at most one child. */
  lemma UniqueNamedChild(children: seq<Child>, id: nat, a: string, b: string)
    requires UniqueIds(children)
    requires NamedChild(children, id, a) && NamedChild(children, id, b)
    ensures a == b
  {
    var i :| 0 <= i < |children| && children[i].id == id && children[i].name == a;
    var j :| 0 <= j < |children| && children[j].id == id && children[j].name == b;
    assert i == j;
  }

  /** Round trip: with distinct child IDs, a spec stored from a form of known
      names is shown on the edit page as exactly those (stripped) names. */
  lemma SubmitThenDecode(children: seq<Child>, form: string, current: string)
    requires UniqueIds(children) && WellFormedSpec(current)
    requires forall k :: 0 <= k < |FormNames(form)| ==> FormNames(form)[k] in NameToId(children)
    ensures DecodeSortSpec(children, SubmitSortSpec(children, form, current)) == Success(Some(FormNames(form)))
  {
    var names := FormNames(form);
    var stored := SubmitSortSpec(children, form, current);
    SubmitKnownNames(children, form, current);
    var ids := SpecIds(stored);
    forall k | 0 <= k < |ids| ensures HasId(children, ids[k]) {
      NameToIdValue(children, names[k]);
    }
    assert |ids| == |names|;
    var r := DecodeSortSpec(children, stored);
    assert r.Success?;
    var shown := r.value.value;
    forall k | 0 <= k < |ids| ensures shown[k] == names[k] {
      NameToIdValue(children, names[k]);
      UniqueNamedChild(children, ids[k], shown[k], names[k]);
    }
    assert shown == names;
  }

  /** With distinct child IDs, gathering IDs that all name a child yields, for
      each ID, the child carrying it. */
  lemma {:induction false} GatherKnownUnique(children: seq<Child>, ids: seq<nat>)
    requires UniqueIds(children)
    requires forall k :: 0 <= k < |ids| ==> HasId(children, ids[k])
    ensures |Gather(children, ids)| == |ids|
    ensures forall k :: 0 <= k < |ids| ==> NamedChild(children, ids[k], Gather(children, ids)[k].name)
    decreases |ids|
  {
    if |ids| > 0 {
      var init := ids[..|ids| - 1];
      var last := ids[|ids| - 1];
      assert ids == init + [last];
      GatherKnownUnique(children, init);
      GatherKnownStep(children, init, last);
    }
  }

  /** The step of `GatherKnownUnique`: one more known ID at the end. */
  lemma GatherKnownStep(children: seq<Child>, init: seq<nat>, last: nat)
    requires UniqueIds(children) && HasId(children, last)
    requires |Gather(children, init)| == |init|
    requires forall k :: 0 <= k < |init| ==> NamedChild(children, init[k], Gather(children, init)[k].name)
    ensures var ids := init + [last];
      |Gather(children, ids)| == |ids|
      && forall k :: 0 <= k < |ids| ==> NamedChild(children, ids[k], Gather(children, ids)[k].name)
  {
    var ids := init + [last];
    assert ids[..|ids| - 1] == init;
    var i :| 0 <= i < |children| && children[i].id == last;
    SelectUnique(children, i);
    var g0 := Gather(children, init);
    var g := g0 + [children[i]];
    assert Gather(children, ids) == g;
    assert NamedChild(children, last, children[i].name);
    forall k | 0 <= k < |ids| ensures NamedChild(children, ids[k], g[k].name) {
      if k < |init| {
        assert g[k] == g0[k] && ids[k] == init[k];
      }
    }
  }

  /** End to end: with distinct child IDs, after a form of known names is
      submitted the board or lane shows exactly the named children, in the
      submitted order, and nothing else. */
  lemma SubmitThenReorder(children: seq<Child>, form: string, current: string)
    requires UniqueIds(children) && WellFormedSpec(current)
    requires forall k :: 0 <= k < |FormNames(form)| ==> FormNames(form)[k] in NameToId(children)
    ensures var shown := Reordered(children, SubmitSortSpec(children, form, current));
      |shown| == |FormNames(form)| && forall k :: 0 <= k < |shown| ==> shown[k].name == FormNames(form)[k]
  {
    var names := FormNames(form);
    var stored := SubmitSortSpec(children, form, current);
    SubmitKnownNames(children, form, current);
    var ids := SpecIds(stored);
    forall k | 0 <= k < |ids| ensures HasId(children, ids[k]) {
      NameToIdValue(children, names[k]);
    }
    GatherKnownUnique(children, ids);
    var shown := Gather(children, ids);
    forall k | 0 <= k < |ids| ensures shown[k].name == names[k] {
      NameToIdValue(children, names[k]);
      UniqueNamedChild(children, ids[k], shown[k].name, names[k]);
    }
  }
}
