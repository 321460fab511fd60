/** The pattern shared by the label hooks src/hooks/useTierLabels.ts and
    src/hooks/usePositionLabels.ts: a fixed list of default labels, the merge
    of saved labels onto it when the hook starts, rename by id, reset, and
    lookup by id. The hooks replace their list wholesale, so every operation
    is a function from the old list to the new one. */
module LabelRegistry {
  import opened Wrappers

  /** A label shown for one id (`TierLabel`, `PositionLabel`). */
  datatype Label = Label(id: string, name: string)

  /** One entry of the parsed saved list. `name` is `None` when the saved
      value is absent or falsy (`null`, `0`, `false`), where `||` falls back
      to the default as it does for `""`. A truthy value that is not a string
      is not modelled. */
  datatype SavedLabel = SavedLabel(id: string, name: Option<string>)

  /** The ids of a label list, in order. */
  function LabelIds(labels: seq<Label>): (r: seq<string>)
    ensures |r| == |labels|
  {
    seq(|labels|, i requires 0 <= i < |labels| => labels[i].id)
  }

  predicate DistinctIds(labels: seq<Label>)
  {
    forall i, j :: 0 <= i < j < |labels| ==> labels[i].id != labels[j].id
  }

  /** `new Map(saved.map(l => [l.id, l.name])).get(id)`: the name of the LAST
      saved entry with that id, since later entries overwrite earlier ones;
      `None` when no entry has the id. */
  function MapGet(saved: seq<SavedLabel>, id: string): (r: Option<Option<string>>)
    ensures r.None? <==> forall e :: e in saved ==> e.id != id
    ensures r.Some? ==>
      exists i :: 0 <= i < |saved| && saved[i].id == id && saved[i].name == r.value &&
        forall j :: i < j < |saved| ==> saved[j].id != id
  {
    if saved == [] then None
    else
      var last := saved[|saved| - 1];
      if last.id == id then Some(last.name)
      else
        var r := MapGet(saved[..|saved| - 1], id);
        assert forall e :: e in saved ==> e in saved[..|saved| - 1] || e == last;
        r
  }

  /** `value || fallback` for a looked-up saved name: missing names and the
      empty name fall back. */
  function OrDefault(value: Option<Option<string>>, fallback: string): (r: string)
    ensures r == fallback || (value.Some? && value.value == Some(r) && r != "")
    ensures (value.Some? && value.value.Some? && value.value.value != "") ==> r == value.value.value
  {
    match value
    case Some(Some(name)) => if name != "" then name else fallback
    case _ => fallback
  }

  /** The initial `useState` value: with a non-empty saved list, every default
      label takes its saved name, or keeps the default name; otherwise the
      defaults as they are. */
  function Merged(defaults: seq<Label>, saved: Option<seq<SavedLabel>>): (r: seq<Label>)
    ensures LabelIds(r) == LabelIds(defaults)
    ensures (saved.None? || saved.value == []) ==> r == defaults
  {
    if saved.None? || saved.value == [] then defaults
    else
      seq(|defaults|, i requires 0 <= i < |defaults| =>
        Label(defaults[i].id, OrDefault(MapGet(saved.value, defaults[i].id), defaults[i].name)))
  }

  /** `labels.map(l => l.id === id ? { ...l, name: newName } : l)` */
  function Renamed(labels: seq<Label>, id: string, newName: string): (r: seq<Label>)
    ensures LabelIds(r) == LabelIds(labels)
    ensures forall i :: 0 <= i < |labels| && labels[i].id != id ==> r[i] == labels[i]
    ensures forall i :: 0 <= i < |labels| && labels[i].id == id ==> r[i].name == newName
  {
    seq(|labels|, i requires 0 <= i < |labels| =>
      if labels[i].id == id then labels[i].(name := newName) else labels[i])
  }

  /** `labels.find(l => l.id === id)?.name || ""`: the name of the first label
      with that id (`LabelOfIsFirst`), or `""`. */
  function LabelOf(labels: seq<Label>, id: string): (r: string)
    ensures (forall l :: l in labels ==> l.id != id) ==> r == ""
    ensures r != "" ==> Label(id, r) in labels
  {
    if labels == [] then ""
    else if labels[0].id == id then labels[0].name
    else LabelOf(labels[1..], id)
  }

  /** The lookup finds the first label with the id. */
  lemma {:induction false} LabelOfIsFirst(labels: seq<Label>, id: string, i: nat)
    requires i < |labels| && labels[i].id == id
    requires forall j :: 0 <= j < i ==> labels[j].id != id
    ensures LabelOf(labels, id) == labels[i].name
  {
    if i > 0 {
      var t := labels[1..];
      assert t[i - 1] == labels[i];
      forall j | 0 <= j < i - 1 ensures t[j].id != id {
        assert t[j] == labels[j + 1];
      }
      LabelOfIsFirst(t, id, i - 1);
    }
  }

  /** What the save effect writes (`JSON.stringify(labels)`), read back as
      parsed entries. */
  function ToSaved(labels: seq<Label>): (r: seq<SavedLabel>)
    ensures |r| == |labels|
    ensures forall i :: 0 <= i < |labels| ==> r[i] == SavedLabel(labels[i].id, Some(labels[i].name))
  {
    seq(|labels|, i requires 0 <= i < |labels| => SavedLabel(labels[i].id, Some(labels[i].name)))
  }

  // ---------------------------------------------------------------------
  // Properties of the merge

  /** The map yields the last entry's name for its id and looks further
      back for any other id. */
  lemma MapGetSnoc(p: seq<SavedLabel>, y: SavedLabel, id: string)
    ensures MapGet(p + [y], id) == if y.id == id then Some(y.name) else MapGet(p, id)
  {
    assert (p + [y])[..|p|] == p;
  }

  /** An entry with another id, wherever it stands, does not change what
      the map yields for `id`. */
  lemma {:induction false} MapGetSkips(before: seq<SavedLabel>, x: SavedLabel, after: seq<SavedLabel>, id: string)
    requires x.id != id
    ensures MapGet(before + [x] + after, id) == MapGet(before + after, id)
    decreases |after|
  {
    if after == [] {
      assert before + [x] + after == before + [x] && before + after == before;
      MapGetSnoc(before, x, id);
    } else {
      var init := after[..|after| - 1];
      var y := after[|after| - 1];
      assert after == init + [y];
      assert before + [x] + after == (before + [x] + init) + [y];
      assert before + after == (before + init) + [y];
      MapGetSnoc(before + [x] + init, y, id);
      MapGetSnoc(before + init, y, id);
      MapGetSkips(before, x, init, id);
    }
  }

  /** Entries after the last one with `id` do not change what the map
      yields for it. */
  lemma {:induction false} MapGetIgnoresLater(s: seq<SavedLabel>, after: seq<SavedLabel>, id: string)
    requires forall e :: e in after ==> e.id != id
    ensures MapGet(s + after, id) == MapGet(s, id)
    decreases |after|
  {
    if after == [] {
      assert s + after == s;
    } else {
      var init := after[..|after| - 1];
      var y := after[|after| - 1];
      assert after == init + [y] && y in after;
      assert s + after == (s + init) + [y];
      assert forall e :: e in init ==> e in after;
      MapGetSnoc(s + init, y, id);
      MapGetIgnoresLater(s, init, id);
    }
  }

  /** A saved entry whose id is not a default id plays no part in the
      merge, wherever it stands in the saved list. */
  lemma MergeIgnoresUnknown(defaults: seq<Label>, before: seq<SavedLabel>, extra: SavedLabel, after: seq<SavedLabel>)
    requires extra.id !in LabelIds(defaults)
    ensures Merged(defaults, Some(before + [extra] + after)) == Merged(defaults, Some(before + after))
  {
    var r := Merged(defaults, Some(before + [extra] + after));
    forall i | 0 <= i < |defaults|
      ensures r[i] == Merged(defaults, Some(before + after))[i]
    {
      assert LabelIds(defaults)[i] == defaults[i].id;
      MapGetSkips(before, extra, after, defaults[i].id);
      if before + after == [] {
        assert MapGet([], defaults[i].id) == None;
      }
    }
  }

  /** The last saved entry of an id decides that label's name: a non-empty
      name is taken, a missing or empty one gives the default name back, and
      earlier entries of the same id do not matter. */
  lemma LastDuplicateWins(defaults: seq<Label>, before: seq<SavedLabel>, last: SavedLabel, after: seq<SavedLabel>, k: nat)
    requires k < |defaults| && last.id == defaults[k].id
    requires forall e :: e in after ==> e.id != last.id
    ensures var r := Merged(defaults, Some(before + [last] + after));
      r[k].name == if last.name.Some? && last.name.value != "" then last.name.value else defaults[k].name
  {
    MapGetIgnoresLater(before + [last], after, last.id);
    assert MapGet(before + [last], last.id) == Some(last.name);
  }

  /** Reading back what was saved gives the same labels, provided the list
      has the default ids in order, the default ids are distinct and no name
      is empty. */
  lemma SaveLoadRoundTrip(defaults: seq<Label>, labels: seq<Label>)
    requires DistinctIds(defaults)
    requires LabelIds(labels) == LabelIds(defaults)
    requires forall l :: l in labels ==> l.name != ""
    ensures Merged(defaults, Some(ToSaved(labels))) == labels
  {
    var saved := ToSaved(labels);
    if labels != [] {
      var r := Merged(defaults, Some(saved));
      forall i | 0 <= i < |labels|
        ensures r[i] == labels[i]
      {
        assert LabelIds(labels)[i] == labels[i].id && LabelIds(defaults)[i] == defaults[i].id;
        assert MapGet(saved, labels[i].id) == Some(Some(labels[i].name)) by {
          SavedNameOf(defaults, labels, i);
        }
        assert labels[i] in labels;
      }
    }
  }

  /** In the saved form of a list with distinct ids, the entry of the `i`-th
      label is the only one with its id. */
  lemma SavedNameOf(defaults: seq<Label>, labels: seq<Label>, i: nat)
    requires DistinctIds(defaults) && LabelIds(labels) == LabelIds(defaults)
    requires i < |labels|
    ensures MapGet(ToSaved(labels), labels[i].id) == Some(Some(labels[i].name))
  {
    var saved := ToSaved(labels);
    var m := MapGet(saved, labels[i].id);
    assert saved[i].id == labels[i].id;
    var k :| 0 <= k < |saved| && saved[k].id == labels[i].id && saved[k].name == m.value &&
      forall j :: k < j < |saved| ==> saved[j].id != labels[i].id;
    assert LabelIds(labels)[k] == labels[k].id && LabelIds(labels)[i] == labels[i].id;
    assert LabelIds(defaults)[k] == defaults[k].id && LabelIds(defaults)[i] == defaults[i].id;
    assert k == i;
  }

  /** An empty name does not survive a reload: renaming a label to `""`,
      saving and loading again gives that label its default name back. */
  lemma EmptyNameFallsBack(defaults: seq<Label>, labels: seq<Label>, k: nat)
    requires DistinctIds(defaults) && LabelIds(labels) == LabelIds(defaults)
    requires k < |labels|
    ensures Merged(defaults, Some(ToSaved(Renamed(labels, labels[k].id, ""))))[k].name == defaults[k].name
  {
    var renamed := Renamed(labels, labels[k].id, "");
    assert renamed[k].name == "";
    SavedNameOf(defaults, renamed, k);
    assert LabelIds(renamed)[k] == renamed[k].id && LabelIds(labels)[k] == labels[k].id;
    assert LabelIds(defaults)[k] == defaults[k].id;
  }

  // ---------------------------------------------------------------------
  // Rename and lookup

  /** After a rename, looking the id up gives the new name (when the id has a
      label), and looking up any other id gives what it gave before. */
  lemma {:induction false} LabelOfRenamed(labels: seq<Label>, id: string, newName: string, other: string)
    ensures id in LabelIds(labels) ==> LabelOf(Renamed(labels, id, newName), id) == newName
    ensures other != id ==> LabelOf(Renamed(labels, id, newName), other) == LabelOf(labels, other)
  {
    if labels != [] {
      var r := Renamed(labels, id, newName);
      assert Renamed(labels[1..], id, newName) == r[1..];
      assert LabelIds(labels[1..]) == LabelIds(labels)[1..];
      LabelOfRenamed(labels[1..], id, newName, other);
    }
  }

  /** Renaming is idempotent, and a second rename of the same id overrides
      the first. */
  lemma RenameTwice(labels: seq<Label>, id: string, first: string, second: string)
    ensures Renamed(Renamed(labels, id, first), id, second) == Renamed(labels, id, second)
  {
  }
}
