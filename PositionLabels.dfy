/** src/hooks/usePositionLabels.ts: the label registry over the five
    positions of src/constants/positions.ts. */
module PositionLabels {
  import opened Wrappers
  import opened LabelRegistry

  /** The `Position` enum values, in `POSITIONS` order. */
  const PositionIds: seq<string> := ["attacker", "speedster", "all-rounder", "defender", "supporter"]

  /** `POSITIONS` */
  const Positions: seq<Label> := [
    Label("attacker", "上キャリー"),
    Label("speedster", "上学習"),
    Label("all-rounder", "中央エリア"),
    Label("defender", "下キャリー"),
    Label("supporter", "下学習")
  ]

  lemma PositionsDistinct()
    ensures DistinctIds(Positions)
    ensures LabelIds(Positions) == PositionIds
  {
  }

  /** The initial `positionLabels`: the saved labels merged onto `POSITIONS`.
      Whatever was saved, the result lists the five positions in order and
      no label is empty. */
  function InitialPositionLabels(saved: Option<seq<SavedLabel>>): (r: seq<Label>)
    ensures LabelIds(r) == PositionIds
    ensures forall i :: 0 <= i < |r| ==> r[i].name != ""
    ensures (saved.None? || saved.value == []) ==> r == Positions
  {
    var r := Merged(Positions, saved);
    assert LabelIds(Positions) == PositionIds;
    assert forall i :: 0 <= i < |r| ==> r[i].name != "" by {
      forall i | 0 <= i < |r| ensures r[i].name != "" {
        assert LabelIds(r)[i] == LabelIds(Positions)[i];
      }
    }
    r
  }

  /** `resetToDefaults` brings back `POSITIONS`, under which every position
      shows its default name. */
  lemma ResetPositionLabels(k: nat)
    requires k < |Positions|
    ensures InitialPositionLabels(None) == Positions
    ensures LabelOf(Positions, PositionIds[k]) == Positions[k].name
  {
    PositionsDistinct();
    assert LabelIds(Positions)[k] == Positions[k].id;
    LabelOfIsFirst(Positions, PositionIds[k], k);
  }

  /** What the save effect writes is what the next start reads back, as long
      as no position was renamed to the empty string. */
  lemma PositionLabelsRoundTrip(labels: seq<Label>)
    requires LabelIds(labels) == PositionIds
    requires forall l :: l in labels ==> l.name != ""
    ensures InitialPositionLabels(Some(ToSaved(labels))) == labels
  {
    PositionsDistinct();
    SaveLoadRoundTrip(Positions, labels);
  }
}
