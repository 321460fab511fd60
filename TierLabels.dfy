/** src/hooks/useTierLabels.ts: the label registry over the tiers S, A, B
    and C, whose default labels are the tier ids themselves. */
module TierLabels {
  import opened Wrappers
  import opened LabelRegistry

  /** `DEFAULT_TIER_LABELS` */
  const DefaultTierLabels: seq<Label> :=
    [Label("S", "S"), Label("A", "A"), Label("B", "B"), Label("C", "C")]

  lemma DefaultTierLabelsDistinct()
    ensures DistinctIds(DefaultTierLabels)
  {
  }

  /** The initial `tierLabels`: the saved labels merged onto the defaults.
      Whatever was saved, the result lists S, A, B, C in that order and no
      label is empty. */
  function InitialTierLabels(saved: Option<seq<SavedLabel>>): (r: seq<Label>)
    ensures LabelIds(r) == ["S", "A", "B", "C"]
    ensures forall i :: 0 <= i < |r| ==> r[i].name != ""
    ensures (saved.None? || saved.value == []) ==> r == DefaultTierLabels
  {
    var r := Merged(DefaultTierLabels, saved);
    assert forall i :: 0 <= i < |r| ==> r[i].name != "" by {
      forall i | 0 <= i < |r| ensures r[i].name != "" {
        assert LabelIds(r)[i] == LabelIds(DefaultTierLabels)[i];
      }
    }
    r
  }

  /** `resetToDefaults` brings back the defaults, under which every tier is
      labelled with its own id. */
  lemma ResetTierLabels(tierId: string)
    ensures InitialTierLabels(None) == DefaultTierLabels
    ensures tierId in ["S", "A", "B", "C"] ==> LabelOf(DefaultTierLabels, tierId) == tierId
    ensures tierId !in ["S", "A", "B", "C"] ==> LabelOf(DefaultTierLabels, tierId) == ""
  {
    assert DefaultTierLabels[0].id == "S";
  }

  /** What the save effect writes is what the next start reads back, as long
      as no tier was renamed to the empty string. */
  lemma TierLabelsRoundTrip(labels: seq<Label>)
    requires LabelIds(labels) == ["S", "A", "B", "C"]
    requires forall l :: l in labels ==> l.name != ""
    ensures InitialTierLabels(Some(ToSaved(labels))) == labels
  {
    DefaultTierLabelsDistinct();
    SaveLoadRoundTrip(DefaultTierLabels, labels);
  }
}
