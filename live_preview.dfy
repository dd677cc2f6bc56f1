/** Live Preview mode: the links rendered in the preview and the links found
    in the markdown source share one run of labels, preview links first. */
module LivePreview {
  import opened Text
  import opened Labelling
  import HintGenerator

  /** The two lists `init` returns (the popover elements are left out). */
  datatype Remapped<P, S> = Remapped(preview: seq<Labelled<P>>, source: seq<Labelled<S>>)

  /** Lines 35-46 of `init`: label `previewHints.length + sourceHints.length`
      hints in one run; preview hint `i` takes label `i`, source hint `j`
      takes label `j + previewHints.length`; hints whose label is missing are
      dropped. */
  function Remap<P, S>(previewHints: seq<P>, sourceHints: seq<S>, letters: string): Remapped<P, S>
  {
    RemapWith(previewHints, sourceHints, HintGenerator.HintLabels(letters, |previewHints| + |sourceHints|, {}))
  }

  /** The remapping for a given run of labels. */
  function RemapWith<P, S>(previewHints: seq<P>, sourceHints: seq<S>, labels: seq<string>): Remapped<P, S>
  {
    Remapped(AssignLabels(previewHints, labels), AssignLabels(sourceHints, Drop(labels, |previewHints|)))
  }

  /** The preview hints carry the front of `labels` and the source hints the
      labels after the first `|previewHints|`, each list in its own order,
      as many as there are labels for. */
  ghost predicate LaidOut<P, S>(r: Remapped<P, S>, previewHints: seq<P>, sourceHints: seq<S>, labels: seq<string>)
  {
    && |r.preview| == Min(|previewHints|, |labels|)
    && |r.source| == Min(|sourceHints|, |labels| - Min(|previewHints|, |labels|))
    && (forall i :: 0 <= i < |r.preview| ==> r.preview[i] == Labelled(labels[i], previewHints[i]))
    && (forall j :: 0 <= j < |r.source| ==> r.source[j] == Labelled(labels[|previewHints| + j], sourceHints[j]))
  }

  /** Preview hints take the front of the label run and source hints the
      rest, each list keeping its order; what does not fit is dropped. */
  lemma RemapLayout<P, S>(previewHints: seq<P>, sourceHints: seq<S>, letters: string)
    ensures LaidOut(Remap(previewHints, sourceHints, letters), previewHints, sourceHints,
                    HintGenerator.HintLabels(letters, |previewHints| + |sourceHints|, {}))
  {
    HintGenerator.LabelsNonEmpty(letters, |previewHints| + |sourceHints|, {});
    LayoutWith(previewHints, sourceHints, HintGenerator.HintLabels(letters, |previewHints| + |sourceHints|, {}));
  }

  lemma LayoutWith<P, S>(previewHints: seq<P>, sourceHints: seq<S>, labels: seq<string>)
    requires forall i :: 0 <= i < |labels| ==> labels[i] != ""
    ensures LaidOut(RemapWith(previewHints, sourceHints, labels), previewHints, sourceHints, labels)
  {
    AssignAll(previewHints, labels);
    AssignAll(sourceHints, Drop(labels, |previewHints|));
  }

  /** When labels run out, source hints lose theirs first: a preview hint
      without a label means no source hint has one. */
  lemma SourceLosesFirst<P, S>(previewHints: seq<P>, sourceHints: seq<S>, letters: string)
    ensures var r := Remap(previewHints, sourceHints, letters);
            |r.preview| < |previewHints| ==> r.source == []
  {
    RemapLayout(previewHints, sourceHints, letters);
  }

  /** No two hints in either list, and no preview hint and source hint,
      carry the same label. */
  ghost predicate NoSharedLabels<P, S>(r: Remapped<P, S>)
  {
    && (forall i, j :: 0 <= i < |r.preview| && 0 <= j < |r.source| ==> r.preview[i].letter != r.source[j].letter)
    && (forall i, j :: 0 <= i < j < |r.preview| ==> r.preview[i].letter != r.preview[j].letter)
    && (forall i, j :: 0 <= i < j < |r.source| ==> r.source[i].letter != r.source[j].letter)
  }

  /** With an alphabet of distinct letters, no two hints in either list, and
      no preview hint and source hint, share a label. */
  lemma LabelsUnique<P, S>(previewHints: seq<P>, sourceHints: seq<S>, letters: string)
    requires Distinct(LowerAll(letters))
    ensures NoSharedLabels(Remap(previewHints, sourceHints, letters))
  {
    UsableLabels(letters, |previewHints| + |sourceHints|);
    UniqueWith(previewHints, sourceHints, HintGenerator.HintLabels(letters, |previewHints| + |sourceHints|, {}));
  }

  /** From an alphabet of distinct letters come distinct, non-empty labels. */
  lemma UsableLabels(letters: string, total: nat)
    requires Distinct(LowerAll(letters))
    ensures Distinct(HintGenerator.HintLabels(letters, total, {}))
    ensures forall i :: 0 <= i < |HintGenerator.HintLabels(letters, total, {})| ==>
              HintGenerator.HintLabels(letters, total, {})[i] != ""
  {
    HintGenerator.FilteredDistinct(letters, {});
    HintGenerator.LabelsDistinct(letters, total, {});
    HintGenerator.LabelsNonEmpty(letters, total, {});
  }

  /** Two lists labelled from one run of distinct labels, the first from its
      front and the second after it, share no label. */
  lemma UniqueWith<P, S>(previewHints: seq<P>, sourceHints: seq<S>, labels: seq<string>)
    requires Distinct(labels) && forall i :: 0 <= i < |labels| ==> labels[i] != ""
    ensures NoSharedLabels(RemapWith(previewHints, sourceHints, labels))
  {
    LayoutWith(previewHints, sourceHints, labels);
  }

  /** With A >= 2 distinct letters and at most A * A hints in all, every
      preview hint and every source hint is labelled. */
  lemma AllLabelled<P, S>(previewHints: seq<P>, sourceHints: seq<S>, letters: string)
    requires Distinct(LowerAll(letters)) && |letters| >= 2
    requires |previewHints| + |sourceHints| <= |letters| * |letters|
    ensures var r := Remap(previewHints, sourceHints, letters);
            |r.preview| == |previewHints| && |r.source| == |sourceHints|
  {
    var total := |previewHints| + |sourceHints|;
    HintGenerator.FilteredDistinct(letters, {});
    assert HintGenerator.FilteredAlphabet(letters, {}) == LowerAll(letters);
    HintGenerator.LabelCount(letters, total, {});
    RemapLayout(previewHints, sourceHints, letters);
  }
}
