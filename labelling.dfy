/** Attaching hint labels to a list of items: the `.map((x, i) => ({ letter:
    labels[i], ...x })).filter(x => x.letter)` idiom shared by the link, regex
    and live-preview code. A missing label (`labels[i]` past the end is
    `undefined`) and an empty one are both falsy and drop the item. */
module Labelling {
  import opened Text

  /** An item together with the hint label shown for it. */
  datatype Labelled<T> = Labelled(letter: string, item: T)

  /** Slot `i` holds a label that the filter keeps. */
  predicate HasLabel(labels: seq<string>, i: nat)
  {
    i < |labels| && labels[i] != ""
  }

  /** Item `i` paired with `labels[i]`, in order, dropping the items whose slot
      has no label. */
  function AssignLabels<T>(items: seq<T>, labels: seq<string>): (r: seq<Labelled<T>>)
    ensures |r| <= |items|
    ensures forall k :: 0 <= k < |r| ==> r[k].letter != ""
  {
    if items == [] then []
    else
      var i := |items| - 1;
      AssignLabels(items[..i], labels) + (if HasLabel(labels, i) then [Labelled(labels[i], items[i])] else [])
  }

  /** The positions below `n` whose slot holds a label, in increasing order. */
  function Slots(labels: seq<string>, n: nat): (pos: seq<nat>)
    ensures forall k :: 0 <= k < |pos| ==> pos[k] < n && HasLabel(labels, pos[k])
    ensures forall k, m :: 0 <= k < m < |pos| ==> pos[k] < pos[m]
    ensures forall i :: 0 <= i < n && HasLabel(labels, i) ==> i in pos
  {
    if n == 0 then []
    else Slots(labels, n - 1) + (if HasLabel(labels, n - 1) then [n - 1] else [])
  }

  /** The kept items keep their relative order: the result is, slot by slot in
      increasing order, the item at a labelled position with its label. */
  lemma {:induction false} AssignBySlots<T>(items: seq<T>, labels: seq<string>)
    ensures var pos := Slots(labels, |items|);
            var r := AssignLabels(items, labels);
            && |r| == |pos|
            && forall k :: 0 <= k < |r| ==> r[k] == Labelled(labels[pos[k]], items[pos[k]])
  {
    if items != [] {
      var i := |items| - 1;
      var front := items[..i];
      AssignBySlots(front, labels);
      var pos0 := Slots(labels, i);
      var r0 := AssignLabels(front, labels);
      var tail := if HasLabel(labels, i) then [Labelled(labels[i], items[i])] else [];
      var pos := Slots(labels, |items|);
      var r := AssignLabels(items, labels);
      assert r == r0 + tail;
      assert pos == pos0 + (if HasLabel(labels, i) then [i] else []);
      forall k | 0 <= k < |r| ensures r[k] == Labelled(labels[pos[k]], items[pos[k]]) {
        if k < |r0| {
          assert r[k] == r0[k] && pos[k] == pos0[k];
          assert front[pos0[k]] == items[pos0[k]];
        }
      }
    }
  }

  /** With no empty label, the result is the first min(|items|, |labels|) items,
      item `i` carrying `labels[i]`. */
  lemma {:induction false} AssignAll<T>(items: seq<T>, labels: seq<string>)
    requires forall i :: 0 <= i < |labels| ==> labels[i] != ""
    ensures var r := AssignLabels(items, labels);
            && |r| == Min(|items|, |labels|)
            && forall i :: 0 <= i < |r| ==> r[i] == Labelled(labels[i], items[i])
  {
    if items != [] {
      var i := |items| - 1;
      AssignAll(items[..i], labels);
      assert forall k :: 0 <= k < Min(i, |labels|) ==> items[..i][k] == items[k];
    }
  }
}
