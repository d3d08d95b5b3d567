/**
 A cell's layer store: one of the three compositing strategies, fixed when
 the store is created (the `LayerStore` base class of layer_store.py).
 */
module LayerStores {
  import opened Wrappers
  import opened Layers
  import SetStores
  import AdditiveStores
  import SequenceStores
  import Median

  datatype LayerStore =
    | SetKind(setStore: SetStores.SetStore)
    | AdditiveKind(additiveStore: AdditiveStores.AdditiveStore)
    | SequenceKind(sequenceStore: SequenceStores.SequenceStore)

  /** Both stores use the same strategy. */
  predicate SameKind(a: LayerStore, b: LayerStore)
  {
    (a.SetKind? && b.SetKind?) || (a.AdditiveKind? && b.AdditiveKind?) || (a.SequenceKind? && b.SequenceKind?)
  }

  predicate Valid(st: LayerStore)
  {
    match st
    case SetKind(_) => true
    case AdditiveKind(a) => AdditiveStores.Valid(a)
    case SequenceKind(q) => SequenceStores.Valid(q)
  }

  predicate IsEmpty(st: LayerStore)
  {
    match st
    case SetKind(s) => s == SetStores.Empty
    case AdditiveKind(a) => a == AdditiveStores.Empty
    case SequenceKind(q) => q == SequenceStores.Empty
  }

  /** Add a layer; the flag reports whether the store changed. */
  function Add(st: LayerStore, l: Layer): (r: (LayerStore, bool))
    ensures SameKind(st, r.0)
    ensures r.1 <==> r.0 != st
    ensures st.SetKind? ==> r.0.setStore.layer == Some(l) && r.0.setStore.inverted == st.setStore.inverted
    ensures st.AdditiveKind? ==>
      var ls := st.additiveStore.layers;
      && (r.1 <==> |ls| < AdditiveStores.CAPACITY)
      && (r.1 ==> r.0.additiveStore.layers == ls + [l])
    ensures st.SequenceKind? ==>
      var q := st.sequenceStore;
      && (r.1 <==> !SequenceStores.HasType(q, l) && |q.entries| < SequenceStores.CAPACITY)
      && (r.1 ==> multiset(r.0.sequenceStore.entries) == multiset(q.entries) + multiset{l})
    ensures Valid(st) ==> Valid(r.0)
  {
    match st
    case SetKind(s) =>
      var (s', ok) := SetStores.Add(s, l); (SetKind(s'), ok)
    case AdditiveKind(a) =>
      var (a', ok) := AdditiveStores.Add(a, l); (AdditiveKind(a'), ok)
    case SequenceKind(q) =>
      SequenceStores.AddKeepsValid(q, l);
      var (q', ok) := SequenceStores.Add(q, l);
      if ok then SequenceStores.AddMultiset(q, l); (SequenceKind(q'), ok)
      else (SequenceKind(q'), ok)
  }

  /** Erase with a layer; the flag reports whether the store changed. */
  function Erase(st: LayerStore, l: Layer): (r: (LayerStore, bool))
    ensures SameKind(st, r.0)
    ensures r.1 <==> r.0 != st
    ensures st.SetKind? ==> r.0.setStore.layer == None && r.0.setStore.inverted == st.setStore.inverted
    ensures st.AdditiveKind? ==>
      var ls := st.additiveStore.layers;
      && (r.1 <==> |ls| > 0)
      && (r.1 ==> r.0.additiveStore.layers == ls[1..])
    ensures st.SequenceKind? ==>
      var es := st.sequenceStore.entries;
      && (r.1 <==> exists i :: 0 <= i < |es| && es[i].name == l.name)
      && (r.1 ==> exists i :: && 0 <= i < |es|
                              && es[i].name == l.name
                              && (forall j :: 0 <= j < i ==> es[j].name != l.name)
                              && r.0.sequenceStore.entries == es[..i] + es[i + 1..])
    ensures Valid(st) ==> Valid(r.0)
  {
    match st
    case SetKind(s) =>
      var (s', ok) := SetStores.Erase(s, l); (SetKind(s'), ok)
    case AdditiveKind(a) =>
      var (a', ok) := AdditiveStores.Erase(a, l); (AdditiveKind(a'), ok)
    case SequenceKind(q) =>
      SequenceStores.EraseKeepsValid(q, l.name);
      var (q', ok) := SequenceStores.Erase(q, l); (SequenceKind(q'), ok)
  }

  /** The colour the cell shows, given the colour beneath it. */
  function GetColor(paint: Paint, st: LayerStore, start: Color, t: int, x: int, y: int): (c: Color)
    ensures IsEmpty(st) ==> c == start
  {
    match st
    case SetKind(s) => SetStores.GetColor(paint, s, start, t, x, y)
    case AdditiveKind(a) => AdditiveStores.GetColor(paint, a, start, t, x, y)
    case SequenceKind(q) => SequenceStores.GetColor(paint, q, start, t, x, y)
  }

  /** The strategy's special action. */
  function Special(st: LayerStore): (r: LayerStore)
    ensures SameKind(st, r)
    ensures Valid(st) ==> Valid(r)
    ensures st.SetKind? ==>
      && r.setStore.layer == st.setStore.layer
      && r.setStore.inverted != st.setStore.inverted
    ensures st.AdditiveKind? ==>
      var ls := st.additiveStore.layers;
      && |r.additiveStore.layers| == |ls|
      && forall i :: 0 <= i < |ls| ==> r.additiveStore.layers[i] == ls[|ls| - 1 - i]
    ensures st.SequenceKind? && |st.sequenceStore.entries| == 0 ==> r == st
    ensures st.SequenceKind? && |st.sequenceStore.entries| > 0 ==>
      var es := st.sequenceStore.entries;
      exists i :: && 0 <= i < |es|
                  && es[i].name == Median.Median(Names(es))
                  && (forall j :: 0 <= j < i ==> es[j].name != Median.Median(Names(es)))
                  && r.sequenceStore.entries == es[..i] + es[i + 1..]
  {
    match st
    case SetKind(s) => SetKind(SetStores.Special(s))
    case AdditiveKind(a) => AdditiveKind(AdditiveStores.Special(a))
    case SequenceKind(q) =>
      SequenceStores.SpecialKeepsValid(q);
      if |q.entries| > 0 then SequenceStores.SpecialRemovesMedian(q); SequenceKind(SequenceStores.Special(q))
      else SequenceKind(SequenceStores.Special(q))
  }

  /** Special is its own inverse for the set and additive strategies. */
  lemma SpecialInvolutive(st: LayerStore)
    requires !st.SequenceKind?
    ensures Special(Special(st)) == st
  {
    match st
    case SetKind(s) =>
    case AdditiveKind(a) => AdditiveStores.SpecialInvolutive(a);
  }
}
