/**
 The set layer store: at most one layer, plus an invert flag toggled by the
 special action (`SetLayerStore` in layer_store.py).
 */
module SetStores {
  import opened Wrappers
  import opened Layers

  datatype SetStore = SetStore(layer: Option<Layer>, inverted: bool)

  const Empty := SetStore(None, false)

  /**
   Replace the layer. Reports a change exactly when the new layer differs from
   the one held; re-adding the same layer leaves the store as it was.
   */
  function Add(s: SetStore, l: Layer): (r: (SetStore, bool))
    ensures r.0.layer == Some(l) && r.0.inverted == s.inverted
    ensures r.1 <==> s.layer != Some(l)
    ensures !r.1 ==> r.0 == s
  {
    if s.layer != Some(l) then (s.(layer := Some(l)), true) else (s, false)
  }

  /** Clear the layer whatever the argument; reports a change exactly when one was held. */
  function Erase(s: SetStore, l: Layer): (r: (SetStore, bool))
    ensures r.0.layer == None && r.0.inverted == s.inverted
    ensures r.1 <==> s.layer.Some?
    ensures !r.1 ==> r.0 == s
  {
    if s.layer.Some? then (s.(layer := None), true) else (s, false)
  }

  /** The layer's output on `start` (or `start` itself when empty), complemented when inverted. */
  function GetColor(paint: Paint, s: SetStore, start: Color, t: int, x: int, y: int): (c: Color)
    ensures s.layer.None? && !s.inverted ==> c == start
    ensures s.layer.None? && s.inverted ==> c == Invert(start)
  {
    var base := if s.layer.None? then start else paint(s.layer.value, start, t, x, y);
    if s.inverted then Invert(base) else base
  }

  /** Toggle the invert flag; the layer is kept. */
  function Special(s: SetStore): (r: SetStore)
    ensures r.layer == s.layer && r.inverted != s.inverted
  {
    s.(inverted := !s.inverted)
  }

  /** Adding the same layer twice: the second add reports no change. */
  lemma AddIdempotent(s: SetStore, l: Layer)
    ensures Add(Add(s, l).0, l) == (Add(s, l).0, false)
  {
  }

  /** After an add, erase reports a change exactly once. */
  lemma EraseAfterAddOnce(s: SetStore, l: Layer, l1: Layer, l2: Layer)
    ensures Erase(Add(s, l).0, l1).1
    ensures Erase(Erase(Add(s, l).0, l1).0, l2) == (Erase(Add(s, l).0, l1).0, false)
  {
  }

  /** Special complements the resolved colour, and doing it twice restores it. */
  lemma SpecialInvertsColor(paint: Paint, s: SetStore, start: Color, t: int, x: int, y: int)
    ensures GetColor(paint, Special(s), start, t, x, y) == Invert(GetColor(paint, s, start, t, x, y))
    ensures Special(Special(s)) == s
    ensures GetColor(paint, Special(Special(s)), start, t, x, y) == GetColor(paint, s, start, t, x, y)
  {
    InvertInvolutive(GetColor(paint, s, start, t, x, y));
  }

  /** Once a layer is added, the store shows that layer's output on `start`, complemented when inverted. */
  lemma AddColor(paint: Paint, s: SetStore, l: Layer, start: Color, t: int, x: int, y: int)
    ensures GetColor(paint, Add(s, l).0, start, t, x, y)
         == (if s.inverted then Invert(paint(l, start, t, x, y)) else paint(l, start, t, x, y))
  {
  }
}
