/**
 Colours and layers as the layer stores see them.

 A layer is an external, immutable descriptor: the stores only need its
 `index` (the sort key of a sequence store) and its `name` (the key used by
 erase and by the median rule). Its colour transform `apply(color, t, x, y)`
 is not part of this model; every operation that resolves a colour takes it
 as a `Paint` parameter, so nothing is assumed about it beyond purity.
 */
module Layers {

  /** An RGB triple. Channels are plain integers: the source does no clamping. */
  datatype Color = Color(r: int, g: int, b: int)

  datatype Layer = Layer(index: int, name: string)

  /** `layer.apply(color, timestamp, x, y)`: pure and otherwise unknown. */
  type Paint = (Layer, Color, int, int, int) -> Color

  /** Channel-wise complement, as used by the invert flag of a set store. */
  function Invert(c: Color): (r: Color)
    ensures r.r + c.r == 255 && r.g + c.g == 255 && r.b + c.b == 255
  {
    Color(255 - c.r, 255 - c.g, 255 - c.b)
  }

  lemma InvertInvolutive(c: Color)
    ensures Invert(Invert(c)) == c
  {
  }

  /**
   Resolve a colour through `layers`, oldest first: each layer's output is
   the base colour of the next one.
   */
  function Compose(paint: Paint, layers: seq<Layer>, start: Color, t: int, x: int, y: int): Color
  {
    if |layers| == 0 then start
    else Compose(paint, layers[1..], paint(layers[0], start, t, x, y), t, x, y)
  }

  /** Composing over a concatenation composes the second part over the first part's result. */
  lemma {:induction false} ComposeAppend(paint: Paint, a: seq<Layer>, b: seq<Layer>, start: Color, t: int, x: int, y: int)
    ensures Compose(paint, a + b, start, t, x, y)
         == Compose(paint, b, Compose(paint, a, start, t, x, y), t, x, y)
  {
    if |a| == 0 {
      assert a + b == b;
    } else {
      assert (a + b)[1..] == a[1..] + b;
      ComposeAppend(paint, a[1..], b, paint(a[0], start, t, x, y), t, x, y);
    }
  }

  /** The newest layer is applied last, on top of everything before it. */
  lemma ComposeSnoc(paint: Paint, a: seq<Layer>, l: Layer, start: Color, t: int, x: int, y: int)
    ensures Compose(paint, a + [l], start, t, x, y)
         == paint(l, Compose(paint, a, start, t, x, y), t, x, y)
  {
    ComposeAppend(paint, a, [l], start, t, x, y);
  }

  /** The names of `layers`, position by position. */
  function Names(layers: seq<Layer>): (ns: seq<string>)
    ensures |ns| == |layers|
    ensures forall i :: 0 <= i < |layers| ==> ns[i] == layers[i].name
  {
    seq(|layers|, i requires 0 <= i < |layers| => layers[i].name)
  }
}
