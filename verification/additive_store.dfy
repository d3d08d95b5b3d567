/**
 The additive layer store: a bounded FIFO of layers applied oldest first
 (`AdditiveLayerStore` in layer_store.py, a `CircularQueue(100)`).
 */
module AdditiveStores {
  import opened Layers

  const CAPACITY: nat := 100

  datatype AdditiveStore = AdditiveStore(layers: seq<Layer>)

  const Empty := AdditiveStore([])

  predicate Valid(s: AdditiveStore)
  {
    |s.layers| <= CAPACITY
  }

  /**
   Enqueue `l` at the tail. On a full store nothing changes and failure is
   reported. The source's guard names `is_full` without calling it, and a
   bound method is always truthy, so as written every add returns the string
   "Maximum layers reached." and appends nothing; this model follows the
   documented "add a new layer to be added last" with a capacity of 100.
   */
  function Add(s: AdditiveStore, l: Layer): (r: (AdditiveStore, bool))
    ensures r.1 <==> |s.layers| < CAPACITY
    ensures r.1 ==> r.0.layers == s.layers + [l]
    ensures !r.1 ==> r.0 == s
    ensures Valid(s) ==> Valid(r.0)
  {
    if |s.layers| >= CAPACITY then (s, false)
    else (AdditiveStore(s.layers + [l]), true)
  }

  /**
   Drop the oldest layer whatever the argument. On an empty store nothing
   changes and failure is reported; the source returns the truthy string
   "No layers to erase" there, and passes the layer to `serve` as a stray
   argument, which this model ignores.
   */
  function Erase(s: AdditiveStore, l: Layer): (r: (AdditiveStore, bool))
    ensures r.1 <==> |s.layers| > 0
    ensures r.1 ==> s.layers == [s.layers[0]] + r.0.layers
    ensures !r.1 ==> r.0 == s
    ensures Valid(s) ==> Valid(r.0)
  {
    if |s.layers| == 0 then (s, false)
    else (AdditiveStore(s.layers[1..]), true)
  }

  /**
   Fold the layers oldest first, each output feeding the next. The source
   passes `start` to every layer instead of the running colour, so that only
   the last layer would count; this model follows the documented composition.
   */
  function GetColor(paint: Paint, s: AdditiveStore, start: Color, t: int, x: int, y: int): (c: Color)
    ensures |s.layers| == 0 ==> c == start
  {
    Compose(paint, s.layers, start, t, x, y)
  }

  /** The layers in the opposite order, built as the source does by pushing onto a stack. */
  function Reverse(ls: seq<Layer>): (r: seq<Layer>)
    ensures |r| == |ls|
    ensures forall i :: 0 <= i < |ls| ==> r[i] == ls[|ls| - 1 - i]
  {
    if |ls| == 0 then [] else Reverse(ls[1..]) + [ls[0]]
  }

  /**
   Reverse the order of the layers: oldest becomes newest. The source rebuilds
   the queue with a capacity equal to the current number of layers, so after
   a special a store would refuse further adds; this model keeps the capacity
   of 100, as the documented "reverse the order of current layers" implies.
   */
  function Special(s: AdditiveStore): (r: AdditiveStore)
    ensures |r.layers| == |s.layers|
    ensures forall i :: 0 <= i < |s.layers| ==> r.layers[i] == s.layers[|s.layers| - 1 - i]
    ensures Valid(s) ==> Valid(r)
  {
    AdditiveStore(Reverse(s.layers))
  }

  /** Special keeps exactly the same layers. */
  lemma {:induction false} ReversePermutes(ls: seq<Layer>)
    ensures multiset(Reverse(ls)) == multiset(ls)
  {
    if |ls| > 0 {
      ReversePermutes(ls[1..]);
      assert ls == [ls[0]] + ls[1..];
    }
  }

  lemma SpecialInvolutive(s: AdditiveStore)
    ensures Special(Special(s)) == s
    ensures multiset(Special(s).layers) == multiset(s.layers)
  {
    ReversePermutes(s.layers);
    assert Special(Special(s)).layers == s.layers;
  }

  /** A newly added layer is applied on top of the colour the store resolved before. */
  lemma AddColor(paint: Paint, s: AdditiveStore, l: Layer, start: Color, t: int, x: int, y: int)
    requires |s.layers| < CAPACITY
    ensures GetColor(paint, Add(s, l).0, start, t, x, y)
         == paint(l, GetColor(paint, s, start, t, x, y), t, x, y)
  {
    ComposeSnoc(paint, s.layers, l, start, t, x, y);
  }

  /** FIFO discipline: on a non-empty store that is not full, add and erase commute. */
  lemma AddEraseCommute(s: AdditiveStore, l: Layer, e: Layer)
    requires 0 < |s.layers| < CAPACITY
    ensures Erase(Add(s, l).0, e).0 == Add(Erase(s, e).0, l).0
  {
    assert (s.layers + [l])[1..] == s.layers[1..] + [l];
  }

  /** Add each of `ls` in turn, collecting the reported outcomes. */
  function AddAll(s: AdditiveStore, ls: seq<Layer>): (r: (AdditiveStore, seq<bool>))
    ensures |r.1| == |ls|
    decreases |ls|
  {
    if |ls| == 0 then (s, [])
    else
      var (s1, ok) := Add(s, ls[0]);
      var (s2, oks) := AddAll(s1, ls[1..]);
      (s2, [ok] + oks)
  }

  /**
   Adding layers one by one: exactly those that find room succeed, in order,
   and the store ends up holding them after its old contents.
   */
  lemma {:induction false} AddAllOutcomes(s: AdditiveStore, ls: seq<Layer>)
    ensures forall i :: 0 <= i < |ls| ==> (AddAll(s, ls).1[i] <==> |s.layers| + i < CAPACITY)
    ensures |s.layers| + |ls| <= CAPACITY ==> AddAll(s, ls).0.layers == s.layers + ls
    decreases |ls|
  {
    if |ls| > 0 {
      var s1 := Add(s, ls[0]).0;
      AddAllOutcomes(s1, ls[1..]);
      var r := AddAll(s, ls);
      assert r.1 == [Add(s, ls[0]).1] + AddAll(s1, ls[1..]).1;
      forall i | 0 <= i < |ls|
        ensures r.1[i] <==> |s.layers| + i < CAPACITY
      {
        if i > 0 {
          assert r.1[i] == AddAll(s1, ls[1..]).1[i - 1];
        }
      }
      if |s.layers| + |ls| <= CAPACITY {
        assert s.layers + ls == (s.layers + [ls[0]]) + ls[1..];
      }
    }
  }

  /** Starting empty, the first CAPACITY additions succeed and the next one fails. */
  lemma OverflowReported(ls: seq<Layer>)
    requires |ls| == CAPACITY + 1
    ensures forall i :: 0 <= i < CAPACITY ==> AddAll(Empty, ls).1[i]
    ensures !AddAll(Empty, ls).1[CAPACITY]
  {
    AddAllOutcomes(Empty, ls);
  }
}
