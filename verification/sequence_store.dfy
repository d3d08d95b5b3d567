/**
 The sequence layer store: each layer type is applied or not, and the applied
 ones are composed in ascending `index` order (`SequenceLayerStore` in
 layer_store.py, an `ArraySortedList(20)` keyed by `layer.index`).
 */
module SequenceStores {
  import opened Wrappers
  import opened Layers
  import Median

  const CAPACITY: nat := 20

  datatype SequenceStore = SequenceStore(entries: seq<Layer>)

  const Empty := SequenceStore([])

  /** Ascending by index with no index twice: one entry per layer type. */
  predicate StrictlySorted(es: seq<Layer>)
  {
    forall i, j :: 0 <= i < j < |es| ==> es[i].index < es[j].index
  }

  predicate Valid(s: SequenceStore)
  {
    |s.entries| <= CAPACITY && StrictlySorted(s.entries)
  }

  /** Some entry has the same type (index) as `l`. */
  predicate HasType(s: SequenceStore, l: Layer)
  {
    exists i :: 0 <= i < |s.entries| && s.entries[i].index == l.index
  }

  /** Where an entry of index `key` goes: after every leading entry with a smaller index. */
  function InsertPos(es: seq<Layer>, key: int): (p: nat)
    ensures p <= |es|
    ensures forall j :: 0 <= j < p ==> es[j].index < key
    ensures p < |es| ==> es[p].index >= key
  {
    if |es| == 0 || es[0].index >= key then 0
    else 1 + InsertPos(es[1..], key)
  }

  /**
   Ensure the layer's type is applied. A type already present, or a full store,
   leaves the store unchanged and reports false. The source inserts with no
   duplicate check and always returns True; this model follows the documented
   "ensure this layer type is applied", and treats a full list as a refused add.
   */
  function Add(s: SequenceStore, l: Layer): (r: (SequenceStore, bool))
    ensures r.1 <==> !HasType(s, l) && |s.entries| < CAPACITY
    ensures r.1 ==> exists p :: 0 <= p <= |s.entries| && r.0.entries == s.entries[..p] + [l] + s.entries[p..]
    ensures !r.1 ==> r.0 == s
  {
    if HasType(s, l) || |s.entries| >= CAPACITY then (s, false)
    else
      var p := InsertPos(s.entries, l.index);
      (SequenceStore(s.entries[..p] + [l] + s.entries[p..]), true)
  }

  /** Position of the first entry named `name`, if any. */
  function FirstNamed(es: seq<Layer>, name: string): (r: Option<nat>)
    ensures r.None? <==> forall i :: 0 <= i < |es| ==> es[i].name != name
    ensures r.Some? ==> r.value < |es| && es[r.value].name == name
    ensures r.Some? ==> forall j :: 0 <= j < r.value ==> es[j].name != name
  {
    if |es| == 0 then None
    else if es[0].name == name then Some(0)
    else match FirstNamed(es[1..], name)
      case None => None
      case Some(k) => Some(k + 1)
  }

  /** Remove the first entry named `name`; reports whether one was found. */
  function EraseNamed(s: SequenceStore, name: string): (r: (SequenceStore, bool))
    ensures r.1 <==> exists i :: 0 <= i < |s.entries| && s.entries[i].name == name
    ensures r.1 ==> exists i :: && 0 <= i < |s.entries|
                               && s.entries[i].name == name
                               && (forall j :: 0 <= j < i ==> s.entries[j].name != name)
                               && r.0.entries == s.entries[..i] + s.entries[i + 1..]
    ensures !r.1 ==> r.0 == s
  {
    match FirstNamed(s.entries, name)
    case None => (s, false)
    case Some(i) => (SequenceStore(s.entries[..i] + s.entries[i + 1..]), true)
  }

  /**
   Ensure the layer's type is not applied: remove the first entry with the
   same name. The source falls off the end of its loop and returns None
   (falsy) when there is no match; this model reports false.
   */
  function Erase(s: SequenceStore, l: Layer): (r: (SequenceStore, bool))
    ensures r.1 <==> exists i :: 0 <= i < |s.entries| && s.entries[i].name == l.name
    ensures r.1 ==> exists i :: && 0 <= i < |s.entries|
                               && s.entries[i].name == l.name
                               && (forall j :: 0 <= j < i ==> s.entries[j].name != l.name)
                               && r.0.entries == s.entries[..i] + s.entries[i + 1..]
    ensures r.1 ==> |r.0.entries| == |s.entries| - 1
    ensures !r.1 ==> r.0 == s
  {
    EraseNamed(s, l.name)
  }

  /**
   Fold the entries in ascending index order, each output feeding the next.
   The source passes `start` to every layer instead of the running colour;
   this model follows the documented composition.
   */
  function GetColor(paint: Paint, s: SequenceStore, start: Color, t: int, x: int, y: int): (c: Color)
    ensures |s.entries| == 0 ==> c == start
  {
    Compose(paint, s.entries, start, t, x, y)
  }

  /**
   Remove the layer with the median name (the lower of the two middle names
   for an even count); an empty store is unchanged. The source leaves this
   as `pass`; this model implements the documented rule.
   */
  function Special(s: SequenceStore): (r: SequenceStore)
    ensures |s.entries| == 0 ==> r == s
    ensures |s.entries| > 0 ==>
      exists i :: && 0 <= i < |s.entries|
                  && Median.IsMedian(Names(s.entries), s.entries[i].name)
                  && r.entries == s.entries[..i] + s.entries[i + 1..]
  {
    if |s.entries| == 0 then s
    else
      var m := Median.Median(Names(s.entries));
      assert m in Names(s.entries);
      EraseNamed(s, m).0
  }

  /** Removing one entry keeps the rest strictly sorted. */
  lemma RemoveKeepsSorted(es: seq<Layer>, i: nat)
    requires StrictlySorted(es) && i < |es|
    ensures StrictlySorted(es[..i] + es[i + 1..])
  {
    var r := es[..i] + es[i + 1..];
    forall a, b | 0 <= a < b < |r|
      ensures r[a].index < r[b].index
    {
      var a' := if a < i then a else a + 1;
      var b' := if b < i then b else b + 1;
      assert r[a] == es[a'] && r[b] == es[b'];
    }
  }

  lemma AddKeepsValid(s: SequenceStore, l: Layer)
    ensures Valid(s) ==> Valid(Add(s, l).0)
  {
    if Valid(s) && !HasType(s, l) && |s.entries| < CAPACITY {
      var es := s.entries;
      var p := InsertPos(es, l.index);
      var r := es[..p] + [l] + es[p..];
      assert Add(s, l).0.entries == r;
      if p < |es| {
        assert es[p].index != l.index;
      }
      forall a, b | 0 <= a < b < |r|
        ensures r[a].index < r[b].index
      {
        if b < p {
          assert r[a] == es[a] && r[b] == es[b];
        } else if b == p {
          assert r[a] == es[a];
        } else if a < p {
          assert r[a] == es[a] && r[b] == es[b - 1];
        } else if a == p {
          assert r[b] == es[b - 1];
          assert es[p].index > l.index;
        } else {
          assert r[a] == es[a - 1] && r[b] == es[b - 1];
        }
      }
    }
  }

  lemma EraseKeepsValid(s: SequenceStore, name: string)
    ensures Valid(s) ==> Valid(EraseNamed(s, name).0)
  {
    match FirstNamed(s.entries, name)
    case None =>
    case Some(i) =>
      if Valid(s) {
        RemoveKeepsSorted(s.entries, i);
      }
  }

  lemma SpecialKeepsValid(s: SequenceStore)
    ensures Valid(s) ==> Valid(Special(s))
  {
    if |s.entries| > 0 {
      EraseKeepsValid(s, Median.Median(Names(s.entries)));
    }
  }

  /** After a successful add the new layer's type is present and the store is still sorted. */
  lemma AddThenPresent(s: SequenceStore, l: Layer)
    requires Valid(s)
    ensures HasType(Add(s, l).0, l) <==> HasType(s, l) || |s.entries| < CAPACITY
    ensures |Add(s, l).0.entries| == |s.entries| + (if Add(s, l).1 then 1 else 0)
  {
    var r := Add(s, l);
    if r.1 {
      var p :| 0 <= p <= |s.entries| && r.0.entries == s.entries[..p] + [l] + s.entries[p..];
      assert r.0.entries[p] == l;
    }
  }

  /** Adding a type already present changes nothing and keeps the size. */
  lemma AddDuplicateNoOp(s: SequenceStore, l: Layer, l2: Layer)
    requires l2.index == l.index
    ensures Add(Add(s, l).0, l2) == (Add(s, l).0, false)
  {
    var r := Add(s, l);
    if r.1 {
      var p :| 0 <= p <= |s.entries| && r.0.entries == s.entries[..p] + [l] + s.entries[p..];
      assert r.0.entries[p] == l;
    }
  }

  /** Special removes exactly one layer, and it is the one with the computed median name. */
  lemma SpecialRemovesMedian(s: SequenceStore)
    requires |s.entries| > 0
    ensures |Special(s).entries| == |s.entries| - 1
    ensures exists i :: && 0 <= i < |s.entries|
                        && s.entries[i].name == Median.Median(Names(s.entries))
                        && (forall j :: 0 <= j < i ==> s.entries[j].name != Median.Median(Names(s.entries)))
                        && Special(s).entries == s.entries[..i] + s.entries[i + 1..]
  {
    var es := s.entries;
    var ns := Names(es);
    var m := Median.Median(ns);
    assert m in ns;
    var k :| 0 <= k < |ns| && ns[k] == m;
    assert es[k].name == m;
    var i := FirstNamed(es, m).value;
    assert Special(s).entries == es[..i] + es[i + 1..];
  }


  /** Three layers named b, a, c: the median name is "b", and that layer goes. */
  lemma SpecialExampleOdd(s: SequenceStore)
    requires |s.entries| == 3
    requires s.entries[0].name == "b" && s.entries[1].name == "a" && s.entries[2].name == "c"
    ensures Special(s).entries == [s.entries[1], s.entries[2]]
  {
    var ns := Names(s.entries);
    Median.MedianOfThree(ns);
    Median.MedianCharacterised(ns, "b");
    FirstNamedAt(s.entries, "b", 0);
    assert Special(s).entries == s.entries[..0] + s.entries[1..];
  }

  /** Four layers named d, b, c, a: "b" and "c" tie in the middle, and the smaller, "b", goes. */
  lemma SpecialExampleEven(s: SequenceStore)
    requires |s.entries| == 4
    requires && s.entries[0].name == "d" && s.entries[1].name == "b"
             && s.entries[2].name == "c" && s.entries[3].name == "a"
    ensures Special(s).entries == [s.entries[0], s.entries[2], s.entries[3]]
  {
    var ns := Names(s.entries);
    Median.MedianOfFour(ns);
    Median.MedianCharacterised(ns, "b");
    FirstNamedAt(s.entries, "b", 1);
    assert Special(s).entries == s.entries[..1] + s.entries[2..];
  }

  /** An entry carrying `name` with none before it is the first one named so. */
  lemma FirstNamedAt(es: seq<Layer>, name: string, i: nat)
    requires i < |es| && es[i].name == name
    requires forall j :: 0 <= j < i ==> es[j].name != name
    ensures FirstNamed(es, name) == Some(i)
  {
    assert es[i].name == name;
  }

  /** A successful add holds exactly the old entries plus the new layer. */
  lemma AddMultiset(s: SequenceStore, l: Layer)
    requires Add(s, l).1
    ensures multiset(Add(s, l).0.entries) == multiset(s.entries) + multiset{l}
    ensures |Add(s, l).0.entries| == |s.entries| + 1
  {
    var r := Add(s, l);
    var p :| 0 <= p <= |s.entries| && r.0.entries == s.entries[..p] + [l] + s.entries[p..];
    assert s.entries == s.entries[..p] + s.entries[p..];
  }

  /** A list holding the layers of `es` plus `l` carries an index iff `es` or `l` does. */
  lemma IndexAfterExtra(r: seq<Layer>, es: seq<Layer>, l: Layer, k: int)
    requires multiset(r) == multiset(es) + multiset{l}
    ensures (exists i :: 0 <= i < |r| && r[i].index == k)
        <==> (exists j :: 0 <= j < |es| && es[j].index == k) || l.index == k
  {
    if i :| 0 <= i < |r| && r[i].index == k {
      assert r[i] in multiset(r);
      if r[i] != l {
        assert r[i] in multiset(es);
        var j :| 0 <= j < |es| && es[j] == r[i];
      }
    }
    if j :| 0 <= j < |es| && es[j].index == k {
      assert es[j] in multiset(es);
      assert es[j] in multiset(r);
      var i :| 0 <= i < |r| && r[i] == es[j];
    }
    if l.index == k {
      assert l in multiset(r);
      var i :| 0 <= i < |r| && r[i] == l;
    }
  }

  /** After a successful add of `l`, a type is present iff it was before or it is `l`'s. */
  lemma HasTypeAfterAdd(s: SequenceStore, l: Layer, m: Layer)
    requires Add(s, l).1
    ensures HasType(Add(s, l).0, m) <==> HasType(s, m) || m.index == l.index
  {
    AddMultiset(s, l);
    IndexAfterExtra(Add(s, l).0.entries, s.entries, l, m.index);
  }

  /** Two non-empty strictly sorted lists holding the same layers start with the same layer. */
  lemma SortedHeadsEqual(a: seq<Layer>, b: seq<Layer>)
    requires StrictlySorted(a) && StrictlySorted(b)
    requires multiset(a) == multiset(b) && |a| > 0 && |b| > 0
    ensures a[0] == b[0]
  {
    assert a[0] in multiset(b) && b[0] in multiset(a);
    var j :| 0 <= j < |b| && b[j] == a[0];
    var k :| 0 <= k < |a| && a[k] == b[0];
    assert a[0].index <= a[k].index;
    assert b[0].index <= b[j].index;
  }

  /** Dropping the first entry keeps a list strictly sorted. */
  lemma TailSorted(a: seq<Layer>)
    requires StrictlySorted(a) && |a| > 0
    ensures StrictlySorted(a[1..])
  {
    forall i, j | 0 <= i < j < |a| - 1
      ensures a[1..][i].index < a[1..][j].index
    {
      assert a[1..][i] == a[i + 1] && a[1..][j] == a[j + 1];
    }
  }

  /** Dropping the first entry removes one copy of it from the multiset. */
  lemma MultisetTail(a: seq<Layer>)
    requires |a| > 0
    ensures multiset(a[1..]) == multiset(a) - multiset{a[0]}
  {
    assert a == [a[0]] + a[1..];
  }

  /** Two strictly sorted entry lists holding the same layers are the same list. */
  lemma {:induction false} SortedUnique(a: seq<Layer>, b: seq<Layer>)
    requires StrictlySorted(a) && StrictlySorted(b)
    requires multiset(a) == multiset(b)
    ensures a == b
    decreases |a|
  {
    assert |a| == |multiset(a)| == |multiset(b)| == |b|;
    if |a| > 0 {
      SortedHeadsEqual(a, b);
      MultisetTail(a);
      MultisetTail(b);
      TailSorted(a);
      TailSorted(b);
      SortedUnique(a[1..], b[1..]);
      assert a == [a[0]] + a[1..] && b == [b[0]] + b[1..];
    }
  }

  /** Two adds of new, distinct types both succeed, and the store holds both layers, still valid. */
  lemma AddTwo(s: SequenceStore, l1: Layer, l2: Layer)
    requires Valid(s) && |s.entries| + 2 <= CAPACITY
    requires !HasType(s, l1) && !HasType(s, l2) && l1.index != l2.index
    ensures Add(s, l1).1 && Add(Add(s, l1).0, l2).1
    ensures multiset(Add(Add(s, l1).0, l2).0.entries) == multiset(s.entries) + multiset{l1, l2}
    ensures Valid(Add(Add(s, l1).0, l2).0)
  {
    var a := Add(s, l1).0;
    AddMultiset(s, l1);
    HasTypeAfterAdd(s, l1, l2);
    AddMultiset(a, l2);
    AddKeepsValid(s, l1);
    AddKeepsValid(a, l2);
  }

  /**
   Layers are applied in order of index, not in the order they were added:
   adding two layers of new types gives the same store either way round.
   */
  lemma AddCommutes(s: SequenceStore, l1: Layer, l2: Layer)
    requires Valid(s) && |s.entries| + 2 <= CAPACITY
    requires !HasType(s, l1) && !HasType(s, l2) && l1.index != l2.index
    ensures Add(Add(s, l1).0, l2) == Add(Add(s, l2).0, l1)
    ensures Add(Add(s, l1).0, l2).1
  {
    AddTwo(s, l1, l2);
    AddTwo(s, l2, l1);
    var ab := Add(Add(s, l1).0, l2).0;
    var ba := Add(Add(s, l2).0, l1).0;
    assert multiset{l1, l2} == multiset{l2, l1};
    SortedUnique(ab.entries, ba.entries);
  }

  /** Hence the colour a cell shows does not depend on the order its layers were added. */
  lemma ColorIgnoresAddOrder(paint: Paint, s: SequenceStore, l1: Layer, l2: Layer,
                             start: Color, t: int, x: int, y: int)
    requires Valid(s) && |s.entries| + 2 <= CAPACITY
    requires !HasType(s, l1) && !HasType(s, l2) && l1.index != l2.index
    ensures GetColor(paint, Add(Add(s, l1).0, l2).0, start, t, x, y)
         == GetColor(paint, Add(Add(s, l2).0, l1).0, start, t, x, y)
  {
    AddCommutes(s, l1, l2);
  }
}
