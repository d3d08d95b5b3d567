/**
 The median name of a collection of layer names, with the lower of the two
 middle names chosen when the count is even.

 `IsMedian` is the reference definition, by rank: with n names and
 k = (n - 1) / 2, at most k names sort strictly below the median and at most
 n - 1 - k strictly above it. `Median` computes it by sorting.
 */
module Median {
  import LexOrder

  /** How many of `ns` sort strictly below `m`. */
  function CountBelow(ns: seq<string>, m: string): (c: nat)
    ensures c <= |ns|
  {
    if |ns| == 0 then 0
    else (if LexOrder.Less(ns[0], m) then 1 else 0) + CountBelow(ns[1..], m)
  }

  /** How many of `ns` sort strictly above `m`. */
  function CountAbove(ns: seq<string>, m: string): (c: nat)
    ensures c <= |ns|
  {
    if |ns| == 0 then 0
    else (if LexOrder.Less(m, ns[0]) then 1 else 0) + CountAbove(ns[1..], m)
  }

  /** Position of the median in the sorted names: the lower middle when |ns| is even. */
  function MedianRank(n: nat): nat
  {
    if n == 0 then 0 else (n - 1) / 2
  }

  predicate IsMedian(ns: seq<string>, m: string)
  {
    && m in ns
    && CountBelow(ns, m) <= MedianRank(|ns|)
    && CountAbove(ns, m) <= |ns| - 1 - MedianRank(|ns|)
  }

  predicate Sorted(t: seq<string>)
  {
    forall i, j :: 0 <= i < j < |t| ==> LexOrder.LessEq(t[i], t[j])
  }

  /** Insert `x` into sorted `t` before the first name not below it. */
  function Insert(x: string, t: seq<string>): (r: seq<string>)
    ensures multiset(r) == multiset(t) + multiset{x}
  {
    if |t| == 0 then [x]
    else if LexOrder.LessEq(x, t[0]) then [x] + t
    else
      assert t == [t[0]] + t[1..];
      [t[0]] + Insert(x, t[1..])
  }

  function Sort(ns: seq<string>): (t: seq<string>)
    ensures multiset(t) == multiset(ns)
  {
    if |ns| == 0 then []
    else
      assert ns == [ns[0]] + ns[1..];
      Insert(ns[0], Sort(ns[1..]))
  }

  /** Prepending a lower bound of a sorted sequence keeps it sorted. */
  lemma SortedCons(a: string, rest: seq<string>)
    requires Sorted(rest)
    requires forall k :: 0 <= k < |rest| ==> LexOrder.LessEq(a, rest[k])
    ensures Sorted([a] + rest)
  {
    var r := [a] + rest;
    forall i, j | 0 <= i < j < |r|
      ensures LexOrder.LessEq(r[i], r[j])
    {
      assert r[j] == rest[j - 1];
      if i > 0 {
        assert r[i] == rest[i - 1];
      }
    }
  }

  /** A lower bound of `x` and of every name in `t` bounds `Insert(x, t)` too. */
  lemma {:induction false} InsertBounded(x: string, t: seq<string>, lo: string)
    requires LexOrder.LessEq(lo, x)
    requires forall k :: 0 <= k < |t| ==> LexOrder.LessEq(lo, t[k])
    ensures forall k :: 0 <= k < |Insert(x, t)| ==> LexOrder.LessEq(lo, Insert(x, t)[k])
  {
    if |t| > 0 && !LexOrder.LessEq(x, t[0]) {
      InsertBounded(x, t[1..], lo);
      var rest := Insert(x, t[1..]);
      assert Insert(x, t) == [t[0]] + rest;
      forall k | 0 <= k < |Insert(x, t)|
        ensures LexOrder.LessEq(lo, Insert(x, t)[k])
      {
        if k > 0 {
          assert Insert(x, t)[k] == rest[k - 1];
        }
      }
    }
  }

  lemma {:induction false} InsertSorted(x: string, t: seq<string>)
    requires Sorted(t)
    ensures Sorted(Insert(x, t))
  {
    if |t| == 0 {
    } else if LexOrder.LessEq(x, t[0]) {
      forall k | 0 <= k < |t|
        ensures LexOrder.LessEq(x, t[k])
      {
        if k > 0 && x != t[0] && t[0] != t[k] {
          LexOrder.Transitive(x, t[0], t[k]);
        }
      }
      SortedCons(x, t);
    } else {
      LexOrder.Trichotomy(x, t[0]);
      InsertSorted(x, t[1..]);
      InsertBounded(x, t[1..], t[0]);
      SortedCons(t[0], Insert(x, t[1..]));
    }
  }

  lemma {:induction false} SortSorted(ns: seq<string>)
    ensures Sorted(Sort(ns))
  {
    if |ns| > 0 {
      SortSorted(ns[1..]);
      InsertSorted(ns[0], Sort(ns[1..]));
    }
  }

  lemma {:induction false} CountsSplitHead(a: string, u: seq<string>, m: string)
    ensures CountBelow([a] + u, m) == (if LexOrder.Less(a, m) then 1 else 0) + CountBelow(u, m)
    ensures CountAbove([a] + u, m) == (if LexOrder.Less(m, a) then 1 else 0) + CountAbove(u, m)
  {
    assert ([a] + u)[0] == a && ([a] + u)[1..] == u;
  }

  /** Inserting `x` adds one to exactly the counts `x` belongs to. */
  lemma {:induction false} InsertCounts(x: string, t: seq<string>, m: string)
    ensures CountBelow(Insert(x, t), m) == CountBelow(t, m) + (if LexOrder.Less(x, m) then 1 else 0)
    ensures CountAbove(Insert(x, t), m) == CountAbove(t, m) + (if LexOrder.Less(m, x) then 1 else 0)
  {
    if |t| == 0 {
    } else if LexOrder.LessEq(x, t[0]) {
      CountsSplitHead(x, t, m);
    } else {
      InsertCounts(x, t[1..], m);
      CountsSplitHead(t[0], Insert(x, t[1..]), m);
    }
  }

  /** Sorting changes no count. */
  lemma {:induction false} SortCounts(ns: seq<string>, m: string)
    ensures CountBelow(Sort(ns), m) == CountBelow(ns, m)
    ensures CountAbove(Sort(ns), m) == CountAbove(ns, m)
  {
    if |ns| > 0 {
      SortCounts(ns[1..], m);
      InsertCounts(ns[0], Sort(ns[1..]), m);
    }
  }

  /** If no name from position k on sorts below m, at most k do. */
  lemma {:induction false} CountBelowBound(t: seq<string>, m: string, k: nat)
    requires k <= |t|
    requires forall j :: k <= j < |t| ==> !LexOrder.Less(t[j], m)
    ensures CountBelow(t, m) <= k
  {
    if |t| > 0 {
      CountBelowBound(t[1..], m, if k == 0 then 0 else k - 1);
    }
  }

  /** If none of the first p names sorts above m, at most |t| - p do. */
  lemma {:induction false} CountAboveBound(t: seq<string>, m: string, p: nat)
    requires p <= |t|
    requires forall j :: 0 <= j < p ==> !LexOrder.Less(m, t[j])
    ensures CountAbove(t, m) <= |t| - p
  {
    if |t| > 0 && p > 0 {
      CountAboveBound(t[1..], m, p - 1);
    }
  }

  /** In sorted names, position k has at most k names below it and the rest above it. */
  lemma SortedRank(t: seq<string>, k: nat)
    requires Sorted(t) && k < |t|
    ensures CountBelow(t, t[k]) <= k
    ensures CountAbove(t, t[k]) <= |t| - 1 - k
  {
    forall j | k <= j < |t|
      ensures !LexOrder.Less(t[j], t[k])
    {
      LexOrder.Trichotomy(t[k], t[j]);
    }
    CountBelowBound(t, t[k], k);
    forall j | 0 <= j < k + 1
      ensures !LexOrder.Less(t[k], t[j])
    {
      LexOrder.Trichotomy(t[j], t[k]);
    }
    CountAboveBound(t, t[k], k + 1);
  }

  /** The name at position `MedianRank` of the sorted names. */
  function Median(ns: seq<string>): (m: string)
    requires |ns| > 0
    ensures IsMedian(ns, m)
  {
    var t := Sort(ns);
    var k := MedianRank(|ns|);
    SortSorted(ns);
    SortedRank(t, k);
    SortCounts(ns, t[k]);
    assert t[k] in multiset(ns);
    t[k]
  }

  /** Every name sorts above `a` or below `b` once `a < b`. */
  lemma {:induction false} CountsCover(ns: seq<string>, a: string, b: string)
    requires LexOrder.Less(a, b)
    ensures CountAbove(ns, a) + CountBelow(ns, b) >= |ns|
  {
    if |ns| > 0 {
      CountsCover(ns[1..], a, b);
      if !LexOrder.Less(a, ns[0]) {
        LexOrder.Trichotomy(a, ns[0]);
        if ns[0] != a {
          LexOrder.Transitive(ns[0], a, b);
        }
      }
    }
  }

  /** The rank definition pins down a single name. */
  lemma MedianUnique(ns: seq<string>, a: string, b: string)
    requires IsMedian(ns, a) && IsMedian(ns, b)
    ensures a == b
  {
    if a != b {
      LexOrder.Total(a, b);
      if LexOrder.Less(a, b) {
        CountsCover(ns, a, b);
      } else {
        CountsCover(ns, b, a);
      }
    }
  }

  /** The computed median is the only name meeting the rank definition. */
  lemma MedianCharacterised(ns: seq<string>, m: string)
    requires |ns| > 0
    ensures IsMedian(ns, m) <==> m == Median(ns)
  {
    if IsMedian(ns, m) {
      MedianUnique(ns, m, Median(ns));
    }
  }

  /** Three names b, a, c: "b" has one name below it and one above, so it is the median. */
  lemma MedianOfThree(ns: seq<string>)
    requires |ns| == 3 && ns[0] == "b" && ns[1] == "a" && ns[2] == "c"
    ensures IsMedian(ns, "b")
  {
    assert LexOrder.Less("a", "b") && LexOrder.Less("b", "c");
    LexOrder.Irreflexive("b");
    LexOrder.Asymmetric("b", "c");
    var t := ns[2..];
    assert t[1..] == [];
    assert CountBelow(t, "b") == 0 && CountAbove(t, "b") == 1;
    assert ns[1..][1..] == t;
    assert CountBelow(ns[1..], "b") == 1 && CountAbove(ns[1..], "b") == 1;
    assert ns[0] in ns;
  }

  /** Four names d, b, c, a: "b" and "c" tie in the middle and the smaller, "b", is the median. */
  lemma MedianOfFour(ns: seq<string>)
    requires |ns| == 4 && ns[0] == "d" && ns[1] == "b" && ns[2] == "c" && ns[3] == "a"
    ensures IsMedian(ns, "b") && !IsMedian(ns, "c")
  {
    assert LexOrder.Less("a", "b") && LexOrder.Less("b", "c") && LexOrder.Less("b", "d");
    LexOrder.Irreflexive("b");
    LexOrder.Asymmetric("b", "c");
    LexOrder.Asymmetric("b", "d");
    var t := ns[3..];
    assert t[1..] == [];
    assert CountBelow(t, "b") == 1 && CountAbove(t, "b") == 0;
    assert ns[2..][1..] == t;
    assert CountBelow(ns[2..], "b") == 1 && CountAbove(ns[2..], "b") == 1;
    assert ns[1..][1..] == ns[2..];
    assert CountBelow(ns[1..], "b") == 1 && CountAbove(ns[1..], "b") == 1;
    assert CountBelow(ns, "b") == 1 && CountAbove(ns, "b") == 2;
    assert ns[1] in ns;
    if IsMedian(ns, "c") {
      MedianUnique(ns, "b", "c");
    }
  }
}
