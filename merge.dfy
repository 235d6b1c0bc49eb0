/** `insert_many_by_key` of src/resolution/datacell.rs: merges new elements
    into a vector sorted by key, and reports where every old and every new
    element ended up. Keys are modelled as integers. */
module Merge {

  /** Where an element of the merged vector came from: the i-th old element,
      or the k-th new element in key order. */
  datatype Origin = FromOld(i: nat) | FromNew(k: nat)

  /** The elements in non-decreasing key order. */
  predicate SortedBy<T>(key: T -> int, s: seq<T>) {
    forall a, b :: 0 <= a < b < |s| ==> key(s[a]) <= key(s[b])
  }

  // ---------------------------------------------------------------------
  // Sorting the numbered new elements (`enumerate` then `sort_by_key`)

  /** `enumerate`: each element paired with its index. */
  function Enumerate<T>(s: seq<T>): (r: seq<(nat, T)>)
    ensures |r| == |s|
    ensures forall x :: 0 <= x < |s| ==> r[x] == (x, s[x])
  {
    seq(|s|, x requires 0 <= x < |s| => (x, s[x]))
  }

  predicate SortedPairs<T>(key: T -> int, s: seq<(nat, T)>) {
    forall a, b :: 0 <= a < b < |s| ==> key(s[a].1) <= key(s[b].1)
  }

  /** Equal keys keep the order of their numbers. */
  predicate Stable<T>(key: T -> int, s: seq<(nat, T)>) {
    forall a, b :: 0 <= a < b < |s| && key(s[a].1) == key(s[b].1) ==> s[a].0 < s[b].0
  }

  /** Inserts t after every element whose key is not above its own. */
  function InsertByKey<T(==)>(key: T -> int, s: seq<(nat, T)>, t: (nat, T)): (r: seq<(nat, T)>)
    ensures |r| == |s| + 1
    ensures multiset(r) == multiset(s) + multiset{t}
  {
    if s == [] || key(s[|s| - 1].1) <= key(t.1) then s + [t]
    else
      assert s == s[..|s| - 1] + [s[|s| - 1]];
      InsertByKey(key, s[..|s| - 1], t) + [s[|s| - 1]]
  }

  lemma {:induction false} InsertByKeySorted<T>(key: T -> int, s: seq<(nat, T)>, t: (nat, T))
    requires SortedPairs(key, s)
    ensures SortedPairs(key, InsertByKey(key, s, t))
  {
    if !(s == [] || key(s[|s| - 1].1) <= key(t.1)) {
      var init, last := s[..|s| - 1], s[|s| - 1];
      InsertByKeySorted(key, init, t);
      var w := InsertByKey(key, init, t);
      forall u | u in w ensures key(u.1) <= key(last.1) {
        assert u in multiset(w);
        if u != t {
          assert u in init;
        }
      }
      forall a | 0 <= a < |w| ensures key(w[a].1) <= key(last.1) {
        assert w[a] in w;
      }
    }
  }

  /** Each element after an insertion is the inserted one or an earlier one. */
  lemma InsertedFrom<T>(key: T -> int, s: seq<(nat, T)>, t: (nat, T), a: nat)
    requires a < |InsertByKey(key, s, t)|
    ensures InsertByKey(key, s, t)[a] == t || exists c :: 0 <= c < |s| && s[c] == InsertByKey(key, s, t)[a]
  {
    var w := InsertByKey(key, s, t);
    assert w[a] in multiset(w);
  }

  lemma {:induction false} InsertByKeyStable<T>(key: T -> int, s: seq<(nat, T)>, t: (nat, T))
    requires SortedPairs(key, s) && Stable(key, s)
    requires forall u :: u in s ==> u.0 < t.0
    ensures Stable(key, InsertByKey(key, s, t))
  {
    if !(s == [] || key(s[|s| - 1].1) <= key(t.1)) {
      var init, last := s[..|s| - 1], s[|s| - 1];
      assert last in s;
      forall u | u in init ensures u.0 < t.0 {
        assert u in s;
      }
      InsertByKeyStable(key, init, t);
      var w := InsertByKey(key, init, t);
      forall a | 0 <= a < |w| && key(w[a].1) == key(last.1) ensures w[a].0 < last.0 {
        InsertedFrom(key, init, t, a);
        if w[a] != t {
          var c :| 0 <= c < |init| && init[c] == w[a];
          assert s[c] == w[a];
        }
      }
    }
  }

  /** `sort_by_key`, as a stable insertion sort. */
  function SortByKey<T(==)>(key: T -> int, s: seq<(nat, T)>): (r: seq<(nat, T)>)
    ensures |r| == |s|
    ensures multiset(r) == multiset(s)
    ensures SortedPairs(key, r)
  {
    if s == [] then []
    else
      assert s == s[..|s| - 1] + [s[|s| - 1]];
      var w := SortByKey(key, s[..|s| - 1]);
      InsertByKeySorted(key, w, s[|s| - 1]);
      InsertByKey(key, w, s[|s| - 1])
  }

  /** Numbers strictly increasing, as `enumerate` makes them. */
  predicate Numbered<T>(s: seq<(nat, T)>) {
    forall a, b :: 0 <= a < b < |s| ==> s[a].0 < s[b].0
  }

  /** Sorting numbered elements keeps equal keys in number order. */
  lemma {:induction false} SortByKeyStable<T>(key: T -> int, s: seq<(nat, T)>)
    requires Numbered(s)
    ensures Stable(key, SortByKey(key, s))
  {
    if s != [] {
      var init, last := s[..|s| - 1], s[|s| - 1];
      assert s == init + [last];
      SortByKeyStable(key, init);
      var w := SortByKey(key, init);
      forall u | u in w ensures u.0 < last.0 {
        assert u in multiset(init);
        var c :| 0 <= c < |init| && init[c] == u;
      }
      InsertByKeyStable(key, w, last);
    }
  }

  /** The sorted numbered new elements: every number below |added| once, each
      with its element. */
  ghost predicate Enumerates<T>(ns: seq<(nat, T)>, added: seq<T>) {
    && |ns| == |added|
    && (forall k :: 0 <= k < |ns| ==> ns[k].0 < |added| && ns[k].1 == added[ns[k].0])
    && (forall k1, k2 :: 0 <= k1 < k2 < |ns| ==> ns[k1].0 != ns[k2].0)
  }

  lemma {:induction false} DistinctCount<T>(s: seq<T>, e: T)
    requires forall a, b :: 0 <= a < b < |s| ==> s[a] != s[b]
    ensures multiset(s)[e] <= 1
  {
    if s != [] {
      var init := s[..|s| - 1];
      assert s == init + [s[|s| - 1]];
      DistinctCount(init, e);
      if e == s[|s| - 1] {
        assert e !in init;
      }
    }
  }

  lemma RepeatCount<T>(s: seq<T>, a: nat, b: nat)
    requires a < b < |s| && s[a] == s[b]
    ensures multiset(s)[s[a]] >= 2
  {
    assert s == s[..b] + [s[b]] + s[b + 1..];
    assert s[a] in s[..b];
  }

  /** Any reordering of the numbered new elements enumerates them. */
  lemma PermutedEnumerates<T>(ns: seq<(nat, T)>, added: seq<T>)
    requires multiset(ns) == multiset(Enumerate(added))
    ensures Enumerates(ns, added)
  {
    var e := Enumerate(added);
    forall k | 0 <= k < |ns| ensures ns[k].0 < |added| && ns[k].1 == added[ns[k].0] {
      assert ns[k] in multiset(e);
      var x :| 0 <= x < |e| && e[x] == ns[k];
    }
    forall k1, k2 | 0 <= k1 < k2 < |ns| ensures ns[k1].0 != ns[k2].0 {
      if ns[k1].0 == ns[k2].0 {
        RepeatCount(ns, k1, k2);
        DistinctCount(e, ns[k1]);
      }
    }
    assert |ns| == |multiset(ns)| == |multiset(e)| == |e|;
  }

  lemma SortedEnumeration<T>(key: T -> int, added: seq<T>)
    ensures Enumerates(SortByKey(key, Enumerate(added)), added)
  {
    PermutedEnumerates(SortByKey(key, Enumerate(added)), added);
  }

  /** Every index of a added element is the number of one sorted entry. */
  lemma Covered<T>(key: T -> int, added: seq<T>, x: nat)
    requires x < |added|
    ensures exists k :: 0 <= k < |added| && SortByKey(key, Enumerate(added))[k].0 == x
  {
    var e, ns := Enumerate(added), SortByKey(key, Enumerate(added));
    assert e[x] in multiset(ns);
    SortedEnumeration(key, added);
  }


  // ---------------------------------------------------------------------
  // The merge loop

  /** The positions 0 .. n-1 of a vector of length n. */
  function Positions(n: nat): (r: set<nat>)
    ensures forall p: nat :: p in r <==> p < n
  {
    if n == 0 then {} else Positions(n - 1) + {n - 1}
  }

  /** Sizes after taking i old and j sorted new elements. */
  ghost predicate Shape<T>(prev: seq<T>, ns: seq<(nat, T)>, i: nat, j: nat,
                           res: seq<T>, from: seq<Origin>, mo: seq<nat>, mn: seq<nat>)
  {
    && i <= |prev| && j <= |ns| && |mo| == |prev| && |mn| == |ns|
    && |res| == i + j && |from| == |res|
    && (forall k :: 0 <= k < |ns| ==> ns[k].0 < |mn|)
  }

  /** The first i old elements sit where `mo` says, recorded in `from`. */
  ghost predicate OldPlaced<T>(prev: seq<T>, i: nat, res: seq<T>, from: seq<Origin>, mo: seq<nat>) {
    forall k :: 0 <= k < i ==>
      k < |prev| && k < |mo| && mo[k] < |res| && mo[k] < |from|
      && from[mo[k]] == FromOld(k) && res[mo[k]] == prev[k]
  }

  /** The first j sorted new elements sit where `mn` says, recorded in `from`. */
  ghost predicate NewPlaced<T>(ns: seq<(nat, T)>, j: nat, res: seq<T>, from: seq<Origin>, mn: seq<nat>) {
    forall k :: 0 <= k < j ==>
      k < |ns| && ns[k].0 < |mn| && mn[ns[k].0] < |res| && mn[ns[k].0] < |from|
      && from[mn[ns[k].0]] == FromNew(k) && res[mn[ns[k].0]] == ns[k].1
  }

  /** Every position taken so far is the one its mapping points at. */
  ghost predicate BackPointers<T>(ns: seq<(nat, T)>, i: nat, j: nat, from: seq<Origin>,
                                  mo: seq<nat>, mn: seq<nat>)
  {
    forall p :: 0 <= p < |from| ==>
      match from[p]
      case FromOld(k) => k < i && k < |mo| && mo[k] == p
      case FromNew(k) => k < j && k < |ns| && ns[k].0 < |mn| && mn[ns[k].0] == p
  }

  /** Positions grow with the order of taking. */
  ghost predicate Increasing<T>(ns: seq<(nat, T)>, i: nat, j: nat, mo: seq<nat>, mn: seq<nat>)
    requires i <= |mo| && j <= |ns|
    requires forall k :: 0 <= k < |ns| ==> ns[k].0 < |mn|
  {
    && (forall a, b :: 0 <= a < b < i ==> mo[a] < mo[b])
    && (forall a, b :: 0 <= a < b < j ==> mn[ns[a].0] < mn[ns[b].0])
  }

  /** The ordering facts of the merge, when the old vector is sorted. */
  ghost predicate Ordered<T>(key: T -> int, prev: seq<T>, ns: seq<(nat, T)>, i: nat, j: nat,
                             res: seq<T>, mo: seq<nat>, mn: seq<nat>)
    requires i <= |prev| && j <= |ns| && |mo| == |prev|
    requires forall k :: 0 <= k < |ns| ==> ns[k].0 < |mn|
  {
    && SortedBy(key, res)
    && (res != [] && i < |prev| ==> key(res[|res| - 1]) <= key(prev[i]))
    && (res != [] && j < |ns| ==> key(res[|res| - 1]) <= key(ns[j].1))
    && (forall k, a :: 0 <= k < j && 0 <= a < |prev| && key(prev[a]) == key(ns[k].1) ==>
          a < i && mo[a] < mn[ns[k].0])
  }

  /** The state of the merge after taking i old and j sorted new elements. */
  ghost predicate State<T>(key: T -> int, prev: seq<T>, ns: seq<(nat, T)>, i: nat, j: nat,
                           res: seq<T>, from: seq<Origin>, mo: seq<nat>, mn: seq<nat>)
  {
    && Shape(prev, ns, i, j, res, from, mo, mn)
    && OldPlaced(prev, i, res, from, mo)
    && NewPlaced(ns, j, res, from, mn)
    && BackPointers(ns, i, j, from, mo, mn)
    && Increasing(ns, i, j, mo, mn)
    && (SortedBy(key, prev) ==> Ordered(key, prev, ns, i, j, res, mo, mn))
  }

  lemma OldPlacedAppend<T>(prev: seq<T>, i: nat, res: seq<T>, from: seq<Origin>, mo: seq<nat>,
                           x: T, o: Origin)
    requires OldPlaced(prev, i, res, from, mo)
    ensures OldPlaced(prev, i, res + [x], from + [o], mo)
  {
    var res', from' := res + [x], from + [o];
    forall k | 0 <= k < i
      ensures k < |prev| && k < |mo| && mo[k] < |res'| && mo[k] < |from'|
              && from'[mo[k]] == FromOld(k) && res'[mo[k]] == prev[k]
    {
      assert k < |mo| && mo[k] < |res| && mo[k] < |from|;
      assert res'[mo[k]] == res[mo[k]] && from'[mo[k]] == from[mo[k]];
    }
  }

  lemma NewPlacedAppend<T>(ns: seq<(nat, T)>, j: nat, res: seq<T>, from: seq<Origin>, mn: seq<nat>,
                           x: T, o: Origin)
    requires NewPlaced(ns, j, res, from, mn)
    ensures NewPlaced(ns, j, res + [x], from + [o], mn)
  {
    var res', from' := res + [x], from + [o];
    forall k | 0 <= k < j
      ensures k < |ns| && ns[k].0 < |mn| && mn[ns[k].0] < |res'| && mn[ns[k].0] < |from'|
              && from'[mn[ns[k].0]] == FromNew(k) && res'[mn[ns[k].0]] == ns[k].1
    {
      assert k < |ns| && ns[k].0 < |mn| && mn[ns[k].0] < |res| && mn[ns[k].0] < |from|;
      assert res'[mn[ns[k].0]] == res[mn[ns[k].0]] && from'[mn[ns[k].0]] == from[mn[ns[k].0]];
    }
  }

  lemma OldPlacedStep<T>(prev: seq<T>, i: nat, res: seq<T>, from: seq<Origin>, mo: seq<nat>)
    requires OldPlaced(prev, i, res, from, mo)
    requires i < |prev| == |mo| && |from| == |res|
    ensures OldPlaced(prev, i + 1, res + [prev[i]], from + [FromOld(i)], mo[i := |res|])
  {
    OldPlacedAppend(prev, i, res, from, mo, prev[i], FromOld(i));
  }

  lemma NewPlacedStep<T>(added: seq<T>, ns: seq<(nat, T)>, j: nat, res: seq<T>, from: seq<Origin>, mn: seq<nat>)
    requires Enumerates(ns, added)
    requires NewPlaced(ns, j, res, from, mn)
    requires j < |ns| == |mn| && |from| == |res|
    ensures NewPlaced(ns, j + 1, res + [ns[j].1], from + [FromNew(j)], mn[ns[j].0 := |res|])
  {
    NewPlacedAppend(ns, j, res, from, mn, ns[j].1, FromNew(j));
    var mn' := mn[ns[j].0 := |res|];
    forall k | 0 <= k < j ensures mn'[ns[k].0] == mn[ns[k].0] {
      assert ns[k].0 != ns[j].0;
    }
  }

  lemma BackPointersOld<T>(ns: seq<(nat, T)>, i: nat, j: nat, from: seq<Origin>, mo: seq<nat>, mn: seq<nat>)
    requires BackPointers(ns, i, j, from, mo, mn) && i < |mo|
    ensures BackPointers(ns, i + 1, j, from + [FromOld(i)], mo[i := |from|], mn)
  {
    var from' := from + [FromOld(i)];
    forall p | 0 <= p < |from| ensures from'[p] == from[p] {
    }
  }

  lemma BackPointersNew<T>(added: seq<T>, ns: seq<(nat, T)>, i: nat, j: nat, from: seq<Origin>,
                           mo: seq<nat>, mn: seq<nat>)
    requires Enumerates(ns, added) && |mn| == |ns|
    requires BackPointers(ns, i, j, from, mo, mn) && j < |ns|
    ensures BackPointers(ns, i, j + 1, from + [FromNew(j)], mo, mn[ns[j].0 := |from|])
  {
    var from', mn' := from + [FromNew(j)], mn[ns[j].0 := |from|];
    forall p | 0 <= p < |from| ensures from'[p] == from[p] {
    }
    forall k | 0 <= k < j ensures mn'[ns[k].0] == mn[ns[k].0] {
      assert ns[k].0 != ns[j].0;
    }
  }

  lemma IncreasingOld<T>(ns: seq<(nat, T)>, i: nat, j: nat, mo: seq<nat>, mn: seq<nat>, top: nat)
    requires i < |mo| && j <= |ns|
    requires forall k :: 0 <= k < |ns| ==> ns[k].0 < |mn|
    requires Increasing(ns, i, j, mo, mn)
    requires forall k :: 0 <= k < i ==> mo[k] < top
    ensures Increasing(ns, i + 1, j, mo[i := top], mn)
  {
  }

  lemma IncreasingNew<T>(added: seq<T>, ns: seq<(nat, T)>, i: nat, j: nat, mo: seq<nat>, mn: seq<nat>, top: nat)
    requires Enumerates(ns, added) && |mn| == |ns|
    requires i <= |mo| && j < |ns|
    requires Increasing(ns, i, j, mo, mn)
    requires forall k :: 0 <= k < j ==> mn[ns[k].0] < top
    ensures Increasing(ns, i, j + 1, mo, mn[ns[j].0 := top])
  {
    var mn' := mn[ns[j].0 := top];
    forall k | 0 <= k < j ensures mn'[ns[k].0] == mn[ns[k].0] {
      assert ns[k].0 != ns[j].0;
    }
  }

  lemma OrderedOld<T>(key: T -> int, prev: seq<T>, ns: seq<(nat, T)>, i: nat, j: nat,
                      res: seq<T>, mo: seq<nat>, mn: seq<nat>)
    requires SortedBy(key, prev) && SortedPairs(key, ns)
    requires i < |prev| && j <= |ns| && |mo| == |prev|
    requires forall k :: 0 <= k < |ns| ==> ns[k].0 < |mn|
    requires Ordered(key, prev, ns, i, j, res, mo, mn)
    requires j < |ns| ==> key(prev[i]) <= key(ns[j].1)
    ensures Ordered(key, prev, ns, i + 1, j, res + [prev[i]], mo[i := |res|], mn)
  {
    var res' := res + [prev[i]];
    assert SortedBy(key, res') by {
      if res != [] {
        assert key(res[|res| - 1]) <= key(prev[i]);
      }
    }
  }

  lemma OrderedNew<T>(key: T -> int, prev: seq<T>, added: seq<T>, ns: seq<(nat, T)>, i: nat, j: nat,
                      res: seq<T>, mo: seq<nat>, mn: seq<nat>)
    requires Enumerates(ns, added) && |mn| == |ns|
    requires SortedBy(key, prev) && SortedPairs(key, ns)
    requires i <= |prev| && j < |ns| && |mo| == |prev|
    requires Ordered(key, prev, ns, i, j, res, mo, mn)
    requires forall a :: 0 <= a < i ==> mo[a] < |res|
    requires i < |prev| ==> key(ns[j].1) < key(prev[i])
    ensures Ordered(key, prev, ns, i, j + 1, res + [ns[j].1], mo, mn[ns[j].0 := |res|])
  {
    var res', mn' := res + [ns[j].1], mn[ns[j].0 := |res|];
    assert SortedBy(key, res') by {
      if res != [] {
        assert key(res[|res| - 1]) <= key(ns[j].1);
      }
    }
    forall k | 0 <= k < j ensures mn'[ns[k].0] == mn[ns[k].0] {
      assert ns[k].0 != ns[j].0;
    }
    forall a | i <= a < |prev| ensures key(ns[j].1) < key(prev[a]) {
      assert key(prev[i]) <= key(prev[a]);
    }
  }

  /** Taking the next old element keeps the state. */
  lemma TakeOld<T>(key: T -> int, prev: seq<T>, ns: seq<(nat, T)>, i: nat, j: nat,
                   res: seq<T>, from: seq<Origin>, mo: seq<nat>, mn: seq<nat>)
    requires SortedPairs(key, ns)
    requires State(key, prev, ns, i, j, res, from, mo, mn) && i < |prev|
    requires j < |ns| ==> key(prev[i]) <= key(ns[j].1)
    ensures State(key, prev, ns, i + 1, j, res + [prev[i]], from + [FromOld(i)], mo[i := |res|], mn)
  {
    OldPlacedStep(prev, i, res, from, mo);
    NewPlacedAppend(ns, j, res, from, mn, prev[i], FromOld(i));
    BackPointersOld(ns, i, j, from, mo, mn);
    IncreasingOld(ns, i, j, mo, mn, |res|);
    if SortedBy(key, prev) {
      OrderedOld(key, prev, ns, i, j, res, mo, mn);
    }
  }

  /** Taking the next sorted new element keeps the state. */
  lemma TakeNew<T>(key: T -> int, prev: seq<T>, added: seq<T>, ns: seq<(nat, T)>, i: nat, j: nat,
                   res: seq<T>, from: seq<Origin>, mo: seq<nat>, mn: seq<nat>)
    requires Enumerates(ns, added) && SortedPairs(key, ns)
    requires State(key, prev, ns, i, j, res, from, mo, mn) && j < |ns|
    requires i < |prev| ==> key(ns[j].1) < key(prev[i])
    ensures State(key, prev, ns, i, j + 1, res + [ns[j].1], from + [FromNew(j)], mo, mn[ns[j].0 := |res|])
  {
    OldPlacedAppend(prev, i, res, from, mo, ns[j].1, FromNew(j));
    NewPlacedStep(added, ns, j, res, from, mn);
    BackPointersNew(added, ns, i, j, from, mo, mn);
    IncreasingNew(added, ns, i, j, mo, mn, |res|);
    if SortedBy(key, prev) {
      OrderedNew(key, prev, added, ns, i, j, res, mo, mn);
    }
  }

  /** Before anything is taken the state holds for any mappings of the
      right lengths. */
  lemma StateStart<T>(key: T -> int, prev: seq<T>, added: seq<T>, ns: seq<(nat, T)>, mo: seq<nat>, mn: seq<nat>)
    requires Enumerates(ns, added) && |mo| == |prev| && |mn| == |ns|
    ensures State(key, prev, ns, 0, 0, [], [], mo, mn)
  {
  }

  /** `insert_many_by_key`: number the new elements, sort them by key (stably),
      and merge them into `sorted`, taking the old element on equal keys.
      Returns the merged vector (which replaces `sorted`) and, for every old
      and every new element, its position in it. */
  method InsertManyByKey<T(==)>(key: T -> int, sorted: seq<T>, added: seq<T>)
    returns (result: seq<T>, mappingOld: seq<nat>, mappingNew: seq<nat>)
    ensures |result| == |sorted| + |added|
    ensures |mappingOld| == |sorted| && |mappingNew| == |added|
    ensures forall a :: 0 <= a < |sorted| ==>
              mappingOld[a] < |result| && result[mappingOld[a]] == sorted[a]
    ensures forall x :: 0 <= x < |added| ==>
              mappingNew[x] < |result| && result[mappingNew[x]] == added[x]
    ensures forall a, b :: 0 <= a < b < |sorted| ==> mappingOld[a] < mappingOld[b]
    ensures forall x, y :: 0 <= x < y < |added| ==> mappingNew[x] != mappingNew[y]
    ensures forall a, x :: 0 <= a < |sorted| && 0 <= x < |added| ==> mappingOld[a] != mappingNew[x]
    ensures (set a | 0 <= a < |sorted| :: mappingOld[a]) + (set x | 0 <= x < |added| :: mappingNew[x])
            == Positions(|result|)
    ensures forall x, y :: 0 <= x < y < |added| && key(added[x]) == key(added[y]) ==>
              mappingNew[x] < mappingNew[y]
    ensures SortedBy(key, sorted) ==> SortedBy(key, result)
    ensures SortedBy(key, sorted) ==>
              forall a, x :: 0 <= a < |sorted| && 0 <= x < |added| && key(sorted[a]) == key(added[x]) ==>
                mappingOld[a] < mappingNew[x]
  {
    var ns := SortByKey(key, Enumerate(added));
    SortedEnumeration(key, added);
    SortByKeyStable(key, Enumerate(added));
    ghost var from;
    result, mappingOld, mappingNew, from := MergeSorted(key, sorted, added, ns);
    FinishPlaced(key, sorted, added, ns, result, from, mappingOld, mappingNew);
    FinishCovered(key, sorted, ns, added, result, from, mappingOld, mappingNew);
    FinishStable(key, sorted, added, ns, result, from, mappingOld, mappingNew);
    if SortedBy(key, sorted) {
      FinishOldFirst(key, sorted, added, ns, result, from, mappingOld, mappingNew);
    }
  }

  /** The merge loops of `insert_many_by_key` over the sorted numbered new
      elements `ns`: the result holds every element once, each mapping
      points at its element, and the state records where each came from. */
  method MergeSorted<T>(key: T -> int, sorted: seq<T>, added: seq<T>, ns: seq<(nat, T)>)
    returns (result: seq<T>, mappingOld: seq<nat>, mappingNew: seq<nat>, ghost from: seq<Origin>)
    requires Enumerates(ns, added) && SortedPairs(key, ns)
    ensures |result| == |sorted| + |ns|
    ensures State(key, sorted, ns, |sorted|, |ns|, result, from, mappingOld, mappingNew)
  {
    result := [];
    mappingNew := seq(|ns|, _ => 0);
    mappingOld := seq(|sorted|, _ => 0);
    from := [];
    StateStart(key, sorted, added, ns, mappingOld, mappingNew);
    var i: nat, j: nat := 0, 0;
    while i < |sorted| && j < |ns|
      invariant State(key, sorted, ns, i, j, result, from, mappingOld, mappingNew)
      decreases |sorted| - i + |ns| - j
    {
      i, j, result, from, mappingOld, mappingNew := MergeStep(key, sorted, added, ns, i, j, result, from, mappingOld, mappingNew);
    }
    if i < |sorted| {
      result, mappingOld, from := TakeRestOld(key, sorted, ns, i, j, result, from, mappingOld, mappingNew);
    } else {
      result, mappingNew, from := TakeRestNew(key, sorted, added, ns, j, result, from, mappingOld, mappingNew);
    }
  }

  /** One pass of the first merge loop: take the old element when its key is
      at most the next new element's, the new one otherwise. */
  method MergeStep<T>(key: T -> int, sorted: seq<T>, added: seq<T>, ns: seq<(nat, T)>, i: nat, j: nat,
                      res: seq<T>, ghost from: seq<Origin>, mo: seq<nat>, mn: seq<nat>)
    returns (i': nat, j': nat, res': seq<T>, ghost from': seq<Origin>, mo': seq<nat>, mn': seq<nat>)
    requires Enumerates(ns, added) && SortedPairs(key, ns)
    requires State(key, sorted, ns, i, j, res, from, mo, mn) && i < |sorted| && j < |ns|
    ensures State(key, sorted, ns, i', j', res', from', mo', mn')
    ensures (i', j') == (i + 1, j) || (i', j') == (i, j + 1)
  {
    if key(sorted[i]) <= key(ns[j].1) {
      TakeOld(key, sorted, ns, i, j, res, from, mo, mn);
      i', j', res', from', mo', mn' := i + 1, j, res + [sorted[i]], from + [FromOld(i)], mo[i := |res|], mn;
    } else {
      TakeNew(key, sorted, added, ns, i, j, res, from, mo, mn);
      i', j', res', from', mo', mn' := i, j + 1, res + [ns[j].1], from + [FromNew(j)], mo, mn[ns[j].0 := |res|];
    }
  }

  /** The first tail loop: once the new elements are used up, the remaining
      old elements are appended in order. */
  method TakeRestOld<T>(key: T -> int, sorted: seq<T>, ns: seq<(nat, T)>, i0: nat, j: nat,
                        res0: seq<T>, ghost from0: seq<Origin>, mo0: seq<nat>, mn: seq<nat>)
    returns (result: seq<T>, mappingOld: seq<nat>, ghost from: seq<Origin>)
    requires SortedPairs(key, ns) && j == |ns|
    requires State(key, sorted, ns, i0, j, res0, from0, mo0, mn)
    ensures State(key, sorted, ns, |sorted|, j, result, from, mappingOld, mn)
  {
    result, mappingOld, from := res0, mo0, from0;
    var i := i0;
    while i < |sorted|
      invariant State(key, sorted, ns, i, j, result, from, mappingOld, mn)
    {
      TakeOld(key, sorted, ns, i, j, result, from, mappingOld, mn);
      mappingOld := mappingOld[i := |result|];
      result := result + [sorted[i]];
      from := from + [FromOld(i)];
      i := i + 1;
    }
  }

  /** The second tail loop: once the old elements are used up, the remaining
      sorted new elements are appended in order. */
  method TakeRestNew<T>(key: T -> int, sorted: seq<T>, added: seq<T>, ns: seq<(nat, T)>, j0: nat,
                        res0: seq<T>, ghost from0: seq<Origin>, mo: seq<nat>, mn0: seq<nat>)
    returns (result: seq<T>, mappingNew: seq<nat>, ghost from: seq<Origin>)
    requires Enumerates(ns, added) && SortedPairs(key, ns)
    requires State(key, sorted, ns, |sorted|, j0, res0, from0, mo, mn0)
    ensures State(key, sorted, ns, |sorted|, |ns|, result, from, mo, mappingNew)
  {
    result, mappingNew, from := res0, mn0, from0;
    var j := j0;
    while j < |ns|
      invariant State(key, sorted, ns, |sorted|, j, result, from, mo, mappingNew)
    {
      TakeNew(key, sorted, added, ns, |sorted|, j, result, from, mo, mappingNew);
      mappingNew := mappingNew[ns[j].0 := |result|];
      result := result + [ns[j].1];
      from := from + [FromNew(j)];
      j := j + 1;
    }
  }

  /** The new-element mapping read through the original numbering. */
  lemma NewPositions<T>(key: T -> int, added: seq<T>, ns: seq<(nat, T)>,
                        res: seq<T>, from: seq<Origin>, mn: seq<nat>, x: nat)
    returns (k: nat)
    requires ns == SortByKey(key, Enumerate(added)) && Enumerates(ns, added)
    requires NewPlaced(ns, |ns|, res, from, mn) && x < |added|
    ensures k < |ns| && ns[k].0 == x
    ensures mn[x] < |res| && mn[x] < |from| && from[mn[x]] == FromNew(k) && res[mn[x]] == added[x]
  {
    Covered(key, added, x);
    k :| 0 <= k < |added| && ns[k].0 == x;
  }

  /** The final state, read through the original numbering of the new elements. */
  lemma FinishPlaced<T>(key: T -> int, prev: seq<T>, added: seq<T>, ns: seq<(nat, T)>,
                        res: seq<T>, from: seq<Origin>, mo: seq<nat>, mn: seq<nat>)
    requires ns == SortByKey(key, Enumerate(added)) && Enumerates(ns, added)
    requires State(key, prev, ns, |prev|, |ns|, res, from, mo, mn)
    ensures forall x :: 0 <= x < |added| ==> mn[x] < |res| && res[mn[x]] == added[x]
    ensures forall x, y :: 0 <= x < y < |added| ==> mn[x] != mn[y]
    ensures forall a, x :: 0 <= a < |prev| && 0 <= x < |added| ==> mo[a] != mn[x]
  {
    forall x | 0 <= x < |added| ensures mn[x] < |res| && res[mn[x]] == added[x] {
      var k := NewPositions(key, added, ns, res, from, mn, x);
    }
    forall x, y | 0 <= x < y < |added| ensures mn[x] != mn[y] {
      var k := NewPositions(key, added, ns, res, from, mn, x);
      var l := NewPositions(key, added, ns, res, from, mn, y);
    }
    forall a, x | 0 <= a < |prev| && 0 <= x < |added| ensures mo[a] != mn[x] {
      var k := NewPositions(key, added, ns, res, from, mn, x);
    }
  }

  /** Every merged position is the position of an old or of a new element. */
  lemma FinishCovered<T>(key: T -> int, prev: seq<T>, ns: seq<(nat, T)>, added: seq<T>,
                         res: seq<T>, from: seq<Origin>, mo: seq<nat>, mn: seq<nat>)
    requires ns == SortByKey(key, Enumerate(added)) && Enumerates(ns, added)
    requires Shape(prev, ns, |prev|, |ns|, res, from, mo, mn)
    requires OldPlaced(prev, |prev|, res, from, mo) && NewPlaced(ns, |ns|, res, from, mn)
    requires BackPointers(ns, |prev|, |ns|, from, mo, mn)
    ensures (set a | 0 <= a < |prev| :: mo[a]) + (set x | 0 <= x < |added| :: mn[x])
            == Positions(|res|)
  {
    var olds, news := set a | 0 <= a < |prev| :: mo[a], set x | 0 <= x < |added| :: mn[x];
    forall p | p in Positions(|res|) ensures p in olds + news {
      if from[p].FromOld? {
        var k := from[p].i;
        assert mo[k] == p && mo[k] in olds;
      } else {
        var x := ns[from[p].k].0;
        assert mn[x] == p && mn[x] in news;
      }
    }
    forall p | p in olds + news ensures p in Positions(|res|) {
      if p in news {
        var x :| 0 <= x < |added| && mn[x] == p;
        Covered(key, added, x);
        var k :| 0 <= k < |ns| && ns[k].0 == x;
      }
    }
  }

  /** New elements with equal keys keep their order. */
  lemma FinishStable<T>(key: T -> int, prev: seq<T>, added: seq<T>, ns: seq<(nat, T)>,
                        res: seq<T>, from: seq<Origin>, mo: seq<nat>, mn: seq<nat>)
    requires ns == SortByKey(key, Enumerate(added)) && Enumerates(ns, added) && Stable(key, ns)
    requires State(key, prev, ns, |prev|, |ns|, res, from, mo, mn)
    ensures forall x, y :: 0 <= x < y < |added| && key(added[x]) == key(added[y]) ==> mn[x] < mn[y]
  {
    forall x, y | 0 <= x < y < |added| && key(added[x]) == key(added[y]) ensures mn[x] < mn[y] {
      var k := NewPositions(key, added, ns, res, from, mn, x);
      var l := NewPositions(key, added, ns, res, from, mn, y);
    }
  }

  /** On equal keys the old element comes first. */
  lemma FinishOldFirst<T>(key: T -> int, prev: seq<T>, added: seq<T>, ns: seq<(nat, T)>,
                          res: seq<T>, from: seq<Origin>, mo: seq<nat>, mn: seq<nat>)
    requires ns == SortByKey(key, Enumerate(added)) && Enumerates(ns, added)
    requires State(key, prev, ns, |prev|, |ns|, res, from, mo, mn)
    requires SortedBy(key, prev)
    ensures forall a, x :: 0 <= a < |prev| && 0 <= x < |added| && key(prev[a]) == key(added[x]) ==>
              mo[a] < mn[x]
  {
    forall a, x | 0 <= a < |prev| && 0 <= x < |added| && key(prev[a]) == key(added[x])
      ensures mo[a] < mn[x]
    {
      var k := NewPositions(key, added, ns, res, from, mn, x);
    }
  }
}
