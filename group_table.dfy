/** tools/group_to_coalg.py: the multiplication table of the symmetric group
    on n points. Permutations of range(n) are tuples of images, listed in the
    lexicographic order of `itertools.permutations`; entry (i, j) of the
    table is the index of perms[i] composed after perms[j]. */
module SymmetricGroup {
  import Text

  predicate Distinct(s: seq<nat>) {
    forall a, b :: 0 <= a < b < |s| ==> s[a] != s[b]
  }

  /** `q` lists the elements of `l`, each once, in some order. */
  predicate PermOf(q: seq<nat>, l: seq<nat>) {
    |q| == |l| && Distinct(q) && forall k :: 0 <= k < |q| ==> q[k] in l
  }

  /** A permutation of range(n), given by its images. */
  predicate IsPerm(p: seq<nat>, n: nat) {
    |p| == n && Distinct(p) && forall k :: 0 <= k < |p| ==> p[k] < n
  }

  /** `range(n)`, which is also the identity permutation. */
  function Range(n: nat): (r: seq<nat>)
    ensures |r| == n
    ensures forall k :: 0 <= k < n ==> r[k] == k
  {
    seq(n, k => k)
  }

  lemma PermOfRange(p: seq<nat>, n: nat)
    ensures PermOf(p, Range(n)) <==> IsPerm(p, n)
  {
    if IsPerm(p, n) {
      forall k | 0 <= k < |p| ensures p[k] in Range(n) {
        assert Range(n)[p[k]] == p[k];
      }
    }
  }

  // ---------------------------------------------------------------------
  // compose

  /** `compose(p1, p2)`: p1 after p2, as the tuple of p1[i] for i in p2. */
  function Compose(p1: seq<nat>, p2: seq<nat>): (r: seq<nat>)
    requires forall k :: 0 <= k < |p2| ==> p2[k] < |p1|
    ensures |r| == |p2|
    ensures forall k :: 0 <= k < |p2| ==> r[k] == p1[p2[k]]
  {
    seq(|p2|, k requires 0 <= k < |p2| => p1[p2[k]])
  }

  /** Composing two permutations of range(n) gives one. */
  lemma ComposeIsPerm(p1: seq<nat>, p2: seq<nat>, n: nat)
    requires IsPerm(p1, n) && IsPerm(p2, n)
    ensures IsPerm(Compose(p1, p2), n)
  {
  }

  /** The identity is a two-sided unit for composition. */
  lemma ComposeIdentity(p: seq<nat>, n: nat)
    requires IsPerm(p, n)
    ensures Compose(Range(n), p) == p
    ensures Compose(p, Range(n)) == p
  {
  }

  /** Composition is associative. */
  lemma ComposeAssociates(p1: seq<nat>, p2: seq<nat>, p3: seq<nat>, n: nat)
    requires IsPerm(p1, n) && IsPerm(p2, n) && IsPerm(p3, n)
    ensures Compose(Compose(p1, p2), p3) == Compose(p1, Compose(p2, p3))
  {
  }

  /** Composition on the left by a permutation is injective. */
  lemma CancelLeft(p: seq<nat>, q1: seq<nat>, q2: seq<nat>, n: nat)
    requires IsPerm(p, n) && IsPerm(q1, n) && IsPerm(q2, n)
    requires Compose(p, q1) == Compose(p, q2)
    ensures q1 == q2
  {
    forall k | 0 <= k < n ensures q1[k] == q2[k] {
      assert Compose(p, q1)[k] == Compose(p, q2)[k];
    }
  }

  /** Composition on the right by a permutation is injective. */
  lemma CancelRight(p1: seq<nat>, p2: seq<nat>, q: seq<nat>, n: nat)
    requires IsPerm(p1, n) && IsPerm(p2, n) && IsPerm(q, n)
    requires Compose(p1, q) == Compose(p2, q)
    ensures p1 == p2
  {
    forall v | 0 <= v < n ensures p1[v] == p2[v] {
      Onto(q, n, v);
      var k :| 0 <= k < n && q[k] == v;
      assert Compose(p1, q)[k] == Compose(p2, q)[k];
    }
  }

  // ---------------------------------------------------------------------
  // Pigeonhole: a permutation of range(n) takes every value below n

  /** The values 0 .. n-1. */
  function Below(n: nat): (r: set<nat>)
    ensures |r| == n
    ensures forall v: nat :: v in r <==> v < n
  {
    if n == 0 then {} else Below(n - 1) + {n - 1}
  }

  /** The images of the first m points. */
  function Image(p: seq<nat>, m: nat): set<nat>
    requires m <= |p|
  {
    set k | 0 <= k < m :: p[k]
  }

  lemma {:induction false} ImageSize(p: seq<nat>, m: nat)
    requires m <= |p| && Distinct(p)
    ensures |Image(p, m)| == m
  {
    if m > 0 {
      ImageSize(p, m - 1);
      assert Image(p, m) == Image(p, m - 1) + {p[m - 1]};
      forall k | 0 <= k < m - 1 ensures p[k] != p[m - 1] {
      }
    }
  }

  lemma SameSizeSubset(a: set<nat>, b: set<nat>)
    requires a <= b && |a| == |b|
    ensures a == b
  {
    assert b == a + (b - a);
  }

  /** Every value below n is the image of some point. */
  lemma Onto(p: seq<nat>, n: nat, v: nat)
    requires IsPerm(p, n) && v < n
    ensures exists k :: 0 <= k < n && p[k] == v
  {
    ImageSize(p, n);
    SameSizeSubset(Image(p, n), Below(n));
    assert v in Image(p, n);
  }

  // ---------------------------------------------------------------------
  // itertools.permutations

  function Remove(l: seq<nat>, i: nat): (r: seq<nat>)
    requires i < |l|
    ensures |r| == |l| - 1
  {
    l[..i] + l[i + 1..]
  }

  /** x put in front of each of ps. */
  function Prefixed(x: nat, ps: seq<seq<nat>>): (r: seq<seq<nat>>)
    ensures |r| == |ps|
    ensures forall k :: 0 <= k < |ps| ==> r[k] == [x] + ps[k]
  {
    seq(|ps|, k requires 0 <= k < |ps| => [x] + ps[k])
  }

  /** `itertools.permutations(l)`: for each position i in turn, l[i] followed
      by every permutation of the other elements. */
  function Permutations(l: seq<nat>): seq<seq<nat>>
    decreases |l|, |l| + 1
  {
    if l == [] then [[]] else Choices(l, 0)
  }

  /** The permutations of l that start with l[i], l[i+1], ... */
  function Choices(l: seq<nat>, i: nat): seq<seq<nat>>
    requires i <= |l|
    decreases |l|, |l| - i
  {
    if i == |l| then []
    else Prefixed(l[i], Permutations(Remove(l, i))) + Choices(l, i + 1)
  }

  /** `list(itertools.permutations(range(n)))` */
  function Perms(n: nat): seq<seq<nat>> {
    Permutations(Range(n))
  }

  function Fact(n: nat): (r: nat)
    ensures r >= 1
  {
    if n == 0 then 1 else n * Fact(n - 1)
  }

  lemma {:induction false} PermutationsCount(l: seq<nat>)
    ensures |Permutations(l)| == Fact(|l|)
    decreases |l|, |l| + 1
  {
    if l != [] {
      ChoicesCount(l, 0);
    }
  }

  lemma {:induction false} ChoicesCount(l: seq<nat>, i: nat)
    requires 0 < |l| && i <= |l|
    ensures |Choices(l, i)| == (|l| - i) * Fact(|l| - 1)
    decreases |l|, |l| - i
  {
    if i < |l| {
      PermutationsCount(Remove(l, i));
      ChoicesCount(l, i + 1);
      assert (|l| - i) * Fact(|l| - 1) == Fact(|l| - 1) + (|l| - (i + 1)) * Fact(|l| - 1);
    }
  }

  lemma RemoveFacts(l: seq<nat>, i: nat)
    requires Distinct(l) && i < |l|
    ensures Distinct(Remove(l, i))
    ensures forall x :: x in Remove(l, i) ==> x in l && x != l[i]
    ensures forall x :: x in l && x != l[i] ==> x in Remove(l, i)
  {
    var r := Remove(l, i);
    forall x | x in l && x != l[i] ensures x in r {
      var k :| 0 <= k < |l| && l[k] == x;
      if k < i {
        assert r[k] == x;
      } else {
        assert r[k - 1] == x;
      }
    }
  }

  /** Every listed permutation is a permutation of l. */
  lemma {:induction false} PermutationsAre(l: seq<nat>, q: seq<nat>)
    requires Distinct(l) && q in Permutations(l)
    ensures PermOf(q, l)
    decreases |l|, |l| + 1
  {
    if l != [] {
      ChoicesAre(l, 0, q);
    }
  }

  lemma {:induction false} ChoicesAre(l: seq<nat>, i: nat, q: seq<nat>)
    requires Distinct(l) && i <= |l| && q in Choices(l, i)
    ensures PermOf(q, l) && 0 < |q| && q[0] in l[i..]
    decreases |l|, |l| - i
  {
    var rest := Permutations(Remove(l, i));
    if q in Prefixed(l[i], rest) {
      var k :| 0 <= k < |rest| && Prefixed(l[i], rest)[k] == q;
      var tail := rest[k];
      assert q == [l[i]] + tail;
      RemoveFacts(l, i);
      PermutationsAre(Remove(l, i), tail);
      assert q[1..] == tail;
      forall a, b | 0 <= a < b < |q| ensures q[a] != q[b] {
        if a > 0 {
          assert q[a] == tail[a - 1] && q[b] == tail[b - 1];
        } else {
          assert q[b] == tail[b - 1] && tail[b - 1] in Remove(l, i);
        }
      }
      forall a | 0 <= a < |q| ensures q[a] in l {
        if a > 0 {
          assert q[a] == tail[a - 1] && tail[a - 1] in Remove(l, i);
        }
      }
      assert l[i..][0] == q[0];
    } else {
      ChoicesAre(l, i + 1, q);
      var z :| 0 <= z < |l[i + 1..]| && l[i + 1..][z] == q[0];
      assert l[i..][z + 1] == q[0];
    }
  }

  /** Every permutation of l is listed. */
  lemma {:induction false} AllPermutations(l: seq<nat>, q: seq<nat>)
    requires Distinct(l) && PermOf(q, l)
    ensures q in Permutations(l)
    decreases |l|, |l| + 1
  {
    if l == [] {
      assert q == [];
    } else {
      assert q[0] in l;
      var j :| 0 <= j < |l| && l[j] == q[0];
      AllChoices(l, 0, j, q);
    }
  }

  lemma {:induction false} AllChoices(l: seq<nat>, i: nat, j: nat, q: seq<nat>)
    requires Distinct(l) && PermOf(q, l) && i <= j < |l| && q[0] == l[j]
    ensures q in Choices(l, i)
    decreases |l|, |l| - i
  {
    if i == j {
      RemoveFacts(l, j);
      var tail := q[1..];
      forall a | 0 <= a < |tail| ensures tail[a] in Remove(l, j) {
        assert tail[a] == q[a + 1] && q[a + 1] != q[0];
      }
      assert PermOf(tail, Remove(l, j));
      AllPermutations(Remove(l, j), tail);
      var rest := Permutations(Remove(l, j));
      var k :| 0 <= k < |rest| && rest[k] == tail;
      assert Prefixed(l[j], rest)[k] == q;
    } else {
      AllChoices(l, i + 1, j, q);
    }
  }

  /** The permutations of range(n) are exactly the listed ones. */
  lemma PermsAreAllPerms(n: nat, q: seq<nat>)
    ensures q in Perms(n) <==> IsPerm(q, n)
  {
    PermOfRange(q, n);
    if q in Perms(n) {
      PermutationsAre(Range(n), q);
    }
    if IsPerm(q, n) {
      AllPermutations(Range(n), q);
    }
  }

  // ---------------------------------------------------------------------
  // Lexicographic order

  /** Strict lexicographic order on tuples of the same length. */
  predicate LexLess(a: seq<nat>, b: seq<nat>)
    decreases |a|
  {
    0 < |a| && 0 < |b| && (a[0] < b[0] || (a[0] == b[0] && LexLess(a[1..], b[1..])))
  }

  predicate LexSorted(ps: seq<seq<nat>>) {
    forall a, b :: 0 <= a < b < |ps| ==> LexLess(ps[a], ps[b])
  }

  predicate Increasing(l: seq<nat>) {
    forall a, b :: 0 <= a < b < |l| ==> l[a] < l[b]
  }

  lemma {:induction false} LexIrreflexive(a: seq<nat>)
    ensures !LexLess(a, a)
    decreases |a|
  {
    if 0 < |a| {
      LexIrreflexive(a[1..]);
    }
  }

  lemma PrefixedSorted(x: nat, ps: seq<seq<nat>>)
    requires LexSorted(ps)
    ensures LexSorted(Prefixed(x, ps))
  {
    var r := Prefixed(x, ps);
    forall a, b | 0 <= a < b < |r| ensures LexLess(r[a], r[b]) {
      assert r[a][1..] == ps[a] && r[b][1..] == ps[b];
    }
  }

  lemma SortedConcat(p: seq<seq<nat>>, q: seq<seq<nat>>)
    requires LexSorted(p) && LexSorted(q)
    requires forall a, b :: 0 <= a < |p| && 0 <= b < |q| ==> LexLess(p[a], q[b])
    ensures LexSorted(p + q)
  {
  }

  /** `itertools.permutations` of an increasing list is in lexicographic order. */
  lemma {:induction false} PermutationsSorted(l: seq<nat>)
    requires Increasing(l)
    ensures LexSorted(Permutations(l))
    decreases |l|, |l| + 1
  {
    if l != [] {
      ChoicesSorted(l, 0);
    }
  }

  lemma {:induction false} ChoicesSorted(l: seq<nat>, i: nat)
    requires Increasing(l) && i <= |l|
    ensures LexSorted(Choices(l, i))
    decreases |l|, |l| - i
  {
    if i < |l| {
      var rest := Permutations(Remove(l, i));
      assert Increasing(Remove(l, i)) by {
        var r := Remove(l, i);
        forall a, b | 0 <= a < b < |r| ensures r[a] < r[b] {
          var a' := if a < i then a else a + 1;
          var b' := if b < i then b else b + 1;
          assert r[a] == l[a'] && r[b] == l[b'];
        }
      }
      PermutationsSorted(Remove(l, i));
      PrefixedSorted(l[i], rest);
      ChoicesSorted(l, i + 1);
      var p, q := Prefixed(l[i], rest), Choices(l, i + 1);
      forall a, b | 0 <= a < |p| && 0 <= b < |q| ensures LexLess(p[a], q[b]) {
        assert q[b] in q;
        ChoicesAre(l, i + 1, q[b]);
        var z :| 0 <= z < |l[i + 1..]| && l[i + 1..][z] == q[b][0];
        assert l[i] < l[i + 1 + z];
        assert p[a][0] == l[i];
      }
      SortedConcat(p, q);
    }
  }

  /** The first permutation listed is l itself, the identity for range(n). */
  lemma {:induction false} FirstIsInput(l: seq<nat>)
    ensures |Permutations(l)| > 0 && Permutations(l)[0] == l
    decreases |l|
  {
    PermutationsCount(l);
    if l != [] {
      var r := Remove(l, 0);
      assert r == l[1..];
      FirstIsInput(r);
      PermutationsCount(r);
      assert Choices(l, 0)[0] == Prefixed(l[0], Permutations(r))[0];
    }
  }

  /** The listed permutations are distinct. */
  lemma SortedDistinct(ps: seq<seq<nat>>)
    requires LexSorted(ps)
    ensures forall a, b :: 0 <= a < |ps| && 0 <= b < |ps| && ps[a] == ps[b] ==> a == b
  {
    forall a, b | 0 <= a < b < |ps| ensures ps[a] != ps[b] {
      LexIrreflexive(ps[a]);
    }
  }

  /** Facts about perms for range(n): n! of them, in lexicographic order,
      each a permutation, the first one the identity. */
  lemma PermsFacts(n: nat)
    ensures |Perms(n)| == Fact(n)
    ensures LexSorted(Perms(n))
    ensures forall i :: 0 <= i < |Perms(n)| ==> IsPerm(Perms(n)[i], n)
    ensures Perms(n)[0] == Range(n)
  {
    PermutationsCount(Range(n));
    PermutationsSorted(Range(n));
    FirstIsInput(Range(n));
    forall i | 0 <= i < |Perms(n)| ensures IsPerm(Perms(n)[i], n) {
      PermsAreAllPerms(n, Perms(n)[i]);
    }
  }

  // ---------------------------------------------------------------------
  // index_map and the table

  /** `{p: i for i, p in enumerate(perms)}`: later entries overwrite earlier ones. */
  function IndexMap(ps: seq<seq<nat>>): (m: map<seq<nat>, nat>)
    ensures forall q :: q in m <==> q in ps
    ensures forall q :: q in m ==> m[q] < |ps| && ps[m[q]] == q
  {
    if ps == [] then map[]
    else IndexMap(ps[..|ps| - 1])[ps[|ps| - 1] := |ps| - 1]
  }

  /** The index of each listed permutation is its position. */
  lemma IndexOfPerm(n: nat, i: nat)
    requires i < |Perms(n)|
    ensures Perms(n)[i] in IndexMap(Perms(n)) && IndexMap(Perms(n))[Perms(n)[i]] == i
  {
    PermsFacts(n);
    SortedDistinct(Perms(n));
  }

  /** Entry (i, j) of the table: the index of perms[i] after perms[j]. */
  function Entry(n: nat, i: nat, j: nat): (e: nat)
    requires i < |Perms(n)| && j < |Perms(n)|
    ensures e < |Perms(n)|
    ensures IsPerm(Perms(n)[i], n) && IsPerm(Perms(n)[j], n)
    ensures Perms(n)[e] == Compose(Perms(n)[i], Perms(n)[j])
  {
    PermsFacts(n);
    var c := Compose(Perms(n)[i], Perms(n)[j]);
    ComposeIsPerm(Perms(n)[i], Perms(n)[j], n);
    PermsAreAllPerms(n, c);
    IndexMap(Perms(n))[c]
  }

  /** Looking the composition up in index_map gives the entry. */
  lemma EntryLookup(n: nat, i: nat, j: nat)
    requires i < |Perms(n)| && j < |Perms(n)|
    ensures IsPerm(Perms(n)[i], n) && IsPerm(Perms(n)[j], n)
    ensures Compose(Perms(n)[i], Perms(n)[j]) in IndexMap(Perms(n))
    ensures IndexMap(Perms(n))[Compose(Perms(n)[i], Perms(n)[j])] == Entry(n, i, j)
  {
    var e := Entry(n, i, j);
    IndexOfPerm(n, e);
  }

  /** `permutation_multiplication_table(n)`: the permutations and the table,
      filled entry by entry in two nested loops. */
  method MultiplicationTable(n: nat) returns (perms: seq<seq<nat>>, table: array2<nat>)
    ensures perms == Perms(n) && |perms| == Fact(n)
    ensures table.Length0 == |perms| && table.Length1 == |perms|
    ensures forall i, j :: 0 <= i < |perms| && 0 <= j < |perms| ==> table[i, j] == Entry(n, i, j)
    ensures Rows(table) == TableRows(n)
  {
    perms := Perms(n);
    PermutationsCount(Range(n));
    var indexMap := IndexMap(perms);
    var size := |perms|;
    table := new nat[size, size]((i, j) => 0);
    for i := 0 to size
      invariant forall a, b :: 0 <= a < i && 0 <= b < size ==> table[a, b] == Entry(n, a, b)
    {
      for j := 0 to size
        invariant forall a, b :: 0 <= a < i && 0 <= b < size ==> table[a, b] == Entry(n, a, b)
        invariant forall b :: 0 <= b < j ==> table[i, b] == Entry(n, i, b)
      {
        EntryLookup(n, i, j);
        var composed := Compose(perms[i], perms[j]);
        table[i, j] := indexMap[composed];
      }
    }
    assert forall i :: 0 <= i < size ==> Rows(table)[i] == TableRows(n)[i];
  }

  /** The rows of a two-dimensional array, as the list of lists
      `print_table` receives. */
  function Rows(table: array2<nat>): (rows: seq<seq<nat>>)
    reads table
    ensures |rows| == table.Length0
    ensures forall i :: 0 <= i < table.Length0 ==> |rows[i]| == table.Length1
    ensures forall i, j :: 0 <= i < table.Length0 && 0 <= j < table.Length1 ==> rows[i][j] == table[i, j]
  {
    seq(table.Length0, i requires 0 <= i < table.Length0 reads table =>
      seq(table.Length1, j requires 0 <= j < table.Length1 reads table => table[i, j]))
  }

  /** Index 0, the identity, is a two-sided unit of the table. */
  lemma IdentityIsUnit(n: nat, i: nat)
    requires i < |Perms(n)|
    ensures 0 < |Perms(n)|
    ensures Entry(n, 0, i) == i && Entry(n, i, 0) == i
  {
    PermsFacts(n);
    var p := Perms(n)[i];
    ComposeIdentity(p, n);
    SortedDistinct(Perms(n));
  }

  function Row(n: nat, i: nat): (r: seq<nat>)
    requires i < |Perms(n)|
    ensures |r| == |Perms(n)|
    ensures forall j :: 0 <= j < |r| ==> r[j] == Entry(n, i, j)
  {
    seq(|Perms(n)|, j requires 0 <= j < |Perms(n)| => Entry(n, i, j))
  }

  function Column(n: nat, j: nat): (c: seq<nat>)
    requires j < |Perms(n)|
    ensures |c| == |Perms(n)|
    ensures forall i :: 0 <= i < |c| ==> c[i] == Entry(n, i, j)
  {
    seq(|Perms(n)|, i requires 0 <= i < |Perms(n)| => Entry(n, i, j))
  }

  /** The whole table as a list of rows. */
  function TableRows(n: nat): (t: seq<seq<nat>>)
    ensures |t| == |Perms(n)|
    ensures forall i :: 0 <= i < |t| ==> t[i] == Row(n, i)
  {
    seq(|Perms(n)|, i requires 0 <= i < |Perms(n)| => Row(n, i))
  }

  /** Every row of the table is a permutation of 0 .. size-1. */
  lemma RowIsPermutation(n: nat, i: nat)
    requires i < |Perms(n)|
    ensures IsPerm(Row(n, i), |Perms(n)|)
  {
    PermsFacts(n);
    SortedDistinct(Perms(n));
    var r := Row(n, i);
    forall a, b | 0 <= a < b < |r| ensures r[a] != r[b] {
      if r[a] == r[b] {
        CancelLeft(Perms(n)[i], Perms(n)[a], Perms(n)[b], n);
      }
    }
  }

  /** Every column of the table is a permutation of 0 .. size-1. */
  lemma ColumnIsPermutation(n: nat, j: nat)
    requires j < |Perms(n)|
    ensures IsPerm(Column(n, j), |Perms(n)|)
  {
    PermsFacts(n);
    SortedDistinct(Perms(n));
    var c := Column(n, j);
    forall a, b | 0 <= a < b < |c| ensures c[a] != c[b] {
      if c[a] == c[b] {
        CancelRight(Perms(n)[a], Perms(n)[b], Perms(n)[j], n);
      }
    }
  }

  // ---------------------------------------------------------------------
  // print_table and perm_to_string

  /** `chr(i + 97)`: the letters a, b, c, ... */
  function Letter(i: nat): char
    requires i + 97 < 0xD800
  {
    (i + 97) as char
  }

  /** `f"{chr(i + 97):2}"`: the letter padded to width two. */
  function Label(i: nat): (s: string)
    requires i + 97 < 0xD800
    ensures |s| == 2 && s[0] == Letter(i)
  {
    [Letter(i), ' ']
  }

  /** The cells for columns k .. size-1: "   1" at column t, "   0" elsewhere. */
  function Cells(t: nat, k: nat, size: nat): (s: string)
    decreases size - k
  {
    if k >= size then "" else (if k == t then "   1" else "   0") + Cells(t, k + 1, size)
  }

  lemma {:induction false} CellsAt(t: nat, k0: nat, size: nat, k: nat)
    requires k0 <= k < size
    ensures |Cells(t, k0, size)| == 4 * (size - k0)
    ensures Cells(t, k0, size)[4 * (k - k0) + 3] == (if k == t then '1' else '0')
    ensures Cells(t, k0, size)[4 * (k - k0)..4 * (k - k0) + 3] == "   "
    decreases size - k0
  {
    if k0 + 1 < size {
      CellsSize(t, k0 + 1, size);
    }
    if k > k0 {
      CellsAt(t, k0 + 1, size, k);
    }
  }

  lemma {:induction false} CellsSize(t: nat, k0: nat, size: nat)
    ensures |Cells(t, k0, size)| == if k0 >= size then 0 else 4 * (size - k0)
    decreases size - k0
  {
    if k0 < size {
      CellsSize(t, k0 + 1, size);
    }
  }

  /** The header cells "   c", "   d", ... for the columns i+2 .. count+1. */
  function HeaderCells(i: nat, count: nat): string
    requires count + 99 < 0xD800
    decreases count - i
  {
    if i >= count then "" else "   " + [(i + 99) as char] + HeaderCells(i + 1, count)
  }

  /** Every row reaches at least as far as the number of rows. */
  predicate Square(table: seq<seq<nat>>) {
    forall i :: 0 <= i < |table| ==> |table[i]| >= |table|
  }

  /** The line printed for row i and column j >= 2: the two labels, then one
      cell for each column k >= 2. */
  function RowLine(table: seq<seq<nat>>, i: nat, j: nat): (line: string)
    requires Square(table) && i < |table| && j < |table| && |table| + 97 < 0xD800
  {
    Label(i) + " * " + Label(j) + Cells(table[i][j], 2, |table|)
  }

  /** The lines of row i, for the columns 2 .. size-1. */
  function RowLines(table: seq<seq<nat>>, i: nat): (lines: seq<string>)
    requires Square(table) && i < |table| && |table| + 97 < 0xD800
    ensures |lines| == if |table| <= 2 then 0 else |table| - 2
    ensures forall j :: 2 <= j < |table| ==> lines[j - 2] == RowLine(table, i, j)
  {
    if |table| <= 2 then []
    else seq(|table| - 2, x requires 0 <= x < |table| - 2 => RowLine(table, i, x + 2))
  }

  /** The lines of every row, one block per row. */
  function RowBlocks(table: seq<seq<nat>>): (blocks: seq<seq<string>>)
    requires Square(table) && |table| + 97 < 0xD800
    ensures |blocks| == |table|
    ensures forall i :: 0 <= i < |table| ==> blocks[i] == RowLines(table, i)
    ensures |table| > 2 ==> Uniform(blocks, |table| - 2)
  {
    seq(|table|, i requires 0 <= i < |table| => RowLines(table, i))
  }

  /** Every block is w long. */
  predicate Uniform<T>(blocks: seq<seq<T>>, w: nat) {
    forall d :: 0 <= d < |blocks| ==> |blocks[d]| == w
  }

  /** The blocks one after another. */
  function Flatten<T>(blocks: seq<seq<T>>): seq<T> {
    if blocks == [] then [] else blocks[0] + Flatten(blocks[1..])
  }

  /** The body of the table: the lines of row 0, then row 1, and so on. */
  function BodyLines(table: seq<seq<nat>>): seq<string>
    requires Square(table) && |table| + 97 < 0xD800
  {
    Flatten(RowBlocks(table))
  }

  const TITLE: string := "Permutation Multiplication Table (entries are indices of the resulting permutations):"

  /** `print_table(perms, table)`, as the list of printed lines. */
  function PrintTable(perms: seq<seq<nat>>, table: seq<seq<nat>>): (lines: seq<string>)
    requires Square(table) && |table| + 97 < 0xD800 && |perms| + 97 < 0xD800
  {
    var header := "       " + HeaderCells(0, if |perms| >= 2 then |perms| - 2 else 0);
    [TITLE, "", header]
    + BodyLines(table)
  }

  lemma MulSucc(a: nat, w: nat)
    requires a >= 1
    ensures a * w == w + (a - 1) * w
  {
  }

  /** Blocks of w elements each flatten to |blocks| * w elements. */
  lemma {:induction false} FlattenSize<T>(blocks: seq<seq<T>>, w: nat)
    requires Uniform(blocks, w)
    ensures |Flatten(blocks)| == |blocks| * w
  {
    if blocks != [] {
      FlattenSize(blocks[1..], w);
      MulSucc(|blocks|, w);
    }
  }

  /** After a head of three, element x of block d sits at 3 + d * w + x. */
  lemma HeadThenBlocks<T>(head: seq<T>, blocks: seq<seq<T>>, w: nat, d: nat, x: nat)
    requires |head| == 3 && Uniform(blocks, w)
    requires d < |blocks| && x < w
    ensures |head + Flatten(blocks)| == 3 + |blocks| * w
    ensures 3 + d * w + x < |head + Flatten(blocks)|
    ensures (head + Flatten(blocks))[3 + d * w + x] == blocks[d][x]
  {
    FlattenSize(blocks, w);
    FlattenAt(blocks, w, d, x);
  }

  /** With every block w long, element x of block d sits at d * w + x. */
  lemma {:induction false} FlattenAt<T>(blocks: seq<seq<T>>, w: nat, d: nat, x: nat)
    requires Uniform(blocks, w)
    requires d < |blocks| && x < w
    ensures d * w + x < |Flatten(blocks)|
    ensures Flatten(blocks)[d * w + x] == blocks[d][x]
  {
    FlattenSize(blocks[1..], w);
    if d > 0 {
      FlattenAt(blocks[1..], w, d - 1, x);
      MulSucc(d, w);
    }
  }

  /** The lines after the two title lines and the header are the body lines. */
  lemma PrintTableBody(perms: seq<seq<nat>>, table: seq<seq<nat>>, x: nat)
    requires Square(table) && |table| + 97 < 0xD800 && |perms| + 97 < 0xD800
    requires x < |BodyLines(table)|
    ensures |PrintTable(perms, table)| == 3 + |BodyLines(table)|
    ensures PrintTable(perms, table)[3 + x] == BodyLines(table)[x]
  {
  }

  /** The line for row i and column j is the two labels, " * " between them,
      then the cells, the one for column k >= 2 holding 1 exactly when k is
      table[i][j]. */
  lemma RowLineCell(table: seq<seq<nat>>, i: nat, j: nat, k: nat)
    requires Square(table) && |table| + 97 < 0xD800
    requires i < |table| && 2 <= j < |table| && 2 <= k < |table|
    ensures |RowLine(table, i, j)| == 7 + 4 * (|table| - 2)
    ensures RowLine(table, i, j)[..7] == [Letter(i), ' ', ' ', '*', ' ', Letter(j), ' ']
    ensures RowLine(table, i, j)[7 + 4 * (k - 2) + 3] == (if k == table[i][j] then '1' else '0')
  {
    var cells := Cells(table[i][j], 2, |table|);
    CellsAt(table[i][j], 2, |table|, k);
    var prefix := Label(i) + " * " + Label(j);
    assert prefix == [Letter(i), ' ', ' ', '*', ' ', Letter(j), ' '];
    assert RowLine(table, i, j) == prefix + cells;
    assert (prefix + cells)[7 + 4 * (k - 2) + 3] == cells[4 * (k - 2) + 3];
  }

  /** Line 3 + i*(size-2) + (j-2) is the one for row i and column j >= 2;
      columns 0 and 1 get no line. */
  lemma PrintedLine(perms: seq<seq<nat>>, table: seq<seq<nat>>, i: nat, j: nat)
    requires Square(table) && |table| + 97 < 0xD800 && |perms| + 97 < 0xD800
    requires i < |table| && 2 <= j < |table|
    ensures |PrintTable(perms, table)| == 3 + |table| * (|table| - 2)
    ensures 3 + i * (|table| - 2) + (j - 2) < |PrintTable(perms, table)|
    ensures PrintTable(perms, table)[3 + i * (|table| - 2) + (j - 2)] == RowLine(table, i, j)
  {
    var head := PrintTable(perms, table)[..3];
    assert PrintTable(perms, table) == head + Flatten(RowBlocks(table));
    HeadThenBlocks(head, RowBlocks(table), |table| - 2, i, j - 2);
  }

  /** Printing the table the tool builds: the line for row i and column
      j >= 2 has its 1 in the column of the index of perms[i] after perms[j],
      and nowhere else. */
  lemma PrintedProduct(n: nat, i: nat, j: nat, k: nat)
    requires |Perms(n)| + 97 < 0xD800
    requires i < |Perms(n)| && 2 <= j < |Perms(n)| && 2 <= k < |Perms(n)|
    ensures Square(TableRows(n))
    ensures |RowLine(TableRows(n), i, j)| == 7 + 4 * (|Perms(n)| - 2)
    ensures RowLine(TableRows(n), i, j)[7 + 4 * (k - 2) + 3] == (if k == Entry(n, i, j) then '1' else '0')
  {
    var t := TableRows(n);
    assert t[i][j] == Entry(n, i, j);
    RowLineCell(t, i, j, k);
  }

  /** `str(p)` for each entry, concatenated. */
  function Digits(perm: seq<nat>): string {
    if perm == [] then "" else Digits(perm[..|perm| - 1]) + Text.Digits(perm[|perm| - 1])
  }

  /** `perm_to_string(perm)`: appends the decimal digits of each entry. */
  method PermToString(perm: seq<nat>) returns (out: string)
    ensures out == Digits(perm)
    ensures (forall k :: 0 <= k < |perm| ==> perm[k] < 10) ==>
              |out| == |perm| && forall k :: 0 <= k < |perm| ==> out[k] == ('0' as int + perm[k]) as char
  {
    out := "";
    for i := 0 to |perm|
      invariant out == Digits(perm[..i])
    {
      assert perm[..i + 1][..i] == perm[..i];
      out := out + Text.Digits(perm[i]);
    }
    assert perm[..|perm|] == perm;
    SingleDigits(perm);
  }

  /** With entries below ten, the string has one digit per entry. */
  lemma {:induction false} SingleDigits(perm: seq<nat>)
    ensures (forall k :: 0 <= k < |perm| ==> perm[k] < 10) ==>
              |Digits(perm)| == |perm| && forall k :: 0 <= k < |perm| ==> Digits(perm)[k] == ('0' as int + perm[k]) as char
  {
    if perm != [] && forall k :: 0 <= k < |perm| ==> perm[k] < 10 {
      var init := perm[..|perm| - 1];
      SingleDigits(init);
    }
  }

  /** Reading the single digits back gives the permutation. */
  lemma DigitsRoundTrip(perm: seq<nat>)
    requires forall k :: 0 <= k < |perm| ==> perm[k] < 10
    ensures |Digits(perm)| == |perm|
    ensures forall k :: 0 <= k < |perm| ==> Text.AllDigits([Digits(perm)[k]])
    ensures forall k :: 0 <= k < |perm| ==> Text.DigitsValue([Digits(perm)[k]]) == perm[k]
  {
    SingleDigits(perm);
    forall k | 0 <= k < |perm| ensures Text.AllDigits([Digits(perm)[k]]) {
      assert Text.IsDigit(Digits(perm)[k]);
    }
  }
}
