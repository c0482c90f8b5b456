/**
 * The sorted view of the data table: a copy of the records ordered by the
 * active column's field, nulls last, direction flipping only the comparison
 * of two present values, ties kept in input order (a stable sort).
 *
 * The sort is described on positions: `SortOrder` lists the positions of
 * `data` in display order, and the view is `data` read in that order. The
 * order used is "the comparator says less, or it says equal and the position
 * comes first"; a stable sort with the comparator produces exactly this
 * order (`SortOrderUnique`).
 */
module TableSort {
  import opened Options

  /**
   * A record: its `id` property, if any, and its other fields by name (a
   * missing name is `null`/`undefined`). The `id` property is read under
   * the name `IdKey` like any other field.
   */
  datatype Row = Row(id: Option<int>, fields: map<string, int>)

  const IdKey := "id"

  datatype Direction = Asc | Desc

  /** The sort state: no sort, or a field and a direction. */
  datatype SortState = Unsorted | SortedBy(key: string, direction: Direction)

  /** The record's value for a field (`record[key]`); `None` when the field is missing. */
  function FieldValue(r: Row, key: string): (v: Option<int>)
    ensures key == IdKey ==> v == r.id
    ensures key != IdKey ==> (v.Some? <==> key in r.fields) && (v.Some? ==> v.value == r.fields[key])
  {
    if key == IdKey then r.id
    else if key in r.fields then Some(r.fields[key])
    else None
  }

  /** The comparator handed to the sort. */
  function Compare(av: Option<int>, bv: Option<int>, dir: Direction): (c: int)
    ensures c == -1 || c == 0 || c == 1
    ensures c == 0 <==> av == bv
    // a missing value goes after a present one, whatever the direction
    ensures av.None? && bv.Some? ==> c == 1
    ensures av.Some? && bv.None? ==> c == -1
    // the direction only decides between two present values
    ensures av.Some? && bv.Some? && dir == Asc ==> (c < 0 <==> av.value < bv.value)
    ensures av.Some? && bv.Some? && dir == Desc ==> (c < 0 <==> av.value > bv.value)
  {
    if av.None? && bv.None? then 0
    else if av.None? then 1
    else if bv.None? then -1
    else if av.value < bv.value then (if dir == Asc then -1 else 1)
    else if av.value > bv.value then (if dir == Asc then 1 else -1)
    else 0
  }

  /** Position `i` of `data` is displayed before position `j`. */
  predicate Before(data: seq<Row>, key: string, dir: Direction, i: nat, j: nat)
    requires i < |data| && j < |data|
  {
    var c := Compare(FieldValue(data[i], key), FieldValue(data[j], key), dir);
    c < 0 || (c == 0 && i < j)
  }

  lemma BeforeIrreflexive(data: seq<Row>, key: string, dir: Direction, i: nat)
    requires i < |data|
    ensures !Before(data, key, dir, i, i)
  {
  }

  lemma BeforeTotal(data: seq<Row>, key: string, dir: Direction, i: nat, j: nat)
    requires i < |data| && j < |data| && i != j
    ensures Before(data, key, dir, i, j) != Before(data, key, dir, j, i)
  {
  }

  lemma BeforeTransitive(data: seq<Row>, key: string, dir: Direction, i: nat, j: nat, k: nat)
    requires i < |data| && j < |data| && k < |data|
    requires Before(data, key, dir, i, j) && Before(data, key, dir, j, k)
    ensures Before(data, key, dir, i, k)
  {
  }

  /** Every entry of `p` is a position of `data`. */
  predicate InRange(data: seq<Row>, p: seq<nat>)
  {
    forall k :: 0 <= k < |p| ==> p[k] < |data|
  }

  /** `p` lists positions in display order (strictly, so without repetition). */
  predicate StrictlySorted(data: seq<Row>, key: string, dir: Direction, p: seq<nat>)
    requires InRange(data, p)
  {
    forall a, b :: 0 <= a < b < |p| ==> Before(data, key, dir, p[a], p[b])
  }

  lemma HeadBeforeTail(data: seq<Row>, key: string, dir: Direction, p: seq<nat>, x: nat)
    requires InRange(data, p) && StrictlySorted(data, key, dir, p)
    requires |p| > 0 && x in p[1..]
    ensures x < |data| && Before(data, key, dir, p[0], x)
  {
    var k :| 0 <= k < |p[1..]| && p[1..][k] == x;
    assert p[k + 1] == x;
  }

  /** Inserts position `i` into `p` in front of the first position it is displayed before. */
  function Insert(data: seq<Row>, key: string, dir: Direction, i: nat, p: seq<nat>): (q: seq<nat>)
    requires i < |data| && InRange(data, p)
    ensures |q| == |p| + 1 && InRange(data, q)
    ensures multiset(q) == multiset(p) + multiset{i}
    decreases |p|
  {
    if p == [] || Before(data, key, dir, i, p[0]) then [i] + p
    else
      var r := Insert(data, key, dir, i, p[1..]);
      assert p == [p[0]] + p[1..];
      [p[0]] + r
  }

  lemma InsertMembers(data: seq<Row>, key: string, dir: Direction, i: nat, p: seq<nat>)
    requires i < |data| && InRange(data, p)
    ensures forall x: nat :: x in Insert(data, key, dir, i, p) <==> x in p || x == i
  {
    var q := Insert(data, key, dir, i, p);
    forall x: nat ensures x in q <==> x in p || x == i {
      assert x in q <==> x in multiset(q);
      assert x in p <==> x in multiset(p);
    }
  }

  lemma InsertFrontSorted(data: seq<Row>, key: string, dir: Direction, i: nat, p: seq<nat>)
    requires i < |data| && InRange(data, p) && StrictlySorted(data, key, dir, p)
    requires p != [] && Before(data, key, dir, i, p[0])
    ensures InRange(data, [i] + p) && StrictlySorted(data, key, dir, [i] + p)
  {
    var q := [i] + p;
    forall a, b | 0 <= a < b < |q| ensures Before(data, key, dir, q[a], q[b]) {
      if a == 0 && b > 1 {
        BeforeTransitive(data, key, dir, i, p[0], p[b - 1]);
      }
    }
  }

  lemma InsertLaterSorted(data: seq<Row>, key: string, dir: Direction, i: nat, p: seq<nat>, r: seq<nat>)
    requires i < |data| && InRange(data, p) && StrictlySorted(data, key, dir, p)
    requires p != [] && Before(data, key, dir, p[0], i)
    requires InRange(data, r) && StrictlySorted(data, key, dir, r)
    requires multiset(r) == multiset(p[1..]) + multiset{i}
    ensures InRange(data, [p[0]] + r) && StrictlySorted(data, key, dir, [p[0]] + r)
  {
    var q := [p[0]] + r;
    forall a, b | 0 <= a < b < |q| ensures Before(data, key, dir, q[a], q[b]) {
      if a == 0 {
        var x := q[b];
        assert x == r[b - 1];
        assert x in multiset(r);
        if x != i {
          assert x in multiset(p[1..]);
          HeadBeforeTail(data, key, dir, p, x);
        }
      } else {
        assert q[a] == r[a - 1] && q[b] == r[b - 1];
      }
    }
  }

  lemma {:induction false} InsertSorted(data: seq<Row>, key: string, dir: Direction, i: nat, p: seq<nat>)
    requires i < |data| && InRange(data, p) && StrictlySorted(data, key, dir, p) && i !in p
    ensures StrictlySorted(data, key, dir, Insert(data, key, dir, i, p))
    decreases |p|
  {
    if p != [] {
      if Before(data, key, dir, i, p[0]) {
        InsertFrontSorted(data, key, dir, i, p);
      } else {
        assert i !in p[1..];
        InsertSorted(data, key, dir, i, p[1..]);
        BeforeTotal(data, key, dir, i, p[0]);
        InsertLaterSorted(data, key, dir, i, p, Insert(data, key, dir, i, p[1..]));
      }
    }
  }

  /** The display order of the first `n` positions of `data`: each inserted in turn. */
  function SortIndices(data: seq<Row>, key: string, dir: Direction, n: nat): (p: seq<nat>)
    requires n <= |data|
    ensures |p| == n && InRange(data, p)
  {
    if n == 0 then [] else Insert(data, key, dir, n - 1, SortIndices(data, key, dir, n - 1))
  }

  /** `SortIndices` lists each of the first `n` positions once, in display order. */
  lemma {:induction false} SortIndicesSorted(data: seq<Row>, key: string, dir: Direction, n: nat)
    requires n <= |data|
    ensures forall x: nat :: x in SortIndices(data, key, dir, n) <==> x < n
    ensures StrictlySorted(data, key, dir, SortIndices(data, key, dir, n))
  {
    if n > 0 {
      var p := SortIndices(data, key, dir, n - 1);
      SortIndicesSorted(data, key, dir, n - 1);
      InsertSorted(data, key, dir, n - 1, p);
      InsertMembers(data, key, dir, n - 1, p);
    }
  }

  /** The display order of all of `data`. */
  function SortOrder(data: seq<Row>, key: string, dir: Direction): (p: seq<nat>)
    ensures |p| == |data| && InRange(data, p)
  {
    SortIndices(data, key, dir, |data|)
  }

  lemma SortOrderSorted(data: seq<Row>, key: string, dir: Direction)
    ensures forall x: nat :: x in SortOrder(data, key, dir) <==> x < |data|
    ensures StrictlySorted(data, key, dir, SortOrder(data, key, dir))
  {
    SortIndicesSorted(data, key, dir, |data|);
  }

  /** `data` read in the order `p`. */
  function Permute(data: seq<Row>, p: seq<nat>): (view: seq<Row>)
    requires InRange(data, p)
    ensures |view| == |p|
    ensures forall k :: 0 <= k < |p| ==> view[k] == data[p[k]]
  {
    if p == [] then [] else [data[p[0]]] + Permute(data, p[1..])
  }

  /** The rows the table displays (`sorted` in the component). */
  function SortedView(data: seq<Row>, sort: SortState): (view: seq<Row>)
    ensures |view| == |data|
    ensures sort.Unsorted? ==> view == data
    ensures sort.SortedBy? ==>
      forall k :: 0 <= k < |view| ==> view[k] == data[SortOrder(data, sort.key, sort.direction)[k]]
  {
    match sort
    case Unsorted => data
    case SortedBy(key, dir) => Permute(data, SortOrder(data, key, dir))
  }

  // ---------------------------------------------------------------------
  // The sorted view is a permutation of the data.

  lemma ConsMultiset<T>(x: T, a: seq<T>, b: seq<T>, extra: T)
    requires multiset(a) == multiset(b) + multiset{extra}
    ensures multiset([x] + a) == multiset([x] + b) + multiset{extra}
  {
  }

  lemma {:induction false} PermuteInsert(data: seq<Row>, key: string, dir: Direction, i: nat, p: seq<nat>)
    requires i < |data| && InRange(data, p)
    ensures multiset(Permute(data, Insert(data, key, dir, i, p)))
         == multiset(Permute(data, p)) + multiset{data[i]}
    decreases |p|
  {
    if p == [] || Before(data, key, dir, i, p[0]) {
      assert Insert(data, key, dir, i, p) == [i] + p;
      assert Permute(data, [i] + p) == [data[i]] + Permute(data, p);
    } else {
      PermuteInsert(data, key, dir, i, p[1..]);
      var r := Insert(data, key, dir, i, p[1..]);
      assert Insert(data, key, dir, i, p) == [p[0]] + r;
      assert Permute(data, [p[0]] + r) == [data[p[0]]] + Permute(data, r);
      assert Permute(data, p) == [data[p[0]]] + Permute(data, p[1..]);
      ConsMultiset(data[p[0]], Permute(data, r), Permute(data, p[1..]), data[i]);
    }
  }

  /** If `before` holds the first `n - 1` elements of `s`, `after` adds the next one, then `after` holds the first `n`. */
  lemma PrefixSnoc<T>(s: seq<T>, n: nat, before: multiset<T>, after: multiset<T>)
    requires 0 < n <= |s|
    requires before == multiset(s[..n - 1]) && after == before + multiset{s[n - 1]}
    ensures after == multiset(s[..n])
  {
    assert s[..n] == s[..n - 1] + [s[n - 1]];
  }

  lemma SortIndicesStep(data: seq<Row>, key: string, dir: Direction, m: nat)
    requires m < |data|
    ensures multiset(Permute(data, SortIndices(data, key, dir, m + 1)))
         == multiset(Permute(data, SortIndices(data, key, dir, m))) + multiset{data[m]}
  {
    PermuteInsert(data, key, dir, m, SortIndices(data, key, dir, m));
  }

  lemma {:induction false} SortIndicesPermutes(data: seq<Row>, key: string, dir: Direction, n: nat)
    requires n <= |data|
    ensures multiset(Permute(data, SortIndices(data, key, dir, n))) == multiset(data[..n])
  {
    if n > 0 {
      var m := n - 1;
      SortIndicesPermutes(data, key, dir, m);
      SortIndicesStep(data, key, dir, m);
      PrefixSnoc(data, n, multiset(Permute(data, SortIndices(data, key, dir, m))),
                          multiset(Permute(data, SortIndices(data, key, dir, m + 1))));
    } else {
      assert data[..n] == [];
    }
  }

  /** The view holds exactly the records of `data`, each as often as there. */
  lemma SortedViewIsPermutation(data: seq<Row>, sort: SortState)
    ensures multiset(SortedView(data, sort)) == multiset(data)
  {
    if sort.SortedBy? {
      SortIndicesPermutes(data, sort.key, sort.direction, |data|);
      assert data[..|data|] == data;
    }
  }

  // ---------------------------------------------------------------------
  // Order of the view.

  /** Records whose field is missing come after every record whose field is present, in both directions. */
  lemma SortedViewNullsLast(data: seq<Row>, key: string, dir: Direction, a: nat, b: nat)
    requires a < b < |data|
    ensures var view := SortedView(data, SortedBy(key, dir));
      FieldValue(view[a], key).None? ==> FieldValue(view[b], key).None?
  {
    var p := SortOrder(data, key, dir);
    SortOrderSorted(data, key, dir);
    assert Before(data, key, dir, p[a], p[b]);
  }

  /** Present values are non-decreasing ascending and non-increasing descending. */
  lemma SortedViewOrdered(data: seq<Row>, key: string, dir: Direction, a: nat, b: nat)
    requires a < b < |data|
    ensures var view := SortedView(data, SortedBy(key, dir));
      var va, vb := FieldValue(view[a], key), FieldValue(view[b], key);
      va.Some? && vb.Some? ==> if dir == Asc then va.value <= vb.value else va.value >= vb.value
  {
    var p := SortOrder(data, key, dir);
    SortOrderSorted(data, key, dir);
    assert Before(data, key, dir, p[a], p[b]);
  }

  /** Records with equal values (two missing values included) keep their input order. */
  lemma SortedViewStable(data: seq<Row>, key: string, dir: Direction, a: nat, b: nat)
    requires a < b < |data|
    ensures var p := SortOrder(data, key, dir);
      FieldValue(data[p[a]], key) == FieldValue(data[p[b]], key) ==> p[a] < p[b]
  {
    var p := SortOrder(data, key, dir);
    SortOrderSorted(data, key, dir);
    assert Before(data, key, dir, p[a], p[b]);
  }

  // ---------------------------------------------------------------------
  // Any stable sort gives this order.

  lemma FirstIsMember(q: seq<nat>)
    requires q != []
    ensures q[0] in q
  {
  }

  lemma {:induction false} StrictlySortedUnique(data: seq<Row>, key: string, dir: Direction, p: seq<nat>, q: seq<nat>)
    requires InRange(data, p) && InRange(data, q)
    requires StrictlySorted(data, key, dir, p) && StrictlySorted(data, key, dir, q)
    requires forall x: nat :: x in p <==> x in q
    ensures p == q
    decreases |p|
  {
    if p == [] {
      if q != [] {
        FirstIsMember(q);
        assert false;
      }
    } else {
      assert p[0] in q;
      assert q != [];
      assert q[0] in p;
      if p[0] != q[0] {
        assert p[0] in q[1..] by {
          var j :| 0 <= j < |q| && q[j] == p[0];
          assert j != 0;
          assert q[1..][j - 1] == p[0];
        }
        HeadBeforeTail(data, key, dir, q, p[0]);
        assert q[0] in p[1..] by {
          var j :| 0 <= j < |p| && p[j] == q[0];
          assert j != 0;
          assert p[1..][j - 1] == q[0];
        }
        HeadBeforeTail(data, key, dir, p, q[0]);
        BeforeTotal(data, key, dir, p[0], q[0]);
        assert false;
      }
      forall x: nat ensures x in p[1..] <==> x in q[1..] {
        if x in p[1..] {
          HeadBeforeTail(data, key, dir, p, x);
          BeforeIrreflexive(data, key, dir, x);
          assert x in q;
          var j :| 0 <= j < |q| && q[j] == x;
          assert j != 0;
          assert q[1..][j - 1] == x;
        }
        if x in q[1..] {
          HeadBeforeTail(data, key, dir, q, x);
          BeforeIrreflexive(data, key, dir, x);
          assert x in p;
          var j :| 0 <= j < |p| && p[j] == x;
          assert j != 0;
          assert p[1..][j - 1] == x;
        }
      }
      StrictlySortedUnique(data, key, dir, p[1..], q[1..]);
      assert p == [p[0]] + p[1..] && q == [q[0]] + q[1..];
    }
  }

  /**
   * Any listing of the positions of `data`, each once, that is ordered by the
   * comparator and keeps tied positions in input order is `SortOrder`.
   */
  lemma SortOrderUnique(data: seq<Row>, key: string, dir: Direction, q: seq<nat>)
    requires InRange(data, q) && StrictlySorted(data, key, dir, q)
    requires forall x: nat :: x < |data| ==> x in q
    ensures q == SortOrder(data, key, dir)
  {
    SortOrderSorted(data, key, dir);
    StrictlySortedUnique(data, key, dir, q, SortOrder(data, key, dir));
  }

  function Reverse<T>(s: seq<T>): (r: seq<T>)
    ensures |r| == |s| && forall k :: 0 <= k < |s| ==> r[k] == s[|s| - 1 - k]
  {
    if s == [] then [] else Reverse(s[1..]) + [s[0]]
  }

  /** Every record has the field, and no two records share a value. */
  predicate DistinctPresentValues(data: seq<Row>, key: string)
  {
    (forall i :: 0 <= i < |data| ==> FieldValue(data[i], key).Some?) &&
    (forall i, j :: 0 <= i < j < |data| ==> FieldValue(data[i], key) != FieldValue(data[j], key))
  }

  lemma FlipBefore(data: seq<Row>, key: string, x: nat, y: nat)
    requires x < |data| && y < |data|
    requires FieldValue(data[x], key).Some? && FieldValue(data[y], key).Some?
    requires FieldValue(data[x], key) != FieldValue(data[y], key)
    requires Before(data, key, Asc, y, x)
    ensures Before(data, key, Desc, x, y)
  {
  }

  /** Without ties or missing values, the ascending order read backwards is ordered descending. */
  lemma ReversedAscendingIsDescending(data: seq<Row>, key: string)
    requires DistinctPresentValues(data, key)
    ensures InRange(data, Reverse(SortOrder(data, key, Asc)))
    ensures StrictlySorted(data, key, Desc, Reverse(SortOrder(data, key, Asc)))
  {
    var up := SortOrder(data, key, Asc);
    SortOrderSorted(data, key, Asc);
    var down := Reverse(up);
    var n := |data|;
    forall a, b | 0 <= a < b < |down| ensures Before(data, key, Desc, down[a], down[b]) {
      var i, j := n - 1 - b, n - 1 - a;
      assert Before(data, key, Asc, up[i], up[j]);
      var x, y := up[j], up[i];
      if x < y {
        assert FieldValue(data[x], key) != FieldValue(data[y], key);
      } else if y < x {
        assert FieldValue(data[y], key) != FieldValue(data[x], key);
      }
      FlipBefore(data, key, x, y);
    }
  }

  lemma ReversePermute(data: seq<Row>, p: seq<nat>)
    requires InRange(data, p)
    ensures InRange(data, Reverse(p))
    ensures Permute(data, Reverse(p)) == Reverse(Permute(data, p))
  {
    var r := Reverse(p);
    forall k | 0 <= k < |r| ensures r[k] < |data| {
      assert r[k] == p[|p| - 1 - k];
    }
    var a, b := Permute(data, r), Reverse(Permute(data, p));
    forall k | 0 <= k < |a| ensures a[k] == b[k] {
      assert a[k] == data[p[|p| - 1 - k]];
    }
  }

  /** Without ties and without missing values, sorting descending reverses sorting ascending. */
  lemma DescendingReversesAscending(data: seq<Row>, key: string)
    requires DistinctPresentValues(data, key)
    ensures SortOrder(data, key, Desc) == Reverse(SortOrder(data, key, Asc))
    ensures SortedView(data, SortedBy(key, Desc)) == Reverse(SortedView(data, SortedBy(key, Asc)))
  {
    var up := SortOrder(data, key, Asc);
    SortOrderSorted(data, key, Asc);
    var down := Reverse(up);
    ReversedAscendingIsDescending(data, key);
    forall x: nat | x < |data| ensures x in down {
      assert x in up;
      var j :| 0 <= j < |up| && up[j] == x;
      assert down[|up| - 1 - j] == x;
    }
    SortOrderUnique(data, key, Desc, down);
    ReversePermute(data, up);
  }

  /** Sorting by a field no record has leaves the order of `data` unchanged. */
  lemma AbsentKeyKeepsOrder(data: seq<Row>, key: string, dir: Direction)
    requires forall i :: 0 <= i < |data| ==> FieldValue(data[i], key).None?
    ensures SortedView(data, SortedBy(key, dir)) == data
  {
    var id := seq(|data|, k requires 0 <= k < |data| => k as nat);
    forall a, b | 0 <= a < b < |id| ensures Before(data, key, dir, id[a], id[b]) {
      assert FieldValue(data[a], key) == None == FieldValue(data[b], key);
    }
    forall x: nat | x < |data| ensures x in id {
      assert id[x] == x;
    }
    SortOrderUnique(data, key, dir, id);
  }

  /** In a strictly sorted listing, a position listed at `a` that is displayed before the one at `b` is listed first. */
  lemma ListedInOrder(data: seq<Row>, key: string, dir: Direction, p: seq<nat>, a: nat, b: nat)
    requires InRange(data, p) && StrictlySorted(data, key, dir, p)
    requires a < |p| && b < |p| && p[a] != p[b] && Before(data, key, dir, p[a], p[b])
    ensures a < b
  {
    if b < a {
      assert Before(data, key, dir, p[b], p[a]);
      BeforeTotal(data, key, dir, p[a], p[b]);
    }
  }

  lemma ReverseAt<T>(s: seq<T>, k: nat)
    requires k < |s|
    ensures |Reverse(s)| == |s| && Reverse(s)[|s| - 1 - k] == s[k]
  {
  }

  /** If the descending order is the reversed ascending one, a pair ordered ascending is ordered the other way descending. */
  lemma ReversedOrderFlips(data: seq<Row>, key: string, x: nat, y: nat)
    requires SortOrder(data, key, Desc) == Reverse(SortOrder(data, key, Asc))
    requires x < |data| && y < |data| && x != y && Before(data, key, Asc, x, y)
    ensures Before(data, key, Desc, y, x)
  {
    var up := SortOrder(data, key, Asc);
    var down := SortOrder(data, key, Desc);
    SortOrderSorted(data, key, Asc);
    assert x in up && y in up;
    var a :| 0 <= a < |up| && up[a] == x;
    var b :| 0 <= b < |up| && up[b] == y;
    ListedInOrder(data, key, Asc, up, a, b);
    var n := |up|;
    ReverseAt(up, a);
    ReverseAt(up, b);
    assert down == Reverse(up);
    SortOrderSorted(data, key, Desc);
    assert Before(data, key, Desc, down[n - 1 - b], down[n - 1 - a]);
  }

  /**
   * Conversely, with at least two records, descending reverses ascending
   * only when every record has the field and no two values are equal.
   */
  lemma ReverseOnlyWithoutTies(data: seq<Row>, key: string)
    requires |data| >= 2
    requires SortOrder(data, key, Desc) == Reverse(SortOrder(data, key, Asc))
    ensures DistinctPresentValues(data, key)
  {
    forall i, j | 0 <= i < j < |data| ensures FieldValue(data[i], key) != FieldValue(data[j], key) {
      if FieldValue(data[i], key) == FieldValue(data[j], key) {
        ReversedOrderFlips(data, key, i, j);
        assert false;
      }
    }
    forall i | 0 <= i < |data| ensures FieldValue(data[i], key).Some? {
      if FieldValue(data[i], key).None? {
        var j := if i == 0 then 1 else 0;
        assert FieldValue(data[j], key) != FieldValue(data[i], key);
        ReversedOrderFlips(data, key, j, i);
        assert false;
      }
    }
  }
}
