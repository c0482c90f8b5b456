/**
 * Row selection of the data table: a set of identities, where a record's
 * identity is its `id` when it has one and otherwise a position. Numeric
 * ids and positions share one space, as in the component's
 * `Set<string | number>` with numeric ids.
 */
module TableSelection {
  import opened Options
  import opened TableSort

  /** `row.id ?? index`. */
  function Identity(r: Row, index: nat): int
  {
    match r.id
    case Some(id) => id
    case None => index
  }

  /** The identities of the first `n` records of `data`, each at its position in `data`. */
  function IdentitiesUpTo(data: seq<Row>, n: nat): (ids: set<int>)
    requires n <= |data|
    ensures forall x :: x in ids <==> exists i :: 0 <= i < n && Identity(data[i], i) == x
  {
    if n == 0 then {}
    else
      var m := n - 1;
      IdentitiesUpTo(data, m) + {Identity(data[m], m)}
  }

  /** What "select all" selects: the identity of every record. */
  function IdentitySet(data: seq<Row>): (ids: set<int>)
    ensures forall i :: 0 <= i < |data| ==> Identity(data[i], i) in ids
    ensures forall x :: x in ids ==> exists i :: 0 <= i < |data| && Identity(data[i], i) == x
  {
    IdentitiesUpTo(data, |data|)
  }

  /** No two of the first `n` records have the same identity. */
  predicate DistinctIdentities(data: seq<Row>, n: nat)
    requires n <= |data|
  {
    forall i, j :: 0 <= i < j < n ==> Identity(data[i], i) != Identity(data[j], j)
  }

  lemma IdentitiesStep(data: seq<Row>, m: nat)
    requires m < |data|
    ensures IdentitiesUpTo(data, m + 1) == IdentitiesUpTo(data, m) + {Identity(data[m], m)}
  {
  }

  lemma DistinctStep(data: seq<Row>, m: nat)
    requires m < |data|
    ensures DistinctIdentities(data, m + 1) <==>
      DistinctIdentities(data, m) && Identity(data[m], m) !in IdentitiesUpTo(data, m)
  {
    var x := Identity(data[m], m);
    if x in IdentitiesUpTo(data, m) {
      var i :| 0 <= i < m && Identity(data[i], i) == x;
      assert !DistinctIdentities(data, m + 1);
    } else if DistinctIdentities(data, m) {
      forall i, j | 0 <= i < j < m + 1 ensures Identity(data[i], i) != Identity(data[j], j) {
        if j == m {
          assert Identity(data[i], i) in IdentitiesUpTo(data, m);
        }
      }
    }
  }

  /**
   * There are as many identities as records exactly when no two records
   * share one; otherwise there are fewer.
   */
  lemma {:induction false} IdentityCount(data: seq<Row>, n: nat)
    requires n <= |data|
    ensures |IdentitiesUpTo(data, n)| <= n
    ensures |IdentitiesUpTo(data, n)| == n <==> DistinctIdentities(data, n)
  {
    if n > 0 {
      var m := n - 1;
      IdentityCount(data, m);
      IdentitiesStep(data, m);
      DistinctStep(data, m);
      var s, x := IdentitiesUpTo(data, m), Identity(data[m], m);
      if x !in s {
        assert |s + {x}| == |s| + 1;
      } else {
        assert s + {x} == s;
      }
    }
  }

  /** The positions of the first `n` records whose identity is selected, in increasing order. */
  function SelectedPositions(data: seq<Row>, selected: set<int>, n: nat): (ix: seq<nat>)
    requires n <= |data|
    ensures |ix| <= n && InRange(data, ix)
    ensures forall a, b :: 0 <= a < b < |ix| ==> ix[a] < ix[b]
    ensures forall i: nat :: i in ix <==> i < n && Identity(data[i], i) in selected
  {
    if n == 0 then []
    else
      var m := n - 1;
      var head := SelectedPositions(data, selected, m);
      var last: seq<nat> := if Identity(data[m], m) in selected then [m] else [];
      assert forall k :: 0 <= k < |head| ==> head[k] in head;
      assert forall i: nat :: i in head + last <==> i in head || i in last;
      head + last
  }

  /** `data.filter((r, i) => selected.has(r.id ?? i))`: what `onRowSelect` receives. */
  function SelectedRows(data: seq<Row>, selected: set<int>): (rows: seq<Row>)
    ensures |rows| <= |data|
  {
    Permute(data, SelectedPositions(data, selected, |data|))
  }

  lemma CountStep(selected: set<int>, s: set<int>, x: int)
    requires x !in s
    ensures |selected * (s + {x})| == |selected * s| + (if x in selected then 1 else 0)
  {
    if x in selected {
      assert selected * (s + {x}) == (selected * s) + {x};
    } else {
      assert selected * (s + {x}) == selected * s;
    }
  }

  lemma {:induction false} SelectedPositionsCount(data: seq<Row>, selected: set<int>, n: nat)
    requires n <= |data| && DistinctIdentities(data, n)
    ensures |SelectedPositions(data, selected, n)| == |selected * IdentitiesUpTo(data, n)|
  {
    if n > 0 {
      var m := n - 1;
      assert DistinctIdentities(data, m);
      SelectedPositionsCount(data, selected, m);
      var s, x := IdentitiesUpTo(data, m), Identity(data[m], m);
      assert x !in s;
      CountStep(selected, s, x);
      assert IdentitiesUpTo(data, m + 1) == s + {x};
      assert |SelectedPositions(data, selected, m + 1)|
          == |SelectedPositions(data, selected, m)| + (if x in selected then 1 else 0);
    }
  }

  /**
   * The rows reported are the records of `data` in their original order whose
   * identities are selected; when identities are distinct, one row per
   * selected identity that belongs to a record.
   */
  lemma SelectedRowsSpec(data: seq<Row>, selected: set<int>)
    ensures var ix := SelectedPositions(data, selected, |data|);
      var rows := SelectedRows(data, selected);
      |rows| == |ix| &&
      (forall k :: 0 <= k < |ix| ==> rows[k] == data[ix[k]] && Identity(data[ix[k]], ix[k]) in selected) &&
      (forall a, b :: 0 <= a < b < |ix| ==> ix[a] < ix[b]) &&
      (forall i: nat :: i < |data| && Identity(data[i], i) in selected ==> i in ix)
    ensures DistinctIdentities(data, |data|) ==>
      |SelectedRows(data, selected)| == |selected * IdentitySet(data)|
  {
    if DistinctIdentities(data, |data|) {
      SelectedPositionsCount(data, selected, |data|);
    }
  }

  /** Reporting with every record's identity selected reports every record, in order. */
  lemma SelectAllReportsAll(data: seq<Row>)
    ensures SelectedRows(data, IdentitySet(data)) == data
  {
    var ix := SelectedPositions(data, IdentitySet(data), |data|);
    forall i: nat | i < |data| ensures i in ix {
      assert Identity(data[i], i) in IdentitySet(data);
    }
    IncreasingIsIota(ix, |data|);
  }

  /** The first `k` entries of an increasing listing of all naturals below `n` are `0, 1, ..., k - 1`. */
  lemma {:induction false} IncreasingPrefix(ix: seq<nat>, n: nat, k: nat)
    requires forall a, b :: 0 <= a < b < |ix| ==> ix[a] < ix[b]
    requires forall k :: 0 <= k < |ix| ==> ix[k] < n
    requires forall i: nat :: i < n ==> i in ix
    requires k <= |ix|
    ensures forall j :: 0 <= j < k ==> ix[j] == j
  {
    if k > 0 {
      var m := k - 1;
      IncreasingPrefix(ix, n, m);
      if m > 0 {
        assert ix[m - 1] < ix[m];
      }
      assert m in ix;
      var j :| 0 <= j < |ix| && ix[j] == m;
    }
  }

  /** An increasing listing of all naturals below `n`, and nothing else, is `0, 1, ..., n - 1`. */
  lemma IncreasingIsIota(ix: seq<nat>, n: nat)
    requires forall a, b :: 0 <= a < b < |ix| ==> ix[a] < ix[b]
    requires forall k :: 0 <= k < |ix| ==> ix[k] < n
    requires forall i: nat :: i < n ==> i in ix
    ensures |ix| == n && forall k :: 0 <= k < n ==> ix[k] == k
  {
    IncreasingPrefix(ix, n, |ix|);
    if |ix| > 0 {
      assert ix[|ix| - 1] < n;
    }
    if n > 0 {
      assert n - 1 in ix;
      var j :| 0 <= j < |ix| && ix[j] == n - 1;
    }
  }
}
