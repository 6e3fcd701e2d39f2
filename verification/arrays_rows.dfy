/** The row queries of `Arrays`: `getRow`, `getRowKey`, `getRows` and
    `getRowsBut`. A row matches when its field `key` is set and is strictly
    equal (`===`) to `value`. */
module ArraysRows {
  import opened PhpArray

  /** `isset($row[$key]) && $row[$key] === $value` (or `!==` when `equal`
      is false). PHP's `===` on these values is structural equality. */
  predicate Selects(row: Value, key: Key, value: Value, equal: bool)
    ensures Selects(row, key, value, equal) && equal ==> value != Null
  {
    HasField(row, key) && (ValueAt(row.a, key) == value) == equal
  }

  /** The entries of `a` that `Selects` keeps, with their keys, in order. */
  function RowsWhere(a: Array, key: Key, value: Value, equal: bool): Array {
    if a == [] then []
    else
      var e := a[|a| - 1];
      RowsWhere(a[..|a| - 1], key, value, equal) + if Selects(e.1, key, value, equal) then [e] else []
  }

  /** `getRows`: the matching rows under their original keys, in order. */
  method GetRows(a: Array, key: Key, value: Value) returns (r: Array)
    requires WellFormed(a)
    ensures r == RowsWhere(a, key, value, true)
  {
    r := [];
    for i := 0 to |a|
      invariant r == RowsWhere(a[..i], key, value, true)
      invariant forall k :: k in KeysOf(r) ==> k in KeysOf(a[..i])
    {
      RowsWhereStep(a, key, value, true, i);
      var (k, row) := a[i];
      if HasField(row, key) && ValueAt(row.a, key) == value {
        assert k !in KeysOf(a[..i]);
        r := Assign(r, k, row);
      }
    }
    assert a[..|a|] == a;
  }

  /** `getRowsBut`: the rows whose field is set and differs from `value`,
      under their original keys, in order. Rows without the field are in
      neither this nor `getRows`. */
  method GetRowsBut(a: Array, key: Key, value: Value) returns (r: Array)
    requires WellFormed(a)
    ensures r == RowsWhere(a, key, value, false)
  {
    r := [];
    for i := 0 to |a|
      invariant r == RowsWhere(a[..i], key, value, false)
      invariant forall k :: k in KeysOf(r) ==> k in KeysOf(a[..i])
    {
      RowsWhereStep(a, key, value, false, i);
      var (k, row) := a[i];
      if HasField(row, key) && ValueAt(row.a, key) != value {
        assert k !in KeysOf(a[..i]);
        r := Assign(r, k, row);
      }
    }
    assert a[..|a|] == a;
  }

  /** `getRow`: the first matching row, or `false` when no row matches. */
  method GetRow(a: Array, key: Key, value: Value) returns (r: Value)
    ensures r == if RowsWhere(a, key, value, true) == [] then Bool(false)
                 else RowsWhere(a, key, value, true)[0].1
  {
    for i := 0 to |a|
      invariant RowsWhere(a[..i], key, value, true) == []
    {
      assert a[..i + 1][..i] == a[..i];
      var row := a[i].1;
      if HasField(row, key) && ValueAt(row.a, key) == value {
        FirstSelected(a, key, value, true, i);
        return row;
      }
    }
    assert a[..|a|] == a;
    return Bool(false);
  }

  /** `getRowKey`: the key of the first matching row, or `false`. */
  method GetRowKey(a: Array, key: Key, value: Value) returns (r: Value)
    ensures r == if RowsWhere(a, key, value, true) == [] then Bool(false)
                 else KeyValue(RowsWhere(a, key, value, true)[0].0)
  {
    for i := 0 to |a|
      invariant RowsWhere(a[..i], key, value, true) == []
    {
      assert a[..i + 1][..i] == a[..i];
      var (k, row) := a[i];
      if HasField(row, key) && ValueAt(row.a, key) == value {
        FirstSelected(a, key, value, true, i);
        return KeyValue(k);
      }
    }
    assert a[..|a|] == a;
    return Bool(false);
  }

  /** Filtering distributes over concatenation. */
  lemma {:induction false} RowsWhereAppend(x: Array, y: Array, key: Key, value: Value, equal: bool)
    ensures RowsWhere(x + y, key, value, equal) == RowsWhere(x, key, value, equal) + RowsWhere(y, key, value, equal)
  {
    if y == [] {
      assert x + y == x;
    } else {
      var n := |y|;
      var e := y[n - 1];
      var tail := if Selects(e.1, key, value, equal) then [e] else [];
      assert (x + y)[..|x + y| - 1] == x + y[..n - 1];
      assert (x + y)[|x + y| - 1] == e;
      RowsWhereAppend(x, y[..n - 1], key, value, equal);
      assert RowsWhere(x + y, key, value, equal) == RowsWhere(x + y[..n - 1], key, value, equal) + tail;
      assert RowsWhere(y, key, value, equal) == RowsWhere(y[..n - 1], key, value, equal) + tail;
    }
  }

  /** One more row: selected or not. */
  lemma RowsWhereStep(a: Array, key: Key, value: Value, equal: bool, i: int)
    requires 0 <= i < |a|
    ensures RowsWhere(a[..i + 1], key, value, equal)
         == RowsWhere(a[..i], key, value, equal) + if Selects(a[i].1, key, value, equal) then [a[i]] else []
    ensures KeysOf(a[..i + 1]) == KeysOf(a[..i]) + [a[i].0]
  {
    assert a[..i + 1][..i] == a[..i];
  }

  /** When no row before position `i` is selected and row `i` is, row `i`
      comes first in the selection. */
  lemma FirstSelected(a: Array, key: Key, value: Value, equal: bool, i: int)
    requires 0 <= i < |a|
    requires RowsWhere(a[..i], key, value, equal) == []
    requires Selects(a[i].1, key, value, equal)
    ensures RowsWhere(a, key, value, equal) != []
    ensures RowsWhere(a, key, value, equal)[0] == a[i]
  {
    assert a == a[..i] + ([a[i]] + a[i + 1..]);
    RowsWhereAppend(a[..i], [a[i]] + a[i + 1..], key, value, equal);
    RowsWhereAppend([a[i]], a[i + 1..], key, value, equal);
    assert RowsWhere([a[i]], key, value, equal) == [a[i]] by {
      assert [a[i]][..0] == [];
    }
  }

  /** The selection holds exactly the entries of `a` that `Selects` keeps. */
  lemma {:induction false} RowsWhereMembers(a: Array, key: Key, value: Value, equal: bool)
    ensures forall e :: e in RowsWhere(a, key, value, equal) <==> e in a && Selects(e.1, key, value, equal)
  {
    if a != [] {
      var n := |a|;
      RowsWhereMembers(a[..n - 1], key, value, equal);
      assert a == a[..n - 1] + [a[n - 1]];
    }
  }

  /** The entries of `r` appear in `a` in the same order. */
  predicate OrderedIn(a: Array, r: Array) {
    forall i, j :: 0 <= i < j < |r| ==> IndexOf(a, r[i].0) < IndexOf(a, r[j].0)
  }

  /** The selection keeps the order of `a`: its entries appear in `a` in the
      same order, and it has no repeated key when `a` has none. */
  lemma {:induction false} RowsWhereOrdered(a: Array, key: Key, value: Value, equal: bool)
    requires WellFormed(a)
    ensures OrderedIn(a, RowsWhere(a, key, value, equal))
    ensures WellFormed(RowsWhere(a, key, value, equal))
  {
    if a != [] {
      var n := |a|;
      var a' := a[..n - 1];
      assert WellFormed(a');
      RowsWhereOrdered(a', key, value, equal);
      RowsWhereMembers(a', key, value, equal);
      var r' := RowsWhere(a', key, value, equal);
      OrderedExtend(a, r');
      if Selects(a[n - 1].1, key, value, equal) {
        assert RowsWhere(a, key, value, equal) == r' + [a[n - 1]];
      } else {
        assert RowsWhere(a, key, value, equal) == r';
      }
    }
    OrderedDistinct(a, RowsWhere(a, key, value, equal));
  }

  /** Entries taken in order from all but the last entry of `a` stay in
      order in `a`, also with the last entry after them. */
  lemma OrderedExtend(a: Array, r: Array)
    requires WellFormed(a) && a != []
    requires forall e :: e in r ==> e in a[..|a| - 1]
    requires OrderedIn(a[..|a| - 1], r)
    ensures OrderedIn(a, r)
    ensures OrderedIn(a, r + [a[|a| - 1]])
  {
    var n := |a|;
    forall i | 0 <= i < |r| ensures IndexOf(a, r[i].0) == IndexOf(a[..n - 1], r[i].0) < n - 1 {
      assert r[i] in r;
      IndexInPrefix(a, r[i]);
    }
    FindIndex(a, n - 1);
    var r2 := r + [a[n - 1]];
    forall i, j | 0 <= i < j < |r2| ensures IndexOf(a, r2[i].0) < IndexOf(a, r2[j].0) {
      assert r2[i] == r[i];
    }
  }

  /** Entries in strictly increasing positions have distinct keys. */
  lemma OrderedDistinct(a: Array, r: Array)
    requires OrderedIn(a, r)
    ensures WellFormed(r)
  {
  }

  lemma IndexInPrefix(a: Array, e: (Key, Value))
    requires WellFormed(a) && |a| > 0 && e in a[..|a| - 1]
    ensures IndexOf(a, e.0) == IndexOf(a[..|a| - 1], e.0) < |a| - 1
  {
    var j :| 0 <= j < |a| - 1 && a[j] == e;
    FindIndex(a[..|a| - 1], j);
    FindIndex(a, j);
  }

  lemma FindIndex(a: Array, i: int)
    requires WellFormed(a) && 0 <= i < |a|
    ensures IndexOf(a, a[i].0) == i
  {
  }

  /** `getRows` and `getRowsBut` split the rows whose field is set: no key is
      in both, and a row of `a` is in one of them exactly when its field is
      set. */
  lemma RowsPartition(a: Array, key: Key, value: Value)
    requires WellFormed(a)
    ensures forall k :: !(k in KeysOf(RowsWhere(a, key, value, true)) && k in KeysOf(RowsWhere(a, key, value, false)))
    ensures forall e :: e in a ==>
      (HasField(e.1, key) <==> e in RowsWhere(a, key, value, true) || e in RowsWhere(a, key, value, false))
  {
    RowsWhereMembers(a, key, value, true);
    RowsWhereMembers(a, key, value, false);
  }
}
