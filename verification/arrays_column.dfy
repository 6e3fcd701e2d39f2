/** Column extraction: `column` reads one field from every row, `columns`
    reads several fields from every row into a smaller row. */
module ArraysColumn {
  import opened PhpArray

  /** The values `column` appends, row by row: a set field adds its value
      (with `distinct`, only when the value is not there yet), a row without
      the field adds null unless `skip` holds. */
  function ColumnOf(a: Array, key: Key, skip: bool, distinct: bool): (c: seq<Value>)
    ensures |c| <= |a|
  {
    if a == [] then []
    else
      var c := ColumnOf(a[..|a| - 1], key, skip, distinct);
      var row := a[|a| - 1].1;
      if HasField(row, key) then
        if !distinct || Field(row, key) !in c then c + [Field(row, key)] else c
      else if !skip then c + [Null]
      else c
  }

  /** `column`: the list of `ColumnOf`. Membership for `distinct` is strict
      (`===`). */
  method Column(a: Array, key: Key, skip: bool, distinct: bool) returns (r: Array)
    ensures r == List(ColumnOf(a, key, skip, distinct))
  {
    r := [];
    for i := 0 to |a|
      invariant r == List(ColumnOf(a[..i], key, skip, distinct))
    {
      ColumnStep(a, key, skip, distinct, i);
      ghost var c := ColumnOf(a[..i], key, skip, distinct);
      ListWellFormed(c);
      var row := a[i].1;
      if HasField(row, key) {
        if !distinct || Field(row, key) !in ValuesOf(r) {
          PushList(c, Field(row, key));
          r := Push(r, Field(row, key));
        }
      } else if !skip {
        PushList(c, Null);
        r := Push(r, Null);
      }
    }
    assert a[..|a|] == a;
  }

  /** One more row extends the column as the loop of `column` does. */
  lemma ColumnStep(a: Array, key: Key, skip: bool, distinct: bool, i: int)
    requires 0 <= i < |a|
    ensures ColumnOf(a[..i + 1], key, skip, distinct)
         == if HasField(a[i].1, key) then
              if !distinct || Field(a[i].1, key) !in ColumnOf(a[..i], key, skip, distinct)
              then ColumnOf(a[..i], key, skip, distinct) + [Field(a[i].1, key)]
              else ColumnOf(a[..i], key, skip, distinct)
            else if !skip then ColumnOf(a[..i], key, skip, distinct) + [Null]
            else ColumnOf(a[..i], key, skip, distinct)
  {
    assert a[..i + 1][..i] == a[..i];
  }

  /** Without flags there is one value per row: the row's field when it is
      set, null otherwise. */
  lemma {:induction false} ColumnPlain(a: Array, key: Key)
    ensures var c := ColumnOf(a, key, false, false);
      |c| == |a| && forall i :: 0 <= i < |a| ==> c[i] == if HasField(a[i].1, key) then Field(a[i].1, key) else Null
  {
    if a != [] {
      ColumnPlain(a[..|a| - 1], key);
    }
  }

  /** With `skip`, the column holds no null. */
  lemma {:induction false} ColumnSkip(a: Array, key: Key, distinct: bool)
    ensures Null !in ColumnOf(a, key, true, distinct)
  {
    if a != [] {
      ColumnSkip(a[..|a| - 1], key, distinct);
    }
  }

  /** With `distinct`, no value other than null occurs twice. */
  lemma {:induction false} ColumnDistinct(a: Array, key: Key, skip: bool)
    ensures forall i, j :: 0 <= i < j < |ColumnOf(a, key, skip, true)| && ColumnOf(a, key, skip, true)[i] != Null ==>
      ColumnOf(a, key, skip, true)[i] != ColumnOf(a, key, skip, true)[j]
  {
    if a != [] {
      var c' := ColumnOf(a[..|a| - 1], key, skip, true);
      ColumnDistinct(a[..|a| - 1], key, skip);
      var row := a[|a| - 1].1;
      var c := ColumnOf(a, key, skip, true);
      if HasField(row, key) && Field(row, key) !in c' {
        assert c == c' + [Field(row, key)];
        forall i, j | 0 <= i < j < |c| && c[i] != Null ensures c[i] != c[j] {
          assert c[i] == c'[i] && c'[i] in c';
          if j < |c'| {
            assert c[j] == c'[j];
          }
        }
      }
    }
  }

  /** The number of rows in which the field is not set. */
  function Missing(a: Array, key: Key): nat {
    if a == [] then 0
    else Missing(a[..|a| - 1], key) + if HasField(a[|a| - 1].1, key) then 0 else 1
  }

  /** Without `skip`, every row without the field adds one null, whatever
      `distinct` says, and nothing else adds a null. */
  lemma {:induction false} ColumnNulls(a: Array, key: Key, distinct: bool)
    ensures multiset(ColumnOf(a, key, false, distinct))[Null] == Missing(a, key)
  {
    if a != [] {
      ColumnNulls(a[..|a| - 1], key, distinct);
    }
  }

  /** Every set field value is in the column, and every value of the column
      other than null is the field value of some row. */
  lemma {:induction false} ColumnValues(a: Array, key: Key, skip: bool, distinct: bool)
    ensures forall i :: 0 <= i < |a| && HasField(a[i].1, key) ==> Field(a[i].1, key) in ColumnOf(a, key, skip, distinct)
    ensures forall v :: v in ColumnOf(a, key, skip, distinct) && v != Null ==>
      exists i :: 0 <= i < |a| && HasField(a[i].1, key) && Field(a[i].1, key) == v
  {
    if a != [] {
      var n := |a|;
      var a' := a[..n - 1];
      ColumnValues(a', key, skip, distinct);
      var c' := ColumnOf(a', key, skip, distinct);
      forall i | 0 <= i < n - 1 && HasField(a[i].1, key) ensures Field(a[i].1, key) in c' {
        assert a'[i] == a[i];
      }
      forall v | v in ColumnOf(a, key, skip, distinct) && v != Null
        ensures exists i :: 0 <= i < n && HasField(a[i].1, key) && Field(a[i].1, key) == v
      {
        if v in c' {
          var i :| 0 <= i < |a'| && HasField(a'[i].1, key) && Field(a'[i].1, key) == v;
          assert a[i] == a'[i];
        }
      }
    }
  }

  /** The row `columns` builds from `row`: the requested keys that are set
      in `row`, each with its value, in the order first requested. A row
      that is not an array gives an empty row. */
  function SubRow(row: Value, keys: seq<Key>): (sub: Array)
    ensures WellFormed(sub)
    ensures forall k :: k in KeysOf(sub) <==> k in keys && HasField(row, k)
    ensures forall k :: k in KeysOf(sub) ==> row.Arr? && Find(sub, k) == Some(Field(row, k))
  {
    if row.Arr? then
      SetPairsTable(row.a, keys);
      AssignAll(SetPairs(row.a, keys))
    else []
  }

  /** `columns`: one sub-row per row, in order, keyed 0, 1, 2, ... */
  method Columns(a: Array, keys: seq<Key>) returns (r: Array)
    ensures r == List(seq(|a|, i requires 0 <= i < |a| => Arr(SubRow(a[i].1, keys))))
  {
    ghost var rows := seq(|a|, i requires 0 <= i < |a| => Arr(SubRow(a[i].1, keys)));
    r := [];
    for i := 0 to |a|
      invariant r == List(rows[..i])
    {
      var row := a[i].1;
      var sub: Array := [];
      for j := 0 to |keys|
        invariant sub == if row.Arr? then AssignAll(SetPairs(row.a, keys[..j])) else []
      {
        if row.Arr? {
          SetPairsStep(row.a, keys, j);
        }
        if HasField(row, keys[j]) {
          sub := Assign(sub, keys[j], Field(row, keys[j]));
        }
      }
      assert keys[..|keys|] == keys;
      assert rows[i] == Arr(sub);
      PushNext(rows, i);
      r := Push(r, Arr(sub));
    }
    assert rows[..|a|] == rows;
  }
}
