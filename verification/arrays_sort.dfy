/** The two reordering helpers of `Arrays`: `sortByKey`, which sorts rows by
    an integer field, and `sortByPriority`, which moves chosen keys to the
    front. */
module ArraysSort {
  import opened PhpArray

  /** The order `asort` (ascending) or `arsort` (descending) puts two field
      values in. */
  predicate InOrder(x: int, y: int, desc: bool) {
    if desc then x >= y else x <= y
  }

  /** Every value of `ps` is an integer. */
  predicate AllInt(ps: Array) {
    forall i :: 0 <= i < |ps| ==> ps[i].1.Int?
  }

  /** The values of `ps` are integers in the requested order. */
  predicate Sorted(ps: Array, desc: bool) {
    AllInt(ps) && forall i, j :: 0 <= i < j < |ps| ==> InOrder(ps[i].1.i, ps[j].1.i, desc)
  }

  /** One insertion step of the sort behind `asort`/`arsort`: `p` goes
      before the first entry whose value it strictly precedes. */
  function Insert(p: (Key, Value), s: Array, desc: bool): (r: Array)
    requires p.1.Int? && AllInt(s)
    ensures |r| == |s| + 1
    ensures multiset(r) == multiset(s) + multiset{p}
    ensures AllInt(r)
  {
    if s == [] then [p]
    else if (if desc then p.1.i > s[0].1.i else p.1.i < s[0].1.i) then [p] + s
    else
      assert s == [s[0]] + s[1..];
      [s[0]] + Insert(p, s[1..], desc)
  }

  /** `asort`/`arsort` on an array of integers, as a value: the entries keep
      their keys and are ordered by value. */
  function SortValues(s: Array, desc: bool): (r: Array)
    requires AllInt(s)
    ensures |r| == |s|
    ensures multiset(r) == multiset(s)
    ensures AllInt(r)
  {
    if s == [] then []
    else
      assert s == s[..|s| - 1] + [s[|s| - 1]];
      Insert(s[|s| - 1], SortValues(s[..|s| - 1], desc), desc)
  }

  /** Inserting into a sorted array keeps it sorted. */
  lemma {:induction false} InsertSorted(p: (Key, Value), s: Array, desc: bool)
    requires p.1.Int? && Sorted(s, desc)
    ensures Sorted(Insert(p, s, desc), desc)
  {
    if s != [] && !(if desc then p.1.i > s[0].1.i else p.1.i < s[0].1.i) {
      var rest := Insert(p, s[1..], desc);
      InsertSorted(p, s[1..], desc);
      forall j | 0 <= j < |rest| ensures InOrder(s[0].1.i, rest[j].1.i, desc) {
        assert rest[j] in multiset(s[1..]) + multiset{p};
        if rest[j] != p {
          assert rest[j] in s[1..];
          var m :| 0 <= m < |s[1..]| && s[1..][m] == rest[j];
          assert s[m + 1] == rest[j];
        }
      }
    }
  }

  /** The sort orders the values and loses or adds no entry. */
  lemma {:induction false} SortValuesSpec(s: Array, desc: bool)
    requires AllInt(s)
    ensures Sorted(SortValues(s, desc), desc)
    ensures multiset(SortValues(s, desc)) == multiset(s)
  {
    if s != [] {
      SortValuesSpec(s[..|s| - 1], desc);
      InsertSorted(s[|s| - 1], SortValues(s[..|s| - 1], desc), desc);
    }
  }

  /** `$tValues`: each row's key with the value of its field. */
  function Projected(a: Array, field: Key): (ps: Array)
    requires IsTable(a)
    ensures |ps| == |a| && forall i :: 0 <= i < |a| ==> ps[i] == (a[i].0, Field(a[i].1, field))
  {
    seq(|a|, i requires 0 <= i < |a| => (a[i].0, Field(a[i].1, field)))
  }

  /** The rows `$uArray[$tKey]` for the keys of `ps`, in order. */
  function RowsOf(a: Array, ps: Array): (rows: seq<Value>)
    ensures |rows| == |ps| && forall i :: 0 <= i < |ps| ==> rows[i] == ValueAt(a, ps[i].0)
  {
    Map((p: (Key, Value)) => ValueAt(a, p.0), ps)
  }

  /** Consecutive rows have their field in the requested order. */
  predicate FieldsOrdered(rows: seq<Value>, field: Key, desc: bool) {
    forall i, j :: 0 <= i < j < |rows| ==>
      && rows[i].Arr? && rows[j].Arr?
      && Field(rows[i], field).Int? && Field(rows[j], field).Int?
      && InOrder(Field(rows[i], field).i, Field(rows[j], field).i, desc)
  }

  /** `sortByKey`: the rows, re-keyed 0, 1, 2, ..., ordered by the integer
      field `field`, descending when `order` is "desc" and ascending for any
      other order. The field values are collected under the row keys, sorted
      with their keys, and the rows are then appended in that key order. */
  method SortByKey(a: Array, field: Key, order: string) returns (r: Array)
    requires WellFormed(a) && IsTable(a)
    requires forall i :: 0 <= i < |a| ==> Field(a[i].1, field).Int?
    ensures IsList(r) && |r| == |a|
    ensures multiset(ValuesOf(r)) == multiset(ValuesOf(a))
    ensures FieldsOrdered(ValuesOf(r), field, order == "desc")
  {
    r := [];
    if |a| == 0 {
      SortedList(a, field, order == "desc");
      return;
    }
    var values := CollectField(a, field);
    values := SortValues(values, order == "desc");
    for i := 0 to |values|
      invariant r == List(RowsOf(a, values[..i]))
    {
      RowsStep(a, values, i);
      r := Push(r, ValueAt(a, values[i].0));
    }
    assert values[..|values|] == values;
    SortedList(a, field, order == "desc");
  }

  /** The first loop of `sortByKey`: `$tValues[$tKey] = $tValue[$uField]`
      for every row, which gives each row key with its field value. */
  method CollectField(a: Array, field: Key) returns (values: Array)
    requires WellFormed(a) && IsTable(a)
    ensures values == Projected(a, field)
  {
    values := [];
    for i := 0 to |a|
      invariant values == Projected(a, field)[..i]
    {
      ProjectStep(a, field, i);
      values := Assign(values, a[i].0, Field(a[i].1, field));
    }
    assert Projected(a, field)[..|a|] == Projected(a, field);
  }

  lemma ProjectStep(a: Array, field: Key, i: int)
    requires WellFormed(a) && IsTable(a) && 0 <= i < |a|
    ensures Assign(Projected(a, field)[..i], a[i].0, Field(a[i].1, field)) == Projected(a, field)[..i + 1]
  {
    var p := Projected(a, field);
    assert a[i].0 !in KeysOf(p[..i]) by {
      forall j | 0 <= j < i ensures p[..i][j].0 != a[i].0 {
        assert p[j].0 == a[j].0;
      }
    }
    assert p[..i + 1] == p[..i] + [p[i]];
  }

  /** The list `sortByKey` returns has the properties it promises. */
  lemma SortedList(a: Array, field: Key, desc: bool)
    requires WellFormed(a) && IsTable(a)
    requires forall i :: 0 <= i < |a| ==> Field(a[i].1, field).Int?
    ensures AllInt(Projected(a, field))
    ensures var r := List(RowsOf(a, SortValues(Projected(a, field), desc)));
      && IsList(r) && |r| == |a|
      && multiset(ValuesOf(r)) == multiset(ValuesOf(a))
      && FieldsOrdered(ValuesOf(r), field, desc)
  {
    SortByKeyResult(a, field, desc);
    ListWellFormed(RowsOf(a, SortValues(Projected(a, field), desc)));
  }

  /** What `sortByKey` promises, about the rows it lists: they are the rows
      of `a`, each exactly as often as in `a`, and their fields are ordered. */
  lemma SortByKeyResult(a: Array, field: Key, desc: bool)
    requires WellFormed(a) && IsTable(a)
    requires forall i :: 0 <= i < |a| ==> Field(a[i].1, field).Int?
    ensures AllInt(Projected(a, field))
    ensures var rows := RowsOf(a, SortValues(Projected(a, field), desc));
      multiset(rows) == multiset(ValuesOf(a)) && FieldsOrdered(rows, field, desc)
  {
    var proj := Projected(a, field);
    var sorted := SortValues(proj, desc);
    SortValuesSpec(proj, desc);
    MapPermutation((p: (Key, Value)) => ValueAt(a, p.0), sorted, proj);
    RowsOfProjected(a, field);
    SortedRowFields(a, field, sorted);
  }

  /** Looking up the row keys in their own order gives the rows of `a`. */
  lemma RowsOfProjected(a: Array, field: Key)
    requires WellFormed(a) && IsTable(a)
    ensures RowsOf(a, Projected(a, field)) == ValuesOf(a)
  {
    var proj := Projected(a, field);
    forall i | 0 <= i < |a| ensures RowsOf(a, proj)[i] == a[i].1 {
      FindEntry(a, i);
    }
  }

  /** Each entry of a rearrangement of `$tValues` names a row whose field
      holds the entry's value. */
  lemma SortedRowFields(a: Array, field: Key, sorted: Array)
    requires WellFormed(a) && IsTable(a)
    requires multiset(sorted) == multiset(Projected(a, field))
    ensures forall i :: 0 <= i < |sorted| ==>
      RowsOf(a, sorted)[i].Arr? && Field(RowsOf(a, sorted)[i], field) == sorted[i].1
  {
    var proj := Projected(a, field);
    forall i | 0 <= i < |sorted|
      ensures RowsOf(a, sorted)[i].Arr? && Field(RowsOf(a, sorted)[i], field) == sorted[i].1
    {
      assert sorted[i] in multiset(proj);
      var m :| 0 <= m < |proj| && proj[m] == sorted[i];
      FindEntry(a, m);
    }
  }

  /** `f` applied to every element of `s`. */
  function Map<T, U>(f: T -> U, s: seq<T>): (r: seq<U>)
    ensures |r| == |s| && forall i :: 0 <= i < |s| ==> r[i] == f(s[i])
  {
    seq(|s|, i requires 0 <= i < |s| => f(s[i]))
  }

  /** Taking out the element at `j` takes one copy of it out of the multiset. */
  lemma MultisetRemove<T>(s: seq<T>, j: int)
    requires 0 <= j < |s|
    ensures multiset(s) == multiset(s[..j] + s[j + 1..]) + multiset{s[j]}
  {
    assert s == s[..j] + [s[j]] + s[j + 1..];
  }

  /** Taking out the element at `j` before applying `f` takes one copy of
      its image out of the multiset of results. */
  lemma MapRemove<T, U>(f: T -> U, s: seq<T>, j: int)
    requires 0 <= j < |s|
    ensures multiset(Map(f, s)) == multiset(Map(f, s[..j] + s[j + 1..])) + multiset{f(s[j])}
  {
    assert Map(f, s[..j] + s[j + 1..]) == Map(f, s)[..j] + Map(f, s)[j + 1..];
    MultisetRemove(Map(f, s), j);
  }

  lemma MapRemoveFirst<T, U>(f: T -> U, s: seq<T>)
    requires |s| > 0
    ensures multiset(Map(f, s)) == multiset(Map(f, s[1..])) + multiset{f(s[0])}
  {
    var m := Map(f, s);
    assert m == [f(s[0])] + Map(f, s[1..]);
  }

  /** Two rearrangements of each other still are once the same element is
      taken out of both. */
  lemma MultisetCancel<T>(ps: seq<T>, qs: seq<T>, j: int)
    requires multiset(ps) == multiset(qs)
    requires |ps| > 0 && 0 <= j < |qs| && qs[j] == ps[0]
    ensures multiset(ps[1..]) == multiset(qs[..j] + qs[j + 1..])
  {
    var x := ps[0];
    var rest := qs[..j] + qs[j + 1..];
    MultisetRemove(qs, j);
    assert ps == [x] + ps[1..];
    assert multiset(ps[1..]) + multiset{x} == multiset(rest) + multiset{x};
    assert multiset(ps[1..]) == multiset(ps[1..]) + multiset{x} - multiset{x};
  }

  /** Applying `f` to a rearrangement of `ps` rearranges the results. */
  lemma {:induction false} MapPermutation<T, U>(f: T -> U, ps: seq<T>, qs: seq<T>)
    requires multiset(ps) == multiset(qs)
    ensures multiset(Map(f, ps)) == multiset(Map(f, qs))
    decreases |ps|
  {
    if ps == [] {
      assert |qs| == |multiset(qs)|;
      assert qs == [];
    } else {
      assert ps[0] in multiset(qs);
      var j :| 0 <= j < |qs| && qs[j] == ps[0];
      MultisetCancel(ps, qs, j);
      MapPermutation(f, ps[1..], qs[..j] + qs[j + 1..]);
      MapPermutationStep(f, ps, qs, j);
    }
  }

  lemma MapPermutationStep<T, U>(f: T -> U, ps: seq<T>, qs: seq<T>, j: int)
    requires |ps| > 0 && 0 <= j < |qs| && qs[j] == ps[0]
    requires multiset(Map(f, ps[1..])) == multiset(Map(f, qs[..j] + qs[j + 1..]))
    ensures multiset(Map(f, ps)) == multiset(Map(f, qs))
  {
    MapRemoveFirst(f, ps);
    assert multiset(Map(f, qs)) == multiset(Map(f, qs[..j] + qs[j + 1..])) + multiset{f(ps[0])} by {
      MapRemove(f, qs, j);
    }
  }

  lemma RowsStep(a: Array, values: Array, i: int)
    requires 0 <= i < |values|
    ensures Push(List(RowsOf(a, values[..i])), ValueAt(a, values[i].0)) == List(RowsOf(a, values[..i + 1]))
  {
    var rows := RowsOf(a, values[..i]);
    assert RowsOf(a, values[..i + 1]) == rows + [ValueAt(a, values[i].0)];
    PushList(rows, ValueAt(a, values[i].0));
  }

  /** The entries of `b` whose key is not in `ks`, in order. */
  function Without(b: Array, ks: seq<Key>): (r: Array)
    ensures forall e :: e in r <==> e in b && e.0 !in ks
  {
    if b == [] then []
    else
      var e := b[|b| - 1];
      assert b == b[..|b| - 1] + [e];
      Without(b[..|b| - 1], ks) + if e.0 in ks then [] else [e]
  }

  lemma WithoutKeys(b: Array, ks: seq<Key>)
    ensures forall k :: k in KeysOf(Without(b, ks)) ==> k in KeysOf(b)
  {
    var w := Without(b, ks);
    forall k | k in KeysOf(w) ensures k in KeysOf(b) {
      var m :| 0 <= m < |w| && w[m].0 == k;
      assert w[m] in b;
    }
  }

  /** `$t + $b` appends the entries of `b` whose keys `t` lacks, in order. */
  lemma {:induction false} UnionWithout(t: Array, b: Array)
    requires WellFormed(b)
    ensures Union(t, b) == t + Without(b, KeysOf(t))
  {
    if b != [] {
      var n := |b|;
      var b' := b[..n - 1];
      var e := b[n - 1];
      UnionWithout(t, b');
      var w := Without(b', KeysOf(t));
      assert e.0 in KeysOf(t + w) <==> e.0 in KeysOf(t) by {
        LastKeyFresh(b);
        FreshKeyInUnion(t, b', e.0);
      }
      UnionSnoc(t, b);
      WithoutSnoc(b, KeysOf(t));
      AppendUnlessIn(t, w, e);
    }
  }

  lemma UnionSnoc(t: Array, b: Array)
    requires b != []
    ensures Union(t, b) == if b[|b| - 1].0 in KeysOf(Union(t, b[..|b| - 1])) then Union(t, b[..|b| - 1])
      else Union(t, b[..|b| - 1]) + [b[|b| - 1]]
  {
  }

  lemma AppendUnlessIn(t: Array, w: Array, e: (Key, Value))
    requires e.0 in KeysOf(t + w) <==> e.0 in KeysOf(t)
    ensures (if e.0 in KeysOf(t + w) then t + w else t + w + [e]) == t + (w + if e.0 in KeysOf(t) then [] else [e])
  {
    if e.0 !in KeysOf(t) {
      assert t + w + [e] == t + (w + [e]);
    }
  }

  lemma WithoutSnoc(b: Array, ks: seq<Key>)
    requires b != []
    ensures Without(b, ks) == Without(b[..|b| - 1], ks) + if b[|b| - 1].0 in ks then [] else [b[|b| - 1]]
  {
  }

  /** A key that `b` lacks is in `t + Without(b, KeysOf(t))` only through `t`. */
  lemma FreshKeyInUnion(t: Array, b: Array, k: Key)
    requires k !in KeysOf(b)
    ensures k in KeysOf(t + Without(b, KeysOf(t))) <==> k in KeysOf(t)
  {
    var w := Without(b, KeysOf(t));
    WithoutKeys(b, KeysOf(t));
    KeysAppend(t, w);
  }

  /** `sortByPriority`: the same key-value pairs as `a`; the requested keys
      that are set come first, in request order, then every other key of `a`
      in its original order. */
  method SortByPriority(a: Array, priorities: seq<Key>) returns (r: Array)
    requires WellFormed(a)
    ensures WellFormed(r)
    ensures forall k :: Find(r, k) == Find(a, k)
    ensures KeysOf(r) == SetKeys(a, priorities) + KeysOf(Without(a, SetKeys(a, priorities)))
  {
    ghost var ps := SetPairs(a, priorities);
    var t: Array := [];
    for i := 0 to |priorities|
      invariant t == AssignAll(SetPairs(a, priorities[..i]))
    {
      var k := priorities[i];
      SetPairsStep(a, priorities, i);
      if !IsSet(a, k) {
        continue;
      }
      t := Assign(t, k, ValueAt(a, k));
    }
    assert priorities[..|priorities|] == priorities;
    PriorityResult(a, priorities);
    r := Union(t, a);
  }

  lemma PriorityResult(a: Array, priorities: seq<Key>)
    requires WellFormed(a)
    ensures var t := AssignAll(SetPairs(a, priorities));
      && KeysOf(t) == SetKeys(a, priorities)
      && WellFormed(Union(t, a))
      && (forall k :: Find(Union(t, a), k) == Find(a, k))
      && KeysOf(Union(t, a)) == KeysOf(t) + KeysOf(Without(a, KeysOf(t)))
  {
    var t := AssignAll(SetPairs(a, priorities));
    SetPairsTable(a, priorities);
    forall k ensures Find(Union(t, a), k) == Find(a, k) {
      FindUnion(t, a, k);
    }
    FindUnion(t, a, IntKey(0));
    UnionWithout(t, a);
    KeysAppend(t, Without(a, KeysOf(t)));
  }
}
