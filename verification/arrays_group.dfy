/** The grouping helpers of `Arrays`: `categorize`, which files rows into
    nested groups by the values of their fields, and `assignKeys`, which
    re-keys rows by the value of one field. */
module ArraysGroup {
  import opened PhpArray

  /** The row is an array in which every field `keys` names holds a value
      that can be used as an array key (anything but an array). */
  predicate RowKeyable(row: Value, keys: seq<Key>) {
    row.Arr? && forall j :: 0 <= j < |keys| ==> !Field(row, keys[j]).Arr?
  }

  /** Every row of `a` can be filed by `keys`. */
  predicate Keyable(a: Array, keys: seq<Key>) {
    forall i :: 0 <= i < |a| ==> RowKeyable(a[i].1, keys)
  }

  /** The keys a row is filed under: for each field in `keys`, the key its
      value becomes (`$tRef[$tValue]`); a missing field reads as null and so
      files the row under "". */
  function GroupPath(row: Value, keys: seq<Key>): (path: seq<Key>)
    requires RowKeyable(row, keys)
    ensures |path| == |keys|
    ensures forall j :: 0 <= j < |keys| ==> Some(path[j]) == ValueKey(Field(row, keys[j]))
  {
    seq(|keys|, j requires 0 <= j < |keys| => ValueKey(Field(row, keys[j])).value)
  }

  /** The nested array stored under `k`, or an empty one when `k` is not set
      (`if (!isset($tRef[$tValue])) { $tRef[$tValue] = []; }`). A set value
      that is not an array never occurs in a grouping and reads as empty. */
  function Bucket(t: Array, k: Key): (b: Array)
    ensures b == [] || Find(t, k) == Some(Arr(b))
  {
    if IsSet(t, k) && ValueAt(t, k).Arr? then ValueAt(t, k).a else []
  }

  /** Filing one row: descend along `path`, creating the groups that are
      missing, and add the row at the bottom, under its own key when
      `preserve` holds and appended otherwise. */
  function Place(t: Array, path: seq<Key>, rowKey: Key, row: Value, preserve: bool): (r: Array)
    ensures r != []
    ensures WellFormed(t) ==> WellFormed(r)
    ensures path != [] ==> KeysOf(r) == if path[0] in KeysOf(t) then KeysOf(t) else KeysOf(t) + [path[0]]
    decreases |path|
  {
    if path == [] then
      if preserve then Assign(t, rowKey, row) else Push(t, row)
    else
      Assign(t, path[0], Arr(Place(Bucket(t, path[0]), path[1..], rowKey, row, preserve)))
  }

  /** The rows of `a` filed one after another. */
  function Grouping(a: Array, keys: seq<Key>, preserve: bool): (r: Array)
    requires Keyable(a, keys)
    ensures WellFormed(r)
    ensures r == [] <==> a == []
  {
    if a == [] then []
    else
      var e := a[|a| - 1];
      Place(Grouping(a[..|a| - 1], keys, preserve), GroupPath(e.1, keys), e.0, e.1, preserve)
  }

  /** `categorize`: every row of `a` is filed under the keys its fields
      `keys` give (a single field is passed as a one-element `keys`). The
      reference cursor of the PHP code walks down the groups in place; here
      the path of the row is read field by field and the row is filed with
      `Place`. */
  method Categorize(a: Array, keys: seq<Key>, preserve: bool) returns (r: Array)
    requires Keyable(a, keys)
    ensures r == Grouping(a, keys, preserve)
  {
    r := [];
    for i := 0 to |a|
      invariant Keyable(a[..i], keys) && r == Grouping(a[..i], keys, preserve)
    {
      var (rowKey, row) := a[i];
      assert RowKeyable(row, keys);
      var path: seq<Key> := [];
      for j := 0 to |keys|
        invariant path == GroupPath(row, keys)[..j]
      {
        var value := Field(row, keys[j]);
        GroupPathStep(row, keys, j);
        path := path + [ValueKey(value).value];
      }
      assert path == GroupPath(row, keys);
      GroupingStep(a, keys, preserve, i);
      r := Place(r, path, rowKey, row, preserve);
    }
    assert a[..|a|] == a;
  }

  lemma GroupPathStep(row: Value, keys: seq<Key>, j: int)
    requires RowKeyable(row, keys) && 0 <= j < |keys|
    ensures ValueKey(Field(row, keys[j])).Some?
    ensures GroupPath(row, keys)[..j + 1] == GroupPath(row, keys)[..j] + [ValueKey(Field(row, keys[j])).value]
  {
    var p := GroupPath(row, keys);
    assert p[..j + 1] == p[..j] + [p[j]];
  }

  lemma GroupingStep(a: Array, keys: seq<Key>, preserve: bool, i: int)
    requires Keyable(a, keys) && 0 <= i < |a|
    ensures Keyable(a[..i], keys) && Keyable(a[..i + 1], keys)
    ensures Grouping(a[..i + 1], keys, preserve)
         == Place(Grouping(a[..i], keys, preserve), GroupPath(a[i].1, keys), a[i].0, a[i].1, preserve)
  {
    assert a[..i + 1][..i] == a[..i];
  }

  /** The group found by following `q` down the nesting. */
  function Descend(t: Array, q: seq<Key>): Array
    decreases |q|
  {
    if q == [] then t else Descend(Bucket(t, q[0]), q[1..])
  }

  /** The rows of `a` whose path is `q`, with their keys, in order. */
  function Matching(a: Array, keys: seq<Key>, q: seq<Key>): (m: Array)
    requires Keyable(a, keys)
    ensures forall e :: e in m <==> e in a && GroupPath(e.1, keys) == q
  {
    if a == [] then []
    else
      var e := a[|a| - 1];
      assert a == a[..|a| - 1] + [e];
      Matching(a[..|a| - 1], keys, q) + if GroupPath(e.1, keys) == q then [e] else []
  }

  /** What `categorize` keeps at the bottom of path `q`. */
  function Group(a: Array, keys: seq<Key>, q: seq<Key>, preserve: bool): Array
    requires Keyable(a, keys)
  {
    if preserve then Matching(a, keys, q) else List(ValuesOf(Matching(a, keys, q)))
  }

  /** Adding a row to `a` adds it to its own group only. */
  lemma GroupStep(a: Array, keys: seq<Key>, q: seq<Key>, preserve: bool)
    requires Keyable(a, keys) && a != []
    requires preserve ==> WellFormed(a)
    ensures Keyable(a[..|a| - 1], keys)
    ensures q != GroupPath(a[|a| - 1].1, keys) ==>
      Group(a, keys, q, preserve) == Group(a[..|a| - 1], keys, q, preserve)
    ensures q == GroupPath(a[|a| - 1].1, keys) && preserve ==>
      Group(a, keys, q, preserve) == Assign(Group(a[..|a| - 1], keys, q, preserve), a[|a| - 1].0, a[|a| - 1].1)
    ensures q == GroupPath(a[|a| - 1].1, keys) && !preserve ==>
      Group(a, keys, q, preserve) == Push(Group(a[..|a| - 1], keys, q, preserve), a[|a| - 1].1)
  {
    var n := |a|;
    var e := a[n - 1];
    MatchingStep(a, keys, q);
    var m := Matching(a[..n - 1], keys, q);
    if GroupPath(e.1, keys) == q {
      if preserve {
        FreshRowKey(a, keys, q);
      } else {
        ListValuesSnoc(m, e);
      }
    }
  }

  /** The last row joins the matching rows exactly when its path is `q`. */
  lemma MatchingStep(a: Array, keys: seq<Key>, q: seq<Key>)
    requires Keyable(a, keys) && a != []
    ensures Keyable(a[..|a| - 1], keys)
    ensures Matching(a, keys, q)
         == Matching(a[..|a| - 1], keys, q) + if GroupPath(a[|a| - 1].1, keys) == q then [a[|a| - 1]] else []
  {
    assert Keyable(a[..|a| - 1], keys);
  }

  lemma ListValuesSnoc(m: Array, e: (Key, Value))
    ensures List(ValuesOf(m + [e])) == Push(List(ValuesOf(m)), e.1)
  {
    PushList(ValuesOf(m), e.1);
    assert ValuesOf(m + [e]) == ValuesOf(m) + [e.1];
  }

  /** The key of the last row is not among the earlier matching rows. */
  lemma FreshRowKey(a: Array, keys: seq<Key>, q: seq<Key>)
    requires Keyable(a, keys) && a != [] && WellFormed(a)
    ensures Keyable(a[..|a| - 1], keys)
    ensures a[|a| - 1].0 !in KeysOf(Matching(a[..|a| - 1], keys, q))
  {
    var n := |a|;
    var a' := a[..n - 1];
    var m := Matching(a', keys, q);
    forall x | 0 <= x < |m| ensures m[x].0 != a[n - 1].0 {
      assert m[x] in a';
      var y :| 0 <= y < n - 1 && a'[y] == m[x];
      assert a[y] == m[x];
    }
  }

  /** Filing a row changes only the group at its own path, where the row is
      added; every other group of the same depth is unchanged. */
  lemma {:induction false} PlaceDescend(t: Array, path: seq<Key>, rowKey: Key, row: Value, preserve: bool, q: seq<Key>)
    requires |q| == |path|
    ensures Descend(Place(t, path, rowKey, row, preserve), q)
         == if q != path then Descend(t, q)
            else if preserve then Assign(Descend(t, q), rowKey, row)
            else Push(Descend(t, q), row)
    decreases |path|
  {
    if path != [] {
      var k := path[0];
      var sub := Place(Bucket(t, k), path[1..], rowKey, row, preserve);
      if q[0] == k {
        BucketAssign(t, k, sub, k);
        PlaceDescend(Bucket(t, k), path[1..], rowKey, row, preserve, q[1..]);
        SameHead(q, path);
      } else {
        BucketAssign(t, k, sub, q[0]);
      }
    }
  }

  /** The keys that the rows whose path starts with `q` have at the next
      level, in input order, repeats included. */
  function NextKeys(a: Array, keys: seq<Key>, q: seq<Key>): (ks: seq<Key>)
    requires Keyable(a, keys) && |q| < |keys|
    ensures |ks| <= |a|
    ensures forall k :: k in ks <==>
      exists e :: e in a && GroupPath(e.1, keys)[..|q|] == q && GroupPath(e.1, keys)[|q|] == k
  {
    if a == [] then []
    else
      var path := GroupPath(a[|a| - 1].1, keys);
      assert a == a[..|a| - 1] + [a[|a| - 1]];
      assert Keyable(a[..|a| - 1], keys);
      NextKeys(a[..|a| - 1], keys, q) + if path[..|q|] == q then [path[|q|]] else []
  }

  /** `ks` with `k` added at the end when `add` holds and `k` is missing. */
  function AddKey(ks: seq<Key>, k: Key, add: bool): (r: seq<Key>)
    ensures forall x :: x in r <==> x in ks || (add && x == k)
  {
    if add && k !in ks then ks + [k] else ks
  }

  /** Filing a row adds the next key of its path, when missing, to the group
      above it, after the keys already there; no other group's keys change. */
  lemma PlaceKeys(t: Array, path: seq<Key>, rowKey: Key, row: Value, preserve: bool, q: seq<Key>)
    requires |q| < |path|
    ensures KeysOf(Descend(Place(t, path, rowKey, row, preserve), q))
         == AddKey(KeysOf(Descend(t, q)), path[|q|], path[..|q|] == q)
  {
    assert path[..0] == [];
    if path[..|q|] == q {
      var rest := path[|q|..];
      assert path == q + rest;
      PlaceBelow(t, q, rest, rowKey, row, preserve);
    } else {
      PlaceOff(t, path, rowKey, row, preserve, q);
    }
  }

  /** Seen from the group at `q`, filing a row along `q + rest` is filing it
      along `rest` from that group. */
  lemma {:induction false} PlaceBelow(t: Array, q: seq<Key>, rest: seq<Key>, rowKey: Key, row: Value, preserve: bool)
    requires rest != []
    ensures Descend(Place(t, q + rest, rowKey, row, preserve), q) == Place(Descend(t, q), rest, rowKey, row, preserve)
    decreases |q|
  {
    if q == [] {
      assert q + rest == rest;
    } else {
      var k := q[0];
      var path := q + rest;
      assert path[0] == k && path[1..] == q[1..] + rest;
      var sub := Place(Bucket(t, k), q[1..] + rest, rowKey, row, preserve);
      BucketAssign(t, k, sub, k);
      PlaceBelow(Bucket(t, k), q[1..], rest, rowKey, row, preserve);
    }
  }

  /** Filing a row leaves the group at `q` unchanged when its path does not
      pass through `q`. */
  lemma {:induction false} PlaceOff(t: Array, path: seq<Key>, rowKey: Key, row: Value, preserve: bool, q: seq<Key>)
    requires 0 < |q| < |path| && path[..|q|] != q
    ensures Descend(Place(t, path, rowKey, row, preserve), q) == Descend(t, q)
    decreases |q|
  {
    var k := path[0];
    var sub := Place(Bucket(t, k), path[1..], rowKey, row, preserve);
    assert Place(t, path, rowKey, row, preserve) == Assign(t, k, Arr(sub));
    BucketAssign(t, k, sub, q[0]);
    assert Descend(t, q) == Descend(Bucket(t, q[0]), q[1..]);
    if q[0] == k {
      var path', q' := path[1..], q[1..];
      TailDiffers(path, q, path', q');
      PlaceOff(Bucket(t, k), path', rowKey, row, preserve, q');
    }
  }

  lemma TailDiffers(path: seq<Key>, q: seq<Key>, path': seq<Key>, q': seq<Key>)
    requires 0 < |q| < |path| && q[0] == path[0] && path[..|q|] != q
    requires path' == path[1..] && q' == q[1..]
    ensures 0 < |q'| < |path'| && path'[..|q'|] != q'
  {
    SameHead(q, path[..|q|]);
    assert path[1..][..|q| - 1] == path[..|q|][1..];
  }

  /** Below every path shorter than `keys`, `categorize` holds exactly one
      group per distinct next key of the rows filed under that path, in the
      order the keys first occur: no group is missing and none is spurious.
      With `q == []` these are the top-level groups. */
  lemma {:induction false} GroupingKeys(a: Array, keys: seq<Key>, preserve: bool, q: seq<Key>)
    requires Keyable(a, keys) && |q| < |keys|
    ensures KeysOf(Descend(Grouping(a, keys, preserve), q)) == Distinct(NextKeys(a, keys, q))
  {
    if a == [] {
      EmptyDescend(q);
    } else {
      var n := |a|;
      var a' := a[..n - 1];
      var path := GroupPath(a[n - 1].1, keys);
      assert Keyable(a', keys);
      GroupingKeys(a', keys, preserve, q);
      PlaceKeys(Grouping(a', keys, preserve), path, a[n - 1].0, a[n - 1].1, preserve, q);
      NextKeysStep(a, keys, q);
      DistinctSnoc(NextKeys(a', keys, q), path[|q|], path[..|q|] == q);
    }
  }

  /** Every group along a row's own path exists: at each level the group
      above holds the row's next key, and what it stores there is a
      non-empty array, down to the group that holds the row itself. */
  lemma RowGroups(a: Array, keys: seq<Key>, preserve: bool, i: int, path: seq<Key>, j: nat)
    requires Keyable(a, keys) && 0 <= i < |a| && j < |keys|
    requires path == GroupPath(a[i].1, keys)
    ensures path[j] in KeysOf(Descend(Grouping(a, keys, preserve), path[..j]))
    ensures ValueAt(Descend(Grouping(a, keys, preserve), path[..j]), path[j]).Arr?
    ensures Descend(Grouping(a, keys, preserve), path[..j + 1]) != []
  {
    var g := Grouping(a, keys, preserve);
    RowNextKey(a, keys, preserve, i, path, j);
    DescendNext(g, path, j);
    if j + 1 < |keys| {
      RowNextKey(a, keys, preserve, i, path, j + 1);
    } else {
      WholePrefix(path);
      assert a[i] in Matching(a, keys, path);
      GroupNonEmpty(a, keys, preserve, path);
    }
  }

  lemma WholePrefix(path: seq<Key>)
    ensures path[..|path|] == path
  {
  }

  /** Following one more key of `path` is taking that key's group. */
  lemma DescendNext(t: Array, path: seq<Key>, j: nat)
    requires j < |path|
    ensures Descend(t, path[..j + 1]) == Bucket(Descend(t, path[..j]), path[j])
  {
    DescendSnoc(t, path[..j], path[j]);
    assert path[..j] + [path[j]] == path[..j + 1];
  }

  /** A row's next key is a key of the group at each prefix of its path. */
  lemma RowNextKey(a: Array, keys: seq<Key>, preserve: bool, i: int, path: seq<Key>, j: nat)
    requires Keyable(a, keys) && 0 <= i < |a| && j < |keys|
    requires path == GroupPath(a[i].1, keys)
    ensures path[j] in KeysOf(Descend(Grouping(a, keys, preserve), path[..j]))
  {
    var q := path[..j];
    GroupingKeys(a, keys, preserve, q);
    assert a[i] in a && GroupPath(a[i].1, keys)[..|q|] == q && GroupPath(a[i].1, keys)[|q|] == path[j];
  }

  /** A bottom group that some row is filed under is never empty. */
  lemma {:induction false} GroupNonEmpty(a: Array, keys: seq<Key>, preserve: bool, q: seq<Key>)
    requires Keyable(a, keys) && |q| == |keys| && Matching(a, keys, q) != []
    ensures Descend(Grouping(a, keys, preserve), q) != []
  {
    var e := a[|a| - 1];
    var a' := a[..|a| - 1];
    MatchingStep(a, keys, q);
    if Matching(a', keys, q) != [] {
      GroupNonEmpty(a', keys, preserve, q);
    }
    var g' := Grouping(a', keys, preserve);
    PlaceDescend(g', GroupPath(e.1, keys), e.0, e.1, preserve, q);
    FiledNonEmpty(Descend(g', q), e.0, e.1, preserve);
  }

  lemma FiledNonEmpty(t: Array, rowKey: Key, row: Value, preserve: bool)
    ensures (if preserve then Assign(t, rowKey, row) else Push(t, row)) != []
  {
    if preserve {
      assert rowKey in KeysOf(Assign(t, rowKey, row));
    }
  }

  /** Following one more key is taking that key's group. */
  lemma {:induction false} DescendSnoc(t: Array, q: seq<Key>, k: Key)
    ensures Descend(t, q + [k]) == Bucket(Descend(t, q), k)
    decreases |q|
  {
    if q == [] {
      assert q + [k] == [k];
    } else {
      assert (q + [k])[0] == q[0] && (q + [k])[1..] == q[1..] + [k];
      DescendSnoc(Bucket(t, q[0]), q[1..], k);
    }
  }

  lemma NextKeysStep(a: Array, keys: seq<Key>, q: seq<Key>)
    requires Keyable(a, keys) && |q| < |keys| && a != []
    ensures Keyable(a[..|a| - 1], keys)
    ensures NextKeys(a, keys, q)
         == NextKeys(a[..|a| - 1], keys, q)
            + if GroupPath(a[|a| - 1].1, keys)[..|q|] == q then [GroupPath(a[|a| - 1].1, keys)[|q|]] else []
  {
    assert Keyable(a[..|a| - 1], keys);
  }

  /** Removing repeats from `xs` followed by `k` when `add` holds. */
  lemma DistinctSnoc(xs: seq<Key>, k: Key, add: bool)
    ensures Distinct(xs + if add then [k] else []) == AddKey(Distinct(xs), k, add)
  {
    if add {
      assert (xs + [k])[..|xs|] == xs;
    } else {
      assert xs + [] == xs;
    }
  }

  /** Reading a group back after storing it. */
  lemma BucketAssign(t: Array, k: Key, sub: Array, k': Key)
    ensures Bucket(Assign(t, k, Arr(sub)), k') == if k' == k then sub else Bucket(t, k')
  {
  }

  lemma SameHead(q: seq<Key>, path: seq<Key>)
    requires |q| == |path| > 0 && q[0] == path[0]
    ensures q == path <==> q[1..] == path[1..]
  {
    assert q == [q[0]] + q[1..];
    assert path == [path[0]] + path[1..];
  }

  /** Below every path as deep as `keys`, `categorize` holds exactly the rows
      filed under that path, in input order: under their own keys with
      `preserve`, re-keyed 0, 1, 2, ... without. Paths no row has lead to
      an empty group. */
  lemma {:induction false} CategorizeGroups(a: Array, keys: seq<Key>, preserve: bool, q: seq<Key>)
    requires Keyable(a, keys) && |q| == |keys|
    requires preserve ==> WellFormed(a)
    ensures Descend(Grouping(a, keys, preserve), q) == Group(a, keys, q, preserve)
  {
    if a == [] {
      EmptyDescend(q);
    } else {
      var e := a[|a| - 1];
      var a' := a[..|a| - 1];
      assert Keyable(a', keys);
      CategorizeGroups(a', keys, preserve, q);
      PlaceDescend(Grouping(a', keys, preserve), GroupPath(e.1, keys), e.0, e.1, preserve, q);
      GroupStep(a, keys, q, preserve);
    }
  }

  lemma {:induction false} EmptyDescend(q: seq<Key>)
    ensures Descend([], q) == []
    decreases |q|
  {
    if q != [] {
      EmptyDescend(q[1..]);
    }
  }

  /** Every row is filed once: it is in the group at its own path and in no
      other group of that depth. */
  lemma RowFiledOnce(a: Array, keys: seq<Key>, i: int, q: seq<Key>)
    requires Keyable(a, keys) && WellFormed(a)
    requires 0 <= i < |a| && |q| == |keys|
    ensures a[i] in Descend(Grouping(a, keys, true), q) <==> q == GroupPath(a[i].1, keys)
  {
    CategorizeGroups(a, keys, true, q);
  }

  /** The pairs `assignKeys` assigns: each row under the key its field
      `key` gives. */
  function KeyedRows(a: Array, key: Key): (ps: Array)
    requires Keyable(a, [key])
    ensures |ps| == |a|
    ensures forall i :: 0 <= i < |a| ==> Some(ps[i].0) == ValueKey(Field(a[i].1, key)) && ps[i].1 == a[i].1
  {
    seq(|a|, i requires 0 <= i < |a| => (GroupPath(a[i].1, [key])[0], a[i].1))
  }

  /** `assignKeys`: every row is assigned under the key its field gives,
      one after another: the result has one entry per distinct field value,
      placed where that value first occurs and holding the last row with
      that value. */
  method AssignKeys(a: Array, key: Key) returns (r: Array)
    requires Keyable(a, [key])
    ensures WellFormed(r)
    ensures KeysOf(r) == Distinct(KeysOf(KeyedRows(a, key)))
    ensures forall k :: Find(r, k) == LastValue(KeyedRows(a, key), k)
  {
    ghost var ps := KeyedRows(a, key);
    r := [];
    for i := 0 to |a|
      invariant r == AssignAll(ps[..i])
    {
      var row := a[i].1;
      AssignKeysStep(a, key, i);
      r := Assign(r, ValueKey(Field(row, key)).value, row);
    }
    assert ps[..|a|] == ps;
    AssignAllSpec(ps);
  }

  lemma AssignKeysStep(a: Array, key: Key, i: int)
    requires Keyable(a, [key]) && 0 <= i < |a|
    ensures ValueKey(Field(a[i].1, key)).Some?
    ensures AssignAll(KeyedRows(a, key)[..i + 1])
         == Assign(AssignAll(KeyedRows(a, key)[..i]), ValueKey(Field(a[i].1, key)).value, a[i].1)
  {
    var ps := KeyedRows(a, key);
    assert ps[..i + 1][..i] == ps[..i];
  }

  /** When every row has a different field value, `assignKeys` keeps every
      row, in order: only the keys change. */
  lemma AssignKeysDistinct(a: Array, key: Key)
    requires Keyable(a, [key])
    requires WellFormed(KeyedRows(a, key))
    ensures AssignAll(KeyedRows(a, key)) == KeyedRows(a, key)
    ensures ValuesOf(AssignAll(KeyedRows(a, key))) == ValuesOf(a)
  {
    AssignAllFresh(KeyedRows(a, key));
  }

  /** With a single field, the row `assignKeys` keeps under a key is the
      last row of the group `categorize` files under that key, and a key
      has an entry exactly when that group is not empty. */
  lemma {:induction false} AssignKeysLastOfGroup(a: Array, key: Key, k: Key)
    requires Keyable(a, [key])
    ensures k in KeysOf(KeyedRows(a, key)) <==> Matching(a, [key], [k]) != []
    ensures Matching(a, [key], [k]) != [] ==>
      LastValue(KeyedRows(a, key), k) == Some(Matching(a, [key], [k])[|Matching(a, [key], [k])| - 1].1)
  {
    if a != [] {
      var n := |a|;
      var a' := a[..n - 1];
      assert Keyable(a', [key]);
      AssignKeysLastOfGroup(a', key, k);
      KeyedRowsStep(a, key, k);
      var m := Matching(a, [key], [k]);
      var m' := Matching(a', [key], [k]);
      if KeyedRows(a, key)[n - 1].0 == k {
        assert m == m' + [a[n - 1]];
      } else {
        assert m == m';
      }
    }
  }

  /** Adding a row extends the pairs `assignKeys` assigns by one and the
      matching rows by at most that row. */
  lemma KeyedRowsStep(a: Array, key: Key, k: Key)
    requires Keyable(a, [key]) && a != []
    ensures Keyable(a[..|a| - 1], [key])
    ensures k in KeysOf(KeyedRows(a, key)) <==>
      k in KeysOf(KeyedRows(a[..|a| - 1], key)) || KeyedRows(a, key)[|a| - 1].0 == k
    ensures LastValue(KeyedRows(a, key), k) ==
      if KeyedRows(a, key)[|a| - 1].0 == k then Some(a[|a| - 1].1) else LastValue(KeyedRows(a[..|a| - 1], key), k)
    ensures Matching(a, [key], [k]) ==
      Matching(a[..|a| - 1], [key], [k]) + if KeyedRows(a, key)[|a| - 1].0 == k then [a[|a| - 1]] else []
  {
    var n := |a|;
    KeyedRowsSnoc(a, key);
    var ps := KeyedRows(a, key);
    KeysAppend(ps[..n - 1], [ps[n - 1]]);
    KeyedMatching(a, key, k);
  }

  /** The pairs of all rows are the pairs of all rows but the last, then the
      last row's pair. */
  lemma KeyedRowsSnoc(a: Array, key: Key)
    requires Keyable(a, [key]) && a != []
    ensures Keyable(a[..|a| - 1], [key])
    ensures KeyedRows(a, key)[..|a| - 1] == KeyedRows(a[..|a| - 1], key)
    ensures KeyedRows(a, key) == KeyedRows(a[..|a| - 1], key) + [KeyedRows(a, key)[|a| - 1]]
  {
    var n := |a|;
    var ps := KeyedRows(a, key);
    assert Keyable(a[..n - 1], [key]);
    assert ps[..n - 1] == KeyedRows(a[..n - 1], key);
    assert ps == ps[..n - 1] + [ps[n - 1]];
  }

  lemma KeyedMatching(a: Array, key: Key, k: Key)
    requires Keyable(a, [key]) && a != []
    ensures Keyable(a[..|a| - 1], [key])
    ensures Matching(a, [key], [k]) ==
      Matching(a[..|a| - 1], [key], [k]) + if KeyedRows(a, key)[|a| - 1].0 == k then [a[|a| - 1]] else []
  {
    MatchingStep(a, [key], [k]);
    SingleFieldPath(a[|a| - 1].1, key, k);
  }

  lemma SingleFieldPath(row: Value, key: Key, k: Key)
    requires RowKeyable(row, [key])
    ensures GroupPath(row, [key]) == [k] <==> GroupPath(row, [key])[0] == k
  {
    var p := GroupPath(row, [key]);
    assert p == [p[0]];
  }
}
