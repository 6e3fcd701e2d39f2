/** Zipping helpers: `combine` pairs the values of one array with the values
    of another as keys and values, `combine2` groups the values at the same
    index across several arrays into tuples. */
module ArraysCombine {
  import opened PhpStrings
  import opened PhpArray

  /** The key `combine` uses for index `i`: the value `$uArray1[$i]` turned
      into a key (a missing index reads as null, which is the key ""). */
  function CombineKey(a1: Array, i: int): (k: Key)
    requires !ValueAt(a1, IntKey(i)).Arr?
    ensures IntKey(i) !in KeysOf(a1) ==> k == StrKey("")
  {
    ValueKey(ValueAt(a1, IntKey(i))).value
  }

  /** The value `combine` stores for index `i`: `$uArray2[$i]` when it is
      set, null otherwise. */
  function CombineValue(a2: Array, i: int): (v: Value)
    ensures IsSet(a2, IntKey(i)) ==> Find(a2, IntKey(i)) == Some(v)
    ensures !IsSet(a2, IntKey(i)) ==> v == Null
  {
    if IsSet(a2, IntKey(i)) then ValueAt(a2, IntKey(i)) else Null
  }

  /** No value of `a1` under the indices 0 .. |a1|-1 is an array (an array
      cannot be a key). */
  predicate KeyableIndices(a1: Array) {
    forall i :: 0 <= i < |a1| ==> !ValueAt(a1, IntKey(i)).Arr?
  }

  /** The pairs `combine` assigns, in order. */
  function CombinePairs(a1: Array, a2: Array): (ps: Array)
    requires KeyableIndices(a1)
    ensures |ps| == |a1|
    ensures forall i :: 0 <= i < |a1| ==> ps[i] == (CombineKey(a1, i), CombineValue(a2, i))
  {
    seq(|a1|, i requires 0 <= i < |a1| => (CombineKey(a1, i), CombineValue(a2, i)))
  }

  /** `combine`: for every index below `count($uArray1)`, the value of
      `a1` at that index becomes a key holding the value of `a2` at that
      index, or null. A repeated key keeps its first position and takes the
      value of its last occurrence. */
  method Combine(a1: Array, a2: Array) returns (r: Array)
    requires KeyableIndices(a1)
    ensures WellFormed(r)
    ensures KeysOf(r) == Distinct(KeysOf(CombinePairs(a1, a2)))
    ensures forall k :: Find(r, k) == LastValue(CombinePairs(a1, a2), k)
  {
    r := [];
    var i := 0;
    while i < |a1|
      invariant 0 <= i <= |a1|
      invariant r == AssignAll(CombinePairs(a1, a2)[..i])
    {
      CombineStep(a1, a2, i);
      if !IsSet(a2, IntKey(i)) {
        r := Assign(r, ValueKey(ValueAt(a1, IntKey(i))).value, Null);
        i := i + 1;
        continue;
      }
      r := Assign(r, ValueKey(ValueAt(a1, IntKey(i))).value, ValueAt(a2, IntKey(i)));
      i := i + 1;
    }
    CombineTable(a1, a2);
  }

  /** One more index of `combine`. */
  lemma CombineStep(a1: Array, a2: Array, i: int)
    requires KeyableIndices(a1) && 0 <= i < |a1|
    ensures !IsSet(a2, IntKey(i)) ==>
      AssignAll(CombinePairs(a1, a2)[..i + 1])
      == Assign(AssignAll(CombinePairs(a1, a2)[..i]), ValueKey(ValueAt(a1, IntKey(i))).value, Null)
    ensures IsSet(a2, IntKey(i)) ==>
      AssignAll(CombinePairs(a1, a2)[..i + 1])
      == Assign(AssignAll(CombinePairs(a1, a2)[..i]), ValueKey(ValueAt(a1, IntKey(i))).value, ValueAt(a2, IntKey(i)))
  {
    AssignAllStep(CombinePairs(a1, a2), i);
  }

  /** What the assignments of `combine` build, once all indices are done. */
  lemma CombineTable(a1: Array, a2: Array)
    requires KeyableIndices(a1)
    ensures WellFormed(AssignAll(CombinePairs(a1, a2)[..|a1|]))
    ensures KeysOf(AssignAll(CombinePairs(a1, a2)[..|a1|])) == Distinct(KeysOf(CombinePairs(a1, a2)))
    ensures forall k :: Find(AssignAll(CombinePairs(a1, a2)[..|a1|]), k) == LastValue(CombinePairs(a1, a2), k)
  {
    var ps := CombinePairs(a1, a2);
    assert ps[..|a1|] == ps;
    AssignAllSpec(ps);
  }

  /** The key of index `i` holds the value of `a2` at `i` (or null) unless
      a later index gives the same key; and every such key is present. */
  lemma CombineIndex(a1: Array, a2: Array, i: int)
    requires KeyableIndices(a1) && 0 <= i < |a1|
    requires forall j :: i < j < |a1| ==> CombineKey(a1, j) != CombineKey(a1, i)
    ensures CombineKey(a1, i) in KeysOf(AssignAll(CombinePairs(a1, a2)))
    ensures Find(AssignAll(CombinePairs(a1, a2)), CombineKey(a1, i)) == Some(CombineValue(a2, i))
  {
    var ps := CombinePairs(a1, a2);
    AssignAllSpec(ps);
    LastValueLast(ps, i);
  }

  /** Combining a list of distinct keys with a list of non-null values
      of the same length pairs them up position by position. */
  lemma CombineLists(ks: seq<Key>, vs: seq<Value>)
    requires |ks| == |vs|
    requires forall i, j :: 0 <= i < j < |ks| ==> ks[i] != ks[j]
    requires forall i :: 0 <= i < |ks| && ks[i].StrKey? ==> !IsCanonicalInt(ks[i].s)
    requires forall i :: 0 <= i < |vs| ==> vs[i] != Null
    ensures KeyableIndices(KeyList(ks))
    ensures AssignAll(CombinePairs(KeyList(ks), List(vs))) == seq(|ks|, i requires 0 <= i < |ks| => (ks[i], vs[i]))
  {
    var a1 := KeyList(ks);
    var ps := CombinePairs(a1, List(vs));
    forall i | 0 <= i < |ks| ensures ValueAt(a1, IntKey(i)) == KeyValue(ks[i]) && Find(List(vs), IntKey(i)) == Some(vs[i]) {
      FindEntry(a1, i);
      FindEntry(List(vs), i);
    }
    forall i | 0 <= i < |ks| ensures ps[i] == (ks[i], vs[i]) {
    }
    assert ps == seq(|ks|, i requires 0 <= i < |ks| => (ks[i], vs[i]));
    AssignAllFresh(ps);
  }

  /** The list whose values are the keys `ks`. */
  function KeyList(ks: seq<Key>): (a: Array)
    ensures a == List(seq(|ks|, i requires 0 <= i < |ks| => KeyValue(ks[i])))
    ensures WellFormed(a)
  {
    ListWellFormed(seq(|ks|, i requires 0 <= i < |ks| => KeyValue(ks[i])));
    List(seq(|ks|, i requires 0 <= i < |ks| => KeyValue(ks[i])))
  }

  /** `isset($tArg[$i])` for at least one of the arrays. */
  predicate AnySet(args: seq<Array>, i: int) {
    exists j :: 0 <= j < |args| && IsSet(args[j], IntKey(i))
  }

  /** The tuple `combine2` builds for index `i`: the value of every array at
      that index, null where it is not set. */
  function Tuple(args: seq<Array>, i: int): (t: seq<Value>)
    ensures |t| == |args|
  {
    seq(|args|, j requires 0 <= j < |args| => if IsSet(args[j], IntKey(i)) then ValueAt(args[j], IntKey(i)) else Null)
  }

  /** A bound above every integer key of every array. */
  function KeyBound(args: seq<Array>): (n: nat)
    ensures forall j, i :: 0 <= j < |args| && i >= n ==> IntKey(i) !in KeysOf(args[j])
  {
    if args == [] then 0
    else
      var m := KeyBound(args[..|args| - 1]);
      var last := NextIndex(args[|args| - 1]);
      assert forall j :: 0 <= j < |args| - 1 ==> args[j] == args[..|args| - 1][j];
      if last > m then last else m
  }

  /** `combine2`: for `$i` = 0, 1, 2, ... the tuple of values at `$i`,
      until the first index at which no array has a set value. The result
      is a list of those tuples, each itself a list with one value per
      argument. */
  method Combine2(args: seq<Array>) returns (r: Array)
    ensures IsList(r)
    ensures forall i :: 0 <= i < |r| ==> r[i].1 == Arr(List(Tuple(args, i))) && AnySet(args, i)
    ensures !AnySet(args, |r|)
  {
    r := [];
    var i := 0;
    while true
      invariant i == |r| && TuplesUpTo(args, r)
      decreases KeyBound(args) - i
    {
      var values, allNull := CollectTuple(args, i);
      if allNull {
        break;
      }
      SetBelowBound(args, i);
      TuplesStep(args, r);
      r := Push(r, Arr(values));
      i := i + 1;
    }
  }

  /** `r` holds the tuples of the indices below `|r|`, each with a set value. */
  predicate TuplesUpTo(args: seq<Array>, r: Array) {
    IsList(r) && forall k :: 0 <= k < |r| ==> r[k].1 == Arr(List(Tuple(args, k))) && AnySet(args, k)
  }

  /** Appending the tuple of the next index, when one of its values is set,
      keeps `TuplesUpTo`. */
  lemma TuplesStep(args: seq<Array>, r: Array)
    requires TuplesUpTo(args, r) && AnySet(args, |r|)
    ensures TuplesUpTo(args, Push(r, Arr(List(Tuple(args, |r|)))))
  {
    NextIndexOfList(r);
    var x := Arr(List(Tuple(args, |r|)));
    assert Push(r, x) == r + [(IntKey(|r|), x)];
    TuplesSnoc(args, r, x);
  }

  lemma TuplesSnoc(args: seq<Array>, r: Array, x: Value)
    requires TuplesUpTo(args, r) && AnySet(args, |r|) && x == Arr(List(Tuple(args, |r|)))
    ensures TuplesUpTo(args, r + [(IntKey(|r|), x)])
  {
    var r' := r + [(IntKey(|r|), x)];
    forall k | 0 <= k < |r'|
      ensures r'[k].0 == IntKey(k)
      ensures r'[k].1 == Arr(List(Tuple(args, k))) && AnySet(args, k)
    {
      if k < |r| {
        assert r'[k] == r[k];
      }
    }
  }

  /** An index at which some value is set is below `KeyBound`. */
  lemma SetBelowBound(args: seq<Array>, i: int)
    requires AnySet(args, i)
    ensures i < KeyBound(args)
  {
    var j :| 0 <= j < |args| && IsSet(args[j], IntKey(i));
    assert IntKey(i) in KeysOf(args[j]);
  }

  /** One pass of the inner loop of `combine2`: the tuple for index `i`, and
      whether every one of its values was unset. */
  method CollectTuple(args: seq<Array>, i: int) returns (values: Array, allNull: bool)
    ensures values == List(Tuple(args, i))
    ensures allNull <==> !AnySet(args, i)
  {
    ghost var t := Tuple(args, i);
    values := [];
    allNull := true;
    for j := 0 to |args|
      invariant values == List(t[..j])
      invariant allNull == NoneSetBelow(args, i, j)
    {
      TupleStep(args, i, j);
      NoneSetStep(args, i, j);
      if IsSet(args[j], IntKey(i)) {
        allNull := false;
        values := Push(values, ValueAt(args[j], IntKey(i)));
        continue;
      }
      values := Push(values, Null);
    }
    assert t[..|args|] == t;
    NoneSetAll(args, i);
  }

  /** None of the first `j` arrays has a set value at index `i`. */
  predicate NoneSetBelow(args: seq<Array>, i: int, j: int)
    requires 0 <= j <= |args|
  {
    forall m :: 0 <= m < j ==> !IsSet(args[m], IntKey(i))
  }

  lemma NoneSetStep(args: seq<Array>, i: int, j: int)
    requires 0 <= j < |args|
    ensures NoneSetBelow(args, i, j + 1) == (NoneSetBelow(args, i, j) && !IsSet(args[j], IntKey(i)))
  {
  }

  /** `NoneSetBelow` over all the arrays is the negation of `AnySet`. */
  lemma NoneSetAll(args: seq<Array>, i: int)
    ensures NoneSetBelow(args, i, |args|) <==> !AnySet(args, i)
  {
  }

  /** One more argument of the inner loop of `combine2`. */
  lemma TupleStep(args: seq<Array>, i: int, j: int)
    requires 0 <= j < |args|
    ensures Push(List(Tuple(args, i)[..j]), if IsSet(args[j], IntKey(i)) then ValueAt(args[j], IntKey(i)) else Null)
         == List(Tuple(args, i)[..j + 1])
  {
    PushNext(Tuple(args, i), j);
  }

  /** Each tuple value is the array's value at the index when it is set,
      and null otherwise. */
  lemma TupleValues(args: seq<Array>, i: int, j: int)
    requires 0 <= j < |args|
    ensures IsSet(args[j], IntKey(i)) ==> Find(args[j], IntKey(i)) == Some(Tuple(args, i)[j])
    ensures !IsSet(args[j], IntKey(i)) ==> Tuple(args, i)[j] == Null
  {
  }

  /** The lists holding the value sequences `vss`. */
  function Lists(vss: seq<seq<Value>>): (args: seq<Array>)
    ensures |args| == |vss| && forall j :: 0 <= j < |vss| ==> args[j] == List(vss[j])
  {
    seq(|vss|, j requires 0 <= j < |vss| => List(vss[j]))
  }

  /** Zipping lists of non-null values that all have length `n` gives `n`
      tuples, tuple `i` holding the `i`-th value of every list, in argument
      order. */
  lemma Combine2OfLists(vss: seq<seq<Value>>, n: nat, r: Array)
    requires |vss| > 0
    requires forall j :: 0 <= j < |vss| ==> |vss[j]| == n && Null !in vss[j]
    requires IsList(r)
    requires forall i :: 0 <= i < |r| ==> r[i].1 == Arr(List(Tuple(Lists(vss), i))) && AnySet(Lists(vss), i)
    requires !AnySet(Lists(vss), |r|)
    ensures |r| == n
    ensures forall i :: 0 <= i < n ==> r[i].1 == Arr(List(seq(|vss|, j requires 0 <= j < |vss| => vss[j][i])))
  {
    if |r| < n {
      ListsTuple(vss, n, |r|);
    } else if |r| > n {
      ListsEnd(vss, n);
    }
    forall i | 0 <= i < n ensures Tuple(Lists(vss), i) == seq(|vss|, j requires 0 <= j < |vss| => vss[j][i]) {
      ListsTuple(vss, n, i);
    }
  }

  lemma ListsTuple(vss: seq<seq<Value>>, n: nat, i: int)
    requires |vss| > 0 && 0 <= i < n
    requires forall j :: 0 <= j < |vss| ==> |vss[j]| == n && Null !in vss[j]
    ensures AnySet(Lists(vss), i)
    ensures Tuple(Lists(vss), i) == seq(|vss|, j requires 0 <= j < |vss| => vss[j][i])
  {
    var args := Lists(vss);
    forall j | 0 <= j < |vss| ensures Find(args[j], IntKey(i)) == Some(vss[j][i]) && vss[j][i] != Null {
      ListWellFormed(vss[j]);
      FindEntry(args[j], i);
      assert vss[j][i] in vss[j];
    }
    assert IsSet(args[0], IntKey(i));
  }

  lemma ListsEnd(vss: seq<seq<Value>>, n: nat)
    requires forall j :: 0 <= j < |vss| ==> |vss[j]| == n
    ensures !AnySet(Lists(vss), n)
  {
    var args := Lists(vss);
    forall j | 0 <= j < |vss| ensures !IsSet(args[j], IntKey(n)) {
      assert IntKey(n) !in KeysOf(List(vss[j]));
    }
  }
}
