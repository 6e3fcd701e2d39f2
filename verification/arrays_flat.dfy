/** `Arrays::flat`: the values of its arguments with every nested array
    replaced by its own values, recursively. */
module ArraysFlat {
  import opened PhpArray

  /** The non-array values reached from the first `n` values of `args`,
      depth first and left to right. */
  function LeavesUpTo(args: Array, n: nat): seq<Value>
    requires n <= |args|
    decreases Arr(args), n
  {
    if n == 0 then []
    else
      var v := args[n - 1].1;
      LeavesUpTo(args, n - 1) + if v.Arr? then LeavesUpTo(v.a, |v.a|) else [v]
  }

  /** The leaves of all of `args`. */
  function Leaves(args: Array): seq<Value> {
    LeavesUpTo(args, |args|)
  }

  /** `flat(...$args)`: the result is the list of the leaves of `args`. The
      variadic arguments arrive as the array `args`; a nested array is
      flattened by a recursive call whose results are appended one by one. */
  method Flat(args: Array) returns (r: Array)
    ensures r == List(Leaves(args))
    ensures forall i :: 0 <= i < |r| ==> !r[i].1.Arr?
    decreases Arr(args)
  {
    r := [];
    for i := 0 to |args|
      invariant r == List(LeavesUpTo(args, i))
    {
      var v := args[i].1;
      if v.Arr? {
        var sub := Flat(v.a);
        ghost var done := LeavesUpTo(args, i);
        ghost var leaves := Leaves(v.a);
        for j := 0 to |sub|
          invariant r == List(done + leaves[..j])
        {
          PushPrefix(done, leaves, j);
          r := Push(r, sub[j].1);
        }
        assert leaves[..|sub|] == leaves;
        continue;
      }
      PushList(LeavesUpTo(args, i), v);
      r := Push(r, v);
    }
    NoArrayLeaves(args, |args|);
  }

  lemma PushPrefix(done: seq<Value>, leaves: seq<Value>, j: nat)
    requires j < |leaves|
    ensures Push(List(done + leaves[..j]), leaves[j]) == List(done + leaves[..j + 1])
  {
    assert (done + leaves[..j]) + [leaves[j]] == done + leaves[..j + 1];
    PushList(done + leaves[..j], leaves[j]);
  }

  /** No leaf is an array. */
  lemma {:induction false} NoArrayLeaves(args: Array, n: nat)
    requires n <= |args|
    ensures forall x :: x in LeavesUpTo(args, n) ==> !x.Arr?
    decreases Arr(args), n
  {
    if n > 0 {
      NoArrayLeaves(args, n - 1);
      var v := args[n - 1].1;
      if v.Arr? {
        NoArrayLeaves(v.a, |v.a|);
      }
    }
  }

  /** Flattening a list that holds no arrays gives back its values. */
  lemma {:induction false} FlatOfFlatList(vs: seq<Value>, n: nat)
    requires n <= |vs|
    requires forall x :: x in vs ==> !x.Arr?
    ensures LeavesUpTo(List(vs), n) == vs[..n]
  {
    if n > 0 {
      FlatOfFlatList(vs, n - 1);
      assert vs[n - 1] in vs;
      assert vs[..n] == vs[..n - 1] + [vs[n - 1]];
    }
  }

  /** Flattening is idempotent: `flat(...flat(...$x)) == flat(...$x)`. */
  lemma FlatIdempotent(args: Array)
    ensures Leaves(List(Leaves(args))) == Leaves(args)
  {
    var vs := Leaves(args);
    NoArrayLeaves(args, |args|);
    FlatOfFlatList(vs, |vs|);
    assert vs[..|vs|] == vs;
  }

  /** The leaves of consecutive arguments are the leaves of each part in
      turn: `flat($a, $b)` is `flat($a)` followed by `flat($b)`. */
  lemma {:induction false} LeavesAppend(a: Array, b: Array, n: nat)
    requires n <= |b|
    ensures LeavesUpTo(a + b, |a| + n) == Leaves(a) + LeavesUpTo(b, n)
  {
    if n == 0 {
      LeavesPrefix(a, b, |a|);
    } else {
      LeavesAppend(a, b, n - 1);
      assert (a + b)[|a| + n - 1] == b[n - 1];
    }
  }

  lemma {:induction false} LeavesPrefix(a: Array, b: Array, n: nat)
    requires n <= |a|
    ensures LeavesUpTo(a + b, n) == LeavesUpTo(a, n)
  {
    if n > 0 {
      LeavesPrefix(a, b, n - 1);
      assert (a + b)[n - 1] == a[n - 1];
    }
  }
}
