/** The lookup helpers of `Arrays`: `getFirst`, `get`, `getArray`, `getPath`
    and `getArrayPath`. Each reads its input array and returns a value or a
    fresh array. */
module ArraysLookup {
  import opened PhpStrings
  import opened PhpArray

  /** `getFirst`: the first value of the array, or `default` when the array
      is empty or its first value is `false` (`current()` answers `false`
      for an empty array, and the helper cannot tell the two apart). */
  function GetFirst(a: Array, default: Value): (r: Value)
    ensures r == default || (a != [] && r == a[0].1 && r != Bool(false))
    ensures a != [] && a[0].1 != Bool(false) ==> r == a[0].1
  {
    if a == [] || a[0].1 == Bool(false) then default else a[0].1
  }

  /** `get`: the value under `k` when it is set (present and not null),
      otherwise `default`. */
  function Get(a: Array, k: Key, default: Value): (r: Value)
    ensures IsSet(a, k) ==> Find(a, k) == Some(r) && r != Null
    ensures !IsSet(a, k) ==> r == default
  {
    if IsSet(a, k) then Find(a, k).value else default
  }

  /** Reading back a key just assigned gives the assigned value unless it is
      null; every other key reads as before. */
  lemma GetAfterAssign(a: Array, k: Key, v: Value, k': Key, default: Value)
    ensures Get(Assign(a, k, v), k', default)
         == if k' != k then Get(a, k', default) else if v == Null then default else v
  {
  }

  /** `getArray`: one entry per requested key, in the order the keys are
      first requested, each holding `get($a, $k, null)`. */
  method GetArray(a: Array, keys: seq<Key>) returns (r: Array)
    ensures WellFormed(r)
    ensures KeysOf(r) == Distinct(keys)
    ensures forall k :: k in keys ==> Find(r, k) == Some(Get(a, k, Null))
  {
    r := [];
    for i := 0 to |keys|
      invariant r == AssignAll(RequestedPairs(a, keys)[..i])
    {
      RequestedStep(a, keys, i);
      r := Assign(r, keys[i], if IsSet(a, keys[i]) then ValueAt(a, keys[i]) else Null);
    }
    RequestedTable(a, keys);
  }

  /** The pairs `getArray` assigns, one per requested key. */
  ghost function RequestedPairs(a: Array, keys: seq<Key>): (ps: seq<(Key, Value)>)
    ensures |ps| == |keys|
    ensures forall i :: 0 <= i < |keys| ==> ps[i] == (keys[i], Get(a, keys[i], Null))
  {
    seq(|keys|, i requires 0 <= i < |keys| => (keys[i], Get(a, keys[i], Null)))
  }

  /** One more requested key. */
  lemma RequestedStep(a: Array, keys: seq<Key>, i: int)
    requires 0 <= i < |keys|
    ensures AssignAll(RequestedPairs(a, keys)[..i + 1])
         == Assign(AssignAll(RequestedPairs(a, keys)[..i]), keys[i], if IsSet(a, keys[i]) then ValueAt(a, keys[i]) else Null)
  {
    AssignAllStep(RequestedPairs(a, keys), i);
  }

  /** Assigning the requested pairs keeps one entry per requested key, in
      first-request order, holding `get`'s answer for it. */
  lemma RequestedTable(a: Array, keys: seq<Key>)
    ensures WellFormed(AssignAll(RequestedPairs(a, keys)[..|keys|]))
    ensures KeysOf(AssignAll(RequestedPairs(a, keys)[..|keys|])) == Distinct(keys)
    ensures forall k :: k in keys ==> Find(AssignAll(RequestedPairs(a, keys)[..|keys|]), k) == Some(Get(a, k, Null))
  {
    var ps := RequestedPairs(a, keys);
    assert ps[..|keys|] == ps;
    assert KeysOf(ps) == keys;
    assert WellFormed(AssignAll(ps)) && KeysOf(AssignAll(ps)) == Distinct(keys) by {
      AssignAllConsistent(ps);
    }
    forall k | k in keys ensures Find(AssignAll(ps), k) == Some(Get(a, k, Null)) {
      var i :| 0 <= i < |keys| && keys[i] == k;
      AssignAllConsistent(ps);
      assert ps[i].0 == k;
    }
  }

  /** The keys a path addresses: the pieces of `explode($sep, $path)`, each
      turned into a key as PHP does when a string indexes an array. */
  function PathKeys(sep: string, path: string): (ks: seq<Key>)
    requires |sep| > 0
    ensures |ks| == |Explode(sep, path)| >= 1
    ensures forall i :: 0 <= i < |ks| ==> ks[i] == StringKey(Explode(sep, path)[i])
  {
    var parts := Explode(sep, path);
    seq(|parts|, i requires 0 <= i < |parts| => StringKey(parts[i]))
  }

  /** Descending from `v` one key at a time. Each step needs the current
      value to be an array in which the key is set; a value that is not an
      array holds nothing. */
  function Walk(v: Value, ks: seq<Key>): (r: Option<Value>)
    ensures ks != [] && r.Some? ==> r.value != Null
    decreases |ks|
  {
    if ks == [] then Some(v)
    else if v.Arr? && IsSet(v.a, ks[0]) then Walk(ValueAt(v.a, ks[0]), ks[1..])
    else None
  }

  /** What `getPath` answers: the value at the end of the path, or `default`
      as soon as a step is missing. */
  function PathLookup(a: Array, path: string, default: Value, sep: string): Value
    requires |sep| > 0
  {
    match Walk(Arr(a), PathKeys(sep, path))
    case Some(v) => v
    case None => default
  }

  /** `getPath`: walks the segments of the path through nested arrays. */
  method GetPath(a: Array, path: string, default: Value, sep: string) returns (r: Value)
    requires |sep| > 0
    ensures r == PathLookup(a, path, default, sep)
  {
    var ks := PathKeys(sep, path);
    var cur := Arr(a);
    for i := 0 to |ks|
      invariant Walk(Arr(a), ks) == Walk(cur, ks[i..])
    {
      var k := ks[i];
      if !(cur.Arr? && IsSet(cur.a, k)) {
        return default;
      }
      cur := ValueAt(cur.a, k);
    }
    return cur;
  }

  /** Walking a concatenation is walking the first part, then the second
      from where the first ended. */
  lemma {:induction false} WalkAppend(v: Value, ks1: seq<Key>, ks2: seq<Key>)
    ensures Walk(v, ks1 + ks2)
         == match Walk(v, ks1) case None => None case Some(w) => Walk(w, ks2)
    decreases |ks1|
  {
    if ks1 != [] {
      assert (ks1 + ks2)[1..] == ks1[1..] + ks2;
      if v.Arr? && IsSet(v.a, ks1[0]) {
        WalkAppend(ValueAt(v.a, ks1[0]), ks1[1..], ks2);
      }
    } else {
      assert ks1 + ks2 == ks2;
    }
  }

  /** The walk gives up as soon as one step finds its key unset: `getPath`
      then returns the default, whatever the later segments are. */
  lemma StopsAtUnset(a: Array, path: string, default: Value, sep: string, i: nat, w: Value)
    requires |sep| > 0
    requires i < |PathKeys(sep, path)|
    requires Walk(Arr(a), PathKeys(sep, path)[..i]) == Some(w)
    requires !(w.Arr? && IsSet(w.a, PathKeys(sep, path)[i]))
    ensures PathLookup(a, path, default, sep) == default
  {
    var ks := PathKeys(sep, path);
    assert ks == ks[..i] + ks[i..];
    WalkAppend(Arr(a), ks[..i], ks[i..]);
  }

  /** A path without the separator is a single key: `getPath` is then `get`. */
  lemma SingleSegmentPath(a: Array, path: string, default: Value, sep: string)
    requires |sep| > 0 && Free(path, sep)
    ensures PathLookup(a, path, default, sep) == Get(a, StringKey(path), default)
  {
    ExplodeFree(sep, path);
    var ks := PathKeys(sep, path);
    assert ks == [StringKey(path)];
    var k := StringKey(path);
    if IsSet(a, k) {
      assert Walk(Arr(a), ks) == Walk(ValueAt(a, k), []);
    }
  }

  /** `getArrayPath`: for every requested path, the entry under that path
      string holds what `getPath` with separator "/" and default null
      answers; keys are in the order the paths are first requested. */
  method GetArrayPath(a: Array, paths: seq<string>) returns (r: Array)
    ensures WellFormed(r)
    ensures KeysOf(r) == Distinct(seq(|paths|, i requires 0 <= i < |paths| => StringKey(paths[i])))
    ensures forall p :: p in paths ==> Find(r, StringKey(p)) == Some(PathLookup(a, p, Null, "/"))
  {
    r := [];
    for i := 0 to |paths|
      invariant r == AssignAll(PathPairs(a, paths)[..i])
    {
      var v := WalkOrNull(a, paths[i]);
      PathStep(a, paths, i);
      r := Assign(r, StringKey(paths[i]), v);
    }
    PathTable(a, paths);
  }

  /** The inner loop of `getArrayPath`: the walk along the "/"-separated
      path, ending on null as soon as a step is missing. */
  method WalkOrNull(a: Array, path: string) returns (cur: Value)
    ensures cur == PathLookup(a, path, Null, "/")
  {
    var ks := PathKeys("/", path);
    cur := Arr(a);
    var j := 0;
    while j < |ks|
      invariant 0 <= j <= |ks|
      invariant Walk(Arr(a), ks) == Walk(cur, ks[j..])
      invariant cur == Null ==> Walk(Arr(a), ks) == None
    {
      var k := ks[j];
      if !(cur.Arr? && IsSet(cur.a, k)) {
        cur := Null;
        break;
      }
      cur := ValueAt(cur.a, k);
      j := j + 1;
    }
  }

  /** The pairs `getArrayPath` assigns, one per requested path. */
  ghost function PathPairs(a: Array, paths: seq<string>): (ps: seq<(Key, Value)>)
    ensures |ps| == |paths|
    ensures forall i :: 0 <= i < |paths| ==> ps[i] == (StringKey(paths[i]), PathLookup(a, paths[i], Null, "/"))
  {
    seq(|paths|, i requires 0 <= i < |paths| => (StringKey(paths[i]), PathLookup(a, paths[i], Null, "/")))
  }

  /** One more requested path. */
  lemma PathStep(a: Array, paths: seq<string>, i: int)
    requires 0 <= i < |paths|
    ensures AssignAll(PathPairs(a, paths)[..i + 1])
         == Assign(AssignAll(PathPairs(a, paths)[..i]), StringKey(paths[i]), PathLookup(a, paths[i], Null, "/"))
  {
    AssignAllStep(PathPairs(a, paths), i);
  }

  /** Two paths that give the same key are the same path, so assigning
      the pairs leaves each path's answer under its key. */
  lemma PathTable(a: Array, paths: seq<string>)
    ensures WellFormed(AssignAll(PathPairs(a, paths)[..|paths|]))
    ensures KeysOf(AssignAll(PathPairs(a, paths)[..|paths|])) == Distinct(seq(|paths|, i requires 0 <= i < |paths| => StringKey(paths[i])))
    ensures forall p :: p in paths ==> Find(AssignAll(PathPairs(a, paths)[..|paths|]), StringKey(p)) == Some(PathLookup(a, p, Null, "/"))
  {
    var ps := PathPairs(a, paths);
    assert ps[..|paths|] == ps;
    forall x, y | 0 <= x < y < |ps| && ps[x].0 == ps[y].0 ensures ps[x].1 == ps[y].1 {
      StringKeyInjective(paths[x], paths[y]);
    }
    assert KeysOf(ps) == seq(|paths|, i requires 0 <= i < |paths| => StringKey(paths[i]));
    assert WellFormed(AssignAll(ps)) && KeysOf(AssignAll(ps)) == Distinct(KeysOf(ps)) by {
      AssignAllConsistent(ps);
    }
    forall p | p in paths ensures Find(AssignAll(ps), StringKey(p)) == Some(PathLookup(a, p, Null, "/")) {
      var i :| 0 <= i < |paths| && paths[i] == p;
      AssignAllConsistent(ps);
      assert ps[i].0 == StringKey(p);
    }
  }
}
