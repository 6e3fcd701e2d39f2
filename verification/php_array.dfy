/** The PHP array: an ordered map from integer or string keys to values, and
    the handful of primitive operations on it that the helpers are written
    with (`isset`, reading, assigning, appending, `+`). */
module PhpArray {
  import opened PhpStrings

  datatype Option<+T> = None | Some(value: T)

  /** An array key. PHP keys are integers or strings. */
  datatype Key = IntKey(i: int) | StrKey(s: string)

  /** The PHP values the helpers handle. Floats, objects and resources are
      not part of this model. */
  datatype Value = Null | Bool(b: bool) | Int(i: int) | Str(s: string) | Arr(a: Array)

  /** A PHP array: its entries in iteration (insertion) order. */
  type Array = seq<(Key, Value)>

  /** The keys of `a`, in order (`array_keys`). */
  function KeysOf(a: Array): (ks: seq<Key>)
    ensures |ks| == |a| && forall i :: 0 <= i < |a| ==> ks[i] == a[i].0
  {
    seq(|a|, i requires 0 <= i < |a| => a[i].0)
  }

  /** The values of `a`, in order (`array_values`). */
  function ValuesOf(a: Array): (vs: seq<Value>)
    ensures |vs| == |a| && forall i :: 0 <= i < |a| ==> vs[i] == a[i].1
  {
    seq(|a|, i requires 0 <= i < |a| => a[i].1)
  }

  /** Every PHP array has pairwise distinct keys. */
  predicate WellFormed(a: Array) {
    forall i, j :: 0 <= i < j < |a| ==> a[i].0 != a[j].0
  }

  /** Position of the entry with key `k`, or -1 when there is none. */
  function IndexOf(a: Array, k: Key): (i: int)
    ensures -1 <= i < |a|
    ensures i >= 0 ==> a[i].0 == k
    ensures forall j :: 0 <= j < |a| && (i < 0 || j < i) ==> a[j].0 != k
    ensures i < 0 <==> k !in KeysOf(a)
  {
    if a == [] then -1
    else
      var j := IndexOf(a[..|a| - 1], k);
      if j >= 0 then j
      else if a[|a| - 1].0 == k then |a| - 1
      else -1
  }

  /** The value stored under `k`, if the key is present (`array_key_exists`). */
  function Find(a: Array, k: Key): (r: Option<Value>)
    ensures r.Some? <==> k in KeysOf(a)
    ensures r.Some? ==> (k, r.value) in a
  {
    var i := IndexOf(a, k);
    if i < 0 then None else Some(a[i].1)
  }

  /** `isset($a[$k])`: the key is present and its value is not null. */
  predicate IsSet(a: Array, k: Key)
    ensures IsSet(a, k) ==> k in KeysOf(a)
  {
    Find(a, k).Some? && Find(a, k).value != Null
  }

  /** `$a[$k]` read without a guard: an absent key reads as null (PHP also
      emits a warning, which is not modelled). */
  function ValueAt(a: Array, k: Key): (v: Value)
    ensures k !in KeysOf(a) ==> v == Null
  {
    match Find(a, k)
    case Some(v) => v
    case None => Null
  }

  /** The keys of a concatenation are the keys of each part in turn. */
  lemma KeysAppend(x: Array, y: Array)
    ensures KeysOf(x + y) == KeysOf(x) + KeysOf(y)
  {
  }

  /** In a well-formed array, the last key occurs nowhere before it. */
  lemma LastKeyFresh(b: Array)
    requires WellFormed(b) && b != []
    ensures b[|b| - 1].0 !in KeysOf(b[..|b| - 1])
  {
  }

  /** In a well-formed array, the entry holding `k` is the one `Find` returns. */
  lemma FindEntry(a: Array, i: int)
    requires WellFormed(a) && 0 <= i < |a|
    ensures Find(a, a[i].0) == Some(a[i].1)
  {
    var j := IndexOf(a, a[i].0);
    assert j == i;
  }

  /** `$a[$k] = $v`: an existing key keeps its position and gets the new
      value; a new key is added at the end. */
  function Assign(a: Array, k: Key, v: Value): (r: Array)
    ensures KeysOf(r) == if k in KeysOf(a) then KeysOf(a) else KeysOf(a) + [k]
    ensures k !in KeysOf(a) ==> r == a + [(k, v)]
    ensures Find(r, k) == Some(v)
    ensures forall k' :: k' != k ==> Find(r, k') == Find(a, k')
    ensures WellFormed(a) ==> WellFormed(r)
  {
    var i := IndexOf(a, k);
    if i < 0 then
      var r := a + [(k, v)];
      assert KeysOf(r) == KeysOf(a) + [k];
      assert forall k' :: k' != k ==> IndexOf(r, k') == IndexOf(a, k');
      r
    else
      var r := a[i := (k, v)];
      assert KeysOf(r) == KeysOf(a);
      assert forall k' :: IndexOf(r, k') == IndexOf(a, k');
      r
  }

  /** The key `$a[] = $v` uses: one more than the largest non-negative
      integer key, or 0 when there is none. */
  function NextIndex(a: Array): (n: int)
    ensures n >= 0
    ensures forall j :: 0 <= j < |a| && a[j].0.IntKey? ==> a[j].0.i < n
  {
    if a == [] then 0
    else
      var m := NextIndex(a[..|a| - 1]);
      var last := a[|a| - 1].0;
      if last.IntKey? && last.i >= m then last.i + 1 else m
  }

  /** `$a[] = $v`: the value is added at the end under the next integer key. */
  function Push(a: Array, v: Value): (r: Array)
    ensures r == a + [(IntKey(NextIndex(a)), v)]
    ensures IntKey(NextIndex(a)) !in KeysOf(a)
    ensures WellFormed(a) ==> WellFormed(r)
  {
    Assign(a, IntKey(NextIndex(a)), v)
  }

  /** A list: the values of `vs` under the keys 0, 1, 2, ... */
  function List(vs: seq<Value>): (r: Array)
    ensures |r| == |vs|
    ensures forall i :: 0 <= i < |vs| ==> r[i] == (IntKey(i), vs[i])
  {
    seq(|vs|, i requires 0 <= i < |vs| => (IntKey(i), vs[i]))
  }

  lemma ListWellFormed(vs: seq<Value>)
    ensures WellFormed(List(vs))
    ensures ValuesOf(List(vs)) == vs
  {
  }

  /** An array whose keys are 0, 1, 2, ... in order. */
  predicate IsList(a: Array) {
    forall i :: 0 <= i < |a| ==> a[i].0 == IntKey(i)
  }

  /** The next append key of a list is its length. */
  lemma {:induction false} NextIndexOfList(a: Array)
    requires IsList(a)
    ensures NextIndex(a) == |a|
  {
    if a != [] {
      NextIndexOfList(a[..|a| - 1]);
    }
  }

  /** Appending to a list gives the longer list. */
  lemma PushList(vs: seq<Value>, v: Value)
    ensures Push(List(vs), v) == List(vs + [v])
  {
    NextIndexOfList(List(vs));
    assert Push(List(vs), v) == List(vs) + [(IntKey(|vs|), v)];
    assert List(vs) + [(IntKey(|vs|), v)] == List(vs + [v]);
  }

  /** Appending the next value of `vs` to the list of its first `i` values. */
  lemma PushNext(vs: seq<Value>, i: int)
    requires 0 <= i < |vs|
    ensures Push(List(vs[..i]), vs[i]) == List(vs[..i + 1])
  {
    assert vs[..i + 1] == vs[..i] + [vs[i]];
    PushList(vs[..i], vs[i]);
  }

  /** `$a + $b`: all of `a`, then the entries of `b` whose key `a` (as it
      grows) does not hold yet. */
  function Union(a: Array, b: Array): (r: Array)
    ensures |r| >= |a| && r[..|a|] == a
  {
    if b == [] then a
    else
      var u := Union(a, b[..|b| - 1]);
      var e := b[|b| - 1];
      if e.0 in KeysOf(u) then u else u + [e]
  }

  /** The keys of a union are the keys of both sides; a key of `a` keeps its
      value from `a`, any other key takes its value from `b`. */
  lemma {:induction false} FindUnion(a: Array, b: Array, k: Key)
    requires WellFormed(b)
    ensures k in KeysOf(Union(a, b)) <==> k in KeysOf(a) || k in KeysOf(b)
    ensures Find(Union(a, b), k) == if k in KeysOf(a) then Find(a, k) else Find(b, k)
    ensures WellFormed(a) ==> WellFormed(Union(a, b))
  {
    UnionKeys(a, b, k);
    if WellFormed(a) {
      UnionWellFormed(a, b);
    }
    if b != [] {
      var n := |b|;
      var b' := b[..n - 1];
      var e := b[n - 1];
      assert WellFormed(b');
      FindUnion(a, b', k);
      UnionKeys(a, b', e.0);
      var u := Union(a, b');
      LastKeyFresh(b);
      FindSnoc(b, k);
      if e.0 !in KeysOf(u) {
        UnionSnocFresh(u, e, k);
      }
    }
  }

  lemma {:induction false} UnionKeys(a: Array, b: Array, k: Key)
    ensures k in KeysOf(Union(a, b)) <==> k in KeysOf(a) || k in KeysOf(b)
  {
    if b != [] {
      var n := |b|;
      var b' := b[..n - 1];
      var e := b[n - 1];
      UnionKeys(a, b', k);
      assert KeysOf(b) == KeysOf(b') + [e.0];
      var u := Union(a, b');
      if e.0 !in KeysOf(u) {
        assert KeysOf(u + [e]) == KeysOf(u) + [e.0];
      }
    }
  }

  lemma {:induction false} UnionWellFormed(a: Array, b: Array)
    requires WellFormed(a)
    ensures WellFormed(Union(a, b))
  {
    if b != [] {
      var u := Union(a, b[..|b| - 1]);
      var e := b[|b| - 1];
      UnionWellFormed(a, b[..|b| - 1]);
      if e.0 !in KeysOf(u) {
        UnionSnocFresh(u, e, e.0);
      }
    }
  }

  /** Appending an entry with a fresh key: the key reads the new value, the
      others read as before, and distinct keys stay distinct. */
  lemma UnionSnocFresh(u: Array, e: (Key, Value), k: Key)
    requires e.0 !in KeysOf(u)
    ensures KeysOf(u + [e]) == KeysOf(u) + [e.0]
    ensures Find(u + [e], k) == if k == e.0 then Some(e.1) else Find(u, k)
    ensures WellFormed(u) ==> WellFormed(u + [e])
  {
    assert (u + [e])[..|u|] == u;
    FindSnoc(u + [e], k);
  }

  /** In an array whose last key is fresh, that key reads the last value
      and every other key reads as in the rest. */
  lemma FindSnoc(b: Array, k: Key)
    requires b != [] && b[|b| - 1].0 !in KeysOf(b[..|b| - 1])
    ensures KeysOf(b) == KeysOf(b[..|b| - 1]) + [b[|b| - 1].0]
    ensures Find(b, k) == if k == b[|b| - 1].0 then Some(b[|b| - 1].1) else Find(b[..|b| - 1], k)
  {
    var n := |b|;
    assert b == b[..n - 1] + [b[n - 1]];
    assert Assign(b[..n - 1], b[n - 1].0, b[n - 1].1) == b;
  }

  /** The keys of `ks` with repeats removed, each at its first occurrence. */
  function Distinct(ks: seq<Key>): (r: seq<Key>)
    ensures forall k :: k in r <==> k in ks
  {
    if ks == [] then []
    else
      var d := Distinct(ks[..|ks| - 1]);
      var k := ks[|ks| - 1];
      assert forall x :: x in ks <==> x in ks[..|ks| - 1] || x == k;
      if k in d then d else d + [k]
  }

  /** The array built by assigning the pairs of `ps` one after another
      (`foreach (... ) { $r[$k] = $v; }` starting from `[]`). */
  function AssignAll(ps: seq<(Key, Value)>): (r: Array)
  {
    if ps == [] then []
    else Assign(AssignAll(ps[..|ps| - 1]), ps[|ps| - 1].0, ps[|ps| - 1].1)
  }

  /** The value of the last pair in `ps` whose key is `k`. */
  function LastValue(ps: seq<(Key, Value)>, k: Key): (r: Option<Value>)
    ensures r.Some? <==> k in KeysOf(ps)
  {
    if ps == [] then None
    else if ps[|ps| - 1].0 == k then Some(ps[|ps| - 1].1)
    else
      assert KeysOf(ps) == KeysOf(ps[..|ps| - 1]) + [ps[|ps| - 1].0];
      LastValue(ps[..|ps| - 1], k)
  }

  /** Successive assignments leave one entry per distinct key, placed where
      the key was first assigned and holding the value assigned last. */
  lemma {:induction false} AssignAllSpec(ps: seq<(Key, Value)>)
    ensures WellFormed(AssignAll(ps))
    ensures KeysOf(AssignAll(ps)) == Distinct(KeysOf(ps))
    ensures forall k :: Find(AssignAll(ps), k) == LastValue(ps, k)
  {
    if ps != [] {
      var n := |ps|;
      AssignAllSpec(ps[..n - 1]);
      assert KeysOf(ps)[..n - 1] == KeysOf(ps[..n - 1]);
    }
  }

  /** A pair that no later pair overrides is the one a key reads back. */
  lemma {:induction false} LastValueLast(ps: seq<(Key, Value)>, i: int)
    requires 0 <= i < |ps|
    requires forall j :: i < j < |ps| ==> ps[j].0 != ps[i].0
    ensures LastValue(ps, ps[i].0) == Some(ps[i].1)
  {
    var n := |ps|;
    if i < n - 1 {
      LastValueLast(ps[..n - 1], i);
    }
  }

  /** When equal keys always come with equal values, each key reads back
      the value it was assigned with. */
  lemma {:induction false} LastValueConsistent(ps: seq<(Key, Value)>, i: int)
    requires 0 <= i < |ps|
    requires forall x, y :: 0 <= x < y < |ps| && ps[x].0 == ps[y].0 ==> ps[x].1 == ps[y].1
    ensures LastValue(ps, ps[i].0) == Some(ps[i].1)
  {
    var n := |ps|;
    if i < n - 1 && ps[n - 1].0 != ps[i].0 {
      LastValueConsistent(ps[..n - 1], i);
    }
  }

  /** Assigning pairs whose keys are all different builds exactly those
      pairs, in order. */
  lemma {:induction false} AssignAllFresh(ps: seq<(Key, Value)>)
    requires WellFormed(ps)
    ensures AssignAll(ps) == ps
  {
    if ps != [] {
      var n := |ps|;
      var init, p := ps[..n - 1], ps[n - 1];
      assert ps == init + [p];
      assert WellFormed(init) by {
        forall i, j | 0 <= i < j < |init| ensures init[i].0 != init[j].0 {
          assert init[i] == ps[i] && init[j] == ps[j];
        }
      }
      AssignAllFresh(init);
      LastKeyFresh(ps);
      AssignFreshSnoc(init, p);
    }
  }

  lemma AssignFreshSnoc(ps: seq<(Key, Value)>, p: (Key, Value))
    requires AssignAll(ps) == ps && p.0 !in KeysOf(ps)
    ensures AssignAll(ps + [p]) == ps + [p]
  {
    AssignAllSnoc(ps, p);
  }

  /** When equal keys always come with equal values, successive assignments
      leave every pair readable under its key. */
  lemma AssignAllConsistent(ps: seq<(Key, Value)>)
    requires forall x, y :: 0 <= x < y < |ps| && ps[x].0 == ps[y].0 ==> ps[x].1 == ps[y].1
    ensures WellFormed(AssignAll(ps))
    ensures KeysOf(AssignAll(ps)) == Distinct(KeysOf(ps))
    ensures forall i :: 0 <= i < |ps| ==> Find(AssignAll(ps), ps[i].0) == Some(ps[i].1)
  {
    AssignAllSpec(ps);
    forall i | 0 <= i < |ps| ensures Find(AssignAll(ps), ps[i].0) == Some(ps[i].1) {
      LastValueConsistent(ps, i);
    }
  }

  /** The requested keys that are set in `a`, each with its value, in
      request order (a repeated key is listed again). */
  function SetPairs(a: Array, ks: seq<Key>): (ps: Array)
    ensures forall k :: k in KeysOf(ps) <==> k in ks && IsSet(a, k)
    ensures forall i :: 0 <= i < |ps| ==> ps[i].1 == ValueAt(a, ps[i].0)
  {
    if ks == [] then []
    else
      var k := ks[|ks| - 1];
      var ps := SetPairs(a, ks[..|ks| - 1]);
      assert forall x :: x in ks <==> x in ks[..|ks| - 1] || x == k;
      if IsSet(a, k) then
        assert KeysOf(ps + [(k, ValueAt(a, k))]) == KeysOf(ps) + [k];
        ps + [(k, ValueAt(a, k))]
      else ps
  }

  /** One more requested key: assigned when it is set, skipped otherwise. */
  lemma SetPairsStep(a: Array, ks: seq<Key>, j: int)
    requires 0 <= j < |ks|
    ensures AssignAll(SetPairs(a, ks[..j + 1]))
         == if IsSet(a, ks[j]) then Assign(AssignAll(SetPairs(a, ks[..j])), ks[j], ValueAt(a, ks[j]))
            else AssignAll(SetPairs(a, ks[..j]))
  {
    assert ks[..j + 1][..j] == ks[..j];
    var ps := SetPairs(a, ks[..j]);
    if IsSet(a, ks[j]) {
      AssignAllSnoc(ps, (ks[j], ValueAt(a, ks[j])));
    }
  }

  /** One more assignment from `ps`. */
  lemma AssignAllStep(ps: seq<(Key, Value)>, i: int)
    requires 0 <= i < |ps|
    ensures AssignAll(ps[..i + 1]) == Assign(AssignAll(ps[..i]), ps[i].0, ps[i].1)
  {
    assert ps[..i + 1][..i] == ps[..i];
  }

  lemma AssignAllSnoc(ps: seq<(Key, Value)>, p: (Key, Value))
    ensures AssignAll(ps + [p]) == Assign(AssignAll(ps), p.0, p.1)
  {
    assert (ps + [p])[..|ps|] == ps;
  }

  /** The requested keys that are set in `a`, each once, in the order they
      are first requested. */
  function SetKeys(a: Array, ks: seq<Key>): (r: seq<Key>)
    ensures forall k :: k in r <==> k in ks && IsSet(a, k)
  {
    Distinct(KeysOf(SetPairs(a, ks)))
  }

  /** Assigning the set pairs one after another copies the requested keys
      that are set, with their values, in the order first requested. */
  lemma SetPairsTable(a: Array, ks: seq<Key>)
    ensures WellFormed(AssignAll(SetPairs(a, ks)))
    ensures KeysOf(AssignAll(SetPairs(a, ks))) == SetKeys(a, ks)
    ensures forall k :: k in KeysOf(AssignAll(SetPairs(a, ks))) ==> Find(AssignAll(SetPairs(a, ks)), k) == Find(a, k)
  {
    var ps := SetPairs(a, ks);
    var t := AssignAll(ps);
    assert WellFormed(t) && KeysOf(t) == SetKeys(a, ks) by {
      AssignAllConsistent(ps);
    }
    forall k | k in KeysOf(t) ensures Find(t, k) == Find(a, k) {
      assert k in KeysOf(ps);
      var i :| 0 <= i < |ps| && ps[i].0 == k;
      AssignAllConsistent(ps);
      assert Find(t, k) == Some(ps[i].1) == Some(ValueAt(a, k));
      assert IsSet(a, k);
    }
  }

  /** Keys from strings (path segments): a string that is the canonical
      decimal form of an integer becomes that integer key, any other string
      stays a string key. */
  function StringKey(s: string): (k: Key)
    ensures k.IntKey? ==> s == IntToString(k.i)
    ensures k.StrKey? ==> k.s == s
  {
    if IsCanonicalInt(s) then IntKey(IntValue(s)) else StrKey(s)
  }

  /** Different strings never become the same key. */
  lemma StringKeyInjective(s: string, t: string)
    requires StringKey(s) == StringKey(t)
    ensures s == t
  {
  }

  /** `$a["5"]` addresses the integer key 5. */
  lemma StringKeyOfInt(n: int)
    ensures StringKey(IntToString(n)) == IntKey(n)
  {
    CanonicalIntToString(n);
  }

  /** The key a value becomes when it is used as an array key: null is "",
      a boolean is 0 or 1, a string goes through `StringKey`; an array
      cannot be a key (PHP raises "Illegal offset type"). */
  function ValueKey(v: Value): (r: Option<Key>)
    ensures r.None? <==> v.Arr?
  {
    match v
    case Null => Some(StrKey(""))
    case Bool(b) => Some(IntKey(if b then 1 else 0))
    case Int(i) => Some(IntKey(i))
    case Str(s) => Some(StringKey(s))
    case Arr(_) => None
  }

  /** A key read back as the value PHP gives it (`foreach ($a as $k => ...)`). */
  function KeyValue(k: Key): (v: Value)
    ensures ValueKey(v) == Some(k) || (k.StrKey? && IsCanonicalInt(k.s))
  {
    match k
    case IntKey(i) => Int(i)
    case StrKey(s) => Str(s)
  }

  /** `isset($row[$k])` where `row` is an element of a table: rows that are
      not arrays hold no fields. */
  predicate HasField(row: Value, k: Key)
    ensures HasField(row, k) ==> row.Arr? && k in KeysOf(row.a)
  {
    row.Arr? && IsSet(row.a, k)
  }

  /** `$row[$k]` read without a guard on a row that is an array: it is not
      null exactly when `isset` holds. */
  function Field(row: Value, k: Key): (v: Value)
    requires row.Arr?
    ensures v != Null <==> HasField(row, k)
  {
    ValueAt(row.a, k)
  }

  /** A collection of rows as the grouping and sorting helpers need it:
      every row is an array. */
  predicate IsTable(a: Array) {
    forall i :: 0 <= i < |a| ==> a[i].1.Arr?
  }
}
