/** `Arrays::range`: the numbers from a minimum up to a maximum in equal
    steps. */
module ArraysRange {
  import opened PhpArray

  /** How many numbers `range` produces: none when min > max, whatever the
      step; otherwise, for an integer step > 0, one per step that fits. */
  function RangeCount(min: int, max: int, step: int): nat
    requires step > 0 || min > max
  {
    if min > max then 0 else (max - min) / step + 1
  }

  /** `range($min, $max, $step, $withKeys)` for integers: min, min + step,
      ... as long as the number does not exceed max; each number is its own
      key when `withKeys` is set, otherwise the result is a list. The loop
      ends when step > 0 or when it never starts (min > max). */
  method Range(min: int, max: int, step: int, withKeys: bool) returns (r: Array)
    requires step > 0 || min > max
    ensures WellFormed(r)
    ensures r == [] <==> min > max
    ensures r != [] ==> r[0].1 == Int(min)
    ensures forall j :: 0 <= j < |r| ==> r[j].1 == Int(min + j * step) && min + j * step <= max
    ensures forall j :: 0 < j < |r| ==> r[j].1 == Int(r[j - 1].1.i + step)
    ensures r != [] ==> r[|r| - 1].1.i + step > max
    ensures |r| == RangeCount(min, max, step)
    ensures forall j :: 0 <= j < |r| ==> r[j].0 == if withKeys then IntKey(r[j].1.i) else IntKey(j)
  {
    r := [];
    var i := min;
    ghost var vals: seq<int> := [];
    while i <= max
      invariant Produced(r, vals, min, max, step, withKeys)
      invariant i == min + |vals| * step
      invariant step > 0 || i > max
      decreases max - i
    {
      ProduceNext(r, vals, min, max, step, withKeys, i);
      if withKeys {
        r := Assign(r, IntKey(i), Int(i));
      } else {
        r := Push(r, Int(i));
      }
      vals := vals + [i];
      i := i + step;
    }
    RangeResult(r, vals, min, max, step, withKeys);
  }

  /** When the loop of `range` stops, what it has built is what `range`
      promises. */
  lemma RangeResult(r: Array, vals: seq<int>, min: int, max: int, step: int, withKeys: bool)
    requires step > 0 || min > max
    requires Produced(r, vals, min, max, step, withKeys)
    requires min + |vals| * step > max
    ensures WellFormed(r)
    ensures r == [] <==> min > max
    ensures r != [] ==> r[0].1 == Int(min)
    ensures forall j :: 0 <= j < |r| ==> r[j].1 == Int(min + j * step) && min + j * step <= max
    ensures forall j :: 0 < j < |r| ==> r[j].1 == Int(r[j - 1].1.i + step)
    ensures r != [] ==> r[|r| - 1].1.i + step > max
    ensures |r| == RangeCount(min, max, step)
    ensures forall j :: 0 <= j < |r| ==> r[j].0 == if withKeys then IntKey(r[j].1.i) else IntKey(j)
  {
    if r != [] {
      assert vals[0] == min + 0 * step;
      var n := |vals| - 1;
      assert vals[n] + step == min + |vals| * step by {
        NextTerm(min, step, n);
      }
    }
    forall j | 0 < j < |r|
      ensures r[j].1 == Int(r[j - 1].1.i + step)
    {
      NextTerm(min, step, j - 1);
    }
    if step > 0 {
      ProgressionCount(vals, min, max, step);
    }
  }

  /** What the loop of `range` has built so far: the first |vals| numbers
      min, min + step, min + 2·step, ..., all within `max`, each stored as it
      should be. */
  ghost predicate Produced(r: Array, vals: seq<int>, min: int, max: int, step: int, withKeys: bool) {
    && |vals| == |r| && WellFormed(r)
    && (forall j :: 0 <= j < |r| ==> r[j].1 == Int(vals[j]) && vals[j] <= max)
    && (forall j :: 0 <= j < |r| ==> r[j].0 == if withKeys then IntKey(vals[j]) else IntKey(j))
    && (forall j :: 0 <= j < |vals| ==> vals[j] == min + j * step)
  }

  /** One more iteration of the loop of `range` keeps `Produced`, and the
      next number is the following term. */
  lemma ProduceNext(r: Array, vals: seq<int>, min: int, max: int, step: int, withKeys: bool, i: int)
    requires step > 0 && i <= max
    requires Produced(r, vals, min, max, step, withKeys)
    requires i == min + |vals| * step
    ensures Produced(if withKeys then Assign(r, IntKey(i), Int(i)) else Push(r, Int(i)), vals + [i], min, max, step, withKeys)
    ensures i + step == min + |vals + [i]| * step
  {
    NextTerm(min, step, |vals|);
    var k := if withKeys then IntKey(i) else IntKey(|r|);
    if withKeys {
      forall j | 0 <= j < |vals| ensures vals[j] < i {
        TermsIncrease(min, step, j, |vals|);
      }
      assert k !in KeysOf(r);
      assert IndexOf(r, k) < 0;
      assert Assign(r, k, Int(i)) == r + [(k, Int(i))];
    } else {
      assert IsList(r);
      NextIndexOfList(r);
      assert Push(r, Int(i)) == r + [(k, Int(i))];
    }
    ProducedAppend(r, vals, min, max, step, withKeys, i, k);
  }

  lemma ProducedAppend(r: Array, vals: seq<int>, min: int, max: int, step: int, withKeys: bool, i: int, k: Key)
    requires i <= max
    requires Produced(r, vals, min, max, step, withKeys)
    requires i == min + |vals| * step
    requires k == if withKeys then IntKey(i) else IntKey(|r|)
    requires WellFormed(r + [(k, Int(i))])
    ensures Produced(r + [(k, Int(i))], vals + [i], min, max, step, withKeys)
  {
  }

  /** The term after min + n·step is min + (n + 1)·step. */
  lemma NextTerm(min: int, step: int, n: int)
    ensures min + n * step + step == min + (n + 1) * step
  {
  }

  /** With a positive step, earlier terms are smaller. */
  lemma TermsIncrease(min: int, step: int, j: int, n: int)
    requires step > 0 && 0 <= j < n
    ensures min + j * step < min + n * step
  {
    assert n * step - j * step == (n - j) * step;
  }

  /** The numbers min, min + step, ... that stay within `max`, followed by
      one that exceeds it, are `RangeCount(min, max, step)` many. */
  lemma ProgressionCount(vals: seq<int>, min: int, max: int, step: int)
    requires step > 0
    requires forall j :: 0 <= j < |vals| ==> vals[j] == min + j * step && vals[j] <= max
    requires min + |vals| * step > max
    ensures |vals| == RangeCount(min, max, step)
  {
    if vals != [] {
      var q := |vals| - 1;
      assert vals[q] == min + q * step;
      NextTerm(min, step, q);
      CountFromBounds(max - min, step, q);
    }
  }

  lemma CountFromBounds(d: int, step: int, q: int)
    requires step > 0 && q * step <= d < (q + 1) * step
    ensures d / step == q
  {
    var q', r' := d / step, d % step;
    assert d == q' * step + r' && 0 <= r' < step;
    var k := q - q';
    assert k * step == q * step - q' * step;
  }
}
