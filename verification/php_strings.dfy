/** The two pieces of PHP string behaviour the array helpers depend on:
    `explode`, which splits a path into its segments, and the decimal form of
    an integer, which decides whether a string used as an array key is turned
    into an integer key. */
module PhpStrings {

  /** True when `sep` occurs in `s` starting at position `i`. */
  predicate OccursAt(s: string, sep: string, i: nat) {
    i + |sep| <= |s| && s[i..i + |sep|] == sep
  }

  /** True when `sep` occurs nowhere in `s`. */
  predicate Free(s: string, sep: string) {
    forall i: nat :: i <= |s| ==> !OccursAt(s, sep, i)
  }

  /** Position of the first occurrence of `sep` in `s` at or after `from`, or -1. */
  function FindFrom(s: string, sep: string, from: nat): (i: int)
    requires |sep| > 0 && from <= |s|
    ensures i == -1 || (from <= i && OccursAt(s, sep, i))
    ensures forall j: nat :: from <= j <= |s| && (i == -1 || j < i) ==> !OccursAt(s, sep, j)
    decreases |s| - from
  {
    if OccursAt(s, sep, from) then from
    else if from == |s| then -1
    else FindFrom(s, sep, from + 1)
  }

  /** PHP's `explode($sep, $s)` for a non-empty separator and no limit: the
      pieces of `s` between the occurrences of `sep`, scanning left to right. */
  function Explode(sep: string, s: string): (parts: seq<string>)
    requires |sep| > 0
    ensures |parts| >= 1
    decreases |s|
  {
    var i := FindFrom(s, sep, 0);
    if i < 0 then [s] else [s[..i]] + Explode(sep, s[i + |sep|..])
  }

  /** PHP's `implode($sep, $parts)`. */
  function Implode(sep: string, parts: seq<string>): string {
    if parts == [] then ""
    else if |parts| == 1 then parts[0]
    else parts[0] + sep + Implode(sep, parts[1..])
  }

  /** Joining the pieces of `explode` with the separator gives back the string. */
  lemma {:induction false} ImplodeExplode(sep: string, s: string)
    requires |sep| > 0
    ensures Implode(sep, Explode(sep, s)) == s
    decreases |s|
  {
    var i := FindFrom(s, sep, 0);
    if i < 0 {
      assert Explode(sep, s) == [s];
    } else {
      var rest := s[i + |sep|..];
      ImplodeExplode(sep, rest);
      ExplodeLeftmost(sep, s, i);
      ImplodeCons(sep, s[..i], Explode(sep, rest));
      SplitAround(s, sep, i);
    }
  }

  lemma SplitAround(s: string, sep: string, i: nat)
    requires OccursAt(s, sep, i)
    ensures s == s[..i] + sep + s[i + |sep|..]
  {
    assert s == s[..i] + s[i..i + |sep|] + s[i + |sep|..];
  }

  lemma ImplodeCons(sep: string, head: string, tail: seq<string>)
    requires |tail| >= 1
    ensures Implode(sep, [head] + tail) == head + sep + Implode(sep, tail)
  {
    assert ([head] + tail)[1..] == tail;
  }

  /** No piece produced by `explode` contains the separator. */
  lemma {:induction false} ExplodePartsFree(sep: string, s: string)
    requires |sep| > 0
    ensures forall p :: p in Explode(sep, s) ==> Free(p, sep)
    decreases |s|
  {
    var i := FindFrom(s, sep, 0);
    if i < 0 {
      assert Explode(sep, s) == [s];
    } else {
      var rest := s[i + |sep|..];
      ExplodePartsFree(sep, rest);
      var head := s[..i];
      forall j: nat | j <= |head| ensures !OccursAt(head, sep, j) {
        if OccursAt(head, sep, j) {
          assert head[j..j + |sep|] == s[j..j + |sep|];
          assert OccursAt(s, sep, j);
          assert false;
        }
      }
    }
  }

  /** The first piece ends at the leftmost occurrence of the separator, even
      when occurrences overlap ("aa" splits "aaa" into "" and "a"); the rest
      is split the same way. */
  lemma ExplodeLeftmost(sep: string, s: string, i: nat)
    requires |sep| > 0 && OccursAt(s, sep, i)
    requires forall j: nat :: j < i ==> !OccursAt(s, sep, j)
    ensures Explode(sep, s) == [s[..i]] + Explode(sep, s[i + |sep|..])
  {
    FindLeftmost(s, sep, i);
  }

  /** The search finds the leftmost occurrence. */
  lemma FindLeftmost(s: string, sep: string, i: nat)
    requires |sep| > 0 && OccursAt(s, sep, i)
    requires forall j: nat :: j < i ==> !OccursAt(s, sep, j)
    ensures FindFrom(s, sep, 0) == i
  {
  }

  /** A string without the separator is a single piece. */
  lemma ExplodeFree(sep: string, s: string)
    requires |sep| > 0 && Free(s, sep)
    ensures Explode(sep, s) == [s]
  {
    assert FindFrom(s, sep, 0) == -1 by {
      var i := FindFrom(s, sep, 0);
      assert i >= 0 ==> OccursAt(s, sep, i);
    }
  }

  predicate IsDigit(c: char) { '0' <= c <= '9' }

  function DigitChar(d: nat): (c: char)
    requires d < 10
    ensures IsDigit(c)
  {
    ('0' as int + d) as char
  }

  /** The decimal digits of `n`, most significant first, without leading zeros. */
  function NatToString(n: nat): (s: string)
    ensures |s| >= 1 && forall c :: c in s ==> IsDigit(c)
    decreases n
  {
    if n < 10 then [DigitChar(n)] else NatToString(n / 10) + [DigitChar(n % 10)]
  }

  /** PHP's `(string)$n` for an integer: the canonical decimal form. */
  function IntToString(n: int): string {
    if n < 0 then "-" + NatToString(-n) else NatToString(n)
  }

  /** The number written by a string of decimal digits. */
  function DigitsValue(s: string): nat
    requires forall c :: c in s ==> IsDigit(c)
  {
    if s == [] then 0
    else
      assert s[|s| - 1] in s;
      assert IsDigit(s[|s| - 1]);
      DigitsValue(s[..|s| - 1]) * 10 + (s[|s| - 1] as int - '0' as int)
  }

  /** An optional minus sign followed by at least one decimal digit. */
  predicate IsIntSyntax(s: string) {
    if |s| > 0 && s[0] == '-' then |s| > 1 && forall c :: c in s[1..] ==> IsDigit(c)
    else |s| > 0 && forall c :: c in s ==> IsDigit(c)
  }

  function IntValue(s: string): int
    requires IsIntSyntax(s)
  {
    if s[0] == '-' then 0 - DigitsValue(s[1..]) as int else DigitsValue(s)
  }

  /** A string is an integer literal in canonical form exactly when it is the
      decimal form of some integer; this is the test PHP applies to string keys. */
  predicate IsCanonicalInt(s: string) {
    IsIntSyntax(s) && IntToString(IntValue(s)) == s
  }

  lemma {:induction false} DigitsOfNat(n: nat)
    ensures DigitsValue(NatToString(n)) == n
    decreases n
  {
    if n >= 10 {
      DigitsOfNat(n / 10);
      var s := NatToString(n);
      assert s[..|s| - 1] == NatToString(n / 10);
    }
  }

  /** The decimal form of every integer is read back as that integer. */
  lemma {:induction false} CanonicalIntToString(n: int)
    ensures IsCanonicalInt(IntToString(n))
    ensures IntValue(IntToString(n)) == n
  {
    var s := IntToString(n);
    if n < 0 {
      var d := NatToString(-n);
      assert s[0] == '-' && s[1..] == d;
      assert IsIntSyntax(s);
      DigitsOfNat(-n);
      assert IntValue(s) == 0 - DigitsValue(d) as int;
    } else {
      assert s[0] in s;
      assert IsIntSyntax(s);
      DigitsOfNat(n);
      assert IntValue(s) == DigitsValue(s);
    }
  }
}
