/**
 * The .NET string and char operations the modelled code calls, over ASCII and
 * ordinal (code-unit) comparison: `char.IsDigit`, `char.IsUpper`,
 * `ToLowerInvariant`, `StartsWith`, `EndsWith`, `Contains`, `Equals` and
 * `CompareTo`.
 */
module Text {

  predicate IsDigit(c: char) {
    '0' <= c <= '9'
  }

  /** Every character of `s` is a decimal digit. */
  predicate AllDigits(s: string) {
    forall i :: 0 <= i < |s| ==> IsDigit(s[i])
  }

  predicate IsUpper(c: char) {
    'A' <= c <= 'Z'
  }

  /** Lower-cases one ASCII letter and leaves every other character alone. */
  function ToLower(c: char): (r: char)
    ensures IsUpper(c) ==> r as int == c as int + 32
    ensures !IsUpper(c) ==> r == c
    ensures !IsUpper(r)
  {
    if IsUpper(c) then (c as int + 32) as char else c
  }

  function ToLowerInvariant(s: string): (r: string)
    ensures |r| == |s|
    ensures forall i :: 0 <= i < |s| ==> r[i] == ToLower(s[i])
  {
    seq(|s|, i requires 0 <= i < |s| => ToLower(s[i]))
  }

  /** `a` and `b` spell the same word when letter case is ignored, position by position. */
  predicate EqualsIgnoreCase(a: string, b: string) {
    |a| == |b| && forall i :: 0 <= i < |a| ==> ToLower(a[i]) == ToLower(b[i])
  }

  predicate StartsWith(s: string, prefix: string) {
    |prefix| <= |s| && s[..|prefix|] == prefix
  }

  predicate EndsWith(s: string, suffix: string) {
    |suffix| <= |s| && s[|s| - |suffix|..] == suffix
  }

  predicate OccursAt(s: string, sub: string, i: int) {
    0 <= i && i + |sub| <= |s| && s[i..i + |sub|] == sub
  }

  predicate Contains(s: string, sub: string) {
    exists i | 0 <= i <= |s| - |sub| :: OccursAt(s, sub, i)
  }

  lemma {:induction false} LowerEqualsIffIgnoreCase(a: string, b: string)
    ensures ToLowerInvariant(a) == ToLowerInvariant(b) <==> EqualsIgnoreCase(a, b)
  {
    if EqualsIgnoreCase(a, b) {
      assert forall i :: 0 <= i < |a| ==> ToLowerInvariant(a)[i] == ToLowerInvariant(b)[i];
    }
    if ToLowerInvariant(a) == ToLowerInvariant(b) {
      forall i | 0 <= i < |a| ensures ToLower(a[i]) == ToLower(b[i]) {
        assert ToLowerInvariant(a)[i] == ToLowerInvariant(b)[i];
      }
    }
  }

  /** Lower-casing commutes with taking a slice. */
  lemma LowerSlice(s: string, lo: nat, hi: nat)
    requires lo <= hi <= |s|
    ensures ToLowerInvariant(s)[lo..hi] == ToLowerInvariant(s[lo..hi])
  {
  }

  /** A prefix test on lower-cased strings is a case-insensitive prefix test. */
  lemma {:induction false} LowerStartsWith(s: string, prefix: string)
    ensures StartsWith(ToLowerInvariant(s), ToLowerInvariant(prefix))
        <==> |prefix| <= |s| && EqualsIgnoreCase(s[..|prefix|], prefix)
  {
    if |prefix| <= |s| {
      LowerSlice(s, 0, |prefix|);
      LowerEqualsIffIgnoreCase(s[..|prefix|], prefix);
    }
  }

  /** A suffix test on lower-cased strings is a case-insensitive suffix test. */
  lemma {:induction false} LowerEndsWith(s: string, suffix: string)
    ensures EndsWith(ToLowerInvariant(s), ToLowerInvariant(suffix))
        <==> |suffix| <= |s| && EqualsIgnoreCase(s[|s| - |suffix|..], suffix)
  {
    if |suffix| <= |s| {
      LowerSlice(s, |s| - |suffix|, |s|);
      LowerEqualsIffIgnoreCase(s[|s| - |suffix|..], suffix);
    }
  }

  /** string.Join: the parts with `separator` between each two of them. */
  function Join(separator: string, parts: seq<string>): (r: string)
    ensures parts == [] ==> r == []
  {
    if parts == [] then []
    else if |parts| == 1 then parts[0]
    else parts[0] + separator + Join(separator, parts[1..])
  }

  /** String.Split(char): the pieces of `s` between occurrences of `separator`. */
  function Split(s: string, separator: char): (parts: seq<string>)
    ensures |parts| >= 1
    ensures forall i :: 0 <= i < |parts| ==> separator !in parts[i]
    decreases |s|
  {
    if separator !in s then [s]
    else
      var k := FirstIndex(s, separator);
      [s[..k]] + Split(s[k + 1..], separator)
  }

  /** Joining the pieces of a split with the separator gives back the original string. */
  lemma {:induction false} SplitJoin(s: string, separator: char)
    ensures Join([separator], Split(s, separator)) == s
    decreases |s|
  {
    if separator in s {
      var k := FirstIndex(s, separator);
      var head, tail := s[..k], s[k + 1..];
      var rest := Split(tail, separator);
      assert Join([separator], Split(s, separator)) == head + [separator] + Join([separator], rest) by {
        var parts := [head] + rest;
        assert Split(s, separator) == parts;
        assert parts[0] == head && parts[1..] == rest && |parts| >= 2;
      }
      assert Join([separator], rest) == tail by {
        SplitJoin(tail, separator);
      }
      assert s == head + [separator] + tail;
    }
  }

  /** Splitting `a + separator + b`, where `a` holds no separator, gives `a` and then the pieces of `b`. */
  lemma SplitCons(a: string, b: string, separator: char)
    requires separator !in a
    ensures Split(a + [separator] + b, separator) == [a] + Split(b, separator)
  {
    var s := a + [separator] + b;
    assert s[|a|] == separator;
    var k := FirstIndex(s, separator);
    assert s[..k] == a && s[k + 1..] == b;
  }

  /** The position of the first occurrence of `c` in `s`. */
  function FirstIndex(s: string, c: char): (k: nat)
    requires c in s
    ensures k < |s| && s[k] == c && c !in s[..k]
  {
    if s[0] == c then 0
    else
      assert c in s[1..];
      1 + FirstIndex(s[1..], c)
  }

  /** Three-way ordinal comparison: -1, 0 or 1 as `a` sorts before, equal to or after `b`. */
  function CompareOrdinal(a: string, b: string): (r: int)
    ensures -1 <= r <= 1
    ensures r == 0 <==> a == b
  {
    if a == [] && b == [] then 0
    else if a == [] then -1
    else if b == [] then 1
    else if a[0] < b[0] then -1
    else if a[0] > b[0] then 1
    else
      assert a == [a[0]] + a[1..] && b == [b[0]] + b[1..];
      CompareOrdinal(a[1..], b[1..])
  }

  lemma {:induction false} CompareOrdinalAntisymmetric(a: string, b: string)
    ensures CompareOrdinal(b, a) == -CompareOrdinal(a, b)
  {
    if a != [] && b != [] && a[0] == b[0] {
      CompareOrdinalAntisymmetric(a[1..], b[1..]);
    }
  }

  lemma {:induction false} CompareOrdinalTransitive(a: string, b: string, c: string)
    requires CompareOrdinal(a, b) < 0 && CompareOrdinal(b, c) < 0
    ensures CompareOrdinal(a, c) < 0
  {
    if a != [] && b != [] && c != [] && a[0] == b[0] == c[0] {
      CompareOrdinalTransitive(a[1..], b[1..], c[1..]);
    }
  }

  /** `int.CompareTo`: -1, 0 or 1. */
  function CompareInt(x: int, y: int): (r: int)
    ensures -1 <= r <= 1
    ensures r < 0 <==> x < y
    ensures r == 0 <==> x == y
  {
    if x < y then -1 else if x == y then 0 else 1
  }
}
