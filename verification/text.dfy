/** String and integer primitives with the .NET semantics the plugin relies on:
    ordinal and case-insensitive comparison, `Trim`, `LastIndexOf`,
    `Split`/`Join` on one separator character, `int.TryParse` and
    `int.ToString`.

    Characters compare by Unicode scalar value (a Dafny `char`), not by
    UTF-16 code unit. Culture-sensitive comparisons are modelled on ASCII
    case folding, and case-sensitive ones as exact equality; white space is
    the set that `NumberStyles.Integer` accepts (space and U+0009 to
    U+000D); a digit is an ASCII digit. */
module Text {
  import opened Wrappers

  const Int32Min: int := -0x8000_0000
  const Int32Max: int := 0x7FFF_FFFF

  predicate IsInt32(n: int) {
    Int32Min <= n <= Int32Max
  }

  /** The low 32 bits of `x` read as a two's-complement C# `int`: what an
      unchecked `int` result keeps of the exact value. */
  function ToInt32(x: int): (r: int)
    ensures IsInt32(r)
    ensures IsInt32(x) ==> r == x
    ensures (r - x) % 0x1_0000_0000 == 0
  {
    (x - Int32Min) % 0x1_0000_0000 + Int32Min
  }

  /** `++counter` on a C# `int`: one more, except that the largest value
      wraps to the smallest. */
  function Inc32(x: int): (r: int)
    ensures IsInt32(r)
    ensures IsInt32(x) && x < Int32Max ==> r == x + 1
    ensures x == Int32Max ==> r == Int32Min
  {
    ToInt32(x + 1)
  }

  // ---------------------------------------------------------------------------
  // Case folding and comparison
  // ---------------------------------------------------------------------------

  /** ASCII upper-case letters fold to lower case; everything else is kept. */
  function Lower(c: char): char {
    if 'A' <= c <= 'Z' then (c as int + 32) as char else c
  }

  /** Folds every character with `Lower`. */
  function LowerStr(s: string): (r: string)
    ensures |r| == |s|
  {
    if |s| == 0 then "" else [Lower(s[0])] + LowerStr(s[1..])
  }

  /** `string.Equals(a, b, …IgnoreCase)`. */
  predicate EqualsIgnoreCase(a: string, b: string) {
    LowerStr(a) == LowerStr(b)
  }

  /** `string.Compare(a, b, StringComparison.Ordinal)`, normalised to -1, 0, 1:
      lexicographic by character value, a proper prefix first. */
  function CompareOrdinal(a: string, b: string): (r: int)
    ensures -1 <= r <= 1
    ensures r == 0 <==> a == b
  {
    if |a| == 0 && |b| == 0 then 0
    else if |a| == 0 then -1
    else if |b| == 0 then 1
    else if a[0] < b[0] then -1
    else if a[0] > b[0] then 1
    else
      var r := CompareOrdinal(a[1..], b[1..]);
      assert a == [a[0]] + a[1..] && b == [b[0]] + b[1..];
      r
  }

  lemma {:induction false} CompareOrdinalAntisymmetric(a: string, b: string)
    ensures CompareOrdinal(a, b) == -CompareOrdinal(b, a)
    decreases |a|
  {
    if |a| > 0 && |b| > 0 && a[0] == b[0] {
      CompareOrdinalAntisymmetric(a[1..], b[1..]);
    }
  }

  lemma {:induction false} CompareOrdinalTransitive(a: string, b: string, c: string)
    requires CompareOrdinal(a, b) <= 0 && CompareOrdinal(b, c) <= 0
    ensures CompareOrdinal(a, c) <= 0
    decreases |a|
  {
    if |a| > 0 && |b| > 0 && |c| > 0 && a[0] == b[0] && b[0] == c[0] {
      CompareOrdinalTransitive(a[1..], b[1..], c[1..]);
    }
  }

  /** A strict step followed by a weak step stays strict (in either order). */
  lemma CompareOrdinalStrict(a: string, b: string, c: string)
    requires CompareOrdinal(a, b) <= 0 && CompareOrdinal(b, c) <= 0
    requires CompareOrdinal(a, b) < 0 || CompareOrdinal(b, c) < 0
    ensures CompareOrdinal(a, c) < 0
  {
    CompareOrdinalTransitive(a, b, c);
    if CompareOrdinal(a, c) == 0 {
      CompareOrdinalAntisymmetric(a, b);
      CompareOrdinalAntisymmetric(b, c);
    }
  }

  /** `string.Compare(a, b, …IgnoreCase)`, normalised to -1, 0, 1. */
  function CompareIgnoreCase(a: string, b: string): (r: int)
    ensures -1 <= r <= 1
    ensures r == 0 <==> EqualsIgnoreCase(a, b)
  {
    CompareOrdinal(LowerStr(a), LowerStr(b))
  }

  lemma CompareIgnoreCaseAntisymmetric(a: string, b: string)
    ensures CompareIgnoreCase(a, b) == -CompareIgnoreCase(b, a)
  {
    CompareOrdinalAntisymmetric(LowerStr(a), LowerStr(b));
  }

  lemma CompareIgnoreCaseTransitive(a: string, b: string, c: string)
    requires CompareIgnoreCase(a, b) <= 0 && CompareIgnoreCase(b, c) <= 0
    ensures CompareIgnoreCase(a, c) <= 0
    ensures CompareIgnoreCase(a, b) < 0 || CompareIgnoreCase(b, c) < 0 ==> CompareIgnoreCase(a, c) < 0
  {
    CompareOrdinalTransitive(LowerStr(a), LowerStr(b), LowerStr(c));
    if CompareIgnoreCase(a, b) < 0 || CompareIgnoreCase(b, c) < 0 {
      CompareOrdinalStrict(LowerStr(a), LowerStr(b), LowerStr(c));
    }
  }

  /** Integers compared as `int.CompareTo`, normalised to -1, 0, 1. */
  function CompareInt(x: int, y: int): (r: int)
    ensures -1 <= r <= 1
    ensures r < 0 <==> x < y
    ensures r == 0 <==> x == y
  {
    if x < y then -1 else if x > y then 1 else 0
  }

  // ---------------------------------------------------------------------------
  // Searching
  // ---------------------------------------------------------------------------

  /** `s.IndexOf(c)`: the first position of `c`, or -1. */
  function IndexOf(s: string, c: char): (r: int)
    ensures -1 <= r < |s|
    ensures r >= 0 ==> s[r] == c && c !in s[..r]
    ensures r < 0 <==> c !in s
  {
    if |s| == 0 then -1
    else if s[0] == c then 0
    else
      var r := IndexOf(s[1..], c);
      assert s == [s[0]] + s[1..];
      if r < 0 then -1
      else
        assert s[..r + 1] == [s[0]] + s[1..][..r];
        r + 1
  }

  /** `s.LastIndexOf(c)`: the last position of `c`, or -1. */
  function LastIndexOf(s: string, c: char): (r: int)
    ensures -1 <= r < |s|
    ensures r >= 0 ==> s[r] == c && c !in s[r + 1..]
    ensures r < 0 <==> c !in s
  {
    if |s| == 0 then -1
    else if s[|s| - 1] == c then |s| - 1
    else
      var r := LastIndexOf(s[..|s| - 1], c);
      assert s == s[..|s| - 1] + [s[|s| - 1]];
      assert r >= 0 ==> s[r + 1..] == s[..|s| - 1][r + 1..] + [s[|s| - 1]];
      r
  }

  /** The first `c` of `s + [c] + t` is the one added, when `s` has none. */
  lemma {:induction false} IndexOfAppend(s: string, c: char, t: string)
    requires c !in s
    ensures IndexOf(s + [c] + t, c) == |s|
    decreases |s|
  {
    var u := s + [c] + t;
    if |s| > 0 {
      assert s[0] in s;
      assert u[1..] == s[1..] + [c] + t;
      IndexOfAppend(s[1..], c, t);
    }
  }

  /** The last `c` of `s + [c] + t` is the one added, when `t` has none. */
  lemma {:induction false} LastIndexOfAppend(s: string, c: char, t: string)
    requires c !in t
    ensures LastIndexOf(s + [c] + t, c) == |s|
    decreases |t|
  {
    var u := s + [c] + t;
    if |t| > 0 {
      assert t[|t| - 1] in t;
      assert u[..|u| - 1] == s + [c] + t[..|t| - 1];
      LastIndexOfAppend(s, c, t[..|t| - 1]);
    }
  }

  /** `s.StartsWith(p, StringComparison.Ordinal)`. */
  predicate StartsWith(s: string, p: string) {
    |p| <= |s| && s[..|p|] == p
  }

  /** Every character of a prefix occurs in the string. */
  lemma StartsWithChars(s: string, p: string)
    ensures StartsWith(s, p) ==> forall x :: x in p ==> x in s
  {
    if StartsWith(s, p) {
      forall x | x in p ensures x in s {
        var i :| 0 <= i < |p| && p[i] == x;
        assert s[i] == x;
      }
    }
  }

  /** `s.Contains(sub)` (ordinal). */
  predicate Contains(s: string, sub: string)
    decreases |s|
  {
    StartsWith(s, sub) || (|s| > 0 && Contains(s[1..], sub))
  }

  /** `s.Replace(c.ToString(), "")`. */
  function RemoveChar(s: string, c: char): (r: string)
    ensures c !in r
    ensures c !in s ==> r == s
    ensures forall x :: x in r ==> x in s
  {
    if |s| == 0 then ""
    else
      var rest := RemoveChar(s[1..], c);
      assert s == [s[0]] + s[1..];
      if s[0] == c then rest else [s[0]] + rest
  }

  // ---------------------------------------------------------------------------
  // White space and trimming
  // ---------------------------------------------------------------------------

  predicate IsWhite(c: char) {
    c == ' ' || '\t' <= c <= '\r'
  }

  predicate NoWhiteEnds(s: string) {
    |s| == 0 || (!IsWhite(s[0]) && !IsWhite(s[|s| - 1]))
  }

  function TrimStart(s: string): (r: string)
    ensures |r| <= |s| && r == s[|s| - |r|..]
    ensures |r| == 0 || !IsWhite(r[0])
    ensures forall k :: 0 <= k < |s| - |r| ==> IsWhite(s[k])
    ensures forall x :: x in r ==> x in s
  {
    if |s| > 0 && IsWhite(s[0]) then TrimStart(s[1..]) else s
  }

  function TrimEnd(s: string): (r: string)
    ensures |r| <= |s| && r == s[..|r|]
    ensures |r| == 0 || !IsWhite(r[|r| - 1])
    ensures forall k :: |r| <= k < |s| ==> IsWhite(s[k])
    ensures forall x :: x in r ==> x in s
  {
    if |s| > 0 && IsWhite(s[|s| - 1]) then TrimEnd(s[..|s| - 1]) else s
  }

  /** `s` is `r` with white space only added at its two ends. */
  ghost predicate WhiteAround(s: string, r: string) {
    exists i, j :: 0 <= i <= j <= |s| && r == s[i..j] &&
      (forall k :: 0 <= k < i ==> IsWhite(s[k])) && (forall k :: j <= k < |s| ==> IsWhite(s[k]))
  }

  /** `s.Trim()`: the result starts and ends with a non-white character and is
      `s` with only white space removed from its two ends; a string with no
      white ends is its own trim. */
  function Trim(s: string): (r: string)
    ensures NoWhiteEnds(r)
    ensures WhiteAround(s, r)
    ensures NoWhiteEnds(s) ==> r == s
    ensures forall x :: x in r ==> x in s
  {
    var t := TrimStart(s);
    var r := TrimEnd(t);
    assert |r| > 0 ==> r[0] == t[0];
    TrimmedTwice(s, t, r);
    r
  }

  /** A white prefix cut from `s`, then a white suffix cut from the rest,
      leaves `s` with white space removed at its two ends only. */
  lemma TrimmedTwice(s: string, t: string, r: string)
    requires |t| <= |s| && t == s[|s| - |t|..] && |r| <= |t| && r == t[..|r|]
    requires forall k :: 0 <= k < |s| - |t| ==> IsWhite(s[k])
    requires forall k :: |r| <= k < |t| ==> IsWhite(t[k])
    ensures WhiteAround(s, r)
  {
    var i := |s| - |t|;
    assert s[i..i + |r|] == r;
    forall k | i + |r| <= k < |s| ensures IsWhite(s[k]) {
      assert s[k] == t[k - i];
    }
  }

  // ---------------------------------------------------------------------------
  // Numbers
  // ---------------------------------------------------------------------------

  /** `char.IsDigit`, restricted to ASCII. */
  predicate IsDigit(c: char) {
    '0' <= c <= '9'
  }

  predicate AllDigits(s: string) {
    forall i :: 0 <= i < |s| ==> IsDigit(s[i])
  }

  function DigitValue(c: char): nat
    requires IsDigit(c)
  {
    c as int - '0' as int
  }

  /** The decimal value of a digit string (most significant digit first). */
  function DigitsValue(s: string): nat
    requires AllDigits(s)
  {
    if |s| == 0 then 0 else DigitsValue(s[..|s| - 1]) * 10 + DigitValue(s[|s| - 1])
  }

  /** `int.TryParse(s, out v)` with `NumberStyles.Integer`: optional white
      space around, an optional leading sign, at least one digit, and the
      value must fit in 32 bits. */
  function ParseInt32(s: string): (r: Option<int>)
    ensures r.Some? ==> IsInt32(r.value)
  {
    var t := Trim(s);
    if |t| == 0 then None
    else
      var signed := t[0] == '-' || t[0] == '+';
      var digits := if signed then t[1..] else t;
      if |digits| == 0 || !AllDigits(digits) then None
      else
        var v: int := if t[0] == '-' then -(DigitsValue(digits) as int) else DigitsValue(digits);
        if IsInt32(v) then Some(v) else None
  }

  function DigitChar(d: nat): (c: char)
    requires d < 10
    ensures IsDigit(c) && DigitValue(c) == d
  {
    ('0' as int + d) as char
  }

  /** Decimal digits of `n`, no leading zeros. */
  function NatToString(n: nat): (r: string)
    ensures |r| >= 1 && AllDigits(r)
    ensures DigitsValue(r) == n
  {
    if n < 10 then
      var r := [DigitChar(n)];
      assert r[..0] == [];
      r
    else
      var r := NatToString(n / 10) + [DigitChar(n % 10)];
      assert r[..|r| - 1] == NatToString(n / 10);
      r
  }

  /** An all-digit string parses to its decimal value when that fits. */
  lemma ParseDigits(s: string)
    requires |s| > 0 && AllDigits(s)
    ensures Trim(s) == s
    ensures ParseInt32(s) == if IsInt32(DigitsValue(s)) then Some(DigitsValue(s)) else None
  {
    assert IsDigit(s[0]) && IsDigit(s[|s| - 1]);
    assert NoWhiteEnds(s);
    assert Trim(s) == s;
    assert s[0] != '-' && s[0] != '+';
  }

  /** `n.ToString()` in the invariant culture. */
  function IntToString(n: int): string {
    if n < 0 then "-" + NatToString(-n) else NatToString(n)
  }

  lemma ParseIntToString(n: int)
    requires IsInt32(n)
    ensures ParseInt32(IntToString(n)) == Some(n)
  {
    var s := IntToString(n);
    assert NoWhiteEnds(s);
    if n < 0 {
      assert s[1..] == NatToString(-n);
    }
  }

  // ---------------------------------------------------------------------------
  // Split and Join on one separator character
  // ---------------------------------------------------------------------------

  /** `s.Split(c)`: the pieces between separators, empty pieces included. */
  function Split(s: string, c: char): (r: seq<string>)
    ensures |r| >= 1
    ensures forall i :: 0 <= i < |r| ==> c !in r[i]
    decreases |s|
  {
    var i := IndexOf(s, c);
    if i < 0 then [s]
    else
      var rest := Split(s[i + 1..], c);
      var r := [s[..i]] + rest;
      assert forall k :: 1 <= k < |r| ==> r[k] == rest[k - 1];
      r
  }

  /** `string.Join(c, parts)`. */
  function Join(parts: seq<string>, c: char): string {
    if |parts| == 0 then ""
    else if |parts| == 1 then parts[0]
    else parts[0] + [c] + Join(parts[1..], c)
  }

  predicate NoneContains(parts: seq<string>, c: char) {
    forall i :: 0 <= i < |parts| ==> c !in parts[i]
  }

  /** Joining gives the empty string only for no pieces or one empty piece. */
  lemma JoinEmpty(parts: seq<string>, c: char)
    ensures Join(parts, c) == "" <==> |parts| == 0 || (|parts| == 1 && parts[0] == "")
  {
  }

  /** A character other than the separator occurs in a joined string only
      if it occurs in one of the pieces. */
  lemma {:induction false} JoinKeepsOut(parts: seq<string>, c: char, x: char)
    requires x != c && NoneContains(parts, x)
    ensures x !in Join(parts, c)
  {
    if |parts| > 1 {
      JoinKeepsOut(parts[1..], c, x);
    }
  }

  /** One step of `Split`: a separator-free head is split off at the first
      separator. */
  lemma SplitStep(p: string, c: char, rest: string)
    requires c !in p
    ensures Split(p + [c] + rest, c) == [p] + Split(rest, c)
  {
    var s := p + [c] + rest;
    IndexOfAppend(p, c, rest);
    assert s[..|p|] == p;
    assert s[|p| + 1..] == rest;
  }

  /** Splitting a joined list on the separator returns the list, provided no
      piece contains the separator. */
  lemma {:induction false} SplitJoin(parts: seq<string>, c: char)
    requires |parts| >= 1 && NoneContains(parts, c)
    ensures Split(Join(parts, c), c) == parts
    decreases |parts|
  {
    if |parts| > 1 {
      var p := parts[0];
      var rest := Join(parts[1..], c);
      assert Join(parts, c) == p + [c] + rest;
      SplitStep(p, c, rest);
      SplitJoin(parts[1..], c);
      assert parts == [p] + parts[1..];
    } else {
      assert Join(parts, c) == parts[0];
    }
  }

  /** The non-empty pieces, in order (`StringSplitOptions.RemoveEmptyEntries`). */
  function NonEmpty(parts: seq<string>): (r: seq<string>)
    ensures forall i :: 0 <= i < |r| ==> |r[i]| > 0 && r[i] in parts
  {
    if |parts| == 0 then []
    else
      var rest := NonEmpty(parts[1..]);
      if |parts[0]| == 0 then rest else [parts[0]] + rest
  }

  lemma {:induction false} NonEmptyKeepsNonEmpty(parts: seq<string>)
    requires forall i :: 0 <= i < |parts| ==> |parts[i]| > 0
    ensures NonEmpty(parts) == parts
  {
    if |parts| > 0 {
      NonEmptyKeepsNonEmpty(parts[1..]);
      assert parts == [parts[0]] + parts[1..];
    }
  }

  /** `s.Split(new[] { c }, StringSplitOptions.RemoveEmptyEntries)`. */
  function SplitNonEmpty(s: string, c: char): (r: seq<string>)
    ensures forall i :: 0 <= i < |r| ==> |r[i]| > 0 && c !in r[i]
  {
    NonEmpty(Split(s, c))
  }

  /** Joining non-empty, separator-free pieces and splitting them again with
      empty entries removed is the identity, also for the empty list. */
  lemma SplitNonEmptyJoin(parts: seq<string>, c: char)
    requires NoneContains(parts, c)
    requires forall i :: 0 <= i < |parts| ==> |parts[i]| > 0
    ensures SplitNonEmpty(Join(parts, c), c) == parts
  {
    if |parts| == 0 {
      assert Split("", c) == [""];
      assert NonEmpty([""]) == NonEmpty([""][1..]);
    } else {
      SplitJoin(parts, c);
      NonEmptyKeepsNonEmpty(parts);
    }
  }
}
