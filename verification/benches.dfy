/** A recorded bench (`BenchRef`) and the name rules that live on it: the
    trailing `#n` number, the "default name" recogniser and the natural
    ordering used to sort the bench list. */
module Benches {
  import opened Wrappers
  import opened Text
  import Sorting

  /** One recorded bench. `parent` is "" where the plugin has a null
      `ParentCategory`. */
  datatype Bench = Bench(
    scene: string,
    marker: string,
    displayName: string,
    parent: string,
    isRenamed: bool,
    addedOrder: int,
    isFavorite: bool,
    favoriteOrder: int)
  {
    /** The identity of a bench: its scene and its marker. */
    function Key(): (string, string) { (scene, marker) }
  }

  /** No two benches share a (scene, marker) pair. */
  ghost predicate UniqueKeys(bs: seq<Bench>) {
    Sorting.DistinctBy(bs, (b: Bench) => b.Key())
  }

  /** The name `#n` the plugin gives to an unrenamed bench. */
  function NumberName(n: nat): string {
    "#" + NatToString(n)
  }

  /** The positive number after the last `#` of a display name, when that
      tail is (after trimming) a non-empty run of digits that fits in 32
      bits. Used to collect the numbers already taken in a category. */
  function TrailingNumber(dn: string): (r: Option<int>)
    ensures r.Some? ==> r.value > 0 && IsInt32(r.value)
    ensures r.Some? ==> '#' in dn
  {
    NumberAfter(dn, LastIndexOf(dn, '#'))
  }

  /** The number read from the trimmed text after position `p`, if any. */
  function NumberAfter(dn: string, p: int): (r: Option<int>)
    ensures r.Some? ==> r.value > 0 && IsInt32(r.value)
  {
    if p >= 0 && p + 1 < |dn| then PositiveNumber(Trim(dn[p + 1..])) else None
  }

  /** The digits after the `#`, read as a positive 32-bit number. */
  function PositiveNumber(numStr: string): (r: Option<int>)
    ensures r.Some? ==> r.value > 0 && IsInt32(r.value)
  {
    if |numStr| > 0 && AllDigits(numStr) then
      match ParseInt32(numStr)
      case Some(n) => if n > 0 then Some(n) else None
      case None => None
    else None
  }

  /** A `#n` name carries the number `n` back. */
  lemma TrailingNumberOfNumberName(n: nat)
    requires 0 < n && IsInt32(n)
    ensures TrailingNumber(NumberName(n)) == Some(n)
  {
    NumberNameParts(n);
    ParseDigits(NatToString(n));
  }

  /** `#n` has its only `#` in front of the digits of `n`. */
  lemma NumberNameParts(n: nat)
    ensures LastIndexOf(NumberName(n), '#') == 0
    ensures NumberName(n)[1..] == NatToString(n) && NumberName(n)[..0] == ""
  {
    assert NumberName(n) == "" + ['#'] + NatToString(n);
    LastIndexOfAppend("", '#', NatToString(n));
  }

  /** `NumberAfter` inside the name reads the trimmed tail. */
  lemma NumberAfterIn(dn: string, p: int)
    requires 0 <= p && p + 1 < |dn|
    ensures NumberAfter(dn, p) == PositiveNumber(Trim(dn[p + 1..]))
  {
  }

  /** `TrailingNumber` is `NumberAfter` at the last `#`. */
  lemma TrailingNumberLast(dn: string)
    ensures TrailingNumber(dn) == NumberAfter(dn, LastIndexOf(dn, '#'))
  {
  }

  /** `TrailingNumber` reads the trimmed text after the last `#`. */
  lemma TrailingNumberAt(dn: string, p: int)
    requires p == LastIndexOf(dn, '#') && p >= 0 && p + 1 < |dn|
    ensures TrailingNumber(dn) == PositiveNumber(Trim(dn[p + 1..]))
  {
    TrailingNumberLast(dn);
    NumberAfterIn(dn, p);
  }

  /** `#` followed by digits carries exactly the number those digits read
      as. */
  lemma HashTrailing(digits: string)
    requires |digits| > 0 && AllDigits(digits)
    ensures TrailingNumber("#" + digits) == PositiveNumber(digits)
  {
    HashDigits(digits);
    assert ("#" + digits)[1..] == digits;
  }

  /** In `#` followed by digits, the `#` is the last one and the digits
      follow it untouched by trimming. */
  lemma HashDigits(digits: string)
    requires AllDigits(digits)
    ensures LastIndexOf("#" + digits, '#') == 0
    ensures NoWhiteEnds(digits)
  {
    assert "#" + digits == "" + ['#'] + digits;
    LastIndexOfAppend("", '#', digits);
  }


  /** The `#digits` branch: the trimmed name is `#` followed by (after
      trimming) a non-empty run of digits. */
  predicate IsNumberOnlyName(name: string) {
    var t := Trim(name);
    |t| > 1 && t[0] == '#' && |Trim(t[1..])| > 0 && AllDigits(Trim(t[1..]))
  }

  /** The older `<prefix> #<digits>` shape for one candidate prefix. */
  predicate HasPrefixedNumber(name: string, prefix: string) {
    StartsWith(name, prefix + " #") &&
    var idx := LastIndexOf(name, '#');
    idx >= 0 && idx + 1 < |name| && AllDigits(name[idx + 1..])
  }

  /** `BenchRef.LooksLikeDefaultNameForScene`: the candidate prefixes (zone
      key, resolved category name, localized zone name) come from the host,
      and empty candidates are never used. */
  predicate LooksLikeDefaultName(scene: string, name: string, prefixes: seq<string>) {
    |scene| > 0 && |name| > 0 &&
    (IsNumberOnlyName(name) ||
     exists k :: 0 <= k < |prefixes| && |prefixes[k]| > 0 && HasPrefixedNumber(name, prefixes[k]))
  }

  /** Every name the plugin generates is recognised as a default name, so a
      reload restores `IsRenamed = false` for it. */
  lemma {:induction false} GeneratedNamesLookDefault(scene: string, n: nat, p: string, k: nat, prefixes: seq<string>)
    requires |scene| > 0
    requires |p| > 0 && p in prefixes
    ensures LooksLikeDefaultName(scene, NumberName(n), prefixes)
    ensures LooksLikeDefaultName(scene, p + " #" + NatToString(k), prefixes)
  {
    NumberNameLooksDefault(scene, n, prefixes);
    PrefixedNameLooksDefault(scene, p, k, prefixes);
  }

  lemma NumberNameLooksDefault(scene: string, n: nat, prefixes: seq<string>)
    requires |scene| > 0
    ensures IsNumberOnlyName(NumberName(n))
    ensures LooksLikeDefaultName(scene, NumberName(n), prefixes)
  {
    var digits := NatToString(n);
    assert NoWhiteEnds(NumberName(n));
    assert Trim(NumberName(n)) == NumberName(n);
    assert NumberName(n)[1..] == digits;
    assert NoWhiteEnds(digits);
    assert Trim(digits) == digits;
  }

  lemma PrefixedNameLooksDefault(scene: string, p: string, k: nat, prefixes: seq<string>)
    requires |scene| > 0
    requires |p| > 0 && p in prefixes
    ensures LooksLikeDefaultName(scene, p + " #" + NatToString(k), prefixes)
  {
    var legacy := p + " #" + NatToString(k);
    assert legacy == (p + " ") + ['#'] + NatToString(k);
    LastIndexOfAppend(p + " ", '#', NatToString(k));
    assert legacy[..|p + " #"|] == p + " #";
    assert legacy[|p| + 2..] == NatToString(k);
    var i :| 0 <= i < |prefixes| && prefixes[i] == p;
    assert HasPrefixedNumber(legacy, prefixes[i]);
  }

  /** A name without `#` is never taken for a default name. */
  lemma NoHashNotDefault(scene: string, name: string, prefixes: seq<string>)
    requires '#' !in name
    ensures !LooksLikeDefaultName(scene, name, prefixes)
  {
    var t := Trim(name);
    assert forall x :: x in t ==> x in name;
    forall k | 0 <= k < |prefixes| && |prefixes[k]| > 0
      ensures !HasPrefixedNumber(name, prefixes[k])
    {
      var q := prefixes[k] + " #";
      assert q[|q| - 1] == '#';
      StartsWithChars(name, q);
    }
  }

  /** `SplitNameForSort`: the name before its last `#` (right-trimmed) and
      the integer after it, or the whole name and no number. */
  function SplitNameForSort(name: string): (r: (string, Option<int>))
    ensures r.1.None? ==> r.0 == name
    ensures r.1.Some? ==> '#' in name && |r.0| < |name|
  {
    if |name| == 0 then ("", None)
    else
      var i := LastIndexOf(name, '#');
      if i >= 0 && i + 1 < |name| then
        match ParseInt32(Trim(name[i + 1..]))
        case Some(n) => (TrimEnd(name[..i]), Some(n))
        case None => (name, None)
      else (name, None)
  }

  /** `CompareDisplayNames`: case-insensitive prefix first, then the
      numbers, an un-numbered name before a numbered one, and finally the
      whole names case-insensitively. */
  function CompareDisplayNames(a: string, b: string): (r: int)
    ensures -1 <= r <= 1
  {
    var sa := SplitNameForSort(a);
    var sb := SplitNameForSort(b);
    var c := CompareIgnoreCase(sa.0, sb.0);
    if c != 0 then c
    else if sa.1.Some? && sb.1.Some? then CompareInt(sa.1.value, sb.1.value)
    else if sa.1.Some? != sb.1.Some? then (if sa.1.Some? then 1 else -1)
    else CompareIgnoreCase(a, b)
  }

  /** `BenchRef.Comparer`: display names, then scene, then marker, the last
      two ordinally. Two benches tie only when they share a key. */
  function BenchCompare(x: Bench, y: Bench): (r: int)
    ensures -1 <= r <= 1
    ensures r == 0 ==> x.Key() == y.Key()
    ensures x.Key() == y.Key() && CompareDisplayNames(x.displayName, y.displayName) == 0 ==> r == 0
  {
    var byName := CompareDisplayNames(x.displayName, y.displayName);
    if byName != 0 then byName
    else
      var byScene := CompareOrdinal(x.scene, y.scene);
      if byScene != 0 then byScene
      else CompareOrdinal(x.marker, y.marker)
  }

  /** `#m` sorts before `#n` exactly when `m < n`, so `#2` < `#3` < `#10`. */
  lemma {:induction false} NumberNamesOrder(m: nat, n: nat)
    requires IsInt32(m) && IsInt32(n)
    ensures CompareDisplayNames(NumberName(m), NumberName(n)) < 0 <==> m < n
    ensures CompareDisplayNames(NumberName(m), NumberName(n)) == 0 <==> m == n
  {
    SplitNumberName(m);
    SplitNumberName(n);
  }

  lemma SplitNumberName(n: nat)
    requires IsInt32(n)
    ensures SplitNameForSort(NumberName(n)) == ("", Some(n))
  {
    NumberNameParts(n);
    ParseDigits(NatToString(n));
    assert TrimEnd("") == "";
  }

  lemma CompareIntAntisymmetric(x: int, y: int)
    ensures CompareInt(x, y) == -CompareInt(y, x)
  {
  }

  lemma DisplayAntisymmetric(a: string, b: string)
    ensures CompareDisplayNames(a, b) == -CompareDisplayNames(b, a)
  {
    var sa := SplitNameForSort(a);
    var sb := SplitNameForSort(b);
    CompareIgnoreCaseAntisymmetric(sa.0, sb.0);
    CompareIgnoreCaseAntisymmetric(a, b);
  }

  /** The name order is transitive, and strictly so when either step is. */
  lemma {:induction false} DisplayTransitive(a: string, b: string, c: string)
    requires CompareDisplayNames(a, b) <= 0 && CompareDisplayNames(b, c) <= 0
    ensures CompareDisplayNames(a, c) <= 0
    ensures CompareDisplayNames(a, b) < 0 || CompareDisplayNames(b, c) < 0 ==> CompareDisplayNames(a, c) < 0
  {
    var sa := SplitNameForSort(a);
    var sb := SplitNameForSort(b);
    var sc := SplitNameForSort(c);
    CompareIgnoreCaseAntisymmetric(sa.0, sb.0);
    CompareIgnoreCaseAntisymmetric(sb.0, sc.0);
    CompareIgnoreCaseTransitive(sa.0, sb.0, sc.0);
    if CompareIgnoreCase(sa.0, sb.0) == 0 && CompareIgnoreCase(sb.0, sc.0) == 0 {
      if sa.1.None? && sb.1.None? && sc.1.None? {
        CompareIgnoreCaseTransitive(a, b, c);
      }
    }
  }

  lemma {:induction false} BenchTransitive(x: Bench, y: Bench, z: Bench)
    requires BenchCompare(x, y) <= 0 && BenchCompare(y, z) <= 0
    ensures BenchCompare(x, z) <= 0
  {
    var dx, dy, dz := x.displayName, y.displayName, z.displayName;
    DisplayTransitive(dx, dy, dz);
    if CompareDisplayNames(dx, dy) == 0 && CompareDisplayNames(dy, dz) == 0 {
      DisplayAntisymmetric(dx, dz);
      DisplayAntisymmetric(dx, dy);
      DisplayAntisymmetric(dy, dz);
      DisplayTransitive(dz, dy, dx);
      CompareOrdinalTransitive(x.scene, y.scene, z.scene);
      if x.scene == y.scene && y.scene == z.scene {
        CompareOrdinalTransitive(x.marker, y.marker, z.marker);
      } else {
        CompareOrdinalStrictEither(x.scene, y.scene, z.scene);
      }
    }
  }

  lemma CompareOrdinalStrictEither(a: string, b: string, c: string)
    requires CompareOrdinal(a, b) <= 0 && CompareOrdinal(b, c) <= 0
    requires a != b || b != c
    ensures CompareOrdinal(a, c) < 0
  {
    CompareOrdinalStrict(a, b, c);
  }

  /** The bench comparator is a total preorder, so sorting by it is well
      defined. */
  lemma BenchCompareTotalPreorder()
    ensures Sorting.TotalPreorder(BenchCompare)
  {
    forall x, y ensures BenchCompare(x, y) <= 0 || BenchCompare(y, x) <= 0 {
      DisplayAntisymmetric(x.displayName, y.displayName);
      CompareOrdinalAntisymmetric(x.scene, y.scene);
      CompareOrdinalAntisymmetric(x.marker, y.marker);
    }
    forall x, y, z | BenchCompare(x, y) <= 0 && BenchCompare(y, z) <= 0
      ensures BenchCompare(x, z) <= 0
    {
      BenchTransitive(x, y, z);
    }
  }

  /** `_benches.Sort(BenchRef.Comparer)`. */
  function SortBenches(bs: seq<Bench>): seq<Bench> {
    Sorting.SortBy(bs, BenchCompare)
  }

  /** Sorting the bench list orders it, keeps exactly the same records, and
      keeps keys unique. */
  lemma SortBenchesSpec(bs: seq<Bench>)
    ensures Sorting.Sorted(SortBenches(bs), BenchCompare)
    ensures multiset(SortBenches(bs)) == multiset(bs)
    ensures UniqueKeys(bs) ==> UniqueKeys(SortBenches(bs))
  {
    BenchCompareTotalPreorder();
    Sorting.SortBySorted(bs, BenchCompare);
    if UniqueKeys(bs) {
      Sorting.SortByDistinct(bs, BenchCompare, (b: Bench) => b.Key());
    }
  }
}
