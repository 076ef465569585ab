/** The `#n` numbering of unrenamed benches: the least number not yet used
    in a category (`AddBench`, `TryRefreshLocalizedNamesOnce`) and the
    migration of old `<zone> #n` names (`ConvertOldFormatBenchNames`). */
module Naming {
  import opened Wrappers
  import opened Text
  import opened Benches
  import opened Zones
  import opened Categories
  import Sorting

  // ---------------------------------------------------------------------------
  // The least unused number
  // ---------------------------------------------------------------------------

  function Above(used: set<int>, k: int): set<int> {
    set x | x in used && x >= k
  }

  function LeastFrom(used: set<int>, k: int): (r: int)
    ensures r >= k && r !in used
    ensures forall j :: k <= j < r ==> j in used
    decreases Above(used, k)
  {
    if k in used then
      assert Above(used, k + 1) < Above(used, k) by {
        assert k in Above(used, k) && k !in Above(used, k + 1);
      }
      LeastFrom(used, k + 1)
    else k
  }

  /** `n` is the least positive number not in `used`. */
  predicate LeastFree(n: int, used: set<int>) {
    n >= 1 && n !in used && forall j :: 1 <= j < n ==> j in used
  }

  /** `idx = 1; while (used.Contains(idx)) idx++;`: the least positive
      number not in `used`. */
  function LeastUnused(used: set<int>): (r: int)
    ensures r >= 1 && r !in used
    ensures forall j :: 1 <= j < r ==> j in used
  {
    LeastFrom(used, 1)
  }

  // ---------------------------------------------------------------------------
  // Numbers in use in a category
  // ---------------------------------------------------------------------------

  /** Each bench as (category key, display name): all that the numbering
      reads of it. */
  function Labels(h: Host, renames: RenameMap, bs: seq<Bench>): (r: seq<(string, string)>)
    ensures |r| == |bs|
    ensures forall i :: 0 <= i < |bs| ==> r[i] == (CategoryKey(h, renames, bs[i]), bs[i].displayName)
  {
    seq(|bs|, i requires 0 <= i < |bs| => (CategoryKey(h, renames, bs[i]), bs[i].displayName))
  }

  /** Whether a label belongs to category `cat`: ignoring case where the
      plugin compares with `CurrentCultureIgnoreCase` (`AddBench`), exactly
      where it keys a case-sensitive dictionary (`TryRefreshLocalizedNamesOnce`). */
  predicate InCategory(key: string, cat: string, ignoreCase: bool) {
    if ignoreCase then EqualsIgnoreCase(key, cat) else key == cat
  }

  /** The trailing numbers of the display names labelled with `cat`: a
      number is in use exactly when some bench of the category carries it
      after its last `#`. */
  function UsedNumbers(labels: seq<(string, string)>, cat: string, ignoreCase: bool): (r: set<int>)
    ensures forall n :: n in r ==> n >= 1
  {
    set i | 0 <= i < |labels| && InCategory(labels[i].0, cat, ignoreCase) && TrailingNumber(labels[i].1).Some?
      :: TrailingNumber(labels[i].1).value
  }

  /** The provisional name `<zone> #k` carries the number `k`. */
  lemma ProvisionalNumber(p: string, k: nat)
    requires 0 < k && IsInt32(k)
    ensures TrailingNumber(p + " #" + NatToString(k)) == Some(k)
  {
    var digits := NatToString(k);
    var name := p + " #" + digits;
    assert name == (p + " ") + ['#'] + digits;
    HashDigits(digits);
    LastIndexOfAppend(p + " ", '#', digits);
    assert name[|p| + 2..] == digits;
    TrailingNumberAt(name, |p| + 1);
    assert Trim(digits) == digits;
    HashTrailing(digits);
    TrailingNumberOfNumberName(k);
    assert NumberName(k) == "#" + digits;
  }

  // ---------------------------------------------------------------------------
  // Migration of old names
  // ---------------------------------------------------------------------------

  /** `string.IsNullOrWhiteSpace`. */
  predicate IsBlank(s: string) {
    forall i :: 0 <= i < |s| ==> IsWhite(s[i])
  }

  /** The candidate prefixes of an old-style name: the scene's zone key,
      its resolved category name and its localized zone name (empty ones
      are skipped). */
  function OldPrefixes(h: Host, renames: RenameMap, scene: string): (r: seq<string>)
    ensures |r| == 3
  {
    [h.ZoneKey(scene).GetOr(""), ResolveCategoryName(h, renames, scene), h.LocalizedZoneName(scene).GetOr("")]
  }

  /** The text after position `q` of `dn` trims to a non-empty run of
      digits. */
  predicate DigitsAfter(dn: string, q: int) {
    q >= 0 && q + 1 < |dn| && |Trim(dn[q + 1..])| > 0 && AllDigits(Trim(dn[q + 1..]))
  }

  /** `#` followed by a non-empty run of digits. */
  predicate IsHashDigits(r: string) {
    |r| > 1 && r[0] == '#' && AllDigits(r[1..])
  }

  /** `#` followed by the trimmed text after the last `#` of `dn`, when
      that text is a non-empty run of digits: the name an old-style bench
      is converted to. */
  function HashForm(dn: string): (r: Option<string>)
    ensures r.Some? ==> IsHashDigits(r.value)
  {
    var q := LastIndexOf(dn, '#');
    if q < 0 || q + 1 >= |dn| then None
    else
      var num := Trim(dn[q + 1..]);
      if |num| == 0 || !AllDigits(num) then None
      else
        assert ("#" + num)[1..] == num;
        Some("#" + num)
  }

  /** The prefix loop of `ConvertOldFormatBenchNames` for one name: the
      first non-empty prefix followed by a space that the name starts with,
      where the text after the last `#` trims to digits and the converted
      name differs, turns the name into `#<digits>`. */
  function StripOldPrefix(dn: string, prefixes: seq<string>): (r: string)
    ensures r == dn || IsHashDigits(r)
  {
    if |prefixes| == 0 then dn
    else
      var p := prefixes[0];
      var h := HashForm(dn);
      if |p| > 0 && StartsWith(dn, p + " ") && h.Some? && h.value != dn then h.value
      else StripOldPrefix(dn, prefixes[1..])
  }

  /** `ConvertOldFormatBenchNames` for one display name; blank names are
      skipped. */
  function ConvertName(dn: string, prefixes: seq<string>): (r: string)
    ensures IsBlank(dn) ==> r == dn
  {
    if IsBlank(dn) then dn else StripOldPrefix(dn, prefixes)
  }

  /** Replacing a name by `#` and the trimmed digits after its last `#`
      keeps its trailing number. */
  lemma HashNumberKept(dn: string, q: int)
    requires q == LastIndexOf(dn, '#') && DigitsAfter(dn, q)
    ensures TrailingNumber("#" + Trim(dn[q + 1..])) == TrailingNumber(dn)
  {
    HashTrailing(Trim(dn[q + 1..]));
    TrailingNumberAt(dn, q);
  }

  /** The converted form of a name carries the name's own number. */
  lemma HashFormKeepsNumber(dn: string)
    ensures HashForm(dn).Some? ==> TrailingNumber(HashForm(dn).value) == TrailingNumber(dn)
  {
    var q := LastIndexOf(dn, '#');
    if DigitsAfter(dn, q) {
      var num := Trim(dn[q + 1..]);
      assert HashForm(dn) == Some("#" + num);
      HashNumberKept(dn, q);
    } else {
      assert HashForm(dn) == None;
    }
  }

  /** Stripping keeps the number: the converted name has the same trailing
      number as the old one. */
  lemma {:induction false} StripKeepsNumber(dn: string, prefixes: seq<string>)
    ensures TrailingNumber(StripOldPrefix(dn, prefixes)) == TrailingNumber(dn)
  {
    if |prefixes| > 0 {
      HashFormKeepsNumber(dn);
      StripKeepsNumber(dn, prefixes[1..]);
    }
  }

  /** A name without a space starts with no `<prefix> `, so stripping leaves
      it alone. */
  lemma {:induction false} StripNoSpace(dn: string, prefixes: seq<string>)
    requires ' ' !in dn
    ensures StripOldPrefix(dn, prefixes) == dn
  {
    if |prefixes| > 0 {
      var p := prefixes[0];
      var q := p + " ";
      assert q[|q| - 1] == ' ';
      StartsWithChars(dn, q);
      StripNoSpace(dn, prefixes[1..]);
    }
  }

  /** Converting twice is converting once, so the migration can run on
      every load. */
  lemma ConvertNameIdempotent(dn: string, prefixes: seq<string>)
    ensures ConvertName(ConvertName(dn, prefixes), prefixes) == ConvertName(dn, prefixes)
  {
    var r := ConvertName(dn, prefixes);
    if r != dn {
      assert forall i :: 1 <= i < |r| ==> IsDigit(r[i]) by {
        forall i | 1 <= i < |r| ensures IsDigit(r[i]) {
          assert r[1..][i - 1] == r[i];
        }
      }
      assert ' ' !in r;
      assert !IsWhite(r[0]);
      StripNoSpace(r, prefixes);
    }
  }

  /** `ConvertOldFormatBenchNames` over the list: every bench gets its
      converted name; the flag tells whether any name changed. */
  function ConvertOldFormat(h: Host, renames: RenameMap, bs: seq<Bench>): (r: (seq<Bench>, bool))
    ensures |r.0| == |bs|
    ensures forall i :: 0 <= i < |bs| ==>
      r.0[i] == bs[i].(displayName := ConvertName(bs[i].displayName, OldPrefixes(h, renames, bs[i].scene)))
    ensures r.1 <==> r.0 != bs
  {
    var out := seq(|bs|, i requires 0 <= i < |bs| =>
      bs[i].(displayName := ConvertName(bs[i].displayName, OldPrefixes(h, renames, bs[i].scene))));
    assert out != bs ==> exists i :: 0 <= i < |bs| && out[i] != bs[i];
    (out, out != bs)
  }

  // ---------------------------------------------------------------------------
  // Renumbering unrenamed benches
  // ---------------------------------------------------------------------------

  /** (index, added order) of the benches the user has not renamed, in list
      order. */
  function UnrenamedEntries(bs: seq<Bench>): (r: seq<(nat, int)>)
    ensures forall e :: e in r <==> e.0 < |bs| && !bs[e.0].isRenamed && e.1 == bs[e.0].addedOrder
    decreases |bs|
  {
    if |bs| == 0 then []
    else
      var n := |bs| - 1;
      var rest := UnrenamedEntries(bs[..n]);
      assert forall i: nat :: i < n ==> bs[..n][i] == bs[i];
      if !bs[n].isRenamed then rest + [(n, bs[n].addedOrder)] else rest
  }

  /** Compares entries by added order. */
  function ByAdded(a: (nat, int), b: (nat, int)): int {
    CompareInt(a.1, b.1)
  }

  lemma ByAddedTotal()
    ensures Sorting.TotalPreorder(ByAdded)
  {
    forall a, b ensures ByAdded(a, b) <= 0 || ByAdded(b, a) <= 0 {}
    forall a, b, c | ByAdded(a, b) <= 0 && ByAdded(b, c) <= 0 ensures ByAdded(a, c) <= 0 {}
  }

  function Firsts(es: seq<(nat, int)>): (r: seq<nat>)
    ensures |r| == |es|
    ensures forall p :: 0 <= p < |es| ==> r[p] == es[p].0
  {
    seq(|es|, p requires 0 <= p < |es| => es[p].0)
  }

  /** `_benches.Where(b => !b.IsRenamed).OrderBy(b => b.AddedOrder)`, as
      indices. */
  function UnrenamedByAdded(bs: seq<Bench>): seq<nat> {
    Firsts(Sorting.SortBy(UnrenamedEntries(bs), ByAdded))
  }

  /** The processing order holds exactly the unrenamed benches. */
  lemma UnrenamedByAddedMembers(bs: seq<Bench>)
    ensures forall i: nat :: i in UnrenamedByAdded(bs) <==> i < |bs| && !bs[i].isRenamed
  {
    var es := UnrenamedEntries(bs);
    var sorted := Sorting.SortBy(es, ByAdded);
    var order := UnrenamedByAdded(bs);
    forall i: nat ensures i in order <==> i < |bs| && !bs[i].isRenamed {
      if i in order {
        var p :| 0 <= p < |order| && order[p] == i;
        assert sorted[p] in multiset(sorted);
      }
      if i < |bs| && !bs[i].isRenamed {
        var e := (i, bs[i].addedOrder);
        assert e in multiset(es);
        assert e in sorted;
        var p :| 0 <= p < |sorted| && sorted[p] == e;
        assert order[p] == i;
      }
    }
  }

  /** `order` lists indices of `bs` with non-decreasing added order. */
  predicate InAddedOrder(bs: seq<Bench>, order: seq<nat>) {
    forall p, q :: 0 <= p < q < |order| ==>
      order[p] < |bs| && order[q] < |bs| && bs[order[p]].addedOrder <= bs[order[q]].addedOrder
  }

  /** The processing order puts the earliest added bench first. */
  lemma UnrenamedByAddedOrdered(bs: seq<Bench>)
    ensures InAddedOrder(bs, UnrenamedByAdded(bs))
  {
    var es := UnrenamedEntries(bs);
    var sorted := Sorting.SortBy(es, ByAdded);
    var order := UnrenamedByAdded(bs);
    ByAddedTotal();
    Sorting.SortBySorted(es, ByAdded);
    SortedEntriesInOrder(bs, sorted);
    assert order == Firsts(sorted);
  }

  /** The indices of a sorted permutation of the unrenamed entries are in
      added order. */
  lemma SortedEntriesInOrder(bs: seq<Bench>, sorted: seq<(nat, int)>)
    requires multiset(sorted) == multiset(UnrenamedEntries(bs))
    requires Sorting.Sorted(sorted, ByAdded)
    ensures InAddedOrder(bs, Firsts(sorted))
  {
    var order := Firsts(sorted);
    forall p, q | 0 <= p < q < |order|
      ensures order[p] < |bs| && order[q] < |bs| && bs[order[p]].addedOrder <= bs[order[q]].addedOrder
    {
      EntryPairOrdered(bs, sorted, p, q);
    }
  }

  /** Two entries of a sorted permutation of the unrenamed entries come in
      added order. */
  lemma EntryPairOrdered(bs: seq<Bench>, sorted: seq<(nat, int)>, p: int, q: int)
    requires multiset(sorted) == multiset(UnrenamedEntries(bs))
    requires 0 <= p < q < |sorted| && ByAdded(sorted[p], sorted[q]) <= 0
    ensures sorted[p].0 < |bs| && sorted[q].0 < |bs| && bs[sorted[p].0].addedOrder <= bs[sorted[q].0].addedOrder
  {
    var es := UnrenamedEntries(bs);
    assert sorted[p] in multiset(es) && sorted[q] in multiset(es);
    assert sorted[p] in es && sorted[q] in es;
  }

  function Get(m: map<string, set<int>>, k: string): set<int> {
    if k in m then m[k] else {}
  }

  /** The numbering loop: each bench in `order` gets the least number not
      used in its category, counting the numbers of the `numbered` labels
      and the numbers handed out so far (`extra`). The result maps bench
      index to number. */
  function Assign(keys: seq<string>, numbered: seq<(string, string)>, order: seq<nat>,
                  extra: map<string, set<int>>, nums: map<nat, int>): map<nat, int>
    decreases |order|
  {
    if |order| == 0 then nums
    else
      var i := order[0];
      if i >= |keys| then Assign(keys, numbered, order[1..], extra, nums)
      else
        var cat := keys[i];
        var n := LeastUnused(UsedNumbers(numbered, cat, false) + Get(extra, cat));
        Assign(keys, numbered, order[1..], extra[cat := Get(extra, cat) + {n}], nums[i := n])
  }

  /** Rename every numbered bench `#n`. */
  function ApplyNumbers(bs: seq<Bench>, nums: map<nat, int>): (r: seq<Bench>)
    ensures |r| == |bs|
    ensures forall i :: 0 <= i < |bs| ==>
      r[i] == if i in nums && nums[i] >= 0 then bs[i].(displayName := NumberName(nums[i])) else bs[i]
  {
    seq(|bs|, i requires 0 <= i < |bs| =>
      if i in nums && nums[i] >= 0 then bs[i].(displayName := NumberName(nums[i])) else bs[i])
  }

  /** The numbering of `TryRefreshLocalizedNamesOnce`, as written: the
      numbers counted as used are those of every bench, so also the current
      numbers of the benches being renumbered. */
  function RefreshNumbers(h: Host, renames: RenameMap, bs: seq<Bench>): map<nat, int> {
    Assign(CategoryKeys(h, renames, bs), Labels(h, renames, bs), UnrenamedByAdded(bs), map[], map[])
  }

  /** `TryRefreshLocalizedNamesOnce`: the new bench list (sorted when a name
      changed) and whether any bench was eligible. */
  function RefreshNames(h: Host, renames: RenameMap, bs: seq<Bench>): (r: (seq<Bench>, bool))
    ensures |r.0| == |bs|
  {
    var renamed := ApplyNumbers(bs, RefreshNumbers(h, renames, bs));
    (if renamed != bs then SortBenches(renamed) else bs, |UnrenamedByAdded(bs)| > 0)
  }

  /** The refresh reports success exactly when some bench is unrenamed. */
  lemma RefreshNamesSuccess(h: Host, renames: RenameMap, bs: seq<Bench>)
    ensures RefreshNames(h, renames, bs).1 <==> exists i :: 0 <= i < |bs| && !bs[i].isRenamed
  {
    var order := UnrenamedByAdded(bs);
    UnrenamedByAddedMembers(bs);
    if |order| > 0 {
      assert order[0] in order;
    }
    if exists i :: 0 <= i < |bs| && !bs[i].isRenamed {
      var i :| 0 <= i < |bs| && !bs[i].isRenamed;
      assert (i as nat) in order;
    }
  }

  /** The loop invariant of `Assign`: every handed-out number is positive,
      lies in its category's `extra` set and outside the numbers counted as
      used; two benches of one category never share a number. */
  ghost predicate AssignInv(keys: seq<string>, numbered: seq<(string, string)>,
                            extra: map<string, set<int>>, nums: map<nat, int>) {
    && (forall i :: i in nums ==> i < |keys| && nums[i] >= 1 && nums[i] in Get(extra, keys[i]))
    && (forall c, x :: c in extra && x in extra[c] ==> x !in UsedNumbers(numbered, c, false))
    && (forall i, j :: i in nums && j in nums && i != j && keys[i] == keys[j] ==> nums[i] != nums[j])
  }

  lemma {:induction false} AssignSpec(keys: seq<string>, numbered: seq<(string, string)>,
                                      order: seq<nat>, extra: map<string, set<int>>, nums: map<nat, int>)
    requires AssignInv(keys, numbered, extra, nums)
    ensures var r := Assign(keys, numbered, order, extra, nums);
            && (forall i :: i in r <==> i in nums || (i in order && i < |keys|))
            && (forall i :: i in r ==> i < |keys| && r[i] >= 1)
            && (forall i :: i in r ==> r[i] !in UsedNumbers(numbered, keys[i], false))
            && (forall i, j :: i in r && j in r && i != j && keys[i] == keys[j] ==> r[i] != r[j])
    decreases |order|
  {
    if |order| == 0 {
      forall i | i in nums ensures nums[i] !in UsedNumbers(numbered, keys[i], false) {
        assert keys[i] in extra;
      }
    } else {
      var i := order[0];
      assert forall x :: x in order <==> x == i || x in order[1..];
      if i >= |keys| {
        AssignSpec(keys, numbered, order[1..], extra, nums);
      } else {
        var cat := keys[i];
        var n := LeastUnused(UsedNumbers(numbered, cat, false) + Get(extra, cat));
        var extra' := extra[cat := Get(extra, cat) + {n}];
        var nums' := nums[i := n];
        assert AssignInv(keys, numbered, extra', nums') by {
          forall j | j in nums' ensures nums'[j] in Get(extra', keys[j]) {
            if j != i {
              assert nums[j] in Get(extra, keys[j]);
            }
          }
          forall j, k | j in nums' && k in nums' && j != k && keys[j] == keys[k]
            ensures nums'[j] != nums'[k]
          {
            if j == i {
              assert nums[k] in Get(extra, cat);
            } else if k == i {
              assert nums[j] in Get(extra, cat);
            }
          }
        }
        AssignSpec(keys, numbered, order[1..], extra', nums');
      }
    }
  }

  /** The refresh renumbers exactly the unrenamed benches; every new number
      is positive, unused by any bench of its category (compared exactly)
      before the refresh, and distinct from the other new numbers of that
      category. */
  lemma RefreshNumbersSpec(h: Host, renames: RenameMap, bs: seq<Bench>)
    ensures var nums := RefreshNumbers(h, renames, bs);
            var keys := CategoryKeys(h, renames, bs);
            && (forall i: nat :: i in nums <==> i < |bs| && !bs[i].isRenamed)
            && (forall i :: i in nums ==> nums[i] >= 1 && nums[i] !in UsedNumbers(Labels(h, renames, bs), keys[i], false))
            && (forall i, j :: i in nums && j in nums && i != j && keys[i] == keys[j] ==> nums[i] != nums[j])
  {
    UnrenamedByAddedMembers(bs);
    AssignSpec(CategoryKeys(h, renames, bs), Labels(h, renames, bs), UnrenamedByAdded(bs), map[], map[]);
  }

  /** Before sorting, the refresh changes only the display names of
      unrenamed benches, each to some `#n`. */
  lemma RefreshNamesFrame(h: Host, renames: RenameMap, bs: seq<Bench>)
    ensures var r := ApplyNumbers(bs, RefreshNumbers(h, renames, bs));
            forall i :: 0 <= i < |bs| ==>
              if bs[i].isRenamed then r[i] == bs[i]
              else exists n :: n >= 1 && r[i] == bs[i].(displayName := NumberName(n))
  {
    var nums := RefreshNumbers(h, renames, bs);
    var r := ApplyNumbers(bs, nums);
    RefreshNumbersSpec(h, renames, bs);
    forall i | 0 <= i < |bs|
      ensures if bs[i].isRenamed then r[i] == bs[i]
              else exists n :: n >= 1 && r[i] == bs[i].(displayName := NumberName(n))
    {
      var k: nat := i;
      if !bs[i].isRenamed {
        assert k in nums;
        var n := nums[k];
        assert n >= 1 && r[i] == bs[i].(displayName := NumberName(n));
      } else {
        assert k !in nums;
      }
    }
  }

  /** A one-bench list is processed in the order `[0]`. */
  lemma LoneOrder(b: Bench)
    requires !b.isRenamed
    ensures UnrenamedByAdded([b]) == [0]
  {
    assert UnrenamedEntries([b]) == [(0, b.addedOrder)] by {
      assert [b][..0] == [];
    }
  }

  /** A lone label whose name carries `k` has `k` in use ... */
  lemma LoneUsedHas(key: string, dn: string, k: int, ignoreCase: bool)
    requires TrailingNumber(dn) == Some(k)
    ensures k in UsedNumbers([(key, dn)], key, ignoreCase)
  {
    assert [(key, dn)][0] == (key, dn);
    assert InCategory(key, key, ignoreCase);
  }

  /** ... and nothing else. */
  lemma LoneUsedOnly(key: string, dn: string, k: int, ignoreCase: bool, x: int)
    requires TrailingNumber(dn) == Some(k)
    requires x in UsedNumbers([(key, dn)], key, ignoreCase)
    ensures x == k
  {
    var j :| 0 <= j < 1 && TrailingNumber([(key, dn)][j].1).Some? && x == TrailingNumber([(key, dn)][j].1).value;
    assert j == 0;
  }

  lemma LoneUsed(key: string, dn: string, k: int, ignoreCase: bool)
    requires TrailingNumber(dn) == Some(k)
    ensures UsedNumbers([(key, dn)], key, ignoreCase) == {k}
  {
    LoneUsedHas(key, dn, k, ignoreCase);
    forall x | x in UsedNumbers([(key, dn)], key, ignoreCase) ensures x == k {
      LoneUsedOnly(key, dn, k, ignoreCase, x);
    }
  }

  /** The numbering loop over one index. */
  lemma AssignOne(keys: seq<string>, numbered: seq<(string, string)>, i: nat)
    requires i < |keys|
    ensures Assign(keys, numbered, [i], map[], map[]) == map[i := LeastUnused(UsedNumbers(numbered, keys[i], false))]
  {
    var n := LeastUnused(UsedNumbers(numbered, keys[i], false) + Get(map[], keys[i]));
    assert UsedNumbers(numbered, keys[i], false) + Get(map[], keys[i]) == UsedNumbers(numbered, keys[i], false);
    assert [i][1..] == [];
    assert Assign(keys, numbered, [i], map[], map[]) ==
      Assign(keys, numbered, [], map[][keys[i] := Get(map[], keys[i]) + {n}], map[][i := n]);
  }

  /** The numbering loop over a lone label whose name carries `k`. */
  lemma AssignLone(key: string, dn: string, k: int)
    requires TrailingNumber(dn) == Some(k)
    ensures Assign([key], [(key, dn)], [0], map[], map[]) == map[0 := LeastUnused({k})]
  {
    LoneUsed(key, dn, k, false);
    AssignOne([key], [(key, dn)], 0);
  }

  /** The refresh of a one-bench list whose name carries number `k`. */
  lemma LoneNumber(h: Host, renames: RenameMap, b: Bench, k: int)
    requires !b.isRenamed && TrailingNumber(b.displayName) == Some(k)
    ensures RefreshNumbers(h, renames, [b]) == map[0 := LeastUnused({k})]
  {
    var key := CategoryKey(h, renames, b);
    LoneOrder(b);
    assert CategoryKeys(h, renames, [b]) == [key];
    assert Labels(h, renames, [b]) == [(key, b.displayName)];
    AssignLone(key, b.displayName, k);
  }

  /** The whole refresh of a one-bench list whose name carries `k`: the
      bench is renamed `#` and the least positive number other than `k`. */
  lemma LoneRefresh(h: Host, renames: RenameMap, b: Bench, k: int)
    requires !b.isRenamed && TrailingNumber(b.displayName) == Some(k)
    ensures RefreshNames(h, renames, [b]).0 == [b.(displayName := NumberName(LeastUnused({k})))]
  {
    var n := LeastUnused({k});
    LoneNumber(h, renames, b, k);
    var b' := b.(displayName := NumberName(n));
    var renamed := ApplyNumbers([b], RefreshNumbers(h, renames, [b]));
    assert renamed[0] == b';
    assert renamed == [b'];
    Sorting.SortOne(b', BenchCompare);
    assert SortBenches(renamed) == [b'];
  }

  /** As written, a refresh never lets an unrenamed bench keep its own
      number: a category whose only bench is the unrenamed `#1` turns it
      into `#2`, and the next refresh turns it back into `#1`. */
  lemma RefreshMovesLoneNumber(h: Host, renames: RenameMap, b: Bench)
    requires !b.isRenamed && b.displayName == NumberName(1)
    ensures RefreshNames(h, renames, [b]).0 == [b.(displayName := NumberName(2))]
    ensures RefreshNames(h, renames, [b.(displayName := NumberName(2))]).0 == [b]
  {
    var b2 := b.(displayName := NumberName(2));
    TrailingNumberOfNumberName(1);
    TrailingNumberOfNumberName(2);
    LeastUnusedAfterOne();
    LeastUnusedAfterTwo();
    LoneRefresh(h, renames, b, 1);
    LoneRefresh(h, renames, b2, 2);
    assert b2.(displayName := NumberName(1)) == b;
  }

  lemma LeastUnusedAfterOne()
    ensures LeastUnused({1}) == 2
  {
    var r := LeastUnused({1});
    assert 1 <= 2 < r ==> 2 in {1};
  }

  lemma LeastUnusedAfterTwo()
    ensures LeastUnused({2}) == 1
  {
    var r := LeastUnused({2});
    assert 1 <= 1 < r ==> 1 in {2};
  }

  // ---------------------------------------------------------------------------
  // The intended renumbering
  // ---------------------------------------------------------------------------

  /** The benches the user renamed. */
  function RenamedOnly(bs: seq<Bench>): (r: seq<Bench>)
    ensures forall b :: b in r ==> b in bs && b.isRenamed
    decreases |bs|
  {
    if |bs| == 0 then []
    else RenamedOnly(bs[..|bs| - 1]) + (if bs[|bs| - 1].isRenamed then [bs[|bs| - 1]] else [])
  }

  /** The intended numbering: only the numbers of renamed benches are taken,
      so the result no longer depends on the current names of the benches
      being renumbered. */
  function RefreshNumbersIntended(h: Host, renames: RenameMap, bs: seq<Bench>): map<nat, int> {
    Assign(CategoryKeys(h, renames, bs), Labels(h, renames, RenamedOnly(bs)), UnrenamedByAdded(bs), map[], map[])
  }

  function RefreshNamesIntended(h: Host, renames: RenameMap, bs: seq<Bench>): (r: (seq<Bench>, bool))
    ensures |r.0| == |bs|
  {
    var renamed := ApplyNumbers(bs, RefreshNumbersIntended(h, renames, bs));
    (if renamed != bs then SortBenches(renamed) else bs, |UnrenamedByAdded(bs)| > 0)
  }

  /** Two lists that differ only in the names of unrenamed benches. */
  ghost predicate SameButUnrenamedNames(bs: seq<Bench>, cs: seq<Bench>) {
    |bs| == |cs| &&
    forall i :: 0 <= i < |bs| ==>
      cs[i].(displayName := bs[i].displayName) == bs[i] &&
      (bs[i].isRenamed ==> cs[i] == bs[i])
  }

  lemma {:induction false} SameButUnrenamedPrefix(bs: seq<Bench>, cs: seq<Bench>)
    requires SameButUnrenamedNames(bs, cs) && |bs| > 0
    ensures SameButUnrenamedNames(bs[..|bs| - 1], cs[..|cs| - 1])
  {
    var n := |bs| - 1;
    forall i | 0 <= i < n ensures bs[..n][i] == bs[i] && cs[..n][i] == cs[i] {}
  }

  lemma {:induction false} RenamedOnlySame(bs: seq<Bench>, cs: seq<Bench>)
    requires SameButUnrenamedNames(bs, cs)
    ensures RenamedOnly(bs) == RenamedOnly(cs)
    decreases |bs|
  {
    if |bs| > 0 {
      SameButUnrenamedPrefix(bs, cs);
      RenamedOnlySame(bs[..|bs| - 1], cs[..|cs| - 1]);
    }
  }

  lemma {:induction false} UnrenamedEntriesSame(bs: seq<Bench>, cs: seq<Bench>)
    requires SameButUnrenamedNames(bs, cs)
    ensures UnrenamedEntries(bs) == UnrenamedEntries(cs)
    decreases |bs|
  {
    if |bs| > 0 {
      var n := |bs| - 1;
      SameButUnrenamedPrefix(bs, cs);
      UnrenamedEntriesSame(bs[..n], cs[..n]);
      assert cs[n].isRenamed == bs[n].isRenamed && cs[n].addedOrder == bs[n].addedOrder;
    }
  }

  /** The intended numbering depends only on what the refresh keeps: the
      renamed benches, the categories and the added order. */
  lemma RefreshNumbersIntendedSame(h: Host, renames: RenameMap, bs: seq<Bench>, cs: seq<Bench>)
    requires SameButUnrenamedNames(bs, cs)
    ensures RefreshNumbersIntended(h, renames, bs) == RefreshNumbersIntended(h, renames, cs)
  {
    RenamedOnlySame(bs, cs);
    UnrenamedEntriesSame(bs, cs);
    assert CategoryKeys(h, renames, bs) == CategoryKeys(h, renames, cs) by {
      forall i | 0 <= i < |bs| ensures CategoryKey(h, renames, bs[i]) == CategoryKey(h, renames, cs[i]) {
        CategoryKeyIgnoresName(h, renames, cs[i], bs[i].displayName);
      }
    }
  }

  /** Renumbering the intended way a second time changes no name: the
      numbers of unrenamed benches stay put from one session to the next. */
  lemma RefreshIntendedStable(h: Host, renames: RenameMap, bs: seq<Bench>)
    ensures var once := ApplyNumbers(bs, RefreshNumbersIntended(h, renames, bs));
            ApplyNumbers(once, RefreshNumbersIntended(h, renames, once)) == once
  {
    var nums := RefreshNumbersIntended(h, renames, bs);
    var once := ApplyNumbers(bs, nums);
    assert SameButUnrenamedNames(bs, once) by {
      UnrenamedByAddedMembers(bs);
      AssignSpec(CategoryKeys(h, renames, bs), Labels(h, renames, RenamedOnly(bs)), UnrenamedByAdded(bs), map[], map[]);
      forall i | 0 <= i < |bs| && bs[i].isRenamed ensures once[i] == bs[i] {
        var k: nat := i;
        assert k !in nums;
      }
    }
    RefreshNumbersIntendedSame(h, renames, bs, once);
    var twice := ApplyNumbers(once, nums);
    forall i | 0 <= i < |once| ensures twice[i] == once[i] {
    }
    assert twice == once;
  }

  /** With the intended numbering a lone unrenamed `#1` keeps its name. */
  lemma RefreshIntendedKeepsLoneNumber(h: Host, renames: RenameMap, b: Bench)
    requires !b.isRenamed && b.displayName == NumberName(1)
    ensures RefreshNamesIntended(h, renames, [b]).0 == [b]
  {
    var bs := [b];
    LoneOrder(b);
    assert RenamedOnly(bs) == [] by {
      assert bs[..0] == [];
    }
    assert Labels(h, renames, []) == [];
    assert LeastUnused({}) == 1;
    assert [0][1..] == [];
    assert RefreshNumbersIntended(h, renames, bs) == map[0 := 1];
    assert ApplyNumbers(bs, map[0 := 1]) == bs;
  }
}
