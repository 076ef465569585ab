/** The two-level menu (`RebuildGroups`): benches grouped by category key
    ignoring case, categories ordered favourites first, items ordered
    favourite benches first, and the cursor clamped into the new lists. */
module Groups {
  import opened Text
  import opened Benches
  import opened Favorites
  import opened Zones
  import opened Categories
  import Sorting

  /** One category: its name and the indices of its benches in the bench
      list (`_catNames[k]` and `_catToIndices[_catNames[k]]`). */
  type Group = (string, seq<nat>)

  /** All indices of a group list, group after group. */
  function Flatten(gs: seq<Group>): seq<nat> {
    if |gs| == 0 then [] else gs[0].1 + Flatten(gs[1..])
  }

  /** `0, 1, …, n - 1`. */
  function Indices(n: nat): (r: seq<nat>)
    ensures |r| == n
  {
    if n == 0 then [] else Indices(n - 1) + [n - 1]
  }

  /** Every index below `n` occurs once in `Indices(n)`, and nothing else. */
  lemma {:induction false} IndicesOnce(n: nat, i: nat)
    ensures multiset(Indices(n))[i] == if i < n then 1 else 0
  {
    if n > 0 {
      var last: nat := n - 1;
      IndicesOnce(last, i);
      assert multiset(Indices(n)) == multiset(Indices(last)) + multiset{last};
    }
  }

  /** The invariant of `_catToIndices`: every listed index is a bench whose
      key equals its group's name ignoring case, and no group is empty. */
  ghost predicate GroupsMatch(gs: seq<Group>, keys: seq<string>) {
    forall k :: 0 <= k < |gs| ==> GroupMatches(gs[k], keys)
  }

  predicate GroupMatches(g: Group, keys: seq<string>) {
    && |g.1| > 0
    && forall m :: 0 <= m < |g.1| ==> g.1[m] < |keys| && EqualsIgnoreCase(keys[g.1[m]], g.0)
  }

  /** The dictionary is keyed ignoring case: no two group names are equal
      ignoring case. */
  ghost predicate NamesDistinct(gs: seq<Group>) {
    Sorting.DistinctBy(gs, (g: Group) => LowerStr(g.0))
  }

  // ---------------------------------------------------------------------------
  // Collecting
  // ---------------------------------------------------------------------------

  /** One step of the collecting loop: append bench `i` to the group of
      `key`, creating the group, named `key`, when it is new. */
  function AddToGroups(gs: seq<Group>, key: string, i: nat): (r: seq<Group>)
    ensures |r| >= |gs|
  {
    var j := FindKey(gs, key);
    if j < 0 then gs + [(key, [i])] else gs[j := (gs[j].0, gs[j].1 + [i])]
  }

  /** The collecting loop over the category keys of benches `0 … n - 1`,
      in bench order. */
  function CollectGroups(keys: seq<string>): seq<Group>
    decreases |keys|
  {
    if |keys| == 0 then []
    else AddToGroups(CollectGroups(keys[..|keys| - 1]), keys[|keys| - 1], |keys| - 1)
  }

  lemma {:induction false} FlattenAppend(gs: seq<Group>, g: Group)
    ensures Flatten(gs + [g]) == Flatten(gs) + g.1
  {
    if |gs| > 0 {
      assert (gs + [g])[1..] == gs[1..] + [g];
      FlattenAppend(gs[1..], g);
    }
  }

  lemma {:induction false} FlattenUpdate(gs: seq<Group>, j: nat, g: Group)
    requires j < |gs|
    ensures multiset(Flatten(gs[j := g])) + multiset(gs[j].1) == multiset(Flatten(gs)) + multiset(g.1)
  {
    if j > 0 {
      var t := gs[j := g];
      assert t[1..] == gs[1..][j - 1 := g];
      assert Flatten(t) == gs[0].1 + Flatten(gs[1..][j - 1 := g]);
      FlattenUpdate(gs[1..], j - 1, g);
      assert gs[1..][j - 1] == gs[j];
      assert Flatten(gs) == gs[0].1 + Flatten(gs[1..]);
      calc {
        multiset(Flatten(t)) + multiset(gs[j].1);
        multiset(gs[0].1) + multiset(Flatten(gs[1..][j - 1 := g])) + multiset(gs[j].1);
        multiset(gs[0].1) + (multiset(Flatten(gs[1..][j - 1 := g])) + multiset(gs[1..][j - 1].1));
        multiset(gs[0].1) + (multiset(Flatten(gs[1..])) + multiset(g.1));
        multiset(Flatten(gs)) + multiset(g.1);
      }
    } else {
      var t := gs[j := g];
      assert t[1..] == gs[1..];
      assert Flatten(t) == g.1 + Flatten(gs[1..]);
      assert Flatten(gs) == gs[0].1 + Flatten(gs[1..]);
    }
  }

  /** Adding bench `i` adds exactly one occurrence of `i`. */
  lemma AddToGroupsFlatten(gs: seq<Group>, key: string, i: nat)
    ensures multiset(Flatten(AddToGroups(gs, key, i))) == multiset(Flatten(gs)) + multiset{i}
  {
    var j := FindKey(gs, key);
    if j < 0 {
      FlattenAppend(gs, (key, [i]));
    } else {
      var g := (gs[j].0, gs[j].1 + [i]);
      assert AddToGroups(gs, key, i) == gs[j := g];
      FlattenUpdate(gs, j, g);
      var a := multiset(gs[j].1);
      assert multiset(g.1) == a + multiset{i};
      var lhs := multiset(Flatten(gs[j := g]));
      var rhs := multiset(Flatten(gs)) + multiset{i};
      assert lhs + a == multiset(Flatten(gs)) + multiset(g.1);
      forall x ensures lhs[x] == rhs[x] {
        assert (lhs + a)[x] == (multiset(Flatten(gs)) + multiset(g.1))[x];
      }
    }
  }

  lemma AddToGroupsMatch(gs: seq<Group>, keys: seq<string>, key: string)
    requires GroupsMatch(gs, keys)
    ensures GroupsMatch(AddToGroups(gs, key, |keys|), keys + [key])
  {
    var keys' := keys + [key];
    var r := AddToGroups(gs, key, |keys|);
    forall k | 0 <= k < |r| ensures GroupMatches(r[k], keys') {
      if k < |gs| {
        assert GroupMatches(gs[k], keys);
        forall m | 0 <= m < |gs[k].1| ensures keys'[gs[k].1[m]] == keys[gs[k].1[m]] {
        }
      }
    }
  }

  lemma AddToGroupsDistinct(gs: seq<Group>, key: string, i: nat)
    requires NamesDistinct(gs)
    ensures NamesDistinct(AddToGroups(gs, key, i))
  {
    var r := AddToGroups(gs, key, i);
    forall p, q | 0 <= p < q < |r| ensures LowerStr(r[p].0) != LowerStr(r[q].0) {
      if q < |gs| {
        assert r[p].0 == gs[p].0 && r[q].0 == gs[q].0;
      } else {
        assert !EqualsIgnoreCase(gs[p].0, key);
      }
    }
  }

  /** The collected groups partition the benches: every bench index occurs
      in exactly one group, once; every group is non-empty and holds only
      benches of its key; and no two groups share a name ignoring case. */
  lemma {:induction false} CollectGroupsSpec(keys: seq<string>)
    ensures multiset(Flatten(CollectGroups(keys))) == multiset(Indices(|keys|))
    ensures GroupsMatch(CollectGroups(keys), keys)
    ensures NamesDistinct(CollectGroups(keys))
    decreases |keys|
  {
    if |keys| > 0 {
      var n := |keys| - 1;
      var prefix := keys[..n];
      CollectGroupsSpec(prefix);
      AddToGroupsFlatten(CollectGroups(prefix), keys[n], n);
      assert prefix + [keys[n]] == keys;
      AddToGroupsMatch(CollectGroups(prefix), prefix, keys[n]);
      AddToGroupsDistinct(CollectGroups(prefix), keys[n], n);
    }
  }

  /** A group is named after the key of the first bench that created it,
      so a group keeps the spelling it was first seen with. */
  lemma {:induction false} CollectGroupsFirstSpelling(keys: seq<string>, k: nat)
    requires k < |CollectGroups(keys)|
    ensures |CollectGroups(keys)[k].1| > 0
    ensures CollectGroups(keys)[k].1[0] < |keys|
    ensures CollectGroups(keys)[k].0 == keys[CollectGroups(keys)[k].1[0]]
    decreases |keys|
  {
    var n := |keys| - 1;
    var prev := CollectGroups(keys[..n]);
    if k < |prev| {
      CollectGroupsFirstSpelling(keys[..n], k);
      CollectGroupsSpec(keys[..n]);
      assert GroupMatches(prev[k], keys[..n]);
    }
  }

  // ---------------------------------------------------------------------------
  // Ordering
  // ---------------------------------------------------------------------------

  /** The `_catNames.Sort` comparator: favourite categories first, among
      them by favourite order, then by name ignoring case. */
  function CategoryCompare(favs: FavList, a: string, b: string): (r: int)
    ensures -1 <= r <= 1
    ensures IsFavorite(favs, a) && !IsFavorite(favs, b) ==> r < 0
    ensures r == 0 ==> EqualsIgnoreCase(a, b)
  {
    var af := IsFavorite(favs, a);
    var bf := IsFavorite(favs, b);
    if af != bf then (if af then -1 else 1)
    else if af && CompareInt(FavoriteRank(favs, a), FavoriteRank(favs, b)) != 0 then
      CompareInt(FavoriteRank(favs, a), FavoriteRank(favs, b))
    else CompareIgnoreCase(a, b)
  }

  lemma CategoryTransitive(favs: FavList, a: string, b: string, c: string)
    requires CategoryCompare(favs, a, b) <= 0 && CategoryCompare(favs, b, c) <= 0
    ensures CategoryCompare(favs, a, c) <= 0
  {
    if IsFavorite(favs, a) == IsFavorite(favs, b) == IsFavorite(favs, c) {
      if CompareIgnoreCase(a, b) <= 0 && CompareIgnoreCase(b, c) <= 0 {
        CompareIgnoreCaseTransitive(a, b, c);
      }
    }
  }

  function GroupOrder(favs: FavList): (Group, Group) -> int {
    (g: Group, h: Group) => CategoryCompare(favs, g.0, h.0)
  }

  lemma GroupOrderTotal(favs: FavList)
    ensures Sorting.TotalPreorder(GroupOrder(favs))
  {
    var cmp := GroupOrder(favs);
    forall g: Group, h: Group ensures cmp(g, h) <= 0 || cmp(h, g) <= 0 {
      CompareIgnoreCaseAntisymmetric(g.0, h.0);
    }
    forall g: Group, h: Group, i: Group | cmp(g, h) <= 0 && cmp(h, i) <= 0
      ensures cmp(g, i) <= 0
    {
      CategoryTransitive(favs, g.0, h.0, i.0);
    }
  }

  /** The `li.Sort` comparator on bench records: favourite benches first,
      among them by `FavoriteOrder`, then `BenchRef.Comparer`. */
  function ItemBenchCompare(x: Bench, y: Bench): (r: int)
    ensures -1 <= r <= 1
    ensures x.isFavorite && !y.isFavorite ==> r < 0
    ensures r == 0 ==> x.Key() == y.Key()
  {
    if x.isFavorite != y.isFavorite then (if x.isFavorite then -1 else 1)
    else if x.isFavorite && CompareInt(x.favoriteOrder, y.favoriteOrder) != 0 then
      CompareInt(x.favoriteOrder, y.favoriteOrder)
    else BenchCompare(x, y)
  }

  lemma ItemBenchTransitive(x: Bench, y: Bench, z: Bench)
    requires ItemBenchCompare(x, y) <= 0 && ItemBenchCompare(y, z) <= 0
    ensures ItemBenchCompare(x, z) <= 0
  {
    if x.isFavorite == y.isFavorite == z.isFavorite {
      if BenchCompare(x, y) <= 0 && BenchCompare(y, z) <= 0 {
        BenchTransitive(x, y, z);
      }
    }
  }

  /** The comparator on bench indices. Indices outside the bench list never
      occur in a group; ordering them last keeps the comparator total. */
  function ItemCompare(bs: seq<Bench>, a: nat, b: nat): (r: int)
    ensures -1 <= r <= 1
  {
    if a < |bs| && b < |bs| then ItemBenchCompare(bs[a], bs[b])
    else if a < |bs| then -1
    else if b < |bs| then 1
    else CompareInt(a, b)
  }

  function ItemOrder(bs: seq<Bench>): (nat, nat) -> int {
    (a: nat, b: nat) => ItemCompare(bs, a, b)
  }

  lemma ItemOrderTotal(bs: seq<Bench>)
    ensures Sorting.TotalPreorder(ItemOrder(bs))
  {
    var cmp := ItemOrder(bs);
    forall a: nat, b: nat ensures cmp(a, b) <= 0 || cmp(b, a) <= 0 {
      ItemCompareTotal(bs, a, b);
    }
    forall a: nat, b: nat, c: nat | cmp(a, b) <= 0 && cmp(b, c) <= 0
      ensures cmp(a, c) <= 0
    {
      ItemCompareTransitive(bs, a, b, c);
    }
  }

  lemma ItemCompareTotal(bs: seq<Bench>, a: nat, b: nat)
    ensures ItemCompare(bs, a, b) <= 0 || ItemCompare(bs, b, a) <= 0
  {
    if a < |bs| && b < |bs| {
      BenchCompareTotalPreorder();
      assert BenchCompare(bs[a], bs[b]) <= 0 || BenchCompare(bs[b], bs[a]) <= 0;
    }
  }

  lemma ItemCompareTransitive(bs: seq<Bench>, a: nat, b: nat, c: nat)
    requires ItemCompare(bs, a, b) <= 0 && ItemCompare(bs, b, c) <= 0
    ensures ItemCompare(bs, a, c) <= 0
  {
    if a < |bs| && b < |bs| && c < |bs| {
      ItemBenchTransitive(bs[a], bs[b], bs[c]);
    }
  }

  /** Sort the item list of every group, keeping the group order. */
  function SortItems(bs: seq<Bench>, gs: seq<Group>): (r: seq<Group>)
    ensures |r| == |gs|
    ensures forall k :: 0 <= k < |gs| ==> r[k] == (gs[k].0, Sorting.SortBy(gs[k].1, ItemOrder(bs)))
  {
    seq(|gs|, k requires 0 <= k < |gs| => (gs[k].0, Sorting.SortBy(gs[k].1, ItemOrder(bs))))
  }

  /** The groups of `RebuildGroups`: collected, categories sorted, items
      sorted. */
  function BuildGroups(h: Host, renames: RenameMap, favs: FavList, bs: seq<Bench>): seq<Group> {
    SortItems(bs, Sorting.SortBy(CollectGroups(CategoryKeys(h, renames, bs)), GroupOrder(favs)))
  }

  // ---------------------------------------------------------------------------
  // Properties of the rebuilt groups
  // ---------------------------------------------------------------------------

  lemma {:induction false} FlattenInsert(x: Group, s: seq<Group>, cmp: (Group, Group) -> int)
    ensures multiset(Flatten(Sorting.Insert(x, s, cmp))) == multiset(x.1) + multiset(Flatten(s))
    decreases |s|
  {
    if |s| > 0 && cmp(x, s[0]) > 0 {
      FlattenInsert(x, s[1..], cmp);
      assert ([s[0]] + Sorting.Insert(x, s[1..], cmp))[1..] == Sorting.Insert(x, s[1..], cmp);
    } else if |s| > 0 {
      assert ([x] + s)[1..] == s;
    }
  }

  lemma {:induction false} FlattenSortBy(s: seq<Group>, cmp: (Group, Group) -> int)
    ensures multiset(Flatten(Sorting.SortBy(s, cmp))) == multiset(Flatten(s))
  {
    if |s| > 0 {
      FlattenSortBy(s[1..], cmp);
      FlattenInsert(s[0], Sorting.SortBy(s[1..], cmp), cmp);
    }
  }

  lemma {:induction false} FlattenSortItems(bs: seq<Bench>, gs: seq<Group>)
    ensures multiset(Flatten(SortItems(bs, gs))) == multiset(Flatten(gs))
  {
    if |gs| > 0 {
      FlattenSortItems(bs, gs[1..]);
      assert SortItems(bs, gs)[1..] == SortItems(bs, gs[1..]);
    }
  }

  /** Every element of a sorted sequence is an element of the original. */
  lemma SortedFrom<T>(s: seq<T>, cmp: (T, T) -> int, k: nat)
    requires k < |s|
    ensures Sorting.SortBy(s, cmp)[k] in s
  {
    assert Sorting.SortBy(s, cmp)[k] in multiset(Sorting.SortBy(s, cmp));
  }

  lemma SortGroupsMatch(gs: seq<Group>, keys: seq<string>, cmp: (Group, Group) -> int)
    requires GroupsMatch(gs, keys)
    ensures GroupsMatch(Sorting.SortBy(gs, cmp), keys)
  {
    var r := Sorting.SortBy(gs, cmp);
    forall k | 0 <= k < |r| ensures GroupMatches(r[k], keys) {
      SortedFrom(gs, cmp, k);
    }
  }

  lemma SortItemsMatch(bs: seq<Bench>, gs: seq<Group>, keys: seq<string>)
    requires GroupsMatch(gs, keys)
    ensures GroupsMatch(SortItems(bs, gs), keys)
  {
    var r := SortItems(bs, gs);
    forall k | 0 <= k < |r| ensures GroupMatches(r[k], keys) {
      assert GroupMatches(gs[k], keys);
      var l := Sorting.SortBy(gs[k].1, ItemOrder(bs));
      forall m | 0 <= m < |l| ensures l[m] < |keys| && EqualsIgnoreCase(keys[l[m]], gs[k].0) {
        SortedFrom(gs[k].1, ItemOrder(bs), m);
      }
    }
  }

  lemma SortItemsDistinct(bs: seq<Bench>, gs: seq<Group>)
    requires NamesDistinct(gs)
    ensures NamesDistinct(SortItems(bs, gs))
  {
    var r := SortItems(bs, gs);
    forall p, q | 0 <= p < q < |r| ensures LowerStr(r[p].0) != LowerStr(r[q].0) {
      assert r[p].0 == gs[p].0 && r[q].0 == gs[q].0;
    }
  }

  /** The groups of `RebuildGroups` partition the benches by category key
      ignoring case, with distinct names, categories in favourite-first
      order and each category's items in favourite-first order. */
  lemma BuildGroupsSpec(h: Host, renames: RenameMap, favs: FavList, bs: seq<Bench>)
    ensures multiset(Flatten(BuildGroups(h, renames, favs, bs))) == multiset(Indices(|bs|))
    ensures GroupsMatch(BuildGroups(h, renames, favs, bs), CategoryKeys(h, renames, bs))
    ensures NamesDistinct(BuildGroups(h, renames, favs, bs))
    ensures Sorting.Sorted(BuildGroups(h, renames, favs, bs), GroupOrder(favs))
    ensures forall k :: 0 <= k < |BuildGroups(h, renames, favs, bs)| ==>
      Sorting.Sorted(BuildGroups(h, renames, favs, bs)[k].1, ItemOrder(bs))
  {
    var keys := CategoryKeys(h, renames, bs);
    var collected := CollectGroups(keys);
    var ordered := Sorting.SortBy(collected, GroupOrder(favs));
    var r := SortItems(bs, ordered);
    CollectGroupsSpec(keys);
    FlattenSortBy(collected, GroupOrder(favs));
    FlattenSortItems(bs, ordered);
    SortGroupsMatch(collected, keys, GroupOrder(favs));
    SortItemsMatch(bs, ordered, keys);
    Sorting.SortByDistinct(collected, GroupOrder(favs), (g: Group) => LowerStr(g.0));
    SortItemsDistinct(bs, ordered);
    GroupOrderTotal(favs);
    Sorting.SortBySorted(collected, GroupOrder(favs));
    assert Sorting.Sorted(r, GroupOrder(favs)) by {
      forall i, j | 0 <= i < j < |r| ensures GroupOrder(favs)(r[i], r[j]) <= 0 {
        assert r[i].0 == ordered[i].0 && r[j].0 == ordered[j].0;
      }
    }
    ItemOrderTotal(bs);
    forall k | 0 <= k < |r| ensures Sorting.Sorted(r[k].1, ItemOrder(bs)) {
      Sorting.SortBySorted(ordered[k].1, ItemOrder(bs));
    }
  }

  /** Favourite categories come before all others in the menu. */
  lemma FavoriteCategoriesFirst(favs: FavList, gs: seq<Group>, i: nat, j: nat)
    requires Sorting.Sorted(gs, GroupOrder(favs))
    requires i < j < |gs| && IsFavorite(favs, gs[j].0)
    ensures IsFavorite(favs, gs[i].0)
  {
    assert GroupOrder(favs)(gs[i], gs[j]) <= 0;
  }

  /** Within a category, favourite benches come before all others. */
  lemma FavoriteItemsFirst(bs: seq<Bench>, l: seq<nat>, i: nat, j: nat)
    requires Sorting.Sorted(l, ItemOrder(bs))
    requires i < j < |l| && l[i] < |bs| && l[j] < |bs| && bs[l[j]].isFavorite
    ensures bs[l[i]].isFavorite
  {
    assert ItemOrder(bs)(l[i], l[j]) <= 0;
  }
}
