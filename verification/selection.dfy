/** The menu cursor: where the selection goes after the groups are rebuilt
    (`RebuildGroups`, `RefreshGroupsAndSelectionAfterMutation`,
    `RestoreSelectionToBench`, the end of `RemoveBenchAtIndex`) and the
    wrap-around up/down navigation. Page numbers, which are the cursor
    divided by the items per page, are left to the renderer. */
module Selection {
  import opened Text
  import opened Benches
  import opened Favorites
  import opened Zones
  import opened Categories
  import opened Groups

  /** `_selected` (a bench index, -1 for none), `_inCategoryView`,
      `_selectedCategory` and `_selectedInCategory`. */
  datatype Cursor = Cursor(selected: int, inCategoryView: bool, category: int, inCategory: int)

  /** `Mathf.Clamp(v, lo, hi)` on integers. */
  function Clamp(v: int, lo: int, hi: int): (r: int)
    ensures lo <= hi ==> lo <= r <= hi
    ensures lo <= v <= hi ==> r == v
  {
    if v < lo then lo else if v > hi then hi else v
  }

  function Max(a: int, b: int): int {
    if a >= b then a else b
  }

  /** `List<int>.IndexOf`: the first position of `x`, or -1. */
  function Find(s: seq<nat>, x: int): (r: int)
    ensures -1 <= r < |s|
    ensures r >= 0 ==> s[r] == x && forall j :: 0 <= j < r ==> s[j] != x
    ensures r < 0 <==> x !in s
  {
    if |s| == 0 then -1
    else if s[0] == x then 0
    else
      var r := Find(s[1..], x);
      if r < 0 then -1 else r + 1
  }

  // ---------------------------------------------------------------------------
  // Wrap-around navigation
  // ---------------------------------------------------------------------------

  /** C#'s `%`, which truncates toward zero (the remainder has the sign of
      the dividend). */
  function CsRem(a: int, n: int): (r: int)
    requires n > 0
    ensures -n < r < n
    ensures a >= 0 ==> r == a % n
  {
    if a >= 0 then a % n else -((-a) % n)
  }

  /** `((i + delta) % n + n) % n`, the up/down step of both menu levels:
      always a row of the list, even from a stale cursor. */
  function Wrap(i: int, delta: int, n: int): (r: int)
    requires n > 0
    ensures 0 <= r < n
  {
    CsRem(CsRem(i + delta, n) + n, n)
  }

  lemma ModSmall(x: int, n: int)
    requires 0 <= x < n
    ensures x % n == x && (x + n) % n == x
  {
  }

  /** From a row of the list, down moves to the next row and wraps from
      the last row to the first, in agreement with the mathematical
      modulus. */
  lemma WrapDown(i: int, n: int)
    requires 0 <= i < n
    ensures Wrap(i, 1, n) == (if i + 1 < n then i + 1 else 0) == (i + 1) % n
  {
    if i + 1 < n {
      ModSmall(i + 1, n);
      assert CsRem(i + 1, n) == i + 1;
      assert CsRem(i + 1 + n, n) == (i + 1 + n) % n;
    } else {
      assert (i + 1) % n == 0;
      assert CsRem(i + 1, n) == 0;
      ModSmall(0, n);
      assert CsRem(n, n) == 0;
    }
  }

  /** From a row of the list, up moves to the previous row and wraps from
      the first row to the last, in agreement with the mathematical
      modulus. */
  lemma WrapUp(i: int, n: int)
    requires 0 <= i < n
    ensures Wrap(i, -1, n) == (if i > 0 then i - 1 else n - 1) == (i - 1) % n
  {
    if i > 0 {
      ModSmall(i - 1, n);
      assert CsRem(i - 1, n) == i - 1;
      assert CsRem(i - 1 + n, n) == (i - 1 + n) % n;
    } else if n == 1 {
      assert 1 % n == 0;
      assert CsRem(-1, n) == 0;
      assert CsRem(0 + n, n) == 0;
    } else {
      assert 1 % n == 1;
      assert CsRem(-1, n) == -1;
      ModSmall(n - 1, n);
      assert CsRem(n - 1, n) == n - 1;
    }
  }

  /** Moving down and then up returns to the same row. */
  lemma WrapDownUp(i: int, n: int)
    requires 0 <= i < n
    ensures Wrap(Wrap(i, 1, n), -1, n) == i
  {
    WrapDown(i, n);
    WrapUp(Wrap(i, 1, n), n);
  }

  /** One up/down step (`delta` is -1, 0 or +1) in either view. In the item
      view the selected bench follows the row; with no categories at all the
      item view returns without moving. */
  function Navigate(gs: seq<Group>, c: Cursor, delta: int): (r: Cursor)
    requires !c.inCategoryView && |gs| > 0 ==> 0 <= c.category < |gs|
    ensures r.inCategoryView == c.inCategoryView
    ensures delta == 0 || |gs| == 0 ==> r == c
    ensures delta != 0 && c.inCategoryView && |gs| > 0 ==> 0 <= r.category < |gs|
    ensures delta != 0 && !c.inCategoryView && |gs| > 0 && |gs[c.category].1| > 0 ==>
      r.category == c.category && 0 <= r.inCategory < |gs[c.category].1| &&
      r.selected == gs[c.category].1[r.inCategory]
  {
    if c.inCategoryView then
      if delta != 0 && |gs| > 0 then c.(category := Wrap(c.category, delta, |gs|)) else c
    else if |gs| == 0 then c
    else
      var list := gs[c.category].1;
      if delta != 0 && |list| > 0 then
        var k := Wrap(c.inCategory, delta, |list|);
        c.(inCategory := k, selected := list[k])
      else c
  }

  // ---------------------------------------------------------------------------
  // Cursor after a rebuild
  // ---------------------------------------------------------------------------

  /** The end of `RebuildGroups`: clamp the category and, in the item view,
      the row, and select the bench on that row. */
  function RebuildCursor(gs: seq<Group>, c: Cursor): (r: Cursor)
    ensures r.inCategoryView == c.inCategoryView
    ensures |gs| > 0 ==> 0 <= r.category < |gs|
    ensures 0 <= c.category < |gs| ==> r.category == c.category
  {
    var cat := Clamp(c.category, 0, Max(0, |gs| - 1));
    if !c.inCategoryView && |gs| > 0 then
      var list := gs[cat].1;
      var k := Clamp(c.inCategory, 0, Max(0, |list| - 1));
      if |list| > 0 then c.(category := cat, inCategory := k, selected := list[k])
      else c.(category := cat, inCategory := k)
    else c.(category := cat)
  }

  /** Rebuilding twice leaves the cursor where the first rebuild put it. */
  lemma RebuildCursorIdempotent(gs: seq<Group>, c: Cursor)
    ensures RebuildCursor(gs, RebuildCursor(gs, c)) == RebuildCursor(gs, c)
  {
  }

  /** In the item view the rebuilt cursor is on a real row of its category
      and selects that row's bench. */
  lemma RebuildCursorOnRow(gs: seq<Group>, c: Cursor)
    requires !c.inCategoryView && |gs| > 0 && |gs[Clamp(c.category, 0, |gs| - 1)].1| > 0
    ensures 0 <= RebuildCursor(gs, c).inCategory < |gs[RebuildCursor(gs, c).category].1|
    ensures RebuildCursor(gs, c).selected == gs[RebuildCursor(gs, c).category].1[RebuildCursor(gs, c).inCategory]
  {
  }

  /** `RefreshGroupsAndSelectionAfterMutation`, given the category key of
      every bench and the rebuilt groups: keep the selected bench and move
      the cursor to its category and row; with no benches, reset. */
  function RefreshAfterMutation(keys: seq<string>, gs: seq<Group>, c: Cursor): (r: Cursor)
    ensures |keys| == 0 ==> r == Cursor(-1, true, 0, 0)
    ensures |keys| > 0 ==> r.selected >= 0
  {
    var n := |keys|;
    var pinned := Clamp(c.selected, 0, Max(0, n - 1));
    var c1 := RebuildCursor(gs, c);
    if n == 0 then Cursor(-1, true, 0, 0)
    else
      var sel := Clamp(pinned, 0, n - 1);
      var key := keys[sel];
      var j := FindKey(gs, key);
      if |key| > 0 && j >= 0 && |gs[j].1| > 0 then
        var list := gs[j].1;
        var cat := Clamp(j, 0, Max(0, |gs| - 1));
        var found := Find(list, sel);
        var inIdx := if found < 0 then Clamp(c1.inCategory, 0, |list| - 1) else found;
        var sel' := if found < 0 then list[inIdx] else sel;
        Cursor(sel', c1.inCategoryView, cat, Clamp(inIdx, 0, |list| - 1))
      else
        Cursor(sel, true, Clamp(c1.category, 0, Max(0, |gs| - 1)), 0)
  }

  /** Each index of a flattened group list sits on some row of some group. */
  lemma {:induction false} FindInFlatten(gs: seq<Group>, x: nat) returns (k: nat, m: nat)
    requires x in multiset(Flatten(gs))
    ensures k < |gs| && m < |gs[k].1| && gs[k].1[m] == x
  {
    if x in gs[0].1 {
      k := 0;
      m :| m < |gs[0].1| && gs[0].1[m] == x;
    } else {
      assert Flatten(gs) == gs[0].1 + Flatten(gs[1..]);
      var k', m' := FindInFlatten(gs[1..], x);
      k, m := k' + 1, m';
    }
  }

  /** With distinct names, the group holding a bench is the one its key
      finds. */
  lemma GroupOfBench(gs: seq<Group>, keys: seq<string>, k: nat, m: nat)
    requires GroupsMatch(gs, keys) && NamesDistinct(gs)
    requires k < |gs| && m < |gs[k].1|
    ensures gs[k].1[m] < |keys| && FindKey(gs, keys[gs[k].1[m]]) == k
  {
    assert GroupMatches(gs[k], keys);
    var key := keys[gs[k].1[m]];
    assert EqualsIgnoreCase(gs[k].0, key);
    assert forall p :: 0 <= p < k ==> LowerStr(gs[p].0) != LowerStr(gs[k].0);
  }

  /** Where the rebuilt groups hold bench `x`: its group is the one its key
      finds, and it occurs in that group's list. */
  lemma LocateBench(h: Host, renames: RenameMap, favs: FavList, bs: seq<Bench>, x: nat) returns (k: nat, m: nat)
    requires x < |bs|
    ensures k < |BuildGroups(h, renames, favs, bs)|
    ensures k == FindKey(BuildGroups(h, renames, favs, bs), CategoryKeys(h, renames, bs)[x])
    ensures m < |BuildGroups(h, renames, favs, bs)[k].1| && BuildGroups(h, renames, favs, bs)[k].1[m] == x
  {
    var gs := BuildGroups(h, renames, favs, bs);
    var keys := CategoryKeys(h, renames, bs);
    BuildGroupsSpec(h, renames, favs, bs);
    IndicesOnce(|bs|, x);
    k, m := FindInFlatten(gs, x);
    GroupOfBench(gs, keys, k, m);
  }

  /** After a mutation the selection follows the bench that was selected
      (clamped into the list): the cursor sits on that bench's category and
      on its row. */
  lemma RefreshFollowsSelection(h: Host, renames: RenameMap, favs: FavList, bs: seq<Bench>, c: Cursor)
    requires |bs| > 0
    ensures var gs := BuildGroups(h, renames, favs, bs);
            var r := RefreshAfterMutation(CategoryKeys(h, renames, bs), gs, c);
            && r.selected == Clamp(c.selected, 0, |bs| - 1)
            && r.inCategoryView == c.inCategoryView
            && 0 <= r.category < |gs| && 0 <= r.inCategory < |gs[r.category].1|
            && gs[r.category].1[r.inCategory] == r.selected
            && EqualsIgnoreCase(gs[r.category].0, CategoryKey(h, renames, bs[r.selected]))
  {
    var gs := BuildGroups(h, renames, favs, bs);
    var keys := CategoryKeys(h, renames, bs);
    var sel := Clamp(c.selected, 0, |bs| - 1);
    var k, m := LocateBench(h, renames, favs, bs, sel);
    assert |keys[sel]| > 0;
    RefreshOnFoundRow(keys, gs, c, k, m);
  }

  /** When the clamped selection sits on row `m` of the group its key
      finds, the refresh keeps it and moves the cursor to that row. */
  lemma RefreshOnFoundRow(keys: seq<string>, gs: seq<Group>, c: Cursor, k: nat, m: nat)
    requires |keys| > 0
    requires var sel := Clamp(c.selected, 0, |keys| - 1);
             |keys[sel]| > 0 && k < |gs| && k == FindKey(gs, keys[sel]) && m < |gs[k].1| && gs[k].1[m] == sel
    ensures var r := RefreshAfterMutation(keys, gs, c);
            && r.selected == Clamp(c.selected, 0, |keys| - 1)
            && r.inCategoryView == c.inCategoryView
            && r.category == k && 0 <= r.inCategory < |gs[k].1| && gs[k].1[r.inCategory] == r.selected
  {
    var sel := Clamp(c.selected, 0, |keys| - 1);
    var found := Find(gs[k].1, sel);
    assert sel in gs[k].1;
    assert 0 <= found < |gs[k].1|;
  }

  // ---------------------------------------------------------------------------
  // Restoring the selection by bench identity
  // ---------------------------------------------------------------------------

  /** The `scene|marker` text that identifies a bench in the UI. */
  function KeyText(b: Bench): string {
    b.scene + "|" + b.marker
  }

  /** The first bench whose key text is `key`, or -1. */
  function FindBenchByKey(bs: seq<Bench>, key: string): (r: int)
    ensures -1 <= r < |bs|
    ensures r >= 0 ==> KeyText(bs[r]) == key && forall j :: 0 <= j < r ==> KeyText(bs[j]) != key
    ensures r < 0 ==> forall j :: 0 <= j < |bs| ==> KeyText(bs[j]) != key
  {
    if |bs| == 0 then -1
    else if KeyText(bs[0]) == key then 0
    else
      var r := FindBenchByKey(bs[1..], key);
      if r < 0 then -1 else r + 1
  }

  /** `RestoreSelectionToBench`: select the first bench with the given key
      text and, when its category and row are found, move the cursor
      there; nothing changes for an empty or unknown key. */
  function RestoreSelection(keys: seq<string>, bs: seq<Bench>, gs: seq<Group>, benchKey: string, c: Cursor): (r: Cursor)
    requires |keys| == |bs|
    ensures |benchKey| == 0 || FindBenchByKey(bs, benchKey) < 0 ==> r == c
    ensures r.inCategoryView == c.inCategoryView
  {
    if |benchKey| == 0 then c
    else
      var i := FindBenchByKey(bs, benchKey);
      if i < 0 then c
      else
        var key := keys[i];
        var j := FindKey(gs, key);
        if |key| > 0 && j >= 0 then
          var inIdx := Find(gs[j].1, i);
          if inIdx >= 0 then c.(selected := i, category := j, inCategory := inIdx)
          else c.(selected := i, category := j)
        else c.(selected := i)
  }

  /** Restoring a known bench puts the cursor on that bench's row. */
  lemma RestoreSelectsBench(h: Host, renames: RenameMap, favs: FavList, bs: seq<Bench>, benchKey: string, c: Cursor)
    requires |benchKey| > 0 && FindBenchByKey(bs, benchKey) >= 0
    ensures var gs := BuildGroups(h, renames, favs, bs);
            var r := RestoreSelection(CategoryKeys(h, renames, bs), bs, gs, benchKey, c);
            && r.selected == FindBenchByKey(bs, benchKey)
            && KeyText(bs[r.selected]) == benchKey
            && 0 <= r.category < |gs| && 0 <= r.inCategory < |gs[r.category].1|
            && gs[r.category].1[r.inCategory] == r.selected
  {
    var gs := BuildGroups(h, renames, favs, bs);
    var keys := CategoryKeys(h, renames, bs);
    var i := FindBenchByKey(bs, benchKey);
    var k, m := LocateBench(h, renames, favs, bs, i);
    assert |keys[i]| > 0;
    var found := Find(gs[k].1, i);
    assert i in gs[k].1;
    assert found >= 0;
    assert RestoreSelection(keys, bs, gs, benchKey, c) == c.(selected := i, category := k, inCategory := found);
  }

  // ---------------------------------------------------------------------------
  // Cursor after a deletion
  // ---------------------------------------------------------------------------

  /** The row the deleted bench had in its category before the deletion
      (or the clamped current row when it is not found). */
  function RowBeforeRemoval(oldGs: seq<Group>, catKey: string, index: int, c: Cursor): (r: int)
    ensures r >= 0
  {
    var j := FindKey(oldGs, catKey);
    if |catKey| > 0 && j >= 0 then
      var t := Find(oldGs[j].1, index);
      if t >= 0 then t else Clamp(c.inCategory, 0, Max(0, |oldGs[j].1| - 1))
    else 0
  }

  /** The end of `RemoveBenchAtIndex` once the groups are rebuilt: stay in
      the deleted bench's category, on the neighbouring row, when that
      category still has benches. */
  function CursorAfterRemoval(gs: seq<Group>, catKey: string, prevRow: int, benchCount: nat, c: Cursor): (r: Cursor)
    ensures var j := FindKey(gs, catKey);
            |catKey| > 0 && j >= 0 && |gs[j].1| > 0 ==>
              && !r.inCategoryView && r.category == j
              && 0 <= r.inCategory < |gs[j].1|
              && r.selected == gs[j].1[r.inCategory]
              && (0 <= prevRow < |gs[j].1| ==> r.inCategory == prevRow)
  {
    var c1 := RebuildCursor(gs, c);
    if |catKey| > 0 then
      var j := FindKey(gs, catKey);
      if j >= 0 && |gs[j].1| > 0 then
        var list := gs[j].1;
        var row := Clamp(prevRow, 0, |list| - 1);
        Cursor(list[row], false, Clamp(j, 0, Max(0, |gs| - 1)), row)
      else if j >= 0 then
        Cursor(Clamp(c1.selected, 0, Max(0, benchCount - 1)), true, Clamp(j, 0, Max(0, |gs| - 1)), 0)
      else c1
    else c1
  }
}
