/** Favourite categories (`_favoriteScenes`): an ordered list of category
    names, distinct ignoring case, stored as one `;`-separated string. */
module Favorites {
  import opened Text

  type FavList = seq<string>

  /** The invariant the plugin keeps: non-empty names, distinct ignoring
      case. */
  ghost predicate WellFormed(l: FavList) {
    && (forall i :: 0 <= i < |l| ==> |l[i]| > 0)
    && (forall i, j :: 0 <= i < j < |l| ==> !EqualsIgnoreCase(l[i], l[j]))
  }

  /** `FindIndex(s => string.Equals(s, cat, …IgnoreCase))`. */
  function FindFavorite(l: FavList, cat: string): (r: int)
    ensures -1 <= r < |l|
    ensures r >= 0 ==> EqualsIgnoreCase(l[r], cat)
    ensures r >= 0 ==> forall j :: 0 <= j < r ==> !EqualsIgnoreCase(l[j], cat)
    ensures r < 0 <==> forall j :: 0 <= j < |l| ==> !EqualsIgnoreCase(l[j], cat)
  {
    if |l| == 0 then -1
    else if EqualsIgnoreCase(l[0], cat) then 0
    else
      var r := FindFavorite(l[1..], cat);
      if r < 0 then -1 else r + 1
  }

  /** `IsCategoryFavorited`. */
  predicate IsFavorite(l: FavList, cat: string) {
    |cat| > 0 && FindFavorite(l, cat) >= 0
  }

  /** `_favoriteScenesOrder.TryGetValue(cat, …) ? order : int.MaxValue`. */
  function FavoriteRank(l: FavList, cat: string): (r: int)
    ensures FindFavorite(l, cat) >= 0 ==> r == FindFavorite(l, cat)
    ensures FindFavorite(l, cat) < 0 ==> r == Int32Max
  {
    var i := FindFavorite(l, cat);
    if i >= 0 then i else Int32Max
  }

  // ---------------------------------------------------------------------------
  // Codec
  // ---------------------------------------------------------------------------

  /** One token of `LoadFavoriteScenes`: trimmed, kept when non-empty and
      not yet present ignoring case. */
  function LoadFavoriteStep(acc: FavList, tok: string): FavList {
    var name := Trim(tok);
    if |name| > 0 && FindFavorite(acc, name) < 0 then acc + [name] else acc
  }

  function LoadFavoriteTokens(acc: FavList, toks: seq<string>): FavList
    decreases |toks|
  {
    if |toks| == 0 then acc else LoadFavoriteTokens(LoadFavoriteStep(acc, toks[0]), toks[1..])
  }

  /** A stored name: non-empty, trimmed, no separator. */
  predicate StorableName(s: string) {
    |s| > 0 && NoWhiteEnds(s) && ';' !in s
  }

  /** `LoadFavoriteScenes`: the result is well formed and every name is
      storable. */
  function LoadFavorites(raw: string): (r: FavList)
    ensures WellFormed(r)
    ensures forall i :: 0 <= i < |r| ==> StorableName(r[i])
  {
    var toks := SplitNonEmpty(raw, ';');
    LoadFavoriteTokensValid([], toks);
    LoadFavoriteTokens([], toks)
  }

  lemma {:induction false} LoadFavoriteTokensValid(acc: FavList, toks: seq<string>)
    requires WellFormed(acc) && forall i :: 0 <= i < |acc| ==> StorableName(acc[i])
    requires forall i :: 0 <= i < |toks| ==> ';' !in toks[i]
    ensures WellFormed(LoadFavoriteTokens(acc, toks))
    ensures forall i :: 0 <= i < |LoadFavoriteTokens(acc, toks)| ==> StorableName(LoadFavoriteTokens(acc, toks)[i])
    decreases |toks|
  {
    if |toks| > 0 {
      var acc' := LoadFavoriteStep(acc, toks[0]);
      if acc' != acc {
        var name := Trim(toks[0]);
        assert acc' == acc + [name];
        assert ';' !in name;
        forall i, j | 0 <= i < j < |acc'| ensures !EqualsIgnoreCase(acc'[i], acc'[j]) {
          if j == |acc| {
            assert acc'[i] == acc[i];
          }
        }
      }
      LoadFavoriteTokensValid(acc', toks[1..]);
    }
  }

  /** `SaveFavoriteScenes`. */
  function SaveFavorites(l: FavList): string {
    Join(l, ';')
  }

  lemma {:induction false} LoadSavedFavorites(acc: FavList, l: FavList)
    requires WellFormed(acc + l)
    requires forall i :: 0 <= i < |l| ==> StorableName(l[i])
    ensures LoadFavoriteTokens(acc, l) == acc + l
    decreases |l|
  {
    if |l| > 0 {
      assert StorableName(l[0]);
      assert Trim(l[0]) == l[0];
      forall j | 0 <= j < |acc| ensures !EqualsIgnoreCase(acc[j], l[0]) {
        assert (acc + l)[j] == acc[j] && (acc + l)[|acc|] == l[0];
      }
      assert LoadFavoriteStep(acc, l[0]) == acc + [l[0]];
      ShiftHead(acc, l);
      LoadSavedFavorites(acc + [l[0]], l[1..]);
    } else {
      assert acc + l == acc;
    }
  }

  lemma ShiftHead<T>(a: seq<T>, b: seq<T>)
    requires |b| > 0
    ensures (a + [b[0]]) + b[1..] == a + b
  {
    assert b == [b[0]] + b[1..];
  }

  /** Saving then loading returns the same list, for a well-formed list of
      storable names. */
  lemma FavoritesRoundTrip(l: FavList)
    requires WellFormed(l)
    requires forall i :: 0 <= i < |l| ==> StorableName(l[i])
    ensures LoadFavorites(SaveFavorites(l)) == l
  {
    assert NoneContains(l, ';');
    SplitNonEmptyJoin(l, ';');
    assert [] + l == l;
    LoadSavedFavorites([], l);
  }

  // ---------------------------------------------------------------------------
  // Mutations
  // ---------------------------------------------------------------------------

  /** `ToggleFavoriteCategory` (the list part): an empty name changes
      nothing; a favourited name is removed; any other name is appended. */
  function ToggleFavoriteCategory(l: FavList, cat: string): (r: FavList)
    ensures |cat| == 0 ==> r == l
    ensures |cat| > 0 && FindFavorite(l, cat) < 0 ==> r == l + [cat]
    ensures |cat| > 0 && FindFavorite(l, cat) >= 0 ==> |r| == |l| - 1
  {
    if |cat| == 0 then l
    else
      var i := FindFavorite(l, cat);
      if i >= 0 then l[..i] + l[i + 1..] else l + [cat]
  }

  /** Toggling flips the category's own favourite state, leaves every other
      category's state alone, and keeps the list well formed. */
  lemma ToggleFavoriteSpec(l: FavList, cat: string)
    requires WellFormed(l) && |cat| > 0
    ensures IsFavorite(ToggleFavoriteCategory(l, cat), cat) <==> !IsFavorite(l, cat)
    ensures forall c :: !EqualsIgnoreCase(c, cat) ==>
      (IsFavorite(ToggleFavoriteCategory(l, cat), c) <==> IsFavorite(l, c))
    ensures WellFormed(ToggleFavoriteCategory(l, cat))
  {
    var i := FindFavorite(l, cat);
    if i >= 0 {
      RemoveAtFind(l, i);
      RemoveAtWellFormed(l, i);
    } else {
      assert l + [cat] == l[..|l|] + [cat] + l[|l|..];
      InsertAtFind(l, |l|, cat);
      InsertAtWellFormed(l, |l|, cat);
    }
  }

  /** Which names a list holds after one element is removed. */
  lemma RemoveAtFind(l: FavList, i: int)
    requires WellFormed(l) && 0 <= i < |l|
    ensures forall c :: FindFavorite(l[..i] + l[i + 1..], c) >= 0 <==>
      FindFavorite(l, c) >= 0 && !EqualsIgnoreCase(c, l[i])
  {
    forall c ensures FindFavorite(l[..i] + l[i + 1..], c) >= 0 <==>
      FindFavorite(l, c) >= 0 && !EqualsIgnoreCase(c, l[i])
    {
      RemoveAtFindOne(l, i, c);
    }
  }

  lemma RemoveAtFindOne(l: FavList, i: int, c: string)
    requires WellFormed(l) && 0 <= i < |l|
    ensures FindFavorite(l[..i] + l[i + 1..], c) >= 0 <==>
      FindFavorite(l, c) >= 0 && !EqualsIgnoreCase(c, l[i])
  {
    var r := l[..i] + l[i + 1..];
    if FindFavorite(r, c) >= 0 {
      var k := FindFavorite(r, c);
      var k' := if k < i then k else k + 1;
      assert r[k] == l[k'];
    }
    if FindFavorite(l, c) >= 0 && !EqualsIgnoreCase(c, l[i]) {
      var k := FindFavorite(l, c);
      assert r[if k < i then k else k - 1] == l[k];
    }
  }

  lemma RemoveAtWellFormed(l: FavList, i: int)
    requires WellFormed(l) && 0 <= i < |l|
    ensures WellFormed(l[..i] + l[i + 1..])
  {
    var r := l[..i] + l[i + 1..];
    assert forall j :: 0 <= j < |r| ==> r[j] == l[if j < i then j else j + 1];
  }

  /** Which names a list holds after one is inserted. */
  lemma InsertAtFind(l: FavList, i: int, x: string)
    requires 0 <= i <= |l|
    ensures forall c :: FindFavorite(l[..i] + [x] + l[i..], c) >= 0 <==>
      FindFavorite(l, c) >= 0 || EqualsIgnoreCase(c, x)
  {
    forall c ensures FindFavorite(l[..i] + [x] + l[i..], c) >= 0 <==> FindFavorite(l, c) >= 0 || EqualsIgnoreCase(c, x) {
      InsertAtFindOne(l, i, x, c);
    }
  }

  lemma InsertAtFindOne(l: FavList, i: int, x: string, c: string)
    requires 0 <= i <= |l|
    ensures FindFavorite(l[..i] + [x] + l[i..], c) >= 0 <==> FindFavorite(l, c) >= 0 || EqualsIgnoreCase(c, x)
  {
    var r := l[..i] + [x] + l[i..];
    if FindFavorite(r, c) >= 0 {
      var k := FindFavorite(r, c);
      if k < i {
        assert r[k] == l[k];
      } else if k > i {
        assert r[k] == l[k - 1];
      }
    }
    if FindFavorite(l, c) >= 0 {
      var k := FindFavorite(l, c);
      if k < i {
        assert r[k] == l[k];
      } else {
        assert r[k + 1] == l[k];
      }
    }
    if EqualsIgnoreCase(c, x) {
      assert r[i] == x;
    }
  }

  lemma InsertAtWellFormed(l: FavList, i: int, x: string)
    requires WellFormed(l) && 0 <= i <= |l|
    requires |x| > 0 && FindFavorite(l, x) < 0
    ensures WellFormed(l[..i] + [x] + l[i..])
  {
    var r := l[..i] + [x] + l[i..];
    assert forall j :: 0 <= j < |r| ==> r[j] == if j < i then l[j] else if j == i then x else l[j - 1];
  }

  /** Removing a favourited name and then toggling it back appends it at the
      end: toggling an absent name twice restores the list. */
  lemma ToggleTwiceAbsent(l: FavList, cat: string)
    requires |cat| > 0 && FindFavorite(l, cat) < 0
    ensures ToggleFavoriteCategory(ToggleFavoriteCategory(l, cat), cat) == l
  {
    var r := l + [cat];
    assert FindFavorite(r, cat) == |l| by {
      assert r[|l|] == cat;
      assert forall j :: 0 <= j < |l| ==> r[j] == l[j];
    }
    assert r[..|l|] == l;
  }

  /** `RemoveAll(s => string.Equals(s, name, …IgnoreCase))`. */
  function RemoveAllIgnoreCase(l: FavList, name: string): (r: FavList)
    ensures forall j :: 0 <= j < |r| ==> !EqualsIgnoreCase(r[j], name)
    ensures |r| <= |l|
  {
    if |l| == 0 then []
    else if EqualsIgnoreCase(l[0], name) then RemoveAllIgnoreCase(l[1..], name)
    else [l[0]] + RemoveAllIgnoreCase(l[1..], name)
  }

  /** On a well-formed list `RemoveAll` drops exactly the one match. */
  lemma {:induction false} RemoveAllOne(l: FavList, name: string)
    requires WellFormed(l) && FindFavorite(l, name) >= 0
    ensures RemoveAllIgnoreCase(l, name) == l[..FindFavorite(l, name)] + l[FindFavorite(l, name) + 1..]
    decreases |l|
  {
    var i := FindFavorite(l, name);
    var t := l[1..];
    if i == 0 {
      forall j | 0 <= j < |t|
        ensures !EqualsIgnoreCase(t[j], name)
      {
        assert !EqualsIgnoreCase(l[0], l[j + 1]);
      }
      RemoveAllNone(t, name);
      assert l[..0] + l[1..] == t;
    } else {
      assert FindFavorite(t, name) == i - 1;
      assert WellFormed(t) by {
        forall a, b | 0 <= a < b < |t|
          ensures !EqualsIgnoreCase(t[a], t[b])
        {
          assert !EqualsIgnoreCase(l[a + 1], l[b + 1]);
        }
      }
      RemoveAllOne(t, name);
      assert RemoveAllIgnoreCase(l, name) == [l[0]] + RemoveAllIgnoreCase(t, name);
      assert l[..i] == [l[0]] + t[..i - 1];
      assert l[i + 1..] == t[i..];
    }
  }

  lemma {:induction false} RemoveAllNone(l: FavList, name: string)
    requires forall j :: 0 <= j < |l| ==> !EqualsIgnoreCase(l[j], name)
    ensures RemoveAllIgnoreCase(l, name) == l
    decreases |l|
  {
    if |l| > 0 {
      RemoveAllNone(l[1..], name);
    }
  }

  /** The favourite sync in `ConfirmEditCategory`. The edited text is
      trimmed; an empty name, or one equal to the old name ignoring case,
      cancels the edit. */
  function SyncFavoriteRename(l: FavList, oldCat: string, text: string): (r: FavList)
    ensures var newCat := Trim(text);
      |newCat| == 0 || EqualsIgnoreCase(oldCat, newCat) || FindFavorite(l, oldCat) < 0 ==> r == l
  {
    var newCat := Trim(text);
    if |newCat| == 0 || EqualsIgnoreCase(oldCat, newCat) then l
    else RenameFavorite(l, oldCat, newCat)
  }

  /** When the old category is a favourite, all its entries are removed and
      the new name takes the old position unless it is already a
      favourite. */
  function RenameFavorite(l: FavList, oldCat: string, newCat: string): (r: FavList)
    ensures FindFavorite(l, oldCat) < 0 ==> r == l
  {
    if FindFavorite(l, oldCat) < 0 then l
    else
      var order := FindFavorite(l, oldCat);
      var rest := RemoveAllIgnoreCase(l, oldCat);
      var pos := if order > |rest| then |rest| else order;
      if FindFavorite(l, newCat) >= 0 then rest
      else rest[..pos] + [newCat] + rest[pos..]
  }

  /** On a well-formed list the rename removes the old entry at index `i`
      and, unless the new name is already a favourite, inserts it there. */
  lemma RenameFavoriteShape(l: FavList, oldCat: string, newCat: string)
    requires WellFormed(l) && FindFavorite(l, oldCat) >= 0
    ensures var i := FindFavorite(l, oldCat);
      var rest := l[..i] + l[i + 1..];
      RenameFavorite(l, oldCat, newCat) ==
        if FindFavorite(l, newCat) >= 0 then rest else rest[..i] + [newCat] + rest[i..]
  {
    RemoveAllOne(l, oldCat);
  }

  /** After renaming a favourited category, the new name is a favourite in
      the old slot (unless it already was one), the old name no longer is,
      and the list stays well formed. */
  lemma RenameFavoriteSpec(l: FavList, oldCat: string, newCat: string)
    requires WellFormed(l) && |oldCat| > 0 && |newCat| > 0
    requires !EqualsIgnoreCase(oldCat, newCat) && FindFavorite(l, oldCat) >= 0
    ensures IsFavorite(RenameFavorite(l, oldCat, newCat), newCat)
    ensures !IsFavorite(RenameFavorite(l, oldCat, newCat), oldCat)
    ensures FindFavorite(l, newCat) < 0 ==>
      && FindFavorite(l, oldCat) < |RenameFavorite(l, oldCat, newCat)|
      && RenameFavorite(l, oldCat, newCat)[FindFavorite(l, oldCat)] == newCat
    ensures WellFormed(RenameFavorite(l, oldCat, newCat))
  {
    var i := FindFavorite(l, oldCat);
    var rest := l[..i] + l[i + 1..];
    RenameFavoriteShape(l, oldCat, newCat);
    RemoveAtFindOne(l, i, newCat);
    RemoveAtFindOne(l, i, oldCat);
    RemoveAtWellFormed(l, i);
    if FindFavorite(l, newCat) < 0 {
      InsertAtFindOne(rest, i, newCat, newCat);
      InsertAtFindOne(rest, i, newCat, oldCat);
      InsertAtWellFormed(rest, i, newCat);
      assert (rest[..i] + [newCat] + rest[i..])[i] == newCat;
    }
  }

  /** The rename leaves every other category's favourite state alone. */
  lemma RenameFavoriteOthers(l: FavList, oldCat: string, newCat: string, c: string)
    requires WellFormed(l) && FindFavorite(l, oldCat) >= 0
    requires !EqualsIgnoreCase(c, oldCat) && !EqualsIgnoreCase(c, newCat)
    ensures IsFavorite(RenameFavorite(l, oldCat, newCat), c) <==> IsFavorite(l, c)
  {
    var i := FindFavorite(l, oldCat);
    var rest := l[..i] + l[i + 1..];
    RenameFavoriteShape(l, oldCat, newCat);
    RemoveAtFindOne(l, i, c);
    if FindFavorite(l, newCat) < 0 {
      InsertAtFindOne(rest, i, newCat, c);
    }
  }
}
