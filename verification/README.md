# Chair teleport: a Dafny model of the bench menu core

This project models the core of `ChairTeleportPlugin`, a game plugin. The
plugin remembers every rest bench ("chair") the player has sat on. It groups
the benches by map zone in a two-level menu: categories, then benches. It
teleports the player to a chosen bench, or back to a respawn point the
player recorded.

The model is purely functional. Immutable datatypes hold the plugin's state,
and every operation is a function from old state to new state. Each module
follows one part of the plugin:

| module | models |
|---|---|
| `Wrappers` | `Option` |
| `Text` | the string primitives the plugin relies on: `int.TryParse`, `string.Split` and `string.Join`, `Trim`, `IndexOf`/`LastIndexOf`, ordinal and case-insensitive comparison |
| `Sorting` | a stable insertion sort by a comparator, standing in for `List.Sort` |
| `Benches` | `BenchRef`: its display-name helpers, its comparator and the default-name test |
| `Zones` | the host's scene-to-zone and language tables, plus the user's zone rename map and its `k=v;k=v` codec |
| `Favorites` | the favourite-category list: `a;b;c` codec, toggle, and rename sync |
| `Categories` | category name resolution and `GetCategoryKey` |
| `Groups` | `RebuildGroups`: collect benches by category, then sort categories and items |
| `Naming` | `#n` numbering (`TryRefreshLocalizedNamesOnce`) and the old-format name conversion |
| `Selection` | the menu cursor: wrap-around navigation, clamp after a rebuild, follow a bench after a mutation |
| `Registry` | the bench list: add, merge near duplicates, remove, star, clean unknown scenes, prune |
| `Persistence` | the `scene\|marker\|name\|parent\|renamed\|order\|fav\|favOrder;…` record codec |
| `InputKeys` | the F2, Space/Y and right-arrow tap disambiguators |
| `Teleport` | teleport planning, arrival lookup, entry gate choice and landing safety |
| `Respawn` | the F2 respawn override and its death/scene-change hooks |

## What the model takes as parameters

- **Host lookups.** The game's scene-to-zone map, the language table, the
  "gameplay ready" flag and the UI language are a `Zones.Host` value.
- **World lookups.** Whether a marker is active or resolvable, and whether
  two markers are near each other, are a `Registry.World` value.
- **Positions.** Positions are integer `Teleport.Vec` values. Marker lists
  are plain sequences.
- **Collision.** The collision test is a function in a `Teleport.Body`.
- **Time.** Time is integer milliseconds passed in as `now`.
- **Coroutines.** A coroutine that waits (a double-tap window, a scene load)
  is split into a frame function and a resume function. The event logs of
  `InputKeys` and `Respawn` interleave them.

## Where the documented behaviour and the code differ

The model follows the code in each of these cases:

- **Scene-load timeout.** Waiting for a scene load does not abort when the
  timeout passes. The arrival lookup runs in whatever scene is active
  (`ChairTeleportPlugin.cs:5096-5108`).
- **No busy flag.** A second teleport can start while one is running.
- **Entry gate choice.** The entry gate skips inactive transitions and
  ignores its scene argument: it searches the current scene.
- **Second safety pass.** `PostTeleportSafetyAdjust` has no upward nudge.
- **Findings.** Four places where the code evidently does not do what was
  intended are listed under Findings. In each, the operation can run as
  written: `Registry.AddBench` and `Respawn.Step` take an `asWritten` flag,
  `Persistence.LoadBenches` takes the record reader, and `Naming` has
  `RefreshNames` beside `RefreshNamesIntended`. The corrected half carries
  the intended property.

## Model

| member | source | states |
|---|---|---|
| `Text.CompareOrdinal` | ChairTeleportPlugin.cs:6267-6281 | ordinal comparison is three-valued and zero exactly on equal strings |
| `Text.CompareOrdinalAntisymmetric` | ChairTeleportPlugin.cs:6267-6281 | swapping the arguments negates the ordinal comparison |
| `Text.CompareOrdinalTransitive` | ChairTeleportPlugin.cs:6267-6281 | ordinal `<=` is transitive |
| `Text.CompareIgnoreCase` | ChairTeleportPlugin.cs:6232-6244 | case-insensitive comparison is zero exactly when the strings are equal ignoring case |
| `Text.CompareIgnoreCaseTransitive` | ChairTeleportPlugin.cs:6232-6244 | case-insensitive `<=` is transitive, and strict if either step is strict |
| `Text.CompareInt` | ChairTeleportPlugin.cs:6232-6244 | integer comparison is negative, zero or positive exactly as `x < y`, `x == y` or `x > y` |
| `Text.IndexOf` | ChairTeleportPlugin.cs:1536 | the result is the first occurrence of the character, or -1 exactly when it is absent |
| `Text.LastIndexOf` | ChairTeleportPlugin.cs:6216-6231 | the result is the last occurrence of the character, or -1 exactly when it is absent |
| `Text.Trim` | ChairTeleportPlugin.cs:1539-1540 | the result is the input with only white space removed at its two ends, and has no white space at either end |
| `Text.RemoveChar` | ChairTeleportPlugin.cs:1558-1559 | the removed character is absent afterwards, nothing else is added, and a string without it is unchanged |
| `Text.NatToString` | ChairTeleportPlugin.cs:6198-6215 | the decimal text of a natural number is non-empty, all digits, and denotes that number |
| `Text.ParseDigits` | ChairTeleportPlugin.cs:1270-1276 | `int.TryParse` of a digit string gives its value exactly when that value fits 32 bits |
| `Text.IntToString` | ChairTeleportPlugin.cs:4287-4316 | `int.ToString()` of the saved numbers; it has no contract of its own, and `Text.ParseIntToString` states that parsing it gives the number back |
| `Text.ParseIntToString` | ChairTeleportPlugin.cs:4287-4316 | parsing the printed form of any 32-bit integer gives it back |
| `Text.ParseInt32` | ChairTeleportPlugin.cs:4150-4153 | `int.TryParse`: a parsed value always fits 32 bits; `Text.ParseDigits` and `Text.ParseIntToString` state which texts parse and to what |
| `Text.Join` | ChairTeleportPlugin.cs:4345 | `string.Join` of parts with one separator; `Text.SplitJoin` states that splitting gives the parts back |
| `Text.Split` | ChairTeleportPlugin.cs:4081-4172 | splitting yields at least one part and no part contains the separator |
| `Text.SplitJoin` | ChairTeleportPlugin.cs:4287-4316 | joining separator-free parts and splitting again gives the parts back |
| `Text.SplitNonEmptyJoin` | ChairTeleportPlugin.cs:4317-4350 | with `RemoveEmptyEntries`, joining non-empty separator-free parts and splitting again gives them back |
| `Sorting.SortBySorted` | ChairTeleportPlugin.cs:4169-4171 | sorting by a total preorder yields a sorted sequence |
| `Sorting.SortBy` | ChairTeleportPlugin.cs:4169-4171 | sorting keeps the length and is a permutation of its input |
| `Sorting.SortBySortedIsIdentity` | ChairTeleportPlugin.cs:4169-4171 | sorting an already sorted sequence changes nothing |
| `Sorting.SortByDistinct` | ChairTeleportPlugin.cs:4169-4171 | sorting keeps keys distinct |
| `Sorting.RemoveAtSorted` | ChairTeleportPlugin.cs:4435-4437 | removing one element from a sorted list leaves it sorted |
| `Benches.TrailingNumber` | ChairTeleportPlugin.cs:6141-6197 | a trailing `#n` number is positive, fits 32 bits, and only exists if the name has a `#` |
| `Benches.TrailingNumberOfNumberName` | ChairTeleportPlugin.cs:6198-6215 | the generated name `#n` reads back as number `n` |
| `Benches.LooksLikeDefaultName` | ChairTeleportPlugin.cs:6141-6197 | `LooksLikeDefaultNameForScene`; a predicate without a contract, and `Benches.GeneratedNamesLookDefault` and `Benches.NoHashNotDefault` state which names it accepts |
| `Benches.GeneratedNamesLookDefault` | ChairTeleportPlugin.cs:6141-6197 | every name the plugin generates (`#n`, or `<prefix> #k` for a known prefix) is recognised as a default name |
| `Benches.NoHashNotDefault` | ChairTeleportPlugin.cs:6141-6197 | a name without `#` is never taken for a default name |
| `Benches.SplitNameForSort` | ChairTeleportPlugin.cs:6216-6231 | a name without a number keeps itself as prefix; a numbered name has a `#` and a shorter prefix |
| `Benches.SplitNumberName` | ChairTeleportPlugin.cs:6216-6231 | `#n` splits into an empty prefix and the number `n` |
| `Benches.NumberNamesOrder` | ChairTeleportPlugin.cs:6232-6244 | `#m` sorts before `#n` exactly when `m < n` (numerically, so `#2` precedes `#10`) and ties exactly when `m == n` |
| `Benches.DisplayAntisymmetric` | ChairTeleportPlugin.cs:6232-6244 | the display-name comparison is antisymmetric |
| `Benches.DisplayTransitive` | ChairTeleportPlugin.cs:6232-6244 | the display-name comparison is transitive, strictly when either step is strict |
| `Benches.BenchCompare` | ChairTeleportPlugin.cs:6267-6281 | the bench comparator ties only benches with the same scene and marker |
| `Benches.BenchTransitive` | ChairTeleportPlugin.cs:6267-6281 | the bench comparator is transitive |
| `Benches.BenchCompareTotalPreorder` | ChairTeleportPlugin.cs:6267-6281 | the bench comparator (display name, then scene, then marker) is a total preorder |
| `Benches.CompareDisplayNames` | ChairTeleportPlugin.cs:6232-6244 | the display-name comparison is three-valued; `Benches.NumberNamesOrder`, `Benches.DisplayAntisymmetric` and `Benches.DisplayTransitive` state its order |
| `Benches.SortBenches` | ChairTeleportPlugin.cs:4169-4171 | `_benches.Sort(BenchRef.Comparer)`; `Benches.SortBenchesSpec` states that the result is sorted and a permutation |
| `Benches.SortBenchesSpec` | ChairTeleportPlugin.cs:4169-4171 | the sorted bench list is sorted, a permutation of the input, and keeps keys unique |
| `Zones.FindKey` | ChairTeleportPlugin.cs:1444-1453 | the case-insensitive dictionary lookup (zone renames and category groups) finds the first key equal ignoring case, or -1 exactly when there is none |
| `Zones.Lookup` | ChairTeleportPlugin.cs:1349-1396 | a rename is found exactly when a key matches ignoring case, and it is that entry's value |
| `Zones.PutFound` | ChairTeleportPlugin.cs:1541 | after storing `k=v`, looking up `k` gives `v` |
| `Zones.PutOthers` | ChairTeleportPlugin.cs:1541 | storing `k=v` does not change the lookup of any other key |
| `Zones.PutDistinct` | ChairTeleportPlugin.cs:1541 | storing keeps the keys distinct ignoring case |
| `Zones.ParseZoneEntry` | ChairTeleportPlugin.cs:1534-1542 | an accepted `k=v` token has a non-empty trimmed key with no `=` and a non-empty trimmed value |
| `Zones.LoadZoneMap` | ChairTeleportPlugin.cs:1528-1547 | a loaded rename map has distinct keys and only valid entries |
| `Zones.StripSeparators` | ChairTeleportPlugin.cs:1558-1559 | saved keys and values contain no `;` or `=`, and clean text is kept as is |
| `Zones.ParseSavedEntry` | ChairTeleportPlugin.cs:1534-1560 | parsing a saved entry gives back the entry |
| `Zones.Put` | ChairTeleportPlugin.cs:1541 | storing a key grows the map by one exactly when no key equals it ignoring case; `Zones.PutFound` and `Zones.PutOthers` state the lookups afterwards |
| `Zones.SaveZoneMap` | ChairTeleportPlugin.cs:1548-1566 | entries are joined with `;`, so a `;` appears only for two or more entries; `Zones.ZoneMapRoundTrip` states that loading the text gives the map back |
| `Zones.ZoneMapRoundTrip` | ChairTeleportPlugin.cs:1528-1568 | saving a rename map and loading it again gives back the same map |
| `Favorites.FindFavorite` | ChairTeleportPlugin.cs:4351-4356 | a category is found as the first entry equal ignoring case, or -1 exactly when it is not a favourite |
| `Favorites.FavoriteRank` | ChairTeleportPlugin.cs:1457-1470 | a favourite ranks by its position in the list, and any other category ranks last |
| `Favorites.LoadFavorites` | ChairTeleportPlugin.cs:4317-4340 | a loaded favourite list has no duplicates ignoring case and only storable names |
| `Favorites.FavoritesRoundTrip` | ChairTeleportPlugin.cs:4317-4350 | saving a favourite list and loading it again gives back the same list |
| `Favorites.ToggleFavoriteCategory` | ChairTeleportPlugin.cs:4357-4391 | an empty name changes nothing, a new favourite is appended, and an existing one is removed |
| `Favorites.ToggleFavoriteSpec` | ChairTeleportPlugin.cs:4357-4391 | toggling flips the category's favourite status, leaves every other category's status alone, and keeps the list duplicate-free |
| `Favorites.ToggleTwiceAbsent` | ChairTeleportPlugin.cs:4357-4391 | starring and then unstarring a category restores the list |
| `Favorites.RemoveAllOne` | ChairTeleportPlugin.cs:3090-3107 | removing a name from a duplicate-free list removes exactly its one entry |
| `Favorites.SyncFavoriteRename` | ChairTeleportPlugin.cs:3090-3107 | a rename to an empty or equal name, or of a category that is not a favourite, leaves the list unchanged |
| `Favorites.SaveFavorites` | ChairTeleportPlugin.cs:4341-4350 | `string.Join(";", …)` of the list; `Favorites.FavoritesRoundTrip` states that loading it gives the list back |
| `Favorites.RenameFavorite` | ChairTeleportPlugin.cs:3090-3107 | renaming a category that is not starred leaves the list unchanged; `Favorites.RenameFavoriteShape` and `Favorites.RenameFavoriteSpec` state the starred case |
| `Favorites.RenameFavoriteShape` | ChairTeleportPlugin.cs:3090-3107 | renaming removes the old name and inserts the new one at the old position unless it is already a favourite |
| `Favorites.RenameFavoriteSpec` | ChairTeleportPlugin.cs:3090-3107 | after renaming a favourite, the new name is a favourite, the old one is not, the new name takes the old position when it was not yet starred, and the list stays duplicate-free |
| `Favorites.RenameFavoriteOthers` | ChairTeleportPlugin.cs:3090-3107 | renaming does not change the favourite status of any third category |
| `Categories.ResolveChain` | ChairTeleportPlugin.cs:1349-1396 | a resolved category name is non-empty and is a rename value, the localized zone name, the zone key or "Unknown" |
| `Categories.ResolveCategoryName` | ChairTeleportPlugin.cs:1349-1396 | `ResolveCategoryNameForScene` never returns an empty name; the `Resolve…` lemmas state its precedence |
| `Categories.ResolveZoneRenameWins` | ChairTeleportPlugin.cs:1349-1396 | a user rename of the scene's zone key takes priority over every other name |
| `Categories.ResolveWithoutRenames` | ChairTeleportPlugin.cs:1349-1396 | without renames, the category is the localized zone name, else the zone key, else "Unknown" |
| `Categories.ResolveLocalizedRename` | ChairTeleportPlugin.cs:1370-1376 | a rename stored under the localized zone name wins whenever the zone key has none, ahead of the alias and both plain names |
| `Categories.ResolveNoRenameApplies` | ChairTeleportPlugin.cs:1370-1393 | when no rename matches the key, the localized name or the alias, the category is the localized name, else the zone key, else the unknown text |
| `Categories.ResolveUnderscoreAlias` | ChairTeleportPlugin.cs:1349-1396 | a rename stored under the zone key with `_` removed is used when neither the zone key nor the localized name has a rename, and it beats the localized name itself |
| `Categories.CategoryKey` | ChairTeleportPlugin.cs:1397-1440 | the category key is never empty; a bench's own unrenamed parent is its key in English; a bench without parent uses the resolved scene category |
| `Categories.CategoryKeyLocalizesZoneKey` | ChairTeleportPlugin.cs:1397-1440 | in Chinese, a parent that is the raw zone key is shown as the localized zone name |
| `Categories.CategoryKeyIgnoresName` | ChairTeleportPlugin.cs:1397-1440 | renaming a bench never moves it to another category |
| `Categories.ProvisionalNameLooksDefault` | ChairTeleportPlugin.cs:6141-6197 | the provisional name `<zone> #k` of a new bench is recognised as a default name |
| `Groups.CollectGroupsSpec` | ChairTeleportPlugin.cs:1445-1456 | collecting puts every bench index in exactly one group, the group whose name matches its category, with distinct group names |
| `Groups.CollectGroupsFirstSpelling` | ChairTeleportPlugin.cs:1445-1456 | a group is named with the spelling of the first bench that opened it |
| `Groups.CategoryCompare` | ChairTeleportPlugin.cs:1457-1470 | a favourite category sorts before a non-favourite, and only categories equal ignoring case tie |
| `Groups.CategoryTransitive` | ChairTeleportPlugin.cs:1457-1470 | the category order is transitive |
| `Groups.GroupOrderTotal` | ChairTeleportPlugin.cs:1457-1470 | the category order is a total preorder |
| `Groups.ItemBenchCompare` | ChairTeleportPlugin.cs:1475-1493 | a starred bench sorts before an unstarred one, and only benches with the same key tie |
| `Groups.ItemBenchTransitive` | ChairTeleportPlugin.cs:1475-1493 | the item order is transitive |
| `Groups.ItemOrderTotal` | ChairTeleportPlugin.cs:1475-1493 | the item order over bench indices is a total preorder |
| `Groups.SortItems` | ChairTeleportPlugin.cs:1475-1493 | sorting items keeps each group's name and sorts its members |
| `Groups.BuildGroups` | ChairTeleportPlugin.cs:1441-1504 | `RebuildGroups`; it has no contract of its own, and `Groups.BuildGroupsSpec` states the partition and both orders |
| `Groups.BuildGroupsSpec` | ChairTeleportPlugin.cs:1441-1504 | the rebuilt menu is a partition of the bench indices by category, with distinct names, categories sorted favourites-first and each category's benches sorted starred-first |
| `Groups.FavoriteCategoriesFirst` | ChairTeleportPlugin.cs:1457-1470 | in the sorted menu no ordinary category precedes a favourite one |
| `Groups.FavoriteItemsFirst` | ChairTeleportPlugin.cs:1475-1493 | inside a category no unstarred bench precedes a starred one |
| `Selection.Clamp` | ChairTeleportPlugin.cs:1495-1502 | a clamped value lies in the range and an in-range value is unchanged |
| `Selection.Wrap` | ChairTeleportPlugin.cs:2884-2908 | the C#-style `((i + d) % n + n) % n` always lands in `[0, n)` |
| `Selection.WrapDown` | ChairTeleportPlugin.cs:2884-2908 | moving down goes to the next row and from the last row back to the first |
| `Selection.WrapUp` | ChairTeleportPlugin.cs:2884-2908 | moving up goes to the previous row and from the first row to the last |
| `Selection.WrapDownUp` | ChairTeleportPlugin.cs:2884-2908 | moving down then up returns to the same row |
| `Selection.Navigate` | ChairTeleportPlugin.cs:2881-2912 | navigation keeps the view and does not move without a step or without categories; in the category view it stays on a category; in a category it stays inside it and selects the bench on the new row |
| `Selection.RebuildCursor` | ChairTeleportPlugin.cs:1495-1502 | after a rebuild the category index is valid and an already valid one is kept |
| `Selection.RebuildCursorIdempotent` | ChairTeleportPlugin.cs:1495-1502 | clamping the cursor twice is the same as once |
| `Selection.RebuildCursorOnRow` | ChairTeleportPlugin.cs:1495-1502 | inside a non-empty category the clamped cursor is on a row and selects that row's bench |
| `Selection.RefreshAfterMutation` | ChairTeleportPlugin.cs:1867-1927 | an empty list resets the cursor, and otherwise some bench is selected |
| `Selection.RefreshFollowsSelection` | ChairTeleportPlugin.cs:1867-1927 | after a mutation the cursor stays on the (clamped) selected bench, in the group of that bench's category, on the row that holds it |
| `Selection.FindBenchByKey` | ChairTeleportPlugin.cs:3364-3400 | the bench is found as the first one whose `scene\|marker` key matches, or -1 when none does |
| `Selection.RestoreSelection` | ChairTeleportPlugin.cs:3364-3400 | an empty or unknown key leaves the cursor unchanged, and the view is never changed |
| `Selection.RestoreSelectsBench` | ChairTeleportPlugin.cs:3364-3400 | restoring a known key selects that bench, its category and the row that holds it |
| `Selection.CursorAfterRemoval` | ChairTeleportPlugin.cs:4443-4473 | after removing a bench whose category survives, the cursor stays in that category on the previous row when it still exists, and selects that row's bench |
| `Naming.LeastUnused` | ChairTeleportPlugin.cs:1288-1290 | the chosen number is the least positive number not in use |
| `Naming.ProvisionalNumber` | ChairTeleportPlugin.cs:4042-4065 | a provisional name `<zone> #k` carries the number `k` |
| `Naming.StripOldPrefix` | ChairTeleportPlugin.cs:4179-4221 | stripping either keeps the name or leaves a bare `#digits` |
| `Naming.StripKeepsNumber` | ChairTeleportPlugin.cs:4179-4221 | converting an old-format name never changes its number |
| `Naming.StripNoSpace` | ChairTeleportPlugin.cs:4179-4221 | a name without a space is left as it is |
| `Naming.ConvertName` | ChairTeleportPlugin.cs:4179-4221 | a blank name is kept; `Naming.StripKeepsNumber`, `Naming.StripNoSpace` and `Naming.ConvertNameIdempotent` state the conversion |
| `Naming.ConvertNameIdempotent` | ChairTeleportPlugin.cs:4179-4221 | converting an already converted name changes nothing |
| `Naming.ConvertOldFormat` | ChairTeleportPlugin.cs:4179-4221 | conversion touches only display names, bench by bench, and reports a change exactly when the list changed |
| `Naming.UnrenamedByAddedMembers` | ChairTeleportPlugin.cs:1260 | the renumbering visits exactly the benches the user has not renamed |
| `Naming.UnrenamedByAddedOrdered` | ChairTeleportPlugin.cs:1260 | the renumbering visits them in order of addition |
| `Naming.RefreshNames` | ChairTeleportPlugin.cs:1255-1307 | `TryRefreshLocalizedNamesOnce` as written keeps the number of benches; `Naming.RefreshNumbersSpec`, `Naming.RefreshNamesFrame` and `Naming.RefreshMovesLoneNumber` state what it does |
| `Naming.RefreshNamesIntended` | ChairTeleportPlugin.cs:1255-1307 | the corrected refresh keeps the number of benches; `Naming.RefreshIntendedStable` states that it is idempotent |
| `Naming.RefreshNamesSuccess` | ChairTeleportPlugin.cs:1283-1298 | the refresh reports success exactly when some bench is not user-renamed |
| `Naming.AssignSpec` | ChairTeleportPlugin.cs:1283-1298 | the assignment loop numbers every visited bench with a positive number unused in its category and never reuses a number within a category |
| `Naming.RefreshNumbersSpec` | ChairTeleportPlugin.cs:1255-1307 | exactly the unrenamed benches get numbers, each positive and unused by the names already present in its category, and pairwise distinct within a category |
| `Naming.RefreshNamesFrame` | ChairTeleportPlugin.cs:1283-1298 | a user-renamed bench is untouched and every other bench only gets a `#n` name |
| `Naming.RefreshMovesLoneNumber` | ChairTeleportPlugin.cs:1262-1298 | as written, a lone unrenamed `#1` becomes `#2`, and a second refresh turns it back into `#1` |
| `Naming.RefreshIntendedStable` | ChairTeleportPlugin.cs:1255-1307 | with the intended used-number set, refreshing an already refreshed list changes nothing |
| `Naming.RefreshIntendedKeepsLoneNumber` | ChairTeleportPlugin.cs:1255-1307 | with the intended used-number set, a lone `#1` keeps its name |
| `Registry.IndexOfKey` | ChairTeleportPlugin.cs:3942-3944 | the index of a `(scene, marker)` record, or -1 exactly when none is recorded |
| `Registry.FirstNear` | ChairTeleportPlugin.cs:3949-3993 | the first recorded bench near the new marker, or -1 when none is near |
| `Registry.NewBench` | ChairTeleportPlugin.cs:4000-4035 | a new record has the new key, is neither renamed nor starred, and takes the next addition order, which wraps from `int.MaxValue` to `int.MinValue` |
| `Registry.AutoZoneRename` | ChairTeleportPlugin.cs:4008-4027 | outside the Chinese UI, or for a scene without a zone, the rename map is unchanged |
| `Registry.AddBench` | ChairTeleportPlugin.cs:3932-4079 | an ignored bench leaves the state unchanged; `Registry.AddMergeSpec` and `Registry.AddAppendSpec` state the other two branches |
| `Registry.AddIgnoresInvalid` | ChairTeleportPlugin.cs:3934-3944 | an empty scene or marker, a custom bench, or an already recorded key leaves the registry unchanged |
| `Registry.DropNearAfterSpec` | ChairTeleportPlugin.cs:3949-3993 | the merge keeps the first near bench and every bench not near the new marker, and drops only near ones after it |
| `Registry.AddMergeSpec` | ChairTeleportPlugin.cs:3949-3993 | a new bench near a recorded one is not added: only later near duplicates are dropped and nothing else changes |
| `Registry.AddAppendSpec` | ChairTeleportPlugin.cs:4000-4079 | a new bench joins the sorted list as `#n`, the least number unused in its category among the counted records: as written the list with the new record under its provisional `<zone> #k` name, as intended the records already there; it takes the next addition order, the zone's localized rename is recorded, and the new bench is selected and marked for re-selection |
| `Registry.AddWrapsCounter` | ChairTeleportPlugin.cs:4034 | an add at addition counter `int.MaxValue` gives the new bench order `int.MinValue` and leaves the counter there |
| `Registry.AddKeepsKeysUnique` | ChairTeleportPlugin.cs:3932-4079 | adding never creates two records with the same scene and marker |
| `Registry.AddAllKeepsKeysUnique` | ChairTeleportPlugin.cs:3932-4079 | any sequence of additions keeps the keys unique |
| `Registry.AsWrittenSkipsProvisional` | ChairTeleportPlugin.cs:4042-4065 | as written, the new bench's own provisional number `k` is counted as used, so it never gets `k` |
| `Registry.FirstBenchAsWritten` | ChairTeleportPlugin.cs:4034-4065 | as written, adding the first bench to an empty registry gives the one record `#2` |
| `Registry.FirstBenchIntended` | ChairTeleportPlugin.cs:4034-4065 | with the intended numbering, adding the first bench to an empty registry gives the one record `#1` |
| `Registry.RemoveBenchAtIndex` | ChairTeleportPlugin.cs:4413-4417 | an out-of-range index changes nothing |
| `Registry.RemoveFavoriteShakes` | ChairTeleportPlugin.cs:4418-4423 | a starred bench is not removed: only its row shakes for 280 ms |
| `Registry.RemoveSpec` | ChairTeleportPlugin.cs:4413-4477 | removing an unstarred bench takes out exactly that record, keeps the list sorted and the keys unique, and leaves no record with its key |
| `Registry.ToggleFavoriteBench` | ChairTeleportPlugin.cs:4392-4412 | an out-of-range index leaves the state unchanged; `Registry.ToggleFavoriteBenchSpec` states the toggle |
| `Registry.ToggleFavoriteBenchSpec` | ChairTeleportPlugin.cs:4392-4412 | starring flips only that bench's star; a new star takes the next favourite order, `++` on the `int` counter with its wrap; the cursor follows the bench into its group |
| `Registry.ToggleTwiceRestoresStar` | ChairTeleportPlugin.cs:4392-4412 | starring twice restores the bench's star and leaves every other bench unchanged |
| `Registry.KnownOnlyAll` | ChairTeleportPlugin.cs:4245-4273 | filtering keeps the whole list exactly when every bench's scene is known |
| `Registry.CleanInvalidSceneBenches` | ChairTeleportPlugin.cs:4245-4273 | the removed count is never negative; `Registry.CleanWaitsForSceneMap` and `Registry.CleanSpec` state what is kept |
| `Registry.CleanWaitsForSceneMap` | ChairTeleportPlugin.cs:4255 | with a scene map of at most 20 scenes, cleaning does nothing |
| `Registry.CleanSpec` | ChairTeleportPlugin.cs:4245-4273 | cleaning keeps exactly the benches of known scenes, counts the removed ones, and changes nothing else |
| `Registry.PruneScan` | ChairTeleportPlugin.cs:4481-4529 | the scan of `PruneNearbyDuplicatesInActiveScene`; `Registry.PruneScanSpec` states what survives |
| `Registry.PruneScanSpec` | ChairTeleportPlugin.cs:4481-4529 | the scan keeps unpositioned benches, leaves no two surviving near each other, and drops a bench only near a survivor |
| `Registry.PruneScanSpread` | ChairTeleportPlugin.cs:4481-4529 | pruning a list with no near pair keeps it as is |
| `Registry.PruneNearbyDuplicates` | ChairTeleportPlugin.cs:4483 | a list of at most one bench is never pruned |
| `Registry.PruneSpec` | ChairTeleportPlugin.cs:4481-4529 | after pruning no two positioned benches are near each other, unpositioned benches stay, and each dropped bench was near a survivor |
| `Text.Inc32` | ChairTeleportPlugin.cs:4151-4153 | `++` on an `int` counter adds one, and wraps from `int.MaxValue` to `int.MinValue` |
| `Persistence.FlagText` | ChairTeleportPlugin.cs:4287-4316 | a saved flag reads back as the flag it encodes |
| `Persistence.NumberFlag` | ChairTeleportPlugin.cs:4141-4162 | a number field reads as a true flag exactly when it is 1 |
| `Persistence.ParentSlotAsWritten` | ChairTeleportPlugin.cs:4114-4138 | as written, field 3 is a parent exactly when present and not flag-like; otherwise the flags are read from field 3 |
| `Persistence.ParentSlot` | ChairTeleportPlugin.cs:4114-4138 | intended reader: a full 8-field record always has its parent in field 3; shorter records are read as before |
| `Persistence.ReadRecord` | ChairTeleportPlugin.cs:4094-4165 | a record of an unknown scene is skipped and marks a migration; an admitted one appends a bench with its scene, marker and name |
| `Persistence.LoadBenches` | ChairTeleportPlugin.cs:4081-4172 | the loaded list is sorted, holds only admitted records, and an empty store is seeded and saved |
| `Persistence.Fields` | ChairTeleportPlugin.cs:4287-4316 | a bench is saved as its eight fields in order |
| `Persistence.SaveBenches` | ChairTeleportPlugin.cs:4287-4316 | the saved text is empty exactly when there is no bench |
| `Persistence.RecordSplits` | ChairTeleportPlugin.cs:4287-4316 | splitting a saved record at `\|` gives back its eight fields |
| `Persistence.StoredFieldsRead` | ChairTeleportPlugin.cs:4141-4162 | the renamed flag, addition order, star and favourite order read back from their fields |
| `Persistence.LoadRecords` | ChairTeleportPlugin.cs:4094-4165 | the record loop keeps the order counter a 32-bit value; `Persistence.LoadStored` states what it appends |
| `Persistence.LoadStored` | ChairTeleportPlugin.cs:4081-4172 | loading saved records appends them in order and raises the counters to their maxima |
| `Persistence.LoadSaved` | ChairTeleportPlugin.cs:4081-4172 | loading what was saved gives back the list sorted, with the counters raised to its maxima |
| `Persistence.SaveLoadRoundTrip` | ChairTeleportPlugin.cs:4081-4172 | intended reader: saving any storable bench list and loading it gives the same benches back, in sort order |
| `Persistence.AsWrittenRoundTrip` | ChairTeleportPlugin.cs:4081-4172 | as written, the round trip holds as long as no parent looks like a flag |
| `Persistence.AsWrittenShiftsFlagParent` | ChairTeleportPlugin.cs:4114-4138 | as written, a bench whose parent looks like a flag loads with its parent dropped and every later field read one place early |
| `Persistence.AsWrittenLosesFavorite` | ChairTeleportPlugin.cs:4114-4162 | as written, a starred bench in category "1", added fifth, loads unstarred; the intended reader gives it back intact |
| `Persistence.EmptyStoreSeedsDefault` | ChairTeleportPlugin.cs:4086-4091 | an empty store loads the default tutorial bench, marks a migration and sets the addition counter to 1 |
| `InputKeys.BracketedAnswersOnce` | ChairTeleportPlugin.cs:524-560 | in a well-bracketed tap log, single and double taps never outnumber the armings |
| `InputKeys.F2Frame` | ChairTeleportPlugin.cs:524-560 | an F2 frame answers with a double press only within 350 ms of an open arming, arms on any other accepted press, and changes nothing else on a quiet frame |
| `InputKeys.F2Resume` | ChairTeleportPlugin.cs:3462-3477 | the delayed single F2 fires only for an open arming at least 350 ms old, and closes it |
| `InputKeys.F2Run` | ChairTeleportPlugin.cs:524-560 | a run of F2 frames answers once per event; `InputKeys.F2RunBracketed` states the answers' bracketing |
| `InputKeys.F2RunBracketed` | ChairTeleportPlugin.cs:524-560 | over any sequence of frames and wake-ups, each F2 single or double press answers exactly one open arming, doubles within 350 ms and singles after 350 ms |
| `InputKeys.F2SecondPressIsDouble` | ChairTeleportPlugin.cs:537-550 | a press within 350 ms of an open arming is a double press and closes the arming |
| `InputKeys.F2DebounceIgnores` | ChairTeleportPlugin.cs:530-537 | a press within 200 ms of the last one, outside the double window, is ignored |
| `InputKeys.F2HeldPadPressesOnce` | ChairTeleportPlugin.cs:526-535 | holding the gamepad combination counts as one press, not one per frame |
| `InputKeys.F2SingleRunsOnce` | ChairTeleportPlugin.cs:3462-3477 | the single F2 action runs once, and not before the 350 ms window ends |
| `InputKeys.EditKeyFrame` | ChairTeleportPlugin.cs:671-757 | holding Space/Y 2 s deletes the selected bench once; a short release within 200 ms of an armed one edits the category; another short release arms a name edit; every release resets the hold to the not-timed marker of minus one second |
| `InputKeys.EditResume` | ChairTeleportPlugin.cs:3417-3461 | after 200 ms an armed edit opens the name editor on the same bench, or is dropped if the selection moved |
| `InputKeys.EditRun` | ChairTeleportPlugin.cs:671-757 | a run of Space/Y events answers once per event; `InputKeys.EditRunBracketed` states the answers' bracketing |
| `InputKeys.EditRunBracketed` | ChairTeleportPlugin.cs:671-757 | over any event sequence, each name or category edit answers exactly one open arming within its time bounds |
| `InputKeys.OneDeletePerPress` | ChairTeleportPlugin.cs:671-685 | without a new key-down, holding Space/Y deletes at most one bench |
| `InputKeys.ReleaseAfterDeleteIsQuiet` | ChairTeleportPlugin.cs:686-713 | releasing the key after a hold-delete does nothing but reset the hold |
| `InputKeys.UntimedReleaseIsQuiet` | ChairTeleportPlugin.cs:686-713 | the not-timed marker is `-1f` seconds (lines 100 and 105), so once the game clock passes one second a release seen without a timed press only resets the hold |
| `InputKeys.ShortPressEditsName` | ChairTeleportPlugin.cs:671-713 | one short press, then 200 ms of quiet, opens the name editor on the selected bench |
| `InputKeys.RightFrame` | ChairTeleportPlugin.cs:2837-2920 | a second right press before the deadline, on the same row, toggles that favourite; a first press arms with a 200 ms deadline; a lone press in the category view enters the category after the deadline; moving cancels it |
| `InputKeys.RightRun` | ChairTeleportPlugin.cs:2837-2920 | a run of right-arrow inputs answers once per input; `InputKeys.RightRunBracketed` states the answers' bracketing |
| `InputKeys.RightRunBracketed` | ChairTeleportPlugin.cs:2837-2920 | over any input sequence, each favourite toggle or category entry answers exactly one open arming within its time bounds |
| `InputKeys.ChildViewNeverEnters` | ChairTeleportPlugin.cs:2837-2920 | inside a category, the right arrow never enters anything |
| `InputKeys.RightDoubleTogglesCategory` | ChairTeleportPlugin.cs:2837-2920 | two right presses within 200 ms on one category toggle its favourite |
| `Teleport.FirstNamed` | ChairTeleportPlugin.cs:4963-4969 | the first marker with the name, or -1 exactly when none has it |
| `Teleport.PositionInScene` | ChairTeleportPlugin.cs:4955-4985 | a bench's position is its first marker's position, or the zero vector when the marker is absent |
| `Teleport.BenchPosition` | ChairTeleportPlugin.cs:4930-4950 | a bench in another scene reports the sentinel (1,1); a bench in the current scene reports its marker position |
| `Teleport.PlanBenchTeleport` | ChairTeleportPlugin.cs:3587-3626 | a teleport is direct exactly when gameplay is ready, the bench is in the current scene and its marker is at a non-zero position; it changes scene exactly when the bench is elsewhere |
| `Teleport.ConfirmTarget` | ChairTeleportPlugin.cs:3523-3535 | confirming teleports to the selected bench exactly when the selection is in range |
| `Teleport.FirstNearMatch` | ChairTeleportPlugin.cs:5114-5160 | the fallback finds a related marker within 15 units of a rest bench, or nothing exactly when there is none |
| `Teleport.FindByMultipleMethods` | ChairTeleportPlugin.cs:5114-5160 | an exact marker name wins; otherwise the rest-bench scan decides, with the zero vector for no match |
| `Teleport.ArrivalPosition` | ChairTeleportPlugin.cs:5025-5044 | an arrival point found is never the zero vector; `Teleport.ArrivalSpec` states each branch |
| `Teleport.ArrivalSpec` | ChairTeleportPlugin.cs:5025-5044 | arrival uses the exact marker when it is not at the origin, fails when it is, falls back to the scan, and always lands on a related marker |
| `Teleport.SceneLoadWait` | ChairTeleportPlugin.cs:5096-5108 | the wait stops at the first frame where the target scene is active, or runs out |
| `Teleport.CrossSceneArrival` | ChairTeleportPlugin.cs:4990-5070 | once the target scene becomes active, arrival is looked up in it |
| `Teleport.TimeoutStillLooksUp` | ChairTeleportPlugin.cs:5096-5108 | a timed-out wait still looks the marker up, in whatever scene is active |
| `Teleport.FirstGate` | ChairTeleportPlugin.cs:5165-5199 | the first active gate of a kind, or nothing exactly when there is none |
| `Teleport.EntryGate` | ChairTeleportPlugin.cs:5165-5199 | the entry gate is the first active door, else the first active side gate, else any active gate, else none; it is always an active gate's name |
| `Teleport.NoActiveGateDefaultEntry` | ChairTeleportPlugin.cs:5165-5199 | with every gate inactive, the default entry is used |
| `Teleport.ProbeFrom` | ChairTeleportPlugin.cs:5547-5577 | the probe returns the first free offset in order, or the zero vector when all overlap |
| `Teleport.SafeNearby` | ChairTeleportPlugin.cs:5547-5577 | without a collider nothing is found; a found position is safe and is the first safe probe offset |
| `Teleport.DirectLanding` | ChairTeleportPlugin.cs:5390-5456 | the landing is the ground point (or the target), kept if safe, else the first safe nearby point or two units up |
| `Teleport.LandingSafeOrNudged` | ChairTeleportPlugin.cs:5390-5456 | a direct landing is safe, unless no nearby point is safe and it was nudged up |
| `Teleport.PostAdjust` | ChairTeleportPlugin.cs:5458-5480 | the second safety pass keeps a safe position and otherwise moves only to a safe nearby point |
| `Teleport.PostAdjustNeverNudges` | ChairTeleportPlugin.cs:5458-5480 | with every probe blocked, the second pass leaves the position alone |
| `Respawn.Nearest` | ChairTeleportPlugin.cs:3653-3678 | the anchor is a marker no farther than any other, the first such, and exists exactly when there are markers |
| `Respawn.QuickRest` | ChairTeleportPlugin.cs:3628-3712 | single F2 clears an active override, and otherwise records the scene and position with the nearest marker's name and the offset from it |
| `Respawn.QuickRestToggles` | ChairTeleportPlugin.cs:3628-3712 | two single F2 presses from no override leave no override |
| `Respawn.Died` | ChairTeleportPlugin.cs:4714-4726 | a death sets the just-respawned flag when an override is active and changes nothing else |
| `Respawn.FinishedEntering` | ChairTeleportPlugin.cs:4731-4744 | after entering a scene, a delayed teleport starts exactly when a pending override exists, and it clears the flag |
| `Respawn.SceneChangedAsWritten` | ChairTeleportPlugin.cs:3755-3769 | as written, arriving in the recorded scene starts a reposition but leaves the just-respawned flag set |
| `Respawn.SceneChanged` | ChairTeleportPlugin.cs:3755-3769 | intended: arriving in the recorded scene starts a reposition and clears the flag |
| `Respawn.RepositionFinished` | ChairTeleportPlugin.cs:3858 | a finished reposition clears the flag and nothing else |
| `Respawn.Step` | ChairTeleportPlugin.cs:3714-3866 | one hook or key event, with `OnActiveSceneChanged` as written or corrected; it has no contract of its own, and `Respawn.OneRepositionPerDeath` and `Respawn.AsWrittenRepositionsTwice` state its behaviour |
| `Respawn.Run` | ChairTeleportPlugin.cs:4714-4744 | a run of events reacts once per event; `Respawn.OneRepositionPerDeath` states the invariant over runs |
| `Respawn.OneRepositionPerDeath` | ChairTeleportPlugin.cs:3714-3866 | with the flag cleared on the scene change, repositions never outnumber deaths (plus one already pending) |
| `Respawn.AsWrittenRepositionsTwice` | ChairTeleportPlugin.cs:3755-3769 | as written, one death and a respawn into the recorded scene start two repositions |
| `Respawn.RepositionTarget` | ChairTeleportPlugin.cs:3780-3860 | without an anchor, the reposition goes to the recorded position |
| `Respawn.AnchorRoundTrip` | ChairTeleportPlugin.cs:3780-3860 | anchor plus offset gives back the recorded position while the markers have not moved |
| `Respawn.DoubleF2Plan` | ChairTeleportPlugin.cs:3873-3920 | double F2 goes to the override when one is active, directly or by scene change; otherwise to the game's respawn bench, or nowhere when none is set |
| `Respawn.RespawnPlan` | ChairTeleportPlugin.cs:5288-5330 | the delayed respawn teleport is direct in the recorded scene and a scene change otherwise |
| `Respawn.RespawnPlanMatchesDoubleF2` | ChairTeleportPlugin.cs:5288-5330 | with an active override, the respawn teleport goes where double F2 would |

## Left out

- The IMGUI drawing, pagination, styles, the map preview and the settings window are left out: they are presentation only.
- Harmony patching and reflection into the game are replaced by host parameters. The game save, the camera and scene loading are also host parameters.
- Config file I/O is left out: the persisted strings are function inputs and outputs.
- Floating point is not modelled. Positions are integer vectors, the third axis is dropped, and coroutine delays are integer milliseconds.
- Name and category text editing (`ConfirmEdit`, the zone-map rewrite in `ConfirmEditCategory`) is left out; only the favourite-list sync on a category rename is modelled.
- Hold-to-repeat navigation and the navigation cooldown's early return are left out: they only repeat or delay the same step.
- Gamepad combination parsing is left out because it is dead code.
- `PerformDirectTeleport` and `DoDirectTeleport` are modelled as one landing function.
- `FindGroundPoint` (a raycast) is a parameter.
- Number formatting assumes invariant-culture digits.
- Registry.RemoveBenchAtIndex: reads the removed bench's old row from groups built afresh from the current list; the source's `_catToIndices` can be stale when the groups are dirty.
- Text.CompareIgnoreCase: folds ASCII letters only and orders by Unicode scalar value, where the plugin compares with `StringComparison.CurrentCultureIgnoreCase` (`ChairTeleportPlugin.cs:6236`, `6242`, `1469`) and keys its rename, favourite and category dictionaries with `StringComparer.CurrentCultureIgnoreCase` (`216-238`); culture collation (Chinese zone names under zh-CN, punctuation weights, non-ASCII letters) depends on the host's culture tables, which the model does not carry. `Text.EqualsIgnoreCase` has the same simplification.
- Text.CompareOrdinal: orders characters by Unicode scalar value, where .NET's ordinal comparison (`ChairTeleportPlugin.cs:6275-6277`) orders UTF-16 code units; the two orders differ only for characters above U+FFFF, which .NET stores as a surrogate pair in U+D800 to U+DFFF and so sorts before U+E000 to U+FFFF. The surrogate encoding is not modelled.
- Case-sensitive culture equality: the culture-sensitive, case-sensitive equality of `StringComparison.CurrentCulture` and `StringComparer.CurrentCulture` (`ChairTeleportPlugin.cs:1218`, `1262`, `3373`, `4018`) is modelled as exact equality of the two strings; culture rules that equate differently encoded text (for example composed and decomposed accents) are not modelled.
- Text.IsDigit: accepts ASCII `0`-`9` only, where `char.IsDigit` (`1274`, `6151`, `6188`) accepts every Unicode decimal digit; a non-ASCII digit after `#` is not modelled.
- Text.Trim: strips space and U+0009 to U+000D only, the set `int.TryParse` accepts, where `string.Trim` (`1539-1540`, `1272`, `4125`) strips every `char.IsWhiteSpace` character, including U+00A0 and U+3000.
- Respawn.AnchorRoundTrip: requires distinct marker names, because `RepositionAfterEnter` resolves the anchor by its first name match.
- InputKeys.RightDoubleTogglesCategory: requires no arming to be open before the first press; an open arming makes that first press itself a toggle.
- InputKeys.RightFrame: takes the favourite toggle's target as given; the callers resolve which category or bench it names.
- Teleport.EntryGate: drops the unused scene argument of `GetSafeEntryPointForScene`.

## Findings

| source | as written | input that shows it | evidently intended | confidence | as-written member | corrected member |
|---|---|---|---|---|---|---|
| ChairTeleportPlugin.cs:4042-4065 | the new bench's provisional `<zone> #k` name is in the list when used numbers are collected, so `k` counts as taken | an empty registry; add one bench: it is named `#2` | the first bench of a zone is `#1` | not executed; high | `Registry.FirstBenchAsWritten` | `Registry.FirstBenchIntended` |
| ChairTeleportPlugin.cs:3755-3769 | arriving in the recorded scene starts `RepositionAfterEnter` without clearing the just-respawned flag | an active override; die; respawn into the recorded scene: the scene change repositions, then `FinishedEnteringScene` starts a second teleport | one reposition per death | not executed; medium | `Respawn.AsWrittenRepositionsTwice` | `Respawn.OneRepositionPerDeath` |
| ChairTeleportPlugin.cs:1262-1298 | the used-number set includes the unrenamed benches' own current numbers | one unrenamed bench named `#1`: a refresh renames it `#2`, the next back to `#1` | numbering is stable: a refresh of a refreshed list changes nothing | not executed; high | `Naming.RefreshMovesLoneNumber` | `Naming.RefreshIntendedStable` |
| ChairTeleportPlugin.cs:4114-4138 | field 3 is taken for the parent only when it does not look like a flag, even in a full 8-field record | a starred bench, added fifth, in a category renamed `1`: on reload its fields shift and it comes back unstarred | a full record always has the parent in field 3 | not executed; medium | `Persistence.AsWrittenLosesFavorite` | `Persistence.SaveLoadRoundTrip` |
