/** The bench list and its mutations: recording the bench the player sits
    on (`AddBench`), deleting one (`RemoveBenchAtIndex`), starring one
    (`ToggleFavoriteBench`) and the two clean-ups
    (`CleanInvalidSceneBenches`, `PruneNearbyDuplicatesInActiveScene`). */
module Registry {
  import opened Wrappers
  import opened Text
  import opened Benches
  import opened Zones
  import opened Favorites
  import opened Categories
  import opened Groups
  import opened Selection
  import opened Naming
  import Sorting

  /** What the registry sees of the running game: the active scene, which
      markers of it resolve to a position (`GetBenchPositionInCurrentScene`
      does not return zero), and whether two markers lie within one screen
      width of each other. */
  datatype World = World(active: string, resolvable: string -> bool, near: (string, string) -> bool)

  /** The plugin's bench state: the list, the zone rename map, the favourite
      categories, the two order counters, the cursor, the key selected on
      the next open, and the row that shakes (with its deadline in
      milliseconds). */
  datatype Registry = Registry(
    benches: seq<Bench>,
    renames: RenameMap,
    favorites: FavList,
    addedCounter: int,
    favoriteCounter: int,
    cursor: Cursor,
    pendingSelect: string,
    shakeKey: string,
    shakeUntil: int)

  /** How long a favourite's row shakes when the user tries to delete it. */
  const ShakeMillis := 280

  /** The marker text of benches spawned by another mod. */
  const CustomBenchMarker := "CustomRestBench(Clone)"

  /** The first record with this scene and marker, or -1. */
  function IndexOfKey(bs: seq<Bench>, scene: string, marker: string): (r: int)
    ensures -1 <= r < |bs|
    ensures r >= 0 ==> bs[r].Key() == (scene, marker)
    ensures r < 0 <==> forall j :: 0 <= j < |bs| ==> bs[j].Key() != (scene, marker)
  {
    if |bs| == 0 then -1
    else if bs[0].scene == scene && bs[0].marker == marker then 0
    else
      var r := IndexOfKey(bs[1..], scene, marker);
      if r < 0 then -1 else r + 1
  }

  // ---------------------------------------------------------------------------
  // AddBench
  // ---------------------------------------------------------------------------

  /** The three early returns of `AddBench`. */
  predicate Ignored(bs: seq<Bench>, scene: string, marker: string) {
    |scene| == 0 || |marker| == 0 || Contains(marker, CustomBenchMarker) || IndexOfKey(bs, scene, marker) >= 0
  }

  /** A recorded bench of `scene` whose position resolves and lies near the
      new marker. */
  predicate NearNew(w: World, scene: string, marker: string, b: Bench) {
    b.scene == scene && w.resolvable(b.marker) && w.near(b.marker, marker)
  }

  /** `keepIndex`: the first record near the new marker, or -1. */
  function FirstNear(w: World, scene: string, marker: string, bs: seq<Bench>): (r: int)
    ensures -1 <= r < |bs|
    ensures r >= 0 ==> NearNew(w, scene, marker, bs[r])
    ensures r >= 0 ==> forall j :: 0 <= j < r ==> !NearNew(w, scene, marker, bs[j])
    ensures r < 0 ==> forall j :: 0 <= j < |bs| ==> !NearNew(w, scene, marker, bs[j])
  {
    if |bs| == 0 then -1
    else if NearNew(w, scene, marker, bs[0]) then 0
    else
      var r := FirstNear(w, scene, marker, bs[1..]);
      if r < 0 then -1 else r + 1
  }

  /** The list without the records after `keep` that lie near the new
      marker (`toRemove`). */
  function DropNearAfter(w: World, scene: string, marker: string, bs: seq<Bench>, keep: int): (r: seq<Bench>)
    decreases |bs|
  {
    if |bs| == 0 then []
    else
      var n := |bs| - 1;
      DropNearAfter(w, scene, marker, bs[..n], keep) +
        (if n > keep && NearNew(w, scene, marker, bs[n]) then [] else [bs[n]])
  }

  /** Whether `AddBench` merges instead of adding: the player is in the
      bench's scene, the new marker resolves, and a recorded bench is near. */
  predicate Merges(w: World, bs: seq<Bench>, scene: string, marker: string) {
    w.active == scene && w.resolvable(marker) && FirstNear(w, scene, marker, bs) >= 0
  }

  /** `GenerateDisplayName`: the number of recorded benches whose scene has
      the same friendly name. */
  function SameZoneCount(h: Host, bs: seq<Bench>, scene: string): nat
    decreases |bs|
  {
    if |bs| == 0 then 0
    else
      SameZoneCount(h, bs[..|bs| - 1], scene) +
        (if h.FriendlySceneName(bs[|bs| - 1].scene) == h.FriendlySceneName(scene) then 1 else 0)
  }

  /** The name a `BenchRef` is constructed with: `<zone> #<count + 1>`. */
  function ProvisionalName(h: Host, bs: seq<Bench>, scene: string): string {
    h.FriendlySceneName(scene) + " #" + NatToString(SameZoneCount(h, bs, scene) + 1)
  }

  /** In the Chinese UI a new bench of a known zone records the zone's
      localized name as its rename, unless the language table has none, it
      equals the key, or the key already has a rename. */
  function AutoZoneRename(h: Host, renames: RenameMap, scene: string): (r: RenameMap)
    ensures scene !in h.zones || !h.chinese ==> r == renames
  {
    if h.chinese && scene in h.zones then
      var zk := h.zones[scene];
      var loc := h.LanguageGet(zk);
      if |zk| > 0 && |loc| > 0 && loc != zk && FindKey(renames, zk) < 0 then Put(renames, zk, loc)
      else renames
    else renames
  }

  /** The new record before numbering: provisional name, parent set to the
      scene's zone key, not renamed, next added order, not a favourite. */
  function NewRecord(h: Host, bs: seq<Bench>, scene: string, marker: string, order: int): (r: Bench)
    ensures r.Key() == (scene, marker) && !r.isRenamed && !r.isFavorite && r.addedOrder == order
  {
    var parent := if scene in h.zones then h.zones[scene] else "";
    Bench(scene, marker, ProvisionalName(h, bs, scene), parent, false, order, false, 0)
  }

  /** The number `AddBench` gives the new record `b0`: the least positive
      number not used in its category (ignoring case) by the records in
      `counted`. */
  function NumberFor(h: Host, renames: RenameMap, counted: seq<Bench>, b0: Bench): (r: int)
    ensures r >= 1
  {
    LeastUnused(UsedNumbers(Labels(h, renames, counted), CategoryKey(h, renames, b0), true))
  }

  /** The number as the code computes it: the scan runs after the new record
      joined the list, so its own provisional name counts. */
  function NumberAsWritten(h: Host, renames: RenameMap, bs: seq<Bench>, b0: Bench): (r: int)
    ensures r >= 1
  {
    NumberFor(h, renames, bs + [b0], b0)
  }

  /** The intended number: only the records already there count. */
  function NumberIntended(h: Host, renames: RenameMap, bs: seq<Bench>, b0: Bench): (r: int)
    ensures r >= 1
  {
    NumberFor(h, renames, bs, b0)
  }

  /** The record before numbering, with the next added order: `++` on the
      C# `int` counter. */
  function Provisional(h: Host, st: Registry, scene: string, marker: string): (r: Bench)
    ensures r.Key() == (scene, marker) && !r.isRenamed && !r.isFavorite
  {
    NewRecord(h, st.benches, scene, marker, Inc32(st.addedCounter))
  }

  /** The record a successful `AddBench` appends, numbered as the code does
      (`asWritten`) or as intended. */
  function NewBench(h: Host, st: Registry, scene: string, marker: string, asWritten: bool): (r: Bench)
    ensures r.Key() == (scene, marker) && !r.isRenamed && !r.isFavorite
    ensures IsInt32(r.addedOrder)
    ensures IsInt32(st.addedCounter) && st.addedCounter < Int32Max ==> r.addedOrder == st.addedCounter + 1
    ensures st.addedCounter == Int32Max ==> r.addedOrder == Int32Min
  {
    var renames := AutoZoneRename(h, st.renames, scene);
    var b0 := Provisional(h, st, scene, marker);
    var n := if asWritten then NumberAsWritten(h, renames, st.benches, b0)
             else NumberIntended(h, renames, st.benches, b0);
    b0.(displayName := NumberName(n))
  }

  /** `AddBench`, with the new bench numbered as the code does (`asWritten`)
      or as intended. */
  function AddBench(h: Host, w: World, st: Registry, scene: string, marker: string, asWritten: bool): (r: Registry)
    ensures Ignored(st.benches, scene, marker) ==> r == st
  {
    var bs := st.benches;
    if Ignored(bs, scene, marker) then st
    else if Merges(w, bs, scene, marker) then
      st.(benches := DropNearAfter(w, scene, marker, bs, FirstNear(w, scene, marker, bs)))
    else
      var b := NewBench(h, st, scene, marker, asWritten);
      var sorted := SortBenches(bs + [b]);
      var i := IndexOfKey(sorted, scene, marker);
      st.(benches := sorted,
          renames := AutoZoneRename(h, st.renames, scene),
          addedCounter := Inc32(st.addedCounter),
          pendingSelect := scene + "|" + marker,
          cursor := if i >= 0 then st.cursor.(selected := i) else st.cursor)
  }

  // ---------------------------------------------------------------------------
  // Properties of AddBench
  // ---------------------------------------------------------------------------

  /** An empty scene or marker, a custom bench, or a bench already recorded
      changes nothing. */
  lemma AddIgnoresInvalid(h: Host, w: World, st: Registry, scene: string, marker: string, asWritten: bool)
    requires |scene| == 0 || |marker| == 0 || Contains(marker, CustomBenchMarker) ||
             exists j :: 0 <= j < |st.benches| && st.benches[j].Key() == (scene, marker)
    ensures AddBench(h, w, st, scene, marker, asWritten) == st
  {
  }

  lemma {:induction false} DropNearAfterShort(w: World, scene: string, marker: string, bs: seq<Bench>, keep: int)
    requires |bs| <= keep + 1
    ensures DropNearAfter(w, scene, marker, bs, keep) == bs
    decreases |bs|
  {
    if |bs| > 0 {
      var n := |bs| - 1;
      DropNearAfterShort(w, scene, marker, bs[..n], keep);
      assert bs[..n] + [bs[n]] == bs;
    }
  }

  /** The records up to and including `keep` stay in place. */
  lemma {:induction false} DropNearAfterPrefix(w: World, scene: string, marker: string, bs: seq<Bench>, keep: int)
    requires 0 <= keep < |bs|
    ensures var r := DropNearAfter(w, scene, marker, bs, keep);
            |r| > keep && r[..keep + 1] == bs[..keep + 1]
    decreases |bs|
  {
    var n := |bs| - 1;
    if n == keep {
      DropNearAfterShort(w, scene, marker, bs, keep);
    } else {
      DropNearAfterPrefix(w, scene, marker, bs[..n], keep);
      var init := DropNearAfter(w, scene, marker, bs[..n], keep);
      var r := DropNearAfter(w, scene, marker, bs, keep);
      assert r[..keep + 1] == init[..keep + 1];
      assert bs[..n][..keep + 1] == bs[..keep + 1];
    }
  }

  /** Every record that is not near, or not after `keep`, is kept; no record
      after position `keep` of the result is near; nothing new appears. */
  lemma {:induction false} DropNearAfterSpec(w: World, scene: string, marker: string, bs: seq<Bench>, keep: int)
    ensures var r := DropNearAfter(w, scene, marker, bs, keep);
            && (forall i :: 0 <= i < |bs| && (i <= keep || !NearNew(w, scene, marker, bs[i])) ==> bs[i] in r)
            && (forall j :: 0 <= j < |r| && j > keep ==> !NearNew(w, scene, marker, r[j]))
            && multiset(r) <= multiset(bs)
    decreases |bs|
  {
    if |bs| > 0 {
      var n := |bs| - 1;
      DropNearAfterSpec(w, scene, marker, bs[..n], keep);
      var init := DropNearAfter(w, scene, marker, bs[..n], keep);
      var r := DropNearAfter(w, scene, marker, bs, keep);
      assert bs == bs[..n] + [bs[n]];
      forall i | 0 <= i < |bs| && (i <= keep || !NearNew(w, scene, marker, bs[i])) ensures bs[i] in r {
        if i < n {
          assert bs[..n][i] == bs[i];
        }
      }
      if |bs| <= keep + 1 {
        DropNearAfterShort(w, scene, marker, bs, keep);
      } else {
        forall j | 0 <= j < |r| && j > keep ensures !NearNew(w, scene, marker, r[j]) {
          if j < |init| {
            assert r[j] == init[j];
          }
        }
      }
    }
  }

  /** Dropping records keeps the keys of the rest unique. */
  lemma {:induction false} DropNearAfterUnique(w: World, scene: string, marker: string, bs: seq<Bench>, keep: int)
    requires UniqueKeys(bs)
    ensures UniqueKeys(DropNearAfter(w, scene, marker, bs, keep))
    decreases |bs|
  {
    if |bs| > 0 {
      var n := |bs| - 1;
      var init := DropNearAfter(w, scene, marker, bs[..n], keep);
      DropNearAfterUnique(w, scene, marker, bs[..n], keep);
      DropNearAfterSpec(w, scene, marker, bs[..n], keep);
      var r := DropNearAfter(w, scene, marker, bs, keep);
      forall i, j | 0 <= i < j < |r| ensures r[i].Key() != r[j].Key() {
        if j == |init| {
          assert r[i] == init[i];
          assert init[i] in multiset(bs[..n]);
          var p :| 0 <= p < n && bs[..n][p] == init[i];
          assert bs[p] == init[i];
        } else {
          assert r[i] == init[i] && r[j] == init[j];
        }
      }
    }
  }

  /** The merge branch: nothing is added, the first near record stays where
      it was, every later near record goes, every other record stays, and
      nothing else in the state changes. */
  lemma AddMergeSpec(h: Host, w: World, st: Registry, scene: string, marker: string, asWritten: bool)
    requires !Ignored(st.benches, scene, marker) && Merges(w, st.benches, scene, marker)
    ensures var r := AddBench(h, w, st, scene, marker, asWritten);
            var k := FirstNear(w, scene, marker, st.benches);
            && r == st.(benches := r.benches)
            && |r.benches| > k && r.benches[..k + 1] == st.benches[..k + 1]
            && (forall j :: k < j < |r.benches| ==> !NearNew(w, scene, marker, r.benches[j]))
            && (forall i :: 0 <= i < |st.benches| && !NearNew(w, scene, marker, st.benches[i]) ==> st.benches[i] in r.benches)
            && multiset(r.benches) <= multiset(st.benches)
  {
    var k := FirstNear(w, scene, marker, st.benches);
    DropNearAfterPrefix(w, scene, marker, st.benches, k);
    DropNearAfterSpec(w, scene, marker, st.benches, k);
  }

  /** The records whose numbers the scan of `AddBench` counts: as written
      the new record has already joined the list under its provisional
      name `<zone> #k`; as intended only the records already there count. */
  function Counted(h: Host, st: Registry, scene: string, marker: string, asWritten: bool): seq<Bench> {
    if asWritten then st.benches + [Provisional(h, st, scene, marker)] else st.benches
  }

  /** The append branch: the list gains exactly the new record and stays
      sorted; the record has the next added order (wrapping as a C# `int`),
      is not renamed, and is named `#n` for the least positive `n` that no
      counted record of its category carries; the counter moves on, the
      zone's localized rename is recorded, and the new bench is selected. */
  lemma AddAppendSpec(h: Host, w: World, st: Registry, scene: string, marker: string, asWritten: bool)
    requires !Ignored(st.benches, scene, marker) && !Merges(w, st.benches, scene, marker)
    ensures var r := AddBench(h, w, st, scene, marker, asWritten);
            var b := NewBench(h, st, scene, marker, asWritten);
            var renames := AutoZoneRename(h, st.renames, scene);
            var used := UsedNumbers(Labels(h, renames, Counted(h, st, scene, marker, asWritten)), CategoryKey(h, renames, b), true);
            && multiset(r.benches) == multiset(st.benches) + multiset{b}
            && Sorting.Sorted(r.benches, BenchCompare)
            && b.Key() == (scene, marker) && b.addedOrder == Inc32(st.addedCounter) && !b.isRenamed
            && (exists n: nat :: b.displayName == NumberName(n) && LeastFree(n, used))
            && r.addedCounter == Inc32(st.addedCounter)
            && r.renames == renames
            && r.pendingSelect == scene + "|" + marker
            && 0 <= r.cursor.selected < |r.benches| && r.benches[r.cursor.selected].Key() == (scene, marker)
  {
    var bs := st.benches;
    var b := NewBench(h, st, scene, marker, asWritten);
    NewBenchNumbered(h, st, scene, marker, asWritten);
    AddAppendBenches(h, w, st, scene, marker, asWritten);
    var sorted := SortBenches(bs + [b]);
    SortBenchesSpec(bs + [b]);
    assert b in multiset(sorted);
    var i := IndexOfKey(sorted, scene, marker);
    assert i >= 0;
    assert AddBench(h, w, st, scene, marker, asWritten).cursor.selected == i;
  }

  /** The new record's name is `#n` for the least number free in its
      category among the counted records. */
  lemma NewBenchNumbered(h: Host, st: Registry, scene: string, marker: string, asWritten: bool)
    ensures var b := NewBench(h, st, scene, marker, asWritten);
            var renames := AutoZoneRename(h, st.renames, scene);
            var used := UsedNumbers(Labels(h, renames, Counted(h, st, scene, marker, asWritten)), CategoryKey(h, renames, b), true);
            exists n: nat :: b.displayName == NumberName(n) && LeastFree(n, used)
  {
    var bs := st.benches;
    var renames := AutoZoneRename(h, st.renames, scene);
    var b0 := Provisional(h, st, scene, marker);
    var b := NewBench(h, st, scene, marker, asWritten);
    var counted := Counted(h, st, scene, marker, asWritten);
    var n := NumberFor(h, renames, counted, b0);
    assert b.displayName == NumberName(n);
    CategoryKeyIgnoresName(h, renames, b0, NumberName(n));
    assert CategoryKey(h, renames, b) == CategoryKey(h, renames, b0);
    assert LeastFree(n, UsedNumbers(Labels(h, renames, counted), CategoryKey(h, renames, b0), true));
  }

  /** After any add the keys (scene, marker) of the list are still unique. */
  lemma AddKeepsKeysUnique(h: Host, w: World, st: Registry, scene: string, marker: string, asWritten: bool)
    requires UniqueKeys(st.benches)
    ensures UniqueKeys(AddBench(h, w, st, scene, marker, asWritten).benches)
  {
    var bs := st.benches;
    if !Ignored(bs, scene, marker) {
      if Merges(w, bs, scene, marker) {
        DropNearAfterUnique(w, scene, marker, bs, FirstNear(w, scene, marker, bs));
      } else {
        var b := NewBench(h, st, scene, marker, asWritten);
        assert UniqueKeys(bs + [b]) by {
          forall i, j | 0 <= i < j < |bs + [b]| ensures (bs + [b])[i].Key() != (bs + [b])[j].Key() {
            if j == |bs| {
              assert bs[i].Key() != (scene, marker);
            }
          }
        }
        SortBenchesSpec(bs + [b]);
      }
    }
  }

  /** A run of adds, in order. */
  function AddAll(h: Host, w: World, st: Registry, adds: seq<(string, string)>, asWritten: bool): Registry
    decreases |adds|
  {
    if |adds| == 0 then st
    else AddAll(h, w, AddBench(h, w, st, adds[0].0, adds[0].1, asWritten), adds[1..], asWritten)
  }

  /** No sequence of adds produces two records with the same scene and
      marker. */
  lemma {:induction false} AddAllKeepsKeysUnique(h: Host, w: World, st: Registry, adds: seq<(string, string)>, asWritten: bool)
    requires UniqueKeys(st.benches)
    ensures UniqueKeys(AddAll(h, w, st, adds, asWritten).benches)
    decreases |adds|
  {
    if |adds| > 0 {
      AddKeepsKeysUnique(h, w, st, adds[0].0, adds[0].1, asWritten);
      AddAllKeepsKeysUnique(h, w, AddBench(h, w, st, adds[0].0, adds[0].1, asWritten), adds[1..], asWritten);
    }
  }

  // ---------------------------------------------------------------------------
  // The number of a new bench, as written and as intended
  // ---------------------------------------------------------------------------

  /** As written, the new record's own provisional name `<zone> #k` is
      scanned, so the number it gets is never `k`. */
  lemma AsWrittenSkipsProvisional(h: Host, renames: RenameMap, bs: seq<Bench>, scene: string, marker: string, order: int)
    requires IsInt32(SameZoneCount(h, bs, scene) + 1)
    ensures NumberAsWritten(h, renames, bs, NewRecord(h, bs, scene, marker, order)) != SameZoneCount(h, bs, scene) + 1
  {
    var b0 := NewRecord(h, bs, scene, marker, order);
    var k := SameZoneCount(h, bs, scene) + 1;
    var labels := Labels(h, renames, bs + [b0]);
    var cat := CategoryKey(h, renames, b0);
    ProvisionalNumber(h.FriendlySceneName(scene), k);
    assert labels[|bs|] == (cat, b0.displayName);
    assert InCategory(cat, cat, true);
    assert k in UsedNumbers(labels, cat, true);
  }

  /** As written, the first bench of an empty registry is named `#2`. */
  lemma FirstBenchAsWritten(h: Host, w: World, st: Registry, scene: string, marker: string)
    requires st.benches == [] && |scene| > 0 && |marker| > 0 && !Contains(marker, CustomBenchMarker)
    ensures AddBench(h, w, st, scene, marker, true).benches == [NewBench(h, st, scene, marker, true)]
    ensures NewBench(h, st, scene, marker, true).displayName == NumberName(2)
  {
    FirstAppend(h, w, st, scene, marker, true);
    var renames := AutoZoneRename(h, st.renames, scene);
    FirstNumberAsWritten(h, renames, scene, marker, Inc32(st.addedCounter));
  }

  /** The as-written scan of an empty registry sees only the new record's
      `<zone> #1`, so it picks 2. */
  lemma FirstNumberAsWritten(h: Host, renames: RenameMap, scene: string, marker: string, order: int)
    ensures NumberAsWritten(h, renames, [], NewRecord(h, [], scene, marker, order)) == 2
  {
    var b0 := NewRecord(h, [], scene, marker, order);
    var cat := CategoryKey(h, renames, b0);
    FirstProvisionalNumber(h, scene, marker, order);
    assert Labels(h, renames, [] + [b0]) == [(cat, b0.displayName)];
    LoneUsed(cat, b0.displayName, 1, true);
    assert LeastUnused({1}) == 2;
  }

  /** The first provisional name of an empty registry is `<zone> #1`. */
  lemma FirstProvisionalNumber(h: Host, scene: string, marker: string, order: int)
    ensures TrailingNumber(NewRecord(h, [], scene, marker, order).displayName) == Some(1)
  {
    var b0 := NewRecord(h, [], scene, marker, order);
    assert SameZoneCount(h, [], scene) == 0;
    assert b0.displayName == h.FriendlySceneName(scene) + " #" + NatToString(1);
    ProvisionalNumber(h.FriendlySceneName(scene), 1);
  }

  /** With the intended numbering the first bench of an empty registry is
      named `#1`. */
  lemma FirstBenchIntended(h: Host, w: World, st: Registry, scene: string, marker: string)
    requires st.benches == [] && |scene| > 0 && |marker| > 0 && !Contains(marker, CustomBenchMarker)
    ensures AddBench(h, w, st, scene, marker, false).benches == [NewBench(h, st, scene, marker, false)]
    ensures NewBench(h, st, scene, marker, false).displayName == NumberName(1)
  {
    FirstAppend(h, w, st, scene, marker, false);
    FirstNumberIntended(h, st, scene, marker);
  }

  /** Adding to an empty registry gives the one new record. */
  lemma FirstAppend(h: Host, w: World, st: Registry, scene: string, marker: string, asWritten: bool)
    requires st.benches == [] && |scene| > 0 && |marker| > 0 && !Contains(marker, CustomBenchMarker)
    ensures AddBench(h, w, st, scene, marker, asWritten).benches == [NewBench(h, st, scene, marker, asWritten)]
  {
    var b := NewBench(h, st, scene, marker, asWritten);
    assert IndexOfKey([], scene, marker) < 0;
    assert FirstNear(w, scene, marker, []) < 0;
    AddAppendBenches(h, w, st, scene, marker, asWritten);
    assert st.benches + [b] == [b];
    Sorting.SortOne(b, BenchCompare);
  }

  /** The list after the append branch of `AddBench`. */
  lemma AddAppendBenches(h: Host, w: World, st: Registry, scene: string, marker: string, asWritten: bool)
    requires !Ignored(st.benches, scene, marker) && !Merges(w, st.benches, scene, marker)
    ensures AddBench(h, w, st, scene, marker, asWritten).benches == SortBenches(st.benches + [NewBench(h, st, scene, marker, asWritten)])
  {
  }

  lemma FirstNumberIntended(h: Host, st: Registry, scene: string, marker: string)
    requires st.benches == []
    ensures NewBench(h, st, scene, marker, false).displayName == NumberName(1)
  {
    var renames := AutoZoneRename(h, st.renames, scene);
    var b0 := Provisional(h, st, scene, marker);
    var labels := Labels(h, renames, st.benches);
    assert |labels| == 0;
    var used := UsedNumbers(labels, CategoryKey(h, renames, b0), true);
    assert used == {};
    assert 1 !in used;
    assert NumberIntended(h, renames, st.benches, b0) == 1;
  }

  /** An add when the added counter is `int.MaxValue` wraps: the new record's
      order is `int.MinValue`, and so is the counter. */
  lemma AddWrapsCounter(h: Host, w: World, st: Registry, scene: string, marker: string, asWritten: bool)
    requires !Ignored(st.benches, scene, marker) && !Merges(w, st.benches, scene, marker)
    requires st.addedCounter == Int32Max
    ensures NewBench(h, st, scene, marker, asWritten).addedOrder == Int32Min
    ensures AddBench(h, w, st, scene, marker, asWritten).addedCounter == Int32Min
  {
  }

  // ---------------------------------------------------------------------------
  // RemoveBenchAtIndex
  // ---------------------------------------------------------------------------

  /** `RemoveBenchAtIndex` at time `now` (milliseconds): a favourite is never
      deleted, its row shakes instead; any other bench is removed, the list
      re-sorted, and the cursor kept in the bench's category. */
  function RemoveBenchAtIndex(h: Host, st: Registry, index: int, now: int): (r: Registry)
    ensures index < 0 || index >= |st.benches| ==> r == st
  {
    var bs := st.benches;
    if index < 0 || index >= |bs| then st
    else if bs[index].isFavorite then
      st.(shakeKey := bs[index].scene + "|" + bs[index].marker, shakeUntil := now + ShakeMillis)
    else
      var catKey := CategoryKey(h, st.renames, bs[index]);
      var prevRow := RowBeforeRemoval(BuildGroups(h, st.renames, st.favorites, bs), catKey, index, st.cursor);
      var rest := SortBenches(bs[..index] + bs[index + 1..]);
      var gs := BuildGroups(h, st.renames, st.favorites, rest);
      st.(benches := rest, cursor := CursorAfterRemoval(gs, catKey, prevRow, |rest|, st.cursor))
  }

  /** Deleting a favourite only starts the shake of its row, for 280 ms. */
  lemma RemoveFavoriteShakes(h: Host, st: Registry, index: int, now: int)
    requires 0 <= index < |st.benches| && st.benches[index].isFavorite
    ensures var r := RemoveBenchAtIndex(h, st, index, now);
            && r.benches == st.benches
            && r == st.(shakeKey := r.shakeKey, shakeUntil := r.shakeUntil)
            && r.shakeKey == st.benches[index].scene + "|" + st.benches[index].marker
            && r.shakeUntil == now + 280
  {
  }

  /** Position `p` of a list with position `i` removed. */
  lemma RemoveAtIndex<T>(s: seq<T>, i: nat, p: nat)
    requires i < |s| && p < |s| - 1
    ensures (s[..i] + s[i + 1..])[p] == s[if p < i then p else p + 1]
  {
  }

  /** Removing a record keeps the other keys unique and leaves no record
      with the removed key. */
  lemma RemoveAtUnique(bs: seq<Bench>, i: nat)
    requires i < |bs| && UniqueKeys(bs)
    ensures UniqueKeys(bs[..i] + bs[i + 1..])
    ensures forall b :: b in bs[..i] + bs[i + 1..] ==> b.Key() != bs[i].Key()
  {
    var rest := bs[..i] + bs[i + 1..];
    forall p, q | 0 <= p < q < |rest| ensures rest[p].Key() != rest[q].Key() {
      RemoveAtIndex(bs, i, p);
      RemoveAtIndex(bs, i, q);
    }
    forall b | b in rest ensures b.Key() != bs[i].Key() {
      var p :| 0 <= p < |rest| && rest[p] == b;
      RemoveAtIndex(bs, i, p);
    }
  }

  /** Deleting any other bench removes exactly that record, keeps every
      other one, and leaves the list sorted with unique keys; on a sorted
      list the others keep their order. */
  lemma RemoveSpec(h: Host, st: Registry, index: int, now: int)
    requires 0 <= index < |st.benches| && !st.benches[index].isFavorite
    ensures var r := RemoveBenchAtIndex(h, st, index, now);
            var bs := st.benches;
            && multiset(r.benches) + multiset{bs[index]} == multiset(bs)
            && Sorting.Sorted(r.benches, BenchCompare)
            && (UniqueKeys(bs) ==> UniqueKeys(r.benches) && forall b :: b in r.benches ==> b.Key() != bs[index].Key())
            && (Sorting.Sorted(bs, BenchCompare) ==> r.benches == bs[..index] + bs[index + 1..])
  {
    var bs := st.benches;
    var rest := bs[..index] + bs[index + 1..];
    assert bs == bs[..index] + [bs[index]] + bs[index + 1..];
    assert multiset(rest) + multiset{bs[index]} == multiset(bs);
    SortBenchesSpec(rest);
    if UniqueKeys(bs) {
      RemoveAtUnique(bs, index);
      forall b | b in SortBenches(rest) ensures b.Key() != bs[index].Key() {
        assert b in multiset(rest);
      }
    }
    if Sorting.Sorted(bs, BenchCompare) {
      Sorting.RemoveAtSorted(bs, index, BenchCompare);
      Sorting.SortBySortedIsIdentity(rest, BenchCompare);
    }
  }

  // ---------------------------------------------------------------------------
  // ToggleFavoriteBench
  // ---------------------------------------------------------------------------

  /** `ToggleFavoriteBench`: star or unstar one bench; starring gives it the
      next favourite order (`++` on the C# `int` counter, which wraps). The
      list is not re-sorted; the groups are rebuilt and the cursor follows
      the bench. */
  function ToggleFavoriteBench(h: Host, st: Registry, index: int): (r: Registry)
    ensures index < 0 || index >= |st.benches| ==> r == st
  {
    var bs := st.benches;
    if index < 0 || index >= |bs| then st
    else
      var b := bs[index];
      var b' := if b.isFavorite then b.(isFavorite := false)
                else b.(isFavorite := true, favoriteOrder := Inc32(st.favoriteCounter));
      var bs' := bs[index := b'];
      var gs := BuildGroups(h, st.renames, st.favorites, bs');
      st.(benches := bs',
          favoriteCounter := if b.isFavorite then st.favoriteCounter else Inc32(st.favoriteCounter),
          cursor := RefreshAfterMutation(CategoryKeys(h, st.renames, bs'), gs, st.cursor.(selected := index)))
  }

  /** The toggled bench flips its star and keeps everything else but its
      favourite order; no other bench changes; the cursor lands on the
      toggled bench's row. */
  lemma ToggleFavoriteBenchSpec(h: Host, st: Registry, index: int)
    requires 0 <= index < |st.benches|
    ensures var r := ToggleFavoriteBench(h, st, index);
            var b := st.benches[index];
            var gs := BuildGroups(h, st.renames, st.favorites, r.benches);
            && |r.benches| == |st.benches|
            && (forall j :: 0 <= j < |st.benches| && j != index ==> r.benches[j] == st.benches[j])
            && r.benches[index].isFavorite == !b.isFavorite
            && r.benches[index].(isFavorite := b.isFavorite, favoriteOrder := b.favoriteOrder) == b
            && (!b.isFavorite ==> r.benches[index].favoriteOrder == Inc32(st.favoriteCounter) &&
                                  r.favoriteCounter == Inc32(st.favoriteCounter))
            && (b.isFavorite ==> r.benches[index].favoriteOrder == b.favoriteOrder &&
                                 r.favoriteCounter == st.favoriteCounter)
            && r.cursor.selected == index
            && 0 <= r.cursor.category < |gs| && 0 <= r.cursor.inCategory < |gs[r.cursor.category].1|
            && gs[r.cursor.category].1[r.cursor.inCategory] == index
  {
    var r := ToggleFavoriteBench(h, st, index);
    RefreshFollowsSelection(h, st.renames, st.favorites, r.benches, st.cursor.(selected := index));
  }

  /** Toggling twice restores the star. */
  lemma ToggleTwiceRestoresStar(h: Host, st: Registry, index: int)
    requires 0 <= index < |st.benches|
    ensures var r := ToggleFavoriteBench(h, ToggleFavoriteBench(h, st, index), index);
            r.benches[index].isFavorite == st.benches[index].isFavorite &&
            forall j :: 0 <= j < |st.benches| && j != index ==> r.benches[j] == st.benches[j]
  {
    ToggleFavoriteBenchSpec(h, st, index);
    ToggleFavoriteBenchSpec(h, ToggleFavoriteBench(h, st, index), index);
  }

  // ---------------------------------------------------------------------------
  // CleanInvalidSceneBenches
  // ---------------------------------------------------------------------------

  /** The scene map is considered loaded only when it has more than this
      many scenes. */
  const MinSceneMapSize := 20

  predicate KnownScene(h: Host, b: Bench) {
    |b.scene| > 0 && b.scene in h.zones
  }

  /** The records whose scene the game knows, in order. */
  function KnownOnly(h: Host, bs: seq<Bench>): (r: seq<Bench>)
    ensures |r| <= |bs|
    ensures forall b :: b in r ==> KnownScene(h, b)
    decreases |bs|
  {
    if |bs| == 0 then []
    else
      var n := |bs| - 1;
      KnownOnly(h, bs[..n]) + (if KnownScene(h, bs[n]) then [bs[n]] else [])
  }

  /** Every known record is kept and nothing else appears. */
  lemma {:induction false} KnownOnlyKeeps(h: Host, bs: seq<Bench>)
    ensures forall i :: 0 <= i < |bs| && KnownScene(h, bs[i]) ==> bs[i] in KnownOnly(h, bs)
    ensures multiset(KnownOnly(h, bs)) <= multiset(bs)
    decreases |bs|
  {
    if |bs| > 0 {
      var n := |bs| - 1;
      KnownOnlyKeeps(h, bs[..n]);
      assert bs == bs[..n] + [bs[n]];
      forall i | 0 <= i < |bs| && KnownScene(h, bs[i]) ensures bs[i] in KnownOnly(h, bs) {
        if i < n {
          assert bs[..n][i] == bs[i];
        }
      }
    }
  }

  /** The filter drops nothing exactly when every record is known. */
  lemma {:induction false} KnownOnlyAll(h: Host, bs: seq<Bench>)
    ensures |KnownOnly(h, bs)| == |bs| <==> forall i :: 0 <= i < |bs| ==> KnownScene(h, bs[i])
    decreases |bs|
  {
    if |bs| > 0 {
      var n := |bs| - 1;
      KnownOnlyAll(h, bs[..n]);
      if forall i :: 0 <= i < |bs| ==> KnownScene(h, bs[i]) {
        assert forall i :: 0 <= i < n ==> KnownScene(h, bs[..n][i]);
      }
      if |KnownOnly(h, bs)| == |bs| {
        assert KnownScene(h, bs[n]);
        forall i | 0 <= i < |bs| ensures KnownScene(h, bs[i]) {
          if i < n {
            assert bs[..n][i] == bs[i];
          }
        }
      }
    }
  }

  /** `CleanInvalidSceneBenches`: drop the records whose scene the game
      does not know, but only once the scene map is loaded; returns the
      number removed. */
  function CleanInvalidSceneBenches(h: Host, st: Registry): (r: (Registry, int))
    ensures r.1 >= 0
  {
    var bs := st.benches;
    if |bs| == 0 || |h.zones| <= MinSceneMapSize then (st, 0)
    else
      var keep := KnownOnly(h, bs);
      var removed := |bs| - |keep|;
      if removed > 0 then (st.(benches := SortBenches(keep)), removed) else (st, 0)
  }

  /** Until the scene map is loaded the clean-up changes nothing. */
  lemma CleanWaitsForSceneMap(h: Host, st: Registry)
    requires |h.zones| <= 20
    ensures CleanInvalidSceneBenches(h, st) == (st, 0)
  {
  }

  /** With a loaded scene map, the clean-up keeps exactly the known records
      and reports how many went. */
  lemma CleanSpec(h: Host, st: Registry)
    requires |h.zones| > 20
    ensures var (r, removed) := CleanInvalidSceneBenches(h, st);
            && (forall b :: b in r.benches ==> KnownScene(h, b))
            && (forall i :: 0 <= i < |st.benches| && KnownScene(h, st.benches[i]) ==> st.benches[i] in r.benches)
            && multiset(r.benches) <= multiset(st.benches)
            && removed == |st.benches| - |r.benches|
            && r == st.(benches := r.benches)
  {
    var bs := st.benches;
    var keep := KnownOnly(h, bs);
    KnownOnlyKeeps(h, bs);
    if |bs| > 0 && |keep| < |bs| {
      CleanSorted(h, keep);
    } else if |bs| > 0 {
      KnownOnlyAll(h, bs);
    }
  }

  lemma CleanSorted(h: Host, keep: seq<Bench>)
    requires forall b :: b in keep ==> KnownScene(h, b)
    ensures forall b :: b in SortBenches(keep) <==> b in keep
    ensures multiset(SortBenches(keep)) == multiset(keep)
  {
    SortBenchesSpec(keep);
    forall b ensures b in SortBenches(keep) <==> b in keep {
      assert b in SortBenches(keep) <==> b in multiset(SortBenches(keep));
    }
  }

  // ---------------------------------------------------------------------------
  // PruneNearbyDuplicatesInActiveScene
  // ---------------------------------------------------------------------------

  /** A record of the active scene whose position resolves. */
  predicate Positioned(w: World, b: Bench) {
    b.scene == w.active && w.resolvable(b.marker)
  }

  /** Whether `m` lies near one of the kept positions. */
  predicate NearAny(w: World, kept: seq<string>, m: string) {
    exists k :: 0 <= k < |kept| && w.near(kept[k], m)
  }

  /** The scan of `PruneNearbyDuplicatesInActiveScene`: the surviving
      records in order, and the markers of the positioned survivors (the
      kept positions). A positioned record near a kept position is a
      duplicate. */
  function PruneScan(w: World, bs: seq<Bench>): (r: (seq<Bench>, seq<string>))
    decreases |bs|
  {
    if |bs| == 0 then ([], [])
    else
      var n := |bs| - 1;
      var (surv, kept) := PruneScan(w, bs[..n]);
      var b := bs[n];
      if !Positioned(w, b) then (surv + [b], kept)
      else if NearAny(w, kept, b.marker) then (surv, kept)
      else (surv + [b], kept + [b.marker])
  }

  /** No two positioned records, the earlier first, are near. */
  ghost predicate Spread(w: World, s: seq<Bench>) {
    forall i, j :: 0 <= i < j < |s| && Positioned(w, s[i]) && Positioned(w, s[j]) ==> !w.near(s[i].marker, s[j].marker)
  }

  /** The markers of the positioned records, in order. */
  function PositionedMarkers(w: World, s: seq<Bench>): (r: seq<string>)
    decreases |s|
  {
    if |s| == 0 then []
    else
      var n := |s| - 1;
      PositionedMarkers(w, s[..n]) + (if Positioned(w, s[n]) then [s[n].marker] else [])
  }

  lemma {:induction false} PositionedMarkersSpec(w: World, s: seq<Bench>, m: string)
    ensures m in PositionedMarkers(w, s) <==> exists i :: 0 <= i < |s| && Positioned(w, s[i]) && s[i].marker == m
    decreases |s|
  {
    if |s| > 0 {
      var n := |s| - 1;
      PositionedMarkersSpec(w, s[..n], m);
      if exists i :: 0 <= i < n && Positioned(w, s[..n][i]) && s[..n][i].marker == m {
        var i :| 0 <= i < n && Positioned(w, s[..n][i]) && s[..n][i].marker == m;
        assert s[i] == s[..n][i];
      }
      if exists i :: 0 <= i < |s| && Positioned(w, s[i]) && s[i].marker == m {
        var i :| 0 <= i < |s| && Positioned(w, s[i]) && s[i].marker == m;
        if i < n {
          assert s[..n][i] == s[i];
        }
      }
    }
  }

  /** The scan keeps every record that is not positioned, keeps the
      positioned survivors pairwise apart, drops only records near a
      positioned survivor, and adds nothing. */
  lemma PruneScanSpec(w: World, bs: seq<Bench>)
    ensures var (surv, kept) := PruneScan(w, bs);
            && kept == PositionedMarkers(w, surv)
            && (forall i :: 0 <= i < |bs| && !Positioned(w, bs[i]) ==> bs[i] in surv)
            && Spread(w, surv)
            && multiset(surv) <= multiset(bs)
            && (forall i :: 0 <= i < |bs| && bs[i] !in surv ==>
                  Positioned(w, bs[i]) && exists j :: 0 <= j < |surv| && Positioned(w, surv[j]) && w.near(surv[j].marker, bs[i].marker))
  {
    PruneScanShape(w, bs);
    PruneScanKeepsUnpositioned(w, bs);
    PruneScanSpreads(w, bs);
    PruneScanDropsOnlyNear(w, bs);
  }

  lemma PruneScanShape(w: World, bs: seq<Bench>)
    ensures var (surv, kept) := PruneScan(w, bs);
            kept == PositionedMarkers(w, surv) && multiset(surv) <= multiset(bs)
  {
    PruneScanKept(w, bs);
    PruneScanSub(w, bs);
  }

  /** The kept markers are the positioned survivors' markers. */
  lemma {:induction false} PruneScanKept(w: World, bs: seq<Bench>)
    ensures PruneScan(w, bs).1 == PositionedMarkers(w, PruneScan(w, bs).0)
    decreases |bs|
  {
    if |bs| > 0 {
      var n := |bs| - 1;
      PruneScanKept(w, bs[..n]);
      var surv0 := PruneScan(w, bs[..n]).0;
      var surv := PruneScan(w, bs).0;
      if surv != surv0 {
        assert (surv0 + [bs[n]])[..|surv0|] == surv0;
      }
    }
  }

  /** The survivors are drawn from the input. */
  lemma {:induction false} PruneScanSub(w: World, bs: seq<Bench>)
    ensures multiset(PruneScan(w, bs).0) <= multiset(bs)
    decreases |bs|
  {
    if |bs| > 0 {
      var n := |bs| - 1;
      PruneScanSub(w, bs[..n]);
      assert bs == bs[..n] + [bs[n]];
    }
  }

  lemma {:induction false} PruneScanKeepsUnpositioned(w: World, bs: seq<Bench>)
    ensures forall i :: 0 <= i < |bs| && !Positioned(w, bs[i]) ==> bs[i] in PruneScan(w, bs).0
    decreases |bs|
  {
    if |bs| > 0 {
      var n := |bs| - 1;
      PruneScanKeepsUnpositioned(w, bs[..n]);
      var surv0 := PruneScan(w, bs[..n]).0;
      var surv := PruneScan(w, bs).0;
      assert forall x :: x in surv0 ==> x in surv;
      forall i | 0 <= i < |bs| && !Positioned(w, bs[i]) ensures bs[i] in surv {
        if i < n {
          assert bs[..n][i] == bs[i];
        }
      }
    }
  }

  lemma {:induction false} PruneScanSpreads(w: World, bs: seq<Bench>)
    ensures Spread(w, PruneScan(w, bs).0)
    decreases |bs|
  {
    if |bs| > 0 {
      var n := |bs| - 1;
      PruneScanSpreads(w, bs[..n]);
      PruneScanKept(w, bs[..n]);
      var (surv0, kept0) := PruneScan(w, bs[..n]);
      var b := bs[n];
      var surv := PruneScan(w, bs).0;
      if surv != surv0 {
        assert surv == surv0 + [b];
        if Positioned(w, b) {
          forall i | 0 <= i < |surv0| && Positioned(w, surv0[i]) ensures !w.near(surv0[i].marker, b.marker) {
            var p := PositionedMarkersIndex(w, surv0, i);
            assert kept0[p] == surv0[i].marker;
          }
        }
        forall i, j | 0 <= i < j < |surv| && Positioned(w, surv[i]) && Positioned(w, surv[j])
          ensures !w.near(surv[i].marker, surv[j].marker)
        {
          if j < |surv0| {
            assert surv[i] == surv0[i] && surv[j] == surv0[j];
          } else {
            assert surv[i] == surv0[i];
          }
        }
      }
    }
  }

  /** Some positioned record of `surv` lies near marker `m`. */
  predicate NearSurvivor(w: World, surv: seq<Bench>, m: string) {
    exists j :: 0 <= j < |surv| && Positioned(w, surv[j]) && w.near(surv[j].marker, m)
  }

  lemma NearSurvivorGrows(w: World, surv0: seq<Bench>, surv: seq<Bench>, m: string)
    requires |surv0| <= |surv| && surv[..|surv0|] == surv0
    requires NearSurvivor(w, surv0, m)
    ensures NearSurvivor(w, surv, m)
  {
    var j :| 0 <= j < |surv0| && Positioned(w, surv0[j]) && w.near(surv0[j].marker, m);
    assert surv[j] == surv0[j];
  }

  lemma {:induction false} PruneScanDropsOnlyNear(w: World, bs: seq<Bench>)
    ensures var surv := PruneScan(w, bs).0;
            forall i :: 0 <= i < |bs| && bs[i] !in surv ==> Positioned(w, bs[i]) && NearSurvivor(w, surv, bs[i].marker)
    decreases |bs|
  {
    if |bs| > 0 {
      var n := |bs| - 1;
      PruneScanDropsOnlyNear(w, bs[..n]);
      PruneScanKept(w, bs[..n]);
      var (surv0, kept0) := PruneScan(w, bs[..n]);
      var b := bs[n];
      var surv := PruneScan(w, bs).0;
      var dropped := Positioned(w, b) && NearAny(w, kept0, b.marker);
      assert surv == if dropped then surv0 else surv0 + [b];
      assert surv[..|surv0|] == surv0;
      assert forall x :: x in surv0 ==> x in surv;
      if dropped {
        NearKeptWitness(w, surv0, kept0, b.marker);
      }
      forall i | 0 <= i < |bs| && bs[i] !in surv
        ensures Positioned(w, bs[i]) && NearSurvivor(w, surv, bs[i].marker)
      {
        if i < n {
          assert bs[..n][i] == bs[i];
          NearSurvivorGrows(w, surv0, surv, bs[i].marker);
        }
      }
    }
  }

  /** A marker near a kept marker is near a positioned survivor. */
  lemma NearKeptWitness(w: World, surv: seq<Bench>, kept: seq<string>, m: string)
    requires kept == PositionedMarkers(w, surv) && NearAny(w, kept, m)
    ensures NearSurvivor(w, surv, m)
  {
    var k :| 0 <= k < |kept| && w.near(kept[k], m);
    assert kept[k] in PositionedMarkers(w, surv);
    PositionedMarkersSpec(w, surv, kept[k]);
  }

  /** Where a positioned record's marker sits among the kept markers. */
  lemma {:induction false} PositionedMarkersIndex(w: World, s: seq<Bench>, i: nat) returns (p: nat)
    requires i < |s| && Positioned(w, s[i])
    ensures p < |PositionedMarkers(w, s)| && PositionedMarkers(w, s)[p] == s[i].marker
    decreases |s|
  {
    var n := |s| - 1;
    if i == n {
      p := |PositionedMarkers(w, s[..n])|;
    } else {
      assert s[..n][i] == s[i];
      p := PositionedMarkersIndex(w, s[..n], i);
    }
  }

  /** A list already spread out survives a scan whole: pruning twice in a
      row removes nothing the second time. */
  lemma {:induction false} PruneScanSpread(w: World, s: seq<Bench>)
    requires Spread(w, s)
    ensures PruneScan(w, s) == (s, PositionedMarkers(w, s))
    decreases |s|
  {
    if |s| > 0 {
      var n := |s| - 1;
      var init := s[..n];
      SpreadPrefix(w, s);
      PruneScanSpread(w, init);
      var kept := PositionedMarkers(w, init);
      assert init + [s[n]] == s;
      if Positioned(w, s[n]) {
        SpreadLastNotNear(w, s);
        assert PruneScan(w, s) == (init + [s[n]], kept + [s[n].marker]);
      } else {
        assert kept + [] == kept;
        assert PruneScan(w, s) == (init + [s[n]], kept);
      }
    }
  }

  lemma SpreadPrefix(w: World, s: seq<Bench>)
    requires Spread(w, s) && |s| > 0
    ensures Spread(w, s[..|s| - 1])
  {
    var init := s[..|s| - 1];
    forall i, j | 0 <= i < j < |init| && Positioned(w, init[i]) && Positioned(w, init[j])
      ensures !w.near(init[i].marker, init[j].marker)
    {
      assert init[i] == s[i] && init[j] == s[j];
    }
  }

  /** In a spread list the last positioned record is near no earlier kept
      marker. */
  lemma SpreadLastNotNear(w: World, s: seq<Bench>)
    requires Spread(w, s) && |s| > 0 && Positioned(w, s[|s| - 1])
    ensures !NearAny(w, PositionedMarkers(w, s[..|s| - 1]), s[|s| - 1].marker)
  {
    var n := |s| - 1;
    var kept := PositionedMarkers(w, s[..n]);
    forall k | 0 <= k < |kept| ensures !w.near(kept[k], s[n].marker) {
      PositionedMarkersSpec(w, s[..n], kept[k]);
      var i :| 0 <= i < n && Positioned(w, s[..n][i]) && s[..n][i].marker == kept[k];
      assert s[i] == s[..n][i];
    }
  }

  /** `PruneNearbyDuplicatesInActiveScene`: with more than one record, drop
      the duplicates the scan finds; when any went, clamp the selection and
      re-sort. */
  function PruneNearbyDuplicates(w: World, st: Registry): (r: Registry)
    ensures |st.benches| <= 1 ==> r == st
  {
    var bs := st.benches;
    if |bs| <= 1 then st
    else
      var surv := PruneScan(w, bs).0;
      if |surv| < |bs| then
        st.(benches := SortBenches(surv), cursor := st.cursor.(selected := Clamp(st.cursor.selected, 0, |surv| - 1)))
      else st
  }

  /** After the prune no two positioned records of the survivors' scan
      order are near, every record outside the active scene or without a
      position is still there, and every record that went was near a
      positioned survivor. */
  lemma PruneSpec(w: World, st: Registry)
    requires |st.benches| > 1
    ensures var r := PruneNearbyDuplicates(w, st);
            var surv := PruneScan(w, st.benches).0;
            && Spread(w, surv)
            && multiset(r.benches) == multiset(surv)
            && (forall i :: 0 <= i < |st.benches| && !Positioned(w, st.benches[i]) ==> st.benches[i] in r.benches)
            && (forall i :: 0 <= i < |st.benches| && st.benches[i] !in r.benches ==>
                  Positioned(w, st.benches[i]) &&
                  exists j :: 0 <= j < |surv| && Positioned(w, surv[j]) && w.near(surv[j].marker, st.benches[i].marker))
  {
    var bs := st.benches;
    var r := PruneNearbyDuplicates(w, st);
    var surv := PruneScan(w, bs).0;
    PruneScanSpec(w, bs);
    PruneKeepsSurvivors(w, st);
    forall i | 0 <= i < |bs| && !Positioned(w, bs[i]) ensures bs[i] in r.benches {
      assert bs[i] in surv;
    }
    forall i | 0 <= i < |bs| && bs[i] !in r.benches
      ensures Positioned(w, bs[i]) &&
              exists j :: 0 <= j < |surv| && Positioned(w, surv[j]) && w.near(surv[j].marker, bs[i].marker)
    {
      assert bs[i] !in surv;
    }
  }

  /** The pruned list holds exactly the survivors of the scan. */
  lemma PruneKeepsSurvivors(w: World, st: Registry)
    requires |st.benches| > 1
    ensures var r := PruneNearbyDuplicates(w, st);
            var surv := PruneScan(w, st.benches).0;
            multiset(r.benches) == multiset(surv) && forall x :: x in r.benches <==> x in surv
  {
    var bs := st.benches;
    var surv := PruneScan(w, bs).0;
    PruneScanSub(w, bs);
    if |surv| < |bs| {
      SortBenchesSpec(surv);
      forall x ensures x in SortBenches(surv) <==> x in surv {
        assert x in SortBenches(surv) <==> x in multiset(SortBenches(surv));
      }
    } else {
      assert |multiset(surv)| == |surv| && |multiset(bs)| == |bs|;
      assert |surv| <= |bs| by {
        MultisetSizeMono(multiset(surv), multiset(bs));
      }
      SubMultisetSameSize(multiset(surv), multiset(bs));
      forall x ensures x in bs <==> x in surv {
        assert x in bs <==> x in multiset(bs);
      }
    }
  }

  /** A sub-multiset of the same size is the whole. */
  lemma SubMultisetSameSize<T>(a: multiset<T>, b: multiset<T>)
    requires a <= b && |a| == |b|
    ensures a == b
  {
    var d := b - a;
    assert b == a + d;
    assert |d| == 0;
  }

  lemma MultisetSizeMono<T>(a: multiset<T>, b: multiset<T>)
    requires a <= b
    ensures |a| <= |b|
  {
    var d := b - a;
    assert b == a + d;
  }
}
