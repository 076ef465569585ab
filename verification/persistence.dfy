/** The stored bench list (`LoadPersistedBenches`, `SavePersistedBenches`):
    records separated by `;`, fields separated by `|`, in the order
    scene | marker | name | parent | renamed | added order | favourite |
    favourite order. Older stores lack some trailing fields, and the oldest
    lack the parent field; the loader fills in what is missing. */
module Persistence {
  import opened Wrappers
  import opened Text
  import opened Zones
  import opened Benches
  import opened Categories
  import Sorting
  import Registry

  /** The store written when the setting is empty: the tutorial bench. */
  const DefaultScene: string := "Tut_01"
  const DefaultMarker: string := "Death Respawn Marker Init"
  const DefaultRecords: string := DefaultScene + "|" + DefaultMarker

  /** The number of fields `SavePersistedBenches` writes per record. */
  const FieldCount: nat := 8

  function Max(a: int, b: int): (r: int)
    ensures r >= a && r >= b && (r == a || r == b)
  {
    if a >= b then a else b
  }

  // ---------------------------------------------------------------------------
  // Flags
  // ---------------------------------------------------------------------------

  /** A field that reads as `true`: `1`, or `true` in any case. */
  predicate FlagTrue(s: string) {
    s == "1" || EqualsIgnoreCase(s, "true")
  }

  /** A field that reads as `false`: `0`, or `false` in any case. */
  predicate FlagFalse(s: string) {
    s == "0" || EqualsIgnoreCase(s, "false")
  }

  /** The loader's test for "field 3 is a flag, not a parent". */
  predicate LooksBool(s: string) {
    FlagTrue(s) || FlagFalse(s)
  }

  /** How the saver writes a flag; it reads back as the same flag. */
  function FlagText(v: bool): (r: string)
    ensures FlagTrue(r) == v && FlagFalse(r) == !v
  {
    var r := if v then "1" else "0";
    assert |LowerStr(r)| == 1;
    r
  }

  /** A written flag also reads as the number 1 or 0. */
  lemma FlagTextNumber(v: bool)
    ensures ParseInt32(FlagText(v)) == Some(if v then 1 else 0)
  {
    var s := FlagText(v);
    assert s == [DigitChar(if v then 1 else 0)];
    assert DigitsValue(s) == if v then 1 else 0 by {
      assert s[..0] == [];
    }
    ParseDigits(s);
  }

  /** A written number reads as a true flag only when it is 1. */
  lemma NumberFlag(n: int)
    ensures FlagTrue(IntToString(n)) <==> n == 1
  {
    var s := IntToString(n);
    assert s[0] == '-' || IsDigit(s[0]);
    assert LowerStr(s)[0] == Lower(s[0]);
    assert LowerStr("true")[0] == 't';
    if n == 1 {
      assert s == [DigitChar(1)];
    } else {
      assert s != "1" by {
        if n >= 0 {
          assert DigitsValue(s) == n;
          assert DigitsValue("1") == 1;
        }
      }
    }
  }

  // ---------------------------------------------------------------------------
  // Reading one record
  // ---------------------------------------------------------------------------

  /** The running state of the loader: the records read so far, the largest
      added order seen (`orderCounter`), the favourite-order counter, and
      whether anything was repaired so that the store must be rewritten. */
  datatype Loaded = Loaded(benches: seq<Bench>, orderCounter: int, favoriteCounter: int, migrated: bool)

  /** Which way the parent field is located. `AsWritten` is the plugin's
      rule; `Intended` also accepts a flag-like parent in a full record. */
  datatype Reader = AsWritten | Intended

  /** The plugin's rule: field 3 is the parent unless it looks like a flag,
      in which case the record has no parent and the flags start at 3. */
  function ParentSlotAsWritten(parts: seq<string>): (r: (string, nat))
    ensures r.1 == 3 || r.1 == 4
    ensures r.1 == 4 <==> |parts| >= 4 && !LooksBool(parts[3])
  {
    if |parts| >= 4 && !LooksBool(parts[3]) then (Trim(parts[3]), 4) else ("", 3)
  }

  /** The corrected rule: a record with all eight fields always has its
      parent in field 3, whatever that field says. */
  function ParentSlot(parts: seq<string>): (r: (string, nat))
    ensures r.1 == 3 || r.1 == 4
    ensures |parts| >= FieldCount ==> r == (Trim(parts[3]), 4)
    ensures |parts| < FieldCount ==> r == ParentSlotAsWritten(parts)
  {
    if |parts| >= FieldCount || (|parts| >= 4 && !LooksBool(parts[3])) then (Trim(parts[3]), 4) else ("", 3)
  }

  function Slot(reader: Reader, parts: seq<string>): (r: (string, nat)) {
    match reader
    case AsWritten => ParentSlotAsWritten(parts)
    case Intended => ParentSlot(parts)
  }

  /** Whether the record's scene and marker admit it: both non-empty and,
      once the scene map is complete, a scene the game knows. */
  predicate Admitted(h: Host, parts: seq<string>) {
    |parts| >= 2 && |parts[0]| > 0 && |parts[1]| > 0 &&
    (|h.zones| > Registry.MinSceneMapSize ==> parts[0] in h.zones)
  }

  /** The name of an admitted record: field 2, or a generated one. */
  function RecordName(h: Host, bs: seq<Bench>, parts: seq<string>): string
    requires |parts| >= 1
  {
    if |parts| >= 3 then parts[2] else Registry.ProvisionalName(h, bs, parts[0])
  }

  /** The parent of a record: the located parent field, else the scene's
      zone key, else none. */
  function RecordParent(h: Host, scene: string, located: string): string {
    if |located| > 0 then located else h.ZoneKey(scene).GetOr("")
  }

  /** The renamed flag at `idx`; a missing or unreadable flag is decided by
      the default-name test. */
  function RenamedFlag(h: Host, renames: RenameMap, scene: string, name: string, parts: seq<string>, idx: nat): bool {
    if |parts| > idx && FlagTrue(parts[idx]) then true
    else if |parts| > idx && FlagFalse(parts[idx]) then false
    else !LooksDefault(h, renames, scene, name)
  }

  /** The added order at `idx + 1`, if present and a 32-bit integer. */
  function OrderField(parts: seq<string>, idx: nat): (r: Option<int>)
    ensures r.Some? ==> IsInt32(r.value)
  {
    if |parts| > idx + 1 then ParseInt32(parts[idx + 1]) else None
  }

  /** The favourite order at `idx + 3`, if present and a 32-bit integer. */
  function FavoriteOrderField(parts: seq<string>, idx: nat): Option<int> {
    if |parts| > idx + 3 then ParseInt32(parts[idx + 3]) else None
  }

  /** A stored added order is kept; a missing one takes the next counter
      value. */
  function AddedOrder(order: Option<int>, counter: int): (r: int)
    requires IsInt32(counter)
  {
    if order.Some? then order.value else Inc32(counter)
  }

  /** The counter after a record: raised to a stored order, or advanced to
      the value given to a record without one. */
  function NextOrderCounter(order: Option<int>, counter: int): (r: int)
    requires IsInt32(counter) && (order.Some? ==> IsInt32(order.value))
    ensures IsInt32(r)
  {
    if order.Some? then Max(counter, order.value) else Inc32(counter)
  }

  function NextFavoriteCounter(favOrder: Option<int>, counter: int): int {
    if favOrder.Some? then Max(counter, favOrder.value) else counter
  }

  /** The favourite flag at `idx + 2`; a missing field means "no". */
  predicate FavoriteFlag(parts: seq<string>, idx: nat) {
    |parts| > idx + 2 && FlagTrue(parts[idx + 2])
  }

  /** A record that lacks its renamed flag or a readable added order makes
      the loader rewrite the store. */
  predicate Repaired(parts: seq<string>, idx: nat) {
    |parts| <= idx || OrderField(parts, idx).None?
  }

  /** The bench read from an admitted record whose parent slot is `slot`. */
  function RecordBench(h: Host, renames: RenameMap, acc: Loaded, parts: seq<string>, slot: (string, nat)): (r: Bench)
    requires |parts| >= 2 && IsInt32(acc.orderCounter)
    ensures r.scene == parts[0] && r.marker == parts[1]
    ensures |parts| >= 3 ==> r.displayName == parts[2]
  {
    var name := RecordName(h, acc.benches, parts);
    Bench(parts[0], parts[1], name, RecordParent(h, parts[0], slot.0),
          RenamedFlag(h, renames, parts[0], name, parts, slot.1),
          AddedOrder(OrderField(parts, slot.1), acc.orderCounter),
          FavoriteFlag(parts, slot.1), FavoriteOrderField(parts, slot.1).GetOr(0))
  }

  /** One record of `LoadPersistedBenches`, its fields already split on `|`
      and its parent slot already located. A record whose scene or marker is
      missing, or whose scene is unknown once the scene map is complete, is
      dropped and the store rewritten. */
  function ReadRecord(h: Host, renames: RenameMap, acc: Loaded, parts: seq<string>, slot: (string, nat)): (r: Loaded)
    requires |parts| >= 1 && IsInt32(acc.orderCounter)
    ensures IsInt32(r.orderCounter)
    ensures acc.migrated ==> r.migrated
    ensures !Admitted(h, parts) ==> r == acc.(migrated := true)
    ensures Admitted(h, parts) ==>
      |r.benches| == |acc.benches| + 1 && r.benches[..|acc.benches|] == acc.benches &&
      r.benches[|acc.benches|].scene == parts[0] && r.benches[|acc.benches|].marker == parts[1] &&
      (|parts| >= 3 ==> r.benches[|acc.benches|].displayName == parts[2])
  {
    if !Admitted(h, parts) then acc.(migrated := true)
    else
      Loaded(acc.benches + [RecordBench(h, renames, acc, parts, slot)],
             NextOrderCounter(OrderField(parts, slot.1), acc.orderCounter),
             NextFavoriteCounter(FavoriteOrderField(parts, slot.1), acc.favoriteCounter),
             acc.migrated || Repaired(parts, slot.1))
  }

  /** The loop of `LoadPersistedBenches` over the `;`-separated records. */
  function LoadRecords(h: Host, renames: RenameMap, reader: Reader, acc: Loaded, toks: seq<string>): (r: Loaded)
    requires IsInt32(acc.orderCounter)
    ensures IsInt32(r.orderCounter)
    decreases |toks|
  {
    if |toks| == 0 then acc
    else
      var parts := Split(toks[0], '|');
      LoadRecords(h, renames, reader, ReadRecord(h, renames, acc, parts, Slot(reader, parts)), toks[1..])
  }

  /** What loading produces: the sorted bench list, the new values of the
      added-order and favourite-order counters, and whether the store is
      rewritten. */
  datatype LoadResult = LoadResult(benches: seq<Bench>, addedCounter: int, favoriteCounter: int, save: bool)

  /** The records of a store: its non-empty `;`-separated pieces, with an
      empty store standing for `DefaultRecords`. */
  function StoredRecords(raw: string): seq<string> {
    SplitNonEmpty(if |raw| == 0 then DefaultRecords else raw, ';')
  }

  /** `LoadPersistedBenches`. `favoriteCounter` is the counter's value
      before loading (the plugin only ever raises it here). Every loaded
      bench has a scene and a marker, and a known scene once the scene map
      is complete; the list is in comparer order; an empty store is always
      rewritten. */
  function LoadBenches(h: Host, renames: RenameMap, reader: Reader, raw: string, favoriteCounter: int): (r: LoadResult)
    ensures Sorting.Sorted(r.benches, BenchCompare)
    ensures AllAdmitted(h, r.benches)
    ensures |raw| == 0 ==> r.save
  {
    var start := Loaded([], 0, favoriteCounter, false);
    var l := LoadRecords(h, renames, reader, start, StoredRecords(raw));
    LoadRecordsAdmitted(h, renames, reader, start, StoredRecords(raw));
    SortedAdmitted(h, l.benches);
    LoadResult(SortBenches(l.benches), l.orderCounter, l.favoriteCounter, l.migrated || |raw| == 0)
  }

  /** A bench that comes out of the loader has a scene and a marker, and a
      known scene once the scene map is complete. */
  predicate AdmittedBench(h: Host, b: Bench) {
    |b.scene| > 0 && |b.marker| > 0 &&
    (|h.zones| > Registry.MinSceneMapSize ==> b.scene in h.zones)
  }

  predicate AllAdmitted(h: Host, bs: seq<Bench>) {
    forall i :: 0 <= i < |bs| ==> AdmittedBench(h, bs[i])
  }

  lemma SortedAdmitted(h: Host, bs: seq<Bench>)
    requires AllAdmitted(h, bs)
    ensures AllAdmitted(h, SortBenches(bs)) && Sorting.Sorted(SortBenches(bs), BenchCompare)
  {
    SortBenchesSpec(bs);
    var sorted := SortBenches(bs);
    forall i | 0 <= i < |sorted| ensures AdmittedBench(h, sorted[i]) {
      assert sorted[i] in multiset(bs);
    }
  }

  lemma ReadAdmitted(h: Host, renames: RenameMap, acc: Loaded, parts: seq<string>, slot: (string, nat))
    requires |parts| >= 1 && IsInt32(acc.orderCounter)
    requires AllAdmitted(h, acc.benches)
    ensures AllAdmitted(h, ReadRecord(h, renames, acc, parts, slot).benches)
  {
    var next := ReadRecord(h, renames, acc, parts, slot);
    if Admitted(h, parts) {
      forall i | 0 <= i < |next.benches| ensures AdmittedBench(h, next.benches[i]) {
        if i < |acc.benches| {
          assert next.benches[i] == next.benches[..|acc.benches|][i];
        }
      }
    }
  }

  lemma {:induction false} LoadRecordsAdmitted(h: Host, renames: RenameMap, reader: Reader, acc: Loaded, toks: seq<string>)
    requires IsInt32(acc.orderCounter)
    requires AllAdmitted(h, acc.benches)
    ensures AllAdmitted(h, LoadRecords(h, renames, reader, acc, toks).benches)
    decreases |toks|
  {
    if |toks| > 0 {
      var parts := Split(toks[0], '|');
      ReadAdmitted(h, renames, acc, parts, Slot(reader, parts));
      LoadRecordsAdmitted(h, renames, reader, ReadRecord(h, renames, acc, parts, Slot(reader, parts)), toks[1..]);
    }
  }

  // ---------------------------------------------------------------------------
  // Writing
  // ---------------------------------------------------------------------------

  /** The parent the saver writes: the stored one, else the scene's zone
      key, else nothing. */
  function SavedParent(h: Host, b: Bench): string {
    if |b.parent| > 0 then b.parent else h.ZoneKey(b.scene).GetOr("")
  }

  /** The eight fields `SavePersistedBenches` writes for a bench. */
  function Fields(h: Host, b: Bench): (r: seq<string>)
    ensures |r| == FieldCount
    ensures r[0] == b.scene && r[1] == b.marker && r[2] == b.displayName && r[3] == SavedParent(h, b)
    ensures r[4] == FlagText(b.isRenamed) && r[5] == IntToString(b.addedOrder)
    ensures r[6] == FlagText(b.isFavorite) && r[7] == IntToString(b.favoriteOrder)
  {
    [b.scene, b.marker, b.displayName, SavedParent(h, b), FlagText(b.isRenamed),
     IntToString(b.addedOrder), FlagText(b.isFavorite), IntToString(b.favoriteOrder)]
  }

  function RecordText(h: Host, b: Bench): (r: string)
    ensures |r| > 0
  {
    JoinEmpty(Fields(h, b), '|');
    Join(Fields(h, b), '|')
  }

  function RecordTexts(h: Host, bs: seq<Bench>): (r: seq<string>)
    ensures |r| == |bs|
    ensures forall i :: 0 <= i < |bs| ==> r[i] == RecordText(h, bs[i])
  {
    seq(|bs|, i requires 0 <= i < |bs| => RecordText(h, bs[i]))
  }

  lemma RecordsNonEmpty(h: Host, bs: seq<Bench>)
    ensures |bs| > 0 ==> RecordTexts(h, bs)[0] != ""
  {
  }

  /** `SavePersistedBenches`. Only an empty list is stored as the empty
      string. */
  function SaveBenches(h: Host, bs: seq<Bench>): (r: string)
    ensures r == "" <==> |bs| == 0
  {
    var toks := RecordTexts(h, bs);
    RecordsNonEmpty(h, bs);
    JoinEmpty(toks, ';');
    Join(toks, ';')
  }

  // ---------------------------------------------------------------------------
  // Round trip
  // ---------------------------------------------------------------------------

  /** Free of both separators. */
  predicate Clean(s: string) {
    '|' !in s && ';' !in s
  }

  /** A bench the store can carry unchanged: scene and marker present (and
      known once the scene map is complete), no separator in any text
      field, a non-empty untrimmed-safe parent, and 32-bit orders. */
  predicate Storable(h: Host, b: Bench) {
    AdmittedBench(h, b) &&
    Clean(b.scene) && Clean(b.marker) && Clean(b.displayName) && Clean(b.parent) &&
    |b.parent| > 0 && NoWhiteEnds(b.parent) &&
    IsInt32(b.addedOrder) && IsInt32(b.favoriteOrder)
  }

  lemma DigitsClean(n: int)
    ensures Clean(IntToString(n))
  {
    var s := IntToString(n);
    if n < 0 {
      assert s == "-" + NatToString(-n);
      assert forall i :: 1 <= i < |s| ==> s[i] == NatToString(-n)[i - 1];
    }
  }

  lemma FlagClean(v: bool)
    ensures Clean(FlagText(v))
  {
  }

  lemma FieldsClean(h: Host, b: Bench)
    requires Storable(h, b)
    ensures NoneContains(Fields(h, b), '|') && NoneContains(Fields(h, b), ';')
  {
    var f := Fields(h, b);
    DigitsClean(b.addedOrder);
    DigitsClean(b.favoriteOrder);
    FlagClean(b.isRenamed);
    FlagClean(b.isFavorite);
    assert f[3] == b.parent;
    forall i | 0 <= i < |f| ensures Clean(f[i]) {
    }
  }

  /** A stored record splits back into its eight fields and holds no `;`. */
  lemma RecordSplits(h: Host, b: Bench)
    requires Storable(h, b)
    ensures Split(RecordText(h, b), '|') == Fields(h, b)
    ensures ';' !in RecordText(h, b)
  {
    FieldsClean(h, b);
    SplitJoin(Fields(h, b), '|');
    JoinKeepsOut(Fields(h, b), '|', ';');
  }

  /** The larger of `c` and every added order in `bs`. */
  function MaxAddedOrder(c: int, bs: seq<Bench>): (r: int)
    ensures r >= c
    ensures forall i :: 0 <= i < |bs| ==> r >= bs[i].addedOrder
    ensures r == c || exists i :: 0 <= i < |bs| && r == bs[i].addedOrder
    decreases |bs|
  {
    if |bs| == 0 then c else MaxAddedOrder(Max(c, bs[0].addedOrder), bs[1..])
  }

  /** The larger of `c` and every favourite order in `bs`. */
  function MaxFavoriteOrder(c: int, bs: seq<Bench>): (r: int)
    ensures r >= c
    ensures forall i :: 0 <= i < |bs| ==> r >= bs[i].favoriteOrder
    ensures r == c || exists i :: 0 <= i < |bs| && r == bs[i].favoriteOrder
    decreases |bs|
  {
    if |bs| == 0 then c else MaxFavoriteOrder(Max(c, bs[0].favoriteOrder), bs[1..])
  }

  /** The flag and order fields of a stored record read back as written
      when the flags start at `idx` 4. */
  lemma StoredFieldsRead(h: Host, renames: RenameMap, b: Bench)
    requires Storable(h, b)
    ensures RenamedFlag(h, renames, b.scene, b.displayName, Fields(h, b), 4) == b.isRenamed
    ensures OrderField(Fields(h, b), 4) == Some(b.addedOrder)
    ensures FavoriteFlag(Fields(h, b), 4) == b.isFavorite
    ensures FavoriteOrderField(Fields(h, b), 4) == Some(b.favoriteOrder)
  {
    ParseIntToString(b.addedOrder);
    ParseIntToString(b.favoriteOrder);
  }

  /** The parent field of a stored record is located at field 3. */
  lemma StoredParentSlot(h: Host, reader: Reader, b: Bench)
    requires Storable(h, b)
    requires reader == Intended || !LooksBool(b.parent)
    ensures Slot(reader, Fields(h, b)) == (b.parent, 4)
  {
    assert Fields(h, b)[3] == b.parent;
  }

  /** A stored record is read back as the very bench that was written, and
      the counters take its orders into account. */
  lemma ReadStored(h: Host, renames: RenameMap, reader: Reader, acc: Loaded, b: Bench)
    requires Storable(h, b) && IsInt32(acc.orderCounter)
    requires reader == Intended || !LooksBool(b.parent)
    ensures ReadRecord(h, renames, acc, Fields(h, b), Slot(reader, Fields(h, b))) ==
      Loaded(acc.benches + [b], Max(acc.orderCounter, b.addedOrder), Max(acc.favoriteCounter, b.favoriteOrder), acc.migrated)
  {
    var parts := Fields(h, b);
    StoredParentSlot(h, reader, b);
    StoredFieldsRead(h, renames, b);
    assert RecordName(h, acc.benches, parts) == b.displayName;
    assert RecordBench(h, renames, acc, parts, (b.parent, 4)) == b;
    assert Admitted(h, parts);
    assert !Repaired(parts, 4);
  }

  /** Record texts that split into the fields of `bs`, one by one. */
  predicate SplitsTo(h: Host, toks: seq<string>, bs: seq<Bench>) {
    |toks| == |bs| && forall i :: 0 <= i < |toks| ==> Split(toks[i], '|') == Fields(h, bs[i])
  }

  lemma SavedSplits(h: Host, bs: seq<Bench>)
    requires forall i :: 0 <= i < |bs| ==> Storable(h, bs[i])
    ensures SplitsTo(h, RecordTexts(h, bs), bs)
  {
    forall i | 0 <= i < |bs| ensures Split(RecordTexts(h, bs)[i], '|') == Fields(h, bs[i]) {
      RecordSplits(h, bs[i]);
    }
  }

  /** Loading the records of `bs` reads the first one and goes on with the
      rest. */
  lemma LoadStoredStep(h: Host, renames: RenameMap, reader: Reader, acc: Loaded, toks: seq<string>, bs: seq<Bench>)
    requires IsInt32(acc.orderCounter) && |bs| > 0 && SplitsTo(h, toks, bs)
    requires Storable(h, bs[0]) && (reader == Intended || !LooksBool(bs[0].parent))
    ensures SplitsTo(h, toks[1..], bs[1..])
    ensures LoadRecords(h, renames, reader, acc, toks) ==
      LoadRecords(h, renames, reader,
        Loaded(acc.benches + [bs[0]], Max(acc.orderCounter, bs[0].addedOrder), Max(acc.favoriteCounter, bs[0].favoriteOrder), acc.migrated),
        toks[1..])
  {
    assert Split(toks[0], '|') == Fields(h, bs[0]);
    ReadStored(h, renames, reader, acc, bs[0]);
    forall i | 0 <= i < |toks| - 1 ensures Split(toks[1..][i], '|') == Fields(h, bs[1..][i]) {
      assert toks[1..][i] == toks[i + 1] && bs[1..][i] == bs[i + 1];
    }
  }

  lemma {:induction false} LoadStored(h: Host, renames: RenameMap, reader: Reader, acc: Loaded, toks: seq<string>, bs: seq<Bench>)
    requires IsInt32(acc.orderCounter) && SplitsTo(h, toks, bs)
    requires forall i :: 0 <= i < |bs| ==> Storable(h, bs[i])
    requires reader == Intended || forall i :: 0 <= i < |bs| ==> !LooksBool(bs[i].parent)
    ensures LoadRecords(h, renames, reader, acc, toks) ==
      Loaded(acc.benches + bs, MaxAddedOrder(acc.orderCounter, bs), MaxFavoriteOrder(acc.favoriteCounter, bs), acc.migrated)
    decreases |bs|
  {
    if |bs| == 0 {
      assert acc.benches + bs == acc.benches;
    } else {
      var b := bs[0];
      var next := Loaded(acc.benches + [b], Max(acc.orderCounter, b.addedOrder), Max(acc.favoriteCounter, b.favoriteOrder), acc.migrated);
      LoadStoredStep(h, renames, reader, acc, toks, bs);
      LoadStored(h, renames, reader, next, toks[1..], bs[1..]);
      ShiftHead(acc.benches, bs);
    }
  }

  lemma SavedTokens(h: Host, bs: seq<Bench>)
    requires |bs| > 0
    requires forall i :: 0 <= i < |bs| ==> Storable(h, bs[i])
    ensures SplitNonEmpty(SaveBenches(h, bs), ';') == RecordTexts(h, bs)
  {
    var toks := RecordTexts(h, bs);
    forall i | 0 <= i < |toks| ensures ';' !in toks[i] && |toks[i]| > 0 {
      RecordSplits(h, bs[i]);
    }
    SplitNonEmptyJoin(toks, ';');
  }

  /** Loading a non-empty store reads its records in order and sorts them. */
  lemma LoadNonEmpty(h: Host, renames: RenameMap, reader: Reader, raw: string, favoriteCounter: int, toks: seq<string>)
    requires |raw| > 0 && SplitNonEmpty(raw, ';') == toks
    ensures var l := LoadRecords(h, renames, reader, Loaded([], 0, favoriteCounter, false), toks);
      LoadBenches(h, renames, reader, raw, favoriteCounter) ==
      LoadResult(SortBenches(l.benches), l.orderCounter, l.favoriteCounter, l.migrated)
  {
  }

  /** Saving and loading back a list of storable benches. */
  lemma LoadSaved(h: Host, renames: RenameMap, reader: Reader, bs: seq<Bench>, favoriteCounter: int)
    requires |bs| > 0
    requires forall i :: 0 <= i < |bs| ==> Storable(h, bs[i])
    requires reader == Intended || forall i :: 0 <= i < |bs| ==> !LooksBool(bs[i].parent)
    ensures LoadBenches(h, renames, reader, SaveBenches(h, bs), favoriteCounter) ==
      LoadResult(SortBenches(bs), MaxAddedOrder(0, bs), MaxFavoriteOrder(favoriteCounter, bs), false)
  {
    var toks := RecordTexts(h, bs);
    SavedTokens(h, bs);
    SavedSplits(h, bs);
    LoadNonEmpty(h, renames, reader, SaveBenches(h, bs), favoriteCounter, toks);
    LoadStored(h, renames, reader, Loaded([], 0, favoriteCounter, false), toks, bs);
    assert [] + bs == bs;
  }

  /** Saving and loading again gives back the same benches in comparer
      order (the same list when it was sorted), with the counters at the
      largest stored orders, and nothing to rewrite. */
  lemma SaveLoadRoundTrip(h: Host, renames: RenameMap, bs: seq<Bench>, favoriteCounter: int)
    requires |bs| > 0
    requires forall i :: 0 <= i < |bs| ==> Storable(h, bs[i])
    ensures LoadBenches(h, renames, Intended, SaveBenches(h, bs), favoriteCounter) ==
      LoadResult(SortBenches(bs), MaxAddedOrder(0, bs), MaxFavoriteOrder(favoriteCounter, bs), false)
    ensures Sorting.Sorted(bs, BenchCompare) ==> LoadBenches(h, renames, Intended, SaveBenches(h, bs), favoriteCounter).benches == bs
  {
    LoadSaved(h, renames, Intended, bs, favoriteCounter);
    if Sorting.Sorted(bs, BenchCompare) {
      Sorting.SortBySortedIsIdentity(bs, BenchCompare);
    }
  }

  /** The plugin's own loader agrees with the corrected one as long as no
      parent looks like a flag. */
  lemma AsWrittenRoundTrip(h: Host, renames: RenameMap, bs: seq<Bench>, favoriteCounter: int)
    requires |bs| > 0
    requires forall i :: 0 <= i < |bs| ==> Storable(h, bs[i]) && !LooksBool(bs[i].parent)
    ensures LoadBenches(h, renames, AsWritten, SaveBenches(h, bs), favoriteCounter) ==
      LoadResult(SortBenches(bs), MaxAddedOrder(0, bs), MaxFavoriteOrder(favoriteCounter, bs), false)
  {
    LoadSaved(h, renames, AsWritten, bs, favoriteCounter);
  }

  /** Loading the store of a single bench reads its one record. */
  lemma LoadOne(h: Host, renames: RenameMap, reader: Reader, b: Bench, favoriteCounter: int)
    requires Storable(h, b)
    ensures LoadBenches(h, renames, reader, SaveBenches(h, [b]), favoriteCounter).benches ==
      SortBenches(ReadRecord(h, renames, Loaded([], 0, favoriteCounter, false), Fields(h, b), Slot(reader, Fields(h, b))).benches)
  {
    var toks := RecordTexts(h, [b]);
    SavedTokens(h, [b]);
    SavedSplits(h, [b]);
    LoadNonEmpty(h, renames, reader, SaveBenches(h, [b]), favoriteCounter, toks);
    var start := Loaded([], 0, favoriteCounter, false);
    var next := ReadRecord(h, renames, start, Fields(h, b), Slot(reader, Fields(h, b)));
    assert Split(toks[0], '|') == Fields(h, b);
    assert toks[1..] == [];
    assert LoadRecords(h, renames, reader, start, toks) == LoadRecords(h, renames, reader, next, []);
  }

  /** Under the plugin's rule a flag-like parent puts the flags one field
      early: each flag is read from the field before its own. */
  lemma ShiftedFieldsRead(h: Host, renames: RenameMap, b: Bench)
    requires Storable(h, b) && LooksBool(b.parent)
    ensures Slot(AsWritten, Fields(h, b)) == ("", 3)
    ensures RenamedFlag(h, renames, b.scene, b.displayName, Fields(h, b), 3) == FlagTrue(b.parent)
    ensures OrderField(Fields(h, b), 3) == Some(if b.isRenamed then 1 else 0)
    ensures FavoriteFlag(Fields(h, b), 3) == (b.addedOrder == 1)
    ensures FavoriteOrderField(Fields(h, b), 3) == Some(if b.isFavorite then 1 else 0)
  {
    FlagTextNumber(b.isRenamed);
    FlagTextNumber(b.isFavorite);
    NumberFlag(b.addedOrder);
  }

  /** What the plugin's rule makes of a stored bench whose parent looks
      like a flag: the parent is lost (the zone key takes its place), the
      renamed flag becomes the parent's value, the added order becomes the
      old renamed flag, the favourite star becomes "added order was 1", and
      the favourite order becomes the old favourite flag. */
  function Shifted(h: Host, b: Bench): Bench {
    b.(parent := h.ZoneKey(b.scene).GetOr(""),
       isRenamed := FlagTrue(b.parent),
       addedOrder := if b.isRenamed then 1 else 0,
       isFavorite := b.addedOrder == 1,
       favoriteOrder := if b.isFavorite then 1 else 0)
  }

  lemma ShiftedBench(h: Host, renames: RenameMap, b: Bench, acc: Loaded)
    requires Storable(h, b) && LooksBool(b.parent) && acc.orderCounter == 0
    ensures RecordBench(h, renames, acc, Fields(h, b), ("", 3)) == Shifted(h, b)
  {
    ShiftedFieldsRead(h, renames, b);
    assert RecordName(h, acc.benches, Fields(h, b)) == b.displayName;
  }

  lemma ReadShifted(h: Host, renames: RenameMap, b: Bench, favoriteCounter: int)
    requires Storable(h, b) && LooksBool(b.parent)
    ensures ReadRecord(h, renames, Loaded([], 0, favoriteCounter, false), Fields(h, b), ("", 3)).benches == [Shifted(h, b)]
  {
    ShiftedBench(h, renames, b, Loaded([], 0, favoriteCounter, false));
    assert Admitted(h, Fields(h, b));
  }

  /** A bench whose category was renamed to `1` (or `0`, `true`, `false`)
      is read back shifted by one field under the plugin's rule. */
  lemma AsWrittenShiftsFlagParent(h: Host, renames: RenameMap, b: Bench, favoriteCounter: int)
    requires Storable(h, b) && LooksBool(b.parent)
    ensures LoadBenches(h, renames, AsWritten, SaveBenches(h, [b]), favoriteCounter).benches == [Shifted(h, b)]
  {
    LoadOne(h, renames, AsWritten, b, favoriteCounter);
    ShiftedFieldsRead(h, renames, b);
    ReadShifted(h, renames, b, favoriteCounter);
    Sorting.SortOne(Shifted(h, b), BenchCompare);
  }

  /** Concretely: a favourite added fifth, in a category renamed `1`, loses
      its star on the next load; the corrected loader keeps it. */
  lemma AsWrittenLosesFavorite(h: Host, renames: RenameMap, b: Bench, favoriteCounter: int)
    requires Storable(h, b) && b.parent == "1" && b.isFavorite && b.addedOrder == 5
    ensures |LoadBenches(h, renames, AsWritten, SaveBenches(h, [b]), favoriteCounter).benches| == 1
    ensures !LoadBenches(h, renames, AsWritten, SaveBenches(h, [b]), favoriteCounter).benches[0].isFavorite
    ensures LoadBenches(h, renames, Intended, SaveBenches(h, [b]), favoriteCounter).benches == [b]
  {
    AsWrittenShiftsFlagParent(h, renames, b, favoriteCounter);
    SaveLoadRoundTrip(h, renames, [b], favoriteCounter);
    Sorting.SortOne(b, BenchCompare);
  }

  lemma DefaultsClean()
    ensures Clean(DefaultScene) && Clean(DefaultMarker)
  {
  }

  /** The empty store stands for the one two-field default record. */
  lemma DefaultRecordFields()
    ensures StoredRecords("") == [DefaultRecords]
    ensures Split(DefaultRecords, '|') == [DefaultScene, DefaultMarker]
  {
    DefaultRecordSplits();
    DefaultRecordStored();
  }

  lemma DefaultRecordSplits()
    ensures Split(DefaultRecords, '|') == [DefaultScene, DefaultMarker]
    ensures ';' !in DefaultRecords
  {
    var parts := [DefaultScene, DefaultMarker];
    DefaultsClean();
    assert Join(parts, '|') == DefaultRecords;
    assert NoneContains(parts, '|');
    SplitJoin(parts, '|');
    JoinKeepsOut(parts, '|', ';');
  }

  lemma DefaultRecordStored()
    requires ';' !in DefaultRecords
    ensures StoredRecords("") == [DefaultRecords]
  {
    assert Join([DefaultRecords], ';') == DefaultRecords;
    SplitNonEmptyJoin([DefaultRecords], ';');
  }

  /** The default bench as the loader builds it. */
  function DefaultBench(h: Host, renames: RenameMap): Bench {
    var name := Registry.ProvisionalName(h, [], DefaultScene);
    Bench(DefaultScene, DefaultMarker, name, h.ZoneKey(DefaultScene).GetOr(""),
          !LooksDefault(h, renames, DefaultScene, name), 1, false, 0)
  }

  lemma ReadDefault(h: Host, renames: RenameMap, reader: Reader, favoriteCounter: int)
    requires |h.zones| > Registry.MinSceneMapSize ==> DefaultScene in h.zones
    ensures Slot(reader, [DefaultScene, DefaultMarker]) == ("", 3)
    ensures ReadRecord(h, renames, Loaded([], 0, favoriteCounter, false), [DefaultScene, DefaultMarker], ("", 3)) ==
      Loaded([DefaultBench(h, renames)], 1, favoriteCounter, true)
  {
    DefaultsClean();
  }

  /** An empty store (every bench deleted) loads as the tutorial bench alone,
      with a generated name, the zone key as parent and added order 1, and
      is rewritten. */
  lemma EmptyStoreSeedsDefault(h: Host, renames: RenameMap, reader: Reader, favoriteCounter: int)
    requires |h.zones| > Registry.MinSceneMapSize ==> DefaultScene in h.zones
    ensures LoadBenches(h, renames, reader, SaveBenches(h, []), favoriteCounter) ==
      LoadResult([DefaultBench(h, renames)], 1, favoriteCounter, true)
  {
    DefaultRecordFields();
    ReadDefault(h, renames, reader, favoriteCounter);
    var acc := Loaded([], 0, favoriteCounter, false);
    var l := Loaded([DefaultBench(h, renames)], 1, favoriteCounter, true);
    assert [DefaultRecords][1..] == [];
    assert LoadRecords(h, renames, reader, acc, [DefaultRecords]) == LoadRecords(h, renames, reader, l, []);
    Sorting.SortOne(DefaultBench(h, renames), BenchCompare);
  }
}
