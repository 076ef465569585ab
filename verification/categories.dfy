/** Category names: which parent category a bench is listed under
    (`ResolveCategoryNameForScene`, `GetCategoryKey`) and the prefixes that
    count as "default" in a bench name. */
module Categories {
  import opened Wrappers
  import opened Text
  import opened Zones
  import opened Benches

  /** The priority chain of `ResolveCategoryNameForScene` for a non-empty
      scene, given the scene's zone key and its localized zone name: a
      rename of the zone key, then a rename of the localized name, then a
      rename of the zone key with `_` removed, then the localized name, then
      the zone key, then `unknown`. Empty strings count as absent. */
  function ResolveChain(renames: RenameMap, zoneKey: Option<string>, localized: Option<string>, unknown: string): (r: string)
    ensures |unknown| > 0 ==> |r| > 0
    ensures r == unknown || r == zoneKey.GetOr("") || r == localized.GetOr("") ||
            exists j :: 0 <= j < |renames| && renames[j].1 == r
  {
    var zk := zoneKey.GetOr("");
    var loc := localized.GetOr("");
    var alt := RemoveChar(zk, '_');
    if |zk| > 0 && NonEmptyLookup(renames, zk).Some? then NonEmptyLookup(renames, zk).value
    else if |loc| > 0 && NonEmptyLookup(renames, loc).Some? then NonEmptyLookup(renames, loc).value
    else if |zk| > 0 && alt != zk && NonEmptyLookup(renames, alt).Some? then NonEmptyLookup(renames, alt).value
    else if |loc| > 0 then loc
    else if |zk| > 0 then zk
    else unknown
  }

  /** `ResolveCategoryNameForScene`: the localized name is only consulted
      once gameplay is ready. */
  function ResolveCategoryName(h: Host, renames: RenameMap, scene: string): (r: string)
    ensures |r| > 0
  {
    if |scene| == 0 then h.UnknownName()
    else
      var zk := h.ZoneKey(scene);
      var loc := if zk.Some? && h.ready then Some(h.LanguageGet(zk.value)) else None;
      ResolveChain(renames, zk, loc, h.UnknownName())
  }

  /** A non-empty rename of the zone key always wins. */
  lemma ResolveZoneRenameWins(h: Host, renames: RenameMap, scene: string)
    requires |scene| > 0 && scene in h.zones && |h.zones[scene]| > 0
    requires NonEmptyLookup(renames, h.zones[scene]).Some?
    ensures ResolveCategoryName(h, renames, scene) == NonEmptyLookup(renames, h.zones[scene]).value
  {
  }

  /** With no renames the category is the localized zone name when gameplay
      is ready and the game has one, else the zone key, else "Unknown". */
  lemma ResolveWithoutRenames(h: Host, scene: string)
    requires |scene| > 0
    ensures ResolveCategoryName(h, [], scene) ==
      if h.LocalizedZoneName(scene).Some? then h.LocalizedZoneName(scene).value
      else if scene in h.zones && |h.zones[scene]| > 0 then h.zones[scene]
      else h.UnknownName()
  {
  }

  /** A non-empty rename stored under the localized name applies whenever
      the zone key has none: it beats the `_`-less alias, the localized
      name and the zone key. */
  lemma ResolveLocalizedRename(renames: RenameMap, zoneKey: Option<string>, localized: Option<string>, unknown: string)
    requires |localized.GetOr("")| > 0 && NonEmptyLookup(renames, localized.GetOr("")).Some?
    requires |zoneKey.GetOr("")| == 0 || NonEmptyLookup(renames, zoneKey.GetOr("")).None?
    ensures ResolveChain(renames, zoneKey, localized, unknown) == NonEmptyLookup(renames, localized.GetOr("")).value
  {
  }

  /** When no rename matches the zone key, the localized name or the
      `_`-less alias, the category is the localized name, else the zone
      key, else the unknown text. */
  lemma ResolveNoRenameApplies(renames: RenameMap, zoneKey: Option<string>, localized: Option<string>, unknown: string)
    requires NonEmptyLookup(renames, zoneKey.GetOr("")).None?
    requires NonEmptyLookup(renames, localized.GetOr("")).None?
    requires NonEmptyLookup(renames, RemoveChar(zoneKey.GetOr(""), '_')).None?
    ensures ResolveChain(renames, zoneKey, localized, unknown) ==
      if |localized.GetOr("")| > 0 then localized.GetOr("")
      else if |zoneKey.GetOr("")| > 0 then zoneKey.GetOr("")
      else unknown
  {
  }

  /** A rename stored under the zone key without underscores applies when
      no rename matches the zone key or the localized name: it beats the
      localized name itself. */
  lemma ResolveUnderscoreAlias(renames: RenameMap, zk: string, alt: string, loc: Option<string>, unknown: string, v: string)
    requires |zk| > 0 && alt == RemoveChar(zk, '_') && alt != zk
    requires NonEmptyLookup(renames, zk).None?
    requires loc.None? || |loc.value| == 0 || NonEmptyLookup(renames, loc.value).None?
    requires |v| > 0 && Lookup(renames, alt) == Some(v)
    ensures ResolveChain(renames, Some(zk), loc, unknown) == v
  {
    assert Some(zk).GetOr("") == zk;
    assert NonEmptyLookup(renames, alt) == Some(v);
  }

  /** `GetCategoryKey`: a bench with a stored parent is listed under the
      parent's rename, else (Chinese UI, known scene) the localized zone
      name when the parent is the zone key or that localized name ignoring
      case, else the parent itself; a bench without a parent is listed
      under its scene's resolved name. */
  function CategoryKey(h: Host, renames: RenameMap, b: Bench): (r: string)
    ensures |r| > 0
    ensures |b.parent| > 0 && NonEmptyLookup(renames, b.parent).None? && !h.chinese ==> r == b.parent
    ensures |b.parent| == 0 ==> r == ResolveCategoryName(h, renames, b.scene)
  {
    var parent := b.parent;
    if |parent| > 0 then
      match NonEmptyLookup(renames, parent)
      case Some(mapped) => mapped
      case None =>
        if h.chinese && b.scene in h.zones then
          var zk := h.zones[b.scene];
          if |zk| > 0 && EqualsIgnoreCase(parent, zk) then
            match h.LocalizedZoneName(b.scene)
            case Some(zh) => zh
            case None => parent
          else
            match h.LocalizedZoneName(b.scene)
            case Some(loc) => if EqualsIgnoreCase(parent, loc) then loc else parent
            case None => parent
        else parent
    else ResolveCategoryName(h, renames, b.scene)
  }

  /** In the Chinese UI a bench whose parent is its zone key (in any case)
      and has no rename is listed under the localized zone name once the
      language table has one. */
  lemma CategoryKeyLocalizesZoneKey(h: Host, renames: RenameMap, b: Bench)
    requires h.chinese && b.scene in h.zones && |h.zones[b.scene]| > 0
    requires |b.parent| > 0 && EqualsIgnoreCase(b.parent, h.zones[b.scene])
    requires NonEmptyLookup(renames, b.parent).None?
    requires h.LocalizedZoneName(b.scene).Some?
    ensures CategoryKey(h, renames, b) == h.LocalizedZoneName(b.scene).value
  {
  }

  /** A bench's category does not depend on its display name. */
  lemma CategoryKeyIgnoresName(h: Host, renames: RenameMap, b: Bench, name: string)
    ensures CategoryKey(h, renames, b.(displayName := name)) == CategoryKey(h, renames, b)
  {
  }

  /** The category keys of all benches, in bench order. */
  function CategoryKeys(h: Host, renames: RenameMap, bs: seq<Bench>): (r: seq<string>)
    ensures |r| == |bs|
    ensures forall i :: 0 <= i < |bs| ==> r[i] == CategoryKey(h, renames, bs[i])
  {
    seq(|bs|, i requires 0 <= i < |bs| => CategoryKey(h, renames, bs[i]))
  }

  /** The prefixes that `LooksLikeDefaultNameForScene` accepts for a scene:
      the zone key (or the Chinese "unknown" text), the resolved category
      name and the localized zone name. */
  function DefaultPrefixes(h: Host, renames: RenameMap, scene: string): (r: seq<string>)
    ensures |r| == 3 && r[0] == h.FriendlySceneName(scene)
  {
    [h.FriendlySceneName(scene),
     ResolveCategoryName(h, renames, scene),
     h.LocalizedZoneName(scene).GetOr("")]
  }

  /** `BenchRef.LooksLikeDefaultNameForScene` for a scene of this host. */
  predicate LooksDefault(h: Host, renames: RenameMap, scene: string, name: string) {
    LooksLikeDefaultName(scene, name, DefaultPrefixes(h, renames, scene))
  }

  /** The provisional name `GenerateDisplayName` gives a new bench,
      `<zone> #<k>`, is itself recognised as a default name. */
  lemma ProvisionalNameLooksDefault(h: Host, renames: RenameMap, scene: string, k: nat)
    requires |scene| > 0
    ensures LooksDefault(h, renames, scene, h.FriendlySceneName(scene) + " #" + NatToString(k)) ||
            |h.FriendlySceneName(scene)| == 0
  {
    var p := h.FriendlySceneName(scene);
    if |p| > 0 {
      GeneratedNamesLookDefault(scene, 1, p, k, DefaultPrefixes(h, renames, scene));
    }
  }
}
