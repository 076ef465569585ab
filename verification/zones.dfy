/** The game's scene and language tables as the plugin sees them, and the
    user's zone rename map (`_zoneRenameMap`) with its `k=v;k=v` codec. */
module Zones {
  import opened Wrappers
  import opened Text

  /** The host lookups the plugin calls into: `SceneTeleportMap` (scene to
      `MapZone` key), `Language.Get(key, "Map Zones")`, `IsGameplayReady()`
      and the detected UI language. A zone key with no language entry reads
      as "". */
  datatype Host = Host(
    zones: map<string, string>,
    language: map<string, string>,
    ready: bool,
    chinese: bool)
  {
    /** `SceneTeleportMap` lookup: the scene's `MapZone` key, if any. */
    function ZoneKey(scene: string): (r: Option<string>)
      ensures r.Some? <==> scene in zones
    {
      if scene in zones then Some(zones[scene]) else None
    }

    /** `Language.Get(key, "Map Zones")`. */
    function LanguageGet(key: string): string {
      if key in language then language[key] else ""
    }

    /** `TryGetLocalizedZoneNameForScene`: only once gameplay is ready, only
        for a known scene, and only a non-empty text. */
    function LocalizedZoneName(scene: string): (r: Option<string>)
      ensures r.Some? ==> ready && scene in zones && |r.value| > 0
      ensures r.Some? ==> r.value == LanguageGet(zones[scene])
    {
      if !ready then None
      else match ZoneKey(scene)
        case Some(key) =>
          var text := LanguageGet(key);
          if |text| > 0 then Some(text) else None
        case None => None
    }

    /** `GetText("未知区域", "Unknown")`. */
    function UnknownName(): (r: string)
      ensures |r| > 0
    {
      if chinese then "未知区域" else "Unknown"
    }

    /** `BenchRef.GetFriendlySceneName`: the zone key, with no language
        lookup, or the Chinese "unknown" text. */
    function FriendlySceneName(scene: string): (r: string)
      ensures scene in zones && |scene| > 0 ==> r == zones[scene]
    {
      if |scene| == 0 then "未知区域"
      else match ZoneKey(scene)
        case Some(key) => key
        case None => "未知区域"
    }
  }

  // ---------------------------------------------------------------------------
  // The rename map: a dictionary with case-insensitive keys. Entries keep the
  // casing of the key that created them and their insertion order.
  // ---------------------------------------------------------------------------

  type RenameMap = seq<(string, string)>

  /** No two keys are equal ignoring case. */
  ghost predicate DistinctKeys(m: RenameMap) {
    forall i, j :: 0 <= i < j < |m| ==> !EqualsIgnoreCase(m[i].0, m[j].0)
  }

  /** Position of the entry whose key matches `k` ignoring case, or -1: the
      lookup of a dictionary keyed ignoring case, used for the zone renames
      (`_zoneRenameMap`) and for the category groups (`_catToIndices`). */
  function FindKey<V>(m: seq<(string, V)>, k: string): (r: int)
    ensures -1 <= r < |m|
    ensures r >= 0 ==> EqualsIgnoreCase(m[r].0, k)
    ensures r >= 0 ==> forall j :: 0 <= j < r ==> !EqualsIgnoreCase(m[j].0, k)
    ensures r < 0 <==> forall j :: 0 <= j < |m| ==> !EqualsIgnoreCase(m[j].0, k)
  {
    if |m| == 0 then -1
    else if EqualsIgnoreCase(m[0].0, k) then 0
    else
      var r := FindKey(m[1..], k);
      if r < 0 then -1 else r + 1
  }

  /** `TryGetValue(k, out v)`. */
  function Lookup(m: RenameMap, k: string): (r: Option<string>)
    ensures r.Some? <==> FindKey(m, k) >= 0
    ensures r.Some? ==> r.value == m[FindKey(m, k)].1
  {
    var i := FindKey(m, k);
    if i >= 0 then Some(m[i].1) else None
  }

  /** The mapped value when present and non-empty (the plugin never uses an
      empty mapping). */
  function NonEmptyLookup(m: RenameMap, k: string): (r: Option<string>)
    ensures r.Some? ==> |r.value| > 0 && Lookup(m, k) == r
  {
    match Lookup(m, k)
    case Some(v) => if |v| > 0 then Some(v) else None
    case None => None
  }

  /** `m[k] = v`: overwrite the matching entry's value (keeping its key),
      else append a new entry. */
  function Put(m: RenameMap, k: string, v: string): (r: RenameMap)
    ensures |r| == if FindKey(m, k) >= 0 then |m| else |m| + 1
  {
    var i := FindKey(m, k);
    if i >= 0 then m[i := (m[i].0, v)] else m + [(k, v)]
  }

  /** After `Put(m, k, v)`, `k` maps to `v`. */
  lemma PutFound(m: RenameMap, k: string, v: string)
    ensures Lookup(Put(m, k, v), k) == Some(v)
  {
    var r := Put(m, k, v);
    if FindKey(m, k) >= 0 {
      SameKeysFind(m, r, k);
    } else {
      AppendFind(m, (k, v));
    }
  }

  /** `Put(m, k, v)` leaves every other key (ignoring case) as it was. */
  lemma PutOthers(m: RenameMap, k: string, v: string)
    ensures forall k' :: !EqualsIgnoreCase(k', k) ==> Lookup(Put(m, k, v), k') == Lookup(m, k')
  {
    var r := Put(m, k, v);
    if FindKey(m, k) >= 0 {
      forall k' ensures FindKey(r, k') == FindKey(m, k') {
        SameKeysFind(m, r, k');
      }
    } else {
      AppendFind(m, (k, v));
    }
  }

  /** `Put` keeps keys distinct ignoring case. */
  lemma PutDistinct(m: RenameMap, k: string, v: string)
    requires DistinctKeys(m)
    ensures DistinctKeys(Put(m, k, v))
  {
    if FindKey(m, k) < 0 {
      var r := Put(m, k, v);
      forall i, j | 0 <= i < j < |r| ensures !EqualsIgnoreCase(r[i].0, r[j].0) {
        if j == |m| {
          assert r[i] == m[i];
        }
      }
    }
  }

  /** Appending a key found nowhere in the map. */
  lemma PutAbsent(m: RenameMap, k: string, v: string)
    requires FindKey(m, k) < 0
    ensures Put(m, k, v) == m + [(k, v)]
  {
  }

  /** Every entry of `Put(m, k, v)` is an entry of `m`, the new pair, or
      an old key with the new value. */
  lemma PutEntries(m: RenameMap, k: string, v: string)
    ensures forall i :: 0 <= i < |Put(m, k, v)| ==>
      Put(m, k, v)[i] == (k, v) || (i < |m| && (Put(m, k, v)[i] == m[i] || Put(m, k, v)[i] == (m[i].0, v)))
  {
  }

  lemma {:induction false} SameKeysFind(m: RenameMap, r: RenameMap, k: string)
    requires |r| == |m|
    requires forall j :: 0 <= j < |m| ==> r[j].0 == m[j].0
    ensures FindKey(r, k) == FindKey(m, k)
    decreases |m|
  {
    if |m| > 0 {
      SameKeysFind(m[1..], r[1..], k);
    }
  }

  /** Lookups in `m + [e]`: the old entries first, then `e`. */
  lemma AppendFind(m: RenameMap, e: (string, string))
    ensures forall k :: FindKey(m + [e], k) ==
                        if FindKey(m, k) >= 0 then FindKey(m, k)
                        else if EqualsIgnoreCase(e.0, k) then |m| else -1
  {
    forall k ensures FindKey(m + [e], k) ==
      if FindKey(m, k) >= 0 then FindKey(m, k)
      else if EqualsIgnoreCase(e.0, k) then |m| else -1
    {
      AppendFindOne(m, e, k);
    }
  }

  lemma {:induction false} AppendFindOne(m: RenameMap, e: (string, string), k: string)
    ensures FindKey(m + [e], k) ==
      if FindKey(m, k) >= 0 then FindKey(m, k)
      else if EqualsIgnoreCase(e.0, k) then |m| else -1
    decreases |m|
  {
    if |m| > 0 {
      assert (m + [e])[1..] == m[1..] + [e];
      AppendFindOne(m[1..], e, k);
    }
  }

  // ---------------------------------------------------------------------------
  // Codec: `LoadZoneRenameMap` and `SaveZoneRenameMap`.
  // ---------------------------------------------------------------------------

  /** One `k=v` token: split at the first `=`, which must not be the first
      character; both sides are trimmed and must be non-empty. */
  function ParseZoneEntry(tok: string): (r: Option<(string, string)>)
    ensures r.Some? ==> |r.value.0| > 0 && |r.value.1| > 0
    ensures r.Some? ==> NoWhiteEnds(r.value.0) && NoWhiteEnds(r.value.1)
    ensures r.Some? ==> '=' !in r.value.0
    ensures r.Some? && ';' !in tok ==> ';' !in r.value.0 && ';' !in r.value.1
  {
    var eq := IndexOf(tok, '=');
    if eq > 0 then
      var k := Trim(tok[..eq]);
      var v := Trim(tok[eq + 1..]);
      if |k| > 0 && |v| > 0 then Some((k, v)) else None
    else None
  }

  /** One token of `LoadZoneRenameMap`: a valid `k=v` sets `k`. */
  function LoadStep(acc: RenameMap, tok: string): RenameMap {
    match ParseZoneEntry(tok)
    case Some(e) => Put(acc, e.0, e.1)
    case None => acc
  }

  function LoadEntries(acc: RenameMap, toks: seq<string>): RenameMap
    decreases |toks|
  {
    if |toks| == 0 then acc else LoadEntries(LoadStep(acc, toks[0]), toks[1..])
  }

  /** A well-formed stored entry: non-empty, trimmed, free of separators. */
  predicate ValidEntry(e: (string, string)) {
    |e.0| > 0 && |e.1| > 0 && NoWhiteEnds(e.0) && NoWhiteEnds(e.1) &&
    ';' !in e.0 && '=' !in e.0 && ';' !in e.1
  }

  /** `LoadZoneRenameMap`: every loaded entry is well formed (a value may
      contain `=`), and keys are distinct ignoring case. */
  function LoadZoneMap(raw: string): (r: RenameMap)
    ensures DistinctKeys(r)
    ensures forall i :: 0 <= i < |r| ==> ValidEntry(r[i])
  {
    var toks := SplitNonEmpty(raw, ';');
    LoadEntriesValid([], toks);
    LoadEntries([], toks)
  }

  lemma {:induction false} LoadEntriesValid(acc: RenameMap, toks: seq<string>)
    requires DistinctKeys(acc) && forall i :: 0 <= i < |acc| ==> ValidEntry(acc[i])
    requires forall i :: 0 <= i < |toks| ==> ';' !in toks[i]
    ensures DistinctKeys(LoadEntries(acc, toks))
    ensures forall i :: 0 <= i < |LoadEntries(acc, toks)| ==> ValidEntry(LoadEntries(acc, toks)[i])
    decreases |toks|
  {
    if |toks| > 0 {
      LoadStepValid(acc, toks[0]);
      LoadEntriesValid(LoadStep(acc, toks[0]), toks[1..]);
    }
  }

  lemma LoadStepValid(acc: RenameMap, tok: string)
    requires DistinctKeys(acc) && forall i :: 0 <= i < |acc| ==> ValidEntry(acc[i])
    requires ';' !in tok
    ensures DistinctKeys(LoadStep(acc, tok))
    ensures forall i :: 0 <= i < |LoadStep(acc, tok)| ==> ValidEntry(LoadStep(acc, tok)[i])
  {
    match ParseZoneEntry(tok)
    case Some(e) =>
      assert ValidEntry(e);
      var r := Put(acc, e.0, e.1);
      assert LoadStep(acc, tok) == r;
      PutDistinct(acc, e.0, e.1);
      PutEntries(acc, e.0, e.1);
      forall i | 0 <= i < |r| ensures ValidEntry(r[i]) {
        if r[i] != e {
          assert ValidEntry(acc[i]);
        }
      }
    case None =>
  }

  /** Drops the two separator characters from a stored key or value. */
  function StripSeparators(s: string): (r: string)
    ensures ';' !in r && '=' !in r
    ensures ';' !in s && '=' !in s ==> r == s
  {
    RemoveChar(RemoveChar(s, ';'), '=')
  }

  function SaveEntry(e: (string, string)): (r: string)
    ensures |r| > 0 && ';' !in r
  {
    StripSeparators(e.0) + "=" + StripSeparators(e.1)
  }

  function SaveTokens(m: RenameMap): (r: seq<string>)
    ensures |r| == |m|
    ensures forall i :: 0 <= i < |m| ==> r[i] == SaveEntry(m[i])
  {
    seq(|m|, i requires 0 <= i < |m| => SaveEntry(m[i]))
  }

  /** `SaveZoneRenameMap`. */
  function SaveZoneMap(m: RenameMap): (r: string)
    ensures ';' in r ==> |m| > 1
  {
    var toks := SaveTokens(m);
    assert NoneContains(toks, ';');
    JoinSingle(toks, ';');
    Join(toks, ';')
  }

  lemma JoinSingle(parts: seq<string>, c: char)
    requires NoneContains(parts, c)
    ensures c in Join(parts, c) ==> |parts| > 1
  {
    if |parts| == 1 {
      assert c !in parts[0];
    }
  }

  /** A stored entry without separators reads back unchanged. */
  lemma ParseSavedEntry(e: (string, string))
    requires |e.0| > 0 && |e.1| > 0 && NoWhiteEnds(e.0) && NoWhiteEnds(e.1)
    requires ';' !in e.0 && '=' !in e.0 && ';' !in e.1 && '=' !in e.1
    ensures ParseZoneEntry(SaveEntry(e)) == Some(e)
  {
    var tok := SaveEntry(e);
    assert tok == e.0 + ['='] + e.1;
    IndexOfAppend(e.0, '=', e.1);
    assert tok[..|e.0|] == e.0;
    assert tok[|e.0| + 1..] == e.1;
  }

  lemma {:induction false} LoadSavedEntries(acc: RenameMap, m: RenameMap)
    requires DistinctKeys(acc + m)
    requires forall i :: 0 <= i < |m| ==> ValidEntry(m[i]) && '=' !in m[i].1
    ensures LoadEntries(acc, SaveTokens(m)) == acc + m
    decreases |m|
  {
    var toks := SaveTokens(m);
    if |m| > 0 {
      assert toks[1..] == SaveTokens(m[1..]);
      LoadSavedHead(acc, m);
      ShiftHead(acc, m);
      LoadSavedEntries(acc + [m[0]], m[1..]);
    } else {
      assert toks == [];
    }
  }

  lemma ShiftHead<T>(a: seq<T>, b: seq<T>)
    requires |b| > 0
    ensures (a + [b[0]]) + b[1..] == a + b
  {
    assert b == [b[0]] + b[1..];
  }

  /** The first saved token appends the first entry. */
  lemma LoadSavedHead(acc: RenameMap, m: RenameMap)
    requires |m| > 0 && DistinctKeys(acc + m)
    requires ValidEntry(m[0]) && '=' !in m[0].1
    ensures LoadStep(acc, SaveEntry(m[0])) == acc + [m[0]]
  {
    ParseSavedEntry(m[0]);
    forall j | 0 <= j < |acc| ensures !EqualsIgnoreCase(acc[j].0, m[0].0) {
      assert (acc + m)[j] == acc[j] && (acc + m)[|acc|] == m[0];
    }
    PutAbsent(acc, m[0].0, m[0].1);
  }

  /** Saving then loading returns the same map, for a map whose keys are
      distinct ignoring case and whose keys and values are non-empty,
      trimmed and free of `;` and `=`. */
  lemma ZoneMapRoundTrip(m: RenameMap)
    requires DistinctKeys(m)
    requires forall i :: 0 <= i < |m| ==> ValidEntry(m[i]) && '=' !in m[i].1
    ensures LoadZoneMap(SaveZoneMap(m)) == m
  {
    var toks := SaveTokens(m);
    assert NoneContains(toks, ';');
    SplitNonEmptyJoin(toks, ';');
    assert [] + m == m;
    LoadSavedEntries([], m);
  }
}
