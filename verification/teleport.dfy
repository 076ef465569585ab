/** The teleport decisions: where a bench teleport goes (same scene or
    through a scene load), how a bench's marker is found on arrival, which
    transition gate a scene load enters by, and where the hero finally
    lands after the terrain-overlap probe. Positions are integer points;
    the physics queries (`FindGroundPoint`, `Physics2D.OverlapBox`) are
    parameters. */
module Teleport {
  import opened Wrappers
  import opened Text
  import opened Benches

  /** A position in the scene (the `z` coordinate is always 0 here). */
  datatype Vec = Vec(x: int, y: int) {
    function Plus(o: Vec): Vec { Vec(x + o.x, y + o.y) }
    function Minus(o: Vec): Vec { Vec(x - o.x, y - o.y) }
  }

  /** `Vector3.zero`, which the lookups return for "not found". */
  const Origin: Vec := Vec(0, 0)
  /** `Vector3.one`, which `GetBenchPosition` returns for "in another scene". */
  const Unit: Vec := Vec(1, 1)

  function SqDist(a: Vec, b: Vec): nat {
    (a.x - b.x) * (a.x - b.x) + (a.y - b.y) * (a.y - b.y)
  }

  /** A `RespawnMarker` of the active scene: its object name and position. */
  datatype Marker = Marker(name: string, pos: Vec)

  /** The index of the first marker with this exact name, or -1. Both the
      exact scan of `GetBenchPositionInCurrentScene` and the
      first-wins `_markerByName` dictionary find this one. */
  function FirstNamed(markers: seq<Marker>, name: string): (r: int)
    ensures -1 <= r < |markers|
    ensures r == -1 <==> forall i :: 0 <= i < |markers| ==> markers[i].name != name
    ensures r >= 0 ==> markers[r].name == name && forall j :: 0 <= j < r ==> markers[j].name != name
  {
    if |markers| == 0 then -1
    else if markers[0].name == name then 0
    else
      var k := FirstNamed(markers[1..], name);
      if k < 0 then -1 else k + 1
  }

  /** `GetBenchPositionInCurrentScene`: the first marker with the name, or
      `Origin` when there is none. */
  function PositionInScene(markers: seq<Marker>, name: string): (r: Vec)
    ensures FirstNamed(markers, name) >= 0 ==> r == markers[FirstNamed(markers, name)].pos
    ensures FirstNamed(markers, name) < 0 ==> r == Origin
  {
    var i := FirstNamed(markers, name);
    if i >= 0 then markers[i].pos else Origin
  }

  /** `GetBenchPosition`: in the active scene the marker's position, else
      the "other scene" sentinel. */
  function BenchPosition(current: string, scene: string, markers: seq<Marker>, name: string): (r: Vec)
    ensures current != scene ==> r == Unit
    ensures current == scene ==> r == PositionInScene(markers, name)
  {
    if current == scene then PositionInScene(markers, name) else Unit
  }

  /** What a teleport does: nothing, move the hero within the active scene,
      or load a scene and then go to a marker or a recorded position. */
  datatype Plan = Stay | Direct(pos: Vec) | ViaMarker(scene: string, marker: string) | ViaPosition(scene: string, pos: Vec)

  /** `TeleportToBenchRoutine`: with the game ready, a bench of the active
      scene is reached directly when its marker is found (at a position
      other than the origin), a bench of another scene always through a
      scene load, and a bench whose marker is missing not at all. */
  function PlanBenchTeleport(ready: bool, current: string, target: Bench, markers: seq<Marker>): (r: Plan)
    ensures r.Direct? <==>
      ready && current == target.scene && FirstNamed(markers, target.marker) >= 0 &&
      markers[FirstNamed(markers, target.marker)].pos != Origin
    ensures r.Direct? ==> r.pos == markers[FirstNamed(markers, target.marker)].pos
    ensures r.ViaMarker? <==> ready && current != target.scene
    ensures r.ViaMarker? ==> r == ViaMarker(target.scene, target.marker)
    ensures !r.ViaPosition?
  {
    if !ready then Stay
    else
      var p := BenchPosition(current, target.scene, markers, target.marker);
      if p == Origin then Stay
      else if current == target.scene then Direct(p)
      else ViaMarker(target.scene, target.marker)
  }

  /** `ConfirmTeleport`: the selected bench, when the selection is in
      range. There is no "teleport running" flag: a confirmation starts a
      new teleport whatever is already under way. */
  function ConfirmTarget(bs: seq<Bench>, selected: int): (r: Option<Bench>)
    ensures r.Some? <==> 0 <= selected < |bs|
    ensures r.Some? ==> r.value == bs[selected]
  {
    if 0 <= selected < |bs| then Some(bs[selected]) else None
  }

  // ---------------------------------------------------------------------------
  // Finding the marker after a scene load
  // ---------------------------------------------------------------------------

  /** The squared search radius around a `RestBench` (15 units). */
  const RestBenchRadiusSq: nat := 15 * 15

  /** The loose name match of the fallback: equal, or either contains the
      other. */
  predicate NameRelated(n: string, name: string) {
    n == name || Contains(n, name) || Contains(name, n)
  }

  /** Marker `m` matches the fallback around the bench at `b`. */
  predicate NearMatch(b: Vec, m: Marker, name: string) {
    SqDist(m.pos, b) <= RestBenchRadiusSq && NameRelated(m.name, name)
  }

  /** The first marker, in list order, matching around the bench at `b`. */
  function FirstNearMatch(b: Vec, markers: seq<Marker>, name: string): (r: Option<Vec>)
    ensures r.None? <==> forall i :: 0 <= i < |markers| ==> !NearMatch(b, markers[i], name)
    ensures r.Some? ==> exists i :: 0 <= i < |markers| && NearMatch(b, markers[i], name) && markers[i].pos == r.value
  {
    if |markers| == 0 then None
    else if NearMatch(b, markers[0], name) then Some(markers[0].pos)
    else
      var r := FirstNearMatch(b, markers[1..], name);
      assert forall i :: 1 <= i < |markers| ==> markers[i] == markers[1..][i - 1];
      r
  }

  /** The `RestBench` scan of `FindBenchPositionByMultipleMethods`: benches
      in order, and around each the markers in order. */
  function BenchScan(benches: seq<Vec>, markers: seq<Marker>, name: string): (r: Option<Vec>)
    ensures r.None? <==> forall k, i :: 0 <= k < |benches| && 0 <= i < |markers| ==> !NearMatch(benches[k], markers[i], name)
    ensures r.Some? ==> exists i :: 0 <= i < |markers| && NameRelated(markers[i].name, name) && markers[i].pos == r.value
  {
    if |benches| == 0 then None
    else match FirstNearMatch(benches[0], markers, name)
      case Some(p) => Some(p)
      case None =>
        var r := BenchScan(benches[1..], markers, name);
        assert forall k :: 1 <= k < |benches| ==> benches[k] == benches[1..][k - 1];
        r
  }

  /** `FindBenchPositionByMultipleMethods`: the exact marker (even at the
      origin), else the `RestBench` scan, else `Origin`. */
  function FindByMultipleMethods(markers: seq<Marker>, benches: seq<Vec>, name: string): (r: Vec)
    ensures FirstNamed(markers, name) >= 0 ==> r == PositionInScene(markers, name)
    ensures FirstNamed(markers, name) < 0 ==> r == BenchScan(benches, markers, name).GetOr(Origin)
  {
    if FirstNamed(markers, name) >= 0 then PositionInScene(markers, name)
    else BenchScan(benches, markers, name).GetOr(Origin)
  }

  /** The second step of `TeleportWithSceneChangeToMarker`: where the hero
      goes in the scene that is active after the load, or nowhere. */
  function ArrivalPosition(markers: seq<Marker>, benches: seq<Vec>, name: string): (r: Option<Vec>)
    ensures r.Some? ==> r.value != Origin
  {
    var p := PositionInScene(markers, name);
    if p != Origin then Some(p)
    else
      var q := FindByMultipleMethods(markers, benches, name);
      if q == Origin then None else Some(q)
  }

  /** The exact marker wins when it is not at the origin; without an exact
      marker the `RestBench` scan decides; an answer is always the position
      of a marker whose name matches at least loosely. */
  lemma ArrivalSpec(markers: seq<Marker>, benches: seq<Vec>, name: string)
    ensures var i := FirstNamed(markers, name);
      i >= 0 && markers[i].pos != Origin ==> ArrivalPosition(markers, benches, name) == Some(markers[i].pos)
    ensures var i := FirstNamed(markers, name);
      i >= 0 && markers[i].pos == Origin ==> ArrivalPosition(markers, benches, name) == None
    ensures FirstNamed(markers, name) < 0 ==>
      ArrivalPosition(markers, benches, name) ==
        (match BenchScan(benches, markers, name)
         case Some(p) => if p == Origin then None else Some(p)
         case None => None)
    ensures ArrivalPosition(markers, benches, name).Some? ==>
      exists i :: 0 <= i < |markers| && NameRelated(markers[i].name, name) &&
                  markers[i].pos == ArrivalPosition(markers, benches, name).value
  {
    var i := FirstNamed(markers, name);
    if i >= 0 {
      assert NameRelated(markers[i].name, name);
    }
  }

  /** The scene-load wait of `TeleportToScene`: the number of frames it
      watched before the target scene became active; `actives` are the
      scenes active at each frame before the timeout, and when the target
      never shows up the wait simply ends. */
  function SceneLoadWait(actives: seq<string>, target: string): (r: nat)
    ensures r <= |actives|
    ensures r < |actives| ==> actives[r] == target
    ensures forall j :: 0 <= j < r ==> actives[j] != target
  {
    if |actives| == 0 then 0
    else if actives[0] == target then 0
    else 1 + SceneLoadWait(actives[1..], target)
  }

  /** The scene active once the wait is over. */
  function SceneAfterWait(start: string, actives: seq<string>, target: string): string {
    var k := SceneLoadWait(actives, target);
    if k < |actives| then actives[k]
    else if |actives| > 0 then actives[|actives| - 1]
    else start
  }

  /** `TeleportWithSceneChangeToMarker` after its load: the marker lookup
      runs in whatever scene is active once the wait is over. */
  function CrossSceneArrival(start: string, actives: seq<string>, target: string,
                             markersOf: string -> seq<Marker>, benchesOf: string -> seq<Vec>, name: string): (r: Option<Vec>)
    ensures target in actives ==> r == ArrivalPosition(markersOf(target), benchesOf(target), name)
  {
    var scene := SceneAfterWait(start, actives, target);
    ArrivalPosition(markersOf(scene), benchesOf(scene), name)
  }

  /** A load that never reaches its target does not cancel the teleport:
      the marker is looked up in the last scene seen active. */
  lemma TimeoutStillLooksUp(start: string, actives: seq<string>, target: string,
                            markersOf: string -> seq<Marker>, benchesOf: string -> seq<Vec>, name: string)
    requires target !in actives && |actives| > 0
    ensures var last := actives[|actives| - 1];
      CrossSceneArrival(start, actives, target, markersOf, benchesOf, name) ==
      ArrivalPosition(markersOf(last), benchesOf(last), name)
  {
  }

  // ---------------------------------------------------------------------------
  // The entry gate of a scene load
  // ---------------------------------------------------------------------------

  /** A `TransitionPoint` of the active scene. */
  datatype Gate = Gate(name: string, inactive: bool)

  datatype GateKind = DoorGate | SideGate | AnyGate

  predicate Fits(kind: GateKind, name: string) {
    match kind
    case DoorGate => Contains(name, "door")
    case SideGate => Contains(name, "left") || Contains(name, "right") || Contains(name, "top") || Contains(name, "bot")
    case AnyGate => true
  }

  predicate Usable(g: Gate, kind: GateKind) {
    !g.inactive && Fits(kind, g.name)
  }

  /** The name of the first active gate of this kind, if any. */
  function FirstGate(gates: seq<Gate>, kind: GateKind): (r: Option<string>)
    ensures r.None? <==> forall i :: 0 <= i < |gates| ==> !Usable(gates[i], kind)
    ensures r.Some? ==> exists i :: 0 <= i < |gates| && Usable(gates[i], kind) && gates[i].name == r.value &&
                                    forall j :: 0 <= j < i ==> !Usable(gates[j], kind)
  {
    if |gates| == 0 then None
    else if Usable(gates[0], kind) then Some(gates[0].name)
    else
      var r := FirstGate(gates[1..], kind);
      assert forall i :: 1 <= i < |gates| ==> gates[i] == gates[1..][i - 1];
      if r.Some? then
        var i :| 0 <= i < |gates[1..]| && Usable(gates[1..][i], kind) && gates[1..][i].name == r.value &&
                 forall j :: 0 <= j < i ==> !Usable(gates[1..][j], kind);
        assert Usable(gates[i + 1], kind) && gates[i + 1].name == r.value;
        r
      else r
  }

  /** `GetSafeEntryPointForScene`: a door-named gate, else a gate named
      after a side, else any gate, else the default entry `""`. Only the
      active scene's cached gates are looked at; the requested scene does
      not enter the choice, so it is not a parameter here. */
  function EntryGate(gates: seq<Gate>): (r: string)
    ensures FirstGate(gates, DoorGate).Some? ==> r == FirstGate(gates, DoorGate).value
    ensures FirstGate(gates, DoorGate).None? && FirstGate(gates, SideGate).Some? ==> r == FirstGate(gates, SideGate).value
    ensures FirstGate(gates, DoorGate).None? && FirstGate(gates, SideGate).None? ==> r == FirstGate(gates, AnyGate).GetOr("")
    ensures r != "" ==> exists i :: 0 <= i < |gates| && !gates[i].inactive && gates[i].name == r
  {
    match FirstGate(gates, DoorGate)
    case Some(d) => d
    case None =>
      match FirstGate(gates, SideGate)
      case Some(s) => s
      case None => FirstGate(gates, AnyGate).GetOr("")
  }

  /** With no active gate the load enters by the default entry. */
  lemma NoActiveGateDefaultEntry(gates: seq<Gate>)
    requires forall i :: 0 <= i < |gates| ==> gates[i].inactive
    ensures EntryGate(gates) == ""
  {
    assert FirstGate(gates, AnyGate).None?;
  }

  // ---------------------------------------------------------------------------
  // The landing point and the overlap probe
  // ---------------------------------------------------------------------------

  /** The offsets `FindSafePositionNearby` tries, in order: up, higher, a
      little up, up-left, up-right, left, right. */
  const ProbeOffsets: seq<Vec> := [Vec(0, 2), Vec(0, 4), Vec(0, 1), Vec(-1, 2), Vec(1, 2), Vec(-2, 0), Vec(2, 0)]

  /** The hero's collider as the overlap test sees it: whether the hero has
      one, and whether a box of its size at a point overlaps terrain. */
  datatype Body = Body(hasCollider: bool, overlaps: Vec -> bool)

  /** `IsPositionSafe`: without a collider every point counts as safe. */
  predicate Safe(body: Body, p: Vec) {
    !body.hasCollider || !body.overlaps(p)
  }

  /** The probe from offset `k` on: the first offset point that does not
      overlap, or `Origin`. */
  function ProbeFrom(body: Body, origin: Vec, k: nat): (r: Vec)
    requires k <= |ProbeOffsets|
    ensures r == Origin || exists j :: k <= j < |ProbeOffsets| && r == origin.Plus(ProbeOffsets[j]) && !body.overlaps(r) &&
                                      forall i :: k <= i < j ==> body.overlaps(origin.Plus(ProbeOffsets[i]))
    ensures (forall i :: k <= i < |ProbeOffsets| ==> body.overlaps(origin.Plus(ProbeOffsets[i]))) ==> r == Origin
    decreases |ProbeOffsets| - k
  {
    if k == |ProbeOffsets| then Origin
    else
      var p := origin.Plus(ProbeOffsets[k]);
      if !body.overlaps(p) then p else ProbeFrom(body, origin, k + 1)
  }

  /** `FindSafePositionNearby`: `Origin` without a collider or when every
      offset overlaps; otherwise the first non-overlapping offset point. */
  function SafeNearby(body: Body, origin: Vec): (r: Vec)
    ensures !body.hasCollider ==> r == Origin
    ensures r != Origin ==> Safe(body, r)
    ensures r != Origin ==> exists j :: 0 <= j < |ProbeOffsets| && r == origin.Plus(ProbeOffsets[j]) &&
                                        forall i :: 0 <= i < j ==> !Safe(body, origin.Plus(ProbeOffsets[i]))
  {
    if !body.hasCollider then Origin else ProbeFrom(body, origin, 0)
  }

  /** The upward nudge `DoDirectTeleport` falls back to. */
  const Nudge: Vec := Vec(0, 2)

  /** Where `DoDirectTeleport` puts the hero: the ground point under the
      target when the game finds one (`ground` is `Origin` when it does
      not), moved to the first safe probe point when it overlaps terrain,
      or blindly nudged up when no probe point is safe. */
  function DirectLanding(body: Body, target: Vec, ground: Vec): (r: Vec)
    ensures var desired := if ground != Origin then ground else target;
      (Safe(body, desired) ==> r == desired) &&
      (!Safe(body, desired) ==> r == SafeNearby(body, desired) || r == desired.Plus(Nudge))
  {
    var desired := if ground != Origin then ground else target;
    if Safe(body, desired) then desired
    else
      var alt := SafeNearby(body, desired);
      if alt != Origin then alt else desired.Plus(Nudge)
  }

  /** The hero lands on a safe point, or on the blind nudge above an unsafe
      target whose probe points (other than the origin) all overlap. */
  lemma LandingSafeOrNudged(body: Body, target: Vec, ground: Vec)
    ensures var desired := if ground != Origin then ground else target;
      var r := DirectLanding(body, target, ground);
      Safe(body, r) || (r == desired.Plus(Nudge) && SafeNearby(body, desired) == Origin)
  {
  }

  /** `PostTeleportSafetyAdjust`: a hero overlapping terrain moves to the
      first safe probe point; when there is none it stays put (there is no
      nudge here). */
  function PostAdjust(body: Body, pos: Vec): (r: Vec)
    ensures r == pos || (Safe(body, r) && r == SafeNearby(body, pos) && !Safe(body, pos))
    ensures Safe(body, pos) ==> r == pos
  {
    if Safe(body, pos) then pos
    else
      var alt := SafeNearby(body, pos);
      if alt != Origin then alt else pos
  }

  /** With every probe point blocked, the second pass leaves an unsafe hero
      where it is: unlike the first landing, it never nudges upwards. */
  lemma PostAdjustNeverNudges(body: Body, pos: Vec)
    requires !Safe(body, pos)
    requires forall i :: 0 <= i < |ProbeOffsets| ==> body.overlaps(pos.Plus(ProbeOffsets[i]))
    ensures PostAdjust(body, pos) == pos
  {
  }
}
