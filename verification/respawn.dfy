/** The F2 respawn override: a single F2 records the hero's scene and
    position (anchored to the nearest `RespawnMarker` when there is one) as
    a custom respawn point, or clears it when one is set; a death while it
    is set marks the hero as just respawned, and the next scene entry moves
    the hero back to the recorded point. A double F2 teleports to the
    custom point, or else to the game's own bench respawn point. */
module Respawn {
  import opened Wrappers
  import opened Teleport

  /** `_f2OverrideActive`, `_repositionScene`, `_repositionPos`,
      `_repositionMarker`, `_repositionLocalOffset`, `_playerJustRespawned`.
      An empty scene stands for `null`. */
  datatype Override = Override(
    active: bool,
    scene: string,
    pos: Vec,
    anchor: Option<string>,
    offset: Vec,
    justRespawned: bool)

  /** The state after `ClearF2Marker`, which is also the initial state. */
  const Cleared: Override := Override(false, "", Origin, None, Origin, false)

  /** The nearest marker to `pos`; among equally near markers the first, as
      the strict `<` of the source's scan keeps it. */
  function Nearest(markers: seq<Marker>, pos: Vec): (r: Option<Marker>)
    ensures r.Some? <==> |markers| > 0
    ensures r.Some? ==> exists i :: 0 <= i < |markers| && markers[i] == r.value &&
                                    forall j :: 0 <= j < i ==> SqDist(markers[j].pos, pos) > SqDist(r.value.pos, pos)
    ensures r.Some? ==> forall j :: 0 <= j < |markers| ==> SqDist(r.value.pos, pos) <= SqDist(markers[j].pos, pos)
  {
    if |markers| == 0 then None
    else
      var rest := Nearest(markers[1..], pos);
      assert forall j :: 1 <= j < |markers| ==> markers[j] == markers[1..][j - 1];
      if rest.None? || SqDist(markers[0].pos, pos) <= SqDist(rest.value.pos, pos) then Some(markers[0])
      else
        var i :| 0 <= i < |markers[1..]| && markers[1..][i] == rest.value &&
                 forall j :: 0 <= j < i ==> SqDist(markers[1..][j].pos, pos) > SqDist(rest.value.pos, pos);
        assert markers[i + 1] == rest.value;
        rest
  }

  /** `TryQuickRestAndSave`, the delayed single F2: nothing when the game is
      not ready; clears a set override; otherwise records the active scene
      and the hero's position, anchored to the nearest marker by the offset
      from it. */
  function QuickRest(o: Override, ready: bool, scene: string, pos: Vec, markers: seq<Marker>): (r: Override)
    ensures !ready ==> r == o
    ensures ready && o.active ==> r == Cleared
    ensures ready && !o.active ==>
      r.active && r.scene == scene && r.pos == pos && r.justRespawned == o.justRespawned &&
      (|markers| == 0 <==> r.anchor.None?)
    ensures ready && !o.active && |markers| > 0 ==>
      r.anchor == Some(Nearest(markers, pos).value.name) &&
      Nearest(markers, pos).value.pos.Plus(r.offset) == pos
  {
    if !ready then o
    else if o.active then Cleared
    else
      match Nearest(markers, pos)
      case Some(m) => Override(true, scene, pos, Some(m.name), pos.Minus(m.pos), o.justRespawned)
      case None => Override(true, scene, pos, None, Origin, o.justRespawned)
  }

  /** Two single F2s with the game ready switch the override on and off
      again, leaving it cleared. */
  lemma QuickRestToggles(o: Override, s1: string, p1: Vec, m1: seq<Marker>, s2: string, p2: Vec, m2: seq<Marker>)
    requires !o.active
    ensures QuickRest(QuickRest(o, true, s1, p1, m1), true, s2, p2, m2) == Cleared
  {
  }

  /** The `HeroController.Die` hook: a death counts only while the override
      is set. */
  function Died(o: Override): (r: Override)
    ensures r.justRespawned <==> o.justRespawned || o.active
    ensures r.(justRespawned := o.justRespawned) == o
  {
    if o.active then o.(justRespawned := true) else o
  }

  /** What a hook starts: nothing, `RepositionAfterEnter`, or
      `DelayedF2TeleportAfterRespawn`. */
  datatype Reaction = NoReaction | RepositionAfterEnter | DelayedTeleport

  predicate Pending(o: Override) {
    o.active && o.scene != "" && o.justRespawned
  }

  /** The `FinishedEnteringScene` hook: a pending respawn is consumed here
      and starts the delayed teleport. */
  function FinishedEntering(o: Override): (r: (Override, Reaction))
    ensures r.1 == DelayedTeleport <==> Pending(o)
    ensures r.1 == DelayedTeleport ==> r.0 == o.(justRespawned := false)
    ensures r.1 == NoReaction ==> r.0 == o
    ensures !r.0.justRespawned || r.0 == o
  {
    if Pending(o) then (o.(justRespawned := false), DelayedTeleport) else (o, NoReaction)
  }

  /** `OnActiveSceneChanged` as written: entering the recorded scene with a
      pending respawn starts `RepositionAfterEnter`, which only clears the
      flag once it has moved the hero. */
  function SceneChangedAsWritten(o: Override, to: string): (r: (Override, Reaction))
    ensures r.1 == RepositionAfterEnter <==> Pending(o) && to == o.scene
    ensures r.0 == o
  {
    if Pending(o) && to == o.scene then (o, RepositionAfterEnter) else (o, NoReaction)
  }

  /** `OnActiveSceneChanged` with the flag consumed as the reposition
      starts, as `FinishedEnteringScene` does. */
  function SceneChanged(o: Override, to: string): (r: (Override, Reaction))
    ensures r.1 == RepositionAfterEnter <==> Pending(o) && to == o.scene
    ensures r.1 == RepositionAfterEnter ==> r.0 == o.(justRespawned := false)
    ensures r.1 == NoReaction ==> r.0 == o
  {
    if Pending(o) && to == o.scene then (o.(justRespawned := false), RepositionAfterEnter) else (o, NoReaction)
  }

  /** The end of `RepositionAfterEnter`, which clears the flag. */
  function RepositionFinished(o: Override): (r: Override)
    ensures !r.justRespawned && r.(justRespawned := o.justRespawned) == o
  {
    o.(justRespawned := false)
  }

  /** What happens to the override over time. */
  datatype Event =
    | Death
    | SceneChange(to: string)
    | EnteredScene
    | RepositionDone
    | SingleF2(ready: bool, scene: string, pos: Vec, markers: seq<Marker>)

  /** One event, with `OnActiveSceneChanged` as written (`asWritten`) or
      corrected. */
  function Step(asWritten: bool, o: Override, e: Event): (Override, Reaction) {
    match e
    case Death => (Died(o), NoReaction)
    case SceneChange(to) => if asWritten then SceneChangedAsWritten(o, to) else SceneChanged(o, to)
    case EnteredScene => FinishedEntering(o)
    case RepositionDone => (RepositionFinished(o), NoReaction)
    case SingleF2(ready, scene, pos, markers) => (QuickRest(o, ready, scene, pos, markers), NoReaction)
  }

  function Run(asWritten: bool, o: Override, evs: seq<Event>): (r: (Override, seq<Reaction>))
    ensures |r.1| == |evs|
    decreases |evs|
  {
    if |evs| == 0 then (o, [])
    else
      var s := Step(asWritten, o, evs[0]);
      var rest := Run(asWritten, s.0, evs[1..]);
      (rest.0, [s.1] + rest.1)
  }

  /** The number of repositions started in a reaction log. */
  function Starts(log: seq<Reaction>): nat
    decreases |log|
  {
    if |log| == 0 then 0 else (if log[0] != NoReaction then 1 else 0) + Starts(log[1..])
  }

  /** The number of deaths among the events. */
  function Deaths(evs: seq<Event>): nat
    decreases |evs|
  {
    if |evs| == 0 then 0 else (if evs[0].Death? then 1 else 0) + Deaths(evs[1..])
  }

  /** With the flag consumed as each reposition starts, every death moves
      the hero back at most once: no run starts more repositions than it
      has deaths (plus one for a respawn already pending). */
  lemma {:induction false} OneRepositionPerDeath(o: Override, evs: seq<Event>)
    ensures Starts(Run(false, o, evs).1) <= Deaths(evs) + (if o.justRespawned then 1 else 0)
    decreases |evs|
  {
    if |evs| > 0 {
      var s := Step(false, o, evs[0]);
      OneRepositionPerDeath(s.0, evs[1..]);
      var log := Run(false, o, evs).1;
      assert log[0] == s.1 && log[1..] == Run(false, s.0, evs[1..]).1;
    }
  }

  /** As written, a single death in the recorded scene starts two
      repositions: the scene change starts `RepositionAfterEnter` without
      clearing the flag, and `FinishedEnteringScene` then sees it still
      set and starts the delayed teleport too. */
  lemma AsWrittenRepositionsTwice(o: Override)
    requires o.active && o.scene != "" && !o.justRespawned
    ensures var evs := [Death, SceneChange(o.scene), EnteredScene];
      Deaths(evs) == 1 && Run(true, o, evs).1 == [NoReaction, RepositionAfterEnter, DelayedTeleport] &&
      Starts(Run(true, o, evs).1) == 2
  {
    var evs := [Death, SceneChange(o.scene), EnteredScene];
    var o1 := Died(o);
    assert Pending(o1);
    var tail := [EnteredScene];
    assert Run(true, o1, tail).1 == [DelayedTeleport] by {
      assert tail[1..] == [];
    }
    assert Run(true, o1, [SceneChange(o.scene)] + tail).1 == [RepositionAfterEnter, DelayedTeleport] by {
      assert ([SceneChange(o.scene)] + tail)[1..] == tail;
    }
    assert evs[1..] == [SceneChange(o.scene)] + tail;
    var log := Run(true, o, evs).1;
    assert log == [NoReaction, RepositionAfterEnter, DelayedTeleport];
    assert Starts(log[1..][1..]) == 1 by {
      assert log[1..][1..] == [DelayedTeleport];
      assert log[1..][1..][1..] == [];
    }
    assert Deaths(evs[1..]) == 0 by {
      assert evs[1..][1..] == tail && tail[1..] == [];
    }
  }

  /** The target `RepositionAfterEnter` aims at: the recorded anchor's
      position plus the recorded offset when the anchor is found by name,
      else the recorded position. */
  function RepositionTarget(o: Override, markers: seq<Marker>): (r: Vec)
    ensures o.anchor.None? ==> r == o.pos
  {
    match o.anchor
    case Some(name) =>
      var i := FirstNamed(markers, name);
      if i >= 0 then markers[i].pos.Plus(o.offset) else o.pos
    case None => o.pos
  }

  /** When the markers are the ones seen at recording time (with distinct
      names), the anchor and offset lead back to exactly the recorded
      position. */
  lemma AnchorRoundTrip(o: Override, scene: string, pos: Vec, markers: seq<Marker>)
    requires !o.active
    requires forall i, j :: 0 <= i < j < |markers| ==> markers[i].name != markers[j].name
    ensures RepositionTarget(QuickRest(o, true, scene, pos, markers), markers) == pos
  {
    var r := QuickRest(o, true, scene, pos, markers);
    if |markers| > 0 {
      var m := Nearest(markers, pos).value;
      var k :| 0 <= k < |markers| && markers[k] == m;
      var i := FirstNamed(markers, m.name);
      assert i == k;
    }
  }

  /** `TryTeleportToSetRespawnPoint`, the double F2: the custom point when
      one is set (directly in the same scene, else through a scene load);
      else the game's bench respawn point, directly when its marker is in
      the active scene at a position other than the origin, else through a
      scene load; nothing when the game is not ready or has no respawn
      point. */
  function DoubleF2Plan(o: Override, ready: bool, current: string, respawnScene: string, respawnMarker: string, markers: seq<Marker>): (r: Plan)
    ensures !ready ==> r == Stay
    ensures ready && o.active && o.scene != "" ==>
      r == (if current == o.scene then Direct(o.pos) else ViaPosition(o.scene, o.pos))
    ensures ready && !(o.active && o.scene != "") ==>
      (r == Stay <==> respawnScene == "" || respawnMarker == "")
    ensures r.Direct? && !(o.active && o.scene != "") ==>
      current == respawnScene && r.pos == PositionInScene(markers, respawnMarker) && r.pos != Origin
    ensures r.ViaMarker? ==> r == ViaMarker(respawnScene, respawnMarker)
  {
    if !ready then Stay
    else if o.active && o.scene != "" then
      if current == o.scene then Direct(o.pos) else ViaPosition(o.scene, o.pos)
    else if respawnScene == "" || respawnMarker == "" then Stay
    else if current == respawnScene && PositionInScene(markers, respawnMarker) != Origin then
      Direct(PositionInScene(markers, respawnMarker))
    else ViaMarker(respawnScene, respawnMarker)
  }

  /** `DelayedF2TeleportAfterRespawn`: back to the recorded position,
      directly in the same scene, else through a scene load. */
  function RespawnPlan(o: Override, current: string): (r: Plan)
    ensures r.Direct? <==> current == o.scene
    ensures r.Direct? || r.ViaPosition?
    ensures r.Direct? ==> r.pos == o.pos
    ensures r.ViaPosition? ==> r == ViaPosition(o.scene, o.pos)
  {
    if current == o.scene then Direct(o.pos) else ViaPosition(o.scene, o.pos)
  }

  /** After a consumed respawn, the delayed teleport and a double F2 go to
      the same place. */
  lemma RespawnPlanMatchesDoubleF2(o: Override, current: string, rs: string, rm: string, markers: seq<Marker>)
    requires o.active && o.scene != ""
    ensures RespawnPlan(o, current) == DoubleF2Plan(o, true, current, rs, rm, markers)
  {
  }
}
