/** The three timed key disambiguators of the plugin, as explicit-time state
    machines over integer milliseconds: F2 (single press sets the respawn
    point, double press teleports to it), Space / Y in the bench list
    (short press edits the name, double press edits the category, a hold of
    two seconds deletes), and the right arrow (double press toggles a
    favourite, single press in the category view enters the category).

    Each machine answers every frame or delayed-action resume with a `Tap`:
    a pending single press was armed, the pending press was answered by a
    second press (`Double`) or by the end of its window (`Single`), or
    nothing happened. */
module InputKeys {
  import opened Wrappers

  /** The double-press window of F2 (`F2DoubleTapWindow`). */
  const F2WindowMillis: int := 350
  /** The debounce of F2 outside a double-press window (`KeyCooldown`). */
  const KeyCooldownMillis: int := 200
  /** The double-press window of Space and Y (`DoubleSpaceEditSeconds`). */
  const EditWindowMillis: int := 200
  /** The hold that deletes a bench (`SpaceDeleteHoldSeconds`). */
  const HoldDeleteMillis: int := 2000
  /** The "not being timed" marker of `_spaceKeyDownAt` and `_yButtonDownAt`:
      `-1f` seconds, that is minus one second. */
  const NotTimedMillis: int := -1000
  /** The navigation debounce (`NavCooldown`). */
  const NavCooldownMillis: int := 80
  /** The double-press window of the right arrow (`DoubleTapWindow`). */
  const RightWindowMillis: int := 200

  datatype Tap = Quiet | Armed(at: int) | Single(at: int) | Double(at: int)

  /** A log of taps in which every `Single` and `Double` answers the most
      recent `Armed` that nothing has answered yet: a `Double` comes at most
      `window` after it, a `Single` at least `delay` after it, and neither
      can answer the same arming twice. `armed` is the arming still open at
      the start of the log. */
  predicate Bracketed(log: seq<Tap>, armed: Option<int>, window: int, delay: int)
    decreases |log|
  {
    if |log| == 0 then true
    else match log[0]
      case Quiet => Bracketed(log[1..], armed, window, delay)
      case Armed(t) => Bracketed(log[1..], Some(t), window, delay)
      case Single(t) => armed.Some? && t >= armed.value + delay && Bracketed(log[1..], None, window, delay)
      case Double(t) => armed.Some? && t <= armed.value + window && Bracketed(log[1..], None, window, delay)
  }

  /** The number of answers (`Single` or `Double`) in a log. */
  function Answers(log: seq<Tap>): nat
    decreases |log|
  {
    if |log| == 0 then 0
    else (if log[0].Single? || log[0].Double? then 1 else 0) + Answers(log[1..])
  }

  /** The number of armings in a log. */
  function Armings(log: seq<Tap>): nat
    decreases |log|
  {
    if |log| == 0 then 0 else (if log[0].Armed? then 1 else 0) + Armings(log[1..])
  }

  /** In a bracketed log every answer has its own arming: there are never
      more answers than armings (plus the one open at the start). */
  lemma {:induction false} BracketedAnswersOnce(log: seq<Tap>, armed: Option<int>, window: int, delay: int)
    requires Bracketed(log, armed, window, delay)
    ensures Answers(log) <= Armings(log) + (if armed.Some? then 1 else 0)
    decreases |log|
  {
    if |log| > 0 {
      match log[0]
      case Quiet => BracketedAnswersOnce(log[1..], armed, window, delay);
      case Armed(t) => BracketedAnswersOnce(log[1..], Some(t), window, delay);
      case Single(t) => BracketedAnswersOnce(log[1..], None, window, delay);
      case Double(t) => BracketedAnswersOnce(log[1..], None, window, delay);
    }
  }

  /** Forgetting the open arming never breaks bracketing: a log bracketed
      with nothing open stays bracketed whatever is open. */
  lemma {:induction false} BracketedFromNone(log: seq<Tap>, armed: Option<int>, window: int, delay: int)
    requires Bracketed(log, None, window, delay)
    ensures Bracketed(log, armed, window, delay)
    decreases |log|
  {
    if |log| > 0 && log[0].Quiet? {
      BracketedFromNone(log[1..], armed, window, delay);
    }
  }

  // ---------------------------------------------------------------------------
  // F2: single press sets the respawn point, double press teleports to it
  // ---------------------------------------------------------------------------

  /** `_pendingF2Single`, `_pendingF2Start`, `_lastF2PressTime` and
      `_padQuickRestHeldPrev`. */
  datatype F2State = F2State(pending: bool, start: int, lastPress: int, padHeldPrev: bool)

  /** One frame of input: the keyboard key went down this frame, and the
      gamepad combination is held (already `false` when gamepad support is
      off). */
  datatype F2Input = F2Input(keyDown: bool, padHeld: bool)

  /** The F2 part of `Update`. A press counts when the key went down or the
      pad combination was newly pressed, the plugin's window is closed, and
      either the debounce has passed or a pending single is still inside
      its window. Inside the window the press is a double (the pending
      single is cancelled); otherwise it arms a new pending single. */
  function F2Frame(st: F2State, now: int, input: F2Input, uiOpen: bool): (r: (F2State, Tap))
    ensures r.0.padHeldPrev == input.padHeld
    ensures r.1.Double? ==> st.pending && now - st.start <= F2WindowMillis && !r.0.pending
    ensures r.1.Armed? ==> r.0.pending && r.0.start == now && r.1.at == now
    ensures r.1.Quiet? ==> r.0 == st.(padHeldPrev := input.padHeld)
    ensures !r.1.Single?
  {
    var padDown := input.padHeld && !st.padHeldPrev;
    var withinDouble := st.pending && now - st.start <= F2WindowMillis;
    var cooldownOk := now - st.lastPress > KeyCooldownMillis || withinDouble;
    var pressed := (input.keyDown || padDown) && !uiOpen && cooldownOk;
    var st1 := st.(padHeldPrev := input.padHeld);
    if !pressed then (st1, Quiet)
    else if withinDouble then (st1.(lastPress := now, pending := false), Double(now))
    else (st1.(lastPress := now, pending := true, start := now), Armed(now))
  }

  /** A resume of `SingleF2AfterDelay`: once the window since the arming
      has passed, a still-pending single runs (`TryQuickRestAndSave`) and
      stops being pending. */
  function F2Resume(st: F2State, now: int): (r: (F2State, Tap))
    ensures r.1.Single? ==> st.pending && now >= st.start + F2WindowMillis && r.0 == st.(pending := false)
    ensures !r.1.Single? ==> r == (st, Quiet)
  {
    if st.pending && now >= st.start + F2WindowMillis then (st.(pending := false), Single(now))
    else (st, Quiet)
  }

  datatype F2Event = F2Update(now: int, input: F2Input, uiOpen: bool) | F2Wake(now: int)

  /** Runs F2 over a sequence of frames and resumes, logging the taps. */
  function F2Run(st: F2State, evs: seq<F2Event>): (r: (F2State, seq<Tap>))
    ensures |r.1| == |evs|
    decreases |evs|
  {
    if |evs| == 0 then (st, [])
    else
      var step := match evs[0]
        case F2Update(now, input, uiOpen) => F2Frame(st, now, input, uiOpen)
        case F2Wake(now) => F2Resume(st, now);
      var rest := F2Run(step.0, evs[1..]);
      (rest.0, [step.1] + rest.1)
  }

  function F2Open(st: F2State): Option<int> {
    if st.pending then Some(st.start) else None
  }

  /** Whatever the frames and resumes, every double press and every delayed
      single answers its own arming: a double within 350 ms of it, a single
      no earlier than 350 ms after it, and each arming is answered at most
      once. */
  lemma {:induction false} F2RunBracketed(st: F2State, evs: seq<F2Event>)
    ensures Bracketed(F2Run(st, evs).1, F2Open(st), F2WindowMillis, F2WindowMillis)
    decreases |evs|
  {
    if |evs| > 0 {
      var step := match evs[0]
        case F2Update(now, input, uiOpen) => F2Frame(st, now, input, uiOpen)
        case F2Wake(now) => F2Resume(st, now);
      F2RunBracketed(step.0, evs[1..]);
      var log := F2Run(st, evs).1;
      assert log[0] == step.1 && log[1..] == F2Run(step.0, evs[1..]).1;
    }
  }

  /** A second press inside the window is a double at once, whatever the
      debounce says, and cancels the pending single. */
  lemma F2SecondPressIsDouble(st: F2State, now: int, input: F2Input)
    requires st.pending && now - st.start <= F2WindowMillis
    requires input.keyDown
    ensures F2Frame(st, now, input, false).1 == Double(now)
    ensures !F2Frame(st, now, input, false).0.pending
  {
  }

  /** Outside a double window, a press within the debounce of the last one
      is ignored. */
  lemma F2DebounceIgnores(st: F2State, now: int, input: F2Input, uiOpen: bool)
    requires !(st.pending && now - st.start <= F2WindowMillis)
    requires now - st.lastPress <= KeyCooldownMillis
    ensures F2Frame(st, now, input, uiOpen) == (st.(padHeldPrev := input.padHeld), Quiet)
  {
  }

  /** Holding the pad combination is one press: after the frame that saw it
      pressed, further held frames do nothing. */
  lemma F2HeldPadPressesOnce(st: F2State, now: int, later: int)
    ensures var s1 := F2Frame(st, now, F2Input(false, true), false).0;
      F2Frame(s1, later, F2Input(false, true), false) == (s1, Quiet)
  {
  }

  /** The single only runs after its window: a resume before the window
      ends keeps it pending, and once it ran it never runs again. */
  lemma F2SingleRunsOnce(st: F2State, t1: int, t2: int)
    requires st.pending && t1 >= st.start + F2WindowMillis
    ensures F2Resume(st, t1).1 == Single(t1)
    ensures F2Resume(F2Resume(st, t1).0, t2).1 == Quiet
    ensures t2 < st.start + F2WindowMillis ==> F2Resume(st, t2) == (st, Quiet)
  {
  }

  // ---------------------------------------------------------------------------
  // Space and Y in the bench list
  // ---------------------------------------------------------------------------

  /** What a key is doing this frame, as the `IsDown` / `IsPressed` / `IsUp`
      (or `WasPressed` / `IsPressed` / `WasReleased`) chain sees it. */
  datatype KeyPhase = Down | Held | Up | Idle

  /** `_spaceKeyDownAt`, `_spaceDeleteTriggered`, `_pendingSpaceSingle`,
      `_pendingSpaceIndex`, `_pendingSpaceStart` (and the same five for Y).
      `downAt` is `NotTimedMillis` (minus one second) when the key is not
      being timed. */
  datatype EditKeyState = EditKeyState(downAt: int, deleteFired: bool, pending: bool, pendingIndex: int, pendingStart: int)

  datatype EditAction =
    | NoEdit
    | DeleteBench(index: int)     // `RemoveBenchAtIndex(_selected)`
    | EditCategory                // `StartEditingCategoryFromChild`
    | ArmEdit                     // a delayed single edit starts waiting
    | EditName(index: int)        // `StartEditing` after the window
    | EditDropped                 // the window passed but the selection moved

  /** The frame's outcome: the key's state, `_lastNavTime`, and the action. */
  datatype EditStep = EditStep(st: EditKeyState, lastNav: int, action: EditAction)

  /** One frame of Space (`marksNav` false) or Y (`marksNav` true; Y also
      stamps `_lastNavTime` on a short press) while the bench list is shown
      and not empty. Going down starts timing; holding two seconds deletes
      the selected bench once; letting go of a short press (outside the
      navigation debounce) either answers a pending edit of the same bench
      inside its window with a category edit, or arms a new pending edit. */
  function EditKeyFrame(st: EditKeyState, lastNav: int, now: int, phase: KeyPhase, selected: int, marksNav: bool): (r: EditStep)
    ensures r.action.DeleteBench? ==>
      phase == Held && st.downAt > 0 && !st.deleteFired && now - st.downAt >= HoldDeleteMillis &&
      r.action.index == selected && r.st.deleteFired && r.lastNav == now
    ensures r.action.EditCategory? ==>
      phase == Up && !st.deleteFired && st.pending && st.pendingIndex == selected &&
      now - st.pendingStart <= EditWindowMillis && !r.st.pending
    ensures r.action.ArmEdit? ==> phase == Up && !st.deleteFired && r.st.pending && r.st.pendingIndex == selected && r.st.pendingStart == now
    ensures !r.action.EditName? && !r.action.EditDropped?
    ensures phase == Up ==> r.st.downAt == NotTimedMillis && !r.st.deleteFired
  {
    match phase
    case Down => EditStep(st.(downAt := now, deleteFired := false), lastNav, NoEdit)
    case Held =>
      if st.downAt > 0 && !st.deleteFired && now - st.downAt >= HoldDeleteMillis then
        EditStep(st.(deleteFired := true), now, DeleteBench(selected))
      else EditStep(st, lastNav, NoEdit)
    case Up =>
      var released := st.(downAt := NotTimedMillis, deleteFired := false);
      if !st.deleteFired && now - st.downAt < HoldDeleteMillis && now - lastNav > NavCooldownMillis then
        var nav := if marksNav then now else lastNav;
        if st.pending && st.pendingIndex == selected && now - st.pendingStart <= EditWindowMillis then
          EditStep(released.(pending := false), nav, EditCategory)
        else
          EditStep(released.(pending := true, pendingIndex := selected, pendingStart := now), nav, ArmEdit)
      else EditStep(released, lastNav, NoEdit)
    case Idle => EditStep(st, lastNav, NoEdit)
  }

  /** A resume of `SingleSpaceEditAfterDelay` / `SingleYEditAfterDelay`:
      once the window has passed, a still-pending edit runs on the bench it
      was armed on, or is dropped when the selection moved meanwhile. */
  function EditResume(st: EditKeyState, lastNav: int, now: int, selected: int): (r: EditStep)
    ensures r.action.EditName? ==> st.pending && now >= st.pendingStart + EditWindowMillis && r.action.index == st.pendingIndex == selected
    ensures r.action.EditDropped? ==> st.pending && now >= st.pendingStart + EditWindowMillis && selected != st.pendingIndex
    ensures r.action.EditName? || r.action.EditDropped? || r == EditStep(st, lastNav, NoEdit)
    ensures r.st == st || r.st == st.(pending := false)
  {
    if st.pending && now >= st.pendingStart + EditWindowMillis then
      if selected == st.pendingIndex then EditStep(st.(pending := false), now, EditName(selected))
      else EditStep(st.(pending := false), lastNav, EditDropped)
    else EditStep(st, lastNav, NoEdit)
  }

  function EditTap(a: EditAction, now: int): Tap {
    match a
    case ArmEdit => Armed(now)
    case EditCategory => Double(now)
    case EditName(_) => Single(now)
    case EditDropped => Single(now)
    case _ => Quiet
  }

  datatype EditEvent = EditUpdate(now: int, phase: KeyPhase, selected: int) | EditWake(now: int, selected: int)

  function EditStepOf(st: EditKeyState, lastNav: int, e: EditEvent, marksNav: bool): EditStep {
    match e
    case EditUpdate(now, phase, selected) => EditKeyFrame(st, lastNav, now, phase, selected, marksNav)
    case EditWake(now, selected) => EditResume(st, lastNav, now, selected)
  }

  function EventTime(e: EditEvent): int {
    match e
    case EditUpdate(now, _, _) => now
    case EditWake(now, _) => now
  }

  /** Runs one edit key over a sequence of frames and resumes, logging the
      actions. */
  function EditRun(st: EditKeyState, lastNav: int, evs: seq<EditEvent>, marksNav: bool): (r: (EditKeyState, seq<EditAction>, seq<Tap>))
    ensures |r.1| == |evs| && |r.2| == |evs|
    decreases |evs|
  {
    if |evs| == 0 then (st, [], [])
    else
      var s := EditStepOf(st, lastNav, evs[0], marksNav);
      var rest := EditRun(s.st, s.lastNav, evs[1..], marksNav);
      (rest.0, [s.action] + rest.1, [EditTap(s.action, EventTime(evs[0]))] + rest.2)
  }

  function EditOpen(st: EditKeyState): Option<int> {
    if st.pending then Some(st.pendingStart) else None
  }

  /** Every category edit and every delayed name edit answers its own
      arming: a category edit within 200 ms of it, a name edit no earlier
      than 200 ms after it, never both, never twice. */
  lemma {:induction false} EditRunBracketed(st: EditKeyState, lastNav: int, evs: seq<EditEvent>, marksNav: bool)
    ensures Bracketed(EditRun(st, lastNav, evs, marksNav).2, EditOpen(st), EditWindowMillis, EditWindowMillis)
    decreases |evs|
  {
    if |evs| > 0 {
      var s := EditStepOf(st, lastNav, evs[0], marksNav);
      EditRunBracketed(s.st, s.lastNav, evs[1..], marksNav);
      var log := EditRun(st, lastNav, evs, marksNav).2;
      assert log[0] == EditTap(s.action, EventTime(evs[0]));
      assert log[1..] == EditRun(s.st, s.lastNav, evs[1..], marksNav).2;
    }
  }

  /** The number of deletions in an action log. */
  function Deletions(log: seq<EditAction>): nat
    decreases |log|
  {
    if |log| == 0 then 0 else (if log[0].DeleteBench? then 1 else 0) + Deletions(log[1..])
  }

  /** The key can no longer delete until it goes down again: it already
      deleted, or it is not being timed. */
  predicate Spent(st: EditKeyState) {
    st.deleteFired || st.downAt <= 0
  }

  predicate IsDown(e: EditEvent) {
    e.EditUpdate? && e.phase == Down
  }

  /** Between two presses the hold deletes at most once: over any frames
      and resumes in which the key does not go down again, there is at most
      one deletion, and none once the key is spent. */
  lemma {:induction false} OneDeletePerPress(st: EditKeyState, lastNav: int, evs: seq<EditEvent>, marksNav: bool)
    requires forall i :: 0 <= i < |evs| ==> !IsDown(evs[i])
    ensures Deletions(EditRun(st, lastNav, evs, marksNav).1) <= (if Spent(st) then 0 else 1)
    decreases |evs|
  {
    if |evs| > 0 {
      var s := EditStepOf(st, lastNav, evs[0], marksNav);
      assert Spent(st) ==> Spent(s.st) && !s.action.DeleteBench?;
      assert s.action.DeleteBench? ==> Spent(s.st);
      OneDeletePerPress(s.st, s.lastNav, evs[1..], marksNav);
      var log := EditRun(st, lastNav, evs, marksNav).1;
      assert log[0] == s.action && log[1..] == EditRun(s.st, s.lastNav, evs[1..], marksNav).1;
    }
  }

  /** A release after a hold-delete edits nothing and arms nothing. */
  lemma ReleaseAfterDeleteIsQuiet(st: EditKeyState, lastNav: int, now: int, selected: int, marksNav: bool)
    requires st.deleteFired
    ensures EditKeyFrame(st, lastNav, now, Up, selected, marksNav) ==
      EditStep(st.(downAt := NotTimedMillis, deleteFired := false), lastNav, NoEdit)
  {
  }

  /** A release seen while the key is not being timed (the press went down
      before the list opened) counts as a short press only in the first
      second of the game clock: from then on the marker is at least two
      seconds old and the release only resets the hold. */
  lemma UntimedReleaseIsQuiet(st: EditKeyState, lastNav: int, now: int, selected: int, marksNav: bool)
    requires st.downAt == NotTimedMillis && now >= NotTimedMillis + HoldDeleteMillis
    ensures EditKeyFrame(st, lastNav, now, Up, selected, marksNav) == EditStep(st.(deleteFired := false), lastNav, NoEdit)
  {
  }

  /** A short press released outside the navigation debounce, with no
      pending edit of this bench, arms a delayed name edit; when nothing
      else happens it runs on that bench after 200 ms. */
  lemma ShortPressEditsName(st: EditKeyState, lastNav: int, t0: int, t1: int, t2: int, selected: int, marksNav: bool)
    requires 0 < t0 && t0 <= t1 && t1 - t0 < HoldDeleteMillis && t1 - lastNav > NavCooldownMillis
    requires !st.pending
    requires t2 >= t1 + EditWindowMillis
    ensures var s0 := EditKeyFrame(st, lastNav, t0, Down, selected, marksNav);
      var s1 := EditKeyFrame(s0.st, s0.lastNav, t1, Up, selected, marksNav);
      s1.action == ArmEdit && EditResume(s1.st, s1.lastNav, t2, selected).action == EditName(selected)
  {
  }

  // ---------------------------------------------------------------------------
  // Right arrow: double press toggles a favourite, single press enters
  // ---------------------------------------------------------------------------

  /** `_pendingEnterOnRight`, `_pendingEnterDeadline`,
      `_lastRightWasOnCategory`, `_lastRightCategoryIndex`,
      `_lastRightChildBenchIndex`. */
  datatype RightState = RightState(pending: bool, deadline: int, onCategory: bool, category: int, child: int)

  /** One navigation frame: whether the right arrow was pressed, whether
      the frame moved up/down or pressed left, which view is shown, the
      selected category and child before navigation, and the selected
      category after this frame's up/down wrap-around. */
  datatype RightInput = RightInput(
    now: int, right: bool, moved: bool, inCategoryView: bool,
    category: int, child: int, categoryAfterNav: int)

  datatype RightAction =
    | RightQuiet
    | ArmRight
    | ToggleFavorite(onCategory: bool, category: int, child: int)
    | EnterCategory(category: int)

  /** The right-arrow part of `HandleTwoLevelNavigation`. Moving or pressing
      left drops a pending press. A second press before the deadline in the
      same place (same view, category and, in the child view, child)
      toggles the favourite of that category or bench; any other press arms
      a new pending press. In the category view a pending press that
      outlives its deadline, with the selection still on its category,
      enters the category. */
  function RightFrame(st: RightState, input: RightInput): (r: (RightState, RightAction))
    ensures r.1.ToggleFavorite? ==>
      input.right && !input.moved && st.pending && input.now <= st.deadline && !r.0.pending &&
      r.1 == ToggleFavorite(input.inCategoryView, input.category, input.child) &&
      st.onCategory == input.inCategoryView && st.category == input.category &&
      (input.inCategoryView || st.child == input.child)
    ensures r.1.EnterCategory? ==>
      !input.right && !input.moved && input.inCategoryView && st.pending && st.onCategory &&
      input.now > st.deadline && input.categoryAfterNav == st.category && !r.0.pending &&
      r.1.category == st.category
    ensures r.1.ArmRight? ==> input.right && r.0.pending && r.0.deadline == input.now + RightWindowMillis
    ensures r.1 == RightQuiet ==> r.0 == (if input.moved then st.(pending := false) else st)
  {
    var st1 := if input.moved then st.(pending := false) else st;
    if input.right then
      var same := st1.onCategory == input.inCategoryView && st1.category == input.category &&
                  (input.inCategoryView || st1.child == input.child);
      if st1.pending && input.now <= st1.deadline && same then
        (st1.(pending := false), ToggleFavorite(input.inCategoryView, input.category, input.child))
      else
        (RightState(true, input.now + RightWindowMillis, input.inCategoryView, input.category, input.child), ArmRight)
    else if input.inCategoryView && st1.pending && st1.onCategory && input.now > st1.deadline &&
            input.categoryAfterNav == st1.category then
      (st1.(pending := false), EnterCategory(st1.category))
    else (st1, RightQuiet)
  }

  function RightTap(a: RightAction, now: int): Tap {
    match a
    case ArmRight => Armed(now)
    case ToggleFavorite(_, _, _) => Double(now)
    case EnterCategory(_) => Single(now)
    case RightQuiet => Quiet
  }

  function RightRun(st: RightState, inputs: seq<RightInput>): (r: (RightState, seq<Tap>))
    ensures |r.1| == |inputs|
    decreases |inputs|
  {
    if |inputs| == 0 then (st, [])
    else
      var step := RightFrame(st, inputs[0]);
      var rest := RightRun(step.0, inputs[1..]);
      (rest.0, [RightTap(step.1, inputs[0].now)] + rest.1)
  }

  function RightOpen(st: RightState): Option<int> {
    if st.pending then Some(st.deadline - RightWindowMillis) else None
  }

  /** Every favourite toggle and every category entry answers its own right
      press: a toggle within 200 ms of it, an entry more than 200 ms after
      it, never both, never twice. */
  lemma {:induction false} RightRunBracketed(st: RightState, inputs: seq<RightInput>)
    ensures Bracketed(RightRun(st, inputs).1, RightOpen(st), RightWindowMillis, RightWindowMillis + 1)
    decreases |inputs|
  {
    if |inputs| > 0 {
      var step := RightFrame(st, inputs[0]);
      RightRunBracketed(step.0, inputs[1..]);
      if step.1 == RightQuiet && inputs[0].moved {
        BracketedFromNone(RightRun(step.0, inputs[1..]).1, RightOpen(st), RightWindowMillis, RightWindowMillis + 1);
      }
      var log := RightRun(st, inputs).1;
      assert log[0] == RightTap(step.1, inputs[0].now);
      assert log[1..] == RightRun(step.0, inputs[1..]).1;
    }
  }

  /** In the child view a single right press never does anything but arm:
      only a double press toggles the bench's favourite. */
  lemma ChildViewNeverEnters(st: RightState, input: RightInput)
    requires !input.inCategoryView
    ensures !RightFrame(st, input).1.EnterCategory?
  {
  }

  /** With no press pending, two presses 200 ms apart or less on the same
      category, with no movement, toggle its favourite and do not enter it. */
  lemma RightDoubleTogglesCategory(st: RightState, t0: int, t1: int, cat: int, child: int)
    requires !st.pending
    requires t0 <= t1 <= t0 + RightWindowMillis
    ensures var s0 := RightFrame(st, RightInput(t0, true, false, true, cat, child, cat)).0;
      RightFrame(s0, RightInput(t1, true, false, true, cat, child, cat)).1 == ToggleFavorite(true, cat, child)
  {
  }
}
