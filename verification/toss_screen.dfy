/**
 The toss screen: flip a coin, scratch the card to reveal the outcome,
 celebrate, and return to idle. Every callback of the screen is an event,
 and the screen's state after a sequence of events is a left fold of Step.
 */
module TossScreen {
  import opened Grid
  import opened Tracker

  datatype Stage = Idle | Flipping | Scratch | Celebrate

  datatype Outcome = Head | Tail

  /** The screen's state. flipInFlight stands for the external flip animation
      between its start and its completion callback; resetTimerPending for the
      armed 7-second reset timer; celebrationShown for the celebration modal
      (whose buttons are the only way to request a manual reset).
      celebrations counts how often the reveal handler got past its latch,
      i.e. how often the success haptic and the drum roll were started; a
      reset does not clear it. */
  datatype State = State(
    stage: Stage,
    outcome: Outcome,
    session: Session,
    revealed: bool,
    celebrations: nat,
    celebrationShown: bool,
    resetTimerPending: bool,
    flipInFlight: bool,
    layout: Layout)

  const Initial: State := State(Idle, Head, Fresh, false, 0, false, false, false, Unmeasured)

  /** The callbacks the screen reacts to. StartToss carries the value the
      random source drew in [0, 1). Touch covers both the start and the move
      of a drag gesture. StaleTouch is a drag sample delivered by the
      gesture handler of an earlier render, which captured the scratch stage
      and so lets the sample through even though the stage has moved on to
      celebrate. */
  datatype Event =
    | StartToss(draw: real)
    | FlipComplete
    | Measure(width: real, height: real)
    | Touch(x: real, y: real)
    | StaleTouch(x: real, y: real)
    | ResetTimerElapsed
    | ResetPressed

  /** The two events that end a session. */
  predicate IsReset(e: Event) {
    e.ResetTimerElapsed? || e.ResetPressed?
  }

  /** Outcome chosen from the random draw: heads when it exceeds one half, so
      a draw of exactly one half gives tails. */
  function Toss(draw: real): (o: Outcome)
    ensures o == Head <==> draw > 0.5
    ensures o == Tail <==> draw <= 0.5
  {
    if draw > 0.5 then Head else Tail
  }

  /** Ends the session: cancels the timer, clears the latch, the cells and the
      progress, hides the celebration and returns to idle. */
  function ResetExperience(s: State): (r: State)
    ensures r.stage == Idle && r.session == Fresh
    ensures !r.revealed && !r.celebrationShown && !r.resetTimerPending
    ensures r.outcome == s.outcome && r.layout == s.layout && r.flipInFlight == s.flipInFlight
  {
    s.(stage := Idle, session := Fresh, revealed := false,
       celebrationShown := false, resetTimerPending := false)
  }

  /** The one-shot reveal: the first call latches, celebrates, starts the
      celebration effects and arms the reset timer; every later call before
      a reset does nothing. */
  function HandleReveal(s: State): (r: State)
    ensures s.revealed ==> r == s
    ensures !s.revealed ==> && r.revealed && r.stage == Celebrate && r.celebrationShown
                            && r.resetTimerPending && r.celebrations == s.celebrations + 1
    ensures r.session == s.session && r.outcome == s.outcome && r.layout == s.layout
  {
    if s.revealed then s
    else s.(revealed := true, stage := Celebrate, celebrationShown := true,
            resetTimerPending := true, celebrations := s.celebrations + 1)
  }

  /** Starting a toss is only possible from idle: it clears the session,
      draws the outcome and starts the flip animation. */
  function StartTossStep(s: State, draw: real): (r: State)
    ensures s.stage != Idle ==> r == s
    ensures s.stage == Idle ==>
              && r.stage == Flipping && r.flipInFlight && r.outcome == Toss(draw)
              && r.session == Fresh && !r.revealed && !r.resetTimerPending
              && r.layout == s.layout && r.celebrations == s.celebrations
  {
    if s.stage == Flipping || s.stage == Celebrate || s.stage == Scratch then s
    else
      assert s.stage.Idle?;
      s.(stage := Flipping, outcome := Toss(draw), session := Fresh,
         revealed := false, resetTimerPending := false, flipInFlight := true)
  }

  /** The flip animation's completion callback moves to scratching. */
  function FlipCompleteStep(s: State): (r: State)
    ensures !s.flipInFlight ==> r == s
    ensures s.flipInFlight ==> && r.stage == Scratch && !r.flipInFlight
                               && r == s.(stage := Scratch, flipInFlight := false)
  {
    if s.flipInFlight then s.(stage := Scratch, flipInFlight := false) else s
  }

  /** The sample routine the gesture handler runs once its stage check has
      passed: the tracker marks the sample, and its reveal request goes to
      the one-shot reveal. */
  function Sample(s: State, x: real, y: real): State {
    var out := ScratchPoint(s.session, s.layout, x, y);
    var s' := s.(session := out.session);
    if out.requestsReveal then HandleReveal(s') else s'
  }

  /** A drag sample: ignored outside the scratch stage, otherwise sampled.
      Before the reveal, the stage moves to celebrate exactly when the
      sample brings at least half the grid in. */
  function TouchStep(s: State, x: real, y: real): (r: State)
    ensures s.stage != Scratch || !Measured(s.layout) ==> r == s
    ensures s.stage == Scratch && Measured(s.layout) ==>
              && r.session.cells == s.session.cells + SampleCells(s.layout, x, y)
              && (!s.revealed ==> (r.stage == Celebrate <==> 2 * |r.session.cells| >= CellCount))
  {
    if s.stage != Scratch then s else Sample(s, x, y)
  }

  /** A sample from the handler of an earlier render. Such a handler captured
      the scratch stage, and the only stage that follows scratch before the
      next render is celebrate, so the sample runs unchecked in both. */
  function StaleTouchStep(s: State, x: real, y: real): State {
    if s.stage == Scratch || s.stage == Celebrate then Sample(s, x, y) else s
  }

  function Step(s: State, e: Event): State {
    match e
    case StartToss(draw) => StartTossStep(s, draw)
    case FlipComplete => FlipCompleteStep(s)
    case Measure(w, h) => s.(layout := Layout(w, h))
    case Touch(x, y) => TouchStep(s, x, y)
    case StaleTouch(x, y) => StaleTouchStep(s, x, y)
    case ResetTimerElapsed => if s.resetTimerPending then ResetExperience(s) else s
    case ResetPressed => if s.celebrationShown then ResetExperience(s) else s
  }

  function Run(s: State, events: seq<Event>): State
    decreases |events|
  {
    if |events| == 0 then s else Run(Step(s, events[0]), events[1..])
  }

  /** The invariant of every reachable state. The latch, the celebration, the
      armed timer and the celebrate stage go together; the animation is in
      flight exactly while flipping; idle and flipping hold an empty session;
      while scratching less than half the grid is marked, and in celebrate at
      least half. */
  predicate Inv(s: State) {
    && WellFormed(s.session)
    && (s.flipInFlight <==> s.stage == Flipping)
    && (s.revealed <==> s.stage == Celebrate)
    && (s.celebrationShown <==> s.stage == Celebrate)
    && (s.resetTimerPending <==> s.stage == Celebrate)
    && (s.stage == Idle || s.stage == Flipping ==> s.session == Fresh)
    && (s.stage == Scratch ==> 2 * |s.session.cells| < CellCount)
    && (s.stage == Celebrate ==> 2 * |s.session.cells| >= CellCount)
  }

  lemma InitialInv()
    ensures Inv(Initial)
  {
  }

  /** Every event preserves the invariant. */
  lemma StepInv(s: State, e: Event)
    requires Inv(s)
    ensures Inv(Step(s, e))
  {
    if e.Touch? || e.StaleTouch? {
      ScratchPointWellFormed(s.session, s.layout, e.x, e.y);
      if Measured(s.layout) {
        MarkMonotone(s.session, SampleCells(s.layout, e.x, e.y));
      }
    }
  }

  lemma {:induction false} RunInv(s: State, events: seq<Event>)
    requires Inv(s)
    ensures Inv(Run(s, events))
    decreases |events|
  {
    if |events| > 0 {
      StepInv(s, events[0]);
      RunInv(Step(s, events[0]), events[1..]);
    }
  }

  /** Every state reachable from the initial one satisfies the invariant; in
      particular every stored cell is in the grid and coverage is in [0, 1]. */
  lemma ReachableInv(events: seq<Event>)
    ensures Inv(Run(Initial, events))
    ensures AllInGrid(Run(Initial, events).session.cells)
    ensures 0.0 <= Coverage(Run(Initial, events).session.cells) <= 1.0
  {
    RunInv(Initial, events);
    CoverageBounds(Run(Initial, events).session.cells);
  }

  /** A toss can only be started from idle; from idle it clears the session
      and the latch, draws the outcome and starts flipping, and the flip's
      completion then opens the scratch stage on an empty card. */
  lemma StartTossGuard(s: State, draw: real)
    ensures s.stage != Idle ==> Step(s, StartToss(draw)) == s
    ensures s.stage == Idle ==>
              var t := Step(s, StartToss(draw));
              && t.stage == Flipping && t.outcome == Toss(draw) && t.session == Fresh && !t.revealed
              && var u := Step(t, FlipComplete);
                 u.stage == Scratch && u.session == Fresh && !u.revealed && u.outcome == Toss(draw)
  {
  }

  /** Touch samples outside the scratch stage, or on an unmeasured surface,
      change nothing. */
  lemma TouchIgnored(s: State, x: real, y: real)
    requires s.stage != Scratch || !Measured(s.layout)
    ensures Step(s, Touch(x, y)) == s
  {
  }

  /** A touch in the scratch stage marks exactly the sample's footprint and
      celebrates exactly when that brings at least half the grid in. */
  lemma TouchInScratch(s: State, x: real, y: real)
    requires Inv(s) && s.stage == Scratch && Measured(s.layout)
    ensures var t := Step(s, Touch(x, y));
            && t.session.cells == s.session.cells + SampleCells(s.layout, x, y)
            && (t.stage == Celebrate <==> 2 * |t.session.cells| >= CellCount)
            && (t.stage == Celebrate || t.stage == Scratch)
  {
  }

  /** A single event other than a reset never unmarks a cell and never
      lowers the published progress. */
  lemma StepGrows(s: State, e: Event)
    requires Inv(s) && !IsReset(e)
    ensures s.session.cells <= Step(s, e).session.cells
    ensures s.session.published <= Step(s, e).session.published
  {
    if (e.Touch? || e.StaleTouch?) && Measured(s.layout) {
      MarkPublishedMonotone(s.session, SampleCells(s.layout, e.x, e.y));
    }
  }

  /** Within a session (no reset event) no marked cell is ever lost, so the
      coverage never decreases, and the published progress never decreases
      either. */
  lemma {:induction false} SessionGrows(s: State, events: seq<Event>)
    requires Inv(s)
    requires forall i :: 0 <= i < |events| ==> !IsReset(events[i])
    ensures s.session.cells <= Run(s, events).session.cells
    ensures Coverage(s.session.cells) <= Coverage(Run(s, events).session.cells)
    ensures s.session.published <= Run(s, events).session.published
    decreases |events|
  {
    if |events| > 0 {
      StepInv(s, events[0]);
      StepGrows(s, events[0]);
      SessionGrows(Step(s, events[0]), events[1..]);
    }
    CoverageMonotone(s.session.cells, Run(s, events).session.cells);
  }

  /** The reveal fires on this event: the reveal handler gets past its latch
      and starts the celebration. */
  predicate Fires(s: State, e: Event) {
    Step(s, e).celebrations != s.celebrations
  }

  /** Number of events in the run on which the reveal fires. */
  function RevealCount(s: State, events: seq<Event>): nat
    decreases |events|
  {
    if |events| == 0 then 0
    else (if Fires(s, events[0]) then 1 else 0) + RevealCount(Step(s, events[0]), events[1..])
  }

  /** The reveal fires on an event exactly when a sample in the scratch stage
      brings the marked cells to at least half the grid. A stale sample in
      celebrate also requests the reveal, but meets the latch. */
  lemma FiresIffThreshold(s: State, e: Event)
    requires Inv(s)
    ensures Fires(s, e) <==>
              && (e.Touch? || e.StaleTouch?) && s.stage == Scratch && Measured(s.layout)
              && 2 * |(s.session.cells + SampleCells(s.layout, e.x, e.y))| >= CellCount
  {
  }

  /** Once latched, the latch stays set and never fires again until a reset. */
  lemma {:induction false} LatchHolds(s: State, events: seq<Event>)
    requires Inv(s) && s.revealed
    requires forall i :: 0 <= i < |events| ==> !IsReset(events[i])
    ensures Run(s, events).revealed
    ensures RevealCount(s, events) == 0
    decreases |events|
  {
    if |events| > 0 {
      StepInv(s, events[0]);
      LatchHolds(Step(s, events[0]), events[1..]);
    }
  }

  /** Within a session the reveal fires at most once, however many later
      samples also exceed the threshold. */
  lemma {:induction false} RevealAtMostOnce(s: State, events: seq<Event>)
    requires Inv(s)
    requires forall i :: 0 <= i < |events| ==> !IsReset(events[i])
    ensures RevealCount(s, events) <= 1
    decreases |events|
  {
    if |events| > 0 {
      var t := Step(s, events[0]);
      StepInv(s, events[0]);
      if Fires(s, events[0]) {
        LatchHolds(t, events[1..]);
      } else {
        RevealAtMostOnce(t, events[1..]);
      }
    }
  }

  /** A manual reset from the celebration ends the session; the armed timer
      is cancelled, so its later expiry changes nothing; a new toss then
      starts from an empty card with the latch clear. Whatever happens after
      that, in any later scratch stage the latch is clear and a touch fires
      the reveal exactly when it brings the marked cells to half the grid:
      the next threshold crossing fires the reveal again. */
  lemma ResetRearms(s: State, draw: real, events: seq<Event>, x: real, y: real)
    requires Inv(s) && s.stage == Celebrate
    ensures var r := Step(s, ResetPressed);
            && r.stage == Idle && r.session == Fresh && !r.revealed && !r.resetTimerPending
            && Step(r, ResetTimerElapsed) == r
            && var u := Step(Step(r, StartToss(draw)), FlipComplete);
               && u.stage == Scratch && u.session == Fresh && !u.revealed
               && var t := Run(u, events);
                  t.stage == Scratch ==>
                    && !t.revealed
                    && (Fires(t, Touch(x, y)) <==>
                          Measured(t.layout)
                          && 2 * |t.session.cells + SampleCells(t.layout, x, y)| >= CellCount)
  {
    var r := Step(s, ResetPressed);
    var u := Step(Step(r, StartToss(draw)), FlipComplete);
    StepInv(s, ResetPressed);
    StepInv(r, StartToss(draw));
    StepInv(Step(r, StartToss(draw)), FlipComplete);
    RunInv(u, events);
    FiresIffThreshold(Run(u, events), Touch(x, y));
  }

  /** In celebrate the card is frozen for the current render: touches and new
      tosses change nothing, and no event short of a reset leaves the stage. */
  lemma CelebrateFrozen(s: State, e: Event)
    requires Inv(s) && s.stage == Celebrate && !IsReset(e)
    ensures !e.StaleTouch? ==> Step(s, e).session == s.session
    ensures Step(s, e).stage == Celebrate && !Fires(s, e)
  {
  }

  /** A stale sample that arrives after the reveal still marks its footprint,
      but the latch stops its reveal request: the celebration is not started
      again and the reset timer is not re-armed. Only the session changes. */
  lemma StaleTouchLatched(s: State, x: real, y: real)
    requires Inv(s) && s.stage == Celebrate
    ensures Step(s, StaleTouch(x, y)) == s.(session := ScratchPoint(s.session, s.layout, x, y).session)
  {
  }

  /** Touching the same point twice in a row marks nothing the first touch
      did not already mark, and changes nothing else either. */
  lemma TouchTwice(s: State, x: real, y: real)
    requires Inv(s)
    ensures Step(Step(s, Touch(x, y)), Touch(x, y)) == Step(s, Touch(x, y))
  {
  }
}
