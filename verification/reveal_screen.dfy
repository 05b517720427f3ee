/**
 The reveal screen: the card is scratched until the outcome shows, then a
 ten-second celebration counts down once per second before the screen
 resets. Every callback of the screen is an event, and the state after a
 sequence of events is a left fold of Step.
 */
module RevealScreen {
  import opened Grid
  import opened Tracker

  datatype Stage = Scratch | Celebrate

  /** Length of the celebration countdown in seconds. */
  const CountdownStart: int := 10

  /** The screen's state. resetTimerPending stands for the armed 10-second
      reset timer, countdownRunning for the armed one-second interval that
      decrements remaining. celebrations counts how often the reveal handler
      got past its latch, i.e. how often the success haptic and the drum roll
      were started; a reset does not clear it. */
  datatype State = State(
    stage: Stage,
    session: Session,
    revealed: bool,
    celebrations: nat,
    remaining: int,
    resetTimerPending: bool,
    countdownRunning: bool,
    layout: Layout)

  const Initial: State := State(Scratch, Fresh, false, 0, 0, false, false, Unmeasured)

  /** The callbacks the screen reacts to. Touch covers both the start and the
      move of a drag gesture; Tick is one firing of the countdown interval;
      BackPressed is the always-visible back button. StaleTouch is a drag
      sample delivered by the gesture handler of an earlier render, which
      captured the scratch stage and so lets the sample through even though
      the stage has moved on to celebrate. */
  datatype Event =
    | Measure(width: real, height: real)
    | Touch(x: real, y: real)
    | StaleTouch(x: real, y: real)
    | Tick
    | ResetTimerElapsed
    | BackPressed

  /** The two events that end a session. */
  predicate IsReset(e: Event) {
    e.ResetTimerElapsed? || e.BackPressed?
  }

  /** One countdown tick as the interval's state updater computes it: values
      above one step down by one, anything else becomes zero. */
  function CountdownStep(prev: int): (next: int)
    ensures 0 <= next
    ensures prev >= 1 ==> next == prev - 1
    ensures next <= prev || next == 0
  {
    if prev <= 1 then 0 else prev - 1
  }

  /** The countdown after n ticks. */
  function Countdown(prev: int, n: nat): int
    decreases n
  {
    if n == 0 then prev else Countdown(CountdownStep(prev), n - 1)
  }

  /** From a non-negative start, n ticks subtract n, stopping at zero: the
      countdown never goes negative and reaches zero after start ticks. */
  lemma {:induction false} CountdownClosedForm(prev: int, n: nat)
    requires 0 <= prev
    ensures Countdown(prev, n) == if prev - n > 0 then prev - n else 0
    decreases n
  {
    if n > 0 {
      CountdownClosedForm(CountdownStep(prev), n - 1);
    }
  }

  /** Ends the session: cancels both timers, clears the latch, the cells, the
      progress and the countdown, and returns to the scratch stage. */
  function ResetExperience(s: State): (r: State)
    ensures r.stage == Scratch && r.session == Fresh && !r.revealed
    ensures r.remaining == 0 && !r.resetTimerPending && !r.countdownRunning
    ensures r.layout == s.layout
  {
    s.(stage := Scratch, session := Fresh, revealed := false, remaining := 0,
       resetTimerPending := false, countdownRunning := false)
  }

  /** The one-shot reveal: the first call latches, celebrates, starts the
      celebration effects, sets the countdown to ten seconds and arms both
      timers; every later call before a reset does nothing. */
  function HandleReveal(s: State): (r: State)
    ensures s.revealed ==> r == s
    ensures !s.revealed ==> && r.revealed && r.stage == Celebrate && r.remaining == CountdownStart
                            && r.resetTimerPending && r.countdownRunning
                            && r.celebrations == s.celebrations + 1
    ensures r.session == s.session && r.layout == s.layout
  {
    if s.revealed then s
    else s.(revealed := true, stage := Celebrate, celebrations := s.celebrations + 1,
            remaining := CountdownStart, resetTimerPending := true, countdownRunning := true)
  }

  /** One interval firing: the countdown steps, and the interval cancels
      itself when the value it replaces is at most one. So a running interval
      keeps running exactly while the value it leaves on screen is positive. */
  function TickStep(s: State): (r: State)
    ensures !s.countdownRunning ==> r == s
    ensures s.countdownRunning ==>
              && r.remaining == CountdownStep(s.remaining)
              && (r.countdownRunning <==> r.remaining > 0)
              && r == s.(remaining := r.remaining, countdownRunning := r.countdownRunning)
  {
    if !s.countdownRunning then s
    else s.(remaining := CountdownStep(s.remaining), countdownRunning := !(s.remaining <= 1))
  }

  /** The sample routine the gesture handler runs once its stage check has
      passed: the tracker marks the sample, and its reveal request goes to
      the one-shot reveal. */
  function Sample(s: State, x: real, y: real): State {
    var out := ScratchPoint(s.session, s.layout, x, y);
    var s' := s.(session := out.session);
    if out.requestsReveal then HandleReveal(s') else s'
  }

  /** A drag sample: ignored outside the scratch stage, otherwise sampled.
      Before the reveal, the stage moves to celebrate, with a fresh ten-second
      countdown, exactly when the sample brings at least half the grid in. */
  function TouchStep(s: State, x: real, y: real): (r: State)
    ensures s.stage != Scratch || !Measured(s.layout) ==> r == s
    ensures s.stage == Scratch && Measured(s.layout) ==>
              && r.session.cells == s.session.cells + SampleCells(s.layout, x, y)
              && (!s.revealed ==> (r.stage == Celebrate <==> 2 * |r.session.cells| >= CellCount))
              && (!s.revealed && r.stage == Celebrate ==> r.remaining == CountdownStart)
  {
    if s.stage != Scratch then s else Sample(s, x, y)
  }

  function Step(s: State, e: Event): State {
    match e
    case Measure(w, h) => s.(layout := Layout(w, h))
    case Touch(x, y) => TouchStep(s, x, y)
    case StaleTouch(x, y) => Sample(s, x, y)
    case Tick => TickStep(s)
    case ResetTimerElapsed => if s.resetTimerPending then ResetExperience(s) else s
    case BackPressed => ResetExperience(s)
  }

  function Run(s: State, events: seq<Event>): State
    decreases |events|
  {
    if |events| == 0 then s else Run(Step(s, events[0]), events[1..])
  }

  /** The state after n ticks and nothing else. */
  function Ticked(s: State, n: nat): State
    decreases n
  {
    if n == 0 then s else Ticked(Step(s, Tick), n - 1)
  }

  /** The invariant of every reachable state. The latch, the armed reset
      timer and the celebrate stage go together; the countdown runs only in
      celebrate, with a value in [1, 10], and reads zero whenever it is not
      running; while scratching less than half the grid is marked, and in
      celebrate at least half. */
  predicate Inv(s: State) {
    && WellFormed(s.session)
    && (s.revealed <==> s.stage == Celebrate)
    && (s.resetTimerPending <==> s.stage == Celebrate)
    && (s.countdownRunning ==> s.stage == Celebrate && 1 <= s.remaining <= CountdownStart)
    && (!s.countdownRunning ==> s.remaining == 0)
    && (s.stage == Scratch ==> 2 * |s.session.cells| < CellCount)
    && (s.stage == Celebrate ==> 2 * |s.session.cells| >= CellCount)
  }

  lemma InitialInv()
    ensures Inv(Initial)
  {
  }

  /** Every event preserves the invariant. */
  lemma StepInv(s: State, e: Event)
    requires Inv(s)
    ensures Inv(Step(s, e))
  {
    if e.Touch? || e.StaleTouch? {
      ScratchPointWellFormed(s.session, s.layout, e.x, e.y);
      if Measured(s.layout) {
        MarkMonotone(s.session, SampleCells(s.layout, e.x, e.y));
      }
    }
  }

  lemma {:induction false} RunInv(s: State, events: seq<Event>)
    requires Inv(s)
    ensures Inv(Run(s, events))
    decreases |events|
  {
    if |events| > 0 {
      StepInv(s, events[0]);
      RunInv(Step(s, events[0]), events[1..]);
    }
  }

  /** Every state reachable from the initial one satisfies the invariant; in
      particular stored cells are in the grid, coverage is in [0, 1] and the
      countdown is in [0, 10]. */
  lemma ReachableInv(events: seq<Event>)
    ensures Inv(Run(Initial, events))
    ensures AllInGrid(Run(Initial, events).session.cells)
    ensures 0.0 <= Coverage(Run(Initial, events).session.cells) <= 1.0
    ensures 0 <= Run(Initial, events).remaining <= CountdownStart
  {
    RunInv(Initial, events);
    CoverageBounds(Run(Initial, events).session.cells);
  }

  /** Touch samples in celebrate, or on an unmeasured surface, change nothing:
      after the reveal the card is frozen. */
  lemma TouchIgnored(s: State, x: real, y: real)
    requires s.stage != Scratch || !Measured(s.layout)
    ensures Step(s, Touch(x, y)) == s
  {
  }

  /** A touch in the scratch stage marks exactly the sample's footprint and
      celebrates, with a fresh ten-second countdown, exactly when that brings
      at least half the grid in. */
  lemma TouchInScratch(s: State, x: real, y: real)
    requires Inv(s) && s.stage == Scratch && Measured(s.layout)
    ensures var t := Step(s, Touch(x, y));
            && t.session.cells == s.session.cells + SampleCells(s.layout, x, y)
            && (t.stage == Celebrate <==> 2 * |t.session.cells| >= CellCount)
            && (t.stage == Celebrate ==> t.remaining == CountdownStart && t.countdownRunning)
  {
  }

  /** While it runs, the countdown on the screen follows the tick function
      exactly: it loses one per tick, never goes negative and stops itself on
      reaching zero; the card stays frozen. */
  lemma {:induction false} CountdownTicks(s: State, n: nat)
    requires Inv(s) && s.countdownRunning
    ensures var t := Ticked(s, n);
            && t.remaining == Countdown(s.remaining, n)
            && t.remaining == (if s.remaining - n > 0 then s.remaining - n else 0)
            && (t.countdownRunning <==> n < s.remaining)
            && t.stage == Celebrate && t.session == s.session
    decreases n
  {
    CountdownClosedForm(s.remaining, n);
    if n > 0 {
      var t := Step(s, Tick);
      StepInv(s, Tick);
      if t.countdownRunning {
        CountdownTicks(t, n - 1);
      } else {
        StoppedTicks(t, n - 1);
        CountdownClosedForm(0, n - 1);
      }
    }
  }

  /** Ticks of a stopped countdown change nothing. */
  lemma {:induction false} StoppedTicks(s: State, n: nat)
    requires !s.countdownRunning
    ensures Ticked(s, n) == s
    decreases n
  {
    if n > 0 {
      StoppedTicks(Step(s, Tick), n - 1);
    }
  }

  /** The touch that crosses the threshold starts a countdown that reads
      10 - k after k ticks and has stopped at zero after ten. */
  lemma RevealCountdown(s: State, x: real, y: real, k: nat)
    requires Inv(s) && s.stage == Scratch && Measured(s.layout)
    requires 2 * |s.session.cells + SampleCells(s.layout, x, y)| >= CellCount
    requires k <= CountdownStart
    ensures var t := Step(s, Touch(x, y));
            && t.stage == Celebrate
            && Ticked(t, k).remaining == CountdownStart - k
            && (Ticked(t, k).countdownRunning <==> k < CountdownStart)
  {
    var t := Step(s, Touch(x, y));
    StepInv(s, Touch(x, y));
    CountdownTicks(t, k);
  }

  /** A single event other than a reset never unmarks a cell and never
      lowers the published progress. */
  lemma StepGrows(s: State, e: Event)
    requires Inv(s) && !IsReset(e)
    ensures s.session.cells <= Step(s, e).session.cells
    ensures s.session.published <= Step(s, e).session.published
  {
    if (e.Touch? || e.StaleTouch?) && Measured(s.layout) {
      MarkPublishedMonotone(s.session, SampleCells(s.layout, e.x, e.y));
    }
  }

  /** Within a session (no reset event) no marked cell is ever lost, so the
      coverage never decreases, and the published progress never decreases
      either. */
  lemma {:induction false} SessionGrows(s: State, events: seq<Event>)
    requires Inv(s)
    requires forall i :: 0 <= i < |events| ==> !IsReset(events[i])
    ensures s.session.cells <= Run(s, events).session.cells
    ensures Coverage(s.session.cells) <= Coverage(Run(s, events).session.cells)
    ensures s.session.published <= Run(s, events).session.published
    decreases |events|
  {
    if |events| > 0 {
      StepInv(s, events[0]);
      StepGrows(s, events[0]);
      SessionGrows(Step(s, events[0]), events[1..]);
    }
    CoverageMonotone(s.session.cells, Run(s, events).session.cells);
  }

  /** The reveal fires on this event: the reveal handler gets past its latch
      and starts the celebration. */
  predicate Fires(s: State, e: Event) {
    Step(s, e).celebrations != s.celebrations
  }

  /** Number of events in the run on which the reveal fires. */
  function RevealCount(s: State, events: seq<Event>): nat
    decreases |events|
  {
    if |events| == 0 then 0
    else (if Fires(s, events[0]) then 1 else 0) + RevealCount(Step(s, events[0]), events[1..])
  }

  /** Once latched, the latch stays set and never fires again until a reset. */
  lemma {:induction false} LatchHolds(s: State, events: seq<Event>)
    requires Inv(s) && s.revealed
    requires forall i :: 0 <= i < |events| ==> !IsReset(events[i])
    ensures Run(s, events).revealed
    ensures RevealCount(s, events) == 0
    decreases |events|
  {
    if |events| > 0 {
      StepInv(s, events[0]);
      LatchHolds(Step(s, events[0]), events[1..]);
    }
  }

  /** Within a session the reveal fires at most once. */
  lemma {:induction false} RevealAtMostOnce(s: State, events: seq<Event>)
    requires Inv(s)
    requires forall i :: 0 <= i < |events| ==> !IsReset(events[i])
    ensures RevealCount(s, events) <= 1
    decreases |events|
  {
    if |events| > 0 {
      var t := Step(s, events[0]);
      StepInv(s, events[0]);
      if Fires(s, events[0]) {
        LatchHolds(t, events[1..]);
      } else {
        RevealAtMostOnce(t, events[1..]);
      }
    }
  }

  /** The reveal fires on an event exactly when a sample in the scratch stage
      brings the marked cells to at least half the grid. A stale sample in
      celebrate also requests the reveal, but meets the latch. */
  lemma FiresIffThreshold(s: State, e: Event)
    requires Inv(s)
    ensures Fires(s, e) <==>
              && (e.Touch? || e.StaleTouch?) && s.stage == Scratch && Measured(s.layout)
              && 2 * |(s.session.cells + SampleCells(s.layout, e.x, e.y))| >= CellCount
  {
  }

  /** A stale sample that arrives after the reveal still marks its footprint,
      but the latch stops its reveal request: the countdown is not restarted
      at ten, neither timer is re-armed and the celebration is not started
      again. Only the session changes. */
  lemma StaleTouchLatched(s: State, x: real, y: real)
    requires Inv(s) && s.stage == Celebrate
    ensures Step(s, StaleTouch(x, y)) == s.(session := ScratchPoint(s.session, s.layout, x, y).session)
  {
  }

  /** Touching the same point twice in a row marks nothing the first touch
      did not already mark, and changes nothing else either. */
  lemma TouchTwice(s: State, x: real, y: real)
    requires Inv(s)
    ensures Step(Step(s, Touch(x, y)), Touch(x, y)) == Step(s, Touch(x, y))
  {
  }

  /** The back button resets from any stage: both timers are cancelled, so a
      later expiry or tick changes nothing, and the state is that of a freshly
      mounted screen except for the surface size already measured. The
      button also navigates back to the toss screen; when the screen is next
      opened it starts from that same fresh state. Whatever happens after
      that, while the stage is scratch the latch stays clear and a touch
      fires the reveal exactly when it brings the marked cells to half the
      grid: the next threshold crossing fires the reveal again. */
  lemma ResetRearms(s: State, events: seq<Event>, x: real, y: real)
    requires Inv(s)
    ensures var r := Step(s, BackPressed);
            && r == Initial.(layout := s.layout, celebrations := s.celebrations)
            && r.stage == Scratch && r.session == Fresh && !r.revealed && r.remaining == 0
            && Step(r, ResetTimerElapsed) == r && Step(r, Tick) == r
            && var t := Run(r, events);
               t.stage == Scratch ==>
                 && !t.revealed
                 && (Fires(t, Touch(x, y)) <==>
                       Measured(t.layout)
                       && 2 * |t.session.cells + SampleCells(t.layout, x, y)| >= CellCount)
  {
    var r := Step(s, BackPressed);
    StepInv(s, BackPressed);
    RunInv(r, events);
    FiresIffThreshold(Run(r, events), Touch(x, y));
  }
}
