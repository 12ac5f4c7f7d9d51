// The state machine of the number-tapping game as values: a snapshot of
// the component's state, one function per transition (each React handler
// taken as one atomic update, the phase effect included), the invariant
// every reachable snapshot keeps, and the lemmas about them.

module GameRules {
  import opened Shuffle

  datatype Phase = NotStarted | Running | Finished

  /** The stopwatch: no interval scheduled, or one scheduled at time start. */
  datatype Timer = Stopped | Active(start: int)

  /** gameState, currentNumber, tapped, grid, elapsed and the interval handle. */
  datatype Snapshot = Snapshot(phase: Phase, current: int, tapped: set<int>, grid: seq<int>,
                               elapsed: int, timer: Timer)

  /** The numbers 1..n-1: the tiles that must be tapped before tile n. */
  function Below(n: int): (r: set<int>)
    ensures forall k :: k in r <==> 1 <= k < n
    decreases n
  {
    if n <= 1 then {} else Below(n - 1) + {n - 1}
  }

  /** The initial state of a mounted widget; with a shuffled grid it satisfies the invariant. */
  function Mount(grid: seq<int>): (r: Snapshot)
    ensures IsPermutation(grid) ==> Inv(r)
  {
    Snapshot(NotStarted, 1, {}, grid, 0, Stopped)
  }

  /** stopTimer: clear the interval if one is scheduled. */
  function WithTimerStopped(s: Snapshot): (r: Snapshot)
    ensures r.timer == Stopped
    ensures r.(timer := s.timer) == s
  {
    if s.timer.Active? then s.(timer := Stopped) else s
  }

  /**
   * setGameState(p) together with the effect on gameState.  Setting the
   * phase it already has leaves the state as it is, so the effect does not
   * run again; on a change, the previous effect's cleanup stops the timer,
   * and the new effect stops it again when the phase is finished.
   */
  function AfterPhaseChange(s: Snapshot, p: Phase): (r: Snapshot)
    ensures r.phase == p
    ensures r.(phase := s.phase, timer := s.timer) == s
    ensures p != s.phase ==> r.timer == Stopped
    ensures p == s.phase ==> r == s
  {
    if p == s.phase then s
    else
      var entered := WithTimerStopped(s).(phase := p);
      if p == Finished then WithTimerStopped(entered) else entered
  }

  /** handleClick(num) at clock time now; newGrid is the grid the reshuffle would produce. */
  function AfterClick(s: Snapshot, num: int, now: int, newGrid: seq<int>): (r: Snapshot)
    ensures r.elapsed == s.elapsed
    ensures r.tapped == s.tapped || r.tapped == s.tapped + {num}
    ensures r.grid == s.grid || r.grid == newGrid
  {
    if s.phase != Running then s
    else if num != s.current then s
    else
      var started := if num == 1 then s.(timer := Active(now)) else s;
      var marked := started.(tapped := started.tapped + {num});
      if s.current == Size then AfterPhaseChange(WithTimerStopped(marked), Finished)
      else marked.(current := s.current + 1, grid := newGrid)
  }

  /** The Start Game button's handler: set the phase to running. */
  function AfterStart(s: Snapshot): (r: Snapshot)
    ensures r.phase == Running
    ensures r.(phase := s.phase, timer := s.timer) == s
  {
    AfterPhaseChange(s, Running)
  }

  /** restart with newGrid as the reshuffled grid. */
  function AfterRestart(s: Snapshot, newGrid: seq<int>): (r: Snapshot)
    ensures r.phase == NotStarted && r.current == 1 && r.tapped == {} && r.grid == newGrid && r.elapsed == 0
    ensures s.phase != NotStarted ==> r.timer == Stopped
    ensures s.phase == NotStarted ==> r.timer == s.timer
  {
    AfterPhaseChange(s, NotStarted).(current := 1, tapped := {}, grid := newGrid, elapsed := 0)
  }

  /** One interval callback at clock time now. */
  function AfterTick(s: Snapshot, now: int): (r: Snapshot)
    ensures r.(elapsed := s.elapsed) == s
  {
    if s.timer.Active? then s.(elapsed := now - s.timer.start) else s
  }

  /** What holds in every state the widget can reach. */
  ghost predicate Inv(s: Snapshot)
  {
    && IsPermutation(s.grid)
    && 1 <= s.current <= Size
    && (s.phase == NotStarted ==> s.current == 1)
    && (s.phase != Finished ==> s.tapped == Below(s.current))
    && (s.phase == Finished ==> s.current == Size && s.tapped == Below(Size + 1))
    && (s.timer.Active? <==> s.phase == Running && s.current > 1)
    && (s.phase != Finished && s.current == 1 ==> s.elapsed == 0)
  }

  // ---- Events: what the host forwards into the widget ----

  datatype Event =
    | Tap(num: int, now: int, picks: seq<int>)
    | StartGame
    | Restart(picks: seq<int>)
    | Tick(now: int)

  /** The oracle indices carried by an event are in range. */
  predicate ValidEvent(e: Event)
  {
    match e
    case Tap(_, _, picks) => ValidPicks(picks)
    case Restart(picks) => ValidPicks(picks)
    case _ => true
  }

  /** The Start Game button is rendered only while the game has not started. */
  predicate StartAvailable(s: Snapshot)
  {
    s.phase == NotStarted
  }

  /** The Restart button is rendered only on the completion screen. */
  predicate RestartAvailable(s: Snapshot)
  {
    s.phase == Finished
  }

  /**
   * One event; a press of a button that is not rendered cannot happen and
   * changes nothing.  Start Game only ever sets a not-started game running,
   * Restart only ever takes a finished game back to a freshly mounted one,
   * and taps and ticks leave the rest of the state to their handlers.
   */
  function Step(s: Snapshot, e: Event): (r: Snapshot)
    requires ValidEvent(e)
    ensures e.StartGame? ==> r == s || (s.phase == NotStarted && r.(timer := s.timer) == s.(phase := Running))
    ensures e.Restart? ==> r == s || (s.phase == Finished && r == Mount(FisherYates(e.picks)))
    ensures e.Tap? ==> r.elapsed == s.elapsed
    ensures e.Tick? ==> r.(elapsed := s.elapsed) == s
  {
    match e
    case Tap(num, now, picks) => AfterClick(s, num, now, FisherYates(picks))
    case StartGame => if StartAvailable(s) then AfterStart(s) else s
    case Restart(picks) => if RestartAvailable(s) then AfterRestart(s, FisherYates(picks)) else s
    case Tick(now) => AfterTick(s, now)
  }

  predicate ValidEvents(evs: seq<Event>)
  {
    forall k :: 0 <= k < |evs| ==> ValidEvent(evs[k])
  }

  /** The state after the events evs, in order. */
  function Run(s: Snapshot, evs: seq<Event>): Snapshot
    requires ValidEvents(evs)
  {
    if evs == [] then s else Step(Run(s, evs[..|evs| - 1]), evs[|evs| - 1])
  }

  // ---- The invariant ----

  /** The tiles below n + 1 are those below n and n itself. */
  lemma BelowSucc(n: int)
    requires n >= 1
    ensures Below(n + 1) == Below(n) + {n}
  {
  }

  /** There are n - 1 tiles below tile n. */
  lemma {:induction false} BelowCard(n: int)
    requires n >= 1
    ensures |Below(n)| == n - 1
    decreases n
  {
    if n > 1 {
      BelowCard(n - 1);
    }
  }

  /** Before the game is finished, the target is one more than the number of tiles tapped; after, all 25 are tapped. */
  lemma TappedCount(s: Snapshot)
    requires Inv(s)
    ensures s.phase != Finished ==> |s.tapped| == s.current - 1
    ensures s.phase == Finished ==> |s.tapped| == Size
  {
    BelowCard(s.current);
    BelowCard(Size + 1);
  }

  lemma ClickInv(s: Snapshot, num: int, now: int, newGrid: seq<int>)
    requires Inv(s) && IsPermutation(newGrid)
    ensures Inv(AfterClick(s, num, now, newGrid))
  {
  }

  lemma StartInv(s: Snapshot)
    requires Inv(s) && StartAvailable(s)
    ensures Inv(AfterStart(s))
  {
  }

  lemma RestartInv(s: Snapshot, newGrid: seq<int>)
    requires Inv(s) && IsPermutation(newGrid)
    ensures Inv(AfterRestart(s, newGrid))
  {
  }

  lemma TickInv(s: Snapshot, now: int)
    requires Inv(s)
    ensures Inv(AfterTick(s, now))
  {
  }

  lemma StepInv(s: Snapshot, e: Event)
    requires Inv(s) && ValidEvent(e)
    ensures Inv(Step(s, e))
  {
    match e
    case Tap(num, now, picks) =>
      ClickInv(s, num, now, FisherYates(picks));
    case StartGame =>
      if StartAvailable(s) { StartInv(s); }
    case Restart(picks) =>
      if RestartAvailable(s) { RestartInv(s, FisherYates(picks)); }
    case Tick(now) =>
      TickInv(s, now);
  }

  /** Every event sequence keeps the invariant. */
  lemma {:induction false} RunInv(s: Snapshot, evs: seq<Event>)
    requires Inv(s) && ValidEvents(evs)
    ensures Inv(Run(s, evs))
  {
    if evs != [] {
      var init := evs[..|evs| - 1];
      assert ValidEvents(init);
      RunInv(s, init);
      StepInv(Run(s, init), evs[|evs| - 1]);
    }
  }

  /** Every state reachable from mounting keeps the invariant. */
  lemma ReachableInv(picks: seq<int>, evs: seq<Event>)
    requires ValidPicks(picks) && ValidEvents(evs)
    ensures Inv(Run(Mount(FisherYates(picks)), evs))
  {
    RunInv(Mount(FisherYates(picks)), evs);
  }

  // ---- handleClick ----

  /** A tap while not running, or on any tile but the target, changes nothing. */
  lemma ClickGuards(s: Snapshot, num: int, now: int, newGrid: seq<int>)
    requires s.phase != Running || num != s.current
    ensures AfterClick(s, num, now, newGrid) == s
  {
  }

  /** An accepted tap of n < 25 marks n, advances the target to n + 1, keeps running and installs the new grid. */
  lemma ClickAdvances(s: Snapshot, now: int, newGrid: seq<int>)
    requires Inv(s) && s.phase == Running && s.current < Size
    ensures var t := AfterClick(s, s.current, now, newGrid);
            && s.current !in s.tapped
            && t.tapped == s.tapped + {s.current}
            && t.current == s.current + 1
            && t.phase == Running
            && t.grid == newGrid
            && t.elapsed == s.elapsed
            && t.timer == (if s.current == 1 then Active(now) else s.timer)
  {
  }

  /** The accepted tap of 25 marks it, finishes the game, stops the timer, and keeps the target and the grid. */
  lemma ClickFinishes(s: Snapshot, now: int, newGrid: seq<int>)
    requires Inv(s) && s.phase == Running && s.current == Size
    ensures var t := AfterClick(s, Size, now, newGrid);
            && t.tapped == s.tapped + {Size} == Below(Size + 1)
            && t.phase == Finished
            && t.timer == Stopped
            && t.current == Size
            && t.grid == s.grid
            && t.elapsed == s.elapsed
  {
  }

  /** A tile that was already tapped is never accepted again. */
  lemma NoRetap(s: Snapshot, num: int, now: int, newGrid: seq<int>)
    requires Inv(s) && num in s.tapped
    ensures AfterClick(s, num, now, newGrid) == s
  {
  }

  // ---- The timer ----

  /** stopTimer is idempotent. */
  lemma StopTimerIdempotent(s: Snapshot)
    ensures WithTimerStopped(WithTimerStopped(s)) == WithTimerStopped(s)
    ensures WithTimerStopped(s).timer == Stopped
  {
  }

  /** In a reachable state only the accepted tap of 1 starts the timer. */
  lemma TimerStartsOnlyOnFirstTap(s: Snapshot, e: Event)
    requires Inv(s) && ValidEvent(e)
    requires !s.timer.Active? && Step(s, e).timer.Active?
    ensures e.Tap? && e.num == 1 && s.phase == Running && s.current == 1
    ensures Step(s, e).timer == Active(e.now)
  {
  }

  /** While the timer is active a tick sets elapsed to the time since its start; otherwise a tick changes nothing. */
  lemma TickSetsElapsed(s: Snapshot, now: int)
    ensures s.timer.Active? ==> AfterTick(s, now).elapsed == now - s.timer.start
    ensures !s.timer.Active? ==> AfterTick(s, now) == s
  {
  }

  /** Once the game is finished the elapsed time is frozen: ticks change nothing. */
  lemma FinishedIsFrozen(s: Snapshot, now: int)
    requires Inv(s) && s.phase == Finished
    ensures AfterTick(s, now) == s
  {
  }

  // ---- Start and restart ----

  /** Start Game changes only the phase, to running. */
  lemma StartChangesOnlyPhase(s: Snapshot)
    requires Inv(s) && StartAvailable(s)
    ensures AfterStart(s) == s.(phase := Running)
  {
  }

  /** restart from any reachable state gives the mounted state with the new grid; the timer is stopped. */
  lemma RestartResets(s: Snapshot, newGrid: seq<int>)
    requires Inv(s)
    ensures AfterRestart(s, newGrid) == Mount(newGrid)
  {
  }

  /** restart twice is restart once, up to the grid drawn. */
  lemma RestartIdempotent(s: Snapshot, newGrid1: seq<int>, newGrid2: seq<int>)
    ensures AfterRestart(AfterRestart(s, newGrid1), newGrid2) == AfterRestart(s, newGrid2)
  {
  }

  /** Phases move NotStarted -> Running -> Finished -> NotStarted, never skipping one. */
  lemma PhaseOrder(s: Snapshot, e: Event)
    requires Inv(s) && ValidEvent(e)
    ensures s.phase == NotStarted ==> Step(s, e).phase in {NotStarted, Running}
    ensures s.phase == Running ==> Step(s, e).phase in {Running, Finished}
    ensures s.phase == Finished ==> Step(s, e).phase in {Finished, NotStarted}
  {
  }

  // ---- A full game ----

  /** The taps 1, 2, ..., |evs| in that order. */
  predicate InOrderTaps(evs: seq<Event>)
  {
    forall k :: 0 <= k < |evs| ==> evs[k].Tap? && evs[k].num == k + 1 && ValidPicks(evs[k].picks)
  }

  /** Tapping 1..k in order from a just-started game leaves the game running with target k + 1, the timer at the first tap's time. */
  lemma {:induction false} TapsInOrder(s: Snapshot, evs: seq<Event>)
    requires Inv(s) && s.phase == Running && s.current == 1
    requires InOrderTaps(evs) && 1 <= |evs| < Size
    ensures ValidEvents(evs)
    ensures var t := Run(s, evs);
            t.phase == Running && t.current == |evs| + 1 && t.tapped == Below(|evs| + 1) &&
            t.timer == Active(evs[0].now)
  {
    var init := evs[..|evs| - 1];
    assert InOrderTaps(init);
    if |init| >= 1 {
      TapsInOrder(s, init);
      assert init[0] == evs[0];
    }
    var e := evs[|evs| - 1];
    RunInv(s, init);
    ClickAdvances(Run(s, init), e.now, FisherYates(e.picks));
    BelowSucc(|evs|);
  }

  /** Tapping 1..25 in order from a just-started game finishes it with all tiles tapped and the timer stopped. */
  lemma FullGame(s: Snapshot, evs: seq<Event>)
    requires Inv(s) && s.phase == Running && s.current == 1
    requires InOrderTaps(evs) && |evs| == Size
    ensures ValidEvents(evs)
    ensures var t := Run(s, evs);
            t.phase == Finished && t.current == Size && t.tapped == Below(Size + 1) && t.timer == Stopped
  {
    var init := evs[..|evs| - 1];
    assert InOrderTaps(init);
    TapsInOrder(s, init);
    RunInv(s, init);
    var e := evs[|evs| - 1];
    ClickFinishes(Run(s, init), e.now, FisherYates(e.picks));
  }
}
