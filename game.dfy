// The game component as an object: its state hooks are fields, and its
// handlers are methods that update them step by step.  The four handlers
// HandleClick, StartGame, Restart and Tick are proved to perform the
// transitions AfterClick, AfterStart, AfterRestart and AfterTick of
// GameRules and to keep Valid().  The helpers StartTimer, StopTimer and
// SetGameState each perform one step and do not keep Valid() on their own.
//
// Clock readings (Date.now) and the shuffle's random indices are inputs.

module Game {
  import opened Shuffle
  import opened GameRules

  class GameWidget {
    var phase: Phase        // gameState
    var currentNumber: int
    var tapped: set<int>
    var grid: seq<int>
    var elapsed: int
    var timer: Timer        // intervalRef.current and the start time its callback captured

    /** The widget's state as a value. */
    function State(): Snapshot
      reads this
    {
      Snapshot(phase, currentNumber, tapped, grid, elapsed, timer)
    }

    ghost predicate Valid()
      reads this
    {
      Inv(State())
    }

    /** Mounting: all state at its defaults, with a shuffled grid. */
    constructor (picks: seq<int>)
      requires ValidPicks(picks)
      ensures State() == Mount(FisherYates(picks))
      ensures Valid()
    {
      var g := ShuffleArray(picks);
      phase := NotStarted;
      currentNumber := 1;
      tapped := {};
      grid := g;
      elapsed := 0;
      timer := Stopped;
    }

    /** startTimer at clock time now; only called when no interval is scheduled, so none is leaked. */
    method StartTimer(now: int)
      requires timer == Stopped
      modifies this
      ensures State() == old(State()).(timer := Active(now))
    {
      timer := Active(now);
    }

    /** stopTimer: clear the interval when there is one. */
    method StopTimer()
      modifies this
      ensures State() == WithTimerStopped(old(State()))
      ensures timer == Stopped
    {
      if timer.Active? {
        timer := Stopped;
      }
    }

    /** setGameState(p), followed by the effect that depends on gameState. */
    method SetGameState(p: Phase)
      modifies this
      ensures State() == AfterPhaseChange(old(State()), p)
    {
      if p != phase {
        phase := p;
        StopTimer();  // cleanup of the previous effect
        if p == Finished {
          StopTimer();
        }
      }
    }

    /** handleClick(num) at clock time now; picks feed the reshuffle. */
    method HandleClick(num: int, now: int, picks: seq<int>)
      requires Valid() && ValidPicks(picks)
      modifies this
      ensures State() == AfterClick(old(State()), num, now, FisherYates(picks))
      ensures Valid()
    {
      ClickInv(State(), num, now, FisherYates(picks));
      if phase != Running {
        return;
      }
      if num != currentNumber {
        return;
      }
      if num == 1 {
        StartTimer(now);
      }
      tapped := tapped + {num};
      if currentNumber == Size {
        StopTimer();
        SetGameState(Finished);
      } else {
        currentNumber := currentNumber + 1;
        grid := ShuffleArray(picks);
      }
    }

    /** The Start Game button, which is rendered only before the game starts. */
    method StartGame()
      requires Valid() && StartAvailable(State())
      modifies this
      ensures State() == AfterStart(old(State()))
      ensures State() == old(State()).(phase := Running)
      ensures Valid()
    {
      StartInv(State());
      StartChangesOnlyPhase(State());
      SetGameState(Running);
    }

    /** restart; picks feed the reshuffle. */
    method Restart(picks: seq<int>)
      requires Valid() && ValidPicks(picks)
      modifies this
      ensures State() == AfterRestart(old(State()), FisherYates(picks))
      ensures State() == Mount(FisherYates(picks))
      ensures Valid()
    {
      RestartInv(State(), FisherYates(picks));
      RestartResets(State(), FisherYates(picks));
      SetGameState(NotStarted);
      currentNumber := 1;
      tapped := {};
      grid := ShuffleArray(picks);
      elapsed := 0;
    }

    /** The interval callback at clock time now. */
    method Tick(now: int)
      requires Valid()
      modifies this
      ensures State() == AfterTick(old(State()), now)
      ensures Valid()
    {
      TickInv(State(), now);
      if timer.Active? {
        elapsed := now - timer.start;
      }
    }
  }
}
