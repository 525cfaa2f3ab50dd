/**
 * The page controller: the global state main.js keeps beside the engine
 * (the counter `t`, the interval handle `timer`, the `startingGame` flag)
 * and the texts it writes (the counter text and the flags-remaining
 * figure), together with what the click callback decides after each move.
 * The engine's move itself is not modelled: the board it leaves behind and
 * its `exploded`, `nmines` and `nmarked` figures are inputs.
 */
module Controller {
  import opened Board
  import opened Cards
  import opened Timer

  /** What the click callback concludes after a move. */
  datatype Outcome = Lose | Win | Undecided

  /**
   * The flags-remaining figure render writes: the engine's mine count less
   * its marked count, with no clamping, so it goes negative once the player
   * has placed more flags than there are mines.
   */
  function FlagsRemaining(nmines: nat, nmarked: nat): (r: int)
    ensures r + nmarked == nmines
    ensures r < 0 <==> nmarked > nmines
    ensures nmarked == 0 ==> r == nmines
  {
    nmines - nmarked
  }

  /**
   * The click callback's verdict: a game that exploded is lost, whatever the
   * win test would say; only otherwise is the win test consulted.
   */
  method RoundOutcome(g: Grid, exploded: bool) returns (outcome: Outcome)
    ensures outcome == Lose <==> exploded
    ensures outcome == Win <==> !exploded && Won(g)
    ensures outcome == Undecided <==> !exploded && !Won(g)
  {
    if exploded {
      outcome := Lose;
    } else {
      var won := IsPlayerWin(g);
      outcome := if won then Win else Undecided;
    }
  }

  /**
   * A shown mine does not block the win test, so an exploded board can pass
   * it: the loss must be checked first, as RoundOutcome does.
   */
  lemma ShownMineDoesNotBlockWin()
    ensures var g := [[Cell(true, Shown, 0)]]; Won(g)
  {
    var g := [[Cell(true, Shown, 0)]];
    WonIff(g);
  }

  class Session {
    /** Seconds shown on the counter. */
    var t: nat
    /** An interval is live: `timer` holds a handle not yet cleared. */
    var ticking: bool
    /** The next click is the first of a round and starts the counter. */
    var startingGame: bool
    /** The counter text on the page. */
    var timerText: string
    /** The flags-remaining figure on the page. */
    var flagText: int

    /**
     * The counter stays within 999 and its text always shows it, and the
     * counter is only started when no interval is live, so at most one
     * interval ever runs.
     */
    ghost predicate Valid()
      reads this
    {
      t <= Cap && timerText == TimerText(t) && (startingGame ==> !ticking)
    }

    /** Page load: the cards are prepared and the first game is set up. */
    constructor Load(nmines: nat)
      ensures Valid()
      ensures t == 0 && timerText == "000" && !ticking && startingGame
      ensures flagText == nmines
    {
      t := 0;
      ticking := false;
      startingGame := true;
      timerText := "000";
      flagText := nmines;
      ResetText();
    }

    /** menuButtonCallback after the engine's init: reset the counter and the flag figure. */
    method NewGame(nmines: nat)
      modifies this
      ensures Valid()
      ensures t == 0 && timerText == "000" && !ticking && startingGame
      ensures flagText == nmines && flagText == FlagsRemaining(nmines, 0)
    {
      flagText := nmines;
      ticking := false;
      timerText := "000";
      startingGame := true;
      t := 0;
      ResetText();
    }

    /** One firing of the live interval: count up, or stop at 999. */
    method Tick()
      requires Valid() && ticking
      modifies this
      ensures Valid()
      ensures t == Timer.Tick(old(t))
      ensures ticking == (old(t) < Cap)
      ensures startingGame == old(startingGame) && flagText == old(flagText)
    {
      if t >= Cap {
        ticking := false;
      } else {
        t := t + 1;
        timerText := TimerText(t);
      }
    }

    /**
     * squareClickCallback for card `ind` of an nrows x ncols game. The card
     * is decomposed into the cell handed to the engine; the first click of a
     * round starts the counter; `after`, `exploded`, `nmines` and `nmarked`
     * are the engine's state once it has applied the move. Then the flag
     * figure is rewritten and the round is decided, loss first: a loss
     * stops the counter, a win stops it and picks the remaining bombs to
     * show.
     */
    method SquareClick(ind: nat, nrows: nat, ncols: nat, after: Grid, exploded: bool, nmines: nat, nmarked: nat)
      returns (cell: (nat, nat), outcome: Outcome, bombs: seq<nat>)
      requires Valid()
      requires ncols > 0 && ind < nrows * ncols
      modifies this
      ensures Valid()
      ensures cell == CardToCell(ind, ncols) && cell.0 < nrows && cell.1 < ncols
      ensures t == old(t) && timerText == old(timerText) && !startingGame
      ensures flagText == FlagsRemaining(nmines, nmarked)
      ensures outcome == Lose <==> exploded
      ensures outcome == Win <==> !exploded && Won(after)
      ensures ticking == (outcome == Undecided && (old(ticking) || old(startingGame)))
      ensures outcome == Win ==> bombs == HiddenMineIndices(Flatten(after))
      ensures outcome != Win ==> bombs == []
    {
      cell := (ind / ncols, ind % ncols);
      CardToCellInBounds(ind, nrows, ncols);
      if startingGame {
        ticking := true;
        startingGame := false;
      }
      flagText := nmines - nmarked;
      bombs := [];
      outcome := RoundOutcome(after, exploded);
      if outcome == Lose {
        ticking := false;
      } else if outcome == Win {
        bombs := ShowRemainingBombs(after);
        ticking := false;
      }
    }
  }
}
