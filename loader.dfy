/**
 * Incremental Loader: the bounded "Load more" loop of `_load_all_results`, with the
 * browser replaced by what it would show in each round.
 */
module Loader {
  import opened Config

  /** The "Load more" control: no match, matched but not visible, or visible. */
  datatype Button = Absent | Hidden | Visible

  /**
   * One round as the page shows it: the row count when the round starts, the state
   * of the control, whether scrolling to it or clicking it raises (it was detached
   * or covered after the visibility test, or the click's own wait timed out), and
   * the row count when the wait for new rows ends (at its timeout when no row appears).
   */
  datatype Round = Round(countBefore: nat, button: Button, clickRaises: bool, countAfterWait: nat)

  /** The wait for `count > count_before` succeeded. */
  predicate Grew(r: Round)
  {
    r.countAfterWait > r.countBefore
  }

  /**
   * Why the loop stopped. The first three are normal ends; `ClickRaised` is the
   * exception from the scroll or the click, which is not caught and ends the scrape.
   */
  datatype LoadExit = NoButton | NoGrowth | CapReached | ClickRaised

  /**
   * Clicks "Load more" while the control is visible and every click makes the table
   * grow, at most `MaxLoadMoreClicks` times. `round(n)` is what the page shows in the
   * round with click number `n`.
   */
  method LoadAllResults(round: nat -> Round) returns (clicks: nat, exit: LoadExit)
    ensures clicks <= MaxLoadMoreClicks
    ensures forall n | 1 <= n <= clicks :: round(n).button == Visible && !round(n).clickRaises
    ensures exit == CapReached ==>
      clicks == MaxLoadMoreClicks && forall n | 1 <= n <= clicks :: Grew(round(n))
    ensures exit == NoButton ==>
      && clicks < MaxLoadMoreClicks
      && round(clicks + 1).button != Visible
      && forall n | 1 <= n <= clicks :: Grew(round(n))
    ensures exit == NoGrowth ==>
      && 1 <= clicks
      && !Grew(round(clicks))
      && forall n | 1 <= n < clicks :: Grew(round(n))
    ensures exit == ClickRaised ==>
      && clicks < MaxLoadMoreClicks
      && round(clicks + 1).button == Visible && round(clicks + 1).clickRaises
      && forall n | 1 <= n <= clicks :: Grew(round(n))
  {
    clicks, exit := 0, CapReached;
    for clickNum := 1 to MaxLoadMoreClicks + 1
      invariant clicks == clickNum - 1
      invariant forall n | 1 <= n <= clicks :: round(n).button == Visible && !round(n).clickRaises && Grew(round(n))
    {
      var r := round(clickNum);
      var countBefore := r.countBefore;
      if r.button != Visible {
        exit := NoButton;
        break;
      }
      if r.clickRaises {
        exit := ClickRaised;
        break;
      }
      clicks := clicks + 1;
      if !(r.countAfterWait > countBefore) {
        exit := NoGrowth;
        break;
      }
    }
  }
}
