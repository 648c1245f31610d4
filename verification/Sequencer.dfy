/** Two searches of the memory calibration. The memory test is an unknown but fixed answer for every setting. */
module Sequencer {

  const OUT1_DELAY_MAX: int := 31

  /** The value that stands for "no edge". */
  const NO_EDGE: int := OUT1_DELAY_MAX + 1

  /** All positions from `bgn` to `end` pass. */
  ghost predicate PassingRun(pass: int -> bool, bgn: int, end: int) {
    bgn <= end && forall x :: bgn <= x <= end ==> pass(x)
  }

  /** The state of the search after the positions from -31 to `at` have been tried: the run that is still
      growing, if any, and the best run so far. */
  ghost predicate Scanned(pass: int -> bool, at: int, bgnCurr: int, endCurr: int, bgnBest: int, endBest: int,
                          winBest: int)
  {
    && (if at >= -OUT1_DELAY_MAX && pass(at)
        then endCurr == at && -OUT1_DELAY_MAX <= bgnCurr <= at && PassingRun(pass, bgnCurr, at)
             && (bgnCurr == -OUT1_DELAY_MAX || !pass(bgnCurr - 1)) && winBest >= at - bgnCurr + 1
        else bgnCurr == NO_EDGE && endCurr == NO_EDGE)
    && BestUpTo(pass, at, bgnBest, endBest, winBest)
  }

  /** No passing run up to `at` is longer than the best one, and of equally long ones it is the first. */
  ghost predicate BestUpTo(pass: int -> bool, at: int, bgnBest: int, endBest: int, winBest: int) {
    && 0 <= winBest
    && (winBest == 0 ==> bgnBest == NO_EDGE && endBest == NO_EDGE)
    && (winBest > 0 ==>
          && -OUT1_DELAY_MAX <= bgnBest && endBest <= at && winBest == endBest - bgnBest + 1
          && PassingRun(pass, bgnBest, endBest))
    && (forall b, e :: -OUT1_DELAY_MAX <= b <= e <= at && PassingRun(pass, b, e) ==>
          e - b + 1 < winBest || (e - b + 1 == winBest && bgnBest <= b))
  }

  /** Trying a position that passes: the growing run takes it in, and the best run is replaced by a longer one. */
  method TakeIn(pass: int -> bool, at: int, bgnCurr: int, endCurr: int, bgnBest: int, endBest: int, winBest: int)
    returns (bgn: int, end: int, bgnB: int, endB: int, win: int)
    requires -OUT1_DELAY_MAX <= at < NO_EDGE && pass(at)
    requires Scanned(pass, at - 1, bgnCurr, endCurr, bgnBest, endBest, winBest)
          || (Scanned(pass, at, bgnCurr, endCurr, bgnBest, endBest, winBest))
    ensures Scanned(pass, at, bgn, end, bgnB, endB, win)
  {
    bgn, bgnB, endB, win := bgnCurr, bgnBest, endBest, winBest;
    end := at;
    if bgn == NO_EDGE {
      bgn := at;
    }
    assert PassingRun(pass, bgn, at);
    forall b, e | -OUT1_DELAY_MAX <= b <= e <= at && PassingRun(pass, b, e)
      ensures e - b <= at - bgn || e - b + 1 <= winBest
    {
      assert e == at && b < bgn ==> pass(bgn - 1);
    }
    if end - bgn + 1 > win {
      win := end - bgn + 1;
      bgnB := bgn;
      endB := end;
    }
  }

  /** Trying a position that fails ends the growing run. */
  lemma Dropped(pass: int -> bool, at: int, bgnBest: int, endBest: int, winBest: int)
    requires -OUT1_DELAY_MAX <= at && !pass(at)
    requires BestUpTo(pass, at - 1, bgnBest, endBest, winBest)
    ensures Scanned(pass, at, NO_EDGE, NO_EDGE, bgnBest, endBest, winBest)
  {
    forall b, e | -OUT1_DELAY_MAX <= b <= e <= at && PassingRun(pass, b, e) ensures e < at {
      assert e == at ==> pass(at);
    }
  }

  /** What the search promises: of the longest passing runs the first, if there is any. */
  ghost predicate LongestWindow(pass: int -> bool, last: int, bgnBest: int, endBest: int, winBest: int) {
    && BestUpTo(pass, last, bgnBest, endBest, winBest)
    && (winBest == 0 <==> forall x :: -OUT1_DELAY_MAX <= x <= last ==> !pass(x))
  }

  lemma BestIsLongest(pass: int -> bool, last: int, bgnBest: int, endBest: int, winBest: int)
    requires BestUpTo(pass, last, bgnBest, endBest, winBest)
    ensures LongestWindow(pass, last, bgnBest, endBest, winBest)
  {
    if winBest > 0 {
      assert pass(bgnBest);
    } else {
      forall x | -OUT1_DELAY_MAX <= x <= last ensures !pass(x) {
        if pass(x) { assert PassingRun(pass, x, x); }
      }
    }
  }

  /** The search for the window of the data mask: first over negative positions, by the delay of the data mask,
      then over the positions from 0 on, by the delay of the strobe. A window that touches 0 is carried over. */
  method SearchWindow(pass: int -> bool, newDqs: int) returns (bgnBest: int, endBest: int, winBest: int)
    requires 0 <= newDqs <= OUT1_DELAY_MAX
    ensures LongestWindow(pass, OUT1_DELAY_MAX - newDqs, bgnBest, endBest, winBest)
  {
    var bgnCurr, endCurr := NO_EDGE, NO_EDGE;
    bgnBest, endBest, winBest := NO_EDGE, NO_EDGE, 0;
    var d := OUT1_DELAY_MAX;
    while d >= 0
      invariant -1 <= d <= OUT1_DELAY_MAX
      invariant Scanned(pass, -d - 1, bgnCurr, endCurr, bgnBest, endBest, winBest)
    {
      if pass(-d) {
        bgnCurr, endCurr, bgnBest, endBest, winBest := TakeIn(pass, -d, bgnCurr, endCurr, bgnBest, endBest, winBest);
      } else {
        bgnCurr := NO_EDGE;
        endCurr := NO_EDGE;
        Dropped(pass, -d, bgnBest, endBest, winBest);
      }
      d := d - 1;
    }
    // The window so far is carried over only if it reaches 0.
    if endCurr != 0 {
      bgnCurr := NO_EDGE;
      endCurr := NO_EDGE;
    }
    d := 0;
    while d <= OUT1_DELAY_MAX - newDqs
      invariant 0 <= d <= OUT1_DELAY_MAX - newDqs + 1
      invariant Scanned(pass, if d == 0 then 0 else d - 1, bgnCurr, endCurr, bgnBest, endBest, winBest)
    {
      if pass(d) {
        bgnCurr, endCurr, bgnBest, endBest, winBest := TakeIn(pass, d, bgnCurr, endCurr, bgnBest, endBest, winBest);
      } else {
        bgnCurr := NO_EDGE;
        endCurr := NO_EDGE;
        if d > 0 { Dropped(pass, d, bgnBest, endBest, winBest); }
        // What is left cannot hold a longer window.
        if winBest - 1 > OUT1_DELAY_MAX - newDqs - d {
          NothingLonger(pass, d, OUT1_DELAY_MAX - newDqs, bgnBest, endBest, winBest);
          BestIsLongest(pass, OUT1_DELAY_MAX - newDqs, bgnBest, endBest, winBest);
          return;
        }
      }
      d := d + 1;
    }
    BestIsLongest(pass, OUT1_DELAY_MAX - newDqs, bgnBest, endBest, winBest);
  }

  /** After a failing position, with less room left than the best window is long, the search may stop. */
  lemma NothingLonger(pass: int -> bool, d: int, last: int, bgnBest: int, endBest: int, winBest: int)
    requires BestUpTo(pass, d, bgnBest, endBest, winBest)
    requires 0 <= d <= last && !pass(d) && winBest - 1 > last - d
    ensures BestUpTo(pass, last, bgnBest, endBest, winBest)
  {
    forall b, e | -OUT1_DELAY_MAX <= b <= e <= last && PassingRun(pass, b, e) ensures e < d || d < b {
      assert b <= d <= e ==> pass(d);
    }
  }

  // The centre of the strobe enable window.

  const PHASE_MAX: int := 7
  const DELAY_MAX: int := 31

  /** Take whole FIFO cycles of eight phases off the middle. */
  method ReduceMid(workMid: int, opaTap: int) returns (reduced: int)
    requires workMid > 0 && opaTap > 0
    ensures 0 < reduced <= 8 * opaTap && exists k: nat :: workMid == reduced + k * (8 * opaTap)
  {
    reduced := workMid;
    var tmpDelay := 0;
    var p := 0;
    while p <= PHASE_MAX
      invariant 0 <= p <= PHASE_MAX + 1 && tmpDelay == p * opaTap
    {
      p := p + 1;
      tmpDelay := tmpDelay + opaTap;
    }
    ghost var k: nat := 0;
    while reduced > tmpDelay
      invariant reduced > 0 && tmpDelay == 8 * opaTap && workMid == reduced + k * (8 * opaTap)
    {
      reduced := reduced - tmpDelay;
      k := k + 1;
    }
  }

  /** The first of at most `max + 1` steps that reaches the goal. */
  method StepUp(start: int, step: int, goal: int, max: int) returns (n: int, delay: int)
    requires step > 0 && max >= 0 && start < goal
    ensures 1 <= n <= max + 1 && delay == start + n * step
    ensures start + (n - 1) * step < goal
    ensures n <= max ==> goal <= delay
  {
    n := 0;
    delay := start;
    while n <= max && delay < goal
      invariant 0 <= n <= max + 1 && delay == start + n * step
      invariant n > 0 ==> start + (n - 1) * step < goal
      decreases max - n
    {
      n := n + 1;
      delay := delay + step;
    }
  }

  /** The phase `p - 1` and the delay `d` of the centre. */
  ghost predicate Centre(reduced: int, opaTap: int, dchainTap: int, p: int, d: int) {
    && 0 <= p - 1 <= PHASE_MAX && (p - 1) * opaTap < reduced <= p * opaTap
    && 0 <= d && reduced <= (p - 1) * opaTap + d * dchainTap < reduced + dchainTap
  }

  lemma ManySteps(a: int, b: int, step: int)
    requires step > 0 && a <= b
    ensures a * step <= b * step
  {
    assert (b - a) * step >= 0;
  }

  lemma DivisionIs(n: nat, d: nat, q: int, r: nat)
    requires r < d && n == q * d + r
    ensures n / d == q && n % d == r
  {
    var m, s := n / d, n % d;
    assert n == m * d + s;
    if q < m { ManySteps(q + 1, m, d); }
    if m < q { ManySteps(m + 1, q, d); }
  }

  lemma PhasesOfCycles(q: int, k: int, step: int)
    ensures (q + 8 * k) * step == q * step + k * (8 * step)
  {
  }

  /** What is left of the middle after the phases does not depend on how it was reduced. */
  lemma LeftOver(workMid: int, opaTap: int, reduced: int, p: int, k: nat)
    requires workMid > 0 && opaTap > 0 && workMid == reduced + k * (8 * opaTap)
    requires 0 <= p - 1 <= PHASE_MAX && (p - 1) * opaTap < reduced <= p * opaTap
    ensures reduced == (workMid - 1) % (8 * opaTap) + 1
    ensures reduced - (p - 1) * opaTap == (workMid - 1) % opaTap + 1
  {
    var q := p - 1;
    assert p * opaTap == q * opaTap + opaTap;
    PhasesOfCycles(q, k, opaTap);
    DivisionIs(workMid - 1, opaTap, q + 8 * k, reduced - q * opaTap - 1);
    ManySteps(p, 8, opaTap);
    DivisionIs(workMid - 1, 8 * opaTap, k, reduced - 1);
  }

  /** Reduce the middle of the window below one cycle of the FIFO, then approach it by whole phases from below
      and by single delay taps from there. The centre is met to within a tap exactly when what the phases leave
      over is within reach of the delay chain, which is certain if the chain spans a phase. */
  method FindCentre(workMid: int, opaTap: int, dchainTap: int) returns (p: int, d: int, reduced: int)
    requires workMid > 0 && opaTap > 0 && dchainTap > 0
    ensures reduced == (workMid - 1) % (8 * opaTap) + 1
    ensures 0 <= p - 1 <= PHASE_MAX && (p - 1) * opaTap < reduced <= p * opaTap
    ensures 1 <= d <= DELAY_MAX + 1
    ensures Centre(reduced, opaTap, dchainTap, p, d) <==> (workMid - 1) % opaTap < (DELAY_MAX + 1) * dchainTap
    ensures d <= DELAY_MAX <==> (workMid - 1) % opaTap < DELAY_MAX * dchainTap
    ensures opaTap <= DELAY_MAX * dchainTap ==> d <= DELAY_MAX && Centre(reduced, opaTap, dchainTap, p, d)
  {
    reduced := ReduceMid(workMid, opaTap);
    ghost var k: nat :| workMid == reduced + k * (8 * opaTap);
    var tmpDelay;
    p, tmpDelay := StepUp(0, opaTap, reduced, PHASE_MAX);
    tmpDelay := tmpDelay - opaTap;
    assert tmpDelay == (p - 1) * opaTap;
    LeftOver(workMid, opaTap, reduced, p, k);
    d, tmpDelay := StepUp(tmpDelay, dchainTap, reduced, DELAY_MAX);
    ManySteps(d - 1, DELAY_MAX, dchainTap);
    ManySteps(d, DELAY_MAX + 1, dchainTap);
    if d <= DELAY_MAX { ManySteps(d, DELAY_MAX, dchainTap); }
  }
}
