/** Pacing by yielding the processor: how many yields a message costs is estimated, and the
    estimate corrected once a calibration period. Over real numbers and every clock. */
module MicroWait {
  import opened Rounding

  datatype Timer = Timer(lastTime: real, rate: real, messageCount: real, yieldCount: real,
                         yieldsPerMessage: real, yieldsPerSecond: real)

  // MILLISECOND_EXP
  const PER_YIELD := 0.001

  /** Calibration from the time a thousand yields took (rates of at least one a second). */
  function Init(rate: real, thousandYields: real, clock: real): Timer
    requires rate >= 1.0 && thousandYields > 0.0
  {
    var ypm := 1.5 / (thousandYields * PER_YIELD * rate);
    Timer(clock, rate, 0.0, 0.0, ypm, ypm * rate)
  }

  function Clamped(elapsed: real): (d: real)
    ensures 0.75 <= d <= 1.25
  {
    var d := (elapsed + 1.0) * 0.5;
    if d < 0.75 then 0.75 else if d > 1.25 then 1.25 else d
  }

  predicate Due(t: Timer) {
    t.yieldCount >= t.yieldsPerSecond
  }

  function Calibrated(t: Timer, clock: real): Timer {
    if !Due(t) then t
    else
      var ypm := t.yieldsPerMessage / Clamped(clock - t.lastTime);
      t.(lastTime := clock, yieldsPerMessage := ypm, yieldsPerSecond := ypm * t.rate,
      yieldCount := 0.0, messageCount := 0.0)
  }

  /** Enough whole yields to catch up with one more message. */
  function CaughtUp(t: Timer): Timer {
    var goal := t.messageCount + t.yieldsPerMessage;
    t.(messageCount := goal,
    yieldCount := if t.yieldCount < goal then t.yieldCount + Ceil(goal - t.yieldCount) as real else t.yieldCount)
  }

  function Wait(t: Timer, clock: real): Timer {
    CaughtUp(Calibrated(t, clock))
  }

  /** The state after k waits of a period. */
  predicate Paced(t: Timer, k: nat) {
    && t.rate >= 1.0 && t.yieldsPerMessage > 0.0
    && t.yieldsPerSecond == t.yieldsPerMessage * t.rate
    && t.messageCount == Times(k, t.yieldsPerMessage)
    && t.yieldCount == Ceil(t.messageCount) as real
    && (k as real) < t.rate + 1.0
  }

  /** The waits of the current period after one more. */
  function NextWait(t: Timer, k: nat): nat {
    if Due(t) then 1 else k + 1
  }

  lemma InitPaced(rate: real, thousandYields: real, clock: real)
    requires rate >= 1.0 && thousandYields > 0.0
    ensures Paced(Init(rate, thousandYields, clock), 0)
  {
    var cost := thousandYields * PER_YIELD * rate;
    PositiveProduct(thousandYields * PER_YIELD, rate);
    assert cost > 0.0;
    PositiveQuotient(1.5, cost);
  }

  lemma PositiveProduct(x: real, y: real)
    requires x > 0.0 && y > 0.0
    ensures x * y > 0.0
  {
  }

  lemma PositiveQuotient(x: real, y: real)
    requires x > 0.0 && y > 0.0
    ensures x / y > 0.0
  {
  }

  /** A calibration changes the yields per message by a factor between 4/5 and 4/3. */
  lemma CalibrationFactor(t: Timer, clock: real)
    requires t.yieldsPerMessage > 0.0 && Due(t)
    ensures var ypm := Calibrated(t, clock).yieldsPerMessage;
            ypm > 0.0 && 4.0 * t.yieldsPerMessage <= 5.0 * ypm && 3.0 * ypm <= 4.0 * t.yieldsPerMessage
  {
    QuotientBounds(t.yieldsPerMessage, Clamped(clock - t.lastTime));
  }

  lemma QuotientBounds(x: real, d: real)
    requires x > 0.0 && 0.75 <= d <= 1.25
    ensures var q := x / d; q > 0.0 && 4.0 * x <= 5.0 * q && 3.0 * q <= 4.0 * x
  {
    var q := x / d;
    PositiveQuotient(x, d);
    assert d * q == x;
    Scale(0.75, d, q);
    Scale(d, 1.25, q);
  }

  lemma Scale(x: real, y: real, z: real)
    requires x <= y && z >= 0.0
    ensures x * z <= y * z
  {
  }

  /** The time a period took beyond a second, or less, is halved, and cut at a quarter. */
  lemma ClampedShape(elapsed: real)
    ensures elapsed < 0.5 ==> Clamped(elapsed) == 0.75
    ensures 0.5 <= elapsed <= 1.5 ==> Clamped(elapsed) - elapsed == 1.0 - Clamped(elapsed)
    ensures elapsed > 1.5 ==> Clamped(elapsed) == 1.25
  {
  }

  /** A period longer than a second lowers the yields per message, a shorter one raises them,
      and one of exactly a second leaves them alone. */
  lemma CalibrationDirection(t: Timer, clock: real)
    requires t.yieldsPerMessage > 0.0 && Due(t)
    ensures var elapsed, ypm := clock - t.lastTime, Calibrated(t, clock).yieldsPerMessage;
            && (elapsed > 1.0 ==> ypm < t.yieldsPerMessage)
            && (elapsed == 1.0 ==> ypm == t.yieldsPerMessage)
            && (elapsed < 1.0 ==> ypm > t.yieldsPerMessage)
  {
    QuotientDirection(t.yieldsPerMessage, Clamped(clock - t.lastTime));
  }

  lemma QuotientDirection(x: real, d: real)
    requires x > 0.0 && d > 0.0
    ensures d > 1.0 ==> x / d < x
    ensures d == 1.0 ==> x / d == x
    ensures d < 1.0 ==> x / d > x
  {
    var q := x / d;
    PositiveQuotient(x, d);
    assert d * q == x;
    if d > 1.0 {
      PositiveProduct(d - 1.0, q);
      assert (d - 1.0) * q == d * q - q;
    } else if d < 1.0 {
      PositiveProduct(1.0 - d, q);
      assert (1.0 - d) * q == q - d * q;
    }
  }

  lemma QuotientMonotone(x: real, d: real, e: real)
    requires x > 0.0 && 0.0 < d <= e
    ensures x / d >= x / e
  {
    var p, q := x / d, x / e;
    PositiveQuotient(x, e);
    assert d * p == x && e * q == x;
    Scale(d, e, q);
    Cancel(d, q, p);
  }

  lemma Cancel(d: real, x: real, y: real)
    requires d > 0.0 && d * x <= d * y
    ensures x <= y
  {
  }

  /** The longer the period took, the fewer yields per message. */
  lemma CalibrationMonotone(t: Timer, clock: real, later: real)
    requires t.yieldsPerMessage > 0.0 && clock <= later
    ensures Calibrated(t, clock).yieldsPerMessage >= Calibrated(t, later).yieldsPerMessage
  {
    QuotientMonotone(t.yieldsPerMessage, Clamped(clock - t.lastTime), Clamped(later - t.lastTime));
  }

  /** The first estimate is one and a half times the yields a second that were measured. */
  lemma InitBudget(rate: real, thousandYields: real, clock: real)
    requires rate >= 1.0 && thousandYields > 0.0
    ensures var t := Init(rate, thousandYields, clock);
            && t.yieldsPerSecond * thousandYields == 1.5 * 1000.0
            && t.lastTime == clock && t.rate == rate
  {
    var perYield := thousandYields * PER_YIELD;
    PositiveProduct(perYield, rate);
    var ypm := 1.5 / (perYield * rate);
    assert ypm * (perYield * rate) == 1.5;
    assert ypm * rate * perYield == 1.5;
  }

  /** While a period is not over, fewer waits than the rate have been made in it. */
  lemma StillBelowRate(t: Timer, k: nat)
    requires Paced(t, k) && !Due(t)
    ensures k as real < t.rate
  {
    if k as real >= t.rate {
      Scale(t.rate, k as real, t.yieldsPerMessage);
      assert false;
    }
  }

  /** Between the calibration and the yielding, the period stands at `NextWait - 1`. */
  lemma CalibratedPaced(t: Timer, k: nat, clock: real)
    requires Paced(t, k)
    ensures Paced(Calibrated(t, clock), NextWait(t, k) - 1)
    ensures (NextWait(t, k) - 1) as real < t.rate
  {
    if Due(t) {
      CalibrationFactor(t, clock);
      CeilUnique(0.0, 0);
    } else {
      StillBelowRate(t, k);
    }
  }

  lemma CaughtUpPaced(g: Timer, k: nat)
    requires Paced(g, k) && k as real < g.rate
    ensures Paced(CaughtUp(g), k + 1)
  {
    hide Ceil, Times;
    TimesNext(k, g.yieldsPerMessage);
    CatchUp(g.messageCount, g.messageCount + g.yieldsPerMessage, g.yieldCount);
  }

  lemma WaitPaced(t: Timer, k: nat, clock: real)
    requires Paced(t, k)
    ensures Paced(Wait(t, clock), NextWait(t, k)) && Wait(t, clock).rate == t.rate
  {
    hide Paced, Ceil, CaughtUp, Times, Clamped;
    CalibratedPaced(t, k, clock);
    CaughtUpPaced(Calibrated(t, clock), NextWait(t, k) - 1);
    RateKept(t, clock);
  }

  lemma RateKept(t: Timer, clock: real)
    ensures Wait(t, clock).rate == Calibrated(t, clock).rate == t.rate
  {
  }

  /** Topping up a rounded-up count rounds the new goal up. */
  lemma CatchUp(was: real, goal: real, count: real)
    requires was < goal && count == Ceil(was) as real
    ensures (if count < goal then count + Ceil(goal - count) as real else count) == Ceil(goal) as real
  {
    if count < goal {
      CeilUnique(goal, Ceil(was) + Ceil(goal - count));
    } else {
      CeilUnique(goal, Ceil(was));
    }
  }

  /** A run of waits: the timer and the number of waits in its current period. */
  function Waits(t: Timer, clocks: seq<real>): (Timer, nat) {
    if clocks == [] then (t, 0)
    else
      var (before, k) := Waits(t, clocks[..|clocks| - 1]);
      (Wait(before, clocks[|clocks| - 1]), NextWait(before, k))
  }

  /** After every run of waits: the k-th wait of a period has brought the yields to k times the
      yields per message, rounded up; a period never has more waits than the rate rounded up;
      and when one is over it had more than the rate less one yield's worth. */
  lemma {:induction false} PacingExact(t: Timer, clocks: seq<real>)
    requires Paced(t, 0)
    ensures var (u, k) := Waits(t, clocks);
            && u.rate == t.rate && u.yieldsPerMessage > 0.0
            && u.yieldCount == Ceil(Times(k, u.yieldsPerMessage)) as real
            && k <= Ceil(t.rate)
            && (Due(u) ==> k as real > t.rate - 1.0 / u.yieldsPerMessage)
  {
    hide Waits, Ceil;
    PacedAlways(t, clocks);
    var (u, k) := Waits(t, clocks);
    if Due(u) {
      MoreThan(k, t.rate, u.yieldsPerMessage);
    }
    RoundedUp(k, t.rate);
  }

  lemma RoundedUp(k: nat, rate: real)
    requires k as real < rate + 1.0
    ensures k <= Ceil(rate)
  {
  }

  lemma MoreThan(k: nat, rate: real, ypm: real)
    requires ypm > 0.0 && Ceil(Times(k, ypm)) as real >= ypm * rate
    ensures k as real > rate - 1.0 / ypm
  {
    var one := 1.0 / ypm;
    assert one * ypm == 1.0;
    assert (k as real + one) * ypm == Times(k, ypm) + 1.0;
    if k as real + one <= rate {
      Scale(k as real + one, rate, ypm);
    }
  }

  lemma {:induction false} PacedAlways(t: Timer, clocks: seq<real>)
    requires Paced(t, 0)
    ensures var (u, k) := Waits(t, clocks); Paced(u, k) && u.rate == t.rate
  {
    if clocks != [] {
      var shorter := clocks[..|clocks| - 1];
      PacedAlways(t, shorter);
      var (before, k) := Waits(t, shorter);
      WaitPaced(before, k, clocks[|clocks| - 1]);
    }
  }

  /** The waits at which a calibration was due. */
  ghost function DueAt(t: Timer, clocks: seq<real>): set<nat> {
    set i: nat | i < |clocks| && Due(Waits(t, clocks[..i]).0)
  }

  lemma DueAtNext(t: Timer, clocks: seq<real>)
    requires clocks != []
    ensures var n := |clocks| - 1;
            DueAt(t, clocks) == DueAt(t, clocks[..n]) + if Due(Waits(t, clocks[..n]).0) then {n} else {}
  {
    hide Waits, Due;
    var n := |clocks| - 1;
    assert forall i :: 0 <= i < n ==> clocks[..n][..i] == clocks[..i];
  }

  lemma LastTimeStep(t: Timer, clock: real)
    ensures Wait(t, clock).lastTime == if Due(t) then clock else t.lastTime
  {
  }

  /** The time measured from is that of the last wait at which a calibration was due. */
  lemma {:induction false} LastTimeIs(t: Timer, clocks: seq<real>)
    ensures DueAt(t, clocks) == {} ==> Waits(t, clocks).0.lastTime == t.lastTime
    ensures forall j :: j in DueAt(t, clocks) && (forall i :: i in DueAt(t, clocks) ==> i <= j) ==>
              Waits(t, clocks).0.lastTime == clocks[j]
  {
    hide Wait;
    if clocks != [] {
      var n := |clocks| - 1;
      LastTimeIs(t, clocks[..n]);
      DueAtNext(t, clocks);
      LastTimeStep(Waits(t, clocks[..n]).0, clocks[n]);
    }
  }

  class YieldTimer {
    var lastTime: real
    var rate: real
    var messageCount: real
    var yieldCount: real
    var yieldsPerMessage: real
    var yieldsPerSecond: real

    function State(): Timer
      reads this
    {
      Timer(lastTime, rate, messageCount, yieldCount, yieldsPerMessage, yieldsPerSecond)
    }

    constructor (targetRate: real, thousandYields: real, clock: real)
      requires targetRate >= 1.0 && thousandYields > 0.0
      ensures State() == Init(targetRate, thousandYields, clock)
    {
      var deltaTime := thousandYields * PER_YIELD;
      PositiveProduct(deltaTime, targetRate);
      rate := targetRate;
      yieldsPerMessage := 1.5 / (deltaTime * targetRate);
      yieldsPerSecond := 1.5 / (deltaTime * targetRate) * targetRate;
      yieldCount, messageCount, lastTime := 0.0, 0.0, clock;
    }

    method Calibrate(clock: real)
      modifies this
      ensures State() == Calibrated(old(State()), clock)
    {
      if yieldCount >= yieldsPerSecond {
        var deltaTime := clock - lastTime;
        ghost var elapsed := deltaTime;
        lastTime := lastTime + deltaTime;
        deltaTime := deltaTime + 1.0;
        deltaTime := deltaTime * 0.5;
        if deltaTime < 0.75 {
          deltaTime := 0.75;
        } else if deltaTime > 1.25 {
          deltaTime := 1.25;
        }
        assert deltaTime == Clamped(elapsed);
        yieldsPerMessage := yieldsPerMessage / deltaTime;
        yieldsPerSecond := yieldsPerMessage * rate;
        yieldCount := 0.0;
        messageCount := 0.0;
      }
    }

    /** Yields the processor until the yield count has caught up with the message count. */
    method WaitForTurn(clock: real) returns (turns: nat)
      modifies this
      ensures State() == Wait(old(State()), clock)
      ensures yieldCount == Calibrated(old(State()), clock).yieldCount + turns as real
    {
      hide Calibrated;
      Calibrate(clock);
      messageCount := messageCount + yieldsPerMessage;
      turns := 0;
      ghost var start := yieldCount;
      while yieldCount < messageCount
        modifies `yieldCount
        invariant yieldCount == start + turns as real
        invariant turns > 0 ==> (turns - 1) as real < messageCount - start
        decreases Ceil(messageCount - start) - turns
      {
        yieldCount := yieldCount + 1.0;
        turns := turns + 1;
      }
      if start < messageCount {
        CeilUnique(messageCount - start, turns);
      }
    }
  }
}
