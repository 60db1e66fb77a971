/** The filter that picks messages for latency sampling, over real numbers and for every
    sequence of clock readings. */
module Sampler {
  import opened Rounding

  datatype Filter = Filter(lastTime: real, samplingRate: real, messageCount: real, selectCount: real, selectRatio: real)

  function Init(clock: real, selectRate: int, messageRate: int): Filter {
    Filter(clock,
           if selectRate > 0 then selectRate as real else 1000.0,
           0.0, 0.0,
           if messageRate <= 0 || messageRate <= selectRate then 1.0 else selectRate as real / messageRate as real)
  }

  /** How far one measurement may change the ratio. */
  function Damped(elapsed: real): (d: real)
    ensures 0.75 <= d <= 1.25
  {
    if elapsed < 0.75 then 0.75 else if elapsed > 1.25 then 1.25 else 0.5 * (elapsed + 1.0)
  }

  function Scaled(ratio: real, factor: real): (r: real)
    ensures r <= 1.0
    ensures 0.0 < ratio && 0.75 <= factor <= 1.25 ==> 0.0 < r
  {
    if ratio * factor > 1.0 then 1.0 else ratio * factor
  }

  predicate Due(f: Filter) {
    f.selectCount >= f.samplingRate
  }

  function Calibrated(f: Filter, clock: real): Filter {
    if !Due(f) then f
    else f.(lastTime := clock,
         selectRatio := Scaled(f.selectRatio, Damped(clock - f.lastTime)),
         selectCount := f.selectCount - f.samplingRate,
         messageCount := f.messageCount - f.samplingRate)
  }

  /** One message: the new filter and whether the message is selected. */
  function Select(f: Filter, clock: real): (Filter, bool) {
    var g := Calibrated(f, clock);
    var h := g.(messageCount := g.messageCount + g.selectRatio);
    if h.selectCount < h.messageCount then (h.(selectCount := h.selectCount + 1.0), true) else (h, false)
  }

  /** Between three quarters and five quarters of a second the factor lies halfway between the
      time elapsed and one; outside, it is the bound on the same side. */
  lemma DampedShape(elapsed: real)
    ensures elapsed < 0.75 ==> Damped(elapsed) == 0.75
    ensures 0.75 <= elapsed <= 1.25 ==> Damped(elapsed) - elapsed == 1.0 - Damped(elapsed)
    ensures elapsed > 1.25 ==> Damped(elapsed) == 1.25
  {
  }

  /** Selecting too fast lowers the ratio, selecting too slowly raises it, up to one, and a
      period of exactly a second leaves it alone. */
  lemma CalibrationDirection(f: Filter, clock: real)
    requires Due(f) && 0.0 < f.selectRatio <= 1.0
    ensures var elapsed, ratio := clock - f.lastTime, Calibrated(f, clock).selectRatio;
            && (elapsed < 1.0 ==> ratio < f.selectRatio)
            && (elapsed == 1.0 ==> ratio == f.selectRatio)
            && (elapsed > 1.0 ==> if f.selectRatio < 1.0 then f.selectRatio < ratio <= 1.0 else ratio == 1.0)
  {
    hide Scaled;
    ScaledDirection(f.selectRatio, Damped(clock - f.lastTime));
  }

  lemma ScaledDirection(ratio: real, factor: real)
    requires 0.0 < ratio <= 1.0
    ensures factor < 1.0 ==> Scaled(ratio, factor) < ratio
    ensures factor == 1.0 ==> Scaled(ratio, factor) == ratio
    ensures factor > 1.0 ==> if ratio < 1.0 then ratio < Scaled(ratio, factor) <= 1.0 else Scaled(ratio, factor) == 1.0
  {
    Product(ratio, factor - 1.0);
    Product(ratio, 1.0 - factor);
    assert ratio * (factor - 1.0) == ratio * factor - ratio;
  }

  lemma Product(x: real, y: real)
    requires x > 0.0
    ensures y > 0.0 ==> x * y > 0.0
    ensures y == 0.0 ==> x * y == 0.0
  {
  }

  lemma ScaledMonotone(ratio: real, short: real, long: real)
    requires ratio > 0.0 && short <= long
    ensures Scaled(ratio, short) <= Scaled(ratio, long)
  {
    Product(ratio, long - short);
    var a, b := ratio * short, ratio * long;
    assert ratio * (long - short) == b - a;
    assert Scaled(ratio, short) == if a > 1.0 then 1.0 else a;
    assert Scaled(ratio, long) == if b > 1.0 then 1.0 else b;
  }

  /** A shorter period never gives a larger ratio than a longer one. */
  lemma CalibrationMonotone(f: Filter, clock: real, later: real)
    requires 0.0 < f.selectRatio && clock <= later
    ensures Calibrated(f, clock).selectRatio <= Calibrated(f, later).selectRatio
  {
    hide Scaled;
    ScaledMonotone(f.selectRatio, Damped(clock - f.lastTime), Damped(later - f.lastTime));
  }

  /** A run of calls: the filter, how many messages were selected, the sum of the ratios used,
      how many calibrations took place and what they took off the counts. */
  datatype Outcome = Outcome(filter: Filter, selected: nat, ratios: real, periods: nat, removed: real)

  function Calls(f: Filter, clocks: seq<real>): Outcome {
    if clocks == [] then Outcome(f, 0, 0.0, 0, 0.0)
    else
      var before := Calls(f, clocks[..|clocks| - 1]);
      var clock := clocks[|clocks| - 1];
      var (after, picked) := Select(before.filter, clock);
      Outcome(after,
              before.selected + if picked then 1 else 0,
              before.ratios + Calibrated(before.filter, clock).selectRatio,
              before.periods + (if Due(before.filter) then 1 else 0),
              before.removed + if Due(before.filter) then f.samplingRate else 0.0)
  }

  /** Selected messages run ahead of the running sum of ratios by less than one; and since the
      target is a whole number, a period ends with exactly that many selected. */
  predicate Balanced(f: Filter) {
    && 0.0 < f.selectRatio <= 1.0
    && -1.0 < f.messageCount - f.selectCount <= 0.0
    && 1.0 <= f.samplingRate && f.samplingRate == f.samplingRate.Floor as real
    && 0.0 <= f.selectCount <= f.samplingRate && f.selectCount == f.selectCount.Floor as real
  }

  lemma SelectBalanced(f: Filter, clock: real)
    requires Balanced(f)
    ensures Balanced(Select(f, clock).0)
    ensures Select(f, clock).0.samplingRate == f.samplingRate
  {
    var g := Calibrated(f, clock);
    if Due(f) {
      assert f.selectCount == f.samplingRate && g.selectCount == 0.0;
    } else {
      assert f.selectCount.Floor < f.samplingRate.Floor;
    }
    assert (g.selectCount + 1.0).Floor == g.selectCount.Floor + 1;
  }

  /** For every start and every sequence of clock readings: the ratio stays in (0, 1], the
      difference of the two counts in (-1, 0], and the number of messages selected is the sum
      of the ratios used, rounded up. Every completed period selects exactly the target. */
  lemma {:induction false} SamplerExact(f: Filter, clocks: seq<real>)
    requires Balanced(f) && f.messageCount == f.selectCount == 0.0
    ensures var o := Calls(f, clocks);
            && Balanced(o.filter) && o.filter.samplingRate == f.samplingRate
            && o.filter.messageCount == o.ratios - o.removed
            && o.filter.selectCount == o.selected as real - o.removed
            && o.selected == Ceil(o.ratios)
            && o.removed <= o.selected as real <= o.removed + f.samplingRate
  {
    var o := Calls(f, clocks);
    if clocks != [] {
      var shorter := clocks[..|clocks| - 1];
      SamplerExact(f, shorter);
      SelectBalanced(Calls(f, shorter).filter, clocks[|clocks| - 1]);
    }
    CeilUnique(o.ratios, o.selected);
  }

  /** A period ends, and a calibration is due, exactly when the whole number of messages
      selected so far is the target times the number of periods, this one included. */
  lemma PeriodSelectsTarget(f: Filter, clocks: seq<real>)
    requires Balanced(f) && f.messageCount == f.selectCount == 0.0
    ensures var o := Calls(f, clocks);
            && Due(o.filter) <==> o.selected as real == Times(o.periods + 1, f.samplingRate)
    ensures var o := Calls(f, clocks);
            && Times(o.periods, f.samplingRate) <= o.selected as real <= Times(o.periods + 1, f.samplingRate)
  {
    SamplerExact(f, clocks);
    RemovedPerPeriod(f, clocks);
    TimesNext(Calls(f, clocks).periods, f.samplingRate);
  }

  lemma {:induction false} RemovedPerPeriod(f: Filter, clocks: seq<real>)
    ensures var o := Calls(f, clocks); o.removed == Times(o.periods, f.samplingRate)
  {
    hide Select, Calibrated, Due;
    if clocks != [] {
      RemovedPerPeriod(f, clocks[..|clocks| - 1]);
      TimesNext(Calls(f, clocks[..|clocks| - 1]).periods, f.samplingRate);
    }
  }

  /** The calls at which a calibration was due. */
  ghost function DueAt(f: Filter, clocks: seq<real>): set<nat> {
    set i: nat | i < |clocks| && Due(Calls(f, clocks[..i]).filter)
  }

  lemma DueAtNext(f: Filter, clocks: seq<real>)
    requires clocks != []
    ensures var n := |clocks| - 1;
            DueAt(f, clocks) == DueAt(f, clocks[..n]) + if Due(Calls(f, clocks[..n]).filter) then {n} else {}
  {
    hide Calls, Due;
    var n := |clocks| - 1;
    assert forall i :: 0 <= i < n ==> clocks[..n][..i] == clocks[..i];
  }

  /** The time measured from is that of the last call at which a calibration was due. */
  lemma {:induction false} LastTimeIs(f: Filter, clocks: seq<real>)
    ensures DueAt(f, clocks) == {} ==> Calls(f, clocks).filter.lastTime == f.lastTime
    ensures forall j :: j in DueAt(f, clocks) && (forall i :: i in DueAt(f, clocks) ==> i <= j) ==>
              Calls(f, clocks).filter.lastTime == clocks[j]
  {
    if clocks != [] {
      var n := |clocks| - 1;
      LastTimeIs(f, clocks[..n]);
      DueAtNext(f, clocks);
      LastTimeStep(Calls(f, clocks[..n]).filter, clocks[n]);
    }
  }

  lemma LastTimeStep(f: Filter, clock: real)
    ensures Select(f, clock).0.lastTime == if Due(f) then clock else f.lastTime
  {
  }

  /** The p-th part in q of k. */
  function Portion(k: nat, p: int, q: int): real
    requires q != 0
  {
    k as real * p as real / q as real
  }

  lemma SelectedBeforeCalibration(f: Filter, clocks: seq<real>)
    requires Balanced(f) && f.messageCount == f.selectCount == 0.0
    requires Calls(f, clocks).periods == 0
    ensures Calls(f, clocks).selected == Ceil(Times(|clocks|, f.selectRatio))
    ensures Calls(f, clocks).filter.samplingRate == f.samplingRate
  {
    SamplerExact(f, clocks);
    RatiosBeforeCalibration(f, clocks);
  }

  /** Until the first calibration, of k messages sent as many are selected as the share of the
      sampling rate in the message rate makes, rounded up; all of them if it is no smaller. */
  lemma FirstPeriod(clock: real, selectRate: int, messageRate: int, clocks: seq<real>)
    requires 0 < selectRate && 0 < messageRate
    requires Calls(Init(clock, selectRate, messageRate), clocks).periods == 0
    ensures var o, k := Calls(Init(clock, selectRate, messageRate), clocks), |clocks|;
            && o.filter.samplingRate == selectRate as real
            && o.selected == if messageRate <= selectRate then k
                             else Ceil(Portion(k, selectRate, messageRate))
  {
    var f, k := Init(clock, selectRate, messageRate), |clocks|;
    InitBalanced(clock, selectRate, messageRate);
    hide Calls, Ceil, Balanced, Times, Portion;
    SelectedBeforeCalibration(f, clocks);
    if messageRate <= selectRate {
      AllSelected(k);
    } else {
      Shares(k, selectRate, messageRate);
    }
  }

  lemma AllSelected(k: nat)
    ensures Ceil(Times(k, 1.0)) == k
  {
    CeilUnique(k as real, k);
  }

  lemma Shares(k: nat, p: int, q: int)
    requires q > 0
    ensures Times(k, p as real / q as real) == Portion(k, p, q)
  {
  }

  lemma {:induction false} RatiosBeforeCalibration(f: Filter, clocks: seq<real>)
    requires Calls(f, clocks).periods == 0
    ensures Calls(f, clocks).filter.selectRatio == f.selectRatio
    ensures Calls(f, clocks).ratios == Times(|clocks|, f.selectRatio)
  {
    if clocks != [] {
      RatiosBeforeCalibration(f, clocks[..|clocks| - 1]);
      TimesNext(|clocks| - 1, f.selectRatio);
    }
  }

  /** With a positive sampling rate, or no message rate to divide by, the filter starts
      balanced ... */
  lemma InitBalanced(clock: real, selectRate: int, messageRate: int)
    ensures Balanced(Init(clock, selectRate, messageRate)) <==> selectRate > 0 || messageRate <= 0
  {
    var f := Init(clock, selectRate, messageRate);
    if 0 < selectRate < messageRate {
      Fraction(selectRate, messageRate);
    } else if selectRate <= 0 && messageRate > 0 {
      assert selectRate as real / messageRate as real <= 0.0;
    }
  }

  /** A filter that starts balanced selects, in every period, the requested number of messages, or
      1000 if none was requested. */
  lemma SelectsRequested(clock: real, selectRate: int, messageRate: int, clocks: seq<real>)
    requires selectRate > 0 || messageRate <= 0
    ensures var o := Calls(Init(clock, selectRate, messageRate), clocks);
            Due(o.filter) <==> o.selected == (o.periods + 1) * if selectRate > 0 then selectRate else 1000
  {
    var f := Init(clock, selectRate, messageRate);
    InitBalanced(clock, selectRate, messageRate);
    PeriodSelectsTarget(f, clocks);
    hide Calls, Balanced, Due;
    WholeTimes(Calls(f, clocks).periods + 1, if selectRate > 0 then selectRate else 1000);
  }

  lemma WholeTimes(n: nat, k: int)
    ensures Times(n, k as real) == (n * k) as real
  {
  }

  lemma Fraction(p: int, q: int)
    requires 0 < p < q
    ensures 0.0 < p as real / q as real <= 1.0
  {
  }

  /** ... and otherwise it never selects anything, although a rate of zero is documented to
      mean the default of 1000 a second. */
  lemma {:induction false} SelectsIff(clock: real, selectRate: int, messageRate: int, clocks: seq<real>)
    requires clocks != []
    ensures Calls(Init(clock, selectRate, messageRate), clocks).selected > 0 <==> selectRate > 0 || messageRate <= 0
  {
    var f := Init(clock, selectRate, messageRate);
    InitBalanced(clock, selectRate, messageRate);
    if selectRate > 0 || messageRate <= 0 {
      SamplerExact(f, clocks);
      SumPositive(f, clocks);
    } else {
      assert f.selectRatio <= 0.0;
      NothingSelected(f, clocks);
    }
  }

  lemma {:induction false} SumPositive(f: Filter, clocks: seq<real>)
    requires Balanced(f) && f.messageCount == f.selectCount == 0.0 && clocks != []
    ensures Calls(f, clocks).ratios > 0.0
  {
    var shorter := clocks[..|clocks| - 1];
    SamplerExact(f, shorter);
    if shorter != [] {
      SumPositive(f, shorter);
    }
  }

  lemma {:induction false} NothingSelected(f: Filter, clocks: seq<real>)
    requires f.selectRatio <= 0.0 && f.messageCount == f.selectCount == 0.0 && f.samplingRate > 0.0
    ensures var o := Calls(f, clocks);
            && o.selected == 0 && o.filter.selectCount == 0.0 && o.filter.messageCount <= 0.0
            && o.filter.selectRatio == f.selectRatio && o.filter.samplingRate == f.samplingRate
  {
    if clocks != [] {
      NothingSelected(f, clocks[..|clocks| - 1]);
    }
  }

  class RateFilter {
    var lastTime: real
    var samplingRate: real
    var messageCount: real
    var selectCount: real
    var selectRatio: real

    function State(): Filter
      reads this
    {
      Filter(lastTime, samplingRate, messageCount, selectCount, selectRatio)
    }

    constructor (clock: real, selectRate: int, messageRate: int)
      ensures State() == Init(clock, selectRate, messageRate)
    {
      lastTime := clock;
      if selectRate > 0 {
        samplingRate := selectRate as real;
      } else {
        samplingRate := 1000.0;
      }
      if messageRate <= 0 || messageRate <= selectRate {
        selectRatio := 1.0;
      } else {
        selectRatio := selectRate as real / messageRate as real;
      }
      messageCount, selectCount := 0.0, 0.0;
    }

    /** Measures the time the last period took and corrects the ratio, when one has ended. */
    method Calibrate(clock: real)
      modifies this
      ensures State() == Calibrated(old(State()), clock)
    {
      if selectCount >= samplingRate {
        var deltaTime := clock - lastTime;
        ghost var elapsed := deltaTime;
        lastTime := lastTime + deltaTime;
        if deltaTime < 0.75 {
          deltaTime := 0.75;
        } else if deltaTime > 1.25 {
          deltaTime := 1.25;
        } else {
          deltaTime := 0.5 * (deltaTime + 1.0);
        }
        assert deltaTime == Damped(elapsed);
        selectRatio := selectRatio * deltaTime;
        if selectRatio > 1.0 {
          selectRatio := 1.0;
        }
        assert selectRatio == Scaled(old(selectRatio), deltaTime);
        selectCount := selectCount - samplingRate;
        messageCount := messageCount - samplingRate;
      }
    }

    /** One call; `clock` is what the system clock would answer, read only when a calibration
        is due. */
    method SelectForSampling(clock: real) returns (selected: bool)
      modifies this
      ensures (State(), selected) == Select(old(State()), clock)
    {
      hide Calibrated;
      Calibrate(clock);
      messageCount := messageCount + selectRatio;
      if selectCount < messageCount {
        selectCount := selectCount + 1.0;
        return true;
      }
      return false;
    }
  }
}
