/** Splitting a requested number of messages among the publishing submitter threads. */
module Quota {
  import opened RoundRobin

  /** What thread `id` has to publish when `n` threads publish. */
  function QuotaOf(count: nat, n: nat, id: nat): nat
    requires n > 0
  {
    if n > 1 then Share(count, n, id) else count
  }

  /** ... as each thread computes it for itself. */
  method ComputeQuota(count: nat, n: nat, id: nat) returns (quota: nat)
    requires n > 0
    ensures quota == QuotaOf(count, n, id)
  {
    if n > 1 {
      var fraction := count % n;
      quota := count / n;
      if fraction > 0 && id < fraction {
        quota := quota + 1;
      }
    } else {
      quota := count;
    }
  }

  /** The quotas of the threads with these identifiers together. */
  function Total(count: nat, n: nat, ids: seq<nat>): nat
    requires n > 0
  {
    if ids == [] then 0 else Total(count, n, ids[1..]) + QuotaOf(count, n, ids[0])
  }

  /** How many of the identifiers are below f. */
  function Below(ids: seq<nat>, f: nat): nat {
    if ids == [] then 0 else Below(ids[1..], f) + if ids[0] < f then 1 else 0
  }

  lemma {:induction false} TotalIs(count: nat, n: nat, ids: seq<nat>)
    requires n > 1
    ensures Total(count, n, ids) == |ids| * (count / n) + Below(ids, count % n)
  {
    if ids != [] {
      TotalIs(count, n, ids[1..]);
      assert |ids| * (count / n) == |ids[1..]| * (count / n) + count / n;
    }
  }

  /** The quotas add up to the requested count exactly when as many threads as there are
      messages left over have an identifier below the remainder; for distinct identifiers,
      when every identifier that earns one more message is held by a publishing thread ... */
  lemma QuotasExact(count: nat, ids: seq<nat>)
    requires ids != []
    ensures Total(count, |ids|, ids) == count <==> |ids| == 1 || Below(ids, count % |ids|) == count % |ids|
    ensures Distinct(ids) ==>
              (Total(count, |ids|, ids) == count <==> |ids| == 1 || forall f :: 0 <= f < count % |ids| ==> f in ids)
  {
    var n := |ids|;
    if n > 1 {
      TotalIs(count, n, ids);
      assert n * (count / n) + count % n == count;
      if Distinct(ids) {
        BelowFull(ids, count % n);
      }
    } else {
      assert ids[1..] == [];
      assert Total(count, n, ids[1..]) == 0;
    }
  }

  /** As many distinct identifiers as there can be lie below f exactly when all of them do. */
  lemma {:induction false} BelowFull(ids: seq<nat>, f: nat)
    requires Distinct(ids)
    ensures Below(ids, f) == f <==> forall k :: 0 <= k < f ==> k in ids
  {
    if f == 0 {
      BelowZero(ids);
    } else {
      BelowFull(ids, f - 1);
      BelowStep(ids, f - 1);
      BelowPigeons(ids, f - 1, f - 1);
    }
  }

  /** ... which holds when they are numbered 0 to n-1, in any order ... */
  lemma QuotasAddUp(count: nat, ids: seq<nat>)
    requires ids != [] && Distinct(ids) && forall i :: 0 <= i < |ids| ==> ids[i] < |ids|
    ensures Total(count, |ids|, ids) == count
  {
    var n := |ids|;
    if n > 1 {
      BelowAll(ids, n);
      BelowPigeons(ids, count % n, n);
    }
    QuotasExact(count, ids);
  }

  ghost predicate Distinct(ids: seq<nat>) {
    forall i, j :: 0 <= i < j < |ids| ==> ids[i] != ids[j]
  }

  lemma {:induction false} BelowAll(ids: seq<nat>, n: nat)
    requires forall i :: 0 <= i < |ids| ==> ids[i] < n
    ensures Below(ids, n) == |ids|
  {
    if ids != [] {
      BelowAll(ids[1..], n);
    }
  }

  /** Raising the bound by one lets in at most one of several distinct identifiers. */
  lemma {:induction false} BelowStep(ids: seq<nat>, f: nat)
    requires Distinct(ids)
    ensures Below(ids, f) <= Below(ids, f + 1) <= Below(ids, f) + 1
    ensures Below(ids, f + 1) == Below(ids, f) + if f in ids then 1 else 0
  {
    if ids != [] {
      BelowStep(ids[1..], f);
      if ids[0] == f {
        assert f !in ids[1..];
      } else {
        assert f in ids <==> f in ids[1..];
      }
    }
  }

  lemma {:induction false} BelowPigeons(ids: seq<nat>, f: nat, g: nat)
    requires Distinct(ids) && f <= g
    ensures Below(ids, g) - Below(ids, f) <= g - f
    ensures Below(ids, f) <= f
    decreases g
  {
    BelowZero(ids);
    if f < g {
      BelowPigeons(ids, f, g - 1);
      BelowStep(ids, g - 1);
    } else if f > 0 {
      BelowPigeons(ids, f - 1, f - 1);
      BelowStep(ids, f - 1);
    }
  }

  lemma {:induction false} BelowZero(ids: seq<nat>)
    ensures Below(ids, 0) == 0
  {
    if ids != [] {
      BelowZero(ids[1..]);
    }
  }

  /** ... and otherwise, with distinct identifiers, they can only fall short. */
  lemma QuotasNeverExceed(count: nat, ids: seq<nat>)
    requires ids != [] && Distinct(ids)
    ensures Total(count, |ids|, ids) <= count
  {
    var n := |ids|;
    if n > 1 {
      TotalIs(count, n, ids);
      BelowPigeons(ids, count % n, count % n);
      assert n * (count / n) + count % n == count;
    } else {
      QuotasExact(count, ids);
    }
  }

  /** A consumer-only thread numbered 0 in front of two publishing threads costs a message. */
  lemma ConsumerFirstFallsShort()
    ensures Total(3, 2, [1, 2]) == 2
  {
    TotalIs(3, 2, [1, 2]);
    assert [1, 2][1..] == [2];
    assert Below([2], 1) == 0;
    assert Below([1, 2], 1) == 0;
  }

  function Accepted(outcomes: seq<bool>): nat {
    if outcomes == [] then 0
    else Accepted(outcomes[..|outcomes| - 1]) + if outcomes[|outcomes| - 1] then 1 else 0
  }

  /** The publish loop of one thread: a turn is taken only while the quota is not reached, and
      counts only if the I/O thread takes the packet. */
  method PublishLoop(quota: nat, outcomes: seq<bool>) returns (submitCnt: nat, done: bool)
    ensures submitCnt == if Accepted(outcomes) < quota then Accepted(outcomes) else quota
    ensures done <==> submitCnt == quota
  {
    submitCnt := 0;
    var i := 0;
    assert outcomes[..0] == [];
    while i < |outcomes| && submitCnt < quota
      invariant 0 <= i <= |outcomes| && submitCnt <= quota
      invariant submitCnt == Accepted(outcomes[..i])
    {
      assert outcomes[..i + 1][..i] == outcomes[..i];
      if outcomes[i] {
        submitCnt := submitCnt + 1;
      }
      i := i + 1;
    }
    AcceptedGrows(outcomes, i);
    assert outcomes[..|outcomes|] == outcomes;
    done := submitCnt >= quota;
  }

  lemma {:induction false} AcceptedGrows(outcomes: seq<bool>, i: nat)
    requires i <= |outcomes|
    ensures Accepted(outcomes[..i]) <= Accepted(outcomes)
  {
    if i < |outcomes| {
      AcceptedGrows(outcomes[..|outcomes| - 1], i);
      assert outcomes[..|outcomes| - 1][..i] == outcomes[..i];
    } else {
      assert outcomes[..i] == outcomes;
    }
  }

  function SumOf(counts: seq<nat>): nat {
    if counts == [] then 0 else SumOf(counts[1..]) + counts[0]
  }

  /** While no thread exceeds its quota the threads together submit at most the quotas'
      total, and exactly that once, and only once, all of them are done. */
  lemma {:induction false} DoneWhenAllDone(count: nat, n: nat, ids: seq<nat>, submitted: seq<nat>)
    requires n > 0 && |submitted| == |ids|
    requires forall i :: 0 <= i < |ids| ==> submitted[i] <= QuotaOf(count, n, ids[i])
    ensures SumOf(submitted) <= Total(count, n, ids)
    ensures SumOf(submitted) == Total(count, n, ids) <==>
            forall i :: 0 <= i < |ids| ==> submitted[i] == QuotaOf(count, n, ids[i])
  {
    hide QuotaOf;
    if ids != [] {
      DoneWhenAllDone(count, n, ids[1..], submitted[1..]);
      assert forall i :: 0 <= i < |ids| - 1 ==> submitted[1..][i] == submitted[i + 1] && ids[1..][i] == ids[i + 1];
      if forall i :: 0 <= i < |ids| - 1 ==> submitted[1..][i] == QuotaOf(count, n, ids[1..][i]) {
        assert forall i :: 1 <= i < |ids| ==> submitted[i] == submitted[1..][i - 1] && ids[i] == ids[1..][i - 1];
      }
    }
  }
}
