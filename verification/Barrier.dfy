/** The ready barrier: submitter threads scan their clients, report, and wait for all the
    others before the first message is published. Any interleaving of the threads' steps. */
module Barrier {

  /** Where a submitter thread stands in doHandleClients. A scan has looked at the first
      `next` clients and counted `connected` of them. */
  datatype Pc = Starting | Scanning(next: nat, connected: nat) | Waiting | AtGate | Publishing | Exited

  datatype Thread = Thread(
    clients: nat,
    consumer: bool,
    pc: Pc,
    reported: bool,
    silent: bool,              // returned during set-up, without reporting or stopping the others
    sawConnected: set<nat>,    // clients seen connected by the current, or the last, scan
    sawSubscribed: bool,       // all subscriptions seen complete
    published: bool)           // has entered the publish loop

  datatype System = System(threads: seq<Thread>, waitReady: int, quit: bool, stop: bool)

  datatype Step =
    | Enter(t: nat)
    | FailToConnect(t: nat)
    | FailSetup(t: nat)
    | QuitEarly(t: nat)
    | Look(t: nat, connected: bool)
    | EndScan(t: nat, subscribed: bool)
    | GiveUp(t: nat)
    | PassWait(t: nat)
    | Gate(t: nat)
    | Finish(t: nat, stopAll: bool)
    | RequestQuit
    | RequestStop

  function Init(threads: seq<(nat, bool)>): System {
    System(seq(|threads|, i requires 0 <= i < |threads| =>
      Thread(threads[i].0, threads[i].1, Starting, false, false, {}, false, false)), |threads|, false, false)
  }

  predicate Enabled(s: System, step: Step) {
    match step
    case RequestQuit => true
    case RequestStop => true
    case Enter(t) => t < |s.threads| && s.threads[t].pc.Starting?
    case FailToConnect(t) => t < |s.threads| && s.threads[t].pc.Starting?
    case FailSetup(t) => t < |s.threads| && s.threads[t].pc.Starting?
    case QuitEarly(t) => t < |s.threads| && s.threads[t].pc.Starting? && (s.quit || s.stop)
    case Look(t, _) =>
      t < |s.threads| && s.threads[t].pc.Scanning? && s.threads[t].pc.next < s.threads[t].clients && !s.quit
    case EndScan(t, _) =>
      t < |s.threads| && s.threads[t].pc.Scanning? && (s.threads[t].pc.next >= s.threads[t].clients || s.quit)
    case GiveUp(t) =>
      t < |s.threads| && s.threads[t].pc.Scanning? && s.threads[t].pc.next == 0 && (s.quit || s.stop)
    case PassWait(t) =>
      t < |s.threads| && s.threads[t].pc.Waiting? && (s.quit || s.waitReady == 0 || s.stop)
    case Gate(t) => t < |s.threads| && s.threads[t].pc.AtGate?
    case Finish(t, _) => t < |s.threads| && s.threads[t].pc.Publishing?
  }

  function With(s: System, t: nat, thread: Thread): System
    requires t < |s.threads|
  {
    s.(threads := s.threads[t := thread])
  }

  /** One more client looked at. */
  function Looked(th: Thread, connected: bool): Thread
    requires th.pc.Scanning?
  {
    th.(pc := Scanning(th.pc.next + 1, th.pc.connected + if connected then 1 else 0),
    sawConnected := if connected then th.sawConnected + {th.pc.next} else th.sawConnected)
  }

  function Apply(s: System, step: Step): System
    requires Enabled(s, step)
  {
    match step
    case RequestQuit => s.(quit := true)
    case RequestStop => s.(stop := true)
    case Enter(t) =>
      // the counter is read here: zero means that nobody waits
      With(s, t, s.threads[t].(pc := if s.waitReady != 0 then Scanning(0, 0) else Waiting))
    case FailToConnect(t) =>
      With(s, t, s.threads[t].(pc := Exited)).(stop := true)
    case FailSetup(t) =>
      // only the error code is recorded
      With(s, t, s.threads[t].(pc := Exited, silent := true))
    case QuitEarly(t) => With(s, t, s.threads[t].(pc := Exited))
    case Look(t, connected) => With(s, t, Looked(s.threads[t], connected))
    case EndScan(t, subscribed) =>
      var th := s.threads[t];
      if th.pc.connected >= th.clients && (th.consumer ==> subscribed) then
        With(s, t, th.(pc := Waiting, reported := true, sawSubscribed := subscribed)).(waitReady := s.waitReady - 1)
      else
        With(s, t, th.(pc := Scanning(0, 0), sawConnected := {}))
    case GiveUp(t) => With(s, t, s.threads[t].(pc := Waiting))
    case PassWait(t) => With(s, t, s.threads[t].(pc := AtGate))
    case Gate(t) =>
      if s.quit || s.stop then With(s, t, s.threads[t].(pc := Exited)).(stop := true)
      else With(s, t, s.threads[t].(pc := Publishing, published := true))
    case Finish(t, stopAll) =>
      // a thread done with its message count clears the stop flag on its way out
      With(s, t, s.threads[t].(pc := Exited)).(stop := stopAll)
  }

  ghost predicate Run(states: seq<System>, steps: seq<Step>) {
    && |states| == |steps| + 1
    && forall k :: 0 <= k < |steps| ==> Enabled(states[k], steps[k]) && states[k + 1] == Apply(states[k], steps[k])
  }

  // ----- the invariant ---------------------------------------------------------------------

  /** How many threads have not reported. */
  function Unreported(threads: seq<Thread>): nat {
    if threads == [] then 0
    else Unreported(threads[..|threads| - 1]) + if threads[|threads| - 1].reported then 0 else 1
  }

  lemma {:induction false} UnreportedUpdate(threads: seq<Thread>, t: nat, th: Thread)
    requires t < |threads|
    ensures Unreported(threads[t := th])
         == Unreported(threads) - (if threads[t].reported then 0 else 1) + if th.reported then 0 else 1
  {
    var n := |threads| - 1;
    if t < n {
      assert threads[t := th][..n] == threads[..n][t := th];
      UnreportedUpdate(threads[..n], t, th);
    } else {
      assert threads[t := th][..n] == threads[..n];
    }
  }

  lemma {:induction false} NoneUnreported(threads: seq<Thread>)
    ensures Unreported(threads) == 0 <==> forall t :: 0 <= t < |threads| ==> threads[t].reported
  {
    if threads != [] {
      var n := |threads| - 1;
      NoneUnreported(threads[..n]);
      assert forall t :: 0 <= t < n ==> threads[..n][t] == threads[t];
    }
  }

  /** The thread has seen every one of its clients connected and its subscriptions complete. */
  predicate Ready(th: Thread) {
    (forall c :: 0 <= c < th.clients ==> c in th.sawConnected) && (th.consumer ==> th.sawSubscribed)
  }

  /** What a thread has seen: its scan counts the clients it saw connected, and it reports only
      once it is ready. */
  predicate SeenOk(th: Thread) {
    && (th.reported ==> Ready(th))
    && (th.pc.Starting? ==> th.sawConnected == {})
    && (th.pc.Scanning? ==>
          && |th.sawConnected| == th.pc.connected <= th.pc.next <= th.clients
          && (forall c :: c in th.sawConnected ==> c < th.pc.next)
          && (th.pc.connected == th.pc.next ==> forall c :: 0 <= c < th.pc.next ==> c in th.sawConnected))
  }

  predicate ThreadOk(s: System, th: Thread) {
    && SeenOk(th)
    && (th.reported ==> !th.pc.Starting? && !th.pc.Scanning?)
    && (!th.reported && !th.pc.Starting? && !th.pc.Scanning? ==> s.quit || s.stop || th.silent)
    && (th.silent ==> !th.reported && th.pc.Exited?)
    && (th.pc.AtGate? ==> s.quit || s.stop || s.waitReady == 0)
    && (th.pc.Publishing? ==> th.published)
    && (th.published ==> s.waitReady == 0)
  }

  ghost predicate Inv(s: System) {
    && s.waitReady == Unreported(s.threads)
    && forall t :: 0 <= t < |s.threads| ==> ThreadOk(s, s.threads[t])
  }

  lemma InitInv(threads: seq<(nat, bool)>)
    ensures Inv(Init(threads))
  {
    AllUnreported(Init(threads).threads);
  }

  lemma {:induction false} AllUnreported(threads: seq<Thread>)
    requires forall t :: 0 <= t < |threads| ==> !threads[t].reported
    ensures Unreported(threads) == |threads|
  {
    if threads != [] {
      AllUnreported(threads[..|threads| - 1]);
    }
  }

  lemma MoverCounted(s: System, step: Step)
    requires Inv(s) && Enabled(s, step) && !step.RequestQuit? && !step.RequestStop?
    ensures Apply(s, step).waitReady == Unreported(Apply(s, step).threads)
  {
    assert ThreadOk(s, s.threads[step.t]);
    hide Unreported, SeenOk;
    UnreportedUpdate(s.threads, step.t, Apply(s, step).threads[step.t]);
  }

  lemma MoverSeen(s: System, step: Step)
    requires Enabled(s, step) && !step.RequestQuit? && !step.RequestStop? && SeenOk(s.threads[step.t])
    requires s.threads[step.t].reported ==> !s.threads[step.t].pc.Scanning?
    ensures SeenOk(Apply(s, step).threads[step.t])
  {
    if step.Look? {
      hide SeenOk, Looked;
      LookSeen(s.threads[step.t], step.connected);
    }
  }

  lemma LookSeen(th: Thread, connected: bool)
    requires SeenOk(th) && th.pc.Scanning? && th.pc.next < th.clients && !th.reported
    ensures SeenOk(Looked(th, connected))
  {
    var saw := Looked(th, connected).sawConnected;
    assert th.pc.next !in th.sawConnected;
    assert |saw| == |th.sawConnected| + if connected then 1 else 0;
  }

  /** The thread that moves. */
  lemma MoverKeeps(s: System, step: Step)
    requires Inv(s) && Enabled(s, step) && !step.RequestQuit? && !step.RequestStop?
    ensures var r := Apply(s, step); ThreadOk(r, r.threads[step.t])
  {
    hide Unreported, SeenOk;
    assert ThreadOk(s, s.threads[step.t]);
    NoneUnreported(s.threads);
    MoverCounted(s, step);
    MoverSeen(s, step);
  }

  /** The others. */
  lemma BystanderKeeps(s: System, step: Step, u: nat)
    requires Inv(s) && Enabled(s, step) && u < |s.threads|
    requires !step.RequestQuit? && !step.RequestStop? ==> u != step.t
    ensures var r := Apply(s, step); ThreadOk(r, r.threads[u])
  {
    NoneUnreported(s.threads);
    assert ThreadOk(s, s.threads[u]);
    if !step.RequestQuit? && !step.RequestStop? {
      assert ThreadOk(s, s.threads[step.t]);
    }
  }

  lemma StepKeeps(s: System, step: Step)
    requires Inv(s) && Enabled(s, step)
    ensures Inv(Apply(s, step))
  {
    hide ThreadOk;
    var r := Apply(s, step);
    if !step.RequestQuit? && !step.RequestStop? {
      MoverCounted(s, step);
      MoverKeeps(s, step);
    }
    forall u | 0 <= u < |r.threads|
      ensures ThreadOk(r, r.threads[u])
    {
      if step.RequestQuit? || step.RequestStop? || u != step.t {
        BystanderKeeps(s, step, u);
      }
    }
  }

  /** Over every interleaving, with quit and stop requests at any time: the counter is the
      number of threads that have not reported, and no thread has published before every
      thread saw all its clients connected and all its subscriptions complete. */
  lemma {:induction false} NoneBeforeAllReady(states: seq<System>, steps: seq<Step>, threads: seq<(nat, bool)>, k: nat)
    requires Run(states, steps) && k <= |steps| && states[0] == Init(threads)
    ensures Inv(states[k])
    ensures (exists t :: 0 <= t < |states[k].threads| && states[k].threads[t].published) ==>
              forall u :: 0 <= u < |states[k].threads| ==> states[k].threads[u].reported && Ready(states[k].threads[u])
  {
    if k == 0 {
      InitInv(threads);
    } else {
      NoneBeforeAllReady(states, steps, threads, k - 1);
      StepKeeps(states[k - 1], steps[k - 1]);
    }
    var s := states[k];
    if t :| 0 <= t < |s.threads| && s.threads[t].published {
      assert ThreadOk(s, s.threads[t]);
      NoneUnreported(s.threads);
      assert forall u :: 0 <= u < |s.threads| ==> ThreadOk(s, s.threads[u]);
    }
  }

  /** The step asks everybody to stop: a request, a connection that cannot be made, a thread that
      finds at the gate that it should not go on, or one that ends with a failure. */
  predicate SetsStop(s: System, step: Step) {
    step.RequestStop? || step.FailToConnect? || (step.Gate? && (s.quit || s.stop)) || (step.Finish? && step.stopAll)
  }

  predicate ClearsStop(step: Step) {
    step.Finish? && !step.stopAll
  }

  lemma FlagStep(s: System, step: Step)
    requires Enabled(s, step)
    ensures Apply(s, step).quit <==> s.quit || step.RequestQuit?
    ensures Apply(s, step).stop <==> SetsStop(s, step) || (s.stop && !ClearsStop(step))
  {
  }

  /** The two flags, in every run: quit once it was requested, and stop from a step that sets it
      until a thread ends that is done with its messages. */
  lemma {:induction false} FlagsAre(states: seq<System>, steps: seq<Step>, threads: seq<(nat, bool)>, k: nat)
    requires Run(states, steps) && k <= |steps| && states[0] == Init(threads)
    ensures states[k].quit <==> exists j :: 0 <= j < k && steps[j].RequestQuit?
    ensures states[k].stop <==>
            exists j :: 0 <= j < k && SetsStop(states[j], steps[j]) && forall i :: j < i < k ==> !ClearsStop(steps[i])
  {
    hide Apply, SetsStop, ClearsStop;
    if k > 0 {
      FlagsAre(states, steps, threads, k - 1);
      FlagStep(states[k - 1], steps[k - 1]);
    }
  }

  lemma {:induction false} AtLeast(n: nat, s: set<nat>)
    requires forall c :: 0 <= c < n ==> c in s
    ensures |s| >= n
  {
    if n > 0 {
      AtLeast(n - 1, s - {n - 1});
    }
  }

  /** At the end of a scan a thread reports exactly when this scan has seen all its clients
      connected and, for a consumer, the subscriptions are complete; otherwise it scans again. */
  lemma ReportsIff(states: seq<System>, steps: seq<Step>, threads: seq<(nat, bool)>, k: nat)
    requires Run(states, steps) && k < |steps| && states[0] == Init(threads) && steps[k].EndScan?
    ensures var t := steps[k].t;
            && t < |states[k].threads| == |states[k + 1].threads|
            && var th, r := states[k].threads[t], states[k + 1].threads[t];
            && (r.reported <==>
                  (forall c :: 0 <= c < th.clients ==> c in th.sawConnected) && (th.consumer ==> steps[k].subscribed))
            && r.pc == (if r.reported then Waiting else Scanning(0, 0))
            && (!r.reported ==> r.sawConnected == {})
  {
    NoneBeforeAllReady(states, steps, threads, k);
    hide Unreported;
    var th := states[k].threads[steps[k].t];
    assert ThreadOk(states[k], th);
    if forall c :: 0 <= c < th.clients ==> c in th.sawConnected {
      AtLeast(th.clients, th.sawConnected);
    }
  }

  /** When all have reported and nobody wants to quit or stop, a waiting thread goes on and
      publishes. */
  lemma ReadyPublishes(states: seq<System>, steps: seq<Step>, threads: seq<(nat, bool)>, k: nat, t: nat)
    requires Run(states, steps) && k <= |steps| && states[0] == Init(threads)
    requires t < |states[k].threads| && states[k].threads[t].pc.Waiting? && !states[k].quit && !states[k].stop
    requires forall u :: 0 <= u < |states[k].threads| ==> states[k].threads[u].reported
    ensures Enabled(states[k], PassWait(t))
    ensures var s := Apply(states[k], PassWait(t));
            && Enabled(s, Gate(t))
            && var th := Apply(s, Gate(t)).threads[t];
            th.published && th.pc == Publishing
  {
    NoneBeforeAllReady(states, steps, threads, k);
    NoneUnreported(states[k].threads);
  }

  /** Once no thread is still connecting or scanning, a waiting thread can go on exactly when
      the others were told to quit or stop, or none of them returned silently during set-up. */
  lemma NobodyStranded(states: seq<System>, steps: seq<Step>, threads: seq<(nat, bool)>, k: nat, t: nat)
    requires Run(states, steps) && k <= |steps| && states[0] == Init(threads)
    requires t < |states[k].threads| && states[k].threads[t].pc.Waiting?
    requires forall u :: 0 <= u < |states[k].threads| ==>
               !states[k].threads[u].pc.Starting? && !states[k].threads[u].pc.Scanning?
    ensures Enabled(states[k], PassWait(t)) <==>
            || states[k].quit
            || states[k].stop
            || forall u :: 0 <= u < |states[k].threads| ==> !states[k].threads[u].silent
  {
    NoneBeforeAllReady(states, steps, threads, k);
    var s := states[k];
    NoneUnreported(s.threads);
    assert forall u :: 0 <= u < |s.threads| ==> ThreadOk(s, s.threads[u]);
  }

  /** Whatever else happens, once one thread has returned silently nobody ever publishes. */
  lemma SilentBlocksAll(states: seq<System>, steps: seq<Step>, threads: seq<(nat, bool)>, j: nat, k: nat, t: nat)
    requires Run(states, steps) && j <= k <= |steps| && states[0] == Init(threads)
    requires t < |threads| && |states[j].threads| == |threads| && states[j].threads[t].silent
    ensures |states[k].threads| == |threads|
    ensures forall u :: 0 <= u < |threads| ==> !states[k].threads[u].published
  {
    StaysSilent(states, steps, threads, j, k, t);
    NoneBeforeAllReady(states, steps, threads, k);
    assert ThreadOk(states[k], states[k].threads[t]);
  }

  lemma {:induction false} StaysSilent(states: seq<System>, steps: seq<Step>, threads: seq<(nat, bool)>,
                                       j: nat, k: nat, t: nat)
    requires Run(states, steps) && j <= k <= |steps| && states[0] == Init(threads)
    requires t < |threads| && |states[j].threads| == |threads| && states[j].threads[t].silent
    ensures |states[k].threads| == |threads| && states[k].threads[t].silent
    decreases k
  {
    hide Unreported, SeenOk;
    if j < k {
      StaysSilent(states, steps, threads, j, k - 1, t);
      NoneBeforeAllReady(states, steps, threads, k - 1);
      assert ThreadOk(states[k - 1], states[k - 1].threads[t]);
    }
  }

  /** It happens: one thread is ready and waits, the other fails in set-up, and from there
      nothing but a request to quit or to stop is possible. */
  lemma SilentExitStrands() returns (states: seq<System>, steps: seq<Step>)
    ensures Run(states, steps) && states[0] == Init([(1, false), (1, false)])
    ensures var s := states[|steps|];
            && |s.threads| == 2 && s.threads[0].pc == Waiting && s.threads[0].reported && s.threads[1].silent
            && forall step :: Enabled(s, step) ==> step.RequestQuit? || step.RequestStop?
  {
    var s0 := Init([(1, false), (1, false)]);
    var s1 := Apply(s0, Enter(0));
    var s2 := Apply(s1, Look(0, true));
    var s3 := Apply(s2, EndScan(0, true));
    var s4 := Apply(s3, FailSetup(1));
    states, steps := [s0, s1, s2, s3, s4], [Enter(0), Look(0, true), EndScan(0, true), FailSetup(1)];
  }
}
