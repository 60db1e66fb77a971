/** The publishing half of a client as a state machine. Each step is one region the source
    runs under the client lock, one look at shared state, or one callback of the I/O thread;
    the steps of the submitter thread and of the I/O thread interleave in any order. */
module Sender {
  import opened Options
  import opened MsgIds

  const MAX_MSGID := 65535

  /** What happened to packet identifiers, oldest first; the slots are proved to agree with it. */
  datatype Event =
    | Chosen(id: nat, qos: nat, dup: bool)   // a publish was given the identifier
    | Received(id: nat)                      // its PUBREC was accepted
    | Completed(id: nat)                     // its PUBACK or PUBCOMP was accepted
    | Withdrawn(id: nat)                     // the I/O thread refused the publish
    | ConnectionReset
    | WindowFreed                            // disconnected for good

  datatype Conn = Connecting | PubSub | Closing | Disconnected

  /** Where the submitter thread stands. It has a turn once it has seen the client in PUBSUB
      state; from then on the connection may change under it at any time. Identifier 0 is a
      QoS 0 publish, which has none; a publish is stale once its window was reset or freed, or
      its identifier acknowledged, under it. */
  datatype Pending = Idle | Turn | Assigned(id: nat, stale: bool) | Sent(id: nat)

  datatype Client = Client(
    qosSet: set<nat>,     // the QoS levels this producer publishes at (txQoSBitMap)
    slots: seq<Slot>,     // inflightMsgIds, empty once freed
    avail: nat,           // availMsgId
    inflight: int,        // currInflightMessages
    window: nat,          // maxInflightMsgs
    conn: Conn,
    pending: Pending,
    lockHeld: bool,       // the client lock was left held
    leaving: bool,        // a thread has found that it may disconnect the client
    serverMax: nat,       // Receive Maximum of the last CONNACK, 65535 if it had none
    log: seq<Event>)

  datatype Step =
    | Observe
    | Pass
    | Choose(qos: nat)
    | Submit
    | Advance
    | Withdraw
    | Skip
    | RecvPubAck(id: nat)
    | RecvPubRec(id: nat)
    | RecvPubComp(id: nat)
    | ConnAck(maxReceive: Option<nat>, accepted: bool)
    | StartClose
    | Leave(quit: bool)
    | Disconnect(reconnect: bool)
    | Reset

  // ----- what the log says -----------------------------------------------------------------

  /** The identifier belongs to a publish nothing has ended yet. */
  ghost predicate Open(log: seq<Event>, id: nat) {
    log != [] &&
    var rest := log[..|log| - 1];
    match log[|log| - 1]
    case Chosen(i, _, _) => i == id || Open(rest, id)
    case Received(_) => Open(rest, id)
    case Completed(i) => i != id && Open(rest, id)
    case Withdrawn(i) => i != id && Open(rest, id)
    case ConnectionReset => false
    case WindowFreed => false
  }

  /** ... and that publish is at QoS 2. */
  ghost predicate OpenTwo(log: seq<Event>, id: nat) {
    log != [] &&
    var rest := log[..|log| - 1];
    match log[|log| - 1]
    case Chosen(i, qos, _) => if i == id then qos == 2 else OpenTwo(rest, id)
    case Received(_) => OpenTwo(rest, id)
    case Completed(i) => i != id && OpenTwo(rest, id)
    case Withdrawn(i) => i != id && OpenTwo(rest, id)
    case ConnectionReset => false
    case WindowFreed => false
  }

  /** The identifier's last QoS 2 exchange was cut by a reset, and it was not chosen since. */
  ghost predicate Cut(log: seq<Event>, id: nat) {
    log != [] &&
    var rest := log[..|log| - 1];
    match log[|log| - 1]
    case Chosen(i, _, _) => i != id && Cut(rest, id)
    case Received(_) => Cut(rest, id)
    case Completed(_) => Cut(rest, id)
    case Withdrawn(_) => Cut(rest, id)
    case ConnectionReset => OpenTwo(rest, id) || Cut(rest, id)
    case WindowFreed => Cut(rest, id)
  }

  /** A PUBREC was accepted for the identifier since it was last chosen. */
  ghost predicate Released(log: seq<Event>, id: nat) {
    log != [] &&
    var rest := log[..|log| - 1];
    match log[|log| - 1]
    case Chosen(i, _, _) => i != id && Released(rest, id)
    case Received(i) => i == id || Released(rest, id)
    case Completed(i) => i != id && Released(rest, id)
    case Withdrawn(i) => i != id && Released(rest, id)
    case ConnectionReset => false
    case WindowFreed => false
  }

  // ----- the steps -------------------------------------------------------------------------

  /** A window of n slots, all available (allocateInFlightMsgIDs). */
  function Init(qosSet: set<nat>, n: nat): Client {
    Client(qosSet, seq(n, _ => FREE), 1, 0, n, Connecting, Idle, false, false, MAX_MSGID, [])
  }

  predicate Shaped(c: Client) {
    c.slots != [] ==> Window(c.slots, c.avail, c.window)
  }

  /** First region of submitPublish: find an identifier and mark its slot. */
  function DoChoose(c: Client, qos: nat): Client
    requires Shaped(c) && (qos > 0 ==> c.slots != [])
  {
    if qos == 0 then c.(pending := Assigned(0, false))
    else
      var (id, rc) := Search(c.slots, c.avail, c.window, c.inflight);
      if !rc.Found? then c.(avail := id, pending := Idle)
      else
        var dup := qos == 2 && c.slots[id].unknown;
        var phase := if qos == 1 then PubAck else PubRec;
        c.(slots := c.slots[id := Slot(phase, false)], avail := id, inflight := c.inflight + 1,
        pending := Assigned(id, false), log := c.log + [Chosen(id, qos, dup)])
  }

  /** The I/O thread took the packet; then the next identifier is made the first candidate. */
  function DoSubmit(c: Client): Client
    requires c.pending.Assigned?
  {
    c.(pending := Sent(c.pending.id))
  }

  function DoAdvance(c: Client): Client {
    c.(avail := Advanced(c.avail, c.window), pending := Idle)
  }

  /** The I/O thread refused the packet: the slot at availMsgId is made available again. */
  function DoWithdraw(c: Client): Client
    requires c.pending.Assigned? && (c.pending.id != 0 ==> c.avail < |c.slots|)
  {
    if c.pending.id == 0 then c.(pending := Idle)
    else
      c.(slots := c.slots[c.avail := FREE], inflight := c.inflight - 1,
      pending := Idle, log := c.log + [Withdrawn(c.avail)])
  }

  /** The second look finds the connection out of PUBSUB state: the slot stays as it is. */
  function DoSkip(c: Client): Client {
    c.(pending := Idle)
  }

  /** An exchange ends; a publish in progress with the same identifier is no longer tracked. */
  function DoComplete(c: Client, id: nat): Client
    requires id < |c.slots|
  {
    c.(slots := c.slots[id := FREE], inflight := c.inflight - 1, log := c.log + [Completed(id)],
    pending := if c.pending.Assigned? && c.pending.id == id then Stale(c.pending) else c.pending)
  }

  /** PUBACK. On a slot in another state the handler returns without releasing the lock. */
  function DoPubAck(c: Client, id: nat): Client
    requires id < |c.slots|
  {
    if c.slots[id] == Slot(PubAck, false) then DoComplete(c, id)
    else c.(lockHeld := true)
  }

  /** PUBREC, with the same lock on a slot in another state. */
  function DoPubRec(c: Client, id: nat): Client
    requires id < |c.slots|
  {
    if c.slots[id] == Slot(PubRec, false) then
      c.(slots := c.slots[id := Slot(PubComp, false)], log := c.log + [Received(id)])
    else
      c.(lockHeld := true)
  }

  function DoPubComp(c: Client, id: nat): Client
    requires id < |c.slots|
  {
    if c.slots[id] == Slot(PubComp, false) then DoComplete(c, id) else c
  }

  /** CONNACK: an invalid Receive Maximum closes the connection, a valid one can only lower
      the window; a CONNACK refused for another reason closes it too. */
  function DoConnAck(c: Client, maxReceive: Option<nat>, accepted: bool): Client {
    var max := if maxReceive.Some? then maxReceive.value else MAX_MSGID;
    if max == 0 || max > MAX_MSGID then c.(conn := Closing)
    else
      c.(window := if maxReceive.Some? && max < c.window then max else c.window, serverMax := max,
      conn := if accepted then PubSub else Closing)
  }

  /** A look, without the lock, at whether nothing is in flight or the user asked to quit ... */
  predicate MayLeave(c: Client, quit: bool) {
    c.conn.Closing? && (c.inflight == 0 || quit)
  }

  /** ... and the locked region after it, which does not look again: the count is zeroed, and
      the window freed if there will be no reconnect. */
  function DoDisconnect(c: Client, reconnect: bool): Client {
    if reconnect then c.(conn := Disconnected, inflight := 0, leaving := false)
    else
      c.(conn := Disconnected, inflight := 0, leaving := false, avail := 0, slots := [],
      pending := Stale(c.pending), log := c.log + [WindowFreed])
  }

  function Stale(p: Pending): Pending {
    if p.Assigned? then p.(stale := true) else p
  }

  /** What a reset makes of a slot, for a producer with these QoS levels. */
  function AfterReset(qosSet: set<nat>, s: Slot): Slot {
    if qosSet == {1} then FREE
    else if 2 in qosSet && (s == Slot(PubRec, false) || s == Slot(PubComp, false)) then s.(unknown := true)
    else s
  }

  function DoReset(c: Client): Client {
    var slots := seq(|c.slots|, i requires 0 <= i < |c.slots| => AfterReset(c.qosSet, c.slots[i]));
    c.(slots := slots, avail := if slots == [] then c.avail else 1,
    inflight := if slots == [] then c.inflight else 0,
    conn := Connecting,
    pending := Stale(c.pending),
    log := c.log + [ConnectionReset])
  }

  /** No PUBACK slot survives a reset that zeroes the count. */
  predicate CleanReset(c: Client) {
    c.qosSet == {1} || forall i :: 0 <= i < |c.slots| ==> c.slots[i].phase != PubAck
  }

  /** When a step can happen: the submitter thread is where it takes the step from and the lock
      is free if the step needs it. Left out are only steps that read a slot that is not there:
      an acknowledged identifier outside the window, and a turn whose window was freed
      (MissingWindowIff, FreedRun). */
  predicate Possible(c: Client, s: Step) {
    Shaped(c) &&
    match s
    case Observe => c.pending.Idle? && c.conn.PubSub?
    case Pass => c.pending.Turn?
    case Choose(qos) => c.pending.Turn? && qos in c.qosSet && (qos > 0 ==> !c.lockHeld && c.slots != [])
    case Submit => c.pending.Assigned?
    case Advance => c.pending.Sent? && !c.lockHeld
    case Withdraw => c.pending.Assigned? && (c.pending.id != 0 ==> !c.lockHeld && c.slots != [])
    case Skip => c.pending.Assigned?
    case RecvPubAck(id) => AckPossible(c, id)
    case RecvPubRec(id) => AckPossible(c, id)
    case RecvPubComp(id) => AckPossible(c, id)
    case ConnAck(_, _) => c.conn.Connecting?
    case StartClose => c.conn.Connecting? || c.conn.PubSub?
    case Leave(quit) => MayLeave(c, quit)
    case Disconnect(_) => c.leaving && !c.lockHeld
    case Reset => true
  }

  predicate AckPossible(c: Client, id: nat) {
    !c.lockHeld && 1 <= id < |c.slots|
  }

  /** When a step keeps its promises, which StepExact proves to be exact: a refused publish is
      not stale (else see StaleRun and EarlyAckRun), a client that reconnects is not
      disconnected with publishes in flight (QuitRun, LateChoiceRun), and a reset is clean
      (MixedResetBreaks). */
  predicate Sound(c: Client, s: Step) {
    match s
    case Withdraw => c.pending.Assigned? && (c.pending.stale ==> c.pending.id == 0)
    case Disconnect(reconnect) => reconnect ==> c.inflight == 0
    case Reset => CleanReset(c)
    case _ => true
  }

  predicate Enabled(c: Client, s: Step) {
    Possible(c, s) && Sound(c, s)
  }

  function Apply(c: Client, s: Step): Client
    requires Possible(c, s)
  {
    match s
    case Observe => c.(pending := Turn)
    case Pass => c.(pending := Idle)
    case Choose(qos) => DoChoose(c, qos)
    case Submit => DoSubmit(c)
    case Advance => DoAdvance(c)
    case Withdraw => DoWithdraw(c)
    case Skip => DoSkip(c)
    case RecvPubAck(id) => DoPubAck(c, id)
    case RecvPubRec(id) => DoPubRec(c, id)
    case RecvPubComp(id) => DoPubComp(c, id)
    case ConnAck(max, accepted) => DoConnAck(c, max, accepted)
    case StartClose => c.(conn := Closing)
    case Leave(_) => c.(leaving := true)
    case Disconnect(reconnect) => DoDisconnect(c, reconnect)
    case Reset => DoReset(c)
  }

  /** A run: the states it passes through. */
  ghost predicate Run(states: seq<Client>, steps: seq<Step>) {
    && |states| == |steps| + 1
    && forall k :: 0 <= k < |steps| ==> Enabled(states[k], steps[k]) && states[k + 1] == Apply(states[k], steps[k])
  }

  // ----- the invariant ---------------------------------------------------------------------

  /** The counter is the number of exchanges in flight. */
  ghost predicate CountOk(c: Client) {
    c.inflight == Count(c.slots)
  }

  /** A slot says what the log says about its identifier. */
  ghost predicate Matches(s: Slot, log: seq<Event>, id: nat) {
    && (InFlight(s) <==> Open(log, id))
    && (InFlight(s) && s.phase != PubAck <==> OpenTwo(log, id))
    && (InFlight(s) && s.phase == PubComp <==> Released(log, id))
    && (s.unknown <==> Cut(log, id))
  }

  ghost predicate HistoryOk(c: Client) {
    && (forall id :: 0 <= id < |c.slots| ==> Matches(c.slots[id], c.log, id))
    && (forall id: nat :: |c.slots| <= id ==> !Open(c.log, id))
  }

  /** Every identifier ever chosen lay in the window and was not in use, and a publish was
      marked DUP exactly when it took over a QoS 2 exchange cut by a reset. */
  ghost predicate ChosenOk(e: Event, before: seq<Event>, n: nat) {
    e.Chosen? ==>
      && 1 <= e.id < n
      && !Open(before, e.id)
      && (e.dup <==> e.qos == 2 && Cut(before, e.id))
  }

  ghost predicate LogOk(log: seq<Event>, n: nat) {
    forall k :: 0 <= k < |log| ==> ChosenOk(log[k], log[..k], n)
  }

  /** The slot states the QoS levels allow. */
  predicate Typed(s: Slot, qosSet: set<nat>) {
    && (s.phase == PubAck ==> 1 in qosSet)
    && (s.phase in {PubRec, PubComp} ==> 2 in qosSet)
    && (s.unknown ==> s.phase in {PubRec, PubComp})
  }

  ghost predicate TypesOk(c: Client) {
    forall i :: 0 <= i < |c.slots| ==> Typed(c.slots[i], c.qosSet)
  }

  ghost predicate WindowOk(c: Client, n: nat) {
    && (c.slots != [] ==> |c.slots| == n && c.slots[0] == FREE && Window(c.slots, c.avail, c.window))
    && 1 <= c.window <= c.serverMax && c.window <= MAX_MSGID
    && c.inflight <= c.window
    && (c.conn.Connecting? ==> c.inflight <= if c.pending.Turn? then 0 else 1)
  }

  /** The identifier of the publish in progress is the current candidate and its slot is in
      flight; once it is stale, neither its slot nor the candidate's is. */
  predicate PendingOk(c: Client) {
    c.pending.Assigned? && c.pending.id != 0 ==>
      if c.pending.stale then !InFlightAt(c, c.pending.id) && !InFlightAt(c, c.avail)
      else c.pending.id == c.avail && InFlightAt(c, c.avail)
  }

  predicate InFlightAt(c: Client, id: nat) {
    id < |c.slots| && InFlight(c.slots[id])
  }

  ghost predicate Inv(c: Client, n: nat) {
    WindowOk(c, n) && CountOk(c) && TypesOk(c) && PendingOk(c) && HistoryOk(c) && LogOk(c.log, n)
  }

  // ----- every step keeps it ---------------------------------------------------------------

  lemma Snoc(log: seq<Event>, e: Event, id: nat)
    ensures Open(log + [e], id) <==>
            match e
            case Chosen(i, _, _) => i == id || Open(log, id)
            case Received(_) => Open(log, id)
            case Completed(i) => i != id && Open(log, id)
            case Withdrawn(i) => i != id && Open(log, id)
            case ConnectionReset => false
            case WindowFreed => false
    ensures OpenTwo(log + [e], id) <==>
            match e
            case Chosen(i, qos, _) => if i == id then qos == 2 else OpenTwo(log, id)
            case Received(_) => OpenTwo(log, id)
            case Completed(i) => i != id && OpenTwo(log, id)
            case Withdrawn(i) => i != id && OpenTwo(log, id)
            case ConnectionReset => false
            case WindowFreed => false
    ensures Cut(log + [e], id) <==>
            match e
            case Chosen(i, _, _) => i != id && Cut(log, id)
            case Received(_) => Cut(log, id)
            case Completed(_) => Cut(log, id)
            case Withdrawn(_) => Cut(log, id)
            case ConnectionReset => OpenTwo(log, id) || Cut(log, id)
            case WindowFreed => Cut(log, id)
    ensures Released(log + [e], id) <==>
            match e
            case Chosen(i, _, _) => i != id && Released(log, id)
            case Received(i) => i == id || Released(log, id)
            case Completed(i) => i != id && Released(log, id)
            case Withdrawn(i) => i != id && Released(log, id)
            case ConnectionReset => false
            case WindowFreed => false
  {
    assert (log + [e])[..|log|] == log;
  }

  lemma LogGrows(log: seq<Event>, e: Event, n: nat)
    requires LogOk(log, n) && ChosenOk(e, log, n)
    ensures LogOk(log + [e], n)
  {
    forall k | 0 <= k <= |log|
      ensures ChosenOk((log + [e])[k], (log + [e])[..k], n)
    {
      assert (log + [e])[..k] == log[..k];
      assert log[..|log|] == log;
    }
  }

  /** One slot changes, and the log says so. */
  lemma SlotChange(c: Client, id: nat, s: Slot, e: Event, n: nat)
    requires id < |c.slots| && (e.Chosen? || e.Received? || e.Completed? || e.Withdrawn?) && e.id == id
    requires CountOk(c) && TypesOk(c) && HistoryOk(c) && LogOk(c.log, n)
    requires Typed(s, c.qosSet) && ChosenOk(e, c.log, n) && Matches(s, c.log + [e], id)
    ensures var slots, log := c.slots[id := s], c.log + [e];
            && Count(slots) == c.inflight - Weight(c.slots[id]) + Weight(s)
            && TypesOk(c.(slots := slots))
            && HistoryOk(c.(slots := slots, log := log))
            && LogOk(log, n)
  {
    CountUpdate(c.slots, id, s);
    LogGrows(c.log, e, n);
    var slots, log := c.slots[id := s], c.log + [e];
    forall i: nat | i != id
      ensures i < |slots| ==> Matches(slots[i], log, i)
      ensures |slots| <= i ==> !Open(log, i)
    {
      Snoc(c.log, e, i);
      if i < |slots| {
        assert Matches(c.slots[i], c.log, i);
      }
    }
  }

  lemma ChooseKeeps(c: Client, qos: nat, n: nat)
    requires Inv(c, n) && Enabled(c, Choose(qos)) && c.qosSet <= {0, 1, 2}
    ensures Inv(DoChoose(c, qos), n)
  {
    hide Open, OpenTwo, Released, Cut, Count, LogOk, Search;
    if qos > 0 {
      var (id, rc) := Search(c.slots, c.avail, c.window, c.inflight);
      if rc.Found? {
        var dup := qos == 2 && c.slots[id].unknown;
        var e, s := Chosen(id, qos, dup), Slot(if qos == 1 then PubAck else PubRec, false);
        assert Matches(c.slots[id], c.log, id) && Typed(c.slots[id], c.qosSet);
        Snoc(c.log, e, id);
        SlotChange(c, id, s, e, n);
      }
    }
  }

  lemma WithdrawKeeps(c: Client, n: nat)
    requires Inv(c, n) && Enabled(c, Withdraw)
    ensures Inv(DoWithdraw(c), n)
  {
    hide Open, OpenTwo, Released, Cut, Count, LogOk;
    if c.pending.id != 0 {
      var e := Withdrawn(c.avail);
      assert Matches(c.slots[c.avail], c.log, c.avail);
      Snoc(c.log, e, c.avail);
      SlotChange(c, c.avail, FREE, e, n);
    }
  }

  /** The accepted PUBACK and PUBCOMP: an exchange in flight ends. */
  lemma CompletionKeeps(c: Client, id: nat, n: nat)
    requires Inv(c, n) && AckPossible(c, id) && InFlight(c.slots[id])
    ensures Inv(DoComplete(c, id), n)
  {
    hide Open, OpenTwo, Released, Cut, Count, LogOk;
    var e := Completed(id);
    assert Matches(c.slots[id], c.log, id);
    Snoc(c.log, e, id);
    SlotChange(c, id, FREE, e, n);
  }

  lemma PubRecKeeps(c: Client, id: nat, n: nat)
    requires Inv(c, n) && AckPossible(c, id)
    ensures Inv(DoPubRec(c, id), n)
  {
    hide Open, OpenTwo, Cut, Released, Count, LogOk;
    if c.slots[id] == Slot(PubRec, false) {
      var e := Received(id);
      assert Matches(c.slots[id], c.log, id) && Typed(c.slots[id], c.qosSet);
      Snoc(c.log, e, id);
      SlotChange(c, id, Slot(PubComp, false), e, n);
    }
  }

  lemma ResetKeeps(c: Client, n: nat)
    requires Inv(c, n) && CleanReset(c)
    ensures Inv(DoReset(c), n)
  {
    var r := DoReset(c);
    forall id: nat
      ensures id < |c.slots| ==>
                Matches(r.slots[id], r.log, id) && Typed(r.slots[id], c.qosSet) && !InFlight(r.slots[id])
      ensures !Open(r.log, id)
    {
      Snoc(c.log, ConnectionReset, id);
      if id < |c.slots| {
        assert Matches(c.slots[id], c.log, id) && Typed(c.slots[id], c.qosSet);
      }
    }
    CountZero(r.slots);
    LogGrows(c.log, ConnectionReset, n);
  }

  lemma DisconnectKeeps(c: Client, reconnect: bool, n: nat)
    requires Inv(c, n) && (reconnect ==> c.inflight == 0)
    ensures Inv(DoDisconnect(c, reconnect), n)
  {
    CountZero(c.slots);
    if !reconnect {
      forall id: nat
        ensures !Open(c.log + [WindowFreed], id)
      {
        Snoc(c.log, WindowFreed, id);
      }
      LogGrows(c.log, WindowFreed, n);
    }
  }

  lemma AckKeeps(c: Client, id: nat, n: nat)
    requires Inv(c, n) && AckPossible(c, id)
    ensures Inv(DoPubAck(c, id), n) && Inv(DoPubComp(c, id), n)
  {
    if c.slots[id] == Slot(PubAck, false) || c.slots[id] == Slot(PubComp, false) {
      CompletionKeeps(c, id, n);
    }
  }

  /** The steps that touch neither the slots nor the log. */
  lemma OtherKeeps(c: Client, s: Step, n: nat)
    requires Inv(c, n) && Enabled(c, s)
    requires s.Observe? || s.Pass? || s.Submit? || s.Advance? || s.Skip? || s.ConnAck? || s.StartClose? || s.Leave?
    ensures Inv(Apply(c, s), n)
  {
    hide Count, Open, Cut, OpenTwo, Released, Matches, LogOk;
  }

  lemma StepKeeps(c: Client, s: Step, n: nat)
    requires Inv(c, n) && Enabled(c, s) && c.qosSet <= {0, 1, 2}
    ensures Inv(Apply(c, s), n)
  {
    hide Inv, Count, Open, Cut, OpenTwo, Released, Matches, LogOk;
    match s
    case Choose(qos) => ChooseKeeps(c, qos, n);
    case Withdraw => WithdrawKeeps(c, n);
    case RecvPubAck(id) => AckKeeps(c, id, n);
    case RecvPubRec(id) => PubRecKeeps(c, id, n);
    case RecvPubComp(id) => AckKeeps(c, id, n);
    case Disconnect(reconnect) => DisconnectKeeps(c, reconnect, n);
    case Reset => ResetKeeps(c, n);
    case _ => OtherKeeps(c, s, n);
  }

  /** A step keeps the invariant exactly when it is sound. */
  lemma StepExact(c: Client, s: Step, n: nat)
    requires Inv(c, n) && Possible(c, s) && c.qosSet <= {0, 1, 2}
    ensures Inv(Apply(c, s), n) <==> Sound(c, s)
  {
    if Sound(c, s) {
      StepKeeps(c, s, n);
    } else {
      match s
      case Withdraw => WithdrawExact(c);
      case Disconnect(_) => DisconnectExact(c, true);
      case Reset => ResetExact(c);
    }
  }

  lemma InitInv(qosSet: set<nat>, n: nat)
    requires 2 <= n <= MAX_MSGID
    ensures Inv(Init(qosSet, n), n)
  {
    CountZero(Init(qosSet, n).slots);
  }

  /** Over every run of a producer, whatever interleaving of publishes (accepted, refused or
      skipped), acknowledgements, disconnects, resets and CONNACKs it takes: a reset or an
      acknowledgement may come between the look at the state, the choice of the identifier and
      the hand-over. */
  lemma {:induction false} RunKeeps(states: seq<Client>, steps: seq<Step>, n: nat, k: nat)
    requires Run(states, steps) && k <= |steps|
    requires 2 <= n <= MAX_MSGID && states[0].qosSet <= {0, 1, 2}
    requires states[0] == Init(states[0].qosSet, n)
    ensures Inv(states[k], n) && states[k].qosSet == states[0].qosSet
  {
    if k == 0 {
      InitInv(states[0].qosSet, n);
    } else {
      RunKeeps(states, steps, n, k - 1);
      StepKeeps(states[k - 1], steps[k - 1], n);
      assert Apply(states[k - 1], steps[k - 1]).qosSet == states[k - 1].qosSet;
    }
  }

  /** So the invariant lasts until the first unsound step, and no longer. */
  lemma RunExact(states: seq<Client>, steps: seq<Step>, n: nat, s: Step)
    requires Run(states, steps) && Possible(states[|steps|], s)
    requires 2 <= n <= MAX_MSGID && states[0].qosSet <= {0, 1, 2}
    requires states[0] == Init(states[0].qosSet, n)
    ensures Inv(states[|steps|], n)
    ensures Inv(Apply(states[|steps|], s), n) <==> Sound(states[|steps|], s)
  {
    RunKeeps(states, steps, n, |steps|);
    StepExact(states[|steps|], s, n);
  }

  // ----- what it means ---------------------------------------------------------------------

  ghost function OpenIds(c: Client, n: nat): set<nat> {
    set id: nat | id < n && Open(c.log, id)
  }

  /** In every reachable state the counter is the number of open exchanges (chosen, and neither
      acknowledged, withdrawn nor cut off), their identifiers are pairwise distinct and lie in
      [1, n), the candidate identifier stays there too, and their number exceeds neither the
      window nor the Receive Maximum of the server. */
  lemma OutstandingBounded(states: seq<Client>, steps: seq<Step>, n: nat, k: nat)
    requires Run(states, steps) && k <= |steps|
    requires 2 <= n <= MAX_MSGID && states[0].qosSet <= {0, 1, 2}
    requires states[0] == Init(states[0].qosSet, n)
    ensures var c := states[k];
            && c.inflight == |OpenIds(c, n)| <= c.window <= c.serverMax
            && c.inflight <= n - 1
            && (forall id: nat :: Open(c.log, id) ==> 1 <= id < n)
            && (c.slots != [] ==> 1 <= c.avail < n)
            && (forall j :: 0 <= j < |c.log| && c.log[j].Chosen? ==> !Open(c.log[..j], c.log[j].id))
  {
    RunKeeps(states, steps, n, k);
    var c := states[k];
    CountIsCardinality(c.slots);
    assert OpenIds(c, n) == set i | 0 <= i < |c.slots| && InFlight(c.slots[i]) by {
      assert forall id :: 0 <= id < |c.slots| ==> Matches(c.slots[id], c.log, id);
    }
    if c.slots != [] {
      CountBound(c.slots);
      assert Matches(c.slots[0], c.log, 0);
    }
    assert forall j :: 0 <= j < |c.log| ==> ChosenOk(c.log[j], c.log[..j], n);
  }

  /** In every reachable state a slot carries the UNKNOWN flag exactly when its last QoS 2
      exchange was cut by a reset and its identifier was not chosen since, and every publish so
      far was marked DUP exactly when it was at QoS 2 and took such an identifier. */
  lemma UnknownAndDup(states: seq<Client>, steps: seq<Step>, n: nat, k: nat)
    requires Run(states, steps) && k <= |steps|
    requires 2 <= n <= MAX_MSGID && states[0].qosSet <= {0, 1, 2}
    requires states[0] == Init(states[0].qosSet, n)
    ensures var c := states[k];
            && (forall id :: 0 <= id < |c.slots| ==> (c.slots[id].unknown <==> Cut(c.log, id)))
            && (forall j :: 0 <= j < |c.log| && c.log[j].Chosen? ==>
                  (c.log[j].dup <==> c.log[j].qos == 2 && Cut(c.log[..j], c.log[j].id)))
  {
    RunKeeps(states, steps, n, k);
    var c := states[k];
    assert forall id :: 0 <= id < |c.slots| ==> Matches(c.slots[id], c.log, id);
    assert forall j :: 0 <= j < |c.log| ==> ChosenOk(c.log[j], c.log[..j], n);
  }

  /** In every reachable state a slot says exactly where the exchange of its identifier stands:
      a PUBACK slot is an open exchange at another level than QoS 2; a PUBREC slot an open one
      at QoS 2 of which no PUBREC was accepted since it was chosen, and a PUBCOMP slot one of
      which it was; a slot is free if nothing is open and nothing was cut off. */
  lemma SlotsExact(states: seq<Client>, steps: seq<Step>, n: nat, k: nat, id: nat)
    requires Run(states, steps) && k <= |steps|
    requires 2 <= n <= MAX_MSGID && states[0].qosSet <= {0, 1, 2}
    requires states[0] == Init(states[0].qosSet, n)
    requires id < |states[k].slots|
    ensures var s, log := states[k].slots[id], states[k].log;
            && (s == Slot(PubAck, false) <==> Open(log, id) && !OpenTwo(log, id))
            && (s == Slot(PubRec, false) <==> OpenTwo(log, id) && !Released(log, id))
            && (s == Slot(PubComp, false) <==> OpenTwo(log, id) && Released(log, id))
            && (s == FREE <==> !Open(log, id) && !Cut(log, id))
            && (Usable(s) <==> !Open(log, id))
  {
    RunKeeps(states, steps, n, k);
    hide Open, OpenTwo, Cut, Released, Count, LogOk;
    assert Matches(states[k].slots[id], states[k].log, id) && Typed(states[k].slots[id], states[k].qosSet);
  }

  /** When a turn gets an identifier, in every reachable state: fewer are in flight than the
      window allows, and the candidate, identifier 1 or one of the window is not open. With the
      window at its full size that is as long as an identifier is left. */
  lemma AssignedIff(states: seq<Client>, steps: seq<Step>, n: nat, k: nat, qos: nat)
    requires Run(states, steps) && k <= |steps|
    requires 2 <= n <= MAX_MSGID && states[0].qosSet <= {0, 1, 2}
    requires states[0] == Init(states[0].qosSet, n)
    requires qos > 0 && Possible(states[k], Choose(qos))
    ensures var c := states[k];
            && (Apply(c, Choose(qos)).pending.Assigned? <==>
                  c.inflight < c.window && (!Open(c.log, c.avail) || !Open(c.log, 1) || !AllOpen(c)))
            && (c.window == n ==> (Apply(c, Choose(qos)).pending.Assigned? <==> c.inflight < n - 1))
  {
    var c := states[k];
    RunKeeps(states, steps, n, k);
    hide Inv, Open, OpenTwo, Cut, Released, Apply;
    forall id: nat | id < |c.slots|
      ensures Usable(c.slots[id]) <==> !Open(c.log, id)
    {
      SlotsExact(states, steps, n, k, id);
    }
    AssignedFrom(c, qos);
    if c.window == n {
      FullIff(c, n);
    }
  }

  /** Every identifier of the window is open. */
  ghost predicate AllOpen(c: Client) {
    forall id: nat :: 1 <= id < c.window ==> Open(c.log, id)
  }

  lemma AssignedFrom(c: Client, qos: nat)
    requires qos > 0 && Possible(c, Choose(qos))
    requires forall id: nat :: id < |c.slots| ==> (Usable(c.slots[id]) <==> !Open(c.log, id))
    ensures Apply(c, Choose(qos)).pending.Assigned? <==>
            c.inflight < c.window && (!Open(c.log, c.avail) || !Open(c.log, 1) || !AllOpen(c))
    ensures AllOpen(c) <==> forall id :: 1 <= id < c.window ==> !Usable(c.slots[id])
  {
    hide Open, Search, Nearest;
    SearchExact(c.slots, c.avail, c.window, c.inflight);
    assert Usable(c.slots[c.avail]) <==> !Open(c.log, c.avail);
    assert Usable(c.slots[1]) <==> !Open(c.log, 1);
    if !AllOpen(c) {
      var id: nat :| 1 <= id < c.window && !Open(c.log, id);
      assert Usable(c.slots[id]);
    }
  }

  lemma FullIff(c: Client, n: nat)
    requires Inv(c, n) && c.slots != []
    ensures |c.slots| == n && (c.inflight < n - 1 <==> exists id :: 1 <= id < n && Usable(c.slots[id]))
    ensures c.inflight <= n - 1
  {
    hide Open, OpenTwo, Cut, Released, LogOk, Matches;
    CountBound(c.slots);
    CountFull(c.slots);
    assert forall i :: 0 <= i < n ==> Typed(c.slots[i], c.qosSet);
  }

  /** A reset re-establishes the count exactly when it is clean ... */
  lemma ResetExact(c: Client)
    requires TypesOk(c) && c.slots != []
    ensures CountOk(DoReset(c)) <==> CleanReset(c)
  {
    var r := DoReset(c);
    CountZero(r.slots);
    if CleanReset(c) {
      assert forall i :: 0 <= i < |c.slots| ==> Typed(c.slots[i], c.qosSet);
    } else {
      var i :| 0 <= i < |c.slots| && c.slots[i].phase == PubAck;
      assert Typed(c.slots[i], c.qosSet);
      assert r.slots[i] == c.slots[i] && InFlight(r.slots[i]);
    }
  }

  /** ... which it always is for producers that do not mix QoS 1 with another level ... */
  lemma ResetCleanUnlessMixed(c: Client)
    requires TypesOk(c)
    requires 1 !in c.qosSet || c.qosSet == {1}
    ensures CleanReset(c)
  {
  }

  /** (so in every reachable state of such a producer a reset is possible and leaves nothing in
      flight) ... */
  lemma ResetRestores(states: seq<Client>, steps: seq<Step>, n: nat, k: nat)
    requires Run(states, steps) && k <= |steps|
    requires 2 <= n <= MAX_MSGID && states[0].qosSet <= {0, 1, 2}
    requires states[0] == Init(states[0].qosSet, n)
    requires 1 !in states[0].qosSet || states[0].qosSet == {1}
    ensures Enabled(states[k], Reset)
    ensures CountOk(DoReset(states[k])) && DoReset(states[k]).inflight == 0
  {
    RunKeeps(states, steps, n, k);
    ResetCleanUnlessMixed(states[k]);
    ResetKeeps(states[k], n);
  }

  /** ... and is not, after one unacknowledged QoS 1 publish, for any that does. */
  lemma MixedResetBreaks(qosSet: set<nat>, n: nat) returns (states: seq<Client>, steps: seq<Step>)
    requires 2 <= n <= MAX_MSGID && 1 in qosSet && qosSet != {1}
    ensures Run(states, steps) && states[0] == Init(qosSet, n)
    ensures var c := states[|steps|]; CountOk(c) && c.inflight == 1 && !CountOk(DoReset(c))
  {
    states, steps := FirstPublish(qosSet, n);
    var r := DoReset(states[3]);
    CountZero(r.slots);
    assert r.slots[1] == Slot(PubAck, false);
  }

  /** A run goes on with any step that is enabled. */
  lemma Extend(states: seq<Client>, steps: seq<Step>, s: Step) returns (more: seq<Client>, longer: seq<Step>)
    requires Run(states, steps) && Enabled(states[|steps|], s)
    ensures more == states + [Apply(states[|steps|], s)] && longer == steps + [s]
    ensures Run(more, longer)
  {
    more, longer := states + [Apply(states[|steps|], s)], steps + [s];
  }

  /** A fresh client is connected and given its first turn. */
  lemma FirstTurn(qosSet: set<nat>, n: nat) returns (states: seq<Client>, steps: seq<Step>)
    requires 2 <= n <= MAX_MSGID
    ensures Run(states, steps) && steps == [ConnAck(None, true), Observe]
    ensures states[0] == Init(qosSet, n) && states[2] == Init(qosSet, n).(conn := PubSub, pending := Turn)
  {
    var c := Init(qosSet, n);
    states, steps := [c], [];
    states, steps := Extend(states, steps, ConnAck(None, true));
    states, steps := Extend(states, steps, Observe);
  }

  /** Its first QoS 1 publish takes identifier 1. */
  lemma FirstPublish(qosSet: set<nat>, n: nat) returns (states: seq<Client>, steps: seq<Step>)
    requires 2 <= n <= MAX_MSGID && 1 in qosSet
    ensures Run(states, steps) && steps == [ConnAck(None, true), Observe, Choose(1)]
    ensures var c := Init(qosSet, n);
            && states[0] == c
            && states[3] == c.(conn := PubSub, slots := c.slots[1 := Slot(PubAck, false)], inflight := 1,
                            pending := Assigned(1, false), log := [Chosen(1, 1, false)])
    ensures CountOk(states[3])
  {
    states, steps := FirstTurn(qosSet, n);
    var c := states[2];
    assert Search(c.slots, c.avail, c.window, c.inflight) == (1, Found);
    states, steps := Extend(states, steps, Choose(1));
    CountZero(c.slots);
    CountUpdate(c.slots, 1, Slot(PubAck, false));
  }

  /** The identifier of a publish in progress is the identifier of an exchange in flight
      exactly while it is not stale. */
  lemma TrackedIffFresh(states: seq<Client>, steps: seq<Step>, n: nat, k: nat)
    requires Run(states, steps) && k <= |steps|
    requires 2 <= n <= MAX_MSGID && states[0].qosSet <= {0, 1, 2}
    requires states[0] == Init(states[0].qosSet, n)
    requires states[k].pending.Assigned? && states[k].pending.id != 0
    ensures var c := states[k];
            c.pending.id < |c.slots| && InFlight(c.slots[c.pending.id]) <==> !c.pending.stale
  {
    RunKeeps(states, steps, n, k);
  }

  /** The identifiers handed to the I/O thread on this connection and not acknowledged since,
      after a step; all of them, or only those of stale publishes. */
  ghost function WireAfter(c: Client, s: Step, wire: set<nat>, staleOnly: bool): set<nat>
    requires Possible(c, s)
  {
    match s
    case Submit => if c.pending.id == 0 || (staleOnly && !c.pending.stale) then wire else wire + {c.pending.id}
    case RecvPubAck(id) => if DoPubAck(c, id).lockHeld then wire else wire - {id}
    case RecvPubComp(id) => if DoPubComp(c, id) == c then wire else wire - {id}
    case Reset => {}
    case Disconnect(reconnect) => if reconnect then wire else {}
    case _ => wire
  }

  ghost function Handed(states: seq<Client>, steps: seq<Step>, k: nat, staleOnly: bool): set<nat>
    requires Run(states, steps) && k <= |steps|
  {
    if k == 0 then {} else WireAfter(states[k - 1], steps[k - 1], Handed(states, steps, k - 1, staleOnly), staleOnly)
  }

  ghost function OnWire(states: seq<Client>, steps: seq<Step>, k: nat): set<nat>
    requires Run(states, steps) && k <= |steps|
  {
    Handed(states, steps, k, false)
  }

  ghost function StaleOut(states: seq<Client>, steps: seq<Step>, k: nat): set<nat>
    requires Run(states, steps) && k <= |steps|
  {
    Handed(states, steps, k, true)
  }

  /** What is on the wire is open or was handed over stale, and what is about to be handed over
      is there already only if it is fresh and a stale publish went before it. */
  ghost predicate WireOk(c: Client, wire: set<nat>, out: set<nat>) {
    && out <= wire
    && (forall id :: id in wire ==> Open(c.log, id) || id in out)
    && (c.pending.Assigned? && c.pending.id != 0 ==>
          (c.pending.id in wire <==> !c.pending.stale && c.pending.id in out))
  }

  lemma WireComplete(c: Client, id: nat, wire: set<nat>, out: set<nat>)
    requires id < |c.slots| && WireOk(c, wire, out)
    ensures WireOk(DoComplete(c, id), wire - {id}, out - {id})
    ensures DoComplete(c, id).lockHeld == c.lockHeld && DoComplete(c, id) != c
  {
    forall i | i in wire - {id}
      ensures Open(c.log + [Completed(id)], i) || i in out - {id}
    {
      Snoc(c.log, Completed(id), i);
    }
  }

  lemma WireChoose(c: Client, qos: nat, wire: set<nat>, out: set<nat>, n: nat)
    requires Inv(c, n) && Possible(c, Choose(qos)) && WireOk(c, wire, out)
    ensures WireOk(DoChoose(c, qos), wire, out)
  {
    hide Open, OpenTwo, Released, Cut, Count, LogOk, Search;
    var r := DoChoose(c, qos);
    if qos > 0 && r.pending.Assigned? {
      var id := r.pending.id;
      assert Matches(c.slots[id], c.log, id);
      forall i | i in wire
        ensures Open(r.log, i) || i in out
      {
        Snoc(c.log, r.log[|c.log|], i);
      }
    }
  }

  lemma WireStep(c: Client, s: Step, wire: set<nat>, out: set<nat>, n: nat)
    requires Inv(c, n) && Enabled(c, s) && WireOk(c, wire, out)
    ensures WireOk(Apply(c, s), WireAfter(c, s, wire, false), WireAfter(c, s, out, true))
  {
    hide Open, OpenTwo, Released, Cut, Count, LogOk, Search, DoChoose, DoComplete;
    match s
    case Choose(qos) => WireChoose(c, qos, wire, out, n);
    case RecvPubAck(id) => WireComplete(c, id, wire, out);
    case RecvPubComp(id) => WireComplete(c, id, wire, out);
    case RecvPubRec(id) =>
      forall i | i in wire
        ensures Open(DoPubRec(c, id).log, i) || i in out
      {
        Snoc(c.log, Received(id), i);
      }
    case Submit =>
      if c.pending.id != 0 && !c.pending.stale {
        assert Matches(c.slots[c.avail], c.log, c.avail);
      }
    case Withdraw =>
      forall id | id in wire
        ensures Open(DoWithdraw(c).log, id) || id in out
      {
        Snoc(c.log, Withdrawn(c.avail), id);
      }
    case _ =>
  }

  lemma {:induction false} WireKeeps(states: seq<Client>, steps: seq<Step>, n: nat, k: nat)
    requires Run(states, steps) && k <= |steps|
    requires 2 <= n <= MAX_MSGID && states[0].qosSet <= {0, 1, 2}
    requires states[0] == Init(states[0].qosSet, n)
    ensures WireOk(states[k], OnWire(states, steps, k), StaleOut(states, steps, k))
  {
    hide Inv, Count, Open, Cut, OpenTwo, Released, Matches, LogOk, WireAfter, Apply;
    if k == 0 {
      assert WireOk(states[0], {}, {});
    } else {
      WireKeeps(states, steps, n, k - 1);
      RunKeeps(states, steps, n, k - 1);
      WireStep(states[k - 1], steps[k - 1], OnWire(states, steps, k - 1), StaleOut(states, steps, k - 1), n);
    }
  }

  /** In every run: a publish about to be handed over repeats an identifier on the wire exactly
      when it is fresh and a stale publish with its identifier is unacknowledged; and no more
      identifiers are on the wire than exchanges in flight and stale publishes. */
  lemma WireExact(states: seq<Client>, steps: seq<Step>, n: nat, k: nat)
    requires Run(states, steps) && k <= |steps|
    requires 2 <= n <= MAX_MSGID && states[0].qosSet <= {0, 1, 2}
    requires states[0] == Init(states[0].qosSet, n)
    ensures var p, wire, out := states[k].pending, OnWire(states, steps, k), StaleOut(states, steps, k);
            && (p.Assigned? && p.id != 0 ==> (p.id in wire <==> !p.stale && p.id in out))
            && out <= wire && |wire| <= states[k].inflight + |out|
  {
    hide Inv, Count, Open, Cut, OpenTwo, Released, Matches, LogOk, Handed, Apply;
    WireKeeps(states, steps, n, k);
    OutstandingBounded(states, steps, n, k);
    var wire, out, open := OnWire(states, steps, k), StaleOut(states, steps, k), OpenIds(states[k], n);
    assert wire <= open + out;
    CardinalityMonotone(wire, open + out);
  }

  lemma {:induction false} NoStaleOut(states: seq<Client>, steps: seq<Step>, k: nat)
    requires Run(states, steps) && k <= |steps|
    requires forall j :: 0 <= j < k && steps[j].Submit? ==> !states[j].pending.stale
    ensures StaleOut(states, steps, k) == {}
  {
    if k > 0 {
      NoStaleOut(states, steps, k - 1);
    }
  }

  /** So without stale hand-overs the identifiers on the wire are distinct, their number
      respects the server's Receive Maximum, and a server that acknowledges only what is on the
      wire never acknowledges a publish that is not yet handed over. */
  lemma WireDistinct(states: seq<Client>, steps: seq<Step>, n: nat, k: nat)
    requires Run(states, steps) && k <= |steps|
    requires 2 <= n <= MAX_MSGID && states[0].qosSet <= {0, 1, 2}
    requires states[0] == Init(states[0].qosSet, n)
    requires forall j :: 0 <= j < k && steps[j].Submit? ==> !states[j].pending.stale
    ensures |OnWire(states, steps, k)| <= states[k].inflight <= states[k].serverMax
    ensures states[k].pending.Assigned? ==> states[k].pending.id !in OnWire(states, steps, k)
  {
    hide Inv, Count, Open, Cut, OpenTwo, Released, Matches, LogOk, Apply;
    WireExact(states, steps, n, k);
    NoStaleOut(states, steps, k);
    OutstandingBounded(states, steps, n, k);
    NoneOnWire(states, steps, k);
  }

  lemma {:induction false} NoneOnWire(states: seq<Client>, steps: seq<Step>, k: nat)
    requires Run(states, steps) && k <= |steps|
    ensures 0 !in OnWire(states, steps, k)
  {
    if k > 0 {
      NoneOnWire(states, steps, k - 1);
    }
  }

  /** An acknowledgement of an identifier assigned and not yet handed over costs the publish
      its slot exactly when the slot is in the state it acknowledges: a refusal then breaks the
      count. PUBREC costs nothing. */
  lemma EarlyAckExact(c: Client, id: nat, n: nat)
    requires Inv(c, n) && AckPossible(c, id)
    requires c.pending.Assigned? && c.pending.id != 0 && !c.pending.stale
    ensures CountOk(DoWithdraw(DoPubAck(c, id))) <==> !(id == c.pending.id && c.slots[id] == Slot(PubAck, false))
    ensures CountOk(DoWithdraw(DoPubComp(c, id))) <==> !(id == c.pending.id && c.slots[id] == Slot(PubComp, false))
    ensures CountOk(DoWithdraw(DoPubRec(c, id)))
  {
    hide Count, Open, Cut, OpenTwo, Released, Matches, LogOk;
    AckKeeps(c, id, n);
    PubRecKeeps(c, id, n);
    WithdrawExact(DoPubAck(c, id));
    WithdrawExact(DoPubComp(c, id));
    WithdrawExact(DoPubRec(c, id));
  }

  lemma CardinalityMonotone(a: set<nat>, b: set<nat>)
    requires a <= b
    ensures |a| <= |b|
  {
    assert b == a + (b - a);
  }

  // ----- a server that keeps the rules ------------------------------------------------------

  /** What a server owes for an identifier on the wire. */
  datatype Owed = OwesPubAck | OwesPubRec | OwesPubComp

  /** The QoS of the publish begun last. */
  ghost function PublishQos(steps: seq<Step>, k: nat): nat
    requires k <= |steps|
  {
    if k == 0 then 0 else if steps[k - 1].Choose? then steps[k - 1].qos else PublishQos(steps, k - 1)
  }

  ghost function OwedAfter(c: Client, s: Step, owed: map<nat, Owed>, qos: nat): map<nat, Owed>
    requires Possible(c, s)
  {
    match s
    case Submit =>
      if c.pending.id == 0 then owed else owed[c.pending.id := if qos == 1 then OwesPubAck else OwesPubRec]
    case RecvPubAck(id) => owed - {id}
    case RecvPubRec(id) => owed[id := OwesPubComp]
    case RecvPubComp(id) => owed - {id}
    case Reset => map[]
    case Disconnect(reconnect) => if reconnect then owed else map[]
    case _ => owed
  }

  ghost function OwedBy(states: seq<Client>, steps: seq<Step>, k: nat): map<nat, Owed>
    requires Run(states, steps) && k <= |steps|
  {
    if k == 0 then map[]
    else OwedAfter(states[k - 1], steps[k - 1], OwedBy(states, steps, k - 1), PublishQos(steps, k - 1))
  }

  /** The server sends only what it owes. */
  predicate Honest(s: Step, owed: map<nat, Owed>) {
    && (s.RecvPubAck? ==> s.id in owed && owed[s.id] == OwesPubAck)
    && (s.RecvPubRec? ==> s.id in owed && owed[s.id] == OwesPubRec)
    && (s.RecvPubComp? ==> s.id in owed && owed[s.id] == OwesPubComp)
  }

  function SlotOf(o: Owed): Slot {
    Slot(match o case OwesPubAck => PubAck case OwesPubRec => PubRec case OwesPubComp => PubComp, false)
  }

  /** Every slot waits for what the server owes; the publish in progress is at its QoS and not
      yet on the wire. */
  predicate OwedOk(c: Client, owed: map<nat, Owed>, qos: nat) {
    && !c.lockHeld
    && (forall id :: id in owed ==> 1 <= id < |c.slots| && c.slots[id] == SlotOf(owed[id]))
    && (c.pending.Assigned? && c.pending.id != 0 && !c.pending.stale ==>
          && c.pending.id !in owed
          && c.pending.id < |c.slots|
          && c.slots[c.pending.id] == Slot(if qos == 1 then PubAck else PubRec, false))
  }

  lemma OwedChoose(c: Client, qos: nat, owed: map<nat, Owed>, before: nat)
    requires Possible(c, Choose(qos)) && OwedOk(c, owed, before)
    ensures OwedOk(DoChoose(c, qos), owed, qos)
  {
    hide Search;
  }

  lemma OwedAck(c: Client, s: Step, owed: map<nat, Owed>, qos: nat)
    requires s.RecvPubAck? || s.RecvPubRec? || s.RecvPubComp?
    requires Possible(c, s) && OwedOk(c, owed, qos) && Honest(s, owed)
    ensures OwedOk(Apply(c, s), OwedAfter(c, s, owed, qos), qos)
    ensures var r := Apply(c, s);
            && |r.slots| == |c.slots| && s.id < |c.slots|
            && r.slots[s.id] == (if s.RecvPubRec? then SlotOf(OwesPubComp) else FREE)
            && r.inflight == c.inflight - (if s.RecvPubRec? then 0 else 1)
  {
    hide Search;
  }

  lemma OwedStep(c: Client, s: Step, owed: map<nat, Owed>, qos: nat, n: nat)
    requires Inv(c, n) && Enabled(c, s) && OwedOk(c, owed, qos) && Honest(s, owed)
    requires s.Submit? ==> !c.pending.stale
    ensures OwedOk(Apply(c, s), OwedAfter(c, s, owed, qos), if s.Choose? then s.qos else qos)
  {
    hide Open, OpenTwo, Cut, Released, Count, LogOk, Matches, Search;
    match s
    case Choose(q) => OwedChoose(c, q, owed, qos);
    case RecvPubAck(_) => OwedAck(c, s, owed, qos);
    case RecvPubRec(_) => OwedAck(c, s, owed, qos);
    case RecvPubComp(_) => OwedAck(c, s, owed, qos);
    case _ => hide DoChoose, DoPubAck, DoPubRec, DoPubComp;
  }

  /** Over every run without stale hand-overs in which the server sends one PUBACK for a QoS 1
      publish on the wire, one PUBREC for a QoS 2 publish and one PUBCOMP after it: the lock is
      never left held and every answer the server owes is expected by its slot. */
  lemma {:induction false} HonestServer(states: seq<Client>, steps: seq<Step>, n: nat, k: nat)
    requires Run(states, steps) && k <= |steps|
    requires 2 <= n <= MAX_MSGID && states[0].qosSet <= {0, 1, 2}
    requires states[0] == Init(states[0].qosSet, n)
    requires forall j :: 0 <= j < k ==> Honest(steps[j], OwedBy(states, steps, j))
    requires forall j :: 0 <= j < k && steps[j].Submit? ==> !states[j].pending.stale
    ensures OwedOk(states[k], OwedBy(states, steps, k), PublishQos(steps, k))
    ensures forall id :: id in OwedBy(states, steps, k) ==> AckPossible(states[k], id)
  {
    hide Inv, Apply, OwedAfter;
    if k > 0 {
      HonestServer(states, steps, n, k - 1);
      RunKeeps(states, steps, n, k - 1);
      OwedStep(states[k - 1], steps[k - 1], OwedBy(states, steps, k - 1), PublishQos(steps, k - 1), n);
    }
  }

  /** ... so every answer is accepted: PUBACK and PUBCOMP free the slot and lower the count, and
      PUBREC makes it wait for the PUBCOMP. */
  lemma HonestAccepted(states: seq<Client>, steps: seq<Step>, n: nat, k: nat)
    requires Run(states, steps) && k < |steps|
    requires 2 <= n <= MAX_MSGID && states[0].qosSet <= {0, 1, 2}
    requires states[0] == Init(states[0].qosSet, n)
    requires forall j :: 0 <= j <= k ==> Honest(steps[j], OwedBy(states, steps, j))
    requires forall j :: 0 <= j < k && steps[j].Submit? ==> !states[j].pending.stale
    ensures var c, r, s := states[k], states[k + 1], steps[k];
            && !r.lockHeld
            && (s.RecvPubAck? || s.RecvPubComp? ==>
                  s.id < |r.slots| && r.slots[s.id] == FREE && r.inflight == c.inflight - 1)
            && (s.RecvPubRec? ==>
                  s.id < |r.slots| && r.slots[s.id] == SlotOf(OwesPubComp) && r.inflight == c.inflight)
  {
    HonestServer(states, steps, n, k);
    hide Possible, Apply, OwedAfter, OwedBy;
    var c, s, owed, qos := states[k], steps[k], OwedBy(states, steps, k), PublishQos(steps, k);
    if s.RecvPubAck? || s.RecvPubRec? || s.RecvPubComp? {
      OwedAck(c, s, owed, qos);
    } else {
      LockStep(c, s);
    }
  }

  // ----- the window and the candidate -------------------------------------------------------

  /** The step is a CONNACK with this valid Receive Maximum. */
  predicate Announces(s: Step, max: nat) {
    s.ConnAck? && s.maxReceive == Some(max) && 1 <= max <= MAX_MSGID
  }

  /** In every reachable state the window is the least of its size and of the Receive Maximums
      announced so far. */
  lemma {:induction false} WindowIsLeast(states: seq<Client>, steps: seq<Step>, n: nat, k: nat)
    requires Run(states, steps) && k <= |steps|
    requires states[0] == Init(states[0].qosSet, n)
    ensures states[k].window <= n
    ensures forall j, max :: 0 <= j < k && Announces(steps[j], max) ==> states[k].window <= max
    ensures states[k].window == n || exists j :: 0 <= j < k && Announces(steps[j], states[k].window)
  {
    if k > 0 {
      WindowIsLeast(states, steps, n, k - 1);
      var c, s, w := states[k - 1], steps[k - 1], states[k].window;
      WindowStep(c, s);
      if w == c.window {
        if w != n {
          var j :| 0 <= j < k - 1 && Announces(steps[j], w);
          assert 0 <= j < k;
        }
      } else {
        assert Announces(steps[k - 1], w);
      }
    }
  }

  lemma WindowStep(c: Client, s: Step)
    requires Possible(c, s)
    ensures Apply(c, s).window <= c.window
    ensures forall max :: Announces(s, max) ==> Apply(c, s).window <= max
    ensures Apply(c, s).window == c.window || Announces(s, Apply(c, s).window)
  {
    hide Search;
  }

  /** The Receive Maximum of the last CONNACK that was valid, 65535 if it had none. */
  ghost function Announced(steps: seq<Step>, k: nat): nat
    requires k <= |steps|
  {
    if k == 0 then MAX_MSGID
    else if steps[k - 1].ConnAck? && steps[k - 1].maxReceive.None? then MAX_MSGID
    else if Announces(steps[k - 1], Value(steps[k - 1])) then Value(steps[k - 1])
    else Announced(steps, k - 1)
  }

  function Value(s: Step): nat {
    if s.ConnAck? && s.maxReceive.Some? then s.maxReceive.value else 0
  }

  lemma {:induction false} ServerMaxIs(states: seq<Client>, steps: seq<Step>, n: nat, k: nat)
    requires Run(states, steps) && k <= |steps|
    requires states[0] == Init(states[0].qosSet, n)
    ensures states[k].serverMax == Announced(steps, k)
  {
    hide Apply;
    if k > 0 {
      ServerMaxIs(states, steps, n, k - 1);
      ServerMaxStep(states[k - 1], steps[k - 1]);
    }
  }

  lemma ServerMaxStep(c: Client, s: Step)
    requires Possible(c, s)
    ensures Apply(c, s).serverMax ==
            if s.ConnAck? && s.maxReceive.None? then MAX_MSGID
            else if Announces(s, Value(s)) then Value(s)
            else c.serverMax
  {
    hide Search;
  }

  /** The connection as the last CONNACK, close, disconnect or reset left it. */
  ghost function ConnAfter(steps: seq<Step>, k: nat): Conn
    requires k <= |steps|
  {
    if k == 0 then Connecting
    else
      match steps[k - 1]
      case ConnAck(max, accepted) =>
        if accepted && (max.None? || 1 <= max.value <= MAX_MSGID) then PubSub else Closing
      case StartClose => Closing
      case Disconnect(_) => Disconnected
      case Reset => Connecting
      case _ => ConnAfter(steps, k - 1)
  }

  lemma {:induction false} ConnIs(states: seq<Client>, steps: seq<Step>, n: nat, k: nat)
    requires Run(states, steps) && k <= |steps|
    requires states[0] == Init(states[0].qosSet, n)
    ensures states[k].conn == ConnAfter(steps, k)
  {
    hide Apply;
    if k > 0 {
      ConnIs(states, steps, n, k - 1);
      ConnStep(states[k - 1], steps[k - 1]);
    }
  }

  lemma ConnStep(c: Client, s: Step)
    requires Possible(c, s)
    ensures Apply(c, s).conn ==
            match s
            case ConnAck(max, accepted) =>
              if accepted && (max.None? || 1 <= max.value <= MAX_MSGID) then PubSub else Closing
            case StartClose => Closing
            case Disconnect(_) => Disconnected
            case Reset => Connecting
            case _ => c.conn
  {
    hide Search;
  }

  /** A CONNACK connects exactly when it is accepted and has no Receive Maximum or a valid one;
      any other closes the connection. */
  lemma ConnAckConnects(states: seq<Client>, steps: seq<Step>, k: nat)
    requires Run(states, steps) && k < |steps| && steps[k].ConnAck?
    ensures states[k + 1].conn ==
            if steps[k].accepted && (steps[k].maxReceive.None? || 1 <= steps[k].maxReceive.value <= MAX_MSGID)
            then PubSub else Closing
  {
  }

  /** How the candidate identifier moves, in every run: a reset puts it at 1, an accepted publish
      moves it on from the publish's identifier to the next one in ring order, an assignment
      leaves it where it is usable or moves it to the nearest usable one, and nothing else
      moves it, short of freeing the window. */
  lemma CandidateMoves(states: seq<Client>, steps: seq<Step>, n: nat, k: nat)
    requires Run(states, steps) && k < |steps|
    requires 2 <= n <= MAX_MSGID && states[0].qosSet <= {0, 1, 2}
    requires states[0] == Init(states[0].qosSet, n)
    requires states[k + 1].slots != []
    ensures CandidateMoved(states[k], steps[k], states[k + 1])
  {
    hide Open, OpenTwo, Cut, Released, Count, LogOk, Matches, Apply, CandidateMoved;
    RunKeeps(states, steps, n, k);
    CandidateStep(states[k], steps[k]);
  }

  lemma CandidateStep(c: Client, s: Step)
    requires Possible(c, s) && PendingOk(c) && Apply(c, s).slots != []
    ensures c.slots != [] && CandidateMoved(c, s, Apply(c, s))
  {
    hide Search, Nearest;
    if s.Choose? && s.qos > 0 {
      SearchExact(c.slots, c.avail, c.window, c.inflight);
    }
  }

  ghost predicate CandidateMoved(c: Client, s: Step, r: Client)
    requires Shaped(c) && c.slots != []
  {
    match s
    case Reset => r.avail == 1
    case Advance => r.avail == if c.avail + 1 < c.window then c.avail + 1 else 1
    case Submit =>
      && r.avail == c.avail
      && (c.pending.Assigned? && c.pending.id != 0 && !c.pending.stale ==> c.avail == c.pending.id)
    case Choose(qos) =>
      if qos == 0 || c.inflight >= c.window || Usable(c.slots[c.avail]) then r.avail == c.avail
      else r.pending.Assigned? ==>
        && r.avail == r.pending.id
        && if c.window <= 1 then r.avail == 1
           else 1 <= r.avail < c.window && Nearest(c.slots, c.avail, c.window, r.avail)
    case _ => r.avail == c.avail
  }

  /** A publish skipped because the connection is gone keeps its identifier, although no server
      will ever acknowledge it: it stays in flight until a reset, or until the window goes. */
  lemma SkipKeepsSlot(states: seq<Client>, steps: seq<Step>, n: nat, id: nat, j: nat, k: nat)
    requires Run(states, steps) && j < k <= |steps|
    requires 2 <= n <= MAX_MSGID && states[0].qosSet <= {0, 1, 2}
    requires states[0] == Init(states[0].qosSet, n)
    requires steps[j].Skip? && states[j].pending == Assigned(id, false) && id != 0
    requires forall i :: j < i < k ==> !Ends(steps[i], id)
    ensures InFlightAt(states[k], id) && Open(states[k].log, id)
  {
    hide Inv, Apply, InFlightAt, Open, Possible, Ends;
    RunKeeps(states, steps, n, j);
    SkipStep(states[j], id, n);
    assert Held(states[j + 1], id);
    HeldStays(states, steps, n, id, j + 1, k);
    RunKeeps(states, steps, n, k);
    HeldIsOpen(states[k], id, n);
  }

  /** The step acknowledges the identifier or ends the connection. */
  predicate Ends(s: Step, id: nat) {
    s.Reset? || s.Disconnect? || ((s.RecvPubAck? || s.RecvPubComp?) && s.id == id)
  }

  predicate Held(c: Client, id: nat) {
    InFlightAt(c, id) && !(c.pending.Assigned? && c.pending.id == id)
  }

  lemma {:induction false} HeldStays(states: seq<Client>, steps: seq<Step>, n: nat, id: nat, j: nat, k: nat)
    requires Run(states, steps) && j <= k <= |steps|
    requires 2 <= n <= MAX_MSGID && states[0].qosSet <= {0, 1, 2}
    requires states[0] == Init(states[0].qosSet, n)
    requires Held(states[j], id)
    requires forall i :: j <= i < k ==> !Ends(steps[i], id)
    ensures Held(states[k], id)
    decreases k
  {
    hide Inv, Apply, Held, Possible, Ends;
    if j < k {
      HeldStays(states, steps, n, id, j, k - 1);
      RunKeeps(states, steps, n, k - 1);
      HeldStep(states[k - 1], steps[k - 1], id, n);
    }
  }

  lemma HeldIsOpen(c: Client, id: nat, n: nat)
    requires Inv(c, n) && InFlightAt(c, id)
    ensures Open(c.log, id)
  {
    assert Matches(c.slots[id], c.log, id);
  }

  lemma SkipStep(c: Client, id: nat, n: nat)
    requires Inv(c, n) && Possible(c, Skip) && c.pending == Assigned(id, false) && id != 0
    ensures Held(Apply(c, Skip), id)
  {
    hide Open, OpenTwo, Cut, Released, Count, LogOk;
  }

  /** A slot in flight that is not the publish in progress stays so but for its own
      acknowledgement and the end of the connection. */
  lemma HeldStep(c: Client, s: Step, id: nat, n: nat)
    requires Inv(c, n) && Enabled(c, s) && Held(c, id) && !Ends(s, id)
    ensures Held(Apply(c, s), id)
  {
    hide Open, OpenTwo, Cut, Released, Count, LogOk, Search;
  }

  /** A refused publish keeps the count exactly when the candidate slot is still in flight ... */
  lemma WithdrawExact(c: Client)
    requires CountOk(c) && c.pending.Assigned? && c.pending.id != 0 && c.avail < |c.slots|
    ensures CountOk(DoWithdraw(c)) <==> InFlight(c.slots[c.avail])
  {
    CountUpdate(c.slots, c.avail, FREE);
  }

  /** ... so, in every reachable state with a publish in progress, exactly when it is not
      stale. */
  lemma StaleWithdrawBreaks(c: Client, n: nat)
    requires Inv(c, n) && c.pending.Assigned? && c.pending.id != 0 && c.slots != []
    ensures CountOk(DoWithdraw(c)) <==> !c.pending.stale
  {
    WithdrawExact(c);
  }

  /** A stale publish that is handed over all the same is not tracked: its acknowledgement,
      PUBACK or PUBREC, leaves the lock held. */
  lemma StaleSubmitLocks(c: Client, n: nat)
    requires Inv(c, n) && c.pending.Assigned? && c.pending.id != 0 && c.pending.id < |c.slots|
    ensures var d := DoAdvance(DoSubmit(c));
            c.pending.stale ==> DoPubAck(d, c.pending.id).lockHeld && DoPubRec(d, c.pending.id).lockHeld
  {
  }

  /** A run in which the connection is reset under a publish ... */
  lemma StaleAssigned(n: nat) returns (states: seq<Client>, steps: seq<Step>)
    requires 2 <= n <= MAX_MSGID
    ensures Run(states, steps) && steps == [ConnAck(None, true), Observe, Choose(1), Reset]
    ensures states[0] == Init({1}, n)
    ensures states[4] == Init({1}, n).(pending := Assigned(1, true), log := [Chosen(1, 1, false), ConnectionReset])
  {
    states, steps := FirstPublish({1}, n);
    states, steps := Extend(states, steps, Reset);
    assert states[4].slots == states[0].slots;
  }

  /** ... which is handed over before the next CONNACK. */
  lemma StaleHandOver(n: nat) returns (states: seq<Client>, steps: seq<Step>)
    requires 2 <= n <= MAX_MSGID
    ensures Run(states, steps) && |steps| == 7 && states[0] == Init({1}, n)
    ensures steps == [ConnAck(None, true), Observe, Choose(1), Reset, Submit, Advance, ConnAck(None, true)]
    ensures states[4] == Init({1}, n).(pending := Assigned(1, true), log := [Chosen(1, 1, false), ConnectionReset])
    ensures states[7] == states[4].(avail := Advanced(1, n), pending := Idle, conn := PubSub)
  {
    states, steps := StaleAssigned(n);
    hide Count, Open, DoChoose, DoReset;
    states, steps := Extend(states, steps, Submit);
    states, steps := Extend(states, steps, Advance);
    states, steps := Extend(states, steps, ConnAck(None, true));
  }

  /** All of this happens: a run in which a publish is stale, would break the count if it were
      refused, and being accepted leaves the lock held by its PUBACK. */
  lemma StaleRun(n: nat) returns (states: seq<Client>, steps: seq<Step>)
    requires 2 <= n <= MAX_MSGID
    ensures Run(states, steps) && |steps| == 8 && states[0] == Init({1}, n)
    ensures states[4].pending == Assigned(1, true) && states[4].conn == Connecting && states[4].slots != []
    ensures CountOk(states[4]) && !CountOk(DoWithdraw(states[4]))
    ensures steps[4] == Submit && steps[7] == RecvPubAck(1) && states[8].lockHeld
  {
    states, steps := StaleHandOver(n);
    CountZero(states[4].slots);
    WithdrawExact(states[4]);
    states, steps := Extend(states, steps, RecvPubAck(1));
  }

  /** ... and one in which, without any acknowledgement, its identifier is assigned again ... */
  lemma Reassigned() returns (states: seq<Client>, steps: seq<Step>)
    ensures Run(states, steps) && |steps| == 9 && states[0] == Init({1}, 2)
    ensures steps[..7] == [ConnAck(None, true), Observe, Choose(1), Reset, Submit, Advance, ConnAck(None, true)]
    ensures steps[7..] == [Observe, Choose(1)]
    ensures states[4].pending == Assigned(1, true) && states[9].pending == Assigned(1, false)
    ensures Shaped(states[9]) && states[9].slots == [FREE, Slot(PubAck, false)] && !states[9].lockHeld
  {
    states, steps := StaleHandOver(2);
    hide Count, Open;
    var c := states[7];
    assert c.avail == 1 && Search(c.slots, c.avail, c.window, c.inflight) == (1, Found);
    states, steps := Extend(states, steps, Observe);
    states, steps := Extend(states, steps, Choose(1));
  }

  /** ... and handed over for two publishes. */
  lemma DuplicateIdRun() returns (states: seq<Client>, steps: seq<Step>)
    ensures Run(states, steps) && |steps| == 10 && states[0] == Init({1}, 2)
    ensures forall k :: 0 <= k < |steps| ==> !steps[k].RecvPubAck? && !steps[k].RecvPubRec? && !steps[k].RecvPubComp?
    ensures steps[4] == Submit && states[4].pending.Assigned? && states[4].pending.id == 1
    ensures steps[9] == Submit && states[9].pending == Assigned(1, false)
  {
    hide Count, Open, Apply;
    states, steps := Reassigned();
    states, steps := Extend(states, steps, Submit);
    assert steps == steps[..7] + [Observe, Choose(1), Submit];
  }

  /** What was handed over is on the wire until an acknowledgement or the end of the connection. */
  lemma {:induction false} StaysOnWire(states: seq<Client>, steps: seq<Step>, j: nat, k: nat)
    requires Run(states, steps) && j < k <= |steps| && steps[j].Submit? && states[j].pending.id != 0
    requires forall i :: j < i < k ==>
               !steps[i].RecvPubAck? && !steps[i].RecvPubComp? && !steps[i].Reset? && !steps[i].Disconnect?
    ensures states[j].pending.id in OnWire(states, steps, k)
    decreases k
  {
    if j + 1 < k {
      StaysOnWire(states, steps, j, k - 1);
    }
  }

  /** A server that keeps the rules can make a publish stale too: it acknowledges the first of
      the two while its identifier is assigned again. A refusal then breaks the count. */
  lemma EarlyAckRun() returns (states: seq<Client>, steps: seq<Step>)
    ensures Run(states, steps) && |steps| == 10 && states[0] == Init({1}, 2)
    ensures states[9].pending == Assigned(1, false) && 1 in OnWire(states, steps, 9)
    ensures steps[9] == RecvPubAck(1) && states[10].pending == Assigned(1, true) && !states[10].lockHeld
    ensures CountOk(states[10]) && states[10].slots != [] && !CountOk(DoWithdraw(states[10]))
  {
    hide Count, Open, Cut, OpenTwo, Released, Matches, LogOk, Handed;
    states, steps := Reassigned();
    states, steps := Extend(states, steps, RecvPubAck(1));
    StaysOnWire(states, steps, 4, 9);
    RunKeeps(states, steps, 2, 10);
    StaleWithdrawBreaks(states[10], 2);
  }

  /** In every run the window is missing exactly once the client was disconnected for good ... */
  lemma {:induction false} FreedIff(states: seq<Client>, steps: seq<Step>, n: nat, k: nat)
    requires Run(states, steps) && k <= |steps| && n > 0
    requires states[0] == Init(states[0].qosSet, n)
    ensures states[k].slots == [] <==> WindowFreed in states[k].log
  {
    hide Apply;
    if k > 0 {
      FreedIff(states, steps, n, k - 1);
      FreedStep(states[k - 1], steps[k - 1]);
    }
  }

  /** ... so exactly then a turn above QoS 0 reads a slot of a window that is not there, when it
      looks for an identifier or gives one back. */
  lemma MissingWindowIff(states: seq<Client>, steps: seq<Step>, n: nat, k: nat)
    requires Run(states, steps) && k <= |steps|
    requires 2 <= n <= MAX_MSGID && states[0].qosSet <= {0, 1, 2}
    requires states[0] == Init(states[0].qosSet, n)
    ensures var c := states[k];
            && (c.pending.Turn? && !c.lockHeld ==> forall qos :: qos in c.qosSet && qos > 0 ==>
                  (Possible(c, Choose(qos)) <==> WindowFreed !in c.log))
            && (c.pending.Assigned? && c.pending.id != 0 && !c.lockHeld ==>
                  (Possible(c, Withdraw) <==> WindowFreed !in c.log))
  {
    hide Count, Open, Cut, OpenTwo, Released, Matches, LogOk, Apply;
    FreedIff(states, steps, n, k);
    RunKeeps(states, steps, n, k);
  }

  lemma FreedStep(c: Client, s: Step)
    requires Enabled(c, s)
    ensures var r := Apply(c, s);
            if s == Disconnect(false) then r.slots == [] && r.log == c.log + [WindowFreed]
            else (r.slots == [] <==> c.slots == []) && (WindowFreed in r.log <==> WindowFreed in c.log)
  {
    hide Search;
  }

  /** A turn during which the client begins to close and is found to have nothing in flight. */
  lemma LeavingTurn(n: nat) returns (states: seq<Client>, steps: seq<Step>)
    requires 2 <= n <= MAX_MSGID
    ensures Run(states, steps) && steps == [ConnAck(None, true), Observe, StartClose, Leave(false)]
    ensures states[0] == Init({1}, n)
    ensures states[4] == Init({1}, n).(conn := Closing, pending := Turn, leaving := true)
  {
    states, steps := FirstTurn({1}, n);
    hide Count, Open;
    states, steps := Extend(states, steps, StartClose);
    states, steps := Extend(states, steps, Leave(false));
  }

  /** That happens: the window is freed between the look at the state and the publish. */
  lemma FreedRun(n: nat) returns (states: seq<Client>, steps: seq<Step>)
    requires 2 <= n <= MAX_MSGID
    ensures Run(states, steps) && states[0] == Init({1}, n)
    ensures var c := states[|steps|]; c.pending == Turn && c.slots == [] && c.inflight < c.window
  {
    states, steps := LeavingTurn(n);
    hide Count, Open;
    states, steps := Extend(states, steps, Disconnect(false));
  }

  /** A PUBACK or PUBREC for a slot in another state. */
  predicate Unexpected(c: Client, s: Step) {
    || (s.RecvPubAck? && s.id < |c.slots| && c.slots[s.id] != Slot(PubAck, false))
    || (s.RecvPubRec? && s.id < |c.slots| && c.slots[s.id] != Slot(PubRec, false))
  }

  /** The client lock is left held exactly once an unexpected PUBACK or PUBREC has come in. */
  lemma {:induction false} LockHeldIff(states: seq<Client>, steps: seq<Step>, k: nat)
    requires Run(states, steps) && k <= |steps| && !states[0].lockHeld
    ensures states[k].lockHeld <==> exists j :: 0 <= j < k && Unexpected(states[j], steps[j])
  {
    hide Apply, Unexpected;
    if k > 0 {
      LockHeldIff(states, steps, k - 1);
      LockStep(states[k - 1], steps[k - 1]);
    }
  }

  lemma LockStep(c: Client, s: Step)
    requires Enabled(c, s)
    ensures Apply(c, s).lockHeld <==> c.lockHeld || Unexpected(c, s)
  {
    hide Search;
  }

  /** One is enough: a PUBACK for an identifier that is not in use. */
  lemma LockRun(qosSet: set<nat>, n: nat) returns (states: seq<Client>, steps: seq<Step>)
    requires 2 <= n <= MAX_MSGID
    ensures Run(states, steps) && states[0] == Init(qosSet, n)
    ensures states[|steps|].lockHeld
  {
    states, steps := FirstTurn(qosSet, n);
    states, steps := Extend(states, steps, RecvPubAck(1));
  }

  /** From then on no identifier is assigned, acknowledged or given back and the window is not
      freed: only resets are logged, and every step that takes the lock is out. */
  lemma {:induction false} LockedOut(states: seq<Client>, steps: seq<Step>, j: nat, k: nat)
    requires Run(states, steps) && j <= k <= |steps| && states[j].lockHeld
    ensures states[k].lockHeld
    ensures states[j].log <= states[k].log
    ensures forall i :: |states[j].log| <= i < |states[k].log| ==> states[k].log[i] == ConnectionReset
    ensures k < |steps| ==>
              && !steps[k].Advance? && !steps[k].Disconnect?
              && !steps[k].RecvPubAck? && !steps[k].RecvPubRec? && !steps[k].RecvPubComp?
              && (steps[k].Choose? ==> steps[k].qos == 0)
              && (steps[k].Withdraw? ==> states[k].pending.id == 0)
    decreases k
  {
    if j < k {
      LockedOut(states, steps, j, k - 1);
    }
  }

  /** A publish that had its identifier before is handed over all the same. */
  lemma LockedSubmitRun(n: nat) returns (states: seq<Client>, steps: seq<Step>)
    requires 3 <= n <= MAX_MSGID
    ensures Run(states, steps) && |steps| == 5 && states[0] == Init({1}, n)
    ensures states[4].lockHeld && states[4].pending == Assigned(1, false) && steps[4] == Submit
  {
    states, steps := FirstPublish({1}, n);
    states, steps := Extend(states, steps, RecvPubAck(2));
    states, steps := Extend(states, steps, Submit);
  }

  ghost predicate NothingOpen(log: seq<Event>) {
    forall id: nat :: !Open(log, id)
  }

  /** Without a request to quit, the look lets a client go exactly when no publish is
      unacknowledged. */
  lemma LeavesWhenDone(c: Client, n: nat)
    requires Inv(c, n) && c.slots != [] && c.conn.Closing?
    ensures MayLeave(c, false) <==> NothingOpen(c.log)
    ensures MayLeave(c, true)
  {
    CountZero(c.slots);
    if c.inflight != 0 {
      var id: nat :| id < |c.slots| && InFlight(c.slots[id]);
      assert Matches(c.slots[id], c.log, id);
      assert Open(c.log, id);
    } else {
      forall id: nat
        ensures !Open(c.log, id)
      {
        if id < |c.slots| {
          assert Matches(c.slots[id], c.log, id);
        }
      }
    }
  }

  /** The region after it keeps the count exactly when it frees the window, or nothing is in
      flight by then ... */
  lemma DisconnectExact(c: Client, reconnect: bool)
    requires CountOk(c)
    ensures CountOk(DoDisconnect(c, reconnect)) <==> !reconnect || c.inflight == 0
  {
  }

  /** ... which still holds if no identifier was assigned since a look without a quit
      request. */
  lemma {:induction false} DoneUnlessChosen(states: seq<Client>, steps: seq<Step>, n: nat, j: nat, k: nat)
    requires Run(states, steps) && j <= k <= |steps|
    requires 2 <= n <= MAX_MSGID && states[0].qosSet <= {0, 1, 2}
    requires states[0] == Init(states[0].qosSet, n)
    requires MayLeave(states[j], false)
    requires forall i :: j <= i < k ==> !(steps[i].Choose? && steps[i].qos > 0)
    ensures states[k].inflight == 0 && Sound(states[k], Disconnect(true))
    decreases k
  {
    hide Inv, Possible, Apply;
    if j < k {
      DoneUnlessChosen(states, steps, n, j, k - 1);
      RunKeeps(states, steps, n, k - 1);
      StaysDone(states[k - 1], steps[k - 1], n);
    }
  }

  lemma StaysDone(c: Client, s: Step, n: nat)
    requires Inv(c, n) && Enabled(c, s) && c.inflight == 0 && !(s.Choose? && s.qos > 0)
    ensures Apply(c, s).inflight == 0
  {
    hide Open, Cut, OpenTwo, Released, Matches, LogOk, Count;
    CountZero(c.slots);
  }

  /** A run in which one was assigned in between, with no request to quit: a disconnect breaks
      the count, or frees the window under a publish. */
  lemma LateChoiceRun(n: nat) returns (states: seq<Client>, steps: seq<Step>)
    requires 2 <= n <= MAX_MSGID
    ensures Run(states, steps) && states[0] == Init({1}, n)
    ensures steps == [ConnAck(None, true), Observe, StartClose, Leave(false), Choose(1)]
    ensures var c := states[5];
            && CountOk(c) && c.leaving && c.inflight == 1 && Open(c.log, 1)
            && !CountOk(DoDisconnect(c, true)) && DoDisconnect(c, false).slots == []
  {
    states, steps := LeavingTurn(n);
    var c := states[4];
    assert Search(c.slots, c.avail, c.window, c.inflight) == (1, Found);
    states, steps := Extend(states, steps, Choose(1));
    CountZero(c.slots);
    CountUpdate(c.slots, 1, Slot(PubAck, false));
  }

  /** Whenever something is in flight, a request to quit can come and disconnect a client that
      reconnects, which breaks the count. */
  lemma QuitBreaks(before: seq<Client>, first: seq<Step>) returns (states: seq<Client>, steps: seq<Step>)
    requires Run(before, first)
    requires var c := before[|first|];
             CountOk(c) && Shaped(c) && c.conn.PubSub? && c.inflight != 0 && !c.lockHeld
    ensures Run(states, steps) && before <= states && steps == first + [StartClose, Leave(true)]
    ensures var c := states[|steps|];
            CountOk(c) && Possible(c, Disconnect(true)) && !CountOk(DoDisconnect(c, true))
  {
    hide Count;
    states, steps := Extend(before, first, StartClose);
    states, steps := Extend(states, steps, Leave(true));
  }

  lemma QuitRun(n: nat) returns (states: seq<Client>, steps: seq<Step>)
    requires 2 <= n <= MAX_MSGID
    ensures Run(states, steps) && states[0] == Init({1}, n)
    ensures var c := states[|steps|];
            CountOk(c) && Possible(c, Disconnect(true)) && !CountOk(DoDisconnect(c, true))
  {
    var before, first := FirstPublish({1}, n);
    hide Count, Run, Possible, DoDisconnect;
    states, steps := QuitBreaks(before, first);
  }
}
