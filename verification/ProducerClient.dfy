/** A producer as the source keeps it: fields updated in place by the submitter thread and by
    the packet handlers. Every method is proved to take the steps of the state machine. */
module ProducerClient {
  import opened Options
  import opened MsgIds
  import opened Sender

  /** OutsideWindow stands for a valid identifier with no slot: the source reads past the slot
      array there, and the model stops. */
  datatype AckResult = Accepted | BadMsgId | NoWindow | OutsideWindow

  /** The only check made of an acknowledged identifier before the window is looked at. */
  predicate ValidId(id: nat) {
    1 <= id <= MAX_MSGID
  }

  /** A whole turn that no other thread interrupts, in whatever state the connection is by the
      time it begins. */
  function Publish(c: Client, qos: nat, accepted: bool): Client
    requires Shaped(c) && c.pending.Turn? && (qos > 0 ==> c.slots != [])
  {
    var chosen := DoChoose(c, qos);
    if chosen.pending.Idle? then chosen
    else if !c.conn.PubSub? then DoSkip(chosen)
    else if accepted then DoAdvance(DoSubmit(chosen))
    else DoWithdraw(chosen)
  }

  lemma ChosenShape(c: Client, qos: nat)
    requires Shaped(c) && c.pending.Turn? && (qos > 0 ==> c.slots != [])
    ensures var chosen := DoChoose(c, qos);
            && (chosen.pending.Idle? || chosen.pending.Assigned?)
            && chosen.conn == c.conn && |chosen.slots| == |c.slots|
            && (chosen.pending.Assigned? && chosen.pending.id != 0 ==> chosen.avail < |chosen.slots|)
  {
  }

  class Producer {
    const qosSet: set<nat>
    var slots: array?<Slot>
    var avail: nat
    var inflight: int
    var window: nat
    var conn: Conn
    var lockHeld: bool
    ghost var serverMax: nat
    ghost var log: seq<Event>

    ghost function State(): Client
      reads this, slots
    {
      Client(qosSet, if slots == null then [] else slots[..], avail, inflight, window, conn, Idle,
             lockHeld, false, serverMax, log)
    }

    constructor (qosSet: set<nat>, n: nat)
      ensures State() == Init(qosSet, n)
      ensures slots != null && fresh(slots)
    {
      this.qosSet := qosSet;
      slots := new Slot[n](_ => FREE);
      avail, inflight, window, conn, lockHeld := 1, 0, n, Connecting, false;
      serverMax, log := MAX_MSGID, [];
    }

    /** The ring search, moving availMsgId as it goes. */
    method FindAvailableMsgId() returns (rc: SearchResult)
      requires slots != null && Window(slots[..], avail, window)
      modifies this`avail
      ensures (avail, rc) == Search(slots[..], old(avail), window, inflight)
    {
      if inflight >= window {
        return NoneAvailable;
      }
      if Usable(slots[avail]) {
        return Found;
      }
      var limit := if window < slots.Length then window else slots.Length;
      var ctr := 0;
      while true
        invariant 0 <= ctr <= limit && Window(slots[..], avail, window)
        invariant Seek(slots[..], avail, window, limit + 1 - ctr) == Seek(slots[..], old(avail), window, window + 1)
        decreases limit - ctr
      {
        avail := if avail + 1 >= window then 1 else avail + 1;
        if Usable(slots[avail]) {
          return Found;
        }
        ctr := ctr + 1;
        if ctr > limit {
          return MaxSearch;
        }
      }
    }

    /** First locked region of submitPublish. */
    method AssignMsgId(qos: nat) returns (found: bool, id: nat, dup: bool)
      requires !lockHeld && Shaped(State()) && (qos > 0 ==> slots != null && slots.Length > 0)
      modifies this, slots
      ensures var chosen := DoChoose(old(State()).(pending := Turn), qos);
              && State() == chosen.(pending := Idle)
              && found == chosen.pending.Assigned?
              && (found ==> chosen.pending.id == id && (id == 0 <==> qos == 0))
      ensures slots == old(slots)
      ensures log == if found && qos > 0 then old(log) + [Chosen(id, qos, dup)] else old(log)
    {
      hide Search;
      if qos == 0 {
        return true, 0, false;
      }
      var rc := FindAvailableMsgId();
      if !rc.Found? {
        return false, 0, false;
      }
      found, id, dup := true, avail, qos == 2 && slots[avail].unknown;
      slots[id] := Slot(if qos == 1 then PubAck else PubRec, false);
      inflight := inflight + 1;
      log := log + [Chosen(id, qos, dup)];
    }

    /** Publishes, skips its turn for want of an identifier, or gives the identifier back.
        Returns the identifier and the DUP flag the packet carries. */
    method SubmitPublish(qos: nat, accepted: bool) returns (id: nat, dup: bool)
      requires !lockHeld && Shaped(State()) && (qos > 0 ==> slots != null && slots.Length > 0)
      modifies this, slots
      ensures State() == Publish(old(State()).(pending := Turn), qos, accepted)
      ensures slots == old(slots)
      ensures if id == 0 then log == old(log) else |log| > old(|log|) && log[old(|log|)] == Chosen(id, qos, dup)
    {
      hide Search, DoChoose;
      ChosenShape(State().(pending := Turn), qos);
      var found;
      found, id, dup := AssignMsgId(qos);
      if !found {
        return 0, false;
      }
      if conn.PubSub? {
        if accepted {
          avail := if avail + 1 >= window then 1 else avail + 1;
        } else if qos > 0 {
          slots[avail] := FREE;
          inflight := inflight - 1;
          log := log + [Withdrawn(avail)];
        }
      }
    }

    /** The identifier has a slot. */
    predicate Handled(id: nat)
      reads this`slots
    {
      ValidId(id) && slots != null && id < slots.Length
    }

    function Refusal(id: nat): AckResult
      reads this`slots
    {
      if !ValidId(id) then BadMsgId else if slots == null then NoWindow else OutsideWindow
    }

    method OnPubAck(id: nat) returns (rc: AckResult)
      requires !lockHeld
      modifies this, slots
      ensures slots == old(slots)
      ensures if Handled(id)
              then State() == DoPubAck(old(State()), id) && rc == if lockHeld then BadMsgId else Accepted
              else State() == old(State()) && rc == Refusal(id)
    {
      if !ValidId(id) {
        return BadMsgId;
      }
      if slots == null {
        return NoWindow;
      }
      if id >= slots.Length {
        return OutsideWindow;
      }
      if slots[id] == Slot(PubAck, false) {
        slots[id] := FREE;
        inflight := inflight - 1;
        log := log + [Completed(id)];
        rc := Accepted;
      } else {
        lockHeld := true;
        rc := BadMsgId;
      }
    }

    method OnPubRec(id: nat) returns (rc: AckResult)
      requires !lockHeld
      modifies this, slots
      ensures slots == old(slots)
      ensures if Handled(id)
              then State() == DoPubRec(old(State()), id) && rc == if lockHeld then BadMsgId else Accepted
              else State() == old(State()) && rc == Refusal(id)
    {
      if !ValidId(id) {
        return BadMsgId;
      }
      if slots == null {
        return NoWindow;
      }
      if id >= slots.Length {
        return OutsideWindow;
      }
      if slots[id] == Slot(PubRec, false) {
        slots[id] := Slot(PubComp, false);
        log := log + [Received(id)];
        rc := Accepted;
      } else {
        lockHeld := true;
        rc := BadMsgId;
      }
    }

    method OnPubComp(id: nat) returns (rc: AckResult)
      requires !lockHeld
      modifies this, slots
      ensures slots == old(slots) && !lockHeld
      ensures if Handled(id)
              then State() == DoPubComp(old(State()), id) &&
                   rc == if inflight == old(inflight) - 1 then Accepted else BadMsgId
              else State() == old(State()) && rc == Refusal(id)
    {
      if !ValidId(id) {
        return BadMsgId;
      }
      if slots == null {
        return NoWindow;
      }
      if id >= slots.Length {
        return OutsideWindow;
      }
      if slots[id] == Slot(PubComp, false) {
        slots[id] := FREE;
        inflight := inflight - 1;
        log := log + [Completed(id)];
        rc := Accepted;
      } else {
        rc := BadMsgId;
      }
    }

    method OnConnAck(maxReceive: Option<nat>, accepted: bool)
      modifies this
      ensures State() == DoConnAck(old(State()), maxReceive, accepted)
      ensures slots == old(slots)
    {
      if maxReceive.Some? {
        if maxReceive.value == 0 || maxReceive.value > MAX_MSGID {
          conn := Closing;
          return;
        }
        if maxReceive.value < window {
          window := maxReceive.value;
        }
      }
      serverMax := if maxReceive.Some? then maxReceive.value else MAX_MSGID;
      conn := if accepted then PubSub else Closing;
    }

    /** Reset for a reconnect: the slot array is rewritten in place. */
    method ResetClient()
      modifies this, slots
      ensures State() == DoReset(old(State()))
      ensures slots == old(slots)
    {
      ghost var before := State().slots;
      if slots != null {
        var i := 0;
        while i < slots.Length
          modifies slots
          invariant 0 <= i <= slots.Length
          invariant forall k :: 0 <= k < i ==> slots[k] == AfterReset(qosSet, before[k])
          invariant forall k :: i <= k < slots.Length ==> slots[k] == before[k]
        {
          if qosSet == {1} {
            slots[i] := FREE;
          } else if 2 in qosSet && (slots[i] == Slot(PubRec, false) || slots[i] == Slot(PubComp, false)) {
            slots[i] := slots[i].(unknown := true);
          }
          i := i + 1;
        }
        assert slots[..] == DoReset(old(State())).slots;
        if slots.Length > 0 {
          avail := 1;
          inflight := 0;
        }
      }
      conn := Connecting;
      log := log + [ConnectionReset];
    }

    /** The look before a disconnect, made without the lock. */
    method ReadyToDisconnect(quit: bool) returns (ready: bool)
      ensures ready <==> MayLeave(State(), quit)
    {
      ready := conn.Closing? && (inflight == 0 || quit);
    }

    /** The locked region after it, with whatever is in flight by then. */
    method FinishDisconnect(reconnect: bool)
      requires !lockHeld
      modifies this
      ensures State() == DoDisconnect(old(State()), reconnect)
    {
      conn := Disconnected;
      inflight := 0;
      if !reconnect {
        avail := 0;
        slots := null;
        log := log + [WindowFreed];
      }
    }

    /** Both, when nothing comes in between. */
    method DisconnectClient(quit: bool, reconnect: bool)
      requires !lockHeld
      modifies this
      ensures State() == if MayLeave(old(State()), quit) then DoDisconnect(old(State()), reconnect) else old(State())
    {
      var ready := ReadyToDisconnect(quit);
      if ready {
        FinishDisconnect(reconnect);
      }
    }
  }

  /** A whole turn keeps the invariant, and so does one that begins after the connection was
      reset or closed. */
  lemma PublishKeeps(c: Client, qos: nat, accepted: bool, n: nat)
    requires Inv(c, n) && c.qosSet <= {0, 1, 2} && Enabled(c, Choose(qos)) && !c.lockHeld
    ensures Inv(Publish(c, qos, accepted), n)
  {
    hide Count, Open, OpenTwo, Released, Cut, Matches, LogOk, Search;
    var chosen := DoChoose(c, qos);
    ChooseKeeps(c, qos, n);
    if chosen.pending.Assigned? {
      if !c.conn.PubSub? {
        OtherKeeps(chosen, Skip, n);
      } else if accepted {
        OtherKeeps(chosen, Submit, n);
        OtherKeeps(DoSubmit(chosen), Advance, n);
      } else {
        WithdrawKeeps(chosen, n);
      }
    }
  }
}
