/** Outbound topic aliases: the table of topics the client believes the server knows, run
    against a model of the server's own alias table. */
module TopicAlias {
  import opened Options

  /** A PUBLISH as far as its topic is concerned. Topics are named by their index in the
      client's list; alias 0 means that the packet carries none. */
  datatype Packet = Packet(topic: nat, hasName: bool, alias: nat)

  /** The server's side of one connection (section 3.3.2.3.4 of MQTT Version 5.0). */
  datatype Server = Server(max: nat, table: map<nat, nat>)

  /** Where the submitter thread stands: it has seen the client connected, has built a packet,
      or has handed it over and not yet marked the topic. What it built or handed over is stale
      once the connection was reset under it. */
  datatype Pending = Idle | Turn | Built(packet: Packet, stale: bool) | Sent(topic: nat, stale: bool)

  /** What one delivered PUBLISH meant to the server. */
  datatype Delivery = Delivery(intended: nat, resolved: Option<nat>, alias: nat, max: nat)

  datatype Client = Client(
    topics: nat,                  // destTxListCount
    configured: bool,             // whether the client list set an outbound alias count
    limit: nat,                   // topicalias_count_out
    mapped: Option<seq<bool>>,    // destTxAliasMapped, absent until allocated
    connected: bool,
    pending: Pending,
    server: Server,
    delivered: seq<Delivery>)

  datatype Step =
    | Observe
    | Pass
    | Build(topic: nat)
    | HandOver
    | Mark
    | Drop                        // refused by the I/O thread, or skipped
    | Reset
    | ConnAck(max: Option<nat>)

  /** Aliases are dealt out in list order, from 1, when the client list asks for them. */
  function AliasOf(c: Client, topic: nat): nat {
    if c.configured then topic + 1 else 0
  }

  predicate InRange(c: Client, topic: nat) {
    0 < AliasOf(c, topic) <= c.limit
  }

  /** The source dereferences the table here without looking whether it was allocated. */
  predicate Faults(c: Client, topic: nat) {
    InRange(c, topic) && (c.mapped.None? || topic >= |c.mapped.value|)
  }

  function BuiltPacket(c: Client, topic: nat): Packet
    requires !Faults(c, topic)
  {
    if InRange(c, topic) then Packet(topic, !c.mapped.value[topic], AliasOf(c, topic))
    else Packet(topic, true, 0)
  }

  /** The topic the server publishes to, if the packet tells it one. */
  function Resolve(s: Server, p: Packet): Option<nat> {
    if p.hasName then Some(p.topic)
    else if p.alias in s.table then Some(s.table[p.alias])
    else None
  }

  function Deliver(s: Server, p: Packet): Server {
    if p.hasName && p.alias > 0 then s.(table := s.table[p.alias := p.topic]) else s
  }

  /** The I/O thread takes the packet, and the server reads it. */
  function DoHandOver(c: Client): Client
    requires c.pending.Built?
  {
    var p := c.pending.packet;
    c.(pending := Sent(p.topic, false),
    server := Deliver(c.server, p),
    delivered := c.delivered + [Delivery(p.topic, Resolve(c.server, p), p.alias, c.server.max)])
  }

  /** Only then the topic is marked as mapped. */
  function DoMark(c: Client): Client
    requires c.pending.Sent? && !Faults(c, c.pending.topic)
  {
    var topic := c.pending.topic;
    c.(pending := Idle,
    mapped := if InRange(c, topic) then Some(c.mapped.value[topic := true]) else c.mapped)
  }

  function Stale(p: Pending): Pending {
    if p.Built? || p.Sent? then p.(stale := true) else p
  }

  const NO_SESSION := Server(0, map[])

  function DoReset(c: Client): Client {
    c.(mapped := if c.mapped.Some? then Some(seq(|c.mapped.value|, _ => false)) else None,
    connected := false,
    pending := Stale(c.pending),
    server := NO_SESSION)
  }

  /** The first Topic Alias Maximum lowers the limit and allocates the table; later ones are
      assumed to be the same and ignored. A CONNACK without one means a maximum of zero. */
  function DoConnAck(c: Client, max: Option<nat>): Client {
    var server := Server(if max.Some? then max.value else 0, map[]);
    if max.Some? && c.limit > 0 && c.mapped.None? then
      var limit := if max.value < c.limit then max.value else c.limit;
      c.(limit := limit, mapped := Some(seq(limit, _ => false)), connected := true, server := server)
    else
      c.(connected := true, server := server)
  }

  /** A CONNACK under which no publish can go wrong: see ConnAckExact. */
  predicate Suits(c: Client, max: Option<nat>) {
    var after := DoConnAck(c, max);
    forall topic :: 0 <= topic < c.topics && InRange(after, topic) ==>
      after.mapped.Some? && AliasOf(after, topic) <= after.server.max
  }

  /** A hand-over that is delivered as meant: see HandOverExact. */
  predicate SafeHandOver(c: Client)
    requires c.pending.Built?
  {
    !InRange(c, c.pending.packet.topic) || (c.connected && (c.pending.stale ==> c.pending.packet.hasName))
  }

  /** When a step can happen. A turn begins connected, and from then on the connection may be
      reset and made again at any time. Taken for granted are suitable CONNACKs
      (ConnAckExact, NoMaximumFaults, LowerMaximumRun), safe hand-overs (HandOverExact,
      StaleHandOverRun) and that no topic is marked for a connection already gone (MarkExact,
      StaleMarkRun). */
  predicate Enabled(c: Client, s: Step) {
    match s
    case Observe => c.connected && c.pending.Idle?
    case Pass => c.pending.Turn?
    case Build(topic) => c.pending.Turn? && topic < c.topics && !Faults(c, topic)
    case HandOver => c.pending.Built? && SafeHandOver(c)
    case Mark =>
      c.pending.Sent? && !Faults(c, c.pending.topic) && (InRange(c, c.pending.topic) ==> !c.pending.stale)
    case Drop => c.pending.Built?
    case Reset => true
    case ConnAck(max) => !c.connected && Suits(c, max)
  }

  function Apply(c: Client, s: Step): Client
    requires Enabled(c, s)
  {
    match s
    case Observe => c.(pending := Turn)
    case Pass => c.(pending := Idle)
    case Build(topic) => c.(pending := Built(BuiltPacket(c, topic), false))
    case HandOver => DoHandOver(c)
    case Mark => DoMark(c)
    case Drop => c.(pending := Idle)
    case Reset => DoReset(c)
    case ConnAck(max) => DoConnAck(c, max)
  }

  function Init(topics: nat, limit: nat): Client {
    Client(topics, limit > 0, limit, None, false, Idle, NO_SESSION, [])
  }

  ghost predicate Run(states: seq<Client>, steps: seq<Step>) {
    && |states| == |steps| + 1
    && forall k :: 0 <= k < |steps| ==> Enabled(states[k], steps[k]) && states[k + 1] == Apply(states[k], steps[k])
  }

  // ----- the refinement --------------------------------------------------------------------

  /** The server resolves the alias of the topic to the topic. */
  predicate Known(s: Server, topic: nat) {
    topic + 1 in s.table && s.table[topic + 1] == topic
  }

  /** Every topic marked as mapped is one the server knows. */
  predicate MarksOk(c: Client) {
    c.mapped.Some? ==>
      && |c.mapped.value| == c.limit
      && forall i :: 0 <= i < |c.mapped.value| && c.mapped.value[i] ==> c.connected && Known(c.server, i)
  }

  /** No publish can fault, and while connected every alias is within the server's maximum. */
  predicate LimitOk(c: Client) {
    forall i :: 0 <= i < c.topics && InRange(c, i) ==>
      && (c.connected || !c.pending.Idle? ==> c.mapped.Some?)
      && (c.connected ==> AliasOf(c, i) <= c.server.max)
  }

  predicate PendingOk(c: Client) {
    && (c.pending.Built? ==> PacketOk(c, c.pending.packet, c.pending.stale))
    && (c.pending.Sent? ==>
          && c.pending.topic < c.topics
          && (InRange(c, c.pending.topic) && !c.pending.stale ==> c.connected && Known(c.server, c.pending.topic))
          && (c.pending.stale ==> c.server.table == map[]))
  }

  /** A packet carries its alias whenever it has one in range; it leaves out the name only for
      a topic that was marked, and still is unless the connection was reset since. */
  predicate PacketOk(c: Client, p: Packet, stale: bool) {
    && p.topic < c.topics
    && p.alias == (if InRange(c, p.topic) then AliasOf(c, p.topic) else 0)
    && (p.alias == 0 ==> p.hasName)
    && if stale then c.server.table == map[]
       else !p.hasName ==> c.mapped.Some? && p.topic < |c.mapped.value| && c.mapped.value[p.topic]
  }

  predicate Good(d: Delivery) {
    d.resolved == Some(d.intended) && d.alias <= d.max
  }

  predicate DeliveriesOk(c: Client) {
    forall k :: 0 <= k < |c.delivered| ==> Good(c.delivered[k])
  }

  predicate Inv(c: Client) {
    && MarksOk(c)
    && LimitOk(c)
    && PendingOk(c)
    && (!c.connected ==> c.server == NO_SESSION)
    && DeliveriesOk(c)
  }

  lemma SameRange(c: Client, d: Client)
    requires d.configured == c.configured && d.limit == c.limit
    ensures forall i :: InRange(d, i) == InRange(c, i)
  {
  }

  lemma HandOverKeeps(c: Client)
    requires Inv(c) && Enabled(c, HandOver)
    ensures Inv(DoHandOver(c))
  {
    var r, p := DoHandOver(c), c.pending.packet;
    SameRange(c, r);
    assert InRange(c, p.topic) ==> AliasOf(c, p.topic) <= c.server.max;
    assert Good(Delivery(p.topic, Resolve(c.server, p), p.alias, c.server.max));
    if r.mapped.Some? {
      forall i | 0 <= i < |r.mapped.value| && r.mapped.value[i]
        ensures r.connected && Known(r.server, i)
      {
        assert Known(c.server, i);
      }
    }
  }

  lemma MarkKeeps(c: Client)
    requires Inv(c) && Enabled(c, Mark)
    ensures Inv(DoMark(c))
  {
    SameRange(c, DoMark(c));
  }

  lemma ConnAckKeeps(c: Client, max: Option<nat>)
    requires Inv(c) && Enabled(c, ConnAck(max))
    ensures Inv(DoConnAck(c, max))
  {
    var r := DoConnAck(c, max);
    if !c.pending.Idle? && c.topics > 0 && c.configured && c.limit > 0 {
      assert InRange(c, 0);
    }
    if c.limit == r.limit {
      SameRange(c, r);
    }
  }

  lemma StepKeeps(c: Client, s: Step)
    requires Inv(c) && Enabled(c, s)
    ensures Inv(Apply(c, s))
  {
    match s
    case HandOver => HandOverKeeps(c);
    case Mark => MarkKeeps(c);
    case ConnAck(max) => ConnAckKeeps(c, max);
    case _ => SameRange(c, Apply(c, s));
  }

  /** Over every run of publishes, accepted or not, resets and suitable CONNACKs: every PUBLISH
      that reaches the server resolves there to the topic it was meant for, no alias exceeds the
      maximum the server announced on that connection, and no turn faults. */
  lemma {:induction false} AliasesResolve(states: seq<Client>, steps: seq<Step>, topics: nat, limit: nat, k: nat)
    requires Run(states, steps) && k <= |steps| && states[0] == Init(topics, limit)
    ensures Inv(states[k])
    ensures forall j :: 0 <= j < |states[k].delivered| ==>
              && states[k].delivered[j].resolved == Some(states[k].delivered[j].intended)
              && states[k].delivered[j].alias <= states[k].delivered[j].max
    ensures states[k].pending.Turn? ==> forall topic :: 0 <= topic < states[k].topics ==> !Faults(states[k], topic)
  {
    if k > 0 {
      AliasesResolve(states, steps, topics, limit, k - 1);
      StepKeeps(states[k - 1], steps[k - 1]);
    }
    assert forall j :: 0 <= j < |states[k].delivered| ==> Good(states[k].delivered[j]);
  }

  // ----- that aliases are used --------------------------------------------------------------

  /** The first Topic Alias Maximum announced, if any was. */
  ghost function FirstMaximum(steps: seq<Step>, k: nat): Option<nat>
    requires k <= |steps|
  {
    if k == 0 then None
    else if FirstMaximum(steps, k - 1).Some? then FirstMaximum(steps, k - 1)
    else if steps[k - 1].ConnAck? then steps[k - 1].max
    else None
  }

  /** In every run the limit is the configured count until a maximum is announced, and the
      lesser of both from then on; and from then on there is a table. */
  lemma {:induction false} LimitIs(states: seq<Client>, steps: seq<Step>, topics: nat, limit: nat, k: nat)
    requires Run(states, steps) && k <= |steps| && states[0] == Init(topics, limit)
    ensures var c, first := states[k], FirstMaximum(steps, k);
            && c.topics == topics && (c.configured <==> limit > 0)
            && (c.mapped.Some? <==> limit > 0 && first.Some?)
            && c.limit == if first.Some? && first.value < limit then first.value else limit
  {
    hide Apply;
    if k > 0 {
      LimitIs(states, steps, topics, limit, k - 1);
      LimitStep(states[k - 1], steps[k - 1]);
    }
  }

  lemma LimitStep(c: Client, s: Step)
    requires Enabled(c, s)
    ensures var r, first := Apply(c, s), s.ConnAck? && s.max.Some? && c.limit > 0 && c.mapped.None?;
            && r.topics == c.topics && r.configured == c.configured
            && (r.mapped.Some? <==> c.mapped.Some? || first)
            && r.limit == if first && s.max.value < c.limit then s.max.value else c.limit
  {
  }

  /** The topics marked since the last reset. */
  ghost function Marked(states: seq<Client>, steps: seq<Step>, k: nat): set<nat>
    requires Run(states, steps) && k <= |steps|
  {
    if k == 0 || steps[k - 1].Reset? then {}
    else if steps[k - 1].Mark? then Marked(states, steps, k - 1) + {states[k - 1].pending.topic}
    else Marked(states, steps, k - 1)
  }

  /** The table says what was marked. */
  predicate TableOk(c: Client, marked: set<nat>) {
    if c.mapped.Some? then forall i :: 0 <= i < |c.mapped.value| ==> (c.mapped.value[i] <==> i in marked)
    else forall i :: i in marked ==> !InRange(c, i)
  }

  lemma TableStep(c: Client, s: Step, marked: set<nat>)
    requires Inv(c) && Enabled(c, s) && TableOk(c, marked) && (c.limit > 0 ==> c.configured)
    ensures TableOk(Apply(c, s), if s.Reset? then {} else if s.Mark? then marked + {c.pending.topic} else marked)
  {
    var r := Apply(c, s);
    if s.ConnAck? && c.mapped.None? && r.mapped.Some? {
      assert forall i: nat :: i < r.limit ==> InRange(c, i);
    } else if !s.ConnAck? {
      SameRange(c, r);
    }
  }

  lemma {:induction false} TableIs(states: seq<Client>, steps: seq<Step>, topics: nat, limit: nat, k: nat)
    requires Run(states, steps) && k <= |steps| && states[0] == Init(topics, limit)
    ensures TableOk(states[k], Marked(states, steps, k))
  {
    hide Inv, Apply, TableOk;
    if k == 0 {
      NoneMarked(topics, limit);
    } else {
      TableIs(states, steps, topics, limit, k - 1);
      AliasesResolve(states, steps, topics, limit, k - 1);
      LimitIs(states, steps, topics, limit, k - 1);
      TableStep(states[k - 1], steps[k - 1], Marked(states, steps, k - 1));
    }
  }

  lemma NoneMarked(topics: nat, limit: nat)
    ensures TableOk(Init(topics, limit), {})
  {
  }

  /** What a packet built in any reachable turn carries: the alias of its topic exactly when it
      has one, and the name unless the topic was marked since the last reset. */
  lemma PacketIs(states: seq<Client>, steps: seq<Step>, topics: nat, limit: nat, k: nat, topic: nat)
    requires Run(states, steps) && k <= |steps| && states[0] == Init(topics, limit)
    requires states[k].pending.Turn? && topic < topics
    ensures !Faults(states[k], topic)
    ensures var p, first := BuiltPacket(states[k], topic), FirstMaximum(steps, k);
            var aliased := topic < limit && first.Some? && topic < first.value;
            && p.topic == topic
            && p.alias == (if aliased then topic + 1 else 0)
            && (p.hasName <==> !(aliased && topic in Marked(states, steps, k)))
  {
    hide Inv, Marked, FirstMaximum, Apply;
    AliasesResolve(states, steps, topics, limit, k);
    LimitIs(states, steps, topics, limit, k);
    TableIs(states, steps, topics, limit, k);
    var c, first := states[k], FirstMaximum(steps, k);
    assert InRange(c, topic) <==> topic < limit && (first.Some? ==> topic < first.value);
    assert InRange(c, topic) ==> first.Some?;
  }

  // ----- what the run assumes, exactly -----------------------------------------------------

  /** The next publish to this topic crashes or breaks the server's limit. */
  predicate GoesWrong(c: Client, topic: nat) {
    Faults(c, topic) || BuiltPacket(c, topic).alias > c.server.max
  }

  /** A CONNACK suits exactly when no aliased topic is in use, or it is the first to carry a
      Topic Alias Maximum, or its maximum still covers the aliases dealt out; and exactly then
      no publish after it goes wrong. */
  lemma ConnAckExact(c: Client, max: Option<nat>)
    requires c.configured && (c.mapped.Some? ==> |c.mapped.value| == c.limit)
    ensures var aliased := if c.limit < c.topics then c.limit else c.topics;
            Suits(c, max) <==> aliased == 0 || (max.Some? && (c.mapped.None? || aliased <= max.value))
    ensures Suits(c, max) <==> forall topic :: 0 <= topic < c.topics ==> !GoesWrong(DoConnAck(c, max), topic)
  {
    var after := DoConnAck(c, max);
    var aliased := if c.limit < c.topics then c.limit else c.topics;
    if aliased > 0 && !(max.Some? && (c.mapped.None? || aliased <= max.value)) {
      assert InRange(after, aliased - 1) && GoesWrong(after, aliased - 1);
    }
    forall topic | 0 <= topic < c.topics
      ensures GoesWrong(after, topic) <==>
              InRange(after, topic) && !(after.mapped.Some? && AliasOf(after, topic) <= after.server.max)
    {
    }
  }

  /** A server that announces the same maximum on every connection always suits. */
  lemma {:induction false} SameMaximumSuits(states: seq<Client>, steps: seq<Step>,
                                            topics: nat, limit: nat, max: nat, k: nat)
    requires Run(states, steps) && k <= |steps| && states[0] == Init(topics, limit)
    requires forall j :: 0 <= j < |steps| && steps[j].ConnAck? ==> steps[j].max == Some(max)
    ensures states[k].mapped.Some? ==> |states[k].mapped.value| == states[k].limit <= max
    ensures Suits(states[k], Some(max))
  {
    if k > 0 {
      SameMaximumSuits(states, steps, topics, limit, max, k - 1);
      AliasesResolve(states, steps, topics, limit, k);
    }
  }

  /** Without a Topic Alias Maximum in the first CONNACK the first publish faults. */
  lemma NoMaximumFaults(topics: nat, limit: nat)
    requires topics > 0 && limit > 0
    ensures Faults(DoConnAck(Init(topics, limit), None), 0)
  {
  }

  /** A maximum lowered on a reconnect, below an alias in use, goes wrong too. */
  lemma LowerMaximumRun(topics: nat, limit: nat, max: nat, lower: nat) returns (states: seq<Client>, steps: seq<Step>)
    requires lower < topics && lower < limit && lower < max
    ensures Run(states, steps) && states[0] == Init(topics, limit) && steps == [ConnAck(Some(max)), Reset]
    ensures GoesWrong(DoConnAck(states[2], Some(lower)), lower)
  {
    var c := Init(topics, limit);
    var d := DoConnAck(c, Some(max));
    states, steps := [c, d, DoReset(d)], [ConnAck(Some(max)), Reset];
    assert InRange(DoConnAck(states[2], Some(lower)), lower);
  }

  /** A hand-over is delivered as meant exactly when it is safe ... */
  lemma HandOverExact(c: Client)
    requires Inv(c) && c.pending.Built?
    ensures Good(DoHandOver(c).delivered[|c.delivered|]) <==> SafeHandOver(c)
    ensures Inv(DoHandOver(c)) <==> SafeHandOver(c)
  {
    var p, r := c.pending.packet, DoHandOver(c);
    assert InRange(c, p.topic) ==> c.connected ==> AliasOf(c, p.topic) <= c.server.max;
    if SafeHandOver(c) {
      HandOverKeeps(c);
      assert Good(r.delivered[|c.delivered|]);
    }
  }

  /** ... and marking its topic keeps the tables in step exactly when the topic has no alias in
      range or the connection was not reset in between. */
  lemma MarkExact(c: Client)
    requires Inv(c) && c.pending.Sent?
    ensures !Faults(c, c.pending.topic)
    ensures Inv(DoMark(c)) <==> !InRange(c, c.pending.topic) || !c.pending.stale
  {
    var topic := c.pending.topic;
    if InRange(c, topic) {
      assert c.mapped.Some?;
      if c.pending.stale {
        assert DoMark(c).mapped.value[topic];
      }
    }
    if Enabled(c, Mark) {
      MarkKeeps(c);
    }
  }

  lemma Extend(states: seq<Client>, steps: seq<Step>, s: Step) returns (more: seq<Client>, longer: seq<Step>)
    requires Run(states, steps) && Enabled(states[|steps|], s)
    ensures more == states + [Apply(states[|steps|], s)] && longer == steps + [s]
    ensures Run(more, longer)
  {
    more, longer := states + [Apply(states[|steps|], s)], steps + [s];
  }

  /** A client with one topic and one alias has handed over its first publish. */
  lemma FirstPublish() returns (states: seq<Client>, steps: seq<Step>)
    ensures Run(states, steps) && |steps| == 4 && states[0] == Init(1, 1)
    ensures states[4] == Client(1, true, 1, Some([false]), true, Sent(0, false), Server(1, map[1 := 0]),
                                [Delivery(0, Some(0), 1, 1)])
  {
    states, steps := Extend([Init(1, 1)], [], ConnAck(Some(1)));
    assert states[1].mapped.value == [false];
    states, steps := Extend(states, steps, Observe);
    states, steps := Extend(states, steps, Build(0));
    states, steps := Extend(states, steps, HandOver);
  }

  /** The unsafe hand-over happens: the second publish leaves out the name, and after a
      reconnect it means nothing to the server. */
  lemma StaleHandOverRun() returns (states: seq<Client>, steps: seq<Step>)
    ensures Run(states, steps) && states[0] == Init(1, 1)
    ensures var c := states[|steps|];
            c.connected && c.pending == Built(Packet(0, false, 1), true) && Resolve(c.server, c.pending.packet) == None
  {
    states, steps := FirstPublish();
    states, steps := Extend(states, steps, Mark);
    assert states[5].mapped.value == [true];
    states, steps := Extend(states, steps, Observe);
    states, steps := Extend(states, steps, Build(0));
    states, steps := Extend(states, steps, Reset);
    states, steps := Extend(states, steps, ConnAck(Some(1)));
  }

  /** So does the late mark, here before the next CONNACK: after it every publish to the topic
      leaves out a name the server was never told. */
  lemma StaleMarkRun() returns (states: seq<Client>, steps: seq<Step>)
    ensures Run(states, steps) && states[0] == Init(1, 1) && states[|steps|].pending == Sent(0, true)
    ensures var c := states[|steps|];
            && !Faults(c, 0)
            && var d := DoConnAck(DoMark(c), Some(1));
            !Faults(d, 0) && Resolve(d.server, BuiltPacket(d, 0)) == None
  {
    states, steps := FirstPublish();
    states, steps := Extend(states, steps, Reset);
    assert states[5].mapped.value == [false];
    assert DoMark(states[5]).mapped.value == [true];
  }
}

/** The client's half in place: the table is an array, marked as packets are accepted. */
module AliasTable {
  import opened Options
  import opened TopicAlias

  class Table {
    const topics: nat
    const configured: bool
    var limit: nat
    var mapped: array?<bool>

    /** This table inside a whole system. */
    ghost function In(c: Client): Client
      reads this, mapped
    {
      c.(topics := topics, configured := configured, limit := limit,
      mapped := if mapped == null then None else Some(mapped[..]))
    }

    ghost predicate Valid()
      reads this
    {
      mapped != null ==> mapped.Length == limit
    }

    constructor (topics: nat, limit: nat)
      ensures Valid() && In(Init(topics, limit)) == Init(topics, limit)
    {
      this.topics, this.configured, this.limit, this.mapped := topics, limit > 0, limit, null;
    }

    /** First part of submitPublish: decides what the packet carries. There is no packet for a
        topic index out of range, an internal error, nor where the table is missing. */
    method Choose(topic: nat, ghost c: Client) returns (r: Option<Packet>)
      requires Valid() && In(c) == c
      ensures r.None? <==> topic >= topics || Faults(c, topic)
      ensures r.Some? ==> r.value == BuiltPacket(c, topic)
    {
      if topic >= topics {
        return None;
      }
      var alias := if configured then topic + 1 else 0;
      if alias > 0 && alias <= limit {
        if mapped == null {
          return None;
        }
        return Some(Packet(topic, !mapped[topic], alias));
      }
      return Some(Packet(topic, true, 0));
    }

    /** After the I/O thread took the packet, whatever became of the connection meanwhile. */
    method OnAccepted(topic: nat, ghost c: Client)
      requires Valid() && In(c) == c && c.pending.Sent? && c.pending.topic == topic && !Faults(c, topic)
      modifies mapped
      ensures Valid() && In(DoMark(c)) == DoMark(c)
    {
      var alias := if configured then topic + 1 else 0;
      if alias > 0 && alias <= limit {
        mapped[topic] := true;
      }
    }

    method OnReset(ghost c: Client)
      requires Valid() && In(c) == c
      modifies mapped
      ensures Valid() && In(DoReset(c)) == DoReset(c)
    {
      if mapped != null {
        var i := 0;
        while i < limit
          invariant 0 <= i <= limit == mapped.Length
          invariant forall k :: 0 <= k < i ==> !mapped[k]
        {
          mapped[i] := false;
          i := i + 1;
        }
        assert mapped[..] == seq(mapped.Length, _ => false);
      }
    }

    method OnConnAck(max: Option<nat>, ghost c: Client)
      requires Valid() && In(c) == c
      modifies this
      ensures Valid() && In(DoConnAck(c, max)) == DoConnAck(c, max)
    {
      if max.Some? && limit > 0 && mapped == null {
        if max.value < limit {
          limit := max.value;
        }
        mapped := new bool[limit](_ => false);
        assert mapped[..] == seq(limit, _ => false);
      }
    }
  }
}
