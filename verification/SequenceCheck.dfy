/** Order checking of received messages, stream by stream and QoS level by QoS level. */
module SequenceCheck {

  const UINT64 := 0x1_0000_0000_0000_0000

  /** Addition as the counters of the source do it. */
  function Next(n: nat): nat {
    (n + 1) % UINT64
  }

  datatype Message = Message(stream: nat, qos: nat, seqnum: nat, retained: bool, dup: bool)

  /** Received with QoS 0, 1 or 2 and a 64-bit sequence number. */
  predicate WellFormed(m: Message) {
    m.qos < 3 && m.seqnum < UINT64
  }

  /** Retained and redelivered messages and messages without a stream are not checked. */
  predicate Checked(m: Message) {
    !m.retained && !m.dup && m.stream > 0
  }

  /** What is kept of a stream: the last number seen at each QoS level and two counters. */
  datatype Stream = Stream(last: seq<nat>, redelivered: nat, outOfOrder: nat)

  const NEW := Stream([0, 0, 0], 0, 0)

  function Observe(s: Stream, qos: nat, seqnum: nat): Stream
    requires qos < |s.last|
  {
    var last := s.last[qos];
    var wrong := seqnum != Next(last);
    Stream(s.last[qos := seqnum],
           s.redelivered + (if wrong && last >= seqnum then 1 else 0),
           s.outOfOrder + if wrong && Next(last) < seqnum then 1 else 0)
  }

  /** A stream after its own messages alone. */
  function After(own: seq<Message>): (s: Stream)
    requires forall i :: 0 <= i < |own| ==> WellFormed(own[i])
    ensures |s.last| == 3 && forall q :: 0 <= q < 3 ==> s.last[q] < UINT64
  {
    if own == [] then NEW
    else
      var m := own[|own| - 1];
      assert WellFormed(m);
      Observe(After(own[..|own| - 1]), m.qos, m.seqnum)
  }

  /** The checked messages of one stream, in order of arrival. */
  function Own(log: seq<Message>, stream: nat): (r: seq<Message>)
    ensures (forall i :: 0 <= i < |log| ==> WellFormed(log[i])) ==> forall i :: 0 <= i < |r| ==> WellFormed(r[i])
  {
    if log == [] then []
    else
      var m := log[|log| - 1];
      Own(log[..|log| - 1], stream) + if Checked(m) && m.stream == stream then [m] else []
  }

  /** The sequence numbers of one QoS level. */
  function Numbers(own: seq<Message>, qos: nat): seq<nat> {
    if own == [] then []
    else
      var m := own[|own| - 1];
      Numbers(own[..|own| - 1], qos) + if m.qos == qos then [m.seqnum] else []
  }

  /** 1, 2, 3 and so on (in 64 bits). */
  ghost predicate Counting(s: seq<nat>) {
    forall i :: 0 <= i < |s| ==> s[i] == (i + 1) % UINT64
  }

  lemma NextCounts(n: nat)
    ensures Next(n % UINT64) == (n + 1) % UINT64
  {
    var q := n / UINT64;
    assert n == q * UINT64 + n % UINT64;
  }

  lemma CountingSnoc(s: seq<nat>, x: nat)
    ensures Counting(s + [x]) <==> Counting(s) && x == (|s| + 1) % UINT64
  {
    assert forall i :: 0 <= i < |s| ==> (s + [x])[i] == s[i];
    assert (s + [x])[|s|] == x;
  }

  /** The last number of a sequence, 0 before the first. */
  function Last(s: seq<nat>): nat {
    if s == [] then 0 else s[|s| - 1]
  }

  lemma NumbersSnoc(own: seq<Message>, m: Message, q: nat)
    ensures Numbers(own + [m], q) == if m.qos == q then Numbers(own, q) + [m.seqnum] else Numbers(own, q)
  {
    assert (own + [m])[..|own|] == own;
    assert Numbers(own, q) + [] == Numbers(own, q);
  }

  lemma AfterSnoc(own: seq<Message>, m: Message)
    requires WellFormed(m) && forall i :: 0 <= i < |own| ==> WellFormed(own[i])
    ensures forall i :: 0 <= i < |own + [m]| ==> WellFormed((own + [m])[i])
    ensures After(own + [m]) == Observe(After(own), m.qos, m.seqnum)
  {
    assert (own + [m])[..|own|] == own;
  }

  /** The number kept for a level is the last one received at it. */
  lemma {:induction false} LastKept(own: seq<Message>, q: nat)
    requires q < 3 && forall i :: 0 <= i < |own| ==> WellFormed(own[i])
    ensures After(own).last[q] == Last(Numbers(own, q))
  {
    if own != [] {
      var before, m := own[..|own| - 1], own[|own| - 1];
      assert own == before + [m] && WellFormed(m);
      LastKept(before, q);
      AfterSnoc(before, m);
      NumbersSnoc(before, m, q);
    }
  }

  predicate Clean(s: Stream) {
    s.redelivered == 0 && s.outOfOrder == 0
  }

  /** Every QoS level, on its own, counts up from 1. */
  ghost predicate AllCounting(own: seq<Message>) {
    Counting(Numbers(own, 0)) && Counting(Numbers(own, 1)) && Counting(Numbers(own, 2))
  }

  lemma CountingStep(own: seq<Message>, m: Message)
    requires WellFormed(m) && forall i :: 0 <= i < |own| ==> WellFormed(own[i])
    ensures AllCounting(own + [m]) <==> AllCounting(own) && m.seqnum == Next(After(own).last[m.qos])
  {
    hide Counting, Numbers, After;
    NumbersSnoc(own, m, 0);
    NumbersSnoc(own, m, 1);
    NumbersSnoc(own, m, 2);
    var numbers := Numbers(own, m.qos);
    CountingSnoc(numbers, m.seqnum);
    LastKept(own, m.qos);
    if Counting(numbers) {
      LastOfCounting(numbers);
      NextCounts(|numbers|);
    }
  }

  /** A stream's counters are both zero exactly when the numbers of every QoS level, each on its
      own, count up from 1. */
  lemma {:induction false} CleanIffCounting(own: seq<Message>)
    requires forall i :: 0 <= i < |own| ==> WellFormed(own[i])
    ensures Clean(After(own)) <==> AllCounting(own)
  {
    if own != [] {
      hide AllCounting;
      var before, m := own[..|own| - 1], own[|own| - 1];
      assert own == before + [m] && WellFormed(m);
      CleanIffCounting(before);
      CountingStep(before, m);
      AfterSnoc(before, m);
      ObserveClean(After(before), m);
    }
  }

  /** A message adds to neither counter exactly when it carries the next number. */
  lemma ObserveClean(s: Stream, m: Message)
    requires |s.last| == 3 && WellFormed(m) && s.last[m.qos] < UINT64
    ensures var r := Observe(s, m.qos, m.seqnum);
            r.redelivered == s.redelivered && r.outOfOrder == s.outOfOrder <==> m.seqnum == Next(s.last[m.qos])
  {
  }

  lemma LastOfCounting(s: seq<nat>)
    requires Counting(s)
    ensures Last(s) == |s| % UINT64
  {
  }

  // ----- what each counter counts ----------------------------------------------------------

  /** The number before position i, 0 before the first. */
  function Before(s: seq<nat>, i: nat): nat
    requires i < |s|
  {
    if i == 0 then 0 else s[i - 1]
  }

  /** A number comes again or goes back: it is at most its predecessor, and not the one that
      follows it in 64 bits. */
  predicate RepeatAt(s: seq<nat>, i: nat)
    requires i < |s|
  {
    s[i] <= Before(s, i) && s[i] != Next(Before(s, i))
  }

  /** Numbers are missing before this one. */
  predicate SkipAt(s: seq<nat>, i: nat)
    requires i < |s|
  {
    s[i] > Next(Before(s, i))
  }

  ghost function Repeated(s: seq<nat>): set<nat> {
    set i: nat | i < |s| && RepeatAt(s, i)
  }

  ghost function Skipped(s: seq<nat>): set<nat> {
    set i: nat | i < |s| && SkipAt(s, i)
  }

  lemma SameAt(s: seq<nat>, x: nat, i: nat)
    requires i < |s|
    ensures RepeatAt(s + [x], i) == RepeatAt(s, i) && SkipAt(s + [x], i) == SkipAt(s, i)
  {
    assert (s + [x])[i] == s[i] && Before(s + [x], i) == Before(s, i);
  }

  lemma NewAt(s: seq<nat>, x: nat)
    ensures RepeatAt(s + [x], |s|) <==> x <= Last(s) && x != Next(Last(s))
    ensures SkipAt(s + [x], |s|) <==> x > Next(Last(s))
  {
    assert (s + [x])[|s|] == x && Before(s + [x], |s|) == Last(s);
  }

  lemma RepeatedSnoc(s: seq<nat>, x: nat)
    ensures |Repeated(s + [x])| == |Repeated(s)| + if x <= Last(s) && x != Next(Last(s)) then 1 else 0
  {
    NewAt(s, x);
    hide RepeatAt, Next;
    var n, before, after := |s|, Repeated(s), Repeated(s + [x]);
    forall i: nat | i < n
      ensures i in after <==> i in before
    {
      SameAt(s, x, i);
    }
    if RepeatAt(s + [x], n) {
      assert after == before + {n};
    } else {
      assert after == before;
    }
  }

  lemma SkippedSnoc(s: seq<nat>, x: nat)
    ensures |Skipped(s + [x])| == |Skipped(s)| + if x > Next(Last(s)) then 1 else 0
  {
    NewAt(s, x);
    hide SkipAt, Next;
    var n, before, after := |s|, Skipped(s), Skipped(s + [x]);
    forall i: nat | i < n
      ensures i in after <==> i in before
    {
      SameAt(s, x, i);
    }
    if SkipAt(s + [x], n) {
      assert after == before + {n};
    } else {
      assert after == before;
    }
  }

  /** Over the three QoS levels of one stream. */
  ghost function Repeats(own: seq<Message>): nat {
    |Repeated(Numbers(own, 0))| + |Repeated(Numbers(own, 1))| + |Repeated(Numbers(own, 2))|
  }

  ghost function Skips(own: seq<Message>): nat {
    |Skipped(Numbers(own, 0))| + |Skipped(Numbers(own, 1))| + |Skipped(Numbers(own, 2))|
  }

  /** The counters of a stream count the repeated and the skipped positions of its levels. */
  lemma {:induction false} CountersExact(own: seq<Message>)
    requires forall i :: 0 <= i < |own| ==> WellFormed(own[i])
    ensures After(own).redelivered == Repeats(own) && After(own).outOfOrder == Skips(own)
  {
    hide Numbers, Repeated, Skipped;
    if own == [] {
      NoNumbers();
    } else {
      var before, m := own[..|own| - 1], own[|own| - 1];
      assert own == before + [m] && WellFormed(m);
      CountersExact(before);
      AfterSnoc(before, m);
      LastKept(before, m.qos);
      RepeatedSnoc(Numbers(before, m.qos), m.seqnum);
      SkippedSnoc(Numbers(before, m.qos), m.seqnum);
      NumbersSnoc(before, m, 0);
      NumbersSnoc(before, m, 1);
      NumbersSnoc(before, m, 2);
    }
  }

  lemma NoNumbers()
    ensures Repeats([]) == 0 && Skips([]) == 0
  {
    assert Repeated([]) == {} && Skipped([]) == {};
  }

  // ----- all streams of an I/O thread ------------------------------------------------------

  /** The sum of a figure over a set of streams. */
  ghost function Sum(keys: set<nat>, f: nat -> nat): nat {
    if keys == {} then 0 else var k :| k in keys; Sum(keys - {k}, f) + f(k)
  }

  /** The order in which the streams are added up does not matter. */
  lemma {:induction false} SumSplit(keys: set<nat>, f: nat -> nat, k: nat)
    requires k in keys
    ensures Sum(keys, f) == Sum(keys - {k}, f) + f(k)
  {
    var j :| j in keys && Sum(keys, f) == Sum(keys - {j}, f) + f(j);
    if j != k {
      SumSplit(keys - {j}, f, k);
      SumSplit(keys - {k}, f, j);
      assert keys - {j} - {k} == keys - {k} - {j};
    }
  }

  lemma {:induction false} SumSame(keys: set<nat>, f: nat -> nat, g: nat -> nat)
    requires forall k :: k in keys ==> f(k) == g(k)
    ensures Sum(keys, f) == Sum(keys, g)
  {
    if keys != {} {
      var k :| k in keys;
      SumSplit(keys, f, k);
      SumSplit(keys, g, k);
      SumSame(keys - {k}, f, g);
    }
  }

  ghost function RedeliveredIn(streams: map<nat, Stream>): nat -> nat {
    k => if k in streams then streams[k].redelivered else 0
  }

  ghost function OutOfOrderIn(streams: map<nat, Stream>): nat -> nat {
    k => if k in streams then streams[k].outOfOrder else 0
  }

  ghost function Redelivered(streams: map<nat, Stream>): nat {
    Sum(streams.Keys, RedeliveredIn(streams))
  }

  ghost function OutOfOrder(streams: map<nat, Stream>): nat {
    Sum(streams.Keys, OutOfOrderIn(streams))
  }

  /** Replacing one figure changes the sum by the difference. */
  lemma SumUpdate(keys: set<nat>, f: nat -> nat, g: nat -> nat, k: nat)
    requires forall j :: j in keys && j != k ==> f(j) == g(j)
    requires k !in keys ==> f(k) == 0
    ensures Sum(keys + {k}, g) + f(k) == Sum(keys, f) + g(k)
  {
    SumSplit(keys + {k}, g, k);
    SumSame(keys - {k}, f, g);
    assert (keys + {k}) - {k} == keys - {k};
    if k in keys {
      SumSplit(keys, f, k);
    } else {
      assert keys - {k} == keys;
    }
  }

  /** The streams of which a message was checked. */
  ghost function Streams(log: seq<Message>): set<nat> {
    set m | m in log && Checked(m) :: m.stream
  }

  lemma {:induction false} OwnNonempty(log: seq<Message>, k: nat)
    ensures Own(log, k) != [] <==> k in Streams(log)
  {
    if log != [] {
      var before, m := log[..|log| - 1], log[|log| - 1];
      assert log == before + [m];
      OwnNonempty(before, k);
      assert Streams(log) == if Checked(m) then Streams(before) + {m.stream} else Streams(before);
    }
  }

  ghost function RepeatsIn(log: seq<Message>): nat -> nat {
    k => Repeats(Own(log, k))
  }

  ghost function SkipsIn(log: seq<Message>): nat -> nat {
    k => Skips(Own(log, k))
  }

  class StreamTable {
    var streams: map<nat, Stream>
    var redelivered: nat
    var outOfOrder: nat
    ghost var log: seq<Message>    // every well-formed message received, checked or not

    /** Each stream is what its own checked messages alone make of it, and the totals are the
        sums over the streams. */
    ghost predicate Valid()
      reads this
    {
      && (forall i :: 0 <= i < |log| ==> WellFormed(log[i]))
      && (forall k :: k in streams <==> Own(log, k) != [])
      && (forall k :: k in streams ==> streams[k] == After(Own(log, k)))
      && redelivered == Redelivered(streams)
      && outOfOrder == OutOfOrder(streams)
    }

    constructor ()
      ensures Valid() && log == []
    {
      streams, redelivered, outOfOrder, log := map[], 0, 0, [];
    }

    /** The totals are the repeated and the skipped positions of all streams. */
    lemma TotalsExact()
      requires Valid()
      ensures redelivered == Sum(Streams(log), RepeatsIn(log))
      ensures outOfOrder == Sum(Streams(log), SkipsIn(log))
    {
      hide Own, After, Repeats, Skips;
      forall k: nat
        ensures k in streams <==> k in Streams(log)
        ensures k in streams ==> streams[k].redelivered == Repeats(Own(log, k))
        ensures k in streams ==> streams[k].outOfOrder == Skips(Own(log, k))
      {
        OwnNonempty(log, k);
        if k in streams {
          CountersExact(Own(log, k));
        }
      }
      assert streams.Keys == Streams(log);
      SumSame(Streams(log), RedeliveredIn(streams), RepeatsIn(log));
      SumSame(Streams(log), OutOfOrderIn(streams), SkipsIn(log));
    }

    /** One PUBLISH. A QoS above 2 is a malformed packet and is not looked at any further. */
    method OnMessage(m: Message) returns (accepted: bool)
      requires Valid() && m.seqnum < UINT64
      modifies this
      ensures accepted <==> m.qos <= 2
      ensures Valid() && log == if accepted then old(log) + [m] else old(log)
      ensures !accepted ==> unchanged(this)
      ensures redelivered == Sum(Streams(log), RepeatsIn(log)) && outOfOrder == Sum(Streams(log), SkipsIn(log))
    {
      hide Own, After, Observe, Redelivered, OutOfOrder, Sum, Streams, RepeatsIn, SkipsIn;
      if m.qos > 2 {
        TotalsExact();
        return false;
      }
      LogGrows(log, m);
      if !m.retained && !m.dup && m.stream > 0 {
        NewStream(log, m.stream);
        Check(m);
      }
      log := log + [m];
      TotalsExact();
      return true;
    }

    method Check(m: Message)
      requires WellFormed(m) && (m.stream in streams ==> |streams[m.stream].last| == 3)
      requires redelivered == Redelivered(streams) && outOfOrder == OutOfOrder(streams)
      modifies this`streams, this`redelivered, this`outOfOrder
      ensures var s := if m.stream in old(streams) then old(streams)[m.stream] else NEW;
              streams == old(streams)[m.stream := Observe(s, m.qos, m.seqnum)]
      ensures redelivered == Redelivered(streams) && outOfOrder == OutOfOrder(streams)
    {
      hide Redelivered, OutOfOrder;
      var s := if m.stream in streams then streams[m.stream] else NEW;
      var last, seen := s.last[m.qos], s;
      if m.seqnum != Next(last) {
        if last >= m.seqnum {
          seen := seen.(redelivered := seen.redelivered + 1);
          redelivered := redelivered + 1;
        }
        if Next(last) < m.seqnum {
          seen := seen.(outOfOrder := seen.outOfOrder + 1);
          outOfOrder := outOfOrder + 1;
        }
      }
      seen := seen.(last := seen.last[m.qos := m.seqnum]);
      assert seen == Observe(s, m.qos, m.seqnum);
      StreamChange(streams, m.stream, s, seen);
      streams := streams[m.stream := seen];
    }
  }

  lemma OwnSnoc(log: seq<Message>, m: Message, k: nat)
    ensures Own(log + [m], k) == if Checked(m) && m.stream == k then Own(log, k) + [m] else Own(log, k)
  {
    assert (log + [m])[..|log|] == log;
    assert Own(log, k) + [] == Own(log, k);
  }

  /** A message changes the stream it belongs to, and no other. */
  lemma LogGrows(log: seq<Message>, m: Message)
    requires WellFormed(m) && forall i :: 0 <= i < |log| ==> WellFormed(log[i])
    ensures forall k :: !(Checked(m) && k == m.stream) ==> Own(log + [m], k) == Own(log, k)
    ensures Checked(m) ==>
              && Own(log + [m], m.stream) != []
              && After(Own(log + [m], m.stream)) == Observe(After(Own(log, m.stream)), m.qos, m.seqnum)
  {
    hide Own, After, Observe;
    forall k: nat
      ensures !(Checked(m) && k == m.stream) ==> Own(log + [m], k) == Own(log, k)
    {
      OwnSnoc(log, m, k);
    }
    OwnSnoc(log, m, m.stream);
    AfterSnoc(Own(log, m.stream), m);
  }

  lemma NewStream(log: seq<Message>, k: nat)
    requires forall i :: 0 <= i < |log| ==> WellFormed(log[i])
    ensures Own(log, k) == [] ==> After(Own(log, k)) == NEW
  {
  }

  lemma StreamChange(streams: map<nat, Stream>, k: nat, s: Stream, r: Stream)
    requires s == if k in streams then streams[k] else NEW
    ensures Redelivered(streams[k := r]) + s.redelivered == Redelivered(streams) + r.redelivered
    ensures OutOfOrder(streams[k := r]) + s.outOfOrder == OutOfOrder(streams) + r.outOfOrder
  {
    var after := streams[k := r];
    assert after.Keys == streams.Keys + {k};
    SumUpdate(streams.Keys, RedeliveredIn(streams), RedeliveredIn(after), k);
    SumUpdate(streams.Keys, OutOfOrderIn(streams), OutOfOrderIn(after), k);
  }
}
