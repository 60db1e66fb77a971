/** The window of packet identifiers of one client: slot states, the search for a usable
    identifier and the number of exchanges in flight. */
module MsgIds {

  /** The state byte of a slot: one of the PUB_MSGID_ states that publishing uses, and the
      PUB_MSGID_UNKNOWN_STATE flag. */
  datatype Phase = Avail | PubAck | PubRec | PubComp
  datatype Slot = Slot(phase: Phase, unknown: bool)

  datatype SearchResult = Found | NoneAvailable | MaxSearch

  const FREE := Slot(Avail, false)

  /** The identifier may be given to a publish: it is available, or its fate is unknown. */
  predicate Usable(s: Slot) {
    s == FREE || s.unknown
  }

  /** The slot counts as an exchange in flight. */
  predicate InFlight(s: Slot) {
    s == Slot(PubAck, false) || s == Slot(PubRec, false) || s == Slot(PubComp, false)
  }

  /** A window the searches below can be asked about: slot 0 is never an identifier. */
  predicate Window(slots: seq<Slot>, avail: nat, window: nat) {
    2 <= |slots| && 1 <= avail < |slots| && window <= |slots|
  }

  /** The next identifier, wrapping to 1 at the end of the window. */
  function Advanced(id: nat, window: nat): (r: nat)
    ensures r >= 1
    ensures r < window || r == 1
  {
    if id + 1 >= window then 1 else id + 1
  }

  /** The identifier reached by probing up to n times, and whether it is usable. */
  function Seek(slots: seq<Slot>, avail: nat, window: nat, n: nat): (r: (nat, bool))
    requires Window(slots, avail, window)
    ensures 1 <= r.0 < |slots|
    ensures r.1 ==> Usable(slots[r.0])
    decreases n
  {
    if n == 0 then (avail, false)
    else
      var next := Advanced(avail, window);
      if Usable(slots[next]) then (next, true) else Seek(slots, next, window, n - 1)
  }

  /** Outcome of the search for a usable identifier. The loop leaves after one probe more
      than the limit. */
  function Search(slots: seq<Slot>, avail: nat, window: nat, inflight: int): (r: (nat, SearchResult))
    requires Window(slots, avail, window)
    ensures 1 <= r.0 < |slots|
    ensures r.1.Found? ==> Usable(slots[r.0]) && inflight < window
  {
    if inflight >= window then (avail, NoneAvailable)
    else if Usable(slots[avail]) then (avail, Found)
    else
      var r := Seek(slots, avail, window, window + 1);
      (r.0, if r.1 then Found else MaxSearch)
  }

  /** Probes needed to come from one identifier to another. */
  function Distance(from: nat, id: nat, window: nat): nat
    requires 1 <= id < window
  {
    if from < id then id - from
    else if from + 1 >= window then id
    else window - 1 - from + id
  }

  lemma {:induction false} SeekReaches(slots: seq<Slot>, avail: nat, window: nat, n: nat, id: nat)
    requires Window(slots, avail, window)
    requires 1 <= id < window && Usable(slots[id])
    requires n >= Distance(avail, id, window)
    requires avail == id ==> n >= 1
    ensures Seek(slots, avail, window, n).1
    decreases n
  {
    var next := Advanced(avail, window);
    if !Usable(slots[next]) {
      SeekReaches(slots, next, window, n - 1, id);
    }
  }

  lemma {:induction false} SeekFinds(slots: seq<Slot>, avail: nat, window: nat, n: nat)
    requires Window(slots, avail, window)
    requires Seek(slots, avail, window, n).1
    ensures var r := Seek(slots, avail, window, n); r.0 < window || r.0 == 1
    decreases n
  {
    var next := Advanced(avail, window);
    if !Usable(slots[next]) {
      SeekFinds(slots, next, window, n - 1);
    }
  }

  /** The search is complete: from any start, even one outside a window the server has shrunk,
      it gives up exactly when the start and every identifier of the window are taken. */
  lemma SearchComplete(slots: seq<Slot>, avail: nat, window: nat, inflight: int)
    requires Window(slots, avail, window) && inflight < window
    ensures Search(slots, avail, window, inflight).1.MaxSearch? <==>
            !Usable(slots[avail]) && !Usable(slots[1]) && forall id :: 1 <= id < window ==> !Usable(slots[id])
    ensures var r := Search(slots, avail, window, inflight);
            r.1.Found? ==> r.0 == avail || r.0 < window || r.0 == 1
  {
    var r := Seek(slots, avail, window, window + 1);
    if r.1 {
      SeekFinds(slots, avail, window, window + 1);
    }
    if window <= 1 {
      assert Advanced(avail, window) == 1;
      if !Usable(slots[1]) {
        OneSlot(slots, window, window);
      }
    } else if exists id :: 1 <= id < window && Usable(slots[id]) {
      var id :| 1 <= id < window && Usable(slots[id]);
      SeekReaches(slots, avail, window, window + 1, id);
    }
  }

  /** An identifier reached by probing is the nearest usable one. */
  lemma {:induction false} SeekNearest(slots: seq<Slot>, avail: nat, window: nat, n: nat)
    requires Window(slots, avail, window) && 2 <= window
    requires Seek(slots, avail, window, n).1
    ensures var id := Seek(slots, avail, window, n).0; id < window && Nearest(slots, avail, window, id)
    decreases n
  {
    SeekFinds(slots, avail, window, n);
    var next := Advanced(avail, window);
    if !Usable(slots[next]) {
      SeekNearest(slots, next, window, n - 1);
      forall i | 1 <= i < window && i != next
        ensures Distance(avail, i, window) == Distance(next, i, window) + 1
      {
      }
    }
  }

  /** Usable, and nothing on the way there is. */
  ghost predicate Nearest(slots: seq<Slot>, avail: nat, window: nat, id: nat)
    requires 1 <= id < window <= |slots|
  {
    && Usable(slots[id])
    && forall i :: 1 <= i < window && Distance(avail, i, window) < Distance(avail, id, window) ==> !Usable(slots[i])
  }

  /** What the search answers: that the window is full exactly when as many are in flight as it
      allows; otherwise an identifier exactly when the start, identifier 1 or one of the window
      is usable, and then the start itself, or the first usable one in ring order. */
  lemma SearchExact(slots: seq<Slot>, avail: nat, window: nat, inflight: int)
    requires Window(slots, avail, window)
    ensures var (id, rc) := Search(slots, avail, window, inflight);
            && (rc.NoneAvailable? <==> inflight >= window)
            && (rc.NoneAvailable? ==> id == avail)
            && (rc.Found? <==>
                  && inflight < window
                  && (Usable(slots[avail]) || Usable(slots[1]) || exists i :: 1 <= i < window && Usable(slots[i])))
            && (rc.Found? && Usable(slots[avail]) ==> id == avail)
            && (rc.Found? && !Usable(slots[avail]) ==>
                  if window <= 1 then id == 1 else 1 <= id < window && Nearest(slots, avail, window, id))
  {
    hide Seek;
    if inflight < window {
      SearchComplete(slots, avail, window, inflight);
      if !Usable(slots[avail]) && Seek(slots, avail, window, window + 1).1 {
        SeekFinds(slots, avail, window, window + 1);
        if window >= 2 {
          SeekNearest(slots, avail, window, window + 1);
        }
      }
    }
  }

  /** With a window of one, only identifier 1 is ever probed. */
  lemma {:induction false} OneSlot(slots: seq<Slot>, window: nat, n: nat)
    requires Window(slots, 1, window) && window <= 1 && !Usable(slots[1])
    ensures !Seek(slots, 1, window, n).1
  {
    if n > 0 {
      OneSlot(slots, window, n - 1);
    }
  }

  function Capped(n: nat): nat {
    if n > 65535 then 65535 else n
  }

  /** How many slots a client gets: one more than its subscriptions, or than the publishes it
      may have in flight (the -mim parameter, or the autotuned share), whichever is larger. */
  function Allocated(subscriptions: nat, publishesAbove0: bool, mim: nat, tuned: nat): (n: nat)
    ensures n <= 65535
    ensures subscriptions > 0 ==> n > subscriptions || n == 65535
    ensures publishesAbove0 ==> n >= (if mim < 65535 then mim + 1 else tuned) || n == 65535
    ensures subscriptions > 0 ==> n >= Capped(subscriptions + 1)
    ensures publishesAbove0 ==> n >= Capped(if mim < 65535 then mim + 1 else tuned)
    ensures n != 0 ==> || (subscriptions > 0 && n == Capped(subscriptions + 1))
                       || (publishesAbove0 && n == Capped(if mim < 65535 then mim + 1 else tuned))
    ensures n >= 2 <==> subscriptions >= 1 || (publishesAbove0 && if mim < 65535 then mim >= 1 else tuned >= 2)
  {
    var rx := if subscriptions > 0 then Capped(subscriptions + 1) else 0;
    var tx := if publishesAbove0 then Capped(if mim < 65535 then mim + 1 else tuned) else 0;
    if rx > tx then rx else tx
  }

  // ----- counting -------------------------------------------------------------------------

  function Weight(s: Slot): nat {
    if InFlight(s) then 1 else 0
  }

  /** How many slots are in flight. */
  function Count(slots: seq<Slot>): nat {
    if slots == [] then 0 else Count(slots[..|slots| - 1]) + Weight(slots[|slots| - 1])
  }

  lemma {:induction false} CountUpdate(slots: seq<Slot>, i: nat, s: Slot)
    requires i < |slots|
    ensures Count(slots[i := s]) == Count(slots) - Weight(slots[i]) + Weight(s)
  {
    var n := |slots| - 1;
    if i < n {
      assert slots[i := s][..n] == slots[..n][i := s];
      CountUpdate(slots[..n], i, s);
    } else {
      assert slots[i := s][..n] == slots[..n];
    }
  }

  lemma {:induction false} CountZero(slots: seq<Slot>)
    ensures Count(slots) == 0 <==> forall i :: 0 <= i < |slots| ==> !InFlight(slots[i])
  {
    if slots != [] {
      var n := |slots| - 1;
      CountZero(slots[..n]);
      assert forall i :: 0 <= i < n ==> slots[..n][i] == slots[i];
    }
  }

  /** The count is the size of the set of identifiers in flight. */
  lemma {:induction false} CountIsCardinality(slots: seq<Slot>)
    ensures Count(slots) == |set i | 0 <= i < |slots| && InFlight(slots[i])|
  {
    var all := set i | 0 <= i < |slots| && InFlight(slots[i]);
    if slots != [] {
      var n := |slots| - 1;
      var before := set i | 0 <= i < n && InFlight(slots[..n][i]);
      CountIsCardinality(slots[..n]);
      if InFlight(slots[n]) {
        assert all == before + {n};
      } else {
        assert all == before;
      }
    }
  }

  /** Slot 0 is no identifier, so at most one exchange fewer than slots can be in flight. */
  lemma {:induction false} CountBound(slots: seq<Slot>)
    requires slots != [] && slots[0] == FREE
    ensures Count(slots) <= |slots| - 1
  {
    if |slots| > 1 {
      CountBound(slots[..|slots| - 1]);
    } else {
      assert slots[..0] == [];
    }
  }

  /** ... and that many are exactly when every identifier is. */
  lemma {:induction false} CountFull(slots: seq<Slot>)
    requires slots != [] && slots[0] == FREE
    ensures Count(slots) == |slots| - 1 <==> forall i :: 1 <= i < |slots| ==> InFlight(slots[i])
  {
    var n := |slots| - 1;
    if n > 0 {
      CountBound(slots[..n]);
      CountFull(slots[..n]);
      assert forall i :: 1 <= i < n ==> slots[..n][i] == slots[i];
    } else {
      assert slots[..0] == [];
    }
  }
}
