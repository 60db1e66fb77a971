/** The receiving half of a client: a partial-packet buffer, fed by whatever the socket
    delivered, that hands whole packets to the handlers. */
module Receiver {
  import opened LengthCodec
  import opened Framing

  // INC_BFR_BYTES_SIZE and PARTIAL_BUF_PADDING
  const REGROW_BYTES := 1024
  const PADDING := 32

  // The smallest buffer that holds a header byte and the longest readable length field.
  const MIN_CAPACITY := 4

  // ----- how the capacity of the buffer develops -----------------------------------------

  function Grown(capacity: nat, total: nat): nat {
    if total > capacity then total + PADDING else capacity
  }

  /** After saving a chunk too short to complete the packet. */
  function ShortCapacity(saved: seq<byte>, capacity: nat): nat
    requires saved != [] && !HasPacket(saved)
  {
    var total := Missing(saved) + |saved|;
    if total > capacity then total + REGROW_BYTES else capacity
  }

  /** After the length field was looked for. */
  function KnownCapacity(w: seq<byte>, capacity: nat): nat {
    if LengthKnown(w) then Grown(capacity, FirstSize(w)) else capacity
  }

  function ResumeCapacity(saved: seq<byte>, capacity: nat, rx: seq<byte>): nat
    requires saved != [] && !HasPacket(saved)
  {
    if Missing(saved) > |rx| then ShortCapacity(saved, capacity) else KnownCapacity(saved + rx, capacity)
  }

  function TailCapacity(tail: seq<byte>, capacity: nat): nat
    requires !HasPacket(tail)
  {
    if tail == [] then capacity else Grown(capacity, |tail| + Missing(tail))
  }

  /** After a whole receive callback. */
  function CapacityAfter(saved: seq<byte>, capacity: nat, rx: seq<byte>): nat
    requires !HasPacket(saved)
  {
    var w := saved + rx;
    if saved == [] then TailCapacity(Parse(w).rest, capacity)
    else
      var resumed := ResumeCapacity(saved, capacity, rx);
      if HasPacket(w) then TailCapacity(Parse(w).rest, resumed) else resumed
  }

  /** The callback writes past the end of the buffer. */
  predicate Overruns(saved: seq<byte>, capacity: nat, rx: seq<byte>) {
    saved != [] && Stuck(saved + rx) && |saved| + |rx| > capacity
  }

  predicate FitsAll(saved: seq<byte>, capacity: nat, chunks: seq<seq<byte>>)
    requires !HasPacket(saved)
    decreases |chunks|
  {
    chunks == [] ||
    (!Overruns(saved, capacity, chunks[0]) &&
     FitsAll(Parse(saved + chunks[0]).rest, CapacityAfter(saved, capacity, chunks[0]), chunks[1..]))
  }

  lemma NextFits(saved: seq<byte>, capacity: nat, chunks: seq<seq<byte>>, k: nat)
    requires !HasPacket(saved) && k < |chunks|
    ensures FitsAll(saved, capacity, chunks[k..]) <==>
            !Overruns(saved, capacity, chunks[k]) &&
            FitsAll(Parse(saved + chunks[k]).rest, CapacityAfter(saved, capacity, chunks[k]), chunks[k + 1..])
  {
  }

  lemma {:induction false} FitsUnlessStuck(saved: seq<byte>, capacity: nat, chunks: seq<seq<byte>>)
    requires !HasPacket(saved)
    ensures !Stuck(Parse(saved + Flatten(chunks)).rest) ==> FitsAll(saved, capacity, chunks)
    decreases |chunks|
  {
    hide HasPacket, Parse, Stuck, CapacityAfter;
    if chunks != [] {
      var s, later := saved + chunks[0], Flatten(chunks[1..]);
      assert saved + Flatten(chunks) == s + later;
      ParseAppend(s, later);
      FitsUnlessStuck(Parse(s).rest, CapacityAfter(saved, capacity, chunks[0]), chunks[1..]);
      if Stuck(s) {
        StuckForever(s, later);
      }
    }
  }

  /** It takes one unreadable length field, at any capacity, and enough bytes after it. */
  lemma OverrunReached(capacity: nat, more: seq<byte>)
    requires capacity >= MIN_CAPACITY && |more| > capacity + 1 + PADDING
    ensures !FitsAll([], capacity, [[48, 128, 128, 128], more])
  {
    var stuck: seq<byte> := [48, 128, 128, 128];
    assert [] + stuck == stuck && Stuck(stuck);
    UnknownLength(stuck);
    ParseNone(stuck);
    Unfinished(stuck);
    StuckForever(stuck, more);
    assert CapacityAfter([], capacity, stuck) == Grown(capacity, 5);
    NextFits([], capacity, [stuck, more], 0);
    NextFits(stuck, Grown(capacity, 5), [stuck, more], 1);
    assert [stuck, more][0..] == [stuck, more];
  }

  /** Bytes put back in front of what is left of the chunk. */
  lemma Rejoin(w: seq<byte>, s: seq<byte>, rx: seq<byte>, start: nat, i: nat)
    requires start <= i <= |rx| && w == s + rx[start..]
    ensures w[..|s| + i - start] + rx[i..] == w
    ensures i == |rx| ==> w[..|s| + i - start] == w
  {
  }

  /** An unreadable length field: no packet, and one byte more is asked for. */
  lemma Unfinished(w: seq<byte>)
    requires w != [] && !LengthKnown(w)
    ensures !HasPacket(w) && Missing(w) == 1
    ensures !Stuck(w) ==> |w| + 1 <= MIN_CAPACITY
  {
    UnknownLength(w);
  }

  lemma Sent(stream: seq<byte>, chunks: seq<seq<byte>>)
    ensures stream == [] + Flatten(chunks) ==>
              forall ps :: WireAll(ps) == Flatten(chunks) ==> Parse(stream).packets == BeforeLarge(ps)
  {
    if stream == [] + Flatten(chunks) {
      forall ps | WireAll(ps) == Flatten(chunks)
        ensures Parse(stream).packets == BeforeLarge(ps)
      {
        DeliveredIffSmall(ps, chunks);
      }
    }
  }

  class PartialBuffer {
    var buf: array<byte>           // its length is the capacity ("allocated")
    var used: nat
    var put: nat                   // offset of the write pointer
    var needed: nat                // msgBytesNeeded
    var dispatched: seq<Packet>    // everything handed to the packet handlers, in order

    function Saved(): seq<byte>
      reads this, buf
      requires used <= buf.Length
    {
      buf[..used]
    }

    /** What holds between two receive callbacks: the saved bytes are a proper prefix of one
        packet, the count of missing bytes is exact once the length field is readable and one
        before that, and a packet of known length fits the buffer. */
    ghost predicate Valid()
      reads this, buf
    {
      && MIN_CAPACITY <= buf.Length
      && used <= buf.Length
      && (used > 0 ==>
            && put == used
            && !HasPacket(Saved())
            && needed == Missing(Saved())
            && (!Stuck(Saved()) ==> used + needed <= buf.Length))
    }

    constructor (capacity: nat)
      requires capacity >= MIN_CAPACITY
      ensures Valid() && fresh(buf) && buf.Length == capacity
      ensures Saved() == [] && dispatched == []
    {
      buf := new byte[capacity];
      used, put, needed, dispatched := 0, 0, 0, [];
    }

    /** A reconnect forgets the partial packet but not where the write pointer stood. */
    method Reset()
      requires Valid()
      modifies this
      ensures Valid() && Saved() == [] && dispatched == old(dispatched) && buf == old(buf)
    {
      used := 0;
      needed := 0;
    }

    method Append(bytes: seq<byte>)
      requires put == used && used + |bytes| <= buf.Length
      modifies this`used, this`put, buf
      ensures used == put == old(used) + |bytes|
      ensures buf[..used] == old(buf[..used]) + bytes
    {
      var k := 0;
      while k < |bytes|
        invariant k <= |bytes| && used == put == old(used)
        invariant buf[..used] == old(buf[..used]) && buf[used..used + k] == bytes[..k]
      {
        buf[put + k] := bytes[k];
        k := k + 1;
      }
      put := put + |bytes|;
      used := used + |bytes|;
      assert buf[..used] == buf[..old(used)] + buf[old(used)..used];
    }

    method Put(b: byte)
      requires put == used < buf.Length
      modifies this`used, this`put, buf
      ensures used == put == old(used) + 1
      ensures buf[..used] == old(buf[..used]) + [b]
    {
      buf[put] := b;
      put := put + 1;
      used := used + 1;
    }

    method Regrow(capacity: nat)
      requires used <= buf.Length && used <= capacity
      modifies this`buf, this`put
      ensures fresh(buf) && buf.Length == capacity
      ensures put == used && buf[..used] == old(buf[..used])
    {
      var bigger, smaller := new byte[capacity], buf;
      var k := 0;
      while k < used
        modifies bigger
        invariant k <= used && bigger[..k] == smaller[..k]
      {
        bigger[k] := smaller[k];
        k := k + 1;
      }
      buf := bigger;
      put := used;
    }

    /** Adds bytes of the chunk one at a time until the length field can be read. The source
        does not look at the capacity here; `fits` is false where its write would pass the
        end of the buffer, which takes a stuck length field. */
    method CompleteLength(rx: seq<byte>, start: nat) returns (i: nat, d: Decoded, fits: bool)
      requires 1 <= used == put <= buf.Length && start <= |rx|
      requires MIN_CAPACITY <= buf.Length
      modifies this`used, this`put, buf
      ensures start <= i <= |rx|
      ensures fits <==> !(Stuck(old(Saved()) + rx[start..]) && old(used) + |rx| - start > buf.Length)
      ensures fits ==> used == put == old(used) + i - start <= buf.Length
      ensures fits ==> Saved() == (old(Saved()) + rx[start..])[..used]
      ensures fits ==> d == Decode(Saved()[1..]) && (d.Complete? <==> LengthKnown(Saved()))
      ensures fits ==> i == start || !LengthKnown(Saved()[..used - 1])
      ensures fits && !d.Complete? ==> i == |rx|
    {
      hide Decode, Stuck, Parse, LengthKnown;
      ghost var s := Saved();
      ghost var w := s + rx[start..];
      i := start;
      while true
        invariant start <= i <= |rx|
        invariant used == put == |s| + i - start <= buf.Length
        invariant Saved() == w[..used]
        invariant i == start || !LengthKnown(Saved()[..used - 1])
        decreases |rx| - i
      {
        d := LengthField();
        PrefixTells(w, used);
        if d.Complete? || i == |rx| {
          return i, d, true;
        }
        if put == buf.Length {
          return i, d, false;
        }
        OneMore(s, rx[start..], i - start);
        Put(rx[i]);
        i := i + 1;
      }
    }

    /** Tries to read the length field from the bytes saved so far. */
    method LengthField() returns (d: Decoded)
      requires 1 <= used == put <= buf.Length
      ensures d == Decode(Saved()[1..]) && (d.Complete? <==> LengthKnown(Saved()))
    {
      d := DecodeLength(buf[1..put]);
      assert Saved()[1..] == buf[1..put];
    }

    /** Fewer bytes than are missing: the chunk is saved. The source's branch for a full buffer
        regrows it without copying the chunk, which loses nothing: the chunk is then empty. */
    method SaveShort(rx: seq<byte>)
      requires Valid() && used > 0 && needed > |rx|
      modifies this, buf
      ensures Valid() && used > 0 && Saved() == old(Saved()) + rx && dispatched == old(dispatched)
      ensures buf == old(buf) || fresh(buf)
      ensures !HasPacket(Saved())
      ensures Stuck(Saved()) ==> used <= old(buf.Length)
      ensures buf.Length == ShortCapacity(old(Saved()), old(buf.Length))
    {
      TooShort(Saved(), rx);
      if needed + used > buf.Length {
        assert rx == [];
        Regrow(needed + used + REGROW_BYTES);
        assert Saved() == old(Saved()) + rx;
      } else {
        Append(rx);
        needed := needed - |rx|;
      }
    }

    /** With the size known, makes room for the packet and copies what the chunk has of it. */
    method Fill(rx: seq<byte>, i: nat, total: nat) returns (next: nat, whole: bool)
      requires used == put <= buf.Length && used <= total && i <= |rx|
      modifies this, buf
      ensures buf == old(buf) || fresh(buf)
      ensures used == put <= total <= buf.Length == Grown(old(buf.Length), total)
      ensures dispatched == old(dispatched)
      ensures whole <==> total <= |old(Saved()) + rx[i..]|
      ensures whole ==> Saved() == (old(Saved()) + rx[i..])[..total] && next == i + total - old(used)
      ensures !whole ==> Saved() == old(Saved()) + rx[i..] && needed == total - used
    {
      if total > buf.Length {
        Regrow(total + PADDING);
      }
      var diff := total - used;
      whole := diff <= |rx| - i;
      next := if whole then i + diff else |rx|;
      Append(rx[i..next]);
      if !whole {
        needed := diff - (|rx| - i);
      }
    }

    /** Completes and dispatches the packet whose length is now known, from `rx[i..]`, or saves
        all of it. The source's branch for having taken too many bytes is never entered: the
        last precondition says why, and NotPastEnd establishes it. */
    method FinishPacket(rx: seq<byte>, i: nat, d: Decoded) returns (next: nat, done: bool)
      requires 1 <= used == put <= buf.Length && i <= |rx| && MIN_CAPACITY <= buf.Length
      requires LengthKnown(Saved()) && d == Decode(Saved()[1..]) && used <= FirstSize(Saved())
      modifies this, buf
      ensures buf == old(buf) || fresh(buf)
      ensures Valid()
      ensures done == HasPacket(old(Saved()) + rx[i..])
      ensures done ==>
                && used == 0
                && i <= next <= |rx|
                && old(used) + next - i == FirstSize(old(Saved()) + rx[i..])
                && dispatched == old(dispatched) + [First(old(Saved()) + rx[i..])]
      ensures !done ==> Saved() == old(Saved()) + rx[i..] && dispatched == old(dispatched)
      ensures buf.Length == Grown(old(buf.Length), FirstSize(old(Saved())))
    {
      hide Decode, Stuck, Parse, First, LengthKnown;
      ghost var w := Saved() + rx[i..];
      KnownStable(Saved(), rx[i..]);
      KnownNotStuck(Saved(), rx[i..]);
      var total := 1 + d.count + d.value;
      next, done := Fill(rx, i, total);
      if done {
        FirstIs(w, Saved());
        dispatched := dispatched + [Packet(buf[0], buf[..total][1 + d.count..])];
        used := 0;
      }
    }

    /** Reads the length field, from `rx[start..]` as far as it is not saved yet, and then
        completes the packet or saves the rest of the chunk. */
    method Complete(rx: seq<byte>, start: nat) returns (i: nat, done: bool, fits: bool)
      requires 1 <= used == put <= buf.Length && start <= |rx| && MIN_CAPACITY <= buf.Length
      requires LengthKnown(Saved()) ==> used <= FirstSize(Saved())
      modifies this, buf
      ensures fits <==> !(Stuck(old(Saved()) + rx[start..]) && old(used + |rx| - start > buf.Length))
      ensures buf == old(buf) || fresh(buf)
      ensures !fits ==> dispatched == old(dispatched)
      ensures fits ==> Valid() && done == HasPacket(old(Saved()) + rx[start..])
      ensures fits && done ==>
                && used == 0
                && start <= i <= |rx|
                && old(used) + i - start == FirstSize(old(Saved()) + rx[start..])
                && dispatched == old(dispatched) + [First(old(Saved()) + rx[start..])]
      ensures fits && !done ==> Saved() == old(Saved()) + rx[start..] && dispatched == old(dispatched)
      ensures fits ==> buf.Length == KnownCapacity(old(Saved()) + rx[start..], old(buf.Length))
    {
      hide Decode, Stuck, Parse, First, FirstSize, LengthKnown, HasPacket;
      ghost var w := Saved() + rx[start..];
      var d;
      i, d, fits := CompleteLength(rx, start);
      if !fits {
        return i, false, false;
      }
      Rejoin(w, old(Saved()), rx, start, i);
      if d.Complete? {
        if i > start {
          JustKnown(Saved());
        }
        PrefixTells(w, used);
        KnownStable(Saved(), rx[i..]);
        i, done := FinishPacket(rx, i, d);
      } else {
        Unfinished(w);
        needed := 1;
        done := false;
      }
    }

    /** First phase of the receive callback, entered with a saved partial packet. Either the
        packet is completed by `rx[..i]` and dispatched, or the whole chunk is saved. */
    method Resume(rx: seq<byte>) returns (i: nat, done: bool, fits: bool)
      requires Valid() && used > 0
      modifies this, buf
      ensures fits <==> !(Stuck(old(Saved()) + rx) && old(used + |rx| > buf.Length))
      ensures buf == old(buf) || fresh(buf)
      ensures !fits ==> dispatched == old(dispatched)
      ensures fits ==> Valid() && done == HasPacket(old(Saved()) + rx)
      ensures fits && done ==>
                && used == 0
                && i <= |rx|
                && old(used) + i == FirstSize(old(Saved()) + rx)
                && dispatched == old(dispatched) + [First(old(Saved()) + rx)]
      ensures fits && !done ==> Saved() == old(Saved()) + rx && dispatched == old(dispatched)
      ensures fits ==> buf.Length == ResumeCapacity(old(Saved()), old(buf.Length), rx)
    {
      hide Decode, Stuck, Parse, First, FirstSize, LengthKnown, HasPacket;
      ghost var s := Saved();
      if needed > |rx| {
        SaveShort(rx);
        return 0, false, true;
      }
      var n := needed;
      if put + n > buf.Length {
        StuckForever(s, rx);
        return n, false, false;
      }
      NotPastEnd(s, rx);
      Append(rx[..n]);
      assert Saved() + rx[n..] == s + rx;
      i, done, fits := Complete(rx, n);
    }

    /** Looks at one packet of the chunk: the whole of it, or how many bytes it still misses. */
    method Next(rx: seq<byte>, ptr: nat) returns (p: Packet, size: nat, missing: nat)
      requires ptr < |rx|
      ensures ptr + size <= |rx|
      ensures size > 0 <==> HasPacket(rx[ptr..])
      ensures size > 0 ==> size == FirstSize(rx[ptr..]) && p == First(rx[ptr..])
      ensures size == 0 ==> missing == Missing(rx[ptr..])
    {
      ghost var w := rx[ptr..];
      p, size, missing := Packet(rx[ptr], []), 0, 1;
      if ptr + 1 == |rx| {
        UnknownLength(w);
        return;
      }
      assert w[1..] == rx[ptr + 1..];
      var d := DecodeLength(rx[ptr + 1..]);
      NeverBad(w[1..]);
      if d.Complete? {
        var total := 1 + d.count + d.value;
        if ptr + total > |rx| {
          missing := total - (|rx| - ptr);
        } else {
          p := p.(body := rx[ptr + 1 + d.count..ptr + total]);
          assert p.body == w[1 + d.count..total];
          size := total;
        }
      }
    }

    /** Second phase: dispatches every whole packet of `rx[start..]` straight from the chunk.
        Returns where the unfinished tail begins and how many bytes it still misses. */
    method Scan(rx: seq<byte>, start: nat) returns (ptr: nat, missing: nat)
      requires start <= |rx|
      modifies this`dispatched
      ensures start <= ptr <= |rx|
      ensures dispatched == old(dispatched) + Parse(rx[start..]).packets
      ensures rx[ptr..] == Parse(rx[start..]).rest
      ensures ptr < |rx| ==> missing == Missing(rx[ptr..])
    {
      hide Parse, HasPacket, First, FirstSize, Missing;
      ptr, missing := start, 0;
      while ptr < |rx|
        invariant start <= ptr <= |rx|
        invariant After(dispatched, rx[ptr..]) == After(old(dispatched), rx[start..])
      {
        var p, size;
        p, size, missing := Next(rx, ptr);
        if size == 0 {
          ParseNone(rx[ptr..]);
          return;
        }
        AfterPacket(dispatched, rx[ptr..]);
        assert rx[ptr..][size..] == rx[ptr + size..];
        dispatched := dispatched + [p];
        ptr := ptr + size;
      }
      assert rx[ptr..] == [];
      ParseEmpty();
    }

    /** Keeps the unfinished tail for the next callback, in a larger buffer if it needs one. */
    method SaveTail(tail: seq<byte>, missing: nat)
      requires MIN_CAPACITY <= buf.Length && used == 0
      requires !HasPacket(tail) && (tail != [] ==> missing == Missing(tail))
      modifies this, buf
      ensures Valid() && Saved() == tail && dispatched == old(dispatched)
      ensures buf == old(buf) || fresh(buf)
      ensures buf.Length == TailCapacity(tail, old(buf.Length))
    {
      if tail == [] {
        needed := 0;
        put := 0;
      } else {
        if |tail| + missing > buf.Length {
          Regrow(|tail| + missing + PADDING);
        } else {
          put := 0;
        }
        needed := missing;
        Append(tail);
        assert Saved() == tail;
      }
    }

    method ScanAndSave(rx: seq<byte>, start: nat)
      requires MIN_CAPACITY <= buf.Length && used == 0 && start <= |rx|
      modifies this, buf
      ensures Valid() && Saved() == Parse(rx[start..]).rest
      ensures dispatched == old(dispatched) + Parse(rx[start..]).packets
      ensures buf == old(buf) || fresh(buf)
      ensures buf.Length == TailCapacity(Parse(rx[start..]).rest, old(buf.Length))
    {
      hide Parse, HasPacket, Missing, TailCapacity;
      var ptr, missing := Scan(rx, start);
      SaveTail(rx[ptr..], missing);
    }

    /** The receive callback. For every saved state and every chunk: the packets dispatched
        and the bytes saved are those of one pass over the saved bytes and the chunk together.
        `fits` is false exactly when the source would write past the end of the buffer. */
    method DoData(rx: seq<byte>) returns (fits: bool)
      requires Valid()
      modifies this, buf
      ensures fits <==> !old(Overruns(Saved(), buf.Length, rx))
      ensures buf == old(buf) || fresh(buf)
      ensures dispatched == old(dispatched) + Parse(old(Saved()) + rx).packets
      ensures fits ==> Valid()
      ensures fits ==> Saved() == Parse(old(Saved()) + rx).rest
      ensures fits ==> buf.Length == CapacityAfter(old(Saved()), old(buf.Length), rx)
    {
      ghost var w := Saved() + rx;
      hide Parse, HasPacket, FirstSize, First, Stuck, Missing, LengthKnown, TailCapacity, ResumeCapacity;
      fits := true;
      var i := 0;
      if used > 0 {
        var done;
        i, done, fits := Resume(rx);
        if !fits {
          StuckForever(w, []);
          assert w + [] == w;
          return;
        }
        if !done {
          ParseNone(w);
          return;
        }
        AfterPacket(old(dispatched), w);
        assert w[FirstSize(w)..] == rx[i..];
      } else {
        assert w == rx[i..];
      }
      assert After(dispatched, rx[i..]) == After(old(dispatched), w);
      ScanAndSave(rx, i);
    }

    lemma SavedUnfinished()
      requires Valid()
      ensures !HasPacket(Saved())
    {
    }

    /** A whole run of receive callbacks. However the stream is cut, the packets of one pass
        are dispatched and its tail is kept; what a server sent is dispatched up to the first
        packet whose length field needs a fourth byte. No write passes the end of the buffer
        unless there is such a packet. */
    method ReceiveAll(chunks: seq<seq<byte>>) returns (fits: bool)
      requires Valid()
      modifies this, buf
      ensures fits <==> old(FitsAll(Saved(), buf.Length, chunks))
      ensures old(!Stuck(Parse(Saved() + Flatten(chunks)).rest)) ==> fits
      ensures dispatched == old(dispatched) + Parse(old(Saved()) + Flatten(chunks)).packets
      ensures fits ==> Valid() && Saved() == Parse(old(Saved()) + Flatten(chunks)).rest
      ensures old(Saved()) == [] ==>
                forall ps :: WireAll(ps) == Flatten(chunks) ==> dispatched == old(dispatched) + BeforeLarge(ps)
    {
      hide Parse, HasPacket, Stuck, Missing, After, Flatten, WireAll, BeforeLarge, CapacityAfter;
      SavedUnfinished();
      ghost var stream := Saved() + Flatten(chunks);
      ghost var goal := After(dispatched, stream);
      AfterIs(dispatched, stream);
      FitsUnlessStuck(Saved(), buf.Length, chunks);
      assert chunks[0..] == chunks;
      fits := true;
      var k := 0;
      while k < |chunks|
        invariant k <= |chunks| && fits && Valid() && !HasPacket(Saved())
        invariant buf == old(buf) || fresh(buf)
        invariant After(dispatched, Saved() + Flatten(chunks[k..])) == goal
        invariant FitsAll(Saved(), buf.Length, chunks[k..]) == old(FitsAll(Saved(), buf.Length, chunks))
      {
        AfterChunk(dispatched, Saved(), chunks, k);
        NextFits(Saved(), buf.Length, chunks, k);
        fits := DoData(chunks[k]);
        if !fits {
          break;
        }
        k := k + 1;
      }
      if fits {
        AfterLast(dispatched, Saved(), chunks);
      }
      Sent(stream, chunks);
    }
  }
}
