/** One-pass parsing of an MQTT byte stream: the reference against which the incremental
    receiver is proved. */
module Framing {
  import opened LengthCodec

  /** What is handed to the packet handlers: the fixed header byte and the bytes after the
      remaining length field. */
  datatype Packet = Packet(header: byte, body: seq<byte>)

  /** The packets found in a stream and the bytes after the last whole one. */
  datatype Parsed = Parsed(packets: seq<Packet>, rest: seq<byte>)

  /** The packet as section 2.1 of MQTT Version 5.0 lays it out on the wire. */
  function Wire(p: Packet): (r: seq<byte>) {
    [p.header] + Encode(|p.body|) + p.body
  }

  function WireAll(ps: seq<Packet>): seq<byte> {
    if ps == [] then [] else Wire(ps[0]) + WireAll(ps[1..])
  }

  function Flatten(chunks: seq<seq<byte>>): seq<byte> {
    if chunks == [] then [] else chunks[0] + Flatten(chunks[1..])
  }

  /** True once the length field of the first packet can be read. */
  predicate LengthKnown(s: seq<byte>) {
    s != [] && Decode(s[1..]).Complete?
  }

  /** The size on the wire of the first packet. */
  function FirstSize(s: seq<byte>): (n: nat)
    requires LengthKnown(s)
    ensures n >= 2
  {
    var d := Decode(s[1..]);
    1 + d.count + d.value
  }

  predicate HasPacket(s: seq<byte>) {
    LengthKnown(s) && FirstSize(s) <= |s|
  }

  function First(s: seq<byte>): Packet
    requires HasPacket(s)
  {
    Packet(s[0], s[1 + Decode(s[1..]).count..FirstSize(s)])
  }

  function Parse(s: seq<byte>): (r: Parsed)
    ensures !HasPacket(r.rest)
    ensures |r.rest| <= |s|
    decreases |s|
  {
    if !HasPacket(s) then Parsed([], s)
    else
      var tail := Parse(s[FirstSize(s)..]);
      Parsed([First(s)] + tail.packets, tail.rest)
  }

  /** A length field of which three bytes have arrived and none of them was the last. */
  predicate Stuck(s: seq<byte>) {
    |s| >= 4 && Continues(s[1]) && Continues(s[2]) && Continues(s[3])
  }

  /** The bytes still missing, as far as the bytes seen so far can tell. */
  function Missing(s: seq<byte>): (n: nat)
    requires s != [] && !HasPacket(s)
    ensures n > 0
  {
    if LengthKnown(s) then FirstSize(s) - |s| else 1
  }

  // ----- how a prefix determines the parse ----------------------------------------------

  lemma KnownStable(s: seq<byte>, more: seq<byte>)
    requires LengthKnown(s)
    ensures LengthKnown(s + more) && FirstSize(s + more) == FirstSize(s)
    ensures Decode((s + more)[1..]) == Decode(s[1..])
  {
    assert (s + more)[1..] == s[1..] + more;
    DecodeStable(s[1..], more);
  }

  lemma FirstStable(s: seq<byte>, more: seq<byte>)
    requires HasPacket(s)
    ensures HasPacket(s + more) && First(s + more) == First(s)
    ensures (s + more)[FirstSize(s)..] == s[FirstSize(s)..] + more
  {
    KnownStable(s, more);
  }

  /** The field is unreadable exactly while the first four bytes contain no ending one. */
  lemma UnknownLength(s: seq<byte>)
    requires s != []
    ensures !LengthKnown(s) <==> |s| <= 1 || Stuck(s) || (|s| <= 3 && forall k :: 1 <= k < |s| ==> Continues(s[k]))
  {
  }

  /** A stuck length field stays stuck, and yields no packet, whatever arrives after it. */
  lemma StuckForever(s: seq<byte>, more: seq<byte>)
    requires Stuck(s)
    ensures Stuck(s + more)
    ensures Parse(s + more) == Parsed([], s + more)
  {
  }

  lemma ParseStep(s: seq<byte>)
    requires HasPacket(s)
    ensures var tail := Parse(s[FirstSize(s)..]);
            Parse(s) == Parsed([First(s)] + tail.packets, tail.rest)
  {
  }

  lemma ParseNone(s: seq<byte>)
    requires !HasPacket(s)
    ensures Parse(s) == Parsed([], s)
  {
  }

  lemma ParseEmpty()
    ensures Parse([]) == Parsed([], [])
  {
  }

  /** One parse after another: the packets of both, and the bytes the second leaves. */
  function Then(first: Parsed, second: Parsed): Parsed {
    Parsed(first.packets + second.packets, second.rest)
  }

  lemma ThenStep(p: Packet, first: Parsed, second: Parsed)
    ensures Then(Parsed([p] + first.packets, first.rest), second)
         == Parsed([p] + Then(first, second).packets, second.rest)
  {
  }

  /** Parsing may be interrupted anywhere: what is left is parsed together with what follows. */
  lemma {:induction false} ParseAppend(a: seq<byte>, b: seq<byte>)
    ensures Parse(a + b) == Then(Parse(a), Parse(Parse(a).rest + b))
    decreases |a|
  {
    if HasPacket(a) {
      FirstStable(a, b);
      KnownStable(a, b);
      var n := FirstSize(a);
      var tail := Parse(a[n..]);
      var second := Parse(tail.rest + b);
      calc {
        Parse(a + b);
      ==  { ParseStep(a + b); }
        Parsed([First(a)] + Parse(a[n..] + b).packets, Parse(a[n..] + b).rest);
      ==  { ParseAppend(a[n..], b); }
        Parsed([First(a)] + Then(tail, second).packets, second.rest);
      ==  { ThenStep(First(a), tail, second); }
        Then(Parsed([First(a)] + tail.packets, tail.rest), second);
      ==  { ParseStep(a); }
        Then(Parse(a), Parse(Parse(a).rest + b));
      }
    } else {
      assert Parse(a) == Parsed([], a);
    }
  }

  /** Feeding a stream chunk by chunk, keeping the unparsed bytes in between. */
  function Feed(saved: seq<byte>, chunks: seq<seq<byte>>): Parsed
    decreases |chunks|
  {
    if chunks == [] then Parsed([], saved)
    else
      var now := Parse(saved + chunks[0]);
      Then(now, Feed(now.rest, chunks[1..]))
  }

  /** Chunk independence: for every stream and every way of cutting it, feeding the pieces
      finds the packets, and leaves the bytes, of one pass over the whole. */
  lemma {:induction false} ChunkIndependence(saved: seq<byte>, chunks: seq<seq<byte>>)
    requires !HasPacket(saved)
    ensures Feed(saved, chunks) == Parse(saved + Flatten(chunks))
    decreases |chunks|
  {
    hide HasPacket;
    if chunks == [] {
      assert saved + [] == saved;
    } else {
      var now := Parse(saved + chunks[0]);
      ChunkIndependence(now.rest, chunks[1..]);
      ParseAppend(saved + chunks[0], Flatten(chunks[1..]));
      assert saved + Flatten(chunks) == saved + chunks[0] + Flatten(chunks[1..]);
    }
  }

  // ----- what is parsed from what was sent ------------------------------------------------

  /** A packet is found again when its length fits three bytes; otherwise its length field is
      stuck. */
  lemma WireParses(p: Packet, more: seq<byte>)
    ensures var s := Wire(p) + more;
            if |p.body| < THREE_BYTE_LIMIT
            then HasPacket(s) && First(s) == p && s[FirstSize(s)..] == more
            else Stuck(s)
  {
    var s, e := Wire(p) + more, Encode(|p.body|);
    assert s[1..] == e + (p.body + more);
    RoundTrip(|p.body|, p.body + more);
    EncodeShape(|p.body|);
    EncodeValue(|p.body|);
    if |p.body| < THREE_BYTE_LIMIT {
      assert FirstSize(s) == |Wire(p)|;
      assert s[1 + |e|..FirstSize(s)] == p.body;
      assert s[|Wire(p)|..] == more;
    } else {
      assert s[1] == e[0] && s[2] == e[1] && s[3] == e[2];
    }
  }

  predicate Small(p: Packet) {
    |p.body| < THREE_BYTE_LIMIT
  }

  /** The packets before the first whose length needs a fourth byte. */
  function BeforeLarge(ps: seq<Packet>): (r: seq<Packet>)
    ensures r <= ps
    ensures r == ps <==> forall p :: p in ps ==> Small(p)
  {
    if ps == [] || !Small(ps[0]) then []
    else
      var r := BeforeLarge(ps[1..]);
      assert ps == [ps[0]] + ps[1..];
      [ps[0]] + r
  }

  lemma {:induction false} WireAllParses(ps: seq<Packet>)
    ensures Parse(WireAll(ps)).packets == BeforeLarge(ps)
    ensures (forall p :: p in ps ==> Small(p)) ==> Parse(WireAll(ps)).rest == []
  {
    if ps == [] {
    } else {
      WireParses(ps[0], WireAll(ps[1..]));
      if Small(ps[0]) {
        WireAllParses(ps[1..]);
      } else {
        StuckForever(WireAll(ps), []);
        assert WireAll(ps) + [] == WireAll(ps);
      }
    }
  }

  /** End to end: whatever packets a server sends and however the network cuts them, what is
      found is the list sent up to the first packet of 2^21 bytes or more; so all of them, with
      nothing left over, exactly when no packet is that large. */
  lemma DeliveredIffSmall(ps: seq<Packet>, chunks: seq<seq<byte>>)
    requires Flatten(chunks) == WireAll(ps)
    ensures Feed([], chunks) == Parse([] + Flatten(chunks))
    ensures Feed([], chunks).packets == BeforeLarge(ps)
    ensures Feed([], chunks) == Parsed(ps, []) <==> forall p :: p in ps ==> Small(p)
  {
    ChunkIndependence([], chunks);
    assert [] + Flatten(chunks) == Flatten(chunks);
    WireAllParses(ps);
  }

  // ----- facts the incremental receiver rests on ------------------------------------------

  lemma KnownNotStuck(s: seq<byte>, more: seq<byte>)
    requires LengthKnown(s)
    ensures !Stuck(s + more)
  {
  }

  /** Too few bytes for what is known to be missing: still no packet, and the count of
      missing bytes just goes down. */
  lemma TooShort(s: seq<byte>, rx: seq<byte>)
    requires s != [] && !HasPacket(s) && |rx| < Missing(s)
    ensures !HasPacket(s + rx)
    ensures Missing(s + rx) == Missing(s) - |rx|
    ensures LengthKnown(s) ==> !Stuck(s + rx)
    ensures !LengthKnown(s) ==> rx == []
  {
    if LengthKnown(s) {
      KnownStable(s, rx);
      KnownNotStuck(s, rx);
    } else {
      assert s + rx == s;
    }
  }

  /** A length field readable only now ends with the last byte. */
  lemma JustKnown(s: seq<byte>)
    requires LengthKnown(s) && |s| >= 2 && !LengthKnown(s[..|s| - 1])
    ensures |s| <= FirstSize(s)
  {
  }

  /** The missing count never asks for more bytes than the packet has. */
  lemma NotPastEnd(s: seq<byte>, rx: seq<byte>)
    requires s != [] && !HasPacket(s) && Missing(s) <= |rx|
    ensures var taken := s + rx[..Missing(s)]; LengthKnown(taken) ==> |taken| <= FirstSize(taken)
  {
    var taken := s + rx[..Missing(s)];
    if LengthKnown(s) {
      KnownStable(s, rx[..Missing(s)]);
    } else if LengthKnown(taken) {
      assert taken[..|taken| - 1] == s;
      JustKnown(taken);
    }
  }

  /** A prefix whose length field can be read rules out a stuck one, and a prefix of four
      bytes or more whose field cannot be read shows a stuck one. */
  lemma PrefixTells(w: seq<byte>, k: nat)
    requires 1 <= k <= |w|
    ensures LengthKnown(w[..k]) ==> !Stuck(w)
    ensures k >= 4 && !LengthKnown(w[..k]) ==> Stuck(w)
  {
    UnknownLength(w[..k]);
    if LengthKnown(w[..k]) {
      KnownNotStuck(w[..k], w[k..]);
      assert w[..k] + w[k..] == w;
    }
  }

  /** One more byte of a chunk, as a prefix of all there is. */
  lemma OneMore(s: seq<byte>, rx: seq<byte>, i: nat)
    requires i < |rx|
    ensures (s + rx)[..|s| + i] + [rx[i]] == (s + rx)[..|s| + i + 1]
  {
  }

  lemma FirstIs(w: seq<byte>, whole: seq<byte>)
    requires HasPacket(w) && whole == w[..FirstSize(w)]
    ensures First(w) == Packet(whole[0], whole[1 + Decode(w[1..]).count..])
  {
  }

  /** What will have been dispatched, and kept, once the bytes to come are parsed too. */
  ghost function After(done: seq<Packet>, toCome: seq<byte>): Parsed {
    Then(Parsed(done, []), Parse(toCome))
  }

  lemma AfterIs(done: seq<Packet>, s: seq<byte>)
    ensures After(done, s) == Parsed(done + Parse(s).packets, Parse(s).rest)
  {
  }

  lemma AfterPacket(done: seq<Packet>, s: seq<byte>)
    requires HasPacket(s)
    ensures After(done, s) == After(done + [First(s)], s[FirstSize(s)..])
  {
    ParseStep(s);
    var tail := Parse(s[FirstSize(s)..]);
    assert done + ([First(s)] + tail.packets) == done + [First(s)] + tail.packets;
  }

  lemma AfterChunk(done: seq<Packet>, saved: seq<byte>, chunks: seq<seq<byte>>, k: nat)
    requires k < |chunks|
    ensures var now := Parse(saved + chunks[k]);
            After(done, saved + Flatten(chunks[k..])) == After(done + now.packets, now.rest + Flatten(chunks[k + 1..]))
    ensures Stuck(saved + chunks[k]) ==>
              Parse(saved + chunks[k]).packets == [] && After(done, saved + Flatten(chunks[k..])).packets == done
  {
    hide HasPacket, Parse;
    var s, later := saved + chunks[k], Flatten(chunks[k + 1..]);
    assert saved + Flatten(chunks[k..]) == s + later;
    ParseAppend(s, later);
    var now, second := Parse(s), Parse(Parse(s).rest + later);
    assert done + (now.packets + second.packets) == done + now.packets + second.packets;
    if Stuck(s) {
      StuckForever(s, later);
      StuckForever(s, []);
      assert s + [] == s;
    }
  }

  lemma AfterLast(done: seq<Packet>, saved: seq<byte>, chunks: seq<seq<byte>>)
    requires saved != [] ==> !HasPacket(saved)
    ensures After(done, saved + Flatten(chunks[|chunks|..])) == Parsed(done, saved)
  {
  }
}
