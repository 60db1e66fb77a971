/** The "remaining length" field of an MQTT packet: a variable byte integer, seven value
    bits a byte, low group first, the top bit saying that another byte follows. */
module LengthCodec {

  newtype byte = x: int | 0 <= x < 256

  // MQTT_MAX_NO_OF_REMAINING_LEN_BYTES
  const MAX_LENGTH_BYTES := 4

  // The first value whose encoding needs a fourth byte.
  const THREE_BYTE_LIMIT := 0x20_0000

  /** What the decoder reports: PARTIAL_MQTT_MSG, BAD_MQTT_MSG, or a byte count and a value. */
  datatype Decoded = Partial | Bad | Complete(count: nat, value: nat)

  predicate Continues(b: byte) {
    b >= 128
  }

  function LowBits(b: byte): (r: nat) {
    b as int % 128
  }

  /** The encoder of section 1.5.5 of MQTT Version 5.0. */
  function Encode(v: nat): (r: seq<byte>)
    ensures r != []
  {
    if v < 128 then [v as byte] else [(v % 128 + 128) as byte] + Encode(v / 128)
  }

  /** The number denoted by the first n bytes, low group first. */
  function Value(buf: seq<byte>, n: nat): nat
    requires n <= 3 && n <= |buf|
  {
    (if n > 0 then LowBits(buf[0]) else 0)
    + (if n > 1 then 128 * LowBits(buf[1]) else 0)
    + (if n > 2 then 16384 * LowBits(buf[2]) else 0)
  }

  /** What a buffer decodes to: a field that ends within its first three bytes, or nothing yet. */
  function Decode(buf: seq<byte>): (r: Decoded)
    ensures r.Complete? ==> 1 <= r.count <= |buf| && r.count <= 3
  {
    if |buf| > 0 && !Continues(buf[0]) then Complete(1, Value(buf, 1))
    else if |buf| > 1 && !Continues(buf[1]) then Complete(2, Value(buf, 2))
    else if |buf| > 2 && !Continues(buf[2]) then Complete(3, Value(buf, 3))
    else Partial
  }

  /** The decoding loop. Its guard counts before it reads, so the fourth byte is never read. */
  method DecodeLength(buf: seq<byte>) returns (r: Decoded)
    ensures r == Decode(buf)
  {
    var multiplier, ctr, len, ptr := 1, 0, 0, 0;
    while ptr < |buf|
      invariant ctr == ptr <= |buf| && ptr < MAX_LENGTH_BYTES
      invariant forall k :: 0 <= k < ptr ==> Continues(buf[k])
      invariant len == Value(buf, ptr)
      invariant ptr < 3 ==> multiplier == [1, 128, 16384][ptr]
    {
      ctr := ctr + 1;
      if ctr >= MAX_LENGTH_BYTES {
        break;
      }
      var c := buf[ptr];
      ptr := ptr + 1;
      len := len + LowBits(c) * multiplier;
      if !Continues(c) {
        return Complete(ctr, len);
      }
      multiplier := multiplier * 128;
    }
    r := if ptr < MAX_LENGTH_BYTES then Partial else Bad;
  }

  /** An encoding ends with its only non-continuation byte. */
  lemma {:induction false} EncodeShape(v: nat)
    ensures var e := Encode(v);
            (forall k :: 0 <= k < |e| - 1 ==> Continues(e[k])) && !Continues(e[|e| - 1])
  {
    if v >= 128 {
      EncodeShape(v / 128);
      assert Encode(v)[1..] == Encode(v / 128);
    }
  }

  /** It takes at most three bytes exactly for the values below 2^21, and then denotes them. */
  lemma EncodeValue(v: nat)
    ensures |Encode(v)| <= 3 <==> v < THREE_BYTE_LIMIT
    ensures v < THREE_BYTE_LIMIT ==> Value(Encode(v), |Encode(v)|) == v
  {
    var v1, v2 := v / 128, v / 128 / 128;
    assert v >= 128 ==> Encode(v) == [(v % 128 + 128) as byte] + Encode(v1);
    assert v1 >= 128 ==> Encode(v1) == [(v1 % 128 + 128) as byte] + Encode(v2);
    assert v2 >= 128 ==> |Encode(v2)| >= 2;
  }

  /** Whatever follows an encoded length, the decoder returns it and its size exactly when it
      is below 2^21; a longer field is reported as incomplete for ever. */
  lemma RoundTrip(v: nat, rest: seq<byte>)
    ensures Decode(Encode(v) + rest) ==
            if v < THREE_BYTE_LIMIT then Complete(|Encode(v)|, v) else Partial
  {
    EncodeShape(v);
    EncodeValue(v);
  }

  /** Every proper prefix of an encoding is incomplete. */
  lemma PrefixIsPartial(v: nat, k: nat)
    requires k < |Encode(v)|
    ensures Decode(Encode(v)[..k]) == Partial
  {
    EncodeShape(v);
  }

  /** More bytes never change a decode that succeeded. */
  lemma DecodeStable(buf: seq<byte>, more: seq<byte>)
    requires Decode(buf).Complete?
    ensures Decode(buf + more) == Decode(buf)
  {
  }

  /** The decoder never answers BAD_MQTT_MSG; it answers PARTIAL exactly while no byte of the
      first three ends the field. */
  lemma NeverBad(buf: seq<byte>)
    ensures Decode(buf) != Bad
    ensures Decode(buf).Partial? <==> forall k :: 0 <= k < |buf| && k < 3 ==> Continues(buf[k])
  {
  }

  lemma EncodeTwo(b0: byte, b1: byte)
    requires Continues(b0) && !Continues(b1)
    ensures Encode(LowBits(b0) + 128 * LowBits(b1)) == [b0, b1] <==> b1 != 0
  {
  }

  lemma EncodeThree(b0: byte, b1: byte, b2: byte)
    requires Continues(b0) && Continues(b1) && !Continues(b2)
    ensures Encode(LowBits(b0) + 128 * LowBits(b1) + 16384 * LowBits(b2)) == [b0, b1, b2] <==> b2 != 0
  {
    var high := LowBits(b1) + 128 * LowBits(b2);
    var v := LowBits(b0) + 128 * high;
    assert v / 128 == high && v % 128 == LowBits(b0);
    EncodeTwo(b1, b2);
    if b2 != 0 {
      assert Encode(v) == [b0] + [b1, b2];
    } else {
      assert high < 128;
    }
  }

  /** Decoding inverts encoding on the other side too: the bytes taken are the encoding of the
      value returned exactly when the field carries no superfluous final zero byte. */
  lemma DecodeThenEncode(buf: seq<byte>)
    requires Decode(buf).Complete?
    ensures var d := Decode(buf);
            Encode(d.value) == buf[..d.count] <==> d.count == 1 || buf[d.count - 1] != 0
  {
    var d := Decode(buf);
    if d.count == 1 {
      assert buf[..1] == [buf[0]];
    } else if d.count == 2 {
      assert buf[..2] == [buf[0], buf[1]];
      EncodeTwo(buf[0], buf[1]);
    } else {
      assert buf[..3] == [buf[0], buf[1], buf[2]];
      EncodeThree(buf[0], buf[1], buf[2]);
    }
  }
}
