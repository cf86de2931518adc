/** The Orion frame `[address] [length] [payload...] [crc]` and its XOR cipher, on values. */
module Frames {
  import opened Bytes
  import opened Crc

  const ENCRYPT_OFFSET: byte := 0x80
  const MAX_ADDRESS: byte := 127
  const MAX_PAYLOAD := 252
  const MAX_PACKET := 256

  /** The length byte counts the payload and the CRC byte. */
  function Frame(address: byte, payload: seq<byte>): (f: seq<byte>)
    requires |payload| <= MAX_PAYLOAD
    ensures |f| == 3 + |payload|
  {
    var body := [address, ToByte(|payload| + 1)] + payload;
    body + [Crc8(body)]
  }

  /** `[global ^ message] [text ^ message...] [message...]`, the last part repeated `pad` times. */
  function Encipher(globalKey: byte, messageKey: byte, text: seq<byte>, pad: nat): (p: seq<byte>)
    ensures |p| == 1 + |text| + pad
  {
    [Xor(globalKey, messageKey)] + Mask(text, messageKey) + Repeat(messageKey, pad)
  }

  /** All but the first byte is masked with the message key. */
  function Decipher(payload: seq<byte>, messageKey: byte): (p: seq<byte>)
    ensures |p| == |payload|
  {
    if payload == [] then [] else [payload[0]] + Mask(payload[1..], messageKey)
  }

  const REQUEST_PAD := 3
  const REPLY_PAD := 1

  function EncryptedRequest(address: byte, cmd: seq<byte>, globalKey: byte, messageKey: byte): seq<byte>
    requires |cmd| <= MAX_PAYLOAD - 4
  {
    Frame(address + ENCRYPT_OFFSET, Encipher(globalKey, messageKey, cmd, REQUEST_PAD))
  }

  function EncryptedReply(address: byte, text: seq<byte>, globalKey: byte, messageKey: byte): seq<byte>
    requires |text| <= MAX_PAYLOAD - 2
  {
    Frame(address + ENCRYPT_OFFSET, Encipher(globalKey, messageKey, text, REPLY_PAD))
  }

  // --- Parsing ---

  datatype Packet = Packet(address: byte, length: byte, payload: seq<byte>, crc: byte, encrypted: bool)

  function Serialize(p: Packet): seq<byte> {
    [p.address, p.length] + p.payload + [p.crc]
  }

  /**
   * Where `orion_packet_parse` is defined: beyond the first two tests, a length byte of 0 makes it copy without
   * bound, and a complete frame of length 254 or 255 overruns the packet structure.
   */
  predicate Parsable(buf: seq<byte>) {
    |buf| >= 3 ==> 1 <= ToNat(buf[1]) && (ToNat(buf[1]) <= MAX_PAYLOAD + 1 || |buf| < 2 + ToNat(buf[1]))
  }

  function Parse(buf: seq<byte>): Option<Packet>
    requires Parsable(buf)
  {
    if |buf| < 3 then None
    else
      var n := ToNat(buf[1]) - 1;
      if 3 + n > |buf| || Crc8(buf[..2 + n]) != buf[2 + n] then None
      else Some(Packet(buf[0], buf[1], buf[2..2 + n], buf[2 + n], buf[0] > MAX_ADDRESS))
  }

  /** Where the receiving half of `orion_transact` is defined, on the bytes that arrive before its timeout. */
  predicate Receivable(rx: seq<byte>) {
    |rx| >= 2 && |rx| >= 2 + ToNat(rx[1]) ==> Parsable(rx[..2 + ToNat(rx[1])])
  }

  /** Two bytes, then as many as the second announces, then parse; anything short is a failure. */
  function Received(rx: seq<byte>): Option<Packet>
    requires Receivable(rx)
  {
    if |rx| < 2 || |rx| < 2 + ToNat(rx[1]) then None else Parse(rx[..2 + ToNat(rx[1])])
  }

  /** At most the first `n` bytes, and never all of them. */
  function CutShort(bytes: seq<byte>, n: nat): seq<byte> {
    if bytes == [] then [] else bytes[..if n < |bytes| then n else |bytes| - 1]
  }

  /** A whole frame is received as it parses; a frame cut short anywhere is not received. */
  lemma ReceivedWholeOrNot(f: seq<byte>, n: nat)
    requires WellFormed(f)
    ensures Parsable(f) && Receivable(f) && Received(f) == Parse(f)
    ensures Receivable(CutShort(f, n)) && Received(CutShort(f, n)) == None
  {
    hide ToNat, Parse;
    assert f[..|f|] == f;
  }

  function Decrypt(p: Packet, messageKey: byte): Packet {
    if p.encrypted then p.(payload := Decipher(p.payload, messageKey)) else p
  }

  /** A frame of exactly the size its length byte announces, within the packet structure. */
  predicate WellFormed(f: seq<byte>) {
    |f| >= 3 && 1 <= ToNat(f[1]) <= MAX_PAYLOAD + 1 && |f| == 2 + ToNat(f[1])
  }

  lemma FrameShape(address: byte, payload: seq<byte>)
    requires |payload| <= MAX_PAYLOAD
    ensures var f := Frame(address, payload);
            WellFormed(f) && f[0] == address && ToNat(f[1]) == |payload| + 1 && f[2..|f| - 1] == payload
    ensures var f := Frame(address, payload); Crc8(f[..|f| - 1]) == f[|f| - 1]
  {
    hide Crc8, ToNat, ToByte;
    var f := Frame(address, payload);
    assert f[..|f| - 1] == [address, ToByte(|payload| + 1)] + payload;
  }

  /** Parsing gives back what was framed, whatever follows it in the buffer. */
  lemma ParseOfFrame(address: byte, payload: seq<byte>, rest: seq<byte>)
    requires |payload| <= MAX_PAYLOAD
    ensures var f := Frame(address, payload);
            Parsable(f + rest) &&
            Parse(f + rest) == Some(Packet(address, ToByte(|payload| + 1), payload, f[|f| - 1], address > MAX_ADDRESS))
  {
    hide Crc8, ToNat, ToByte;
    FrameShape(address, payload);
    var f := Frame(address, payload);
    assert (f + rest)[..2 + |payload|] == f[..|f| - 1];
    assert (f + rest)[2..2 + |payload|] == f[2..|f| - 1];
  }

  /** Whatever parses is the frame of its address and payload, and serializing the packet restores it. */
  lemma FrameOfParse(buf: seq<byte>)
    requires Parsable(buf) && Parse(buf).Some?
    ensures var p := Parse(buf).value;
            |p.payload| <= MAX_PAYLOAD && Serialize(p) == Frame(p.address, p.payload) == buf[..3 + |p.payload|]
  {
    hide Crc8, ToNat, ToByte;
    var p := Parse(buf).value;
    var n := |p.payload|;
    ToByteOfToNat(buf[1]);
    assert ToByte(n + 1) == p.length;
    assert buf[..2 + n] == [p.address, p.length] + p.payload;
    assert buf[..3 + n] == buf[..2 + n] + [buf[2 + n]];
  }

  /** A frame is accepted exactly when the checksum over all of it, CRC byte included, is zero. */
  lemma AcceptedIffZero(f: seq<byte>)
    requires WellFormed(f)
    ensures Parse(f).Some? <==> Crc8(f) == 0
  {
    hide Crc8, ToNat, ToByte;
    var n := |f| - 1;
    Crc8Sealed(f[..n], f[n]);
    assert f == f[..n] + [f[n]];
  }

  /** A zero length byte never passes the CRC test at a non-zero address, so `length - 1` cannot wrap. */
  lemma NoZeroLengthFrame(f: seq<byte>)
    requires |f| >= 2 && f[0] != 0 && f[1] == 0
    ensures Crc8(f[..1]) != f[1]
  {
    hide Step;
    assert f[..1] == [] + [f[0]];
    Crc8Last([], f[0]);
    StepZero(0, f[0]);
  }

  /** Any odd number of bit flips that spares the length byte makes an accepted frame rejected. */
  lemma OddFlipsRejected(f: seq<byte>, g: seq<byte>)
    requires WellFormed(f) && Parse(f).Some?
    requires |g| == |f| && g[1] == f[1]
    requires BitDistance(f, g) % 2 == 1
    ensures Parse(g) == None
  {
    hide Crc8, BitDistance;
    AcceptedIffZero(f);
    AcceptedIffZero(g);
    OddFlipsChangeCrc8(f, g);
  }

  /** A change in one byte other than the length is caught unless the runs meet in the colliding slots. */
  lemma SingleByteRejected(f: seq<byte>, g: seq<byte>, at: nat)
    requires WellFormed(f) && Parse(f).Some?
    requires |g| == |f| && at < |f| && at != 1 && f[at] != g[at]
    requires forall i :: 0 <= i < |f| && i != at ==> f[i] == g[i]
    ensures Parse(g).Some? <==> exists n: nat :: at <= n < |f| && CollideAt(f, g, n)
  {
    hide Crc8, CollideAt;
    AcceptedIffZero(f);
    AcceptedIffZero(g);
    SingleByteChange(f, g, at);
  }

  // --- The cipher ---

  lemma MaskTwice(s: seq<byte>, key: byte)
    ensures Mask(Mask(s, key), key) == s
  {
    hide Xor;
    forall i | 0 <= i < |s|
      ensures Mask(Mask(s, key), key)[i] == s[i]
    {
      XorTwice(s[i], key);
    }
  }

  lemma MaskConcat(s: seq<byte>, t: seq<byte>, key: byte)
    ensures Mask(s + t, key) == Mask(s, key) + Mask(t, key)
  {
    hide Xor;
  }

  lemma MaskRepeat(key: byte, n: nat)
    ensures Mask(Repeat(key, n), key) == Repeat(0, n)
  {
    hide Xor;
    XorTwice(key, key);
  }

  /** Deciphering yields the key byte, the text and as many zeros as there was padding. */
  lemma DecipherOfEncipher(globalKey: byte, messageKey: byte, text: seq<byte>, pad: nat)
    ensures Decipher(Encipher(globalKey, messageKey, text, pad), messageKey)
         == [Xor(globalKey, messageKey)] + text + Repeat(0, pad)
  {
    hide Mask, Repeat, Xor;
    var e := Encipher(globalKey, messageKey, text, pad);
    var masked, padding := Mask(text, messageKey), Repeat(messageKey, pad);
    assert e[1..] == masked + padding;
    MaskConcat(masked, padding, messageKey);
    MaskRepeat(messageKey, pad);
    MaskTwice(text, messageKey);
    assert [e[0]] + (text + Repeat(0, pad)) == [e[0]] + text + Repeat(0, pad);
  }

  /** A buffer filled as the builders fill it holds the cipher. */
  lemma EncipherIs(globalKey: byte, messageKey: byte, text: seq<byte>, pad: nat, p: seq<byte>)
    requires |p| == 1 + |text| + pad && p[0] == Xor(globalKey, messageKey)
    requires forall j :: 0 <= j < |text| ==> p[1 + j] == Xor(text[j], messageKey)
    requires forall j :: 1 + |text| <= j < |p| ==> p[j] == messageKey
    ensures p == Encipher(globalKey, messageKey, text, pad)
  {
    hide Xor, Mask, Repeat;
    var e := Encipher(globalKey, messageKey, text, pad);
    assert |e| == |p|;
    forall j | 0 <= j < |p|
      ensures p[j] == e[j]
    {
      if 1 <= j <= |text| {
        assert p[1 + (j - 1)] == Xor(text[j - 1], messageKey);
      }
    }
  }

  /** A buffer filled as the decryption loops fill it holds the deciphered payload. */
  lemma DecipherIs(payload: seq<byte>, messageKey: byte, p: seq<byte>)
    requires |p| == |payload| && (p != [] ==> p[0] == payload[0])
    requires forall j :: 1 <= j < |p| ==> p[j] == Xor(payload[j], messageKey)
    ensures p == Decipher(payload, messageKey)
  {
    hide Xor, Mask;
    var d := Decipher(payload, messageKey);
    assert |d| == |p|;
    forall j | 0 <= j < |p|
      ensures p[j] == d[j]
    {
      if j >= 1 {
        assert payload[1..][j - 1] == payload[j];
      }
    }
  }

  /** Whoever knows the global key recovers the message key from the first byte. */
  lemma KeyRecovered(globalKey: byte, messageKey: byte)
    ensures Xor(Xor(globalKey, messageKey), globalKey) == messageKey
  {}

  lemma OffsetAddress(address: byte)
    requires 1 <= address <= MAX_ADDRESS
    ensures address + ENCRYPT_OFFSET > MAX_ADDRESS
    ensures address + ENCRYPT_OFFSET >= ENCRYPT_OFFSET
    ensures (address + ENCRYPT_OFFSET) - ENCRYPT_OFFSET == address
    ensures address + ENCRYPT_OFFSET != 0 && address + ENCRYPT_OFFSET != address
  {}

  /** Requests of both builders: build, serialize, parse, decrypt. */
  lemma RequestRoundTrip(address: byte, cmd: seq<byte>, globalKey: byte, messageKey: byte)
    requires 1 <= address <= MAX_ADDRESS && |cmd| <= MAX_PAYLOAD - 4
    ensures var f := EncryptedRequest(address, cmd, globalKey, messageKey);
            Parsable(f) && Parse(f).Some? &&
            Decrypt(Parse(f).value, messageKey).payload == [Xor(globalKey, messageKey)] + cmd + [0, 0, 0]
  {
    hide Crc8, ToNat, ToByte;
    var e := Encipher(globalKey, messageKey, cmd, REQUEST_PAD);
    var f := EncryptedRequest(address, cmd, globalKey, messageKey);
    OffsetAddress(address);
    ParseOfFrame(address + ENCRYPT_OFFSET, e, []);
    assert f + [] == f;
    DecipherOfEncipher(globalKey, messageKey, cmd, REQUEST_PAD);
    assert Repeat(0, REQUEST_PAD) == [0, 0, 0];
  }

  /** Slave replies: the plaintext comes back followed by one zero. */
  lemma ReplyRoundTrip(address: byte, text: seq<byte>, globalKey: byte, messageKey: byte)
    requires 1 <= address <= MAX_ADDRESS && |text| <= MAX_PAYLOAD - 2
    ensures var f := EncryptedReply(address, text, globalKey, messageKey);
            Parsable(f) && Parse(f).Some? && Parse(f).value.encrypted &&
            |Parse(f).value.payload| == |text| + 2 &&
            Decrypt(Parse(f).value, messageKey).payload == [Xor(globalKey, messageKey)] + text + [0]
  {
    hide Crc8, ToNat, ToByte;
    var e := Encipher(globalKey, messageKey, text, REPLY_PAD);
    var f := EncryptedReply(address, text, globalKey, messageKey);
    OffsetAddress(address);
    ParseOfFrame(address + ENCRYPT_OFFSET, e, []);
    assert f + [] == f;
    DecipherOfEncipher(globalKey, messageKey, text, REPLY_PAD);
    assert Repeat(0, REPLY_PAD) == [0];
  }
}
