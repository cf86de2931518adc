/** The PC library's packet structure, filled, serialized, parsed and decrypted in place. */
module Packets {
  import opened Bytes
  import opened Crc
  import opened Frames

  /** `orion_packet_t`: a fixed payload array and the bytes around it. */
  class PacketBuffer {
    var address: byte
    var length: byte
    var crc: byte
    var isEncrypted: bool
    const payload: array<byte>

    constructor ()
      ensures payload.Length == MAX_PAYLOAD && fresh(payload)
    {
      address, length, crc, isEncrypted := 0, 0, 0, false;
      payload := new byte[MAX_PAYLOAD](_ => 0);
    }

    /** The payload fits the array. */
    ghost predicate Valid()
      reads this
    {
      payload.Length == MAX_PAYLOAD && 1 <= ToNat(length) <= MAX_PAYLOAD + 1
    }

    /** The packet held, as a value. */
    ghost function Value(): Packet
      requires Valid()
      reads this, payload
    {
      Packet(address, length, payload[..ToNat(length) - 1], crc, isEncrypted)
    }

    /** `memset(pkt, 0, sizeof(*pkt))`. */
    method Clear()
      requires payload.Length == MAX_PAYLOAD
      modifies this, payload
      ensures address == length == crc == 0 && !isEncrypted
      ensures forall i :: 0 <= i < payload.Length ==> payload[i] == 0
    {
      address, length, crc, isEncrypted := 0, 0, 0, false;
      forall i | 0 <= i < payload.Length {
        payload[i] := 0;
      }
    }

    /** Length and CRC of the first `n` payload bytes, the common tail of both builders. */
    method Close(n: nat) returns (size: int)
      requires payload.Length == MAX_PAYLOAD && n <= MAX_PAYLOAD
      modifies this`length, this`crc
      ensures Valid() && ToNat(length) == n + 1
      ensures size == n + 3
      ensures Serialize(Value()) == Frame(address, payload[..n])
    {
      hide Crc8, ToNat, ToByte;
      length := ToByte(n + 1);
      var crcBuf := new byte[MAX_PACKET];
      crcBuf[0], crcBuf[1] := address, length;
      forall i | 0 <= i < n {
        crcBuf[2 + i] := payload[i];
      }
      crc := Compute(crcBuf, 2 + n);
      assert crcBuf[..2 + n] == [address, length] + payload[..n];
      size := n + 3;
    }

    /** `orion_packet_build`. */
    method Build(addr: byte, cmd: seq<byte>) returns (size: int)
      requires payload.Length == MAX_PAYLOAD
      modifies this, payload
      ensures size == -1 <==> addr == 0 || addr > MAX_ADDRESS || |cmd| > MAX_PAYLOAD
      ensures size != -1 ==> size == |cmd| + 3 && Valid() && Serialize(Value()) == Frame(addr, cmd)
      ensures size != -1 ==> Value().payload == cmd && !isEncrypted
      ensures size == -1 ==> unchanged(this) && unchanged(payload)
    {
      hide Crc8;
      if addr == 0 || addr > MAX_ADDRESS || |cmd| > MAX_PAYLOAD {
        return -1;
      }
      Clear();
      address := addr;
      forall i | 0 <= i < |cmd| {
        payload[i] := cmd[i];
      }
      assert payload[..|cmd|] == cmd;
      size := Close(|cmd|);
    }

    /** `orion_packet_build_encrypted`. */
    method BuildEncrypted(addr: byte, cmd: seq<byte>, globalKey: byte, messageKey: byte) returns (size: int)
      requires payload.Length == MAX_PAYLOAD
      modifies this, payload
      ensures size == -1 <==> addr == 0 || addr > MAX_ADDRESS || |cmd| > MAX_PAYLOAD - 4
      ensures size != -1 ==> size == |cmd| + 7 && Valid() && isEncrypted
      ensures size != -1 ==> Serialize(Value()) == EncryptedRequest(addr, cmd, globalKey, messageKey)
      ensures size == -1 ==> unchanged(this) && unchanged(payload)
    {
      hide Crc8, Xor, Encipher, Frame;
      if addr == 0 || addr > MAX_ADDRESS {
        return -1;
      }
      if 1 + |cmd| + 3 > MAX_PAYLOAD {
        return -1;
      }
      Clear();
      address, isEncrypted := addr + ENCRYPT_OFFSET, true;
      payload[0] := Xor(globalKey, messageKey);
      var idx := 1;
      for i := 0 to |cmd|
        invariant idx == 1 + i
        invariant payload[0] == Xor(globalKey, messageKey)
        invariant forall j :: 0 <= j < i ==> payload[1 + j] == Xor(cmd[j], messageKey)
        invariant address == addr + ENCRYPT_OFFSET && isEncrypted
      {
        payload[idx] := Xor(cmd[i], messageKey);
        idx := idx + 1;
      }
      payload[idx], payload[idx + 1], payload[idx + 2] := messageKey, messageKey, messageKey;
      idx := idx + 3;
      EncipherIs(globalKey, messageKey, cmd, REQUEST_PAD, payload[..idx]);
      size := Close(idx);
    }

    /** `orion_packet_serialize`. */
    method SerializeInto(buf: array<byte>) returns (size: int)
      requires Valid() && buf.Length == MAX_PACKET && buf != payload
      modifies buf
      ensures size == 2 + ToNat(length) && buf[..size] == Serialize(Value())
    {
      hide ToNat;
      var n := ToNat(length) - 1;
      buf[0], buf[1] := address, length;
      forall i | 0 <= i < n {
        buf[2 + i] := payload[i];
      }
      buf[2 + n] := crc;
      size := 2 + n + 1;
    }

    /** `orion_packet_parse`. */
    method ParseFrom(buf: array<byte>, len: nat) returns (ret: int)
      requires payload.Length == MAX_PAYLOAD && len <= buf.Length && buf != payload
      requires Parsable(buf[..len])
      modifies this, payload
      ensures ret == 0 || ret == -1
      ensures ret == 0 <==> Parse(buf[..len]).Some?
      ensures ret == 0 ==> Valid() && Value() == Parse(buf[..len]).value
    {
      hide Crc8, ToNat;
      if len < 3 {
        return -1;
      }
      Clear();
      address, length := buf[0], buf[1];
      isEncrypted := address > MAX_ADDRESS;
      var n := ToNat(length) - 1;
      if 2 + n + 1 > len {
        return -1;
      }
      forall i | 0 <= i < n {
        payload[i] := buf[2 + i];
      }
      crc := buf[2 + n];
      var expected := Compute(buf, 2 + n);
      assert buf[..len][..2 + n] == buf[..2 + n] && buf[..len][2..2 + n] == buf[2..2 + n];
      assert payload[..n] == buf[2..2 + n];
      ret := if expected != crc then -1 else 0;
    }

    /** `orion_packet_decrypt_payload`. */
    method DecryptPayload(messageKey: byte)
      requires Valid()
      modifies payload
      ensures Value() == Decrypt(old(Value()), messageKey)
    {
      hide Xor, ToNat, Decipher;
      if !isEncrypted {
        return;
      }
      var n := ToNat(length) - 1;
      var i := 1;
      while i < n
        invariant 1 <= i
        invariant forall j :: 1 <= j < i && j < n ==> payload[j] == Xor(old(payload[j]), messageKey)
        invariant forall j :: 0 <= j < n && !(1 <= j < i) ==> payload[j] == old(payload[j])
      {
        payload[i] := Xor(payload[i], messageKey);
        i := i + 1;
      }
      DecipherIs(old(payload[..n]), messageKey, payload[..n]);
    }
  }
}
