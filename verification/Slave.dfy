/** `OrionSlave`: the device as an object over fixed arrays, refining the abstract station. */
module Slave {
  import opened Bytes
  import opened Crc
  import opened Frames
  import opened Devices
  import opened Stations
  import opened Rings

  class OrionSlave {
    const address: byte
    var deviceType: byte
    var fwMajor: byte
    var fwMinor: byte
    var globalKey: byte
    var messageKey: byte
    var zoneCount: nat

    const zones: array<Zone>
    const events: array<Event>
    var eventHead: nat
    var eventTail: nat
    var eventCount: nat

    const rxBuf: array<byte>
    var rxPos: nat
    var lastRx: uint32

    var packetsRx: nat
    var packetsTx: nat

    var driving: bool    // the DE line of the transceiver
    var tx: seq<byte>    // every byte written to the serial port

    ghost predicate Valid()
      reads this
    {
      && 1 <= address <= MAX_ADDRESS
      && zones.Length == MAX_ZONES && events.Length == MAX_EVENTS && rxBuf.Length == MAX_PACKET
      && zoneCount <= MAX_ZONES
      && eventCount <= MAX_EVENTS && eventTail < MAX_EVENTS
      && eventHead == Slot(MAX_EVENTS, eventTail, eventCount)
      && rxPos <= MAX_PACKET
      && !driving
    }

    /** The events held, oldest first, wherever the ring starts. */
    ghost function Queue(): (q: seq<Event>)
      requires Valid()
      reads this, events
      ensures |q| == eventCount
    {
      Window(events[..], eventTail, eventCount)
    }

    ghost function Dev(): (d: Device)
      requires Valid()
      reads this, zones, events
      ensures d.Valid()
    {
      Device(address, deviceType, fwMajor, fwMinor, globalKey, messageKey, zoneCount, zones[..], Queue())
    }

    ghost function State(): (s: Station)
      requires Valid()
      reads this, zones, events, rxBuf
      ensures s.Valid()
    {
      Station(Dev(), rxBuf[..rxPos], lastRx, packetsRx, packetsTx)
    }

    constructor (addr: byte)
      requires 1 <= addr <= MAX_ADDRESS
      ensures Valid() && fresh(zones) && fresh(events) && fresh(rxBuf) && tx == []
      ensures State() == Station(
        Device(addr, 0x34, 2, 0, 0, 0, 4, zones[..], []), [], 0, 0, 0)
      ensures forall i :: 0 <= i < MAX_ZONES ==> zones[i] == Zone(0, false)
    {
      address := addr;
      deviceType, fwMajor, fwMinor := 0x34, 2, 0;
      globalKey, messageKey, zoneCount := 0, 0, 4;
      zones := new Zone[MAX_ZONES](_ => Zone(0, false));
      events := new Event[MAX_EVENTS](_ => Event(0, 0, 0));
      eventHead, eventTail, eventCount := 0, 0, 0;
      rxBuf := new byte[MAX_PACKET](_ => 0);
      rxPos, lastRx, packetsRx, packetsTx := 0, 0, 0, 0;
      driving, tx := false, [];
    }

    /** `begin`: the configured zones start disarmed. */
    method Begin()
      requires Valid()
      modifies this`driving, zones
      ensures Valid()
      ensures State() == old(State()).(dev := old(Dev()).(zones := zones[..]))
      ensures forall i :: 0 <= i < MAX_ZONES ==>
        zones[i] == if i < zoneCount then Zone(STATUS_DISARMED, true) else old(zones[i])
    {
      driving := false;
      for i := 0 to zoneCount
        invariant !driving
        invariant forall j :: 0 <= j < MAX_ZONES ==>
          zones[j] == if j < i then Zone(STATUS_DISARMED, true) else old(zones[j])
      {
        zones[i] := Zone(STATUS_DISARMED, true);
      }
    }

    /** `setZoneCount`: clamped; a newly configured zone starts disarmed, the others keep their status. */
    method SetZoneCount(count: nat)
      requires Valid()
      modifies this`zoneCount, zones
      ensures Valid() && zoneCount == if count > MAX_ZONES then MAX_ZONES else count
      ensures forall i :: 0 <= i < MAX_ZONES ==>
        zones[i] == if i < zoneCount && !old(zones[i].enabled) then Zone(STATUS_DISARMED, true) else old(zones[i])
    {
      var n := if count > MAX_ZONES then MAX_ZONES else count;
      zoneCount := n;
      for i := 0 to n
        invariant zoneCount == n
        invariant forall j :: 0 <= j < MAX_ZONES ==>
          zones[j] == if j < i && !old(zones[j].enabled) then Zone(STATUS_DISARMED, true) else old(zones[j])
      {
        if !zones[i].enabled {
          zones[i] := Zone(STATUS_DISARMED, true);
        }
      }
    }

    method SetZoneStatus(zone: byte, status: byte)
      requires Valid()
      modifies zones
      ensures Valid() && State() == StepOp(old(State()), OpSetZone(zone, status))
      ensures forall i :: 0 <= i < MAX_ZONES ==>
        zones[i] == if i + 1 == ToNat(zone) then old(zones[i]).(status := status) else old(zones[i])
    {
      hide ToNat;
      if 0 < ToNat(zone) <= MAX_ZONES {
        zones[ToNat(zone) - 1] := zones[ToNat(zone) - 1].(status := status);
      }
    }

    // --- The event ring ---

    method PushEvent(e: Event) returns (ok: bool)
      requires Valid()
      modifies this`eventHead, this`eventCount, events
      ensures Valid() && State() == StepOp(old(State()), OpPush(e))
      ensures ok == (|old(Queue())| < 32)
      ensures Queue() == if ok then old(Queue()) + [e] else old(Queue())
    {
      hide PollStation, Window;
      RoomForEvent(Dev(), e);
      if eventCount >= MAX_EVENTS {
        return false;
      }
      WindowPush(events[..], eventTail, eventCount, e);
      events[eventHead] := e;
      eventHead := (eventHead + 1) % MAX_EVENTS;
      eventCount := eventCount + 1;
      assert events[..] == old(events[..])[old(eventHead) := e];
      ok := true;
    }

    method PopEvent() returns (e: Option<Event>)
      requires Valid()
      modifies this`eventTail, this`eventCount
      ensures Valid()
      ensures e == if old(Queue()) == [] then None else Some(old(Queue())[0])
      ensures Dev() == old(Dev()).(queue := if old(Queue()) == [] then [] else old(Queue())[1..])
    {
      hide Window;
      if eventCount == 0 {
        return None;
      }
      WindowPop(events[..], eventTail, eventCount);
      WindowAt(events[..], eventTail, eventCount, 0);
      e := Some(events[eventTail]);
      eventTail := (eventTail + 1) % MAX_EVENTS;
      eventCount := eventCount - 1;
    }

    // --- Answering ---

    /** The device is as `o` says, its answer is on the wire, and the receiver is untouched. */
    twostate predicate Performed(o: Outcome)
      requires old(Valid())
      reads this, zones, events
    {
      && Valid() && Dev() == o.dev
      && (o.reply.Clear? || o.reply.Enciphered? ==> |o.reply.text| <= MAX_PAYLOAD - 2)
      && tx == old(tx) + ReplyBytes(o.dev, o.reply)
      && packetsTx == old(packetsTx) + (if o.reply.Silence? then 0 else 1)
      && packetsRx == old(packetsRx) && rxPos == old(rxPos) && lastRx == old(lastRx)
    }

    /** Doing nothing is how the device stays silent. */
    twostate lemma KeptSilent()
      requires old(Valid()) && unchanged(this, zones, events)
      ensures Performed(Answer(old(Dev()), Silence))
    {
      SilenceIsEmpty(Dev());
      assert tx + [] == tx;
    }

    method SendResponse(buf: array<byte>, len: nat)
      requires len <= buf.Length && !driving
      modifies this`driving, this`tx, this`packetsTx
      ensures !driving && tx == old(tx) + buf[..len] && packetsTx == old(packetsTx) + 1
    {
      driving := true;
      tx := tx + buf[..len];
      driving := false;
      packetsTx := packetsTx + 1;
    }

    /** Header, payload and CRC, the common tail of both builders. */
    static method FrameInto(buf: array<byte>, addr: byte, payload: seq<byte>) returns (len: nat)
      requires buf.Length == MAX_PACKET && |payload| <= MAX_PAYLOAD
      modifies buf
      ensures len <= buf.Length && buf[..len] == Frame(addr, payload)
    {
      hide Crc8, ToNat, ToByte;
      var n := |payload|;
      buf[0], buf[1] := addr, ToByte(n + 1);
      forall i | 0 <= i < n {
        buf[2 + i] := payload[i];
      }
      ghost var body := buf[..2 + n];
      assert body == [addr, ToByte(n + 1)] + payload;
      var crc := Compute(buf, 2 + n);
      buf[2 + n] := crc;
      len := 2 + n + 1;
      assert buf[..2 + n] == body;
    }

    method BuildPlainResponse(buf: array<byte>, text: seq<byte>) returns (len: nat)
      requires buf.Length == MAX_PACKET && |text| <= MAX_PAYLOAD
      modifies buf
      ensures len <= buf.Length && buf[..len] == Frame(address, text)
    {
      len := FrameInto(buf, address, text);
    }

    method BuildEncryptedResponse(buf: array<byte>, text: seq<byte>) returns (len: nat)
      requires buf.Length == MAX_PACKET && |text| <= MAX_PAYLOAD - 2
      modifies buf
      ensures len <= buf.Length && buf[..len] == EncryptedReply(address, text, globalKey, messageKey)
    {
      hide Crc8, ToNat, ToByte, Xor, Encipher, Frame;
      var enc := new byte[MAX_PAYLOAD];
      enc[0] := Xor(globalKey, messageKey);
      for i := 0 to |text|
        modifies enc
        invariant enc[0] == Xor(globalKey, messageKey)
        invariant forall j :: 0 <= j < i ==> enc[1 + j] == Xor(text[j], messageKey)
      {
        enc[1 + i] := Xor(text[i], messageKey);
      }
      enc[1 + |text|] := messageKey;
      EncipherIs(globalKey, messageKey, text, REPLY_PAD, enc[..1 + |text| + 1]);
      len := FrameInto(buf, address + ENCRYPT_OFFSET, enc[..1 + |text| + 1]);
    }

    /** Build and send an unencrypted answer. */
    method SendPlain(text: seq<byte>)
      requires Valid() && |text| <= MAX_PAYLOAD - 2
      modifies this`driving, this`tx, this`packetsTx
      ensures Performed(Answer(old(Dev()), Clear(text)))
    {
      hide Frame;
      var buf := new byte[MAX_PACKET];
      var len := BuildPlainResponse(buf, text);
      SendResponse(buf, len);
    }

    /** Build and send an encrypted answer. */
    method SendEncrypted(text: seq<byte>)
      requires Valid() && |text| <= MAX_PAYLOAD - 2
      modifies this`driving, this`tx, this`packetsTx
      ensures Performed(Answer(old(Dev()), Enciphered(text)))
    {
      hide Frame, Encipher;
      var buf := new byte[MAX_PACKET];
      var len := BuildEncryptedResponse(buf, text);
      SendResponse(buf, len);
    }

    // --- Command handlers ---

    method HandleSetGlobalKey(payload: seq<byte>)
      requires Valid() && SetsKey(payload)
      modifies this
      ensures Performed(ExecutePlain(old(Dev()), payload))
    {
      hide Frame, SetsKey, Sound;
      if |payload| >= 4 {
        globalKey := payload[2];
        messageKey := payload[2];
        SendPlain([ACK]);
      }
    }

    method HandleReadStatus(plain: seq<byte>)
      requires Valid() && |plain| >= 2
      modifies this
      ensures Performed(ReadStatus(old(Dev()), if |plain| >= 3 then plain[2] else 0))
    {
      hide Frame, Encipher, ToNat, ToByte, Sound;
      var zone: byte := 0;
      if |plain| >= 3 {
        zone := plain[2];
      }
      var status1, status2 := STATUS_POWER_OK, STATUS_CONNECTION_OK;
      if 0 < ToNat(zone) <= zoneCount {
        status1 := zones[ToNat(zone) - 1].status;
      } else if zoneCount > 0 {
        status1 := zones[0].status;
      }
      SendEncrypted([0x88, 0x02, ToByte(zoneCount), zone, status1, status2, 0]);
    }

    method ChangeZone(zone: byte, status: byte)
      requires Valid() && HasZone(Dev(), zone)
      modifies zones
      ensures Valid() && Dev() == WithStatus(old(Dev()), zone, status)
    {
      hide ToNat, Window;
      ghost var d := Dev();
      zones[ToNat(zone) - 1] := zones[ToNat(zone) - 1].(status := status);
      assert zones[..] == WithStatus(d, zone, status).zones;
    }

    /** The zone changes and reports it. */
    method SwitchZone(zone: byte, status: byte)
      requires Valid() && HasZone(Dev(), zone)
      modifies zones, events, this`eventHead, this`eventCount
      ensures Valid() && Dev() == Switch(old(Dev()), zone, status, true).dev
    {
      hide ToNat, Window, WithStatus, Sound, HasZone, PollStation;
      ChangeZone(zone, status);
      var _ := PushEvent(Event(status, zone, 0));
    }

    /** Arm and disarm differ in the status set. */
    method HandleSwitch(plain: seq<byte>, status: byte, verdict: bool)
      requires Valid() && |plain| >= 2
      modifies this, zones, events
      ensures Performed(Switch(old(Dev()), ZoneOf(plain), status, verdict))
    {
      hide ReplyBytes, ToNat, Sound, Window, WithStatus;
      var zone := if |plain| >= 3 then plain[2] else 1;
      if verdict && 0 < ToNat(zone) <= zoneCount {
        SwitchZone(zone, status);
      }
      SendEncrypted([if verdict then ACK else NACK]);
    }

    method HandleResetAlarm(plain: seq<byte>)
      requires Valid() && |plain| >= 2
      modifies this, zones
      ensures Performed(Reset(old(Dev()), ZoneOf(plain)))
    {
      hide ReplyBytes, ToNat, Sound, Window, WithStatus;
      var zone := if |plain| >= 3 then plain[2] else 1;
      if 0 < ToNat(zone) <= zoneCount {
        ChangeZone(zone, STATUS_DISARMED);
      }
      SendEncrypted([ACK]);
    }

    method HandleReadEvent()
      requires Valid()
      modifies this
      ensures Performed(ReadEvent(old(Dev())))
    {
      hide Frame, Encipher, Sound;
      var e := PopEvent();
      if e.Some? {
        SendEncrypted([e.value.code, e.value.zone, e.value.partition]);
      } else {
        SendEncrypted([0]);
      }
    }

    // --- Packet processing ---

    method ProcessPlain(payload: seq<byte>)
      requires Valid()
      modifies this
      ensures Performed(ExecutePlain(old(Dev()), payload))
    {
      hide Frame, Sound;
      if |payload| < 1 {
        return;
      }
      if |payload| >= 2 && payload[1] == CMD_SET_GLOBAL_KEY {
        HandleSetGlobalKey(payload);
      } else if payload[0] == CMD_PING {
        SendPlain([ACK]);
      } else if payload[0] == CMD_READ_DEVICE_TYPE {
        SendPlain([deviceType]);
      } else if payload[0] == CMD_READ_VERSION {
        SendPlain([fwMajor, fwMinor]);
      } else if |payload| >= 2 {
        if payload[1] == CMD_READ_DEVICE_TYPE {
          SendPlain([deviceType]);
        } else if payload[1] == CMD_READ_VERSION {
          SendPlain([fwMajor, fwMinor]);
        }
      }
    }

    method Dispatch(plain: seq<byte>, verdict: bool)
      requires Valid() && |plain| >= 2
      modifies this, zones, events
      ensures Performed(Execute(old(Dev()), plain, verdict))
    {
      hide Frame, Encipher, Sound, Switch, Reset, ReadStatus, ReadEvent;
      var cmd := plain[1];
      if cmd == CMD_READ_STATUS {
        HandleReadStatus(plain);
      } else if cmd == CMD_ARM_ZONE {
        HandleSwitch(plain, STATUS_ARMED, verdict);
      } else if cmd == CMD_DISARM_ZONE {
        HandleSwitch(plain, STATUS_DISARMED, verdict);
      } else if cmd == CMD_RESET_ALARM {
        HandleResetAlarm(plain);
      } else if cmd == CMD_READ_EVENT {
        HandleReadEvent();
      } else if cmd == CMD_CONFIRM_EVENT {
        SendPlain([ACK]);
      }
    }

    /** The decryption loop of `processPacket`, into a buffer of its own. */
    method Decrypted(payload: seq<byte>, key: byte) returns (plain: array<byte>)
      requires |payload| >= 1
      ensures fresh(plain) && plain[..] == Decipher(payload, key)
    {
      hide Xor, Decipher;
      plain := new byte[|payload|];
      plain[0] := payload[0];
      for i := 1 to |payload|
        invariant plain[0] == payload[0]
        invariant forall j :: 1 <= j < i ==> plain[j] == Xor(payload[j], key)
      {
        plain[i] := Xor(payload[i], key);
      }
      DecipherIs(payload, key, plain[..]);
    }

    /** `processPacket` on the first `2 + n` bytes of the receive buffer. */
    method ProcessPacket(n: nat, verdict: bool)
      requires Valid() && 1 <= n && 2 + n <= rxPos
      modifies this, zones, events
      ensures Performed(React(old(Dev()), rxBuf[0], rxBuf[2..1 + n], verdict))
    {
      hide ReplyBytes, Sound, Execute, ExecutePlain, React, Xor, Mask, Decipher;
      var addr := rxBuf[0];
      var payload := rxBuf[2..1 + n];
      ghost var d := Dev();
      ReactCases(d, addr, payload, verdict);
      if addr >= ENCRYPT_OFFSET {
        if |payload| < 2 {
          KeptSilent();
          return;
        }
        messageKey := Xor(payload[0], globalKey);
        var plain := Decrypted(payload, messageKey);
        assert Dev() == Unlock(d, payload);
        Dispatch(plain[..], verdict);
      } else {
        ProcessPlain(payload);
      }
    }

    /** The address, size and CRC tests on a buffer closed by silence. */
    method Check() returns (ok: bool, n: nat)
      requires Valid()
      ensures ok <==> Accept(Dev(), rxBuf[..rxPos]).Some?
      ensures ok ==> 1 <= n && 2 + n <= rxPos &&
                     Accept(Dev(), rxBuf[..rxPos]).value == Request(rxBuf[0], rxBuf[2..1 + n])
    {
      hide Crc8, ToNat, Window, Addressed;
      ok, n := false, 0;
      if rxPos < 3 {
        return;
      }
      var addr := rxBuf[0];
      n := ToNat(rxBuf[1]);
      var total := 2 + n;
      var forUs := Addressed(address, addr);
      if forUs && rxPos >= total {
        var crcLen := 2 + n - 1;
        var expected := Compute(rxBuf, crcLen);
        assert rxBuf[..rxPos][..crcLen] == rxBuf[..crcLen];
        assert n >= 1 ==> rxBuf[..rxPos][2..1 + n] == rxBuf[2..1 + n];
        ZeroLengthFails();
        ok := expected == rxBuf[crcLen];
      }
    }

    method CloseFrame(verdict: bool)
      requires Valid()
      modifies this, zones, events
      ensures Valid() && rxPos == old(rxPos) && lastRx == old(lastRx)
      ensures var o := CloseOutcome(old(Dev()), old(rxBuf[..rxPos]), verdict);
              && Dev() == o.dev && tx == old(tx) + ReplyBytes(o.dev, o.reply)
              && packetsTx == old(packetsTx) + (if o.reply.Silence? then 0 else 1)
      ensures packetsRx == old(packetsRx) + (if Accept(old(Dev()), old(rxBuf[..rxPos])).Some? then 1 else 0)
    {
      hide ReplyBytes, React, Sound, Accept, Window;
      SilenceIsEmpty(Dev());
      var ok, n := Check();
      if ok {
        packetsRx := packetsRx + 1;
        ProcessPacket(n, verdict);
      }
    }

    /** A zero length byte cannot pass the CRC test, so the payload length never wraps. */
    lemma ZeroLengthFails()
      requires Valid() && rxPos >= 3 && Addressed(address, rxBuf[0])
      ensures ToNat(rxBuf[1]) == 0 ==> Crc8(rxBuf[..1]) != rxBuf[1]
    {
      hide Crc8, ToNat;
      OffsetAddress(address);
      if ToNat(rxBuf[1]) == 0 {
        ToByteOfToNat(rxBuf[1]);
        ToByteOfToNat(0);
        assert ToNat(0) == 0 by { ToNatOfZero(); }
        NoZeroLengthFrame(rxBuf[..2]);
        assert rxBuf[..2][..1] == rxBuf[..1];
      }
    }

    static lemma ToNatOfZero()
      ensures ToNat(0) == 0
    {}

    /** The receive loop of `poll`. */
    method Drain(incoming: seq<Timed>)
      requires Valid()
      modifies this`rxPos, this`lastRx, rxBuf
      ensures Valid()
      ensures rxBuf[..rxPos] == Fill(old(rxBuf[..rxPos]), incoming) && lastRx == LastAt(old(lastRx), incoming)
    {
      for i := 0 to |incoming|
        invariant Valid()
        invariant rxBuf[..rxPos] == Fill(old(rxBuf[..rxPos]), incoming[..i])
        invariant lastRx == LastAt(old(lastRx), incoming[..i])
      {
        assert incoming[..i + 1][..i] == incoming[..i];
        if rxPos >= MAX_PACKET {
          rxPos := 0;
        }
        rxBuf[rxPos] := incoming[i].value;
        rxPos := rxPos + 1;
        lastRx := incoming[i].at;
      }
      assert incoming[..|incoming|] == incoming;
    }

    /** `poll`: close a frame after silence, then drain the serial port. */
    method Poll(now: uint32, incoming: seq<Timed>, verdict: bool)
      requires Valid()
      modifies this, zones, events, rxBuf
      ensures Valid()
      ensures State() == PollStation(old(State()), now, incoming, verdict)
      ensures var o := PollOutcome(old(State()), now, verdict);
              tx == old(tx) + ReplyBytes(o.dev, o.reply)
    {
      hide ReplyBytes, CloseOutcome, Accept, Sound, Fill, Window;
      if rxPos > 0 && Elapsed(now, lastRx) > INTER_BYTE_TIMEOUT_MS {
        CloseFrame(verdict);
        rxPos := 0;
      } else {
        SilenceIsEmpty(Dev());
      }
      Drain(incoming);
    }
  }
}
