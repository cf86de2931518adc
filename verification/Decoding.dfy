/** What the bus monitor makes of each frame: request or response, device table and event log, on values. */
module Decoding {
  import opened Bytes
  import opened Crc
  import opened Frames
  import opened Devices

  const MAX_DEVICES := 127
  const ZONES_PER_DEVICE := 20
  const REQUEST_RESPONSE_GAP_MS := 50

  datatype ZoneInfo = ZoneInfo(status: byte, lastUpdate: uint32)

  datatype DeviceInfo = DeviceInfo(
    online: bool, deviceType: byte, fwMajor: byte, fwMinor: byte, zoneCount: nat,
    lastSeen: uint32, polls: nat, responses: nat, zones: seq<ZoneInfo>)

  datatype BusEvent = BusEvent(addr: byte, code: byte, zone: byte, extra: byte, at: uint32)

  datatype Monitor = Monitor(
    key: byte, devices: seq<DeviceInfo>, log: seq<BusEvent>,
    lastAddr: byte, lastCmd: byte, lastTime: uint32,
    totalPackets: nat, crcErrors: nat)
  {
    predicate Valid() {
      |devices| == MAX_DEVICES && forall i :: 0 <= i < MAX_DEVICES ==> |devices[i].zones| == ZONES_PER_DEVICE
    }
  }

  /** The device address under the encryption offset. */
  function BusAddress(raw: byte): (a: byte)
    ensures ToNat(a) <= MAX_DEVICES
  {
    ToNatOrder(127, if raw >= ENCRYPT_OFFSET then raw - ENCRYPT_OFFSET else raw);
    assert ToNat(127) == 127;
    if raw >= ENCRYPT_OFFSET then raw - ENCRYPT_OFFSET else raw
  }

  predicate IsBusAddress(a: byte) {
    1 <= ToNat(a) <= MAX_DEVICES
  }

  function WithZone(dev: DeviceInfo, zone: byte, status: byte, now: uint32): (r: DeviceInfo)
    requires |dev.zones| == ZONES_PER_DEVICE
    ensures |r.zones| == ZONES_PER_DEVICE
  {
    var z := ToNat(zone);
    if !(1 <= z <= ZONES_PER_DEVICE) || dev.zones[z - 1].status == status then dev
    else dev.(
      zones := dev.zones[z - 1 := ZoneInfo(status, now)],
      zoneCount := if z > dev.zoneCount then z else dev.zoneCount)
  }

  /** Keys and the remembered request are as before. */
  predicate Kept(m: Monitor, m': Monitor) {
    m'.key == m.key && m'.lastAddr == m.lastAddr && m'.lastCmd == m.lastCmd && m'.lastTime == m.lastTime
  }

  /** `updateDeviceStatus`. */
  function UpdateStatus(m: Monitor, addr: byte, zone: byte, status: byte, now: uint32): (m': Monitor)
    requires m.Valid() && IsBusAddress(addr)
    ensures m'.Valid() && Kept(m, m') && m'.log == m.log
  {
    var i := ToNat(addr) - 1;
    m.(devices := m.devices[i := WithZone(m.devices[i], zone, status, now)])
  }

  /** `decodeRequest`, and the request remembered. */
  function OnRequest(m: Monitor, addr: byte, payload: seq<byte>, encrypted: bool, now: uint32): (m': Monitor)
    requires m.Valid() && IsBusAddress(addr)
    ensures m'.Valid()
  {
    var r := m.(lastAddr := addr, lastTime := now);
    if payload == [] then r
    else
      var i := ToNat(addr) - 1;
      r.(
        lastCmd := if encrypted && |payload| >= 2 then Xor(payload[1], Xor(payload[0], m.key)) else payload[0],
        devices := m.devices[i := m.devices[i].(polls := m.devices[i].polls + 1)])
  }

  /** The log entry for a deciphered answer: to a read-event, with a code other than 0. */
  function Logged(cmd: byte, addr: byte, text: seq<byte>, now: uint32): seq<BusEvent> {
    if cmd == CMD_READ_EVENT && |text| >= 2 && text[0] != 0 then
      [BusEvent(addr, text[0], text[1], if |text| >= 3 then text[2] else 0, now)]
    else []
  }

  /** The deciphered answer to the remembered command. */
  function OnAnswer(m: Monitor, addr: byte, text: seq<byte>, now: uint32): (m': Monitor)
    requires m.Valid() && IsBusAddress(addr)
    ensures m'.Valid() && Kept(m, m') && m'.log == m.log + Logged(m.lastCmd, addr, text, now)
  {
    if m.lastCmd == CMD_READ_STATUS then
      if |text| >= 3 then UpdateStatus(m, addr, text[1], text[2], now) else m
    else if m.lastCmd == CMD_READ_EVENT then
      if |text| >= 2 && text[0] != 0 then
        UpdateStatus(m.(log := m.log + Logged(m.lastCmd, addr, text, now)), addr, text[1], text[0], now)
      else m
    else m
  }

  function OnPlainAnswer(m: Monitor, addr: byte, payload: seq<byte>): (m': Monitor)
    requires m.Valid() && IsBusAddress(addr) && payload != []
    ensures m'.Valid() && Kept(m, m') && m'.log == m.log
  {
    var i := ToNat(addr) - 1;
    if m.lastCmd == CMD_READ_DEVICE_TYPE then
      m.(devices := m.devices[i := m.devices[i].(deviceType := payload[0])])
    else if m.lastCmd == CMD_READ_VERSION && |payload| >= 2 then
      m.(devices := m.devices[i := m.devices[i].(fwMajor := payload[0], fwMinor := payload[1])])
    else m
  }

  /** The device has answered: it is on line. */
  function Seen(m: Monitor, addr: byte, now: uint32): (m': Monitor)
    requires m.Valid() && IsBusAddress(addr)
    ensures m'.Valid() && Kept(m, m') && m'.log == m.log
  {
    var i := ToNat(addr) - 1;
    m.(devices := m.devices[i := m.devices[i].(
      online := true, lastSeen := now, responses := m.devices[i].responses + 1)])
  }

  /** `decodeResponse`. */
  function OnResponse(m: Monitor, addr: byte, payload: seq<byte>, encrypted: bool, now: uint32): (m': Monitor)
    requires m.Valid() && IsBusAddress(addr)
    ensures m'.Valid() && Kept(m, m')
    ensures m'.log == m.log + (if encrypted && |payload| >= 2 then
                                 Logged(m.lastCmd, addr, Decipher(payload, Xor(payload[0], m.key))[1..], now)
                               else [])
  {
    if payload == [] then m
    else
      var s := Seen(m, addr, now);
      if encrypted && |payload| >= 2 then OnAnswer(s, addr, Decipher(payload, Xor(payload[0], m.key))[1..], now)
      else OnPlainAnswer(s, addr, payload)
  }

  predicate LooksLikeResponse(m: Monitor, addr: byte, now: uint32) {
    m.lastAddr == addr && Elapsed(now, m.lastTime) < REQUEST_RESPONSE_GAP_MS
  }

  /** A frame that passed address, size and CRC. */
  function OnFrame(m: Monitor, raw: byte, payload: seq<byte>, now: uint32): (m': Monitor)
    requires m.Valid() && IsBusAddress(BusAddress(raw))
    ensures m'.Valid()
  {
    var addr := BusAddress(raw);
    var counted := m.(totalPackets := m.totalPackets + 1);
    if LooksLikeResponse(m, addr, now) then OnResponse(counted, addr, payload, IsEncrypted(raw), now)
    else OnRequest(counted, addr, payload, IsEncrypted(raw), now)
  }

  /** `processPacket` on a buffer handed over by the framer. */
  function Observe(m: Monitor, data: seq<byte>, now: uint32): (m': Monitor)
    requires m.Valid()
    ensures m'.Valid()
  {
    if |data| < 3 || !IsBusAddress(BusAddress(data[0])) then m
    else
      var n := ToNat(data[1]);
      if |data| < 2 + n then m
      else if n == 0 || Crc8(data[..1 + n]) != data[1 + n] then m.(crcErrors := m.crcErrors + 1)
      else OnFrame(m, data[0], data[2..1 + n], now)
  }

  lemma ObserveFrame(m: Monitor, raw: byte, payload: seq<byte>, now: uint32)
    requires m.Valid() && |payload| <= MAX_PAYLOAD && IsBusAddress(BusAddress(raw))
    ensures Observe(m, Frame(raw, payload), now) == OnFrame(m, raw, payload, now)
  {
    hide Crc8, ToNat, ToByte, OnFrame, BusAddress;
    FrameShape(raw, payload);
  }

  // --- What is decoded at all ---

  /** The bytes the length byte announces, itself and the address included. */
  function Announced(data: seq<byte>): nat
    requires |data| >= 2
  {
    2 + ToNat(data[1])
  }

  /** Addressed to a device, and as long as announced. */
  predicate IsCandidate(data: seq<byte>) {
    |data| >= 3 && data[0] != 0 && data[0] != 0x80 && |data| >= Announced(data)
  }

  /** A candidate whose CRC over all the announced bytes comes to 0. */
  predicate IsSealed(data: seq<byte>) {
    IsCandidate(data) && Crc8(data[..Announced(data)]) == 0
  }

  lemma CandidateAddress(raw: byte)
    ensures IsBusAddress(BusAddress(raw)) <==> raw != 0 && raw != 0x80
  {
    ToNatOrder(1, BusAddress(raw));
    assert ToNat(1) == 1;
  }

  lemma SealedByCrc(data: seq<byte>)
    requires IsCandidate(data)
    ensures ToNat(data[1]) == 0 ==> !IsSealed(data)
    ensures ToNat(data[1]) >= 1 ==> (IsSealed(data) <==> Crc8(data[..Announced(data) - 1]) == data[Announced(data) - 1])
  {
    hide Crc8, ToNat;
    var k := Announced(data);
    assert data[..k] == data[..k - 1] + [data[k - 1]];
    Crc8Sealed(data[..k - 1], data[k - 1]);
    if ToNat(data[1]) == 0 {
      ZeroLengthByte(data[1]);
      NoZeroLengthFrame(data);
    }
  }

  lemma ZeroLengthByte(b: byte)
    requires ToNat(b) == 0
    ensures b == 0
  {
    ToNatInjective(b, 0);
  }

  /** A buffer too short for what it announces, or at no device address, changes nothing at all. */
  lemma NoCandidateIsIgnored(m: Monitor, data: seq<byte>, now: uint32)
    requires m.Valid() && !IsCandidate(data)
    ensures Observe(m, data, now) == m
  {
    hide ToNat, Crc8, BusAddress, IsBusAddress, OnFrame;
    if |data| >= 3 {
      CandidateAddress(data[0]);
    }
  }

  /** A corrupted candidate is counted and otherwise ignored: key, log, devices and remembered request stay. */
  lemma CorruptedIsIgnored(m: Monitor, data: seq<byte>, now: uint32)
    requires m.Valid() && IsCandidate(data) && Crc8(data[..Announced(data)]) != 0
    ensures Observe(m, data, now) == m.(crcErrors := m.crcErrors + 1)
  {
    hide ToNat, Crc8, BusAddress, IsBusAddress, OnFrame;
    CandidateAddress(data[0]);
    SealedByCrc(data);
  }

  /** A sealed candidate is counted as a packet, and what stands after the announced bytes does not matter. */
  lemma SealedIsDecoded(m: Monitor, data: seq<byte>, now: uint32)
    requires m.Valid() && IsSealed(data)
    ensures ToNat(data[1]) >= 1 && IsBusAddress(BusAddress(data[0]))
    ensures Observe(m, data, now) == OnFrame(m, data[0], data[2..Announced(data) - 1], now)
    ensures Observe(m, data, now).totalPackets == m.totalPackets + 1 && Observe(m, data, now).crcErrors == m.crcErrors
  {
    hide ToNat, Crc8, BusAddress, IsBusAddress, OnFrame;
    CandidateAddress(data[0]);
    SealedByCrc(data);
    FrameCounted(m, data[0], data[2..Announced(data) - 1], now);
  }

  lemma FrameCounted(m: Monitor, raw: byte, payload: seq<byte>, now: uint32)
    requires m.Valid() && IsBusAddress(BusAddress(raw))
    ensures OnFrame(m, raw, payload, now).totalPackets == m.totalPackets + 1
    ensures OnFrame(m, raw, payload, now).crcErrors == m.crcErrors
  {
    hide ToNat, BusAddress, Decipher, WithZone, Logged, IsEncrypted, Xor;
  }

  // --- What the device table shows ---

  /** Only the row of `addr` differs. */
  predicate OnlyRow(m: Monitor, m': Monitor, addr: byte) {
    |m'.devices| == |m.devices| &&
    forall i :: 0 <= i < |m.devices| && i + 1 != ToNat(addr) ==> m'.devices[i] == m.devices[i]
  }

  /** A request counts as a poll of its device; its command is remembered in clear. */
  lemma RequestRow(m: Monitor, addr: byte, payload: seq<byte>, encrypted: bool, now: uint32)
    requires m.Valid() && IsBusAddress(addr) && payload != []
    ensures var m' := OnRequest(m, addr, payload, encrypted, now);
            var row := m.devices[ToNat(addr) - 1];
            && OnlyRow(m, m', addr) && m'.devices[ToNat(addr) - 1] == row.(polls := row.polls + 1)
            && (!encrypted ==> m'.lastCmd == payload[0])
  {
    hide ToNat, Xor;
  }

  /** A frame without payload tells nothing of its device: no row, log entry or command; only a request is timed. */
  lemma EmptyFrame(m: Monitor, raw: byte, now: uint32)
    requires m.Valid() && IsBusAddress(BusAddress(raw))
    ensures Observe(m, Frame(raw, []), now) ==
            var counted := m.(totalPackets := m.totalPackets + 1);
            if m.lastAddr == BusAddress(raw) && Elapsed(now, m.lastTime) < 50 then counted
            else counted.(lastAddr := BusAddress(raw), lastTime := now)
  {
    hide Observe, Frame, ToNat, BusAddress, IsEncrypted, Elapsed, Decipher, Xor;
    ObserveFrame(m, raw, [], now);
  }

  /** The row of a device that has just answered. */
  function Answered(row: DeviceInfo, now: uint32): DeviceInfo {
    row.(online := true, lastSeen := now, responses := row.responses + 1)
  }

  /** A plain answer puts its device on line; device type and version are taken when they were asked for. */
  lemma PlainReplyRow(m: Monitor, own: byte, text: seq<byte>, now: uint32)
    requires m.Valid() && 1 <= own <= MAX_ADDRESS && 1 <= |text| <= MAX_PAYLOAD && LooksLikeResponse(m, own, now)
    ensures IsBusAddress(own)
    ensures var m' := Observe(m, Frame(own, text), now);
            var row := m.devices[ToNat(own) - 1];
            && OnlyRow(m, m', own)
            && m'.devices[ToNat(own) - 1] ==
               Answered(row, now).(
                 deviceType := if m.lastCmd == 0x06 then text[0] else row.deviceType,
                 fwMajor := if m.lastCmd == 0x07 && |text| >= 2 then text[0] else row.fwMajor,
                 fwMinor := if m.lastCmd == 0x07 && |text| >= 2 then text[1] else row.fwMinor)
  {
    hide Observe, Xor, ToNat, BusAddress, IsEncrypted, OnRequest, Frame, OnAnswer, Decipher, LooksLikeResponse;
    RawAddress(own, own);
    ObserveFrame(m, own, text, now);
    CountedResponse(m, own, now);
  }

  /** The zone and status an encrypted answer to `cmd` reports: to a status request, or to an event read with a code. */
  function Reported(cmd: byte, text: seq<byte>): Option<(byte, byte)> {
    if cmd == 0x57 && |text| >= 3 then Some((text[1], text[2]))
    else if cmd == 0x20 && |text| >= 2 && text[0] != 0 then Some((text[1], text[0]))
    else None
  }

  /** One zone takes a status; its time and the number of zones known move only if the status is new. */
  lemma ZoneTakesStatus(row: DeviceInfo, zone: byte, status: byte, now: uint32)
    requires |row.zones| == ZONES_PER_DEVICE
    ensures var r := WithZone(row, zone, status, now);
            var news := 1 <= ToNat(zone) <= 20 && row.zones[ToNat(zone) - 1].status != status;
            && r == row.(zones := r.zones, zoneCount := r.zoneCount) && |r.zones| == |row.zones|
            && (forall z :: 0 <= z < ZONES_PER_DEVICE ==>
                  r.zones[z] == if news && z + 1 == ToNat(zone) then ZoneInfo(status, now) else row.zones[z])
            && r.zoneCount == if news && ToNat(zone) > row.zoneCount then ToNat(zone) else row.zoneCount
  {
    hide ToNat;
  }

  /** An encrypted answer puts its device on line and updates the zone it reports. */
  lemma EncryptedReplyRow(m: Monitor, own: byte, text: seq<byte>, messageKey: byte, now: uint32)
    requires m.Valid() && 1 <= own <= MAX_ADDRESS && 1 <= |text| <= 7 && LooksLikeResponse(m, own, now)
    ensures IsBusAddress(own)
    ensures var m' := Observe(m, EncryptedReply(own, text, m.key, messageKey), now);
            var row, what := m.devices[ToNat(own) - 1], Reported(m.lastCmd, text + [0]);
            && OnlyRow(m, m', own)
            && m'.devices[ToNat(own) - 1] ==
               (if what.Some? then WithZone(Answered(row, now), what.value.0, what.value.1, now)
                else Answered(row, now))
  {
    hide Observe, ToNat, EncryptedReply, LooksLikeResponse, Logged, WithZone;
    EncryptedReplyDecoded(m, own, text, messageKey, now);
  }

  // --- The listener and the devices ---

  /** The log entries owed for the events a device handed to the bus: all but those with code 0. */
  function Owed(addr: byte, popped: seq<Event>, now: uint32): seq<BusEvent> {
    if popped == [] || popped[0].code == 0 then []
    else [BusEvent(addr, popped[0].code, popped[0].zone, popped[0].partition, now)]
  }

  lemma RawAddress(own: byte, raw: byte)
    requires 1 <= own <= MAX_ADDRESS
    ensures BusAddress(own) == own && BusAddress(own + ENCRYPT_OFFSET) == own && IsBusAddress(own)
    ensures !IsEncrypted(own) && IsEncrypted(own + ENCRYPT_OFFSET)
    ensures Addressed(own, raw) <==> BusAddress(raw) == own
  {
    ToNatOrder(1, own);
    ToNatOrder(own, 127);
    assert ToNat(1) == 1 && ToNat(127) == 127;
  }

  /** A request seen as such leaves the log alone and is remembered with its deciphered command. */
  lemma RequestObserved(m: Monitor, raw: byte, payload: seq<byte>, now: uint32)
    requires m.Valid() && |payload| <= MAX_PAYLOAD && IsBusAddress(BusAddress(raw))
    requires !LooksLikeResponse(m, BusAddress(raw), now)
    ensures var m' := Observe(m, Frame(raw, payload), now);
            && m'.log == m.log && m'.key == m.key && m'.lastAddr == BusAddress(raw) && m'.lastTime == now
            && (IsEncrypted(raw) && |payload| >= 2 ==>
                  m'.lastCmd == Decipher(payload, Xor(payload[0], m.key))[1])
  {
    hide Observe, Xor, ToNat, BusAddress, IsEncrypted, OnResponse, Frame, IsBusAddress;
    ObserveFrame(m, raw, payload, now);
    DecipherSecond(payload, m.key);
  }

  lemma DecipherSecond(payload: seq<byte>, key: byte)
    ensures |payload| >= 2 ==> Decipher(payload, Xor(payload[0], key))[1] == Xor(payload[1], Xor(payload[0], key))
  {
    hide Xor;
  }

  /** An unencrypted answer never reaches the log. */
  lemma PlainReplyObserved(m: Monitor, own: byte, text: seq<byte>, now: uint32)
    requires m.Valid() && 1 <= own <= MAX_ADDRESS && |text| <= MAX_PAYLOAD
    requires LooksLikeResponse(m, own, now)
    ensures var m' := Observe(m, Frame(own, text), now);
            m'.log == m.log && m'.key == m.key && m'.lastAddr == m.lastAddr && m'.lastTime == m.lastTime
  {
    hide Observe, Xor, ToNat, BusAddress, IsEncrypted, OnResponse, OnRequest, Frame, IsBusAddress, Logged;
    RawAddress(own, own);
    ObserveFrame(m, own, text, now);
  }

  /** An encrypted answer is seen, and its deciphered text decoded with the one zero of its padding. */
  lemma EncryptedReplyDecoded(m: Monitor, own: byte, text: seq<byte>, messageKey: byte, now: uint32)
    requires m.Valid() && 1 <= own <= MAX_ADDRESS && 1 <= |text| <= 7
    requires LooksLikeResponse(m, own, now)
    ensures IsBusAddress(own)
    ensures Observe(m, EncryptedReply(own, text, m.key, messageKey), now) ==
            OnAnswer(Seen(m.(totalPackets := m.totalPackets + 1), own, now), own, text + [0], now)
  {
    hide Observe, Xor, ToNat, BusAddress, IsEncrypted, Encipher, Decipher, OnAnswer, Seen, OnRequest, Frame,
         IsBusAddress, Logged, LooksLikeResponse;
    RawAddress(own, own);
    var e := Encipher(m.key, messageKey, text, REPLY_PAD);
    ObserveFrame(m, own + ENCRYPT_OFFSET, e, now);
    DecipherOfEncipher(m.key, messageKey, text, REPLY_PAD);
    KeyRecovered(m.key, messageKey);
    EncipherStart(m.key, messageKey, text, REPLY_PAD);
    var d := Decipher(e, messageKey);
    assert Repeat(0, REPLY_PAD) == [0];
    assert d[1..] == text + [0];
    CountedResponse(m, own, now);
  }

  lemma CountedResponse(m: Monitor, own: byte, now: uint32)
    ensures LooksLikeResponse(m.(totalPackets := m.totalPackets + 1), own, now) == LooksLikeResponse(m, own, now)
  {}

  /** An encrypted answer reaches the log exactly when an event was asked for and has a code. */
  lemma EncryptedReplyObserved(m: Monitor, own: byte, text: seq<byte>, messageKey: byte, now: uint32)
    requires m.Valid() && 1 <= own <= MAX_ADDRESS && 1 <= |text| <= 7
    requires LooksLikeResponse(m, own, now)
    ensures var m' := Observe(m, EncryptedReply(own, text, m.key, messageKey), now);
            && m'.key == m.key && m'.lastAddr == m.lastAddr && m'.lastTime == m.lastTime
            && m'.log == m.log + Logged(m.lastCmd, own, text + [0], now)
  {
    hide Observe, OnAnswer, Seen, EncryptedReply, ToNat, IsBusAddress, LooksLikeResponse, Logged;
    EncryptedReplyDecoded(m, own, text, messageKey, now);
  }

  lemma EncipherStart(globalKey: byte, messageKey: byte, text: seq<byte>, pad: nat)
    ensures Encipher(globalKey, messageKey, text, pad)[0] == Xor(globalKey, messageKey)
  {
    hide Xor, Mask, Repeat;
  }
}
