/** `OrionBusMonitor`: the listener as an object over fixed arrays. */
module BusMonitor {
  import opened Bytes
  import opened Crc
  import opened Frames
  import opened Devices
  import opened Decoding
  import opened Listening
  import opened Rings

  const LOG_SIZE := 64
  const OFFLINE_CHECK_MS := 5000

  /** A received byte with both clocks as they stand when it is handled. */
  datatype Arrival = Arrival(value: byte, us: uint32, ms: uint32)

  /** The listener between polls. */
  datatype Ear = Ear(mon: Monitor, rx: seq<byte>, lastRx: uint32)

  function HearByte(e: Ear, a: Arrival): (e': Ear)
    requires e.mon.Valid() && |e.rx| <= MAX_PACKET
    ensures e'.mon.Valid() && |e'.rx| <= MAX_PACKET
  {
    var r := Extend(e.rx, a.value);
    if Complete(r) then Ear(Observe(e.mon, r, a.ms), [], a.us) else Ear(e.mon, r, a.us)
  }

  function HearAll(e: Ear, input: seq<Arrival>): (e': Ear)
    requires e.mon.Valid() && |e.rx| <= MAX_PACKET
    ensures e'.mon.Valid() && |e'.rx| <= MAX_PACKET
  {
    if input == [] then e else HearByte(HearAll(e, input[..|input| - 1]), input[|input| - 1])
  }

  /** The silence test at the start of `poll`. */
  function CloseSilent(e: Ear, nowUs: uint32, nowMs: uint32): (e': Ear)
    requires e.mon.Valid() && |e.rx| <= MAX_PACKET
    ensures e'.mon.Valid() && |e'.rx| <= MAX_PACKET
  {
    if !Expired(Framer(e.rx, e.lastRx), nowUs) then e
    else e.(mon := if |e.rx| >= 3 then Observe(e.mon, e.rx, nowMs) else e.mon, rx := [])
  }

  /** A device unheard for longer than the timeout goes off line; time 0 counts as never heard. */
  function Stale(d: DeviceInfo, now: uint32, timeout: uint32): DeviceInfo {
    if d.online && d.lastSeen > 0 && Elapsed(now, d.lastSeen) > timeout then d.(online := false) else d
  }

  function StaleAll(ds: seq<DeviceInfo>, now: uint32, timeout: uint32): (r: seq<DeviceInfo>)
    ensures |r| == |ds| && forall i :: 0 <= i < |ds| ==> r[i] == Stale(ds[i], now, timeout)
  {
    seq(|ds|, i requires 0 <= i < |ds| => Stale(ds[i], now, timeout))
  }

  /** In real time: a device on line stays so exactly when its last answer is not older than the timeout. */
  lemma StaleInRealTime(d: DeviceInfo, last: nat, at: nat, timeout: uint32)
    requires d.lastSeen == Ticks(last) && last <= at < last + TWO_TO_THE_32
    ensures Stale(d, Ticks(at), timeout) ==
            d.(online := d.online && (Ticks(last) == 0 || at - last <= timeout))
  {
    ElapsedIsRealTime(at, last);
    assert (at - last) % TWO_TO_THE_32 == at - last;
  }

  // --- What the framer hands to decoding, and when ---

  /** A buffer given to `processPacket`, and the millisecond clock then. */
  datatype Caught = Caught(data: seq<byte>, at: uint32)

  /** Decoding each in turn. */
  function ObserveAll(m: Monitor, caught: seq<Caught>): (m': Monitor)
    requires m.Valid()
    ensures m'.Valid()
  {
    if caught == [] then m
    else Observe(ObserveAll(m, caught[..|caught| - 1]), caught[|caught| - 1].data, caught[|caught| - 1].at)
  }

  function ValuesOf(input: seq<Arrival>): (b: seq<byte>)
    ensures |b| == |input| && forall i :: 0 <= i < |b| ==> b[i] == input[i].value
  {
    seq(|input|, i requires 0 <= i < |input| => input[i].value)
  }

  function DataOf(caught: seq<Caught>): (d: seq<seq<byte>>)
    ensures |d| == |caught| && forall i :: 0 <= i < |d| ==> d[i] == caught[i].data
  {
    seq(|caught|, i requires 0 <= i < |caught| => caught[i].data)
  }

  /** What one more byte hands over. */
  function CaughtByByte(held: seq<byte>, a: Arrival): seq<Caught>
    requires |held| <= MAX_PACKET
  {
    var r := Extend(held, a.value);
    if Complete(r) then [Caught(r, a.ms)] else []
  }

  /** The buffers handed over while bytes arrive, each at the time of its last byte. */
  function CaughtBy(buf: seq<byte>, input: seq<Arrival>): seq<Caught>
    requires |buf| <= MAX_PACKET
  {
    if input == [] then []
    else
      var k := |input| - 1;
      CaughtBy(buf, input[..k]) + CaughtByByte(Held(buf, ValuesOf(input[..k])), input[k])
  }

  /** One call of `poll`: both clocks at its start and the bytes it reads. */
  datatype Turn = Turn(us: uint32, ms: uint32, input: seq<Arrival>)

  /** A byte and a call in real time, in microseconds and milliseconds, and what the clocks show of them. */
  datatype RealArrival = RealArrival(value: byte, us: nat, ms: nat)

  datatype RealTurn = RealTurn(us: nat, ms: nat, input: seq<RealArrival>)

  function Clocked(input: seq<RealArrival>): (r: seq<Arrival>)
    ensures |r| == |input|
    ensures forall i :: 0 <= i < |r| ==> r[i] == Arrival(input[i].value, Ticks(input[i].us), Ticks(input[i].ms))
  {
    seq(|input|, i requires 0 <= i < |input| => Arrival(input[i].value, Ticks(input[i].us), Ticks(input[i].ms)))
  }

  function ClockedTurn(t: RealTurn): Turn {
    Turn(Ticks(t.us), Ticks(t.ms), Clocked(t.input))
  }

  /** The same call as the framer sees it. */
  function BurstOf(t: Turn): Burst {
    Burst(t.us, ValuesOf(t.input), if t.input == [] then 0 else t.input[|t.input| - 1].us)
  }

  function CaughtBySilence(f: Framer, t: Turn): seq<Caught> {
    if Expired(f, t.us) && |f.rx| >= 3 then [Caught(f.rx, t.ms)] else []
  }

  function CaughtInTurn(f: Framer, t: Turn): seq<Caught>
    requires |f.rx| <= MAX_PACKET
  {
    CaughtBySilence(f, t) + CaughtBy(if Expired(f, t.us) then [] else f.rx, t.input)
  }

  lemma ValuesOfLast(input: seq<Arrival>)
    requires input != []
    ensures ValuesOf(input) == ValuesOf(input[..|input| - 1]) + [input[|input| - 1].value]
  {}

  lemma DataOfConcat(a: seq<Caught>, b: seq<Caught>)
    ensures DataOf(a + b) == DataOf(a) + DataOf(b)
  {}

  /** The buffers caught are those the framer hands over. */
  lemma {:induction false} CaughtIsHanded(buf: seq<byte>, input: seq<Arrival>)
    requires |buf| <= MAX_PACKET
    ensures DataOf(CaughtBy(buf, input)) == Handed(buf, ValuesOf(input))
  {
    hide Complete, Extend, Held;
    if input == [] {
      HeldNothing(buf);
      assert ValuesOf(input) == [];
    } else {
      var k := |input| - 1;
      CaughtIsHanded(buf, input[..k]);
      ValuesOfLast(input);
      HeldLast(buf, ValuesOf(input[..k]), input[k].value);
      DataOfConcat(CaughtBy(buf, input[..k]), CaughtByByte(Held(buf, ValuesOf(input[..k])), input[k]));
    }
  }

  lemma ObserveMore(m: Monitor, caught: seq<Caught>, c: Caught)
    requires m.Valid()
    ensures ObserveAll(m, caught + [c]) == Observe(ObserveAll(m, caught), c.data, c.at)
  {
    hide Observe;
    assert (caught + [c])[..|caught|] == caught;
  }

  lemma LastUs(e: Ear, input: seq<Arrival>)
    requires e.mon.Valid() && |e.rx| <= MAX_PACKET
    ensures HearAll(e, input).lastRx == if input == [] then e.lastRx else input[|input| - 1].us
  {
    hide Complete, Extend, Observe;
  }

  /** Hearing bytes one by one is decoding, in order, exactly the buffers caught, each at its own time. */
  lemma {:induction false} HearingIsDecoding(e: Ear, input: seq<Arrival>)
    requires e.mon.Valid() && |e.rx| <= MAX_PACKET
    ensures HearAll(e, input).rx == Held(e.rx, ValuesOf(input))
    ensures HearAll(e, input).mon == ObserveAll(e.mon, CaughtBy(e.rx, input))
  {
    hide Complete, Extend, Observe, Held;
    if input == [] {
      HeldNothing(e.rx);
      assert ValuesOf(input) == [];
    } else {
      var k := |input| - 1;
      HearingIsDecoding(e, input[..k]);
      ValuesOfLast(input);
      HeldLast(e.rx, ValuesOf(input[..k]), input[k].value);
      var caught := CaughtBy(e.rx, input[..k]);
      var r := Extend(Held(e.rx, ValuesOf(input[..k])), input[k].value);
      if Complete(r) {
        ObserveMore(e.mon, caught, Caught(r, input[k].ms));
      } else {
        assert caught + [] == caught;
      }
    }
  }

  /** The listener's part of one call of `poll`. */
  function HearTurn(e: Ear, t: Turn): (e': Ear)
    requires e.mon.Valid() && |e.rx| <= MAX_PACKET
    ensures e'.mon.Valid() && |e'.rx| <= MAX_PACKET
  {
    HearAll(CloseSilent(e, t.us, t.ms), t.input)
  }

  lemma ObserveTwoParts(m: Monitor, a: seq<Caught>, b: seq<Caught>)
    requires m.Valid() && |a| <= 1
    ensures ObserveAll(m, a + b) == ObserveAll(ObserveAll(m, a), b)
    decreases |b|
  {
    hide Observe;
    if b == [] {
      assert a + b == a;
    } else {
      var k := |b| - 1;
      ObserveTwoParts(m, a, b[..k]);
      assert (a + b)[..|a + b| - 1] == a + b[..k];
    }
  }

  lemma ObserveOne(m: Monitor, c: Caught)
    requires m.Valid()
    ensures ObserveAll(m, [c]) == Observe(m, c.data, c.at) && ObserveAll(m, []) == m
  {
    hide Observe;
    assert [c][..0] == [];
  }

  /** One poll decodes exactly the buffers its framer hands over, and leaves the framer as it should be. */
  lemma TurnIsDecoding(e: Ear, t: Turn)
    requires e.mon.Valid() && |e.rx| <= MAX_PACKET
    ensures var f := Framer(e.rx, e.lastRx);
            && HearTurn(e, t).mon == ObserveAll(e.mon, CaughtInTurn(f, t))
            && DataOf(CaughtInTurn(f, t)) == PollHanded(f, BurstOf(t))
            && Framer(HearTurn(e, t).rx, HearTurn(e, t).lastRx) == PollFramer(f, BurstOf(t))
  {
    hide HearAll, ObserveAll, Observe, CaughtBy, Handed, Held, Expired;
    var f := Framer(e.rx, e.lastRx);
    var closed := CloseSilent(e, t.us, t.ms);
    HearingIsDecoding(closed, t.input);
    LastUs(closed, t.input);
    CaughtIsHanded(closed.rx, t.input);
    DataOfConcat(CaughtBySilence(f, t), CaughtBy(closed.rx, t.input));
    ObserveOne(e.mon, Caught(e.rx, t.ms));
    ObserveTwoParts(e.mon, CaughtBySilence(f, t), CaughtBy(closed.rx, t.input));
  }

  class OrionBusMonitor {
    var globalKey: byte
    const devices: array<DeviceInfo>
    const events: array<BusEvent>
    var eventHead: nat
    var eventCount: nat
    const rxBuf: array<byte>
    var rxPos: nat
    var lastRx: uint32
    var lastRequestAddr: byte
    var lastRequestCmd: byte
    var lastRequestTime: uint32
    var totalPackets: nat
    var crcErrors: nat
    var offlineTimeout: uint32
    var lastOfflineCheck: uint32

    ghost var log: seq<BusEvent>    // every event ever logged
    ghost var caught: seq<Caught>   // every buffer ever given to processPacket

    ghost predicate Valid()
      reads this, devices, events
    {
      && devices.Length == MAX_DEVICES && events.Length == LOG_SIZE && rxBuf.Length == MAX_PACKET
      && (forall i :: 0 <= i < MAX_DEVICES ==> |devices[i].zones| == ZONES_PER_DEVICE)
      && rxPos <= MAX_PACKET
      && LogKept()
    }

    /** The ring holds the last `eventCount` of all events logged, each in the slot of its number. */
    ghost predicate LogKept()
      requires events.Length == LOG_SIZE
      reads `eventHead, `eventCount, `log, events
    {
      && eventCount == (if |log| < LOG_SIZE then |log| else LOG_SIZE)
      && eventHead == |log| % LOG_SIZE
      && KeepsLast(events[..], log)
    }

    ghost function Mon(): (m: Monitor)
      requires Valid()
      reads this, devices, events
      ensures m.Valid()
    {
      Monitor(globalKey, devices[..], log, lastRequestAddr, lastRequestCmd, lastRequestTime, totalPackets, crcErrors)
    }

    ghost function State(): (e: Ear)
      requires Valid()
      reads this, devices, events, rxBuf
      ensures e.mon.Valid() && |e.rx| <= MAX_PACKET
    {
      Ear(Mon(), rxBuf[..rxPos], lastRx)
    }

    constructor ()
      ensures Valid() && fresh(devices) && fresh(events) && fresh(rxBuf)
      ensures log == [] && caught == [] && rxPos == 0
      ensures lastRequestAddr == 0 && globalKey == 0 && offlineTimeout == 30000
      ensures forall i :: 0 <= i < MAX_DEVICES ==> !devices[i].online
    {
      globalKey := 0;
      devices := new DeviceInfo[MAX_DEVICES](_ =>
        DeviceInfo(false, 0, 0, 0, 0, 0, 0, 0, seq(ZONES_PER_DEVICE, _ => ZoneInfo(0, 0))));
      events := new BusEvent[LOG_SIZE](_ => BusEvent(0, 0, 0, 0, 0));
      rxBuf := new byte[MAX_PACKET](_ => 0);
      eventHead, eventCount, rxPos, lastRx := 0, 0, 0, 0;
      lastRequestAddr, lastRequestCmd, lastRequestTime := 0, 0, 0;
      totalPackets, crcErrors, offlineTimeout, lastOfflineCheck := 0, 0, 30000, 0;
      log, caught := [], [];
    }

    /** `logEvent`. */
    method LogEvent(e: BusEvent)
      requires Valid()
      modifies this`eventHead, this`eventCount, this`log, events
      ensures Valid() && log == old(log) + [e]
    {
      hide KeepsLast;
      KeepsLastAppend(events[..], log, e);
      NextSlot(|log|);
      ghost var buf := events[..];
      events[eventHead] := e;
      assert events[..] == buf[eventHead := e];
      eventHead := (eventHead + 1) % LOG_SIZE;
      if eventCount < LOG_SIZE {
        eventCount := eventCount + 1;
      }
      log := log + [e];
    }

    static lemma NextSlot(n: nat)
      ensures (n % LOG_SIZE + 1) % LOG_SIZE == (n + 1) % LOG_SIZE
    {}

    /** `getEvent`: the i-th oldest of the events still held. */
    method GetEvent(index: nat) returns (e: Option<BusEvent>)
      requires Valid()
      ensures var held := if |log| < LOG_SIZE then |log| else LOG_SIZE;
              e == if index < held then Some(log[|log| - held + index]) else None
    {
      hide KeepsLast;
      if index >= eventCount {
        return None;
      }
      var pos := if eventCount < LOG_SIZE then index else (eventHead + index) % LOG_SIZE;
      SlotOfEvent(|log|, index);
      KeptAt(events[..], log, |log| - eventCount + index);
      e := Some(events[pos]);
    }

    /** Counting from the head of a full ring, or from the start of one not yet full, finds the event's slot. */
    static lemma SlotOfEvent(n: nat, index: nat)
      requires index < n && index < LOG_SIZE
      ensures if n < LOG_SIZE then index == (n - n + index) % LOG_SIZE
              else (n % LOG_SIZE + index) % LOG_SIZE == (n - LOG_SIZE + index) % LOG_SIZE
    {}

    /** One row of the device table. */
    method SetDevice(i: nat, info: DeviceInfo)
      requires Valid() && i < MAX_DEVICES && |info.zones| == ZONES_PER_DEVICE
      modifies devices
      ensures Valid() && Mon() == old(Mon()).(devices := old(Mon()).devices[i := info])
    {
      hide LogKept;
      ghost var before := devices[..];
      devices[i] := info;
      assert devices[..] == before[i := info];
    }

    /** `updateDeviceStatus`. */
    method UpdateDeviceStatus(addr: byte, zone: byte, status: byte, now: uint32)
      requires Valid() && IsBusAddress(addr)
      modifies devices
      ensures Valid() && Mon() == UpdateStatus(old(Mon()), addr, zone, status, now)
    {
      hide ToNat, LogKept;
      var i, z := ToNat(addr) - 1, ToNat(zone);
      if z > 0 && z <= ZONES_PER_DEVICE {
        var dev := devices[i];
        if dev.zones[z - 1].status != status {
          SetDevice(i, dev.(
            zones := dev.zones[z - 1 := ZoneInfo(status, now)],
            zoneCount := if z > dev.zoneCount then z else dev.zoneCount));
          return;
        }
      }
      assert devices[..][i := devices[i]] == devices[..];
    }

    /** `decodeRequest`, with the request remembered by its caller. */
    method DecodeRequest(addr: byte, payload: seq<byte>, encrypted: bool, now: uint32)
      requires Valid() && IsBusAddress(addr)
      modifies this`lastRequestAddr, this`lastRequestCmd, this`lastRequestTime, devices
      ensures Valid() && Mon() == OnRequest(old(Mon()), addr, payload, encrypted, now)
    {
      hide ToNat, Xor, LogKept;
      if |payload| >= 1 {
        if encrypted && |payload| >= 2 {
          lastRequestCmd := Xor(payload[1], Xor(payload[0], globalKey));
        } else {
          lastRequestCmd := payload[0];
        }
        var i := ToNat(addr) - 1;
        SetDevice(i, devices[i].(polls := devices[i].polls + 1));
      }
      lastRequestAddr, lastRequestTime := addr, now;
    }

    /** The decrypting half of `decodeResponse`. */
    method DecodeAnswer(addr: byte, text: seq<byte>, now: uint32)
      requires Valid() && IsBusAddress(addr)
      modifies this`eventHead, this`eventCount, this`log, devices, events
      ensures Valid() && Mon() == OnAnswer(old(Mon()), addr, text, now)
    {
      hide ToNat, UpdateStatus;
      if lastRequestCmd == CMD_READ_STATUS {
        if |text| >= 3 {
          UpdateDeviceStatus(addr, text[1], text[2], now);
        }
      } else if lastRequestCmd == CMD_READ_EVENT {
        if |text| >= 2 {
          var extra := if |text| >= 3 then text[2] else 0;
          if text[0] != 0 {
            LogEvent(BusEvent(addr, text[0], text[1], extra, now));
            UpdateDeviceStatus(addr, text[1], text[0], now);
          }
        }
      }
    }

    /** The deciphering of `decodeResponse`: the text after the key byte. */
    method DecipheredText(payload: seq<byte>, key: byte) returns (text: seq<byte>)
      requires |payload| >= 2
      ensures text == Decipher(payload, key)[1..]
    {
      hide Xor, Decipher;
      var decrypted := new byte[|payload| - 1];
      for j := 1 to |payload|
        invariant forall k :: 1 <= k < j ==> decrypted[k - 1] == Xor(payload[k], key)
      {
        decrypted[j - 1] := Xor(payload[j], key);
      }
      text := decrypted[..];
      DecipherIs(payload, key, [payload[0]] + text);
    }

    /** The unencrypted half of `decodeResponse`. */
    method DecodePlainAnswer(addr: byte, payload: seq<byte>)
      requires Valid() && IsBusAddress(addr) && payload != []
      modifies devices
      ensures Valid() && Mon() == OnPlainAnswer(old(Mon()), addr, payload)
    {
      hide ToNat, LogKept;
      var i := ToNat(addr) - 1;
      if lastRequestCmd == CMD_READ_DEVICE_TYPE {
        SetDevice(i, devices[i].(deviceType := payload[0]));
      } else if lastRequestCmd == CMD_READ_VERSION {
        if |payload| >= 2 {
          SetDevice(i, devices[i].(fwMajor := payload[0], fwMinor := payload[1]));
        }
      }
    }

    /** `decodeResponse`. */
    method DecodeResponse(addr: byte, payload: seq<byte>, encrypted: bool, now: uint32)
      requires Valid() && IsBusAddress(addr)
      modifies this`eventHead, this`eventCount, this`log, devices, events
      ensures Valid() && Mon() == OnResponse(old(Mon()), addr, payload, encrypted, now)
    {
      hide ToNat, Xor, Decipher, OnAnswer, OnPlainAnswer, LogKept, Logged;
      if |payload| < 1 {
        return;
      }
      var i := ToNat(addr) - 1;
      SetDevice(i, devices[i].(online := true, lastSeen := now, responses := devices[i].responses + 1));
      assert Mon() == Seen(old(Mon()), addr, now);
      if encrypted && |payload| >= 2 {
        var text := DecipheredText(payload, Xor(payload[0], globalKey));
        DecodeAnswer(addr, text, now);
      } else {
        DecodePlainAnswer(addr, payload);
      }
    }

    /** The second half of `processPacket`: the frame counts, and is a response or a request. */
    method DecodeFrame(raw: byte, payload: seq<byte>, now: uint32)
      requires Valid() && IsBusAddress(BusAddress(raw))
      modifies this`eventHead, this`eventCount, this`log, devices, events
      modifies this`lastRequestAddr, this`lastRequestCmd, this`lastRequestTime, this`totalPackets
      ensures Valid() && Mon() == OnFrame(old(Mon()), raw, payload, now)
    {
      hide OnResponse, OnRequest, BusAddress, ToNat;
      totalPackets := totalPackets + 1;
      var encrypted := raw >= ENCRYPT_OFFSET;
      var addr := BusAddress(raw);
      var isResponse := lastRequestAddr == addr && Elapsed(now, lastRequestTime) < REQUEST_RESPONSE_GAP_MS;
      if isResponse {
        DecodeResponse(addr, payload, encrypted, now);
      } else {
        DecodeRequest(addr, payload, encrypted, now);
      }
    }

    /** `processPacket` on the first `len` bytes received. */
    method ProcessPacket(len: nat, now: uint32)
      requires Valid() && len <= rxBuf.Length
      modifies this`eventHead, this`eventCount, this`log, devices, events
      modifies this`lastRequestAddr, this`lastRequestCmd, this`lastRequestTime, this`totalPackets, this`crcErrors
      modifies this`caught
      ensures Valid() && Mon() == Observe(old(Mon()), rxBuf[..len], now)
      ensures caught == old(caught) + [Caught(rxBuf[..len], now)]
    {
      hide ToNat, Crc8, OnFrame, BusAddress;
      caught := caught + [Caught(rxBuf[..len], now)];
      if len < 3 {
        return;
      }
      var raw := rxBuf[0];
      var addr := BusAddress(raw);
      if ToNat(addr) == 0 || ToNat(addr) > MAX_DEVICES {
        return;
      }
      var n := ToNat(rxBuf[1]);
      if len < 2 + n {
        return;
      }
      var crcLen := 2 + n - 1;
      var expected := Compute(rxBuf, crcLen);
      assert rxBuf[..len][..crcLen] == rxBuf[..crcLen];
      ZeroLengthFails(rxBuf[..len]);
      if expected != rxBuf[crcLen] {
        crcErrors := crcErrors + 1;
        return;
      }
      var payload := rxBuf[2..2 + (n - 1)];
      assert payload == rxBuf[..len][2..1 + n];
      DecodeFrame(raw, payload, now);
    }

    /** A zero length byte never passes the CRC test for a device address: the payload length cannot wrap. */
    lemma ZeroLengthFails(data: seq<byte>)
      requires |data| >= 3 && IsBusAddress(BusAddress(data[0]))
      ensures ToNat(data[1]) == 0 ==> Crc8(data[..1]) != data[1]
    {
      hide Crc8;
      if ToNat(data[1]) == 0 {
        ToNatInjective(data[1], 0);
        NoZeroLengthFrame(data);
      }
    }

    /** `checkOfflineDevices`. */
    method CheckOfflineDevices(now: uint32)
      requires Valid()
      modifies devices
      ensures Valid() && devices[..] == StaleAll(old(devices[..]), now, offlineTimeout)
    {
      for i := 0 to MAX_DEVICES
        invariant forall j :: 0 <= j < MAX_DEVICES ==>
          devices[j] == if j < i then Stale(old(devices[j]), now, offlineTimeout) else old(devices[j])
      {
        var d := devices[i];
        if d.online && d.lastSeen > 0 && Elapsed(now, d.lastSeen) > offlineTimeout {
          devices[i] := d.(online := false);
        }
      }
    }

    /** One byte into the buffer; a full buffer starts over. */
    method Store(a: Arrival)
      requires Valid()
      modifies rxBuf, this`rxPos, this`lastRx
      ensures Valid() && Mon() == old(Mon()) && lastRx == a.us
      ensures rxPos >= 1 && rxBuf[..rxPos] == Extend(old(rxBuf[..rxPos]), a.value)
    {
      if rxPos >= MAX_PACKET {
        rxPos := 0;
      }
      rxBuf[rxPos] := a.value;
      rxPos := rxPos + 1;
      lastRx := a.us;
    }

    /** The body of the receive loop of `poll`. */
    method Receive(a: Arrival)
      requires Valid()
      modifies this`eventHead, this`eventCount, this`log, devices, events, rxBuf, this`rxPos, this`lastRx
      modifies this`lastRequestAddr, this`lastRequestCmd, this`lastRequestTime, this`totalPackets, this`crcErrors
      modifies this`caught
      ensures Valid() && State() == HearByte(old(State()), a)
      ensures caught == old(caught) + CaughtByByte(old(rxBuf[..rxPos]), a)
    {
      hide ToNat, Observe, LogKept, Extend;
      Store(a);
      if rxPos >= 2 {
        var expectedTotal := (2 + ToNat(rxBuf[1])) % 256;
        if rxPos == expectedTotal && expectedTotal >= 3 {
          ProcessPacket(rxPos, a.ms);
          rxPos := 0;
        }
      }
    }

    /** The silence test of `poll`. */
    method CloseAfterSilence(nowUs: uint32, nowMs: uint32)
      requires Valid()
      modifies this`eventHead, this`eventCount, this`log, devices, events, this`rxPos
      modifies this`lastRequestAddr, this`lastRequestCmd, this`lastRequestTime, this`totalPackets, this`crcErrors
      modifies this`caught
      ensures Valid() && State() == CloseSilent(old(State()), nowUs, nowMs)
      ensures caught == old(caught) + CaughtBySilence(Framer(old(rxBuf[..rxPos]), old(lastRx)), Turn(nowUs, nowMs, []))
    {
      hide Observe, LogKept;
      if rxPos > 0 && Elapsed(nowUs, lastRx) > INTER_BYTE_TIMEOUT_US {
        if rxPos >= 3 {
          ProcessPacket(rxPos, nowMs);
        }
        rxPos := 0;
      }
    }

    /** The receive loop of `poll`. */
    method ReceiveAll(input: seq<Arrival>)
      requires Valid()
      modifies this`eventHead, this`eventCount, this`log, devices, events, rxBuf, this`rxPos, this`lastRx
      modifies this`lastRequestAddr, this`lastRequestCmd, this`lastRequestTime, this`totalPackets, this`crcErrors
      modifies this`caught
      ensures Valid() && State() == HearAll(old(State()), input)
      ensures caught == old(caught) + CaughtBy(old(rxBuf[..rxPos]), input)
    {
      hide Valid, HearByte, CaughtByByte, Held;
      ghost var start := State();
      for i := 0 to |input|
        invariant Valid() && State() == HearAll(start, input[..i])
        invariant caught == old(caught) + CaughtBy(start.rx, input[..i])
      {
        assert input[..i + 1][..i] == input[..i];
        HearingIsDecoding(start, input[..i]);
        ghost var before := CaughtBy(start.rx, input[..i]);
        PlusAssociative(old(caught), before, CaughtByByte(Held(start.rx, ValuesOf(input[..i])), input[i]));
        Receive(input[i]);
      }
      assert input[..|input|] == input;
    }

    /** `poll`: close a frame after silence, hear the bytes available, and every five seconds look for silence. */
    method Poll(t: Turn)
      requires Valid()
      modifies this, devices, events, rxBuf
      ensures Valid()
      ensures var heard := HearTurn(old(State()), t);
              var check := Elapsed(t.ms, old(lastOfflineCheck)) > OFFLINE_CHECK_MS;
              && State() == (if check then
                               heard.(mon := heard.mon.(devices := StaleAll(heard.mon.devices, t.ms, offlineTimeout)))
                             else heard)
              && lastOfflineCheck == (if check then t.ms else old(lastOfflineCheck))
              && offlineTimeout == old(offlineTimeout)
      ensures caught == old(caught) + CaughtInTurn(Framer(old(rxBuf[..rxPos]), old(lastRx)), t)
    {
      hide HearAll, LogKept, CaughtBy, Observe;
      CloseAfterSilence(t.us, t.ms);
      ReceiveAll(t.input);
      if Elapsed(t.ms, lastOfflineCheck) > OFFLINE_CHECK_MS {
        lastOfflineCheck := t.ms;
        CheckOfflineDevices(t.ms);
      }
    }
  }
}
