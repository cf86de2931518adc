/** Many devices and a passive listener on one bus. */
module Bus {
  import opened Bytes
  import opened Frames
  import opened Devices
  import opened Decoding

  /** Devices by address, the monitor, and the real time of the last request. */
  datatype World = World(devs: map<nat, Device>, mon: Monitor, lastAsk: nat)

  predicate DeviceAt(w: World, a: nat)
    requires a in w.devs
  {
    w.devs[a].Valid() && ToNat(w.devs[a].address) == a && w.devs[a].globalKey == w.mon.key
  }

  /** Every device answers to its own address and holds the monitor's key. */
  predicate Sane(w: World) {
    && w.mon.Valid()
    && (forall a :: a in w.devs ==> DeviceAt(w, a))
    && (w.mon.lastAddr == 0 || w.mon.lastTime == Ticks(w.lastAsk))
  }

  datatype BusOp =
    | Ask(raw: byte, payload: seq<byte>, asked: nat, answered: nat, verdict: bool)
    | Raise(addr: nat, event: Event)

  /** Every device hears the request. */
  function AllHear(devs: map<nat, Device>, raw: byte, payload: seq<byte>, verdict: bool): (r: map<nat, Device>)
    requires forall a :: a in devs ==> devs[a].Valid()
    ensures r.Keys == devs.Keys
  {
    map a | a in devs :: Hear(devs[a], raw, payload, verdict).dev
  }

  /** What the addressed device, if there is one, does. */
  function Answering(w: World, raw: byte, payload: seq<byte>, verdict: bool): Option<Outcome>
    requires Sane(w)
  {
    var a := ToNat(BusAddress(raw));
    if a in w.devs then assert DeviceAt(w, a); Some(Hear(w.devs[a], raw, payload, verdict)) else None
  }

  function BusStep(w: World, op: BusOp): World
    requires Sane(w)
    requires op.Ask? ==> |op.payload| <= MAX_PAYLOAD
  {
    match op
    case Raise(a, e) =>
      if a in w.devs then
        w.(devs := w.devs[a := w.devs[a].(queue := w.devs[a].queue + Accepted(w.devs[a], e))])
      else w
    case Ask(raw, payload, asked, answered, verdict) =>
      assert forall a :: a in w.devs ==> DeviceAt(w, a);
      var m := Observe(w.mon, Frame(raw, payload), Ticks(asked));
      var o := Answering(w, raw, payload, verdict);
      var reply := if o.Some? then ReplyBytes(o.value.dev, o.value.reply) else [];
      World(
        AllHear(w.devs, raw, payload, verdict),
        if reply == [] then m else Observe(m, reply, Ticks(answered)),
        asked)
  }

  /** The log entries owed for a step: the events the addressed device handed to the bus. */
  function BusOwed(w: World, op: BusOp): seq<BusEvent>
    requires Sane(w)
  {
    if op.Raise? then []
    else
      var o := Answering(w, op.raw, op.payload, op.verdict);
      if o.Some? then Owed(BusAddress(op.raw), o.value.popped, Ticks(op.answered)) else []
  }

  /**
   * The request is to a device address and does not change the common key; it does not follow the previous
   * request to the same address within 50 ms (by the wrapping clock), and its answer comes within 50 ms.
   */
  predicate Orderly(w: World, op: BusOp) {
    op.Ask? ==>
      && |op.payload| <= MAX_PAYLOAD && IsBusAddress(BusAddress(op.raw))
      && (!IsEncrypted(op.raw) && SetsKey(op.payload) && |op.payload| >= 4 ==> op.payload[2] == w.mon.key)
      && w.lastAsk <= op.asked <= op.answered < op.asked + REQUEST_RESPONSE_GAP_MS
      && (BusAddress(op.raw) == w.mon.lastAddr ==>
            (op.asked - w.lastAsk) % TWO_TO_THE_32 >= REQUEST_RESPONSE_GAP_MS)
  }

  /** The event taken by a request is what the deciphered command and answer tell the listener. */
  lemma AnswerTellsEvent(d: Device, raw: byte, payload: seq<byte>, verdict: bool, now: uint32)
    requires d.Valid() && BusAddress(raw) == d.address
    ensures var o := Hear(d, raw, payload, verdict);
            && (o.reply.Enciphered? ==>
                  && IsEncrypted(raw) && |payload| >= 2 && o.dev.globalKey == d.globalKey
                  && var cmd := Decipher(payload, Xor(payload[0], d.globalKey))[1];
                     Owed(d.address, o.popped, now) == Logged(cmd, d.address, o.reply.text + [0], now))
            && (!o.reply.Enciphered? ==> o.popped == [])
  {
    hide Xor, Decipher, BusAddress, IsEncrypted, Execute, ExecutePlain, Addressed;
    RawAddress(d.address, raw);
    if IsEncrypted(raw) && |payload| >= 2 {
      var u := Unlock(d, payload);
      ExecuteTellsEvent(u, Decipher(payload, u.messageKey), verdict, now);
    }
  }

  lemma ExecuteTellsEvent(d: Device, plain: seq<byte>, verdict: bool, now: uint32)
    requires d.Valid() && |plain| >= 2
    ensures var o := Execute(d, plain, verdict);
            o.dev.globalKey == d.globalKey &&
            (o.reply.Enciphered? ==>
              Owed(d.address, o.popped, now) == Logged(plain[1], d.address, o.reply.text + [0], now))
  {
    hide ToNat, ToByte, HasZone, WithStatus, ReportedStatus;
    assert CommandOf(plain[1]) == CmdReadEvent <==> plain[1] == CMD_READ_EVENT;
    hide CommandOf;
  }

  lemma RequestIsNoResponse(w: World, op: BusOp)
    requires Sane(w) && op.Ask? && Orderly(w, op)
    ensures !LooksLikeResponse(w.mon, BusAddress(op.raw), Ticks(op.asked))
  {
    hide ToNat, IsEncrypted, SetsKey;
    if w.mon.lastAddr == BusAddress(op.raw) {
      assert IsBusAddress(BusAddress(op.raw)) && ToNat(0) == 0 by { ZeroByte(); }
      ElapsedIsRealTime(op.asked, w.lastAsk);
    }
  }

  lemma ZeroByte()
    ensures ToNat(0) == 0
  {}

  lemma AnswerIsResponse(m: Monitor, addr: byte, asked: nat, answered: nat)
    requires m.lastAddr == addr && m.lastTime == Ticks(asked)
    requires asked <= answered < asked + REQUEST_RESPONSE_GAP_MS
    ensures LooksLikeResponse(m, addr, Ticks(answered))
  {
    ElapsedIsRealTime(answered, asked);
  }

  /** What the monitor makes of an answer, whichever kind it is, when it waits for one. */
  lemma ReplyObserved(m: Monitor, o: Outcome, now: uint32)
    requires m.Valid() && 1 <= o.dev.address <= MAX_ADDRESS && LooksLikeResponse(m, o.dev.address, now)
    requires o.reply.Clear? || o.reply.Enciphered? ==> 1 <= |o.reply.text| <= 7
    requires o.reply.Enciphered? ==> o.dev.globalKey == m.key
    ensures var reply := ReplyBytes(o.dev, o.reply);
            var m' := if reply == [] then m else Observe(m, reply, now);
            && m'.key == m.key && m'.lastTime == m.lastTime
            && m'.log == m.log +
                 (if o.reply.Enciphered? then Logged(m.lastCmd, o.dev.address, o.reply.text + [0], now) else [])
  {
    hide Observe, Frame, Encipher, Logged, LooksLikeResponse, Monitor.Valid;
    match o.reply
    case Silence => assert m.log + [] == m.log;
    case Clear(text) =>
      PlainReplyObserved(m, o.dev.address, text, now);
      assert m.log + [] == m.log;
    case Enciphered(text) => EncryptedReplyObserved(m, o.dev.address, text, o.dev.messageKey, now);
  }

  /** Hearing moves no device to another address. */
  lemma HearKeepsAddress(d: Device, raw: byte, payload: seq<byte>, verdict: bool)
    requires d.Valid()
    ensures var o := Hear(d, raw, payload, verdict);
            o.dev.address == d.address && (o.reply.Clear? || o.reply.Enciphered? ==> 1 <= |o.reply.text| <= 7)
  {
    hide Hear;
  }

  /** What the monitor logs over one request and its answer. */
  lemma AskObserved(w: World, op: BusOp)
    requires Sane(w) && op.Ask? && Orderly(w, op)
    ensures var w' := BusStep(w, op);
            && w'.mon.Valid() && w'.mon.key == w.mon.key && w'.mon.lastTime == Ticks(op.asked)
            && w'.mon.log == w.mon.log + BusOwed(w, op)
  {
    hide Observe, Xor, ToNat, BusAddress, IsEncrypted, Decipher, Hear, Frame, ReplyBytes, Logged, IsBusAddress,
         LooksLikeResponse, Sane, BusStep, Owed, Device.Valid;
    var raw, payload, a := op.raw, op.payload, BusAddress(op.raw);
    SaneMonitor(w);
    RequestIsNoResponse(w, op);
    RequestObserved(w.mon, raw, payload, Ticks(op.asked));
    var m := Observe(w.mon, Frame(raw, payload), Ticks(op.asked));
    if ToNat(a) in w.devs {
      var d := w.devs[ToNat(a)];
      AskStep(w, op, d);
      var o := Hear(d, raw, payload, op.verdict);
      HearKeepsAddress(d, raw, payload, op.verdict);
      AnswerTellsEvent(d, raw, payload, op.verdict, Ticks(op.answered));
      AnswerIsResponse(m, a, op.asked, op.answered);
      ValidAddress(d);
      ReplyObserved(m, o, Ticks(op.answered));
      OwedNothing(a, Ticks(op.answered));
    } else {
      AskNobody(w, op);
      assert w.mon.log + [] == w.mon.log;
    }
  }

  lemma ValidAddress(d: Device)
    requires d.Valid()
    ensures 1 <= d.address <= MAX_ADDRESS
  {}

  lemma OwedNothing(addr: byte, now: uint32)
    ensures Owed(addr, [], now) == []
  {}

  lemma AskNobody(w: World, op: BusOp)
    requires Sane(w) && op.Ask? && |op.payload| <= MAX_PAYLOAD && ToNat(BusAddress(op.raw)) !in w.devs
    ensures BusStep(w, op).mon == Observe(w.mon, Frame(op.raw, op.payload), Ticks(op.asked))
    ensures BusOwed(w, op) == []
  {
    hide Observe, Frame, ToNat, BusAddress, Hear;
  }

  // --- Status answers ---

  /** The addressed device, asked for its status, has answered with the zone count where the listener reads a status. */
  lemma StatusAnswer(d: Device, raw: byte, payload: seq<byte>, verdict: bool)
    requires d.Valid() && BusAddress(raw) == d.address && IsEncrypted(raw) && |payload| >= 2
    requires Decipher(payload, Xor(payload[0], d.globalKey))[1] == CMD_READ_STATUS
    ensures var o := Hear(d, raw, payload, verdict);
            && o.dev == Unlock(d, payload) && o.reply.Enciphered? && |o.reply.text| == 7
            && o.reply.text[1] == 2 && o.reply.text[2] == ToByte(d.zoneCount)
  {
    hide Xor, Decipher, BusAddress, IsEncrypted, Addressed, Sound, ReportedStatus, ToNat, ToByte;
    RawAddress(d.address, raw);
    ReactCases(d, raw, payload, verdict);
  }

  /** A status answer writes its third byte into the zone its second byte names, and nowhere else. */
  lemma StatusDecoded(m: Monitor, addr: byte, text: seq<byte>, now: uint32)
    requires m.Valid() && IsBusAddress(addr) && |text| >= 3 && m.lastCmd == CMD_READ_STATUS && text[1] == 2
    ensures var before, after := m.devices[ToNat(addr) - 1], OnAnswer(m, addr, text, now).devices[ToNat(addr) - 1];
            && after.zones[1].status == text[2]
            && (forall z :: 0 <= z < ZONES_PER_DEVICE && z != 1 ==> after.zones[z] == before.zones[z])
  {
    assert ToNat(2) == 2;
  }

  lemma SeenZones(m: Monitor, addr: byte, now: uint32)
    requires m.Valid() && IsBusAddress(addr)
    ensures var s := Seen(m, addr, now);
            s.lastCmd == m.lastCmd && s.devices[ToNat(addr) - 1].zones == m.devices[ToNat(addr) - 1].zones
  {
    hide ToNat;
  }

  lemma UnlockKeepsKey(d: Device, payload: seq<byte>)
    requires payload != []
    ensures Unlock(d, payload).globalKey == d.globalKey && Unlock(d, payload).address == d.address
    ensures Unlock(d, payload).zones == d.zones
  {}

  /** The monitor, waiting for a status, after it has heard the answer of a device with `count` zones. */
  lemma StatusHeard(m: Monitor, own: byte, text: seq<byte>, messageKey: byte, now: uint32, count: byte)
    requires m.Valid() && 1 <= own <= MAX_ADDRESS && LooksLikeResponse(m, own, now)
    requires m.lastCmd == CMD_READ_STATUS && |text| == 7 && text[1] == 2 && text[2] == count
    ensures IsBusAddress(own)
    ensures var before := m.devices[ToNat(own) - 1];
            var after := Observe(m, EncryptedReply(own, text, m.key, messageKey), now).devices[ToNat(own) - 1];
            && after.zones[1].status == count
            && (forall z :: 0 <= z < ZONES_PER_DEVICE && z != 1 ==> after.zones[z] == before.zones[z])
  {
    hide Observe, ToNat, EncryptedReply, OnAnswer, Seen, LooksLikeResponse, IsBusAddress;
    EncryptedReplyDecoded(m, own, text, messageKey, now);
    var counted := m.(totalPackets := m.totalPackets + 1);
    SeenZones(counted, own, now);
    StatusDecoded(Seen(counted, own, now), own, text + [0], now);
  }

  /** The request asks a device on the bus for its status. */
  predicate AsksStatus(w: World, op: BusOp) {
    && op.Ask? && IsEncrypted(op.raw) && |op.payload| >= 2
    && ToNat(BusAddress(op.raw)) in w.devs
    && Decipher(op.payload, Xor(op.payload[0], w.mon.key))[1] == CMD_READ_STATUS
  }

  lemma AskStep(w: World, op: BusOp, d: Device)
    requires Sane(w) && op.Ask? && |op.payload| <= MAX_PAYLOAD
    requires ToNat(BusAddress(op.raw)) in w.devs && d == w.devs[ToNat(BusAddress(op.raw))]
    ensures d.Valid() && d.address == BusAddress(op.raw) && d.globalKey == w.mon.key
    ensures var o := Hear(d, op.raw, op.payload, op.verdict);
            var m := Observe(w.mon, Frame(op.raw, op.payload), Ticks(op.asked));
            var reply := ReplyBytes(o.dev, o.reply);
            && BusStep(w, op).mon == (if reply == [] then m else Observe(m, reply, Ticks(op.answered)))
            && ToNat(BusAddress(op.raw)) in BusStep(w, op).devs
            && BusStep(w, op).devs[ToNat(BusAddress(op.raw))] == o.dev
  {
    hide Observe, ToNat, BusAddress, Hear, Frame, ReplyBytes, Sound;
    assert DeviceAt(w, ToNat(BusAddress(op.raw)));
    ToNatInjective(d.address, BusAddress(op.raw));
  }

  lemma EncipheredReply(o: Outcome)
    requires o.reply.Enciphered? && |o.reply.text| <= 7
    ensures ReplyBytes(o.dev, o.reply) == EncryptedReply(o.dev.address, o.reply.text, o.dev.globalKey, o.dev.messageKey)
    ensures ReplyBytes(o.dev, o.reply) != []
  {
    hide Frame, Encipher;
  }

  /**
   * After an orderly status request to a device with the monitor's key, the monitor holds for zone 2 of that
   * device the number of its zones, whatever the device reports, and no other zone has changed.
   */
  lemma StatusObserved(w: World, op: BusOp, d: Device)
    requires Sane(w) && AsksStatus(w, op) && Orderly(w, op) && d == w.devs[ToNat(BusAddress(op.raw))]
    ensures d.zoneCount <= MAX_ZONES
    ensures var i := ToNat(BusAddress(op.raw)) - 1;
            var m, m' := Observe(w.mon, Frame(op.raw, op.payload), Ticks(op.asked)), BusStep(w, op).mon;
            && m'.devices[i].zones[1].status == ToByte(d.zoneCount)
            && (forall z :: 0 <= z < ZONES_PER_DEVICE && z != 1 ==> m'.devices[i].zones[z] == m.devices[i].zones[z])
  {
    hide Observe, Xor, ToNat, ToByte, BusAddress, IsEncrypted, Decipher, Hear, Frame, Unlock, ReplyBytes,
         EncryptedReply, BusStep, LooksLikeResponse, IsBusAddress, Sound, Sane, SetsKey;
    var a := BusAddress(op.raw);
    OrderlyFits(w, op);
    AskStep(w, op, d);
    RequestIsNoResponse(w, op);
    SaneMonitor(w);
    RequestObserved(w.mon, op.raw, op.payload, Ticks(op.asked));
    var m := Observe(w.mon, Frame(op.raw, op.payload), Ticks(op.asked));
    StatusAnswer(d, op.raw, op.payload, op.verdict);
    UnlockKeepsKey(d, op.payload);
    var o := Hear(d, op.raw, op.payload, op.verdict);
    AnswerIsResponse(m, a, op.asked, op.answered);
    EncipheredReply(o);
    StatusHeard(m, a, o.reply.text, o.dev.messageKey, Ticks(op.answered), ToByte(d.zoneCount));
  }

  lemma SaneMonitor(w: World)
    requires Sane(w)
    ensures w.mon.Valid()
  {}

  /** So what the monitor then holds for zone 2 is right exactly when the zone count equals that zone's status byte. */
  lemma StatusRightIff(w: World, op: BusOp, d: Device)
    requires Sane(w) && AsksStatus(w, op) && Orderly(w, op) && d == w.devs[ToNat(BusAddress(op.raw))]
    ensures d.Valid()
    ensures var w', a := BusStep(w, op), ToNat(BusAddress(op.raw));
            && a in w'.devs && |w'.devs[a].zones| == MAX_ZONES
            && (w'.mon.devices[a - 1].zones[1].status == w'.devs[a].zones[1].status <==>
                ToByte(d.zoneCount) == d.zones[1].status)
  {
    hide Observe, Xor, ToNat, ToByte, BusAddress, IsEncrypted, Decipher, Hear, Frame, Unlock, ReplyBytes,
         BusStep, IsBusAddress, Sound, Sane, Orderly;
    OrderlyFits(w, op);
    AskStep(w, op, d);
    StatusObserved(w, op, d);
    StatusAnswer(d, op.raw, op.payload, op.verdict);
    UnlockKeepsKey(d, op.payload);
  }

  // --- Invariants of the bus ---

  lemma HearKeepsPlace(d: Device, raw: byte, payload: seq<byte>, verdict: bool, key: byte)
    requires d.Valid() && d.globalKey == key
    requires !IsEncrypted(raw) && SetsKey(payload) && |payload| >= 4 ==> payload[2] == key
    ensures var d' := Hear(d, raw, payload, verdict).dev;
            d'.Valid() && d'.address == d.address && d'.globalKey == key
  {
    hide React, Addressed, IsEncrypted, SetsKey;
    ReactKey(d, raw, payload, verdict);
  }

  lemma AskSane(w: World, op: BusOp)
    requires Sane(w) && op.Ask? && Orderly(w, op)
    ensures Sane(BusStep(w, op))
  {
    hide Observe, Hear, Frame, ToNat, Encipher, BusAddress, IsEncrypted, SetsKey, ReplyBytes,
         IsBusAddress, Device.Valid;
    AskObserved(w, op);
    var w' := BusStep(w, op);
    forall a | a in w'.devs
      ensures DeviceAt(w', a)
    {
      assert DeviceAt(w, a);
      HearKeepsPlace(w.devs[a], op.raw, op.payload, op.verdict, w.mon.key);
      assert w'.devs[a] == Hear(w.devs[a], op.raw, op.payload, op.verdict).dev;
    }
  }

  lemma RaiseSane(w: World, op: BusOp)
    requires Sane(w) && op.Raise?
    ensures Sane(BusStep(w, op)) && BusStep(w, op).devs.Keys == w.devs.Keys
  {
    var w' := BusStep(w, op);
    forall a | a in w'.devs
      ensures DeviceAt(w', a)
    {
      assert DeviceAt(w, a);
      if op.addr in w.devs {
        assert DeviceAt(w, op.addr);
      }
    }
  }

  lemma BusStepSane(w: World, op: BusOp)
    requires Sane(w) && Orderly(w, op)
    ensures Sane(BusStep(w, op)) && BusStep(w, op).devs.Keys == w.devs.Keys
    ensures BusStep(w, op).mon.log == w.mon.log + BusOwed(w, op)
  {
    hide Observe, Hear, Frame, ToNat, Encipher, BusAddress, IsEncrypted, SetsKey, Sane;
    if op.Ask? {
      AskObserved(w, op);
      AskSane(w, op);
    } else {
      RaiseSane(w, op);
    }
  }

  // --- Runs ---

  predicate OrderlyRun(w: World, ops: seq<BusOp>)
    requires Sane(w)
    decreases |ops|
  {
    ops == [] ||
    (Orderly(w, ops[0]) && (BusStepSane(w, ops[0]); OrderlyRun(BusStep(w, ops[0]), ops[1..])))
  }

  function BusRun(w: World, ops: seq<BusOp>): World
    requires Sane(w) && OrderlyRun(w, ops)
    decreases |ops|
  {
    if ops == [] then w else BusStepSane(w, ops[0]); BusRun(BusStep(w, ops[0]), ops[1..])
  }

  function OwedByRun(w: World, ops: seq<BusOp>): seq<BusEvent>
    requires Sane(w) && OrderlyRun(w, ops)
    decreases |ops|
  {
    if ops == [] then []
    else BusStepSane(w, ops[0]); BusOwed(w, ops[0]) + OwedByRun(BusStep(w, ops[0]), ops[1..])
  }

  lemma OrderlyFits(w: World, op: BusOp)
    requires Orderly(w, op)
    ensures op.Ask? ==> |op.payload| <= MAX_PAYLOAD
  {}

  lemma RunUnfolds(w: World, ops: seq<BusOp>)
    requires Sane(w) && OrderlyRun(w, ops) && ops != []
    ensures Orderly(w, ops[0]) && Sane(BusStep(w, ops[0])) && OrderlyRun(BusStep(w, ops[0]), ops[1..])
    ensures BusStep(w, ops[0]).mon.log == w.mon.log + BusOwed(w, ops[0])
    ensures BusRun(w, ops) == BusRun(BusStep(w, ops[0]), ops[1..])
    ensures OwedByRun(w, ops) == BusOwed(w, ops[0]) + OwedByRun(BusStep(w, ops[0]), ops[1..])
  {
    hide BusStep, BusOwed, Sane, Orderly;
    BusStepSane(w, ops[0]);
  }

  lemma NoRun(w: World)
    requires Sane(w)
    ensures OrderlyRun(w, []) && BusRun(w, []) == w && OwedByRun(w, []) == []
  {
    hide Sane;
  }

  /** A monitor with the common key logs exactly the events with a code that the devices handed out, in order. */
  lemma {:induction false} ListenerAgrees(w: World, ops: seq<BusOp>)
    requires Sane(w) && OrderlyRun(w, ops)
    ensures Sane(BusRun(w, ops))
    ensures BusRun(w, ops).mon.log == w.mon.log + OwedByRun(w, ops)
    decreases |ops|
  {
    hide BusStep, BusOwed, Sane, Orderly, OrderlyRun, BusRun, OwedByRun;
    if ops == [] {
      NoRun(w);
      assert w.mon.log + [] == w.mon.log;
    } else {
      RunUnfolds(w, ops);
      OrderlyFits(w, ops[0]);
      ListenerAgrees(BusStep(w, ops[0]), ops[1..]);
      PlusAssociative(w.mon.log, BusOwed(w, ops[0]), OwedByRun(BusStep(w, ops[0]), ops[1..]));
    }
  }
}
