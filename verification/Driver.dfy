/** The PC driver's commands and the event drain loop, run against the emulated device. */
module Driver {
  import opened Bytes
  import opened Crc
  import opened Frames
  import opened Packets
  import opened Devices
  import opened Stations
  import opened Slave
  import opened Links

  /** The wire between one driver and one device; `clock` is real time in milliseconds. */
  class Link {
    const slave: OrionSlave
    var clock: nat

    constructor (s: OrionSlave)
      requires s.Valid()
      ensures slave == s && clock == 0
    {
      slave, clock := s, 0;
    }

    /** Everything a transaction may change. */
    ghost function Repr(): set<object> {
      {this, slave, slave.zones, slave.events, slave.rxBuf}
    }

    /** The device is idle: nothing half received. */
    ghost predicate Quiet()
      reads this, slave
    {
      slave.Valid() && slave.rxPos == 0
    }

    ghost function Dev(): (d: Device)
      requires Quiet()
      reads this, slave, slave.zones, slave.events
      ensures d.Valid()
    {
      slave.Dev()
    }

    /** Carries a request to the device, waits out the silence, and carries the answer back. */
    method Carry(request: seq<byte>, fate: Fate, verdict: bool, ghost q: Request) returns (reply: seq<byte>)
      requires Quiet() && |q.payload| <= MAX_PAYLOAD && request == Frame(q.address, q.payload)
      modifies Repr()
      ensures Quiet()
      ensures var o := Exchange(old(Dev()), q.address, q.payload, fate, verdict);
              Dev() == o.dev && reply == Arriving(ReplyBytes(o.dev, o.reply), fate)
    {
      hide Frame, React, Accept, ReplyBytes, Sound;
      SilenceIsEmpty(Dev());
      if fate.RequestLost? {
        return [];
      }
      var sent := slave.tx;
      ghost var s, t := slave.State(), clock;
      slave.Poll(Ticks(clock), AtOnce(request, Ticks(clock)), verdict);
      clock := clock + INTER_BYTE_TIMEOUT_MS + 1;
      FrameAtOnce(s, t, q.address, q.payload, verdict);
      NothingSent(s, Ticks(t), verdict);
      assert slave.tx == sent;
      slave.Poll(Ticks(clock), [], verdict);
      reply := Arriving(slave.tx[|sent|..], fate);
    }
  }

  /** What of a reply reaches the driver. */
  function Arriving(bytes: seq<byte>, fate: Fate): seq<byte> {
    match fate
    case Delivered => bytes
    case RequestLost => []
    case ReplyLost(arrived) => CutShort(bytes, arrived)
  }

  /** All the bytes read in one poll at one clock reading. */
  function AtOnce(bytes: seq<byte>, at: uint32): seq<Timed> {
    seq(|bytes|, i requires 0 <= i < |bytes| => Timed(bytes[i], at))
  }

  lemma AtOnceClocked(bytes: seq<byte>, t: nat)
    requires bytes != []
    ensures var p := RealPoll(t, seq(|bytes|, i requires 0 <= i < |bytes| => RealByte(bytes[i], t)));
            && BytesOf(p.incoming) == bytes && Clocked(p) == Chunk(Ticks(t), AtOnce(bytes, Ticks(t)))
            && Prompt([p]) && BytesRead([p]) == bytes && LastByte([p]) == Some(t)
  {
    var p := RealPoll(t, seq(|bytes|, i requires 0 <= i < |bytes| => RealByte(bytes[i], t)));
    assert [p][..0] == [];
    assert BytesOf(p.incoming) == bytes && [] + bytes == bytes;
  }

  lemma OnePoll(s: Station, p: RealPoll, verdict: bool)
    requires s.Valid() && s.rx == []
    ensures PollChunks(s, AllClocked([p]), verdict) == PollStation(s, Ticks(p.at), Clocked(p).incoming, verdict)
  {
    hide PollStation, Clocked;
    assert [p][..0] == [];
    LastPoll(s, [p], verdict);
  }

  /** A frame read in one poll and closed 6 ms later. */
  lemma FrameAtOnce(s: Station, t: nat, address: byte, payload: seq<byte>, verdict: bool)
    requires s.Valid() && s.rx == [] && |payload| <= MAX_PAYLOAD
    ensures var m := PollStation(s, Ticks(t), AtOnce(Frame(address, payload), Ticks(t)), verdict);
            && m.dev == s.dev
            && PollOutcome(m, Ticks(t + 6), verdict) == Hear(s.dev, address, payload, verdict)
            && PollStation(m, Ticks(t + 6), [], verdict).dev == Hear(s.dev, address, payload, verdict).dev
            && PollStation(m, Ticks(t + 6), [], verdict).rx == []
  {
    hide PollStation, PollOutcome, Frame, Hear, AllClocked, Clocked, Sound, PollChunks, AtOnce;
    var f := Frame(address, payload);
    var p := RealPoll(t, seq(|f|, i requires 0 <= i < |f| => RealByte(f[i], t)));
    AtOnceClocked(f, t);
    OnePoll(s, p, verdict);
    assert f + [] == f;
    FrameReachesDevice(s, [p], t + 6, [], address, payload, [], verdict);
    assert Values([]) == [];
  }

  lemma NothingSent(s: Station, at: uint32, verdict: bool)
    requires s.Valid() && s.rx == []
    ensures var o := PollOutcome(s, at, verdict); ReplyBytes(o.dev, o.reply) == []
  {}

  /** The bytes of a call on the wire. */
  function WireFrame(k: Keys, address: byte, c: Call): seq<byte> {
    Frame(OnWire(k, address, c).address, OnWire(k, address, c).payload)
  }

  // --- What a read-event answer means to the driver ---

  datatype ReadResult = ReadFailed | NoEvents | Got(event: Event)

  /** `orion_cmd_read_event` on what came back: under four payload bytes there was no event. */
  function ReadResultOf(k: Keys, r: Option<Packet>): ReadResult {
    if r == None then ReadFailed
    else
      var p := Decrypt(r.value, k.message).payload;
      if |p| < 4 then NoEvents else Got(Event(p[1], p[2], p[3]))
  }

  /** A read over any link: the event comes, or was never taken, or is lost with the reply. */
  lemma ReadEventCall(k: Keys, d: Device, fate: Fate, verdict: bool)
    requires d.Valid() && d.globalKey == k.global
    ensures var d' := CallOutcome(k, d, d.address, CallReadEvent, fate, verdict).dev;
            var r := ReadResultOf(k, CallResponse(k, d, d.address, CallReadEvent, fate, verdict));
            && d'.globalKey == k.global && d'.address == d.address
            && r == (if !fate.Delivered? then ReadFailed else if d.queue == [] then NoEvents else Got(d.queue[0]))
            && d'.queue == (if fate.RequestLost? || d.queue == [] then d.queue else d.queue[1..])
  {
    hide Xor, Execute, CallOutcome, CallResponse, Sound, Understood;
    var c := CallReadEvent;
    CallExecuted(k, d, c, fate, verdict);
    ReadEventAnswer(k, d, verdict);
    OnlyDelivered(k, d, c, fate, verdict);
    if fate.Delivered? {
      EncryptedReplyUnderstood(k, d, c, verdict);
      ReadReply(k, d, CallResponse(k, d, d.address, c, fate, verdict));
    }
  }

  /** Nothing comes back unless the call is delivered. */
  lemma OnlyDelivered(k: Keys, d: Device, c: Call, fate: Fate, verdict: bool)
    requires d.Valid()
    ensures !fate.Delivered? ==> CallResponse(k, d, d.address, c, fate, verdict) == None
  {
    hide CallOutcome, Sound;
  }

  lemma ReadEventAnswer(k: Keys, d: Device, verdict: bool)
    requires d.Valid() && d.globalKey == k.global
    ensures var u := d.(messageKey := k.message);
            Execute(u, Understood(k, CallReadEvent), verdict) == ReadEvent(u)
  {
    hide Xor, ReadEvent, Sound;
  }

  /** The answer to a read, as the driver reads it. */
  lemma ReadReply(k: Keys, d: Device, r: Option<Packet>)
    requires d.Valid() && r.Some?
    requires var o := ReadEvent(d.(messageKey := k.message));
             o.reply.Enciphered? &&
             Decrypt(r.value, k.message).payload == [Xor(k.global, k.message)] + o.reply.text + [0]
    ensures ReadResultOf(k, r) == if d.queue == [] then NoEvents else Got(d.queue[0])
  {
    hide Xor, Decrypt, Sound;
  }

  /** Confirming takes nothing: the event already left the queue when it was read. It is acknowledged in clear. */
  lemma ConfirmCall(k: Keys, d: Device, fate: Fate, verdict: bool)
    requires d.Valid() && d.globalKey == k.global
    ensures var d' := CallOutcome(k, d, d.address, CallConfirmEvent, fate, verdict).dev;
            var r := CallResponse(k, d, d.address, CallConfirmEvent, fate, verdict);
            && d' == (if fate.RequestLost? then d else d.(messageKey := k.message))
            && (r.Some? <==> fate.Delivered?) && (r.Some? ==> r.value.payload == [0x06] && !r.value.encrypted)
  {
    hide Xor, Execute, CallOutcome, CallResponse, Sound, Understood;
    CallExecuted(k, d, CallConfirmEvent, fate, verdict);
    ConfirmAnswer(k, d, verdict);
    OnlyDelivered(k, d, CallConfirmEvent, fate, verdict);
    if fate.Delivered? {
      EncryptedReplyUnderstood(k, d, CallConfirmEvent, verdict);
    }
  }

  lemma ConfirmAnswer(k: Keys, d: Device, verdict: bool)
    requires d.Valid() && d.globalKey == k.global
    ensures var u := d.(messageKey := k.message);
            Execute(u, Understood(k, CallConfirmEvent), verdict) == Answer(u, Clear([ACK]))
  {
    hide Xor, Sound;
  }

  /**
   * With equal keys a delivered status read brings the zone count, zone 2 and its status (that of zone 1 if there
   * is only one zone, power-restored if none), and connection-restored, at the offsets the driver reads.
   */
  lemma ReadStatusCall(k: Keys, d: Device, verdict: bool)
    requires d.Valid() && d.globalKey == k.global
    ensures var r := CallResponse(k, d, d.address, CallReadStatus, Delivered, verdict);
            r.Some? &&
            Decrypt(r.value, k.message).payload ==
            [Xor(k.global, k.message), 0x88, 0x02, ToByte(d.zoneCount), 0x02,
             if d.zoneCount >= 2 then d.zones[1].status
             else if d.zoneCount == 1 then d.zones[0].status
             else 0xC7,
             0xD1, 0, 0]
  {
    hide Xor, Execute, CallOutcome, CallResponse, Sound, Understood, Decrypt, ToByte;
    CallExecuted(k, d, CallReadStatus, Delivered, verdict);
    EncryptedReplyUnderstood(k, d, CallReadStatus, verdict);
    ReadStatusAnswer(k, d, verdict);
  }

  // --- What an arm, disarm or reset answer means to the driver ---

  predicate IsSwitch(c: Call) {
    c.CallArm? || c.CallDisarm? || c.CallReset?
  }

  /** The status the command asks for. */
  function Commanded(c: Call): byte {
    if c.CallArm? then STATUS_ARMED else STATUS_DISARMED
  }

  /** The device will do as told: the zone exists, and the application agrees where it is asked. */
  predicate Obeys(d: Device, c: Call, verdict: bool)
    requires IsSwitch(c)
  {
    1 <= ToNat(c.zone) <= d.zoneCount && (c.CallReset? || verdict)
  }

  /** The device after a switch command that it heard: the zone, and the event if there is room for it. */
  function Switched(d: Device, c: Call, verdict: bool): Device
    requires d.Valid() && IsSwitch(c)
  {
    if !Obeys(d, c, verdict) then d
    else
      var i := ToNat(c.zone) - 1;
      d.(zones := d.zones[i := d.zones[i].(status := Commanded(c))],
         queue := if c.CallReset? || |d.queue| >= 32 then d.queue
                  else d.queue + [Event(Commanded(c), c.zone, 0)])
  }

  /** ACK unless the application refused; whether the zone exists does not matter. */
  function SwitchAnswer(c: Call, verdict: bool): byte {
    if c.CallReset? || verdict then ACK else NACK
  }

  lemma SwitchExecuted(k: Keys, d: Device, c: Call, verdict: bool)
    requires d.Valid() && IsSwitch(c)
    ensures var o := Execute(d, Understood(k, c), verdict);
            o.dev == Switched(d, c, verdict) && o.reply == Enciphered([SwitchAnswer(c, verdict)])
  {
    hide Xor, Sound, Accepted, ToNat;
    RoomForEvent(d, Event(Commanded(c), c.zone, 0));
    var plain := Understood(k, c);
    assert |plain| == 6 && plain[1] == CommandBytes(k, c)[0] && plain[2] == c.zone;
  }

  /**
   * With equal keys an arm, disarm or reset is answered exactly when it is delivered both ways, whatever was
   * decided. The zone changes exactly when the request was heard, the zone exists and the application agreed.
   * The answer says ACK or NACK by the application's decision, and the driver does not read it.
   */
  lemma SwitchCall(k: Keys, d: Device, c: Call, fate: Fate, verdict: bool)
    requires d.Valid() && d.globalKey == k.global && IsSwitch(c)
    ensures var d' := CallOutcome(k, d, d.address, c, fate, verdict).dev;
            var r := CallResponse(k, d, d.address, c, fate, verdict);
            && (r.Some? <==> fate.Delivered?)
            && (r.Some? ==>
                  Decrypt(r.value, k.message).payload == [Xor(k.global, k.message), SwitchAnswer(c, verdict), 0])
            && d' == (if fate.RequestLost? then d else Switched(d.(messageKey := k.message), c, verdict))
  {
    hide Xor, Execute, CallOutcome, CallResponse, Sound, Switched, Understood;
    SwitchExecuted(k, d.(messageKey := k.message), c, verdict);
    CallExecuted(k, d, c, fate, verdict);
    OnlyDelivered(k, d, c, fate, verdict);
    if fate.Delivered? {
      EncryptedReplyUnderstood(k, d, c, verdict);
    }
  }

  /**
   * What the driver's result `ret` means for the device, which is `d` before and `d'` after: with equal keys 0
   * says no more than that request and answer arrived.
   */
  predicate SwitchMeans(k: Keys, d: Device, c: Call, fate: Fate, verdict: bool, d': Device, ret: int)
    requires d.Valid() && IsSwitch(c)
  {
    d.globalKey == k.global ==>
      && ret == (if fate.Delivered? then 0 else -1)
      && d' == (if fate.RequestLost? then d else Switched(d.(messageKey := k.message), c, verdict))
  }

  lemma SwitchResult(k: Keys, d: Device, c: Call, fate: Fate, verdict: bool)
    requires d.Valid() && IsSwitch(c)
    ensures SwitchMeans(k, d, c, fate, verdict, CallOutcome(k, d, d.address, c, fate, verdict).dev,
                        if CallResponse(k, d, d.address, c, fate, verdict).Some? then 0 else -1)
  {
    hide CallOutcome, CallResponse, Sound, Switched;
    if d.globalKey == k.global {
      SwitchCall(k, d, c, fate, verdict);
    }
  }

  /** So a result of 0 does not tell a zone that was switched from one that was not. */
  lemma RefusalAnswered(k: Keys, d: Device, c: Call)
    requires d.Valid() && d.globalKey == k.global && (c.CallArm? || c.CallDisarm?)
    ensures CallResponse(k, d, d.address, c, Delivered, false).Some?
    ensures CallOutcome(k, d, d.address, c, Delivered, false).dev == d.(messageKey := k.message)
  {
    hide CallOutcome, CallResponse, Sound;
    SwitchCall(k, d, c, Delivered, false);
  }

  // --- The driver ---

  /** `orion_ctx_t` with its port. */
  class Context {
    var globalKey: byte
    var messageKey: byte
    const link: Link

    constructor (l: Link, key: byte)
      ensures link == l && globalKey == messageKey == key
    {
      link, globalKey, messageKey := l, key, key;
    }

    function Keys(): Keys
      reads this
    {
      Links.Keys(globalKey, messageKey)
    }

    /** The receiving half of `orion_transact`: two bytes, then as many as the second announces, then parse. */
    static method Receive(rx: seq<byte>, response: PacketBuffer) returns (ret: int)
      requires response.payload.Length == MAX_PAYLOAD
      requires Receivable(rx)
      modifies response, response.payload
      ensures ret == 0 || ret == -1
      ensures ret == 0 <==> Received(rx).Some?
      ensures ret == 0 ==> response.Valid() && response.Value() == Received(rx).value
    {
      hide Crc8, ToNat;
      if |rx| < 2 {
        return -1;
      }
      var rxBuf := new byte[MAX_PACKET];
      rxBuf[0], rxBuf[1] := rx[0], rx[1];
      var remaining := ToNat(rx[1]);
      if |rx| - 2 < remaining {
        return -1;
      }
      AnnouncedFits(rx);
      forall i | 2 <= i < 2 + remaining {
        rxBuf[i] := rx[i];
      }
      assert rxBuf[..2 + remaining] == rx[..2 + remaining];
      ret := response.ParseFrom(rxBuf, 2 + remaining);
    }

    /** A complete reply that may be parsed fits the receive buffer. */
    static lemma AnnouncedFits(rx: seq<byte>)
      requires Receivable(rx) && |rx| >= 2 && |rx| >= 2 + ToNat(rx[1])
      ensures 2 + ToNat(rx[1]) <= MAX_PACKET
    {}

    /** `orion_transact`: serialize, send, receive. */
    method Transact(request: PacketBuffer, response: PacketBuffer, fate: Fate, verdict: bool, ghost q: Request)
      returns (ret: int)
      requires link.Quiet() && request.Valid() && response.payload.Length == MAX_PAYLOAD
      requires response.payload as object !in link.Repr() && response as object !in link.Repr()
      requires |q.payload| <= MAX_PAYLOAD && Serialize(request.Value()) == Frame(q.address, q.payload)
      modifies link.Repr(), response, response.payload
      ensures link.Quiet()
      ensures var o := Exchange(old(link.Dev()), q.address, q.payload, fate, verdict);
              && link.Dev() == o.dev
              && (ret == 0 <==> Response(o, fate).Some?) && (ret == 0 || ret == -1)
              && (ret == 0 ==> response.Valid() && response.Value() == Response(o, fate).value)
    {
      hide Exchange, Frame, ReplyBytes, ToNat, Parse, Received, Receivable, Arriving, Response;
      var txBuf := new byte[MAX_PACKET];
      var txLen := request.SerializeInto(txBuf);
      var rx := link.Carry(txBuf[..txLen], fate, verdict, q);
      ReplyReceived(Exchange(old(link.Dev()), q.address, q.payload, fate, verdict), fate);
      ret := Receive(rx, response);
    }

    /** The packet of a call: set-key is built plain, every other command encrypted. */
    method BuildCall(address: byte, c: Call) returns (built: bool, request: PacketBuffer)
      ensures fresh(request) && fresh(request.payload) && built == GoodAddress(address)
      ensures built ==> request.Valid() && Serialize(request.Value()) == WireFrame(Keys(), address, c)
    {
      hide Frame, Encipher, ToNat, PacketBuffer.Value;
      request := new PacketBuffer();
      var size: int;
      if c.SetGlobalKey? {
        size := request.Build(address, CommandBytes(Keys(), c));
      } else {
        size := request.BuildEncrypted(address, CommandBytes(Keys(), c), globalKey, messageKey);
      }
      built := size >= 0;
    }

    /** Build the packet of a call and transact it. */
    method Send(address: byte, c: Call, fate: Fate, verdict: bool) returns (ret: int, response: PacketBuffer)
      requires link.Quiet()
      modifies link.Repr()
      ensures link.Quiet() && fresh(response) && fresh(response.payload)
      ensures link.Dev() == CallOutcome(Keys(), old(link.Dev()), address, c, fate, verdict).dev
      ensures var r := CallResponse(Keys(), old(link.Dev()), address, c, fate, verdict);
              && (ret == 0 <==> r.Some?) && (ret == 0 || ret == -1)
              && (ret == 0 ==> response.Valid() && response.Value() == r.value)
    {
      hide Exchange, Frame, Encipher, ReplyBytes, ToNat, Sound, ParsedReply,
           OrionSlave.Valid, OrionSlave.Dev, Link.Quiet, Link.Dev, Device.Valid;
      response := new PacketBuffer();
      var built, request := BuildCall(address, c);
      if !built {
        return -1, response;
      }
      ret := Transact(request, response, fate, verdict, OnWire(Keys(), address, c));
    }

    /** `orion_cmd_set_global_key`. */
    method SetGlobalKey(address: byte, newKey: byte, fate: Fate, verdict: bool) returns (ret: int)
      requires link.Quiet() && this !in link.Repr()
      modifies this, link.Repr()
      ensures link.Quiet()
      ensures var c := Call.SetGlobalKey(newKey);
              && link.Dev() == CallOutcome(old(Keys()), old(link.Dev()), address, c, fate, verdict).dev
              && Keys() == CallKeys(old(Keys()), old(link.Dev()), address, c, fate, verdict)
              && (ret == 0 <==> CallResponse(old(Keys()), old(link.Dev()), address, c, fate, verdict).Some?)
      ensures ret == 0 ==> link.Dev().globalKey == globalKey == newKey
    {
      hide CallOutcome, CallResponse, Sound;
      SetKeyAgrees(Keys(), link.Dev(), address, newKey, fate, verdict);
      var response;
      ret, response := Send(address, Call.SetGlobalKey(newKey), fate, verdict);
      if ret < 0 {
        return -1;
      }
      globalKey := newKey;
      messageKey := newKey;
    }

    /**
     * `orion_cmd_arm`, `orion_cmd_disarm`, `orion_cmd_reset_alarm`: with equal keys 0 means delivered both ways,
     * and the zone is switched if besides it exists and the application agreed.
     */
    method SwitchZone(address: byte, c: Call, fate: Fate, verdict: bool) returns (ret: int)
      requires link.Quiet() && IsSwitch(c)
      modifies link.Repr()
      ensures link.Quiet()
      ensures link.Dev() == CallOutcome(Keys(), old(link.Dev()), address, c, fate, verdict).dev
      ensures ret == if CallResponse(Keys(), old(link.Dev()), address, c, fate, verdict).Some? then 0 else -1
      ensures old(link.Dev()).address == address ==>
                SwitchMeans(Keys(), old(link.Dev()), c, fate, verdict, link.Dev(), ret)
    {
      hide CallOutcome, CallResponse, Sound, SwitchMeans,
           OrionSlave.Valid, OrionSlave.Dev, Link.Quiet, Link.Dev, Device.Valid;
      SwitchResult(Keys(), link.Dev(), c, fate, verdict);
      var response;
      ret, response := Send(address, c, fate, verdict);
    }

    /** `orion_cmd_read_status`. */
    method ReadStatus(address: byte, fate: Fate, verdict: bool) returns (ret: int, status1: byte, status2: byte)
      requires link.Quiet()
      modifies link.Repr()
      ensures link.Quiet()
      ensures link.Dev() == CallOutcome(Keys(), old(link.Dev()), address, CallReadStatus, fate, verdict).dev
      ensures var r := CallResponse(Keys(), old(link.Dev()), address, CallReadStatus, fate, verdict);
              && ret == (if r.Some? then 0 else -1)
              && (r.Some? ==>
                   var p := Decrypt(r.value, messageKey).payload;
                   (status1, status2) == if |p| >= 7 then (p[5], p[6]) else if |p| >= 6 then (p[4], p[5]) else (0, 0))
    {
      hide CallOutcome, CallResponse, Sound, Decipher, ToNat;
      status1, status2 := 0, 0;
      var response;
      ret, response := Send(address, CallReadStatus, fate, verdict);
      if ret < 0 {
        return -1, 0, 0;
      }
      response.DecryptPayload(messageKey);
      var n := ToNat(response.length) - 1;
      if n >= 7 {
        status1, status2 := response.payload[5], response.payload[6];
      } else if n >= 6 {
        status1, status2 := response.payload[4], response.payload[5];
      }
    }

    /** `orion_cmd_read_event`: 0 with an event, 1 without, -1 on error. */
    method ReadEvent(address: byte, fate: Fate, verdict: bool) returns (ret: int, event: Event)
      requires link.Quiet()
      modifies link.Repr()
      ensures link.Quiet()
      ensures link.Dev() == CallOutcome(Keys(), old(link.Dev()), address, CallReadEvent, fate, verdict).dev
      ensures var r := CallResponse(Keys(), old(link.Dev()), address, CallReadEvent, fate, verdict);
              match ReadResultOf(Keys(), r)
              case ReadFailed => ret == -1
              case NoEvents => ret == 1
              case Got(e) => ret == 0 && event == e
    {
      hide CallOutcome, CallResponse, Sound, Decipher, ToNat;
      event := Event(0, 0, 0);
      var response;
      ret, response := Send(address, CallReadEvent, fate, verdict);
      if ret < 0 {
        return -1, event;
      }
      response.DecryptPayload(messageKey);
      var n := ToNat(response.length) - 1;
      if n < 4 {
        return 1, event;
      }
      event := Event(response.payload[1], response.payload[2], response.payload[3]);
      ret := 0;
    }

    /** `orion_cmd_confirm_event`. */
    method ConfirmEvent(address: byte, fate: Fate, verdict: bool) returns (ret: int)
      requires link.Quiet()
      modifies link.Repr()
      ensures link.Quiet()
      ensures link.Dev() == CallOutcome(Keys(), old(link.Dev()), address, CallConfirmEvent, fate, verdict).dev
      ensures var r := CallResponse(Keys(), old(link.Dev()), address, CallConfirmEvent, fate, verdict);
              ret == if r.Some? then 0 else -1
    {
      hide CallOutcome, CallResponse, Sound;
      var response;
      ret, response := Send(address, CallConfirmEvent, fate, verdict);
    }

    /** One turn of the loop of `cmd_events`: read, and confirm what was read. */
    method DrainStep(address: byte, readFate: Fate, confirmFate: Fate, verdict: bool) returns (ret: int, event: Event)
      requires link.Quiet() && link.Dev().address == address && link.Dev().globalKey == globalKey
      modifies link.Repr()
      ensures link.Quiet() && link.Dev().address == address && link.Dev().globalKey == globalKey
      ensures var q := old(link.Dev().queue);
              && ret == (if !readFate.Delivered? then -1 else if q == [] then 1 else 0)
              && (ret == 0 ==> event == q[0])
              && link.Dev().queue == if readFate.RequestLost? || q == [] then q else q[1..]
    {
      hide CallOutcome, CallResponse, Sound, ReadResultOf;
      ghost var d := link.Dev();
      ReadEventCall(Keys(), d, readFate, verdict);
      ret, event := ReadEvent(address, readFate, verdict);
      if ret != 0 {
        return;
      }
      ConfirmCall(Keys(), link.Dev(), confirmFate, verdict);
      var _ := ConfirmEvent(address, confirmFate, verdict);
    }

    /**
     * The loop of `cmd_events`. Read number i meets `readFate(i)`, its confirmation `confirmFate(i)`.
     * If every read is delivered the whole queue comes back in order, in one read more than it has events.
     * A read that fails ends the loop; when it was the reply that was lost, the event it carried is lost too,
     * because the device lets go of an event when it is read and not when it is confirmed.
     */
    method DrainEvents(address: byte, readFate: nat -> Fate, confirmFate: nat -> Fate, verdict: bool)
      returns (ret: int, events: seq<Event>, attempts: nat)
      requires link.Quiet() && link.Dev().address == address && link.Dev().globalKey == globalKey
      modifies link.Repr()
      ensures link.Quiet() && link.Dev().address == address && link.Dev().globalKey == globalKey
      ensures ret == 0 || ret == -1
      ensures attempts == |events| + 1
      ensures ret == 0 <==> forall i: nat :: i <= |old(link.Dev().queue)| ==> readFate(i).Delivered?
      ensures ret == 0 ==> events == old(link.Dev().queue) && link.Dev().queue == []
      ensures ret == -1 ==>
        !readFate(|events|).Delivered? && |events| <= |old(link.Dev().queue)| &&
        old(link.Dev().queue) == events + Lost(old(link.Dev().queue), |events|, readFate(|events|)) + link.Dev().queue
    {
      hide OrionSlave.Valid, OrionSlave.Dev, Link.Quiet, Link.Dev, Device.Valid, Lost;
      events, attempts := [], 0;
      ghost var queue := link.Dev().queue;
      while true
        invariant link.Quiet() && link.Dev().address == address && link.Dev().globalKey == globalKey
        invariant attempts == |events| && queue == events + link.Dev().queue
        invariant forall i: nat :: i < attempts ==> readFate(i).Delivered?
        decreases |link.Dev().queue|
      {
        ghost var left := link.Dev().queue;
        LostOne(queue, events, left, readFate(attempts));
        var event;
        ret, event := DrainStep(address, readFate(attempts), confirmFate(attempts), verdict);
        attempts := attempts + 1;
        if ret == 1 {
          return 0, events, attempts;
        }
        if ret < 0 {
          return -1, events, attempts;
        }
        NextOut(events, left);
        events := events + [event];
      }
    }
  }

  /** The event that goes missing when the reply to read number `n` is lost. */
  function Lost(queue: seq<Event>, n: nat, fate: Fate): seq<Event>
    requires n <= |queue|
  {
    if fate.ReplyLost? && n < |queue| then [queue[n]] else []
  }

  /** After a read that fails: what came back, what was lost and what is still queued make up the queue. */
  lemma LostOne(queue: seq<Event>, events: seq<Event>, left: seq<Event>, fate: Fate)
    requires queue == events + left
    ensures !fate.Delivered? ==>
              queue == events + Lost(queue, |events|, fate) +
                       if fate.RequestLost? || left == [] then left else left[1..]
    ensures |events| <= |queue| && (left == [] ==> queue == events)
  {}

  lemma NextOut(events: seq<Event>, left: seq<Event>)
    requires left != []
    ensures (events + [left[0]]) + left[1..] == events + left
  {}

  /** The device is conforming: whatever arrives of its reply is received as the exchange says. */
  lemma ReplyReceived(o: Outcome, fate: Fate)
    requires o.reply.Clear? || o.reply.Enciphered? ==> 1 <= |o.reply.text| <= 7
    ensures var rx := Arriving(ReplyBytes(o.dev, o.reply), fate);
            Receivable(rx) && Received(rx) == Response(o, fate)
  {
    hide ReplyBytes, Parse, WellFormed, Parsable, CutShort, ToNat;
    var bytes := ReplyBytes(o.dev, o.reply);
    ReplyIsFrame(o);
    NothingReceived();
    if bytes != [] {
      ReceivedWholeOrNot(bytes, if fate.ReplyLost? then fate.arrived else 0);
    }
  }

  lemma NothingReceived()
    ensures Parsable([]) && Parse([]) == None && Receivable([]) && Received([]) == None
    ensures forall n :: CutShort([], n) == []
  {}
}
