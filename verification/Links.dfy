/** Request and reply between the PC driver and the device, over a link that may lose whole frames. */
module Links {
  import opened Bytes
  import opened Crc
  import opened Frames
  import opened Devices
  import opened Stations

  // --- A frame on the wire reaches the device ---

  function Values(incoming: seq<Timed>): (b: seq<byte>)
    ensures |b| == |incoming|
    ensures forall i :: 0 <= i < |b| ==> b[i] == incoming[i].value
  {
    seq(|incoming|, i requires 0 <= i < |incoming| => incoming[i].value)
  }

  lemma {:induction false} FillAppends(rx: seq<byte>, incoming: seq<Timed>)
    requires |rx| + |incoming| <= MAX_PACKET
    ensures Fill(rx, incoming) == rx + Values(incoming)
  {
    if incoming == [] {
    } else {
      var k := |incoming| - 1;
      FillAppends(rx, incoming[..k]);
      assert Values(incoming) == Values(incoming[..k]) + [incoming[k].value];
      assert rx + Values(incoming) == (rx + Values(incoming[..k])) + [incoming[k].value];
    }
  }

  /** The buffer holds the latest bytes: it starts over after each 256. */
  lemma {:induction false} FillIsTail(rx: seq<byte>, incoming: seq<Timed>) returns (rounds: nat)
    requires |rx| <= MAX_PACKET
    ensures var all := rx + Values(incoming);
            256 * rounds <= |all| <= 256 * rounds + 256 && (|all| == 256 * rounds ==> all == [])
            && Fill(rx, incoming) == all[256 * rounds..]
    decreases |incoming|
  {
    if incoming == [] {
      assert rx + Values(incoming) == rx;
      return 0;
    }
    hide Values;
    var k := |incoming| - 1;
    var b := incoming[k].value;
    var init := rx + Values(incoming[..k]);
    ValuesLast(incoming);
    PlusAssociative(rx, Values(incoming[..k]), [b]);
    assert rx + Values(incoming) == init + [b];
    rounds := FillIsTail(rx, incoming[..k]);
    TailStep(init, 256 * rounds, b);
    if |init| == 256 * rounds + 256 {
      rounds := rounds + 1;
    }
  }

  lemma TailStep<T>(all: seq<T>, j: nat, b: T)
    requires j <= |all|
    ensures all[j..] + [b] == (all + [b])[j..] && [b] == (all + [b])[|all|..]
  {}

  lemma ValuesLast(incoming: seq<Timed>)
    requires incoming != []
    ensures Values(incoming) == Values(incoming[..|incoming| - 1]) + [incoming[|incoming| - 1].value]
  {}

  /** One call of `poll`: the clock at its start and the bytes it reads. */
  datatype Chunk = Chunk(now: uint32, incoming: seq<Timed>)

  function PollChunks(s: Station, chunks: seq<Chunk>, verdict: bool): (s': Station)
    requires s.Valid()
    ensures s'.Valid()
  {
    if chunks == [] then s
    else
      var c := chunks[|chunks| - 1];
      PollStation(PollChunks(s, chunks[..|chunks| - 1], verdict), c.now, c.incoming, verdict)
  }

  lemma PollCollects(s: Station, now: uint32, incoming: seq<Timed>, verdict: bool)
    requires s.Valid() && !Silent(s, now) && |s.rx| + |incoming| <= MAX_PACKET
    ensures var s' := PollStation(s, now, incoming, verdict);
            s'.rx == s.rx + Values(incoming) && s'.dev == s.dev && s'.heard == s.heard && s'.answered == s.answered
  {
    hide Accept, Fill;
    FillAppends(s.rx, incoming);
  }

  /** A frame is accepted by its addressee, whatever stands after it in the buffer. */
  lemma AcceptFrame(d: Device, address: byte, payload: seq<byte>, rest: seq<byte>)
    requires |payload| <= MAX_PAYLOAD
    ensures Accept(d, Frame(address, payload) + rest) ==
            if Addressed(d.address, address) then Some(Request(address, payload)) else None
  {
    hide Crc8, ToNat, ToByte, Addressed;
    FrameShape(address, payload);
    var f, n := Frame(address, payload), |payload|;
    assert (f + rest)[..2 + n] == f[..|f| - 1] && (f + rest)[2..2 + n] == f[2..|f| - 1];
  }

  // --- In real time ---

  /** One call of `poll` in real time: when it begins, the bytes it reads and when it reads each. */
  datatype RealByte = RealByte(value: byte, at: nat)

  datatype RealPoll = RealPoll(at: nat, incoming: seq<RealByte>)

  /** What the device sees of it on its 32-bit clock. */
  function Clocked(p: RealPoll): Chunk {
    Chunk(Ticks(p.at), seq(|p.incoming|, i requires 0 <= i < |p.incoming| =>
      Timed(p.incoming[i].value, Ticks(p.incoming[i].at))))
  }

  function AllClocked(polls: seq<RealPoll>): seq<Chunk> {
    if polls == [] then [] else AllClocked(polls[..|polls| - 1]) + [Clocked(polls[|polls| - 1])]
  }

  /** Every byte read, in order. */
  function BytesRead(polls: seq<RealPoll>): seq<byte> {
    if polls == [] then []
    else BytesRead(polls[..|polls| - 1]) + BytesOf(polls[|polls| - 1].incoming)
  }

  function BytesOf(incoming: seq<RealByte>): (b: seq<byte>)
    ensures |b| == |incoming| && forall i :: 0 <= i < |b| ==> b[i] == incoming[i].value
  {
    seq(|incoming|, i requires 0 <= i < |incoming| => incoming[i].value)
  }

  /** When the last byte was read. */
  function LastByte(polls: seq<RealPoll>): Option<nat> {
    if polls == [] then None
    else
      var incoming := polls[|polls| - 1].incoming;
      if incoming == [] then LastByte(polls[..|polls| - 1]) else Some(incoming[|incoming| - 1].at)
  }

  /** Once a byte has been read, each poll begins at most 5 ms after the last byte. */
  predicate Prompt(polls: seq<RealPoll>) {
    polls == [] ||
    (Prompt(polls[..|polls| - 1]) &&
     match LastByte(polls[..|polls| - 1])
     case None => true
     case Some(t) => t <= polls[|polls| - 1].at <= t + 5)
  }

  lemma ClockedValues(p: RealPoll)
    ensures Values(Clocked(p).incoming) == BytesOf(p.incoming)
    ensures LastAt(0, Clocked(p).incoming) == if p.incoming == [] then 0 else Ticks(p.incoming[|p.incoming| - 1].at)
    ensures forall t :: p.incoming != [] ==> LastAt(t, Clocked(p).incoming) == LastAt(0, Clocked(p).incoming)
    ensures forall t :: p.incoming == [] ==> LastAt(t, Clocked(p).incoming) == t
  {}

  /** A clock reading at most 5 ms after the last byte does not find the bus silent, one more than 5 ms after does. */
  lemma SilenceIsRealTime(s: Station, last: nat, at: nat)
    requires s.lastRx == Ticks(last) && last <= at
    ensures at <= last + 5 ==> !Silent(s, Ticks(at))
    ensures s.rx != [] && last + 5 < at < last + TWO_TO_THE_32 ==> Silent(s, Ticks(at))
  {
    ElapsedIsRealTime(at, last);
    if at < last + TWO_TO_THE_32 {
      assert (at - last) % TWO_TO_THE_32 == at - last;
    }
  }

  lemma NothingReadNotSilent(s: Station, now: uint32)
    requires s.rx == []
    ensures !Silent(s, now)
  {}

  lemma {:induction false} NothingReadYet(polls: seq<RealPoll>)
    ensures LastByte(polls) == None <==> BytesRead(polls) == []
  {
    if polls != [] {
      NothingReadYet(polls[..|polls| - 1]);
    }
  }

  lemma LastPoll(s: Station, polls: seq<RealPoll>, verdict: bool)
    requires s.Valid() && polls != []
    ensures var k := |polls| - 1;
            PollChunks(s, AllClocked(polls), verdict) ==
            PollStation(PollChunks(s, AllClocked(polls[..k]), verdict), Ticks(polls[k].at), Clocked(polls[k]).incoming,
                         verdict)
  {
    hide PollStation;
    var k := |polls| - 1;
    var c := AllClocked(polls);
    assert c[..|c| - 1] == AllClocked(polls[..k]) && c[|c| - 1] == Clocked(polls[k]);
  }

  /** Polled promptly, a device between frames gathers the bytes, does nothing else, and keeps the last one's time. */
  lemma {:induction false} GathersInRealTime(s: Station, polls: seq<RealPoll>, verdict: bool)
    requires s.Valid() && s.rx == [] && Prompt(polls) && |BytesRead(polls)| <= MAX_PACKET
    ensures var s' := PollChunks(s, AllClocked(polls), verdict);
            && s'.rx == BytesRead(polls)
            && s'.dev == s.dev && s'.heard == s.heard && s'.answered == s.answered
            && (LastByte(polls).Some? ==> s'.lastRx == Ticks(LastByte(polls).value))
  {
    if polls == [] {
    } else {
      hide PollStation, Silent, Clocked, Values, Fill;
      var k := |polls| - 1;
      var init, p := polls[..k], polls[k];
      GathersInRealTime(s, init, verdict);
      var m := PollChunks(s, AllClocked(init), verdict);
      NothingReadYet(init);
      if LastByte(init).Some? {
        SilenceIsRealTime(m, LastByte(init).value, p.at);
      } else {
        NothingReadNotSilent(m, Ticks(p.at));
      }
      ClockedValues(p);
      LastPoll(s, polls, verdict);
      PollCollects(m, Ticks(p.at), Clocked(p).incoming, verdict);
      PollRemembers(m, Ticks(p.at), Clocked(p).incoming, verdict);
      assert [] + BytesOf(p.incoming) == BytesOf(p.incoming);
    }
  }

  lemma PollRemembers(s: Station, now: uint32, incoming: seq<Timed>, verdict: bool)
    requires s.Valid()
    ensures PollStation(s, now, incoming, verdict).lastRx == LastAt(s.lastRx, incoming)
  {
    hide PollOutcome, Fill, Accept;
  }

  /**
   * The bytes of a frame reach a device between frames over any number of polls. As long as each poll begins at
   * most 5 ms after the last byte, the device only gathers. The first poll more than 5 ms after the last byte
   * (and less than a turn of the clock) makes it act on exactly that frame, whatever came after the frame in the
   * buffer and whatever that poll then reads.
   */
  lemma {:induction false} FrameReachesDevice(s: Station, polls: seq<RealPoll>, at: nat, next: seq<Timed>,
                                              address: byte, payload: seq<byte>, rest: seq<byte>, verdict: bool)
    requires s.Valid() && s.rx == [] && |payload| <= MAX_PAYLOAD && |payload| + 3 + |rest| <= MAX_PACKET
    requires Prompt(polls) && BytesRead(polls) == Frame(address, payload) + rest
    requires LastByte(polls).Some? && LastByte(polls).value + 5 < at < LastByte(polls).value + TWO_TO_THE_32
    ensures var gathered := PollChunks(s, AllClocked(polls), verdict);
            && gathered.dev == s.dev && gathered.heard == s.heard && gathered.answered == s.answered
            && PollOutcome(gathered, Ticks(at), verdict) == Hear(s.dev, address, payload, verdict)
            && var closed := PollStation(gathered, Ticks(at), next, verdict);
               && closed.dev == Hear(s.dev, address, payload, verdict).dev
               && (|next| <= MAX_PACKET ==> closed.rx == Values(next))
               && closed.heard == s.heard + (if Addressed(s.dev.address, address) then 1 else 0)
  {
    hide Crc8, ToNat, ToByte, Frame, React, Accept, Silent, Fill, Clocked, Values, Sound, Prompt;
    GathersInRealTime(s, polls, verdict);
    var m := PollChunks(s, AllClocked(polls), verdict);
    SilenceIsRealTime(m, LastByte(polls).value, at);
    AcceptFrame(s.dev, address, payload, rest);
    if |next| <= MAX_PACKET {
      FillAppends([], next);
      assert [] + Values(next) == Values(next);
    }
  }

  // --- One transaction ---

  /** A lost reply may still have brought `arrived` of its bytes, short of the last. */
  datatype Fate = Delivered | RequestLost | ReplyLost(arrived: nat)

  /** The packet the PC parses from a reply. */
  function ParsedReply(d: Device, r: Reply): Option<Packet>
    requires r.Clear? || r.Enciphered? ==> |r.text| <= MAX_PAYLOAD - 2
  {
    var bytes := ReplyBytes(d, r);
    if Parsable(bytes) then Parse(bytes) else None
  }

  /** What happens at the device when a request meets its fate. */
  function Exchange(d: Device, address: byte, payload: seq<byte>, fate: Fate, verdict: bool): (o: Outcome)
    requires d.Valid()
    ensures Sound(d, o)
  {
    if fate.RequestLost? then Answer(d, Silence) else Hear(d, address, payload, verdict)
  }

  /** What the PC receives back. */
  function Response(o: Outcome, fate: Fate): Option<Packet>
    requires o.reply.Clear? || o.reply.Enciphered? ==> |o.reply.text| <= MAX_PAYLOAD - 2
  {
    if fate.Delivered? then ParsedReply(o.dev, o.reply) else None
  }

  /** A reply is parsed unless there is none. */
  lemma ReplyParses(d: Device, r: Reply)
    requires d.Valid() && (r.Clear? || r.Enciphered? ==> |r.text| <= MAX_PAYLOAD - 2)
    ensures ParsedReply(d, r) == None <==> r.Silence?
    ensures r.Clear? ==> ParsedReply(d, r).value.payload == r.text && !ParsedReply(d, r).value.encrypted
    ensures r.Enciphered? ==> ParsedReply(d, r).value.encrypted && |ParsedReply(d, r).value.payload| == |r.text| + 2
    ensures r.Enciphered? ==>
      Decrypt(ParsedReply(d, r).value, d.messageKey).payload == [Xor(d.globalKey, d.messageKey)] + r.text + [0]
  {
    hide Crc8, ToNat, ToByte, Xor, Encipher, Decipher, Frame;
    match r
    case Silence =>
    case Clear(text) =>
      ParseOfFrame(d.address, text, []);
      assert Frame(d.address, text) + [] == Frame(d.address, text);
    case Enciphered(text) =>
      ReplyRoundTrip(d.address, text, d.globalKey, d.messageKey);
  }

  // --- The PC commands ---

  datatype Keys = Keys(global: byte, message: byte)

  datatype Call =
    | SetGlobalKey(newKey: byte)
    | CallReadStatus
    | CallArm(zone: byte)
    | CallDisarm(zone: byte)
    | CallReset(zone: byte)
    | CallReadEvent
    | CallConfirmEvent

  /** The command bytes before encryption. */
  function CommandBytes(k: Keys, c: Call): (b: seq<byte>)
    ensures 1 <= |b| <= 4
  {
    match c
    case SetGlobalKey(key) => [Xor(k.global, k.message), CMD_SET_GLOBAL_KEY, key, key]
    case CallReadStatus => [CMD_READ_STATUS, 0x02]
    case CallArm(zone) => [CMD_ARM_ZONE, zone]
    case CallDisarm(zone) => [CMD_DISARM_ZONE, zone]
    case CallReset(zone) => [CMD_RESET_ALARM, zone]
    case CallReadEvent => [CMD_READ_EVENT]
    case CallConfirmEvent => [CMD_CONFIRM_EVENT]
  }

  /** Address byte and payload as they go on the wire: only set-key is unencrypted. */
  function OnWire(k: Keys, address: byte, c: Call): (q: Request)
    ensures |q.payload| <= 8
  {
    if c.SetGlobalKey? then Request(address, CommandBytes(k, c))
    else Request(address + ENCRYPT_OFFSET, Encipher(k.global, k.message, CommandBytes(k, c), REQUEST_PAD))
  }

  predicate GoodAddress(address: byte) {
    1 <= address <= MAX_ADDRESS
  }

  /** The device's part of a call. */
  function CallOutcome(k: Keys, d: Device, address: byte, c: Call, fate: Fate, verdict: bool): (o: Outcome)
    requires d.Valid()
    ensures Sound(d, o)
  {
    if !GoodAddress(address) then Answer(d, Silence)
    else
      var q := OnWire(k, address, c);
      Exchange(d, q.address, q.payload, fate, verdict)
  }

  function CallResponse(k: Keys, d: Device, address: byte, c: Call, fate: Fate, verdict: bool): Option<Packet>
    requires d.Valid()
  {
    if !GoodAddress(address) then None
    else Response(CallOutcome(k, d, address, c, fate, verdict), fate)
  }

  /** The driver's keys follow a set-key that was answered. */
  function CallKeys(k: Keys, d: Device, address: byte, c: Call, fate: Fate, verdict: bool): Keys
    requires d.Valid()
  {
    if c.SetGlobalKey? && CallResponse(k, d, address, c, fate, verdict).Some? then Keys(c.newKey, c.newKey) else k
  }

  // --- Key agreement ---

  lemma SetKeyOutcome(k: Keys, d: Device, key: byte, verdict: bool)
    requires d.Valid()
    ensures var q := OnWire(k, d.address, SetGlobalKey(key));
            React(d, q.address, q.payload, verdict) == Answer(d.(globalKey := key, messageKey := key), Clear([ACK]))
  {
    hide Xor;
  }

  /** A set-key call succeeds exactly when it was delivered to this device, and then both ends hold the new key. */
  lemma SetKeyAgrees(k: Keys, d: Device, address: byte, key: byte, fate: Fate, verdict: bool)
    requires d.Valid()
    ensures var c := SetGlobalKey(key);
            var d', k' := CallOutcome(k, d, address, c, fate, verdict).dev, CallKeys(k, d, address, c, fate, verdict);
            if fate.Delivered? && address == d.address then
              CallResponse(k, d, address, c, fate, verdict).Some? && k' == Keys(key, key) &&
              d'.globalKey == key && d'.messageKey == key
            else
              CallResponse(k, d, address, c, fate, verdict) == None && k' == k &&
              d'.globalKey == if fate.ReplyLost? && address == d.address then key else d.globalKey
  {
    hide Xor, React, ParsedReply;
    SetKeyOutcome(k, d, key, verdict);
    AddressesApart(d.address, address);
    ReplyParses(d.(globalKey := key, messageKey := key), Clear([ACK]));
    ReplyParses(d, Silence);
  }

  /** A plain request for another device is not taken for an encrypted one for this device. */
  lemma AddressesApart(own: byte, address: byte)
    requires GoodAddress(own)
    ensures GoodAddress(address) ==>
      (Addressed(own, address) <==> address == own) && (Addressed(own, address + ENCRYPT_OFFSET) <==> address == own)
    ensures GoodAddress(address) ==> !IsEncrypted(address) && IsEncrypted(address + ENCRYPT_OFFSET)
  {}

  /** The other calls leave every global key alone, whatever the keys and whatever is lost. */
  lemma OtherCallsKeepKeys(k: Keys, d: Device, address: byte, c: Call, fate: Fate, verdict: bool)
    requires d.Valid() && !c.SetGlobalKey?
    ensures CallOutcome(k, d, address, c, fate, verdict).dev.globalKey == d.globalKey
    ensures CallKeys(k, d, address, c, fate, verdict) == k
  {
    hide Encipher, React, ParsedReply;
    if GoodAddress(address) {
      AddressesApart(d.address, address);
      var q := OnWire(k, address, c);
      ReactKey(d, q.address, q.payload, verdict);
    }
  }

  /** A step of the two ends: a call with its fate, or an event raised at the device. */
  datatype LinkOp =
    | LinkCall(address: byte, call: Call, fate: Fate, verdict: bool)
    | LinkPush(event: Event)

  /** Driver keys, device, and the keys tried since the last set-key that was answered. */
  datatype Ends = Ends(keys: Keys, dev: Device, tried: set<byte>)

  function LinkStep(e: Ends, op: LinkOp): (e': Ends)
    requires e.dev.Valid()
    ensures e'.dev.Valid()
  {
    match op
    case LinkPush(event) => e.(dev := e.dev.(queue := e.dev.queue + Accepted(e.dev, event)))
    case LinkCall(address, c, fate, verdict) =>
      Ends(
        CallKeys(e.keys, e.dev, address, c, fate, verdict),
        CallOutcome(e.keys, e.dev, address, c, fate, verdict).dev,
        if !c.SetGlobalKey? then e.tried
        else if CallResponse(e.keys, e.dev, address, c, fate, verdict).Some? then {}
        else e.tried + {c.newKey})
  }

  function LinkRun(e: Ends, ops: seq<LinkOp>): (e': Ends)
    requires e.dev.Valid()
    ensures e'.dev.Valid()
  {
    if ops == [] then e else LinkStep(LinkRun(e, ops[..|ops| - 1]), ops[|ops| - 1])
  }

  /** The device holds the driver's key or one the driver tried in vain since it last heard an answer. */
  predicate KeysTraceable(e: Ends) {
    e.dev.globalKey == e.keys.global || e.dev.globalKey in e.tried
  }

  lemma LinkStepTraceable(e: Ends, op: LinkOp)
    requires e.dev.Valid() && KeysTraceable(e)
    ensures KeysTraceable(LinkStep(e, op))
    ensures SameSetup(e.dev, LinkStep(e, op).dev)
  {
    hide CallOutcome, CallResponse, CallKeys;
    if op.LinkCall? {
      if op.call.SetGlobalKey? {
        SetKeyAgrees(e.keys, e.dev, op.address, op.call.newKey, op.fate, op.verdict);
      } else {
        OtherCallsKeepKeys(e.keys, e.dev, op.address, op.call, op.fate, op.verdict);
      }
    }
  }

  /** From equal keys, every reachable state over a frame-dropping link is traceable. */
  lemma {:induction false} KeyAgreement(k: Keys, d: Device, ops: seq<LinkOp>)
    requires d.Valid() && d.globalKey == k.global
    ensures var e := LinkRun(Ends(k, d, {}), ops);
            KeysTraceable(e) && SameSetup(d, e.dev)
  {
    if ops == [] {
    } else {
      hide LinkStep, KeysTraceable;
      KeyAgreement(k, d, ops[..|ops| - 1]);
      LinkStepTraceable(LinkRun(Ends(k, d, {}), ops[..|ops| - 1]), ops[|ops| - 1]);
    }
  }

  /** From any divergence, the next answered set-key restores agreement. */
  lemma SetKeyRestores(e: Ends, address: byte, key: byte, fate: Fate, verdict: bool)
    requires e.dev.Valid()
    requires CallResponse(e.keys, e.dev, address, SetGlobalKey(key), fate, verdict).Some?
    ensures var e' := LinkStep(e, LinkCall(address, SetGlobalKey(key), fate, verdict));
            e'.dev.globalKey == e'.keys.global == key && e'.tried == {}
  {
    hide CallOutcome, CallResponse, CallKeys;
    SetKeyAgrees(e.keys, e.dev, address, key, fate, verdict);
  }

  /** With equal global keys the device deciphers exactly the command, for every message key. */
  lemma EncryptedCallUnderstood(k: Keys, d: Device, c: Call, verdict: bool)
    requires d.Valid() && d.globalKey == k.global && !c.SetGlobalKey?
    ensures var q := OnWire(k, d.address, c);
            Addressed(d.address, q.address) &&
            React(d, q.address, q.payload, verdict) ==
            Execute(d.(messageKey := k.message),
                    [Xor(k.global, k.message)] + CommandBytes(k, c) + [0, 0, 0], verdict)
  {
    hide Xor, Execute, Decipher, Encipher, CommandBytes, Addressed, IsEncrypted;
    AddressesApart(d.address, d.address);
    var cmd := CommandBytes(k, c);
    DecipherOfEncipher(k.global, k.message, cmd, REQUEST_PAD);
    assert Repeat(0, REQUEST_PAD) == [0, 0, 0];
    KeyRecovered(k.global, k.message);
    var e := Encipher(k.global, k.message, cmd, REQUEST_PAD);
    assert e[0] == Xor(k.global, k.message) by { EncipherHead(k.global, k.message, cmd, REQUEST_PAD); }
  }

  /** What the device makes of an encrypted call, as it is deciphered. */
  function Understood(k: Keys, c: Call): seq<byte> {
    [Xor(k.global, k.message)] + CommandBytes(k, c) + [0, 0, 0]
  }

  /** With equal keys the outcome of an encrypted call is that of its command, unless the request is lost. */
  lemma CallExecuted(k: Keys, d: Device, c: Call, fate: Fate, verdict: bool)
    requires d.Valid() && d.globalKey == k.global && !c.SetGlobalKey?
    ensures CallOutcome(k, d, d.address, c, fate, verdict) ==
            if fate.RequestLost? then Answer(d, Silence)
            else Execute(d.(messageKey := k.message), Understood(k, c), verdict)
  {
    hide Xor, Execute, React, OnWire, Addressed, CommandBytes, Sound;
    AddressesApart(d.address, d.address);
    EncryptedCallUnderstood(k, d, c, verdict);
  }

  /** What a device answers to a status request, deciphered. */
  lemma ReadStatusAnswer(k: Keys, d: Device, verdict: bool)
    requires d.Valid()
    ensures var u := d.(messageKey := k.message);
            Execute(u, Understood(k, CallReadStatus), verdict).reply ==
            Enciphered([0x88, 0x02, ToByte(d.zoneCount), 0x02,
                        if d.zoneCount >= 2 then d.zones[1].status
                        else if d.zoneCount == 1 then d.zones[0].status
                        else 0xC7,
                        0xD1, 0])
  {
    hide Xor, ToByte, Sound;
    assert ToNat(0x02) == 2;
  }

  lemma EncipherHead(globalKey: byte, messageKey: byte, text: seq<byte>, pad: nat)
    ensures Encipher(globalKey, messageKey, text, pad)[0] == Xor(globalKey, messageKey)
  {
    hide Xor, Mask, Repeat;
  }

  /** With equal global keys every delivered encrypted reply deciphers to the device's text and one zero. */
  lemma EncryptedReplyUnderstood(k: Keys, d: Device, c: Call, verdict: bool)
    requires d.Valid() && d.globalKey == k.global && !c.SetGlobalKey?
    ensures var o := CallOutcome(k, d, d.address, c, Delivered, verdict);
            var r := CallResponse(k, d, d.address, c, Delivered, verdict);
            && o.dev.globalKey == k.global && o.dev.messageKey == k.message
            && (r == None <==> o.reply.Silence?)
            && (o.reply.Clear? ==> r.value.payload == o.reply.text && !r.value.encrypted)
            && (o.reply.Enciphered? ==>
                  r.value.encrypted && |r.value.payload| == |o.reply.text| + 2 &&
                  Decrypt(r.value, k.message).payload == [Xor(k.global, k.message)] + o.reply.text + [0])
  {
    hide Xor, Execute, React, Decipher, Encipher, ParsedReply, CommandBytes, Addressed, OnWire;
    EncryptedCallUnderstood(k, d, c, verdict);
    var u := d.(messageKey := k.message);
    var plain := [Xor(k.global, k.message)] + CommandBytes(k, c) + [0, 0, 0];
    ReplyParses(Execute(u, plain, verdict).dev, Execute(u, plain, verdict).reply);
  }
}
