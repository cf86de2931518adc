/** The round-robin poller against a device's queue: every event reaches the bus within a bounded number of polls. */
module Polling {
  import opened Bytes
  import opened Crc
  import opened Frames
  import opened Packets
  import opened Devices
  import opened Stations
  import opened Links
  import opened Mastering
  import opened OrionMaster
  import opened Rings

  /** Both implementations' builders produce the same bytes, for every command the shorter one takes. */
  method BuildBoth(c: Controller, address: byte, cmd: seq<byte>, encrypted: bool)
    returns (pc: seq<byte>, esp: seq<byte>)
    requires 1 <= address <= MAX_ADDRESS && |cmd| <= MAX_COMMAND
    ensures pc == esp && |pc| == |cmd| + (if encrypted then 7 else 3)
    ensures !encrypted ==> pc == Frame(address, cmd)
    ensures encrypted ==> pc == EncryptedRequest(address, cmd, c.globalKey, c.messageKey)
  {
    hide Frame, EncryptedRequest, ToNat;
    var packet := new PacketBuffer();
    var buf := new byte[MAX_PACKET];
    var out := new byte[MAX_PACKET];
    var size, len: int;
    if encrypted {
      size := packet.BuildEncrypted(address, cmd, c.globalKey, c.messageKey);
      len := c.BuildEncryptedPacket(out, address, cmd);
    } else {
      size := packet.Build(address, cmd);
      len := Controller.BuildPacket(out, address, cmd);
    }
    EncryptedSize(address, cmd, c.globalKey, c.messageKey);
    size := packet.SerializeInto(buf);
    pc, esp := buf[..size], out[..len];
  }

  /** The request a poll puts on the bus. */
  function PollRequest(m: Master): Request {
    var (cmd, encrypted) := PhaseCommand(m.phase);
    if encrypted then
      Request(m.current + ENCRYPT_OFFSET, Encipher(m.globalKey, m.messageKey, cmd, REQUEST_PAD))
    else Request(m.current, cmd)
  }

  lemma PollRequestOnWire(m: Master)
    requires 1 <= m.current <= MAX_ADDRESS
    ensures var q := PollRequest(m);
            |q.payload| <= MAX_PAYLOAD && PhaseFrame(m) == Some(Frame(q.address, q.payload))
    ensures m.phase >= 3 ==> PollRequest(m) == OnWire(Links.Keys(m.globalKey, m.messageKey), m.current, CallReadEvent)
  {
    hide Crc8, ToByte;
  }

  /** The four phases of a turn: ping and device type in clear, status and oldest event encrypted. */
  lemma PhasesOnWire(m: Master)
    requires 1 <= m.current <= MAX_ADDRESS
    ensures PhaseFrame(m) ==
            Some(if m.phase == 0 then Frame(m.current, [0x01])
                 else if m.phase == 1 then Frame(m.current, [0x06])
                 else if m.phase == 2 then EncryptedRequest(m.current, [0x57, 0x02], m.globalKey, m.messageKey)
                 else EncryptedRequest(m.current, [0x20], m.globalKey, m.messageKey))
  {
    hide Frame, EncryptedRequest;
  }

  /** What a polled device with the common key answers, phase by phase. */
  lemma PolledAnswers(m: Master, d: Device, verdict: bool)
    requires d.Valid() && d.globalKey == m.globalKey && m.current == d.address
    ensures var q := PollRequest(m);
            var o := Hear(d, q.address, q.payload, verdict);
            && (m.phase == 0 ==> o.reply == Clear([0x06]))
            && (m.phase == 1 ==> o.reply == Clear([d.deviceType]))
            && (m.phase == 2 ==>
                  o.reply == Enciphered([0x88, 0x02, ToByte(d.zoneCount), 0x02,
                                         if d.zoneCount >= 2 then d.zones[1].status
                                         else if d.zoneCount == 1 then d.zones[0].status
                                         else 0xC7,
                                         0xD1, 0]))
            && (m.phase >= 3 ==>
                  o.reply == Enciphered(if d.queue == [] then [0]
                                        else [d.queue[0].code, d.queue[0].zone, d.queue[0].partition]))
  {
    hide Hear, PollRequest, Sound, ToByte;
    if m.phase == 0 || m.phase == 1 {
      PlainPhases(m, d, verdict);
    } else if m.phase == 2 {
      StatusPhase(m, d, verdict);
    } else {
      EventPhase(m, d, verdict);
    }
  }

  lemma PlainPhases(m: Master, d: Device, verdict: bool)
    requires d.Valid() && m.current == d.address && (m.phase == 0 || m.phase == 1)
    ensures Hear(d, PollRequest(m).address, PollRequest(m).payload, verdict).reply ==
            Clear([if m.phase == 0 then 0x06 else d.deviceType])
  {
    hide React, Addressed, Sound;
    AddressesApart(d.address, d.address);
    PlainQueries(d, d.address, PollRequest(m).payload, verdict);
  }

  lemma StatusPhase(m: Master, d: Device, verdict: bool)
    requires d.Valid() && d.globalKey == m.globalKey && m.current == d.address && m.phase == 2
    ensures Hear(d, PollRequest(m).address, PollRequest(m).payload, verdict).reply ==
            Enciphered([0x88, 0x02, ToByte(d.zoneCount), 0x02,
                        if d.zoneCount >= 2 then d.zones[1].status
                        else if d.zoneCount == 1 then d.zones[0].status
                        else 0xC7,
                        0xD1, 0])
  {
    hide React, Addressed, Sound, ToByte, Encipher, Xor, Execute;
    var k := Links.Keys(m.globalKey, m.messageKey);
    AddressesApart(d.address, d.address);
    EncryptedCallUnderstood(k, d, CallReadStatus, verdict);
    ReadStatusAnswer(k, d, verdict);
  }

  lemma EventPhase(m: Master, d: Device, verdict: bool)
    requires d.Valid() && d.globalKey == m.globalKey && m.current == d.address && m.phase >= 3
    ensures Hear(d, PollRequest(m).address, PollRequest(m).payload, verdict).reply ==
            Enciphered(if d.queue == [] then [0] else [d.queue[0].code, d.queue[0].zone, d.queue[0].partition])
  {
    hide React, Addressed, Sound, Encipher, Xor, Execute;
    var k := Links.Keys(m.globalKey, m.messageKey);
    AddressesApart(d.address, d.address);
    EncryptedCallUnderstood(k, d, CallReadEvent, verdict);
    EventAnswer(k, d, verdict);
  }

  /** Over a port that takes whole frames a due poll puts exactly its request on the bus. */
  lemma PollWritesWhole(m: Master, now: uint32, air: Air)
    requires 1 <= m.current <= MAX_ADDRESS && Due(m, now) && m.mode.Mastering? && air.accepts >= MAX_PACKET
    ensures var q := PollRequest(m);
            |q.payload| <= MAX_PAYLOAD && PollWritten(m, now, air) == Frame(q.address, q.payload)
  {
    hide PollRequest, Frame, PhaseFrame, Due;
    DueIsEffective(m, now);
    PollRequestOnWire(m);
  }

  /** The poller, one device, what the device queued and handed out, and the number of due polls. */
  datatype Watch = Watch(m: Master, d: Device, pushed: seq<Event>, popped: seq<Event>, polls: nat)

  datatype Beat =
    | BeatPoll(now: uint32, air: Air, verdict: bool)
    | BeatEvent(event: Event)

  /** A poll or an event at the device, which hears what the poll wrote if that is a whole frame. */
  function BeatStep(w: Watch, b: Beat): (w': Watch)
    requires w.d.Valid()
    ensures w'.d.Valid()
  {
    match b
    case BeatEvent(e) =>
      var a := Accepted(w.d, e);
      w.(d := w.d.(queue := w.d.queue + a), pushed := w.pushed + a)
    case BeatPoll(now, air, verdict) =>
      var m' := Poll(w.m, now, air);
      if !Due(w.m, now) then w.(m := m')
      else
        var q := PollRequest(w.m);
        var whole := |q.payload| <= MAX_PAYLOAD && PollWritten(w.m, now, air) == Frame(q.address, q.payload);
        var o := if whole then Hear(w.d, q.address, q.payload, verdict) else Answer(w.d, Silence);
        Watch(m', o.dev, w.pushed + o.pushed, w.popped + o.popped, w.polls + 1)
  }

  function BeatRun(w: Watch, beats: seq<Beat>): (w': Watch)
    requires w.d.Valid()
    ensures w'.d.Valid()
  {
    if beats == [] then w else BeatStep(BeatRun(w, beats[..|beats| - 1]), beats[|beats| - 1])
  }

  /** The port takes whole frames. */
  predicate Lossless(b: Beat) {
    b.BeatPoll? ==> b.air.accepts >= MAX_PACKET
  }

  /** How often the address `off` places into a range of `size` has been finished in `rounds` turns. */
  function Visits(rounds: nat, size: nat, off: nat): nat
    requires size > 0
  {
    if rounds == 0 then 0 else Visits(rounds - 1, size, off) + (if (rounds - 1) % size == off then 1 else 0)
  }

  /** Range length. */
  function Span(m: Master): nat
    requires ToNat(m.addrMin) <= ToNat(m.addrMax)
  {
    ToNat(m.addrMax) - ToNat(m.addrMin) + 1
  }

  /** As the poller runs: where its cursor is, and what the device has handed out at least. */
  predicate OnSchedule(w: Watch, queue: seq<Event>) {
    && 1 <= ToNat(w.m.addrMin) <= ToNat(w.d.address) <= ToNat(w.m.addrMax) <= 127
    && w.d.Valid() && w.d.globalKey == w.m.globalKey
    && w.m.mode.Mastering? && !w.m.detected && w.m.autoPolling
    && w.m.phase == w.polls % 4
    && ToNat(w.m.current) == ToNat(w.m.addrMin) + (w.polls / 4) % Span(w.m)
    && queue + w.pushed == w.popped + w.d.queue
    && var v := Visits(w.polls / 4, Span(w.m), ToNat(w.d.address) - ToNat(w.m.addrMin));
       |w.popped| >= if v < |queue| then v else |queue|
  }

  lemma NextAddressInRange(m: Master)
    requires 1 <= ToNat(m.addrMin) <= ToNat(m.current) <= ToNat(m.addrMax) <= 127
    ensures ToNat(NextAddress(m.current, m.addrMin, m.addrMax)) ==
            if ToNat(m.current) == ToNat(m.addrMax) then ToNat(m.addrMin) else ToNat(m.current) + 1
  {
    hide ToNat;
    SmallByte(m.current);
    Successor(m.current);
    ToNatOrder(m.addrMax, m.current + 1);
  }

  lemma SmallByte(b: byte)
    requires ToNat(b) <= 127
    ensures b <= 127
  {
    ToNatOrder(b, 127);
    assert ToNat(127) == 127;
  }

  lemma Successor(b: byte)
    requires b <= 127
    ensures ToNat(b + 1) == ToNat(b) + 1
  {}

  lemma ModStep(n: nat, size: nat)
    requires size > 0
    ensures (n + 1) % size == if n % size == size - 1 then 0 else n % size + 1
  {
    var q, r := n / size, n % size;
    if r == size - 1 {
      assert n + 1 == (q + 1) * size by { assert n == q * size + r; }
      MultipleMod(q + 1, 0, size);
    } else {
      assert n + 1 == q * size + (r + 1);
      MultipleMod(q, r + 1, size);
    }
  }

  lemma MultipleMod(q: nat, r: nat, size: nat)
    requires r < size
    ensures (q * size + r) % size == r && (q * size + r) / size == q
  {
    var t := q * size + r;
    var a, b := t / size, t % size;
    assert t == a * size + b;
    Distribute(q, a, size);
    if a - q >= 1 {
      AtLeastOne(a - q, size);
    } else if a - q <= -1 {
      AtLeastOne(q - a, size);
      Distribute(a, q, size);
    }
  }

  /** The cursor moves as the two formulas do. */
  lemma CursorMoves(m: Master, n: nat)
    requires 1 <= ToNat(m.addrMin) <= ToNat(m.addrMax) <= 127
    requires m.phase == n % 4 && ToNat(m.current) == ToNat(m.addrMin) + (n / 4) % Span(m)
    ensures var a := Advance(m);
            a.phase == (n + 1) % 4 && ToNat(a.current) == ToNat(m.addrMin) + ((n + 1) / 4) % Span(m)
  {
    hide ToNat, NextAddress;
    if m.phase == 3 {
      NextAddressInRange(m);
      ModStep(n / 4, Span(m));
      assert (n + 1) / 4 == n / 4 + 1;
    } else {
      assert (n + 1) / 4 == n / 4;
    }
  }

  /** What a due poll does to the master, over a port that takes whole frames. */
  lemma DuePoll(m: Master, now: uint32, air: Air)
    requires Due(m, now) && m.mode.Mastering?
    ensures var a, m' := Advance(m), Poll(m, now, air);
            && m'.phase == a.phase && m'.current == a.current
            && m'.addrMin == m.addrMin && m'.addrMax == m.addrMax && m'.globalKey == m.globalKey
            && m'.mode == m.mode && !m'.detected && m'.autoPolling == m.autoPolling
  {
    hide PhaseFrame, Send, Detect, Advance, Due;
    DueIsEffective(m, now);
    SameAdvance(m, Send(Detect(m, now).(lastPoll := now), PhaseFrame(Detect(m, now).(lastPoll := now)), air));
  }

  lemma SameAdvance(m: Master, p: Master)
    requires p.phase == m.phase && p.current == m.current && p.addrMin == m.addrMin && p.addrMax == m.addrMax
    ensures Advance(p).phase == Advance(m).phase && Advance(p).current == Advance(m).current
  {
    hide NextAddress, Advance;
    AdvanceCases(m);
    AdvanceCases(p);
  }

  lemma AdvanceCases(m: Master)
    ensures Advance(m).phase == if m.phase < 3 then m.phase + 1 else 0
    ensures Advance(m).current == if m.phase < 3 then m.current else NextAddress(m.current, m.addrMin, m.addrMax)
  {
    hide NextAddress;
  }

  /** A poll that is not yet due leaves the schedule alone. */
  lemma IdlePoll(m: Master, now: uint32, air: Air)
    requires !Due(m, now) && m.mode.Mastering? && !m.detected
    ensures var m' := Poll(m, now, air);
            m' == m.(detected := m'.detected) && !m'.detected
  {
    hide Due;
    DueIsEffective(m, now);
  }

  /** The device hears the poll: its key stays, and an event read addressed to it takes the oldest event. */
  lemma PolledDevice(m: Master, d: Device, verdict: bool)
    requires d.Valid() && d.globalKey == m.globalKey && 1 <= m.current <= MAX_ADDRESS
    ensures var q := PollRequest(m);
            var o := Hear(d, q.address, q.payload, verdict);
            && o.dev.globalKey == d.globalKey
            && (m.phase >= 3 && m.current == d.address ==> o.popped == if d.queue == [] then [] else d.queue[..1])
  {
    hide Xor, Execute, React, Decipher, Encipher, IsEncrypted;
    var q := PollRequest(m);
    PollKeepsKey(m);
    AddressesApart(d.address, m.current);
    ReactKey(d, q.address, q.payload, verdict);
    if m.phase >= 3 && m.current == d.address {
      PollRequestOnWire(m);
      var k := Links.Keys(m.globalKey, m.messageKey);
      EncryptedCallUnderstood(k, d, CallReadEvent, verdict);
      EventAnswer(k, d, verdict);
    }
  }

  lemma PollKeepsKey(m: Master)
    requires 1 <= m.current <= MAX_ADDRESS
    ensures var q := PollRequest(m);
            !IsEncrypted(q.address) && SetsKey(q.payload) ==> |q.payload| < 4
  {
    hide Encipher;
    AddressesApart(m.current, m.current);
  }

  lemma EventAnswer(k: Links.Keys, d: Device, verdict: bool)
    requires d.Valid()
    ensures var u := d.(messageKey := k.message);
            var o := Execute(u, [Xor(k.global, k.message)] + CommandBytes(k, CallReadEvent) + [0, 0, 0], verdict);
            && o.popped == (if d.queue == [] then [] else d.queue[..1])
            && o.reply == Enciphered(if d.queue == [] then [0]
                                     else [d.queue[0].code, d.queue[0].zone, d.queue[0].partition])
  {
    hide Xor, Sound;
  }

  lemma QuarterTurn(n: nat, size: nat, off: nat)
    requires size > 0
    ensures Visits((n + 1) / 4, size, off) ==
            Visits(n / 4, size, off) + (if n % 4 == 3 && (n / 4) % size == off then 1 else 0)
  {
    if n % 4 == 3 {
      assert (n + 1) / 4 == n / 4 + 1;
    } else {
      assert (n + 1) / 4 == n / 4;
    }
  }

  lemma DueBeat(w: Watch, b: Beat, queue: seq<Event>)
    requires OnSchedule(w, queue) && b.BeatPoll? && Due(w.m, b.now) && Lossless(b)
    ensures OnSchedule(BeatStep(w, b), queue)
  {
    hide ToNat, Poll, Due, PollRequest, Hear, Advance, Visits, Device.Valid, PollWritten, Frame;
    var m := w.m;
    var n := w.polls;
    var w' := BeatStep(w, b);
    DuePoll(m, b.now, b.air);
    CursorMoves(m, n);
    CurrentInRange(m, n);
    PolledDevice(m, w.d, b.verdict);
    PollWritesWhole(m, b.now, b.air);
    var q := PollRequest(m);
    var o := Hear(w.d, q.address, q.payload, b.verdict);
    assert Sound(w.d, o);
    var off := ToNat(w.d.address) - ToNat(m.addrMin);
    QuarterTurn(n, Span(m), off);
    if n % 4 == 3 && (n / 4) % Span(m) == off {
      ToNatInjective(m.current, w.d.address);
    }
    QueueThen(queue, w.pushed, w.popped, w.d.queue, o.pushed, o.popped, o.dev.queue);
  }

  lemma QueueThen(q: seq<Event>, pushed: seq<Event>, popped: seq<Event>, m: seq<Event>,
                  pushed': seq<Event>, popped': seq<Event>, e: seq<Event>)
    requires q + pushed == popped + m && m + pushed' == popped' + e
    ensures q + (pushed + pushed') == (popped + popped') + e
    ensures |q| + |pushed| == |popped| + |m|
  {
    assert q + (pushed + pushed') == (q + pushed) + pushed';
    assert (popped + m) + pushed' == popped + (m + pushed');
    assert |q + pushed| == |popped + m|;
  }

  lemma CurrentInRange(m: Master, n: nat)
    requires 1 <= ToNat(m.addrMin) <= ToNat(m.addrMax) <= 127
    requires ToNat(m.current) == ToNat(m.addrMin) + (n / 4) % Span(m)
    ensures 1 <= m.current <= MAX_ADDRESS
  {
    ToNatOrder(1, m.current);
    ToNatOrder(m.current, 127);
    assert ToNat(1) == 1 && ToNat(127) == 127;
  }

  lemma BeatKeepsSchedule(w: Watch, b: Beat, queue: seq<Event>)
    requires OnSchedule(w, queue) && Lossless(b)
    ensures OnSchedule(BeatStep(w, b), queue)
  {
    if b.BeatPoll? && Due(w.m, b.now) {
      DueBeat(w, b, queue);
    } else {
      hide ToNat, Due, PollRequest, Hear, Advance, Visits, PhaseFrame, Poll;
      if b.BeatPoll? {
        IdlePoll(w.m, b.now, b.air);
      } else {
        var a := Accepted(w.d, b.event);
        assert queue + (w.pushed + a) == (queue + w.pushed) + a;
        assert (w.popped + w.d.queue) + a == w.popped + (w.d.queue + a);
      }
    }
  }

  /** From the switch to MASTER on, the cursor formulas and the count of events handed out hold throughout. */
  lemma {:induction false} Schedule(w: Watch, beats: seq<Beat>, queue: seq<Event>)
    requires OnSchedule(w, queue) && forall i :: 0 <= i < |beats| ==> Lossless(beats[i])
    ensures OnSchedule(BeatRun(w, beats), queue)
  {
    if beats == [] {
    } else {
      hide OnSchedule, BeatStep;
      Schedule(w, beats[..|beats| - 1], queue);
      BeatKeepsSchedule(BeatRun(w, beats[..|beats| - 1]), beats[|beats| - 1], queue);
    }
  }

  lemma {:induction false} VisitsGrow(a: nat, b: nat, size: nat, off: nat)
    requires size > 0 && a <= b
    ensures Visits(a, size, off) <= Visits(b, size, off)
    decreases b
  {
    if a < b {
      VisitsGrow(a, b - 1, size, off);
    }
  }

  /** Each address of the range is visited once in every `size` turns. */
  lemma {:induction false} VisitsPerRound(k: nat, size: nat, off: nat)
    requires off < size
    ensures Visits(size * k, size, off) >= k
    decreases k
  {
    if k > 0 {
      VisitsPerRound(k - 1, size, off);
      var base := size * (k - 1);
      assert size * k == base + size;
      assert (k - 1) * size + off == base + off;
      MultipleMod(k - 1, off, size);
      VisitsGrow(base, base + off, size, off);
      assert Visits(base + off + 1, size, off) == Visits(base + off, size, off) + 1;
      VisitsGrow(base + off + 1, base + size, size, off);
    }
  }

  lemma QuarterBound(n: nat, span: nat, k: nat)
    requires n >= 4 * span * (k + 1)
    ensures n / 4 >= span * (k + 1)
  {
    assert 4 * span * (k + 1) == 4 * (span * (k + 1));
  }

  lemma EnoughVisits(n: nat, span: nat, off: nat, k: nat)
    requires off < span && n >= 4 * span * (k + 1)
    ensures Visits(n / 4, span, off) >= k + 1
  {
    QuarterBound(n, span, k);
    VisitsPerRound(k + 1, span, off);
    VisitsGrow(span * (k + 1), n / 4, span, off);
  }

  lemma FirstOut(queue: seq<Event>, pushed: seq<Event>, popped: seq<Event>, left: seq<Event>, k: nat)
    requires queue + pushed == popped + left && k < |queue| && k < |popped|
    ensures popped[..k + 1] == queue[..k + 1]
  {
    assert (queue + pushed)[..k + 1] == queue[..k + 1];
    assert (popped + left)[..k + 1] == popped[..k + 1];
  }

  /**
   * The delivery bound. Start right after a switch to MASTER with a poll range containing the device, the
   * device holding the master's global key. Once 4 * (max - min + 1) * (k + 1) polls have been due,
   * the event that was at position k of the queue has been handed to the bus, after the k before it.
   */
  lemma DeliveryBound(m: Master, now: uint32, d: Device, beats: seq<Beat>, k: nat)
    requires 1 <= ToNat(m.addrMin) <= ToNat(d.address) <= ToNat(m.addrMax) <= 127
    requires d.Valid() && d.globalKey == m.globalKey && m.autoPolling
    requires m.mode.Monitoring? && MaySwitch(m, now)
    requires k < |d.queue| && forall i :: 0 <= i < |beats| ==> Lossless(beats[i])
    ensures var start := Watch(SwitchToMaster(m, now), d, [], [], 0);
            var w := BeatRun(start, beats);
            && w.m.phase == w.polls % 4
            && ToNat(w.m.current) == ToNat(m.addrMin) + (w.polls / 4) % Span(m)
            && (w.polls >= 4 * Span(m) * (k + 1) ==> |w.popped| > k && w.popped[..k + 1] == d.queue[..k + 1])
  {
    hide ToNat, BeatRun, Lossless, OnSchedule, Visits, Span, MaySwitch, Device.Valid;
    var start := Watch(SwitchToMaster(m, now), d, [], [], 0);
    ScheduleStarts(m, now, d);
    Schedule(start, beats, d.queue);
    RunKeepsRange(start, beats);
    ScheduleTells(m, BeatRun(start, beats), d.queue, k, ToNat(d.address));
  }

  lemma ScheduleStarts(m: Master, now: uint32, d: Device)
    requires 1 <= ToNat(m.addrMin) <= ToNat(d.address) <= ToNat(m.addrMax) <= 127
    requires d.Valid() && d.globalKey == m.globalKey && m.autoPolling && m.mode.Monitoring? && MaySwitch(m, now)
    ensures var s := SwitchToMaster(m, now);
            s.addrMin == m.addrMin && s.addrMax == m.addrMax && OnSchedule(Watch(s, d, [], [], 0), d.queue)
  {
    hide ToNat, Device.Valid;
    assert d.queue + [] == [] + d.queue;
  }

  /** What being on schedule says, after enough polls, about the event at position `k` of the queue at the start. */
  lemma ScheduleTells(m: Master, w: Watch, queue: seq<Event>, k: nat, a: nat)
    requires OnSchedule(w, queue) && k < |queue| && ToNat(w.d.address) == a
    requires w.m.addrMin == m.addrMin && w.m.addrMax == m.addrMax && ToNat(m.addrMin) <= a <= ToNat(m.addrMax)
    ensures w.m.phase == w.polls % 4
    ensures ToNat(w.m.current) == ToNat(m.addrMin) + (w.polls / 4) % Span(m)
    ensures w.polls >= 4 * Span(m) * (k + 1) ==> |w.popped| > k && w.popped[..k + 1] == queue[..k + 1]
  {
    hide ToNat, Visits, Device.Valid;
    if w.polls >= 4 * Span(m) * (k + 1) {
      EnoughVisits(w.polls, Span(m), a - ToNat(m.addrMin), k);
      FirstOut(queue, w.pushed, w.popped, w.d.queue, k);
    }
  }

  /** The run changes neither the range nor the device's address. */
  lemma BeatKeepsRange(w: Watch, b: Beat)
    requires w.d.Valid()
    ensures var r := BeatStep(w, b);
            r.m.addrMin == w.m.addrMin && r.m.addrMax == w.m.addrMax && r.d.address == w.d.address
  {
    hide Hear, PollRequest, Poll, PollWritten, Frame, Due;
    if b.BeatPoll? {
      PollKeepsRange(w.m, b.now, b.air);
    }
  }

  lemma PollKeepsRange(m: Master, now: uint32, air: Air)
    ensures Poll(m, now, air).addrMin == m.addrMin && Poll(m, now, air).addrMax == m.addrMax
  {
    hide PhaseFrame, Send, Detect, Advance, Due;
  }

  lemma {:induction false} RunKeepsRange(w: Watch, beats: seq<Beat>)
    requires w.d.Valid()
    ensures var r := BeatRun(w, beats);
            r.m.addrMin == w.m.addrMin && r.m.addrMax == w.m.addrMax && r.d.address == w.d.address
  {
    if beats == [] {
    } else {
      hide BeatStep;
      RunKeepsRange(w, beats[..|beats| - 1]);
      BeatKeepsRange(BeatRun(w, beats[..|beats| - 1]), beats[|beats| - 1]);
    }
  }
}
