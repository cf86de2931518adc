/** The ESP32 master on values: mode switching, master detection, transmission and the poll cursor. */
module Mastering {
  import opened Bytes
  import opened Crc
  import opened Frames
  import opened Devices

  const RESPONSE_TIMEOUT_MS := 200
  const MAX_COMMAND := 200

  datatype Mode = Monitoring | Mastering

  datatype Master = Master(
    mode: Mode, detected: bool, lastTraffic: uint32, timeout: uint32,
    autoPolling: bool, addrMin: byte, addrMax: byte, current: byte, lastPoll: uint32, interval: uint32, phase: nat,
    globalKey: byte, messageKey: byte,
    txPackets: nat, txErrors: nat, responseTimeouts: nat)

  /** As constructed: passive, polling addresses 1 to 127 once it becomes master. */
  const INITIAL: Master :=
    Master(Monitoring, false, 0, 30000, true, 1, 127, 1, 0, 100, 0, 0, 0, 0, 0, 0)

  // --- Master detection and mode ---

  function Notify(m: Master, now: uint32): Master {
    m.(lastTraffic := now, detected := true)
  }

  function Detect(m: Master, now: uint32): (m': Master)
    ensures m' == m.(detected := m'.detected)
  {
    if m.lastTraffic == 0 then m.(detected := false)
    else if Elapsed(now, m.lastTraffic) > m.timeout then m.(detected := false)
    else m
  }

  /** `switchToMaster` and its answer. */
  predicate MaySwitch(m: Master, now: uint32) {
    m.mode.Mastering? ||
    (!m.detected && (m.lastTraffic == 0 || Elapsed(now, m.lastTraffic) >= m.timeout))
  }

  function SwitchToMaster(m: Master, now: uint32): Master {
    if m.mode.Mastering? || !MaySwitch(m, now) then m
    else m.(mode := Mastering, current := m.addrMin, phase := 0, lastPoll := 0)
  }

  function SwitchToMonitor(m: Master): Master {
    m.(mode := Monitoring)
  }

  function SetPollRange(m: Master, lo: byte, hi: byte): Master {
    var a: byte := if lo < 1 then 1 else lo;
    m.(addrMin := a, addrMax := if hi > MAX_ADDRESS then MAX_ADDRESS else hi, current := a)
  }

  // --- One command on the wire ---

  /** The serial port during a command: bytes it takes, and then, tick by tick, the clock and what can be read. */
  datatype Tick = Tick(now: uint32, avail: Option<byte>)

  datatype Air = Air(accepts: nat, start: uint32, ticks: seq<Tick>)

  /** The frame of a command, unless the address or the size is refused. */
  function CommandFrame(m: Master, address: byte, cmd: seq<byte>, encrypted: bool): Option<seq<byte>> {
    if address == 0 || address > MAX_ADDRESS || |cmd| > MAX_COMMAND then None
    else if encrypted then Some(EncryptedRequest(address, cmd, m.globalKey, m.messageKey))
    else Some(Frame(address, cmd))
  }

  /** The bytes that can be read before the response timeout. */
  function InTime(ticks: seq<Tick>, start: uint32): seq<byte> {
    if ticks == [] || Elapsed(ticks[0].now, start) >= RESPONSE_TIMEOUT_MS then []
    else (if ticks[0].avail.Some? then [ticks[0].avail.value] else []) + InTime(ticks[1..], start)
  }

  /** A response is complete in time. */
  predicate Answered(rx: seq<byte>) {
    |rx| >= 2 && |rx| >= 2 + ToNat(rx[1])
  }

  /** What `sendAndReceive` returns. */
  function SendResult(m: Master, frame: Option<seq<byte>>, air: Air): int {
    if frame == None || !m.mode.Mastering? || air.accepts < |frame.value| then -1
    else
      var rx := InTime(air.ticks, air.start);
      if !Answered(rx) then -1
      else if Crc8(rx[..1 + ToNat(rx[1])]) != rx[1 + ToNat(rx[1])] then -2
      else 0
  }

  /** The bytes put on the bus. */
  function Written(m: Master, frame: Option<seq<byte>>, air: Air): seq<byte> {
    if frame == None || !m.mode.Mastering? then []
    else if air.accepts < |frame.value| then frame.value[..air.accepts]
    else frame.value
  }

  /** Only the counters move. */
  function Send(m: Master, frame: Option<seq<byte>>, air: Air): (m': Master)
    ensures m' == m.(txPackets := m'.txPackets, txErrors := m'.txErrors, responseTimeouts := m'.responseTimeouts)
  {
    if frame == None || !m.mode.Mastering? then m
    else if air.accepts < |frame.value| then m.(txErrors := m.txErrors + 1)
    else m.(txPackets := m.txPackets + 1,
            responseTimeouts := m.responseTimeouts + (if Answered(InTime(air.ticks, air.start)) then 0 else 1))
  }

  // --- Polling ---

  /** The command of a poll phase: ping, device type, status, event. */
  function PhaseCommand(phase: nat): (seq<byte>, bool) {
    if phase == 0 then ([CMD_PING], false)
    else if phase == 1 then ([CMD_READ_DEVICE_TYPE], false)
    else if phase == 2 then ([CMD_READ_STATUS, 0x02], true)
    else ([CMD_READ_EVENT], true)
  }

  function PhaseFrame(m: Master): Option<seq<byte>> {
    var (cmd, encrypted) := PhaseCommand(m.phase);
    CommandFrame(m, m.current, cmd, encrypted)
  }

  /** The 8-bit address after `current` in the range, back to its start past its end. */
  function NextAddress(current: byte, lo: byte, hi: byte): byte {
    var next := current + 1;
    if next > hi then lo else next
  }

  /** The cursor after a poll: next phase, or the next address in the range. */
  function Advance(m: Master): (m': Master)
    ensures m' == m.(phase := m'.phase, current := m'.current) && (m.phase <= 3 ==> m'.phase <= 3)
  {
    if m.phase < 3 then m.(phase := m.phase + 1)
    else m.(phase := 0, current := NextAddress(m.current, m.addrMin, m.addrMax))
  }

  /** A poll that will transmit: master, no other master seen, polling enabled, interval over. */
  predicate Effective(m: Master, now: uint32) {
    var d := Detect(m, now);
    d.mode.Mastering? && !d.detected && d.autoPolling && Elapsed(now, d.lastPoll) >= d.interval
  }

  function Poll(m: Master, now: uint32, air: Air): Master {
    var d := Detect(m, now);
    if d.mode.Mastering? && d.detected then d.(mode := Monitoring)
    else if Effective(m, now) then
      var p := d.(lastPoll := now);
      Advance(Send(p, PhaseFrame(p), air))
    else d
  }

  function PollWritten(m: Master, now: uint32, air: Air): seq<byte> {
    if Effective(m, now) then Written(m, PhaseFrame(m), air) else []
  }

  // --- Every public call ---

  datatype Call =
    | CallSwitchToMaster(now: uint32)
    | CallSwitchToMonitor
    | CallPoll(now: uint32, air: Air)
    | CallNotify(now: uint32)
    | CallCommand(address: byte, cmd: seq<byte>, encrypted: bool, air: Air)
    | CallSetTimeout(timeout: uint32)
    | CallSetAutoPolling(on: bool)
    | CallSetInterval(interval: uint32)
    | CallSetRange(lo: byte, hi: byte)
    | CallSetKeys(globalKey: byte, messageKey: byte)

  function Apply(m: Master, c: Call): Master {
    match c
    case CallSwitchToMaster(now) => SwitchToMaster(m, now)
    case CallSwitchToMonitor => SwitchToMonitor(m)
    case CallPoll(now, air) => Poll(m, now, air)
    case CallNotify(now) => Notify(m, now)
    case CallCommand(address, cmd, encrypted, air) => Send(m, CommandFrame(m, address, cmd, encrypted), air)
    case CallSetTimeout(t) => m.(timeout := t)
    case CallSetAutoPolling(on) => m.(autoPolling := on)
    case CallSetInterval(i) => m.(interval := i)
    case CallSetRange(lo, hi) => SetPollRange(m, lo, hi)
    case CallSetKeys(g, k) => m.(globalKey := g, messageKey := k)
  }

  function Output(m: Master, c: Call): seq<byte> {
    match c
    case CallPoll(now, air) => PollWritten(m, now, air)
    case CallCommand(address, cmd, encrypted, air) => Written(m, CommandFrame(m, address, cmd, encrypted), air)
    case _ => []
  }

  function Run(m: Master, calls: seq<Call>): Master {
    if calls == [] then m else Apply(Run(m, calls[..|calls| - 1]), calls[|calls| - 1])
  }

  /**
   * Over every sequence of calls: whatever is written was written by a call made in MASTER mode, response
   * timeouts never outnumber packets sent, and the poll cursor stays in its four phases.
   */
  lemma {:induction false} BusSilence(calls: seq<Call>, c: Call)
    ensures var m := Run(INITIAL, calls);
            && Counted(m)
            && (Output(m, c) != [] ==> m.mode.Mastering?)
            && (c.CallPoll? && Output(m, c) != [] ==> !Detect(m, c.now).detected)
    decreases |calls|
  {
    hide Apply, Output, Counted;
    if calls == [] {
      InitiallyCounted();
    } else {
      BusSilence(calls[..|calls| - 1], c);
      ApplyCounted(Run(INITIAL, calls[..|calls| - 1]), calls[|calls| - 1]);
    }
    OutputAsMaster(Run(INITIAL, calls), c);
  }

  predicate Counted(m: Master) {
    m.responseTimeouts <= m.txPackets && m.phase <= 3
  }

  lemma InitiallyCounted()
    ensures Counted(INITIAL)
  {}

  lemma SendCounted(m: Master, frame: Option<seq<byte>>, air: Air)
    requires Counted(m)
    ensures Counted(Send(m, frame, air))
  {
    hide Answered;
  }

  lemma PollCounted(m: Master, now: uint32, air: Air)
    requires Counted(m)
    ensures Counted(Poll(m, now, air))
  {
    hide PhaseFrame, Send, Detect, Advance, Effective;
    if Effective(m, now) {
      var p := Detect(m, now).(lastPoll := now);
      SendCounted(p, PhaseFrame(p), air);
    }
  }

  lemma PollKeepsTraffic(m: Master, now: uint32, air: Air)
    ensures Poll(m, now, air).lastTraffic == m.lastTraffic
  {
    hide PhaseFrame, Send, Detect, Advance, Effective;
  }

  lemma ApplyCounted(m: Master, c: Call)
    requires Counted(m)
    ensures Counted(Apply(m, c))
  {
    hide CommandFrame, Send, Poll, MaySwitch;
    match c
    case CallPoll(now, air) => PollCounted(m, now, air);
    case CallCommand(address, cmd, encrypted, air) => SendCounted(m, CommandFrame(m, address, cmd, encrypted), air);
    case _ =>
  }

  lemma OutputAsMaster(m: Master, c: Call)
    ensures Output(m, c) != [] ==> m.mode.Mastering?
    ensures c.CallPoll? && Output(m, c) != [] ==> !Detect(m, c.now).detected
  {
    hide CommandFrame, PhaseFrame;
  }

  /** Only a notification touches what is remembered of the other master. */
  lemma ApplyTraffic(m: Master, c: Call)
    ensures Apply(m, c).lastTraffic == if c.CallNotify? then c.now else m.lastTraffic
  {
    hide CommandFrame, Send, Poll, MaySwitch, Counted;
    if c.CallPoll? {
      PollKeepsTraffic(m, c.now, c.air);
    }
  }

  // --- When a poll transmits ---

  /** Another master has been seen, within the timeout. */
  predicate OtherMaster(m: Master, now: uint32) {
    m.detected && m.lastTraffic != 0 && Elapsed(now, m.lastTraffic) <= m.timeout
  }

  /** A poll is due: master, alone, polling, and the interval over since the last poll. */
  predicate Due(m: Master, now: uint32) {
    m.mode.Mastering? && !OtherMaster(m, now) && m.autoPolling && Elapsed(now, m.lastPoll) >= m.interval
  }

  lemma DueIsEffective(m: Master, now: uint32)
    ensures Effective(m, now) <==> Due(m, now)
  {}

  lemma PhaseFrameRefused(m: Master)
    ensures PhaseFrame(m) == None <==> m.current == 0 || m.current > 127
    ensures PhaseFrame(m).Some? ==> 3 <= |PhaseFrame(m).value| <= MAX_PACKET
  {
    hide Frame, EncryptedRequest, Encipher;
    if 1 <= m.current <= 127 {
      EncryptedSize(m.current, PhaseCommand(m.phase).0, m.globalKey, m.messageKey);
    }
  }

  lemma EncryptedSize(address: byte, cmd: seq<byte>, globalKey: byte, messageKey: byte)
    requires |cmd| <= MAX_COMMAND
    ensures |Frame(address, cmd)| == |cmd| + 3 && |EncryptedRequest(address, cmd, globalKey, messageKey)| == |cmd| + 7
  {}

  /**
   * Over a port that takes whole frames a poll writes exactly when the mode is MASTER, no other master is detected
   * within the timeout, auto-polling is on, the interval is over and the cursor stands at a device address.
   */
  lemma PollTransmits(m: Master, now: uint32, air: Air)
    requires air.accepts >= MAX_PACKET
    ensures PollWritten(m, now, air) != [] <==>
            && m.mode.Mastering?
            && !(m.detected && m.lastTraffic != 0 && Elapsed(now, m.lastTraffic) <= m.timeout)
            && m.autoPolling && Elapsed(now, m.lastPoll) >= m.interval
            && 1 <= m.current <= 127
    ensures PollWritten(m, now, air) != [] ==> Some(PollWritten(m, now, air)) == PhaseFrame(m)
  {
    hide PhaseFrame;
    PhaseFrameRefused(m);
  }

  /** A poll that is not due keeps phase, cursor and time of the last poll; one that is due moves all three. */
  lemma PollMoves(m: Master, now: uint32, air: Air)
    ensures var m' := Poll(m, now, air);
            if Due(m, now) then
              && m'.lastPoll == now
              && m'.phase == (if m.phase < 3 then m.phase + 1 else 0)
              && m'.current == (if m.phase < 3 then m.current
                                else if m.current + 1 > m.addrMax then m.addrMin else m.current + 1)
            else
              m'.lastPoll == m.lastPoll && m'.phase == m.phase && m'.current == m.current
  {
    hide PhaseFrame, Send, Effective;
    DueIsEffective(m, now);
    DetectKeeps(m, now);
  }

  lemma DetectKeeps(m: Master, now: uint32)
    ensures var d := Detect(m, now);
            && d == m.(detected := d.detected)
            && (m.mode.Mastering? && d.detected ==> !Due(m, now))
  {}

  // --- One command and its answer ---

  /**
   * A command succeeds exactly when its frame goes out whole in MASTER mode, a whole response (as many bytes as its
   * second announces) comes in time, and the CRC over it comes to 0; it reports a CRC error when only the last fails.
   */
  lemma SendResultMeans(m: Master, frame: Option<seq<byte>>, air: Air)
    ensures var rx := InTime(air.ticks, air.start);
            var sent := m.mode.Mastering? && frame.Some? && air.accepts >= |frame.value|;
            var whole := |rx| >= 2 && |rx| >= 2 + ToNat(rx[1]);
            SendResult(m, frame, air) ==
            if !sent || !whole then -1 else if Crc8(rx[..2 + ToNat(rx[1])]) == 0 then 0 else -2
  {
    hide Crc8, ToNat, InTime;
    var rx := InTime(air.ticks, air.start);
    if |rx| >= 2 && |rx| >= 2 + ToNat(rx[1]) {
      var n := 1 + ToNat(rx[1]);
      assert rx[..n + 1] == rx[..n] + [rx[n]];
      Crc8Sealed(rx[..n], rx[n]);
    }
  }

  /** The counters after a command: one packet if its frame went out whole, and a timeout if no whole response came. */
  lemma SendCounts(m: Master, frame: Option<seq<byte>>, air: Air)
    ensures var m' := Send(m, frame, air);
            var tried := m.mode.Mastering? && frame.Some?;
            var sent := tried && air.accepts >= |frame.value|;
            var rx := InTime(air.ticks, air.start);
            var whole := |rx| >= 2 && |rx| >= 2 + ToNat(rx[1]);
            && m'.txPackets == m.txPackets + (if sent then 1 else 0)
            && m'.txErrors == m.txErrors + (if tried && !sent then 1 else 0)
            && m'.responseTimeouts ==
               m.responseTimeouts + (if sent && !whole then 1 else 0)
  {
    hide InTime, ToNat;
    if m.mode.Mastering? && frame.Some? && air.accepts >= |frame.value| {
      assert Send(m, frame, air).txPackets == m.txPackets + 1;
    }
  }

  /** A reply of the device that arrives whole in time makes the command succeed, whatever follows it. */
  lemma ReplySucceeds(m: Master, frame: Option<seq<byte>>, air: Air, raw: byte, payload: seq<byte>, rest: seq<byte>)
    requires m.mode.Mastering? && frame.Some? && air.accepts >= |frame.value| && |payload| <= MAX_PAYLOAD
    requires InTime(air.ticks, air.start) == Frame(raw, payload) + rest
    ensures SendResult(m, frame, air) == 0
  {
    hide Crc8, ToNat, InTime, Frame;
    FrameShape(raw, payload);
    var f := Frame(raw, payload);
    assert (f + rest)[..1 + ToNat(f[1])] == f[..|f| - 1];
  }

  /** A tick of the receive loops in real time. */
  datatype RealTick = RealTick(at: nat, avail: Option<byte>)

  function ClockedTicks(ticks: seq<RealTick>): seq<Tick> {
    if ticks == [] then [] else [Tick(Ticks(ticks[0].at), ticks[0].avail)] + ClockedTicks(ticks[1..])
  }

  /** The bytes available before a real time. */
  function BytesBefore(ticks: seq<RealTick>, limit: nat): seq<byte> {
    if ticks == [] then []
    else (if ticks[0].at < limit && ticks[0].avail.Some? then [ticks[0].avail.value] else []) +
         BytesBefore(ticks[1..], limit)
  }

  predicate InOrder(ticks: seq<RealTick>) {
    |ticks| >= 2 ==> ticks[0].at <= ticks[1].at && InOrder(ticks[1..])
  }

  lemma {:induction false} NothingBefore(ticks: seq<RealTick>, limit: nat)
    requires InOrder(ticks) && ticks != [] && ticks[0].at >= limit
    ensures BytesBefore(ticks, limit) == []
  {
    if |ticks| >= 2 {
      NothingBefore(ticks[1..], limit);
    }
  }

  /** The receive loops take exactly the bytes available in the 200 ms after the start. */
  lemma {:induction false} InTimeIsRealTime(ticks: seq<RealTick>, start: nat)
    requires InOrder(ticks)
    requires forall i :: 0 <= i < |ticks| ==> start <= ticks[i].at < start + TWO_TO_THE_32
    ensures InTime(ClockedTicks(ticks), Ticks(start)) == BytesBefore(ticks, start + 200)
  {
    if ticks == [] {
    } else {
      ElapsedIsRealTime(ticks[0].at, start);
      assert (ticks[0].at - start) % TWO_TO_THE_32 == ticks[0].at - start;
      assert ClockedTicks(ticks)[1..] == ClockedTicks(ticks[1..]);
      if ticks[0].at >= start + 200 {
        NothingBefore(ticks, start + 200);
      } else {
        InTimeIsRealTime(ticks[1..], start);
      }
    }
  }

  // --- Mode safety in real time ---

  /** A call at a real time; the clock it sees is the 32-bit reading. */
  datatype TimedCall = TimedCall(at: nat, call: Call)

  /** The call reads the clock at its own time. */
  predicate OnTime(tc: TimedCall) {
    match tc.call
    case CallSwitchToMaster(now) => now == Ticks(tc.at)
    case CallPoll(now, _) => now == Ticks(tc.at)
    case CallNotify(now) => now == Ticks(tc.at)
    case _ => true
  }

  /** Real times do not run backwards and clocks are read on time. */
  predicate Chronological(tcs: seq<TimedCall>) {
    && (forall i :: 0 <= i < |tcs| ==> OnTime(tcs[i]))
    && (forall i, j :: 0 <= i < j < |tcs| ==> tcs[i].at <= tcs[j].at)
  }

  function RunTimed(tcs: seq<TimedCall>): Master {
    if tcs == [] then INITIAL else Apply(RunTimed(tcs[..|tcs| - 1]), tcs[|tcs| - 1].call)
  }

  /** The real time of the latest notified request. */
  function Latest(tcs: seq<TimedCall>): Option<nat> {
    if tcs == [] then None
    else if tcs[|tcs| - 1].call.CallNotify? then Some(tcs[|tcs| - 1].at)
    else Latest(tcs[..|tcs| - 1])
  }

  predicate NotifiedAt(tcs: seq<TimedCall>, i: nat) {
    i < |tcs| && tcs[i].call.CallNotify?
  }

  /** No request was notified after the latest, and the latest lies within the history. */
  lemma {:induction false} LatestIsLast(tcs: seq<TimedCall>)
    requires Chronological(tcs)
    ensures forall i: nat :: NotifiedAt(tcs, i) ==> Latest(tcs).Some? && tcs[i].at <= Latest(tcs).value
    ensures Latest(tcs).Some? ==> tcs != [] && Latest(tcs).value <= tcs[|tcs| - 1].at
    decreases |tcs|
  {
    if tcs != [] {
      var init := tcs[..|tcs| - 1];
      LatestIsLast(init);
      forall i: nat | NotifiedAt(tcs, i)
        ensures Latest(tcs).Some? && tcs[i].at <= Latest(tcs).value
      {
        assert i < |tcs| - 1 ==> NotifiedAt(init, i) && init[i] == tcs[i];
      }
    }
  }

  /** The master remembers the clock reading of the latest notified request, 0 standing for none. */
  lemma {:induction false} RemembersTraffic(tcs: seq<TimedCall>)
    requires Chronological(tcs)
    ensures RunTimed(tcs).lastTraffic == match Latest(tcs) case None => 0 case Some(t) => Ticks(t)
    decreases |tcs|
  {
    hide Apply;
    if tcs != [] {
      var k := |tcs| - 1;
      RemembersTraffic(tcs[..k]);
      assert OnTime(tcs[k]);
      ApplyTraffic(RunTimed(tcs[..k]), tcs[k].call);
    }
  }

  /**
   * When MONITOR turns to MASTER, real time at least the timeout has passed since every request notified
   * before, however often the 32-bit clock has wrapped, unless the latest of them came at tick 0.
   */
  lemma ModeSafety(tcs: seq<TimedCall>, at: nat, i: nat)
    requires Chronological(tcs) && (tcs != [] ==> tcs[|tcs| - 1].at <= at)
    requires NotifiedAt(tcs, i) && (Latest(tcs).Some? ==> Ticks(Latest(tcs).value) != 0)
    requires RunTimed(tcs).mode.Monitoring? && SwitchToMaster(RunTimed(tcs), Ticks(at)).mode.Mastering?
    ensures at - tcs[i].at >= RunTimed(tcs).timeout
  {
    RemembersTraffic(tcs);
    LatestIsLast(tcs);
    ElapsedIsRealTime(at, Latest(tcs).value);
  }

  /** Whether a passive master that polls at `pollAt` and switches at `at` becomes MASTER, on what it remembers. */
  lemma SwitchDecision(m: Master, last: nat, pollAt: nat, at: nat, air: Air)
    requires m.mode.Monitoring? && m.lastTraffic == Ticks(last)
    requires last <= pollAt <= at < last + TWO_TO_THE_32
    ensures Poll(m, Ticks(pollAt), air).mode.Monitoring?
    ensures SwitchToMaster(Poll(m, Ticks(pollAt), air), Ticks(at)).mode.Mastering? <==>
            || Ticks(last) == 0
            || (at - last >= m.timeout && (pollAt - last > m.timeout || !m.detected))
  {
    ElapsedIsRealTime(pollAt, last);
    ElapsedIsRealTime(at, last);
    assert (pollAt - last) % TWO_TO_THE_32 == pollAt - last;
    assert (at - last) % TWO_TO_THE_32 == at - last;
  }

  lemma NeverNotified(m: Master, pollAt: uint32, at: uint32, air: Air)
    requires m.mode.Monitoring? && m.lastTraffic == 0
    ensures Poll(m, pollAt, air).mode.Monitoring? && SwitchToMaster(Poll(m, pollAt, air), at).mode.Mastering?
  {}

  /**
   * After any run that left the master passive, within one turn of the clock since the latest notified request,
   * one poll and then the switch succeed exactly when nothing was ever notified, or the latest request came at
   * tick 0 (and so is forgotten), or the timeout has passed by the switch and either had passed by the poll or
   * an earlier poll had already cleared the other master.
   */
  lemma SwitchAfterPoll(tcs: seq<TimedCall>, pollAt: nat, at: nat, air: Air)
    requires Chronological(tcs) && RunTimed(tcs).mode.Monitoring?
    requires (tcs != [] ==> tcs[|tcs| - 1].at <= pollAt) && pollAt <= at
    requires Latest(tcs).Some? ==> at < Latest(tcs).value + TWO_TO_THE_32
    ensures var m := RunTimed(tcs);
            SwitchToMaster(Poll(m, Ticks(pollAt), air), Ticks(at)).mode.Mastering? <==>
            match Latest(tcs)
            case None => true
            case Some(last) =>
              || Ticks(last) == 0
              || (at - last >= m.timeout && (pollAt - last > m.timeout || !m.detected))
  {
    hide Poll, SwitchToMaster, RunTimed, Latest;
    RemembersTraffic(tcs);
    LatestIsLast(tcs);
    match Latest(tcs)
    case None => NeverNotified(RunTimed(tcs), Ticks(pollAt), Ticks(at), air);
    case Some(last) => SwitchDecision(RunTimed(tcs), last, pollAt, at, air);
  }

  /** So the safety clause is exact: with the latest request at tick 0 the switch succeeds however recent it is. */
  lemma TickZeroForgotten(tcs: seq<TimedCall>, at: nat, air: Air)
    requires Chronological(tcs) && RunTimed(tcs).mode.Monitoring?
    requires Latest(tcs).Some? && Ticks(Latest(tcs).value) == 0
    ensures SwitchToMaster(Poll(RunTimed(tcs), Ticks(at), air), Ticks(at)).mode.Mastering?
  {
    hide Poll, SwitchToMaster, RunTimed, Latest;
    RemembersTraffic(tcs);
    NeverNotified(RunTimed(tcs), Ticks(at), Ticks(at), air);
  }

  /** The answer alone proves nothing in MASTER mode: it is true though a request was notified this very tick. */
  lemma MasterAlwaysMay(m: Master, now: uint32)
    requires m.mode.Mastering?
    ensures MaySwitch(Notify(m, now), now)
  {}

  /**
   * A request notified in MASTER mode makes the next poll fall back to MONITOR having sent nothing, exactly
   * when it was not notified at tick 0 and the poll comes within the timeout.
   */
  lemma EmergencyFallback(m: Master, seen: nat, at: nat, air: Air)
    requires m.mode.Mastering? && seen <= at < seen + TWO_TO_THE_32
    ensures var n := Notify(m, Ticks(seen));
            (Poll(n, Ticks(at), air).mode.Monitoring? && PollWritten(n, Ticks(at), air) == []) <==>
            (Ticks(seen) != 0 && at - seen <= m.timeout)
    ensures Poll(Notify(m, Ticks(seen)), Ticks(at), air).mode.Monitoring? ==>
            PollWritten(Notify(m, Ticks(seen)), Ticks(at), air) == []
  {
    hide PhaseFrame, InTime, Answered;
    ElapsedIsRealTime(at, seen);
    assert (at - seen) % TWO_TO_THE_32 == at - seen;
  }

  // --- The interval in real time ---

  lemma ApplyLastPoll(m: Master, c: Call)
    ensures Apply(m, c).lastPoll ==
            match c
            case CallSwitchToMaster(now) =>
              if m.mode.Monitoring? && SwitchToMaster(m, now).mode.Mastering? then 0 else m.lastPoll
            case CallPoll(now, air) => if Due(m, now) then now else m.lastPoll
            case _ => m.lastPoll
  {
    hide Poll, Due, MaySwitch, CommandFrame, Send;
    if c.CallPoll? {
      PollMoves(m, c.now, c.air);
    }
  }

  /** Call `l` turned MONITOR to MASTER. */
  predicate SwitchedAt(tcs: seq<TimedCall>, l: nat)
    requires l < |tcs|
  {
    RunTimed(tcs[..l]).mode.Monitoring? && RunTimed(tcs[..l + 1]).mode.Mastering?
  }

  lemma OneMoreCall(tcs: seq<TimedCall>, l: nat)
    requires l < |tcs|
    ensures RunTimed(tcs[..l + 1]) == Apply(RunTimed(tcs[..l]), tcs[l].call)
  {
    hide Apply;
    assert tcs[..l + 1][..l] == tcs[..l];
  }

  lemma WritesWhenDue(m: Master, now: uint32, air: Air)
    ensures PollWritten(m, now, air) != [] ==> Due(m, now)
  {
    hide PhaseFrame, Due, Effective;
    DueIsEffective(m, now);
  }

  /** After a poll that wrote, and until the next switch, the master remembers a poll no earlier than that one. */
  lemma {:induction false} LastPollSince(tcs: seq<TimedCall>, i: nat, j: nat) returns (t: nat)
    requires Chronological(tcs) && i < j <= |tcs| && tcs[i].call.CallPoll?
    requires PollWritten(RunTimed(tcs[..i]), tcs[i].call.now, tcs[i].call.air) != []
    requires forall l: nat :: i < l < j ==> !SwitchedAt(tcs, l)
    ensures RunTimed(tcs[..j]).lastPoll == Ticks(t) && tcs[i].at <= t <= tcs[j - 1].at
    decreases j
  {
    hide RunTimed, Apply, Due, PollWritten, SwitchToMaster, MaySwitch;
    var k := j - 1;
    OneMoreCall(tcs, k);
    ApplyLastPoll(RunTimed(tcs[..k]), tcs[k].call);
    assert OnTime(tcs[k]);
    if k == i {
      t := tcs[i].at;
      WritesWhenDue(RunTimed(tcs[..i]), tcs[i].call.now, tcs[i].call.air);
    } else {
      t := LastPollSince(tcs, i, k);
      assert !SwitchedAt(tcs, k);
      SwitchCallApplies(RunTimed(tcs[..k]), tcs[k].call);
      if tcs[k].call.CallPoll? && Due(RunTimed(tcs[..k]), tcs[k].call.now) {
        t := tcs[k].at;
      }
    }
  }

  lemma SwitchCallApplies(m: Master, c: Call)
    ensures c.CallSwitchToMaster? ==> Apply(m, c) == SwitchToMaster(m, c.now)
  {}

  /**
   * Two polls that write, with no switch to MASTER between them, are at least the polling interval apart in real
   * time, however often the clock has wrapped.
   */
  lemma PollsApart(tcs: seq<TimedCall>, i: nat, j: nat)
    requires Chronological(tcs) && i < j < |tcs| && tcs[i].call.CallPoll? && tcs[j].call.CallPoll?
    requires PollWritten(RunTimed(tcs[..i]), tcs[i].call.now, tcs[i].call.air) != []
    requires PollWritten(RunTimed(tcs[..j]), tcs[j].call.now, tcs[j].call.air) != []
    requires forall l: nat :: i < l < j ==> !SwitchedAt(tcs, l)
    ensures tcs[j].at - tcs[i].at >= RunTimed(tcs[..j]).interval
  {
    hide RunTimed, PollWritten, SwitchedAt;
    var t := LastPollSince(tcs, i, j);
    assert OnTime(tcs[j]) && tcs[j - 1].at <= tcs[j].at;
    WritesWhenDue(RunTimed(tcs[..j]), tcs[j].call.now, tcs[j].call.air);
    ElapsedIsRealTime(tcs[j].at, t);
  }

  /** A switch forgets the last poll: the first poll after it is due as soon as the clock reads the interval. */
  lemma FirstPollAfterSwitch(m: Master, at: uint32, now: uint32)
    requires m.mode.Monitoring? && SwitchToMaster(m, at).mode.Mastering?
    ensures var n := SwitchToMaster(m, at);
            && n.phase == 0 && n.current == m.addrMin
            && (Due(n, now) <==> m.autoPolling && now >= m.interval)
  {}
}
