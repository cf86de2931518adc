/** The emulated device with its receive buffer: frames end by silence, on values. */
module Stations {
  import opened Bytes
  import opened Crc
  import opened Frames
  import opened Devices

  const INTER_BYTE_TIMEOUT_MS := 5

  datatype Station = Station(dev: Device, rx: seq<byte>, lastRx: uint32, heard: nat, answered: nat)
  {
    predicate Valid() {
      dev.Valid() && |rx| <= MAX_PACKET
    }
  }

  /** The buffer after more bytes; a full buffer starts over. */
  function Fill(rx: seq<byte>, incoming: seq<Timed>): (r: seq<byte>)
    requires |rx| <= MAX_PACKET
    ensures |r| <= MAX_PACKET
  {
    if incoming == [] then rx
    else
      var r := Fill(rx, incoming[..|incoming| - 1]);
      (if |r| >= MAX_PACKET then [] else r) + [incoming[|incoming| - 1].value]
  }

  function LastAt(lastRx: uint32, incoming: seq<Timed>): uint32 {
    if incoming == [] then lastRx else incoming[|incoming| - 1].at
  }

  datatype Request = Request(address: byte, payload: seq<byte>)

  /** The request in a buffer closed by silence: for this device, complete, with a good checksum. */
  function Accept(d: Device, buf: seq<byte>): Option<Request> {
    if |buf| < 3 then None
    else
      var n := ToNat(buf[1]);
      if Addressed(d.address, buf[0]) && 1 <= n && 2 + n <= |buf| && Crc8(buf[..1 + n]) == buf[1 + n] then
        Some(Request(buf[0], buf[2..1 + n]))
      else None
  }

  predicate Silent(s: Station, now: uint32) {
    s.rx != [] && Elapsed(now, s.lastRx) > INTER_BYTE_TIMEOUT_MS
  }

  /** What a buffer closed by silence makes the device do. */
  function CloseOutcome(d: Device, buf: seq<byte>, verdict: bool): (o: Outcome)
    requires d.Valid()
    ensures Sound(d, o)
  {
    var request := Accept(d, buf);
    if request.Some? then React(d, request.value.address, request.value.payload, verdict)
    else Answer(d, Silence)
  }

  /** What one call of `poll` makes the device do. */
  function PollOutcome(s: Station, now: uint32, verdict: bool): (o: Outcome)
    requires s.Valid()
    ensures Sound(s.dev, o)
  {
    if Silent(s, now) then CloseOutcome(s.dev, s.rx, verdict) else Answer(s.dev, Silence)
  }

  function PollStation(s: Station, now: uint32, incoming: seq<Timed>, verdict: bool): (s': Station)
    requires s.Valid()
    ensures s'.Valid()
  {
    var o := PollOutcome(s, now, verdict);
    Station(
      o.dev,
      Fill(if Silent(s, now) then [] else s.rx, incoming),
      LastAt(s.lastRx, incoming),
      s.heard + (if Silent(s, now) && Accept(s.dev, s.rx).Some? then 1 else 0),
      s.answered + (if o.reply.Silence? then 0 else 1))
  }

  // --- Rejection ---

  /** Wrong address, truncated or bad checksum: nothing in the device changes and nothing is sent. */
  lemma RejectedIsIgnored(s: Station, now: uint32, incoming: seq<Timed>, verdict: bool)
    requires s.Valid()
    requires Silent(s, now) ==>
      || |s.rx| < 3
      || !Addressed(s.dev.address, s.rx[0])
      || |s.rx| < 2 + ToNat(s.rx[1])
      || Crc8(s.rx[..1 + ToNat(s.rx[1])]) != s.rx[1 + ToNat(s.rx[1])]
    ensures PollOutcome(s, now, verdict) == Answer(s.dev, Silence)
    ensures var s' := PollStation(s, now, incoming, verdict);
            s'.dev == s.dev && s'.heard == s.heard && s'.answered == s.answered
  {
    hide Crc8, ToNat, React;
  }

  // --- Runs ---

  datatype Op =
    | OpPoll(now: uint32, incoming: seq<Timed>, verdict: bool)
    | OpPush(event: Event)
    | OpSetZone(zone: byte, status: byte)

  /** The history of a run: events accepted into the queue, events handed to the bus, replies sent. */
  datatype Trace = Trace(pushed: seq<Event>, popped: seq<Event>, replies: seq<Reply>)

  function StepOp(s: Station, op: Op): (s': Station)
    requires s.Valid()
    ensures s'.Valid()
  {
    match op
    case OpPoll(now, incoming, verdict) => PollStation(s, now, incoming, verdict)
    case OpPush(e) => s.(dev := s.dev.(queue := s.dev.queue + Accepted(s.dev, e)))
    case OpSetZone(zone, status) =>
      if 0 < ToNat(zone) <= MAX_ZONES then
        var i := ToNat(zone) - 1;
        s.(dev := s.dev.(zones := s.dev.zones[i := s.dev.zones[i].(status := status)]))
      else s
  }

  function TraceOp(s: Station, op: Op): Trace
    requires s.Valid()
  {
    match op
    case OpPoll(now, _, verdict) =>
      var o := PollOutcome(s, now, verdict);
      Trace(o.pushed, o.popped, if o.reply.Silence? then [] else [o.reply])
    case OpPush(e) => Trace(Accepted(s.dev, e), [], [])
    case OpSetZone(_, _) => Trace([], [], [])
  }

  function RunOps(s: Station, ops: seq<Op>): (s': Station)
    requires s.Valid()
    ensures s'.Valid()
  {
    if ops == [] then s else StepOp(RunOps(s, ops[..|ops| - 1]), ops[|ops| - 1])
  }

  function RunTrace(s: Station, ops: seq<Op>): Trace
    requires s.Valid()
  {
    if ops == [] then Trace([], [], [])
    else
      var t := RunTrace(s, ops[..|ops| - 1]);
      Then(t, TraceOp(RunOps(s, ops[..|ops| - 1]), ops[|ops| - 1]))
  }

  /** The events a run's replies carry: three-byte texts, which no other command answers with. */
  function EventsIn(replies: seq<Reply>): seq<Event> {
    if replies == [] then []
    else
      var r := replies[|replies| - 1];
      EventsIn(replies[..|replies| - 1]) +
      (if r.Enciphered? && |r.text| == 3 then [Event(r.text[0], r.text[1], r.text[2])] else [])
  }

  lemma OnlyEventsHaveThreeBytes(d: Device, address: byte, payload: seq<byte>, verdict: bool)
    requires d.Valid()
    ensures var o := React(d, address, payload, verdict);
            EventsIn(if o.reply.Silence? then [] else [o.reply]) == o.popped
  {
    hide Crc8, Xor, ToNat, ToByte, Decipher, PlainCommand, SetsKey, CommandOf, IsEncrypted,
         HasZone, WithStatus, Accepted, ReportedStatus;
  }

  /**
   * Each accepted frame drew at most one reply, the queue was first-in first-out without loss or
   * invention, and the events taken are exactly those the replies carried to the bus.
   */
  predicate Conserved(s: Station, s': Station, t: Trace) {
    && s.dev.queue + t.pushed == t.popped + s'.dev.queue
    && t.popped == EventsIn(t.replies)
    && s'.answered - s.answered == |t.replies| <= s'.heard - s.heard
    && SameSetup(s.dev, s'.dev)
  }

  function Then(t: Trace, u: Trace): Trace {
    Trace(t.pushed + u.pushed, t.popped + u.popped, t.replies + u.replies)
  }

  lemma ConservedThen(s: Station, m: Station, e: Station, t: Trace, u: Trace)
    requires Conserved(s, m, t) && Conserved(m, e, u)
    ensures Conserved(s, e, Then(t, u))
  {
    hide EventsIn;
    EventsInConcat(t.replies, u.replies);
    var q, r, v := s.dev.queue, m.dev.queue, e.dev.queue;
    assert q + (t.pushed + u.pushed) == (q + t.pushed) + u.pushed;
    assert (t.popped + r) + u.pushed == t.popped + (r + u.pushed);
    assert t.popped + (u.popped + v) == (t.popped + u.popped) + v;
  }

  /** Conservation over every run of polls, pushes and zone updates. */
  lemma {:induction false} RunConserves(s: Station, ops: seq<Op>)
    requires s.Valid()
    ensures Conserved(s, RunOps(s, ops), RunTrace(s, ops))
  {
    if ops == [] {
    } else {
      hide StepOp, TraceOp, Conserved;
      var init, op := ops[..|ops| - 1], ops[|ops| - 1];
      RunConserves(s, init);
      StepConserves(RunOps(s, init), op);
      ConservedThen(s, RunOps(s, init), RunOps(s, ops), RunTrace(s, init), TraceOp(RunOps(s, init), op));
    }
  }

  lemma StepConserves(s: Station, op: Op)
    requires s.Valid()
    ensures Conserved(s, StepOp(s, op), TraceOp(s, op))
  {
    hide Conserved, StepOp, TraceOp;
    match op
    case OpPoll(now, incoming, verdict) => PollConserves(s, now, incoming, verdict);
    case OpPush(e) => PushConserves(s, e);
    case OpSetZone(zone, status) => SetZoneConserves(s, zone, status);
  }

  lemma PushConserves(s: Station, e: Event)
    requires s.Valid()
    ensures Conserved(s, StepOp(s, OpPush(e)), TraceOp(s, OpPush(e)))
  {
    hide PollStation, EventsIn, Accepted;
    NoReplies();
  }

  lemma SetZoneConserves(s: Station, zone: byte, status: byte)
    requires s.Valid()
    ensures Conserved(s, StepOp(s, OpSetZone(zone, status)), TraceOp(s, OpSetZone(zone, status)))
  {
    hide PollStation, EventsIn, ToNat, SameSetup;
    NoReplies();
    assert s.dev.queue + [] == [] + s.dev.queue;
    SetupKept(s.dev, s.dev.zones);
    if 0 < ToNat(zone) <= MAX_ZONES {
      var i := ToNat(zone) - 1;
      SetupKept(s.dev, s.dev.zones[i := s.dev.zones[i].(status := status)]);
    }
  }

  lemma SetupKept(d: Device, zones: seq<Zone>)
    requires |zones| == |d.zones|
    ensures SameSetup(d, d.(zones := zones)) && d.(zones := d.zones) == d
  {}

  lemma NoReplies()
    ensures EventsIn([]) == []
  {}

  lemma PollConserves(s: Station, now: uint32, incoming: seq<Timed>, verdict: bool)
    requires s.Valid()
    ensures Conserved(s, StepOp(s, OpPoll(now, incoming, verdict)), TraceOp(s, OpPoll(now, incoming, verdict)))
  {
    hide React, Crc8, ToNat, EventsIn, Fill;
    NoReplies();
    if Silent(s, now) && Accept(s.dev, s.rx).Some? {
      var q := Accept(s.dev, s.rx).value;
      OnlyEventsHaveThreeBytes(s.dev, q.address, q.payload, verdict);
    }
  }

  lemma {:induction false} EventsInConcat(a: seq<Reply>, b: seq<Reply>)
    ensures EventsIn(a + b) == EventsIn(a) + EventsIn(b)
  {
    if b == [] {
      assert a + b == a;
    } else {
      var k := |b| - 1;
      EventsInConcat(a, b[..k]);
      assert (a + b)[..|a + b| - 1] == a + b[..k];
      PlusAssociative(EventsIn(a), EventsIn(b[..k]), EventsIn(b)[|EventsIn(b[..k])|..]);
    }
  }
}
