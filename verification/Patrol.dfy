/** The poller, any number of devices and the listener on one bus: what is queued anywhere reaches the monitor's log. */
module Patrol {
  import opened Bytes
  import opened Frames
  import opened Devices
  import opened Decoding
  import opened Mastering
  import opened Polling
  import opened Bus

  /** The master, the bus, and the number of due polls. */
  datatype Scene = Scene(m: Master, w: World, polls: nat)

  /** A poll by the master with the real times of its request and of the answer, or an event at a device. */
  datatype Happening =
    | Round(asked: nat, answered: nat, air: Air, verdict: bool)
    | Incident(addr: nat, event: Event)

  /** The request a poll puts on the bus. */
  function AskOf(m: Master, h: Happening): BusOp
    requires h.Round?
  {
    var q := PollRequest(m);
    Ask(q.address, q.payload, h.asked, h.answered, h.verdict)
  }

  /** The poll transmits, and the port takes its whole frame. */
  predicate Transmits(m: Master, h: Happening)
    requires h.Round?
  {
    var q := PollRequest(m);
    Due(m, Ticks(h.asked)) && |q.payload| <= MAX_PAYLOAD &&
    PollWritten(m, Ticks(h.asked), h.air) == Frame(q.address, q.payload)
  }

  /** What is asked of the timing, at the moment it happens. */
  predicate InOrder(s: Scene, h: Happening) {
    h.Round? && Transmits(s.m, h) ==> Orderly(s.w, AskOf(s.m, h))
  }

  /** What a happening is to the bus. */
  function OpOf(m: Master, h: Happening): Option<BusOp> {
    match h
    case Incident(addr, e) => Some(Raise(addr, e))
    case Round(_, _, _, _) => if Transmits(m, h) then Some(AskOf(m, h)) else None
  }

  function Advanced(s: Scene, h: Happening): Scene
    requires Sane(s.w) && InOrder(s, h)
  {
    var op := OpOf(s.m, h);
    var w := if op.Some? then BusStepSane(s.w, op.value); BusStep(s.w, op.value) else s.w;
    if h.Round? then
      Scene(Poll(s.m, Ticks(h.asked), h.air), w, s.polls + (if Due(s.m, Ticks(h.asked)) then 1 else 0))
    else s.(w := w)
  }

  lemma AdvancedSane(s: Scene, h: Happening)
    requires Sane(s.w) && InOrder(s, h)
    ensures Sane(Advanced(s, h).w) && Advanced(s, h).w.devs.Keys == s.w.devs.Keys
  {
    hide Sane, BusStep, Due, PollRequest, PollWritten, Frame, Poll, SetsKey, BusAddress, IsBusAddress;
    var op := OpOf(s.m, h);
    if op.Some? {
      BusStepSane(s.w, op.value);
    }
  }

  /** Every happening is in order when its turn comes. */
  predicate AllInOrder(s: Scene, hs: seq<Happening>)
    requires Sane(s.w)
    decreases |hs|, 0
  {
    hs == [] || (AllInOrder(s, hs[..|hs| - 1]) && InOrder(Played(s, hs[..|hs| - 1]), hs[|hs| - 1]))
  }

  function Played(s: Scene, hs: seq<Happening>): (s': Scene)
    requires Sane(s.w) && AllInOrder(s, hs)
    ensures Sane(s'.w) && s'.w.devs.Keys == s.w.devs.Keys
    decreases |hs|, 1
  {
    if hs == [] then s
    else
      var init := Played(s, hs[..|hs| - 1]);
      AdvancedSane(init, hs[|hs| - 1]);
      Advanced(init, hs[|hs| - 1])
  }

  // --- One device's view ---

  /** What a happening is to the device at address `a`. */
  function BeatOf(h: Happening, a: nat): seq<Beat> {
    match h
    case Round(asked, _, air, verdict) => [BeatPoll(Ticks(asked), air, verdict)]
    case Incident(addr, e) => if addr == a then [BeatEvent(e)] else []
  }

  function BeatsFor(hs: seq<Happening>, a: nat): seq<Beat> {
    if hs == [] then [] else BeatsFor(hs[..|hs| - 1], a) + BeatOf(hs[|hs| - 1], a)
  }

  /** The scene and the watch of one device agree on the master, the device and the polls counted. */
  predicate Matches(s: Scene, a: nat, v: Watch) {
    a in s.w.devs && v.m == s.m && v.d == s.w.devs[a] && v.polls == s.polls
  }

  /** A log's entries about one device, as the events they report. */
  function EventsAt(log: seq<BusEvent>, addr: byte): seq<Event> {
    if log == [] then []
    else
      var e := log[|log| - 1];
      EventsAt(log[..|log| - 1], addr) + (if e.addr == addr then [Event(e.code, e.zone, e.extra)] else [])
  }

  /** The events with a code. */
  function Coded(events: seq<Event>): seq<Event> {
    if events == [] then []
    else
      var e := events[|events| - 1];
      Coded(events[..|events| - 1]) + (if e.code == 0 then [] else [e])
  }

  lemma {:induction false} EventsAtConcat(a: seq<BusEvent>, b: seq<BusEvent>, addr: byte)
    ensures EventsAt(a + b, addr) == EventsAt(a, addr) + EventsAt(b, addr)
    decreases |b|
  {
    if b == [] {
      assert a + b == a;
    } else {
      var k := |b| - 1;
      EventsAtConcat(a, b[..k], addr);
      assert (a + b)[..|a + b| - 1] == a + b[..k];
    }
  }

  lemma {:induction false} CodedConcat(a: seq<Event>, b: seq<Event>)
    ensures Coded(a + b) == Coded(a) + Coded(b)
    decreases |b|
  {
    if b == [] {
      assert a + b == a;
    } else {
      var k := |b| - 1;
      CodedConcat(a, b[..k]);
      assert (a + b)[..|a + b| - 1] == a + b[..k];
    }
  }

  /** What is owed to the log for a request is about the addressed device, and is what that device let go. */
  lemma {:induction false} OwedAt(addr: byte, popped: seq<Event>, now: uint32, own: byte)
    requires |popped| <= 1
    ensures EventsAt(Owed(addr, popped, now), own) == if addr == own then Coded(popped) else []
  {
    if popped != [] {
      assert popped[..0] == [] && EventsAt([], own) == [];
      assert Owed(addr, popped, now) != [] ==> Owed(addr, popped, now)[..0] == [];
    }
  }

  /** A device that is not addressed lets nothing go. */
  lemma NotAddressed(d: Device, raw: byte, payload: seq<byte>, verdict: bool)
    requires d.Valid() && BusAddress(raw) != d.address
    ensures Hear(d, raw, payload, verdict) == Answer(d, Silence)
  {
    hide React, BusAddress, Sound;
    RawAddress(d.address, raw);
  }

  /** A request: the bus changes the device as its own hearing does, and logs what it lets go. */
  lemma AskSeen(w: World, op: BusOp, a: nat)
    requires Sane(w) && op.Ask? && Orderly(w, op) && a in w.devs
    ensures w.devs[a].Valid()
    ensures var o := Hear(w.devs[a], op.raw, op.payload, op.verdict);
            && a in BusStep(w, op).devs && BusStep(w, op).devs[a] == o.dev
            && EventsAt(BusStep(w, op).mon.log, w.devs[a].address) ==
               EventsAt(w.mon.log, w.devs[a].address) + Coded(o.popped)
  {
    hide Observe, Hear, Frame, ToNat, BusAddress, IsEncrypted, SetsKey, ReplyBytes, IsBusAddress, Owed, EventsAt, Coded;
    assert DeviceAt(w, a);
    var d := w.devs[a];
    var own, to := d.address, BusAddress(op.raw);
    var o := Hear(d, op.raw, op.payload, op.verdict);
    AskObserved(w, op);
    EventsAtConcat(w.mon.log, BusOwed(w, op), own);
    NothingAt(own);
    if to == own {
      OwedAt(to, o.popped, Ticks(op.answered), own);
    } else {
      NotAddressed(d, op.raw, op.payload, op.verdict);
      if ToNat(to) in w.devs {
        assert DeviceAt(w, ToNat(to));
        OwedAt(to, Hear(w.devs[ToNat(to)], op.raw, op.payload, op.verdict).popped, Ticks(op.answered), own);
      }
    }
  }

  lemma NothingAt(own: byte)
    ensures EventsAt([], own) == [] && Coded([]) == []
  {}

  lemma RaiseSeen(w: World, op: BusOp, a: nat)
    requires Sane(w) && op.Raise? && a in w.devs
    ensures var w' := BusStep(w, op);
            && a in w'.devs && w'.mon == w.mon
            && w'.devs[a] == (if op.addr == a then
                                w.devs[a].(queue := w.devs[a].queue + Accepted(w.devs[a], op.event))
                              else w.devs[a])
  {
    hide ToNat;
  }

  /** The watch after one more happening at most. */
  function Next(v: Watch, h: Happening, a: nat): (v': Watch)
    requires v.d.Valid()
    ensures v'.d.Valid()
  {
    match h
    case Round(asked, _, air, verdict) => BeatStep(v, BeatPoll(Ticks(asked), air, verdict))
    case Incident(addr, e) => if addr == a then BeatStep(v, BeatEvent(e)) else v
  }

  lemma RunNext(v: Watch, beats: seq<Beat>, h: Happening, a: nat)
    requires v.d.Valid()
    ensures BeatRun(v, beats + BeatOf(h, a)) == Next(BeatRun(v, beats), h, a)
  {
    hide BeatStep;
    if BeatOf(h, a) == [] {
      assert beats + [] == beats;
    } else {
      assert (beats + BeatOf(h, a))[..|beats|] == beats;
    }
  }

  /** The log tells, about the device at `own`, what it did before and then the coded ones of `popped`. */
  predicate Tells(before: seq<BusEvent>, after: seq<BusEvent>, own: byte, popped: seq<Event>) {
    EventsAt(after, own) == EventsAt(before, own) + Coded(popped)
  }

  lemma TellsMore(l0: seq<BusEvent>, l1: seq<BusEvent>, l2: seq<BusEvent>, own: byte, p: seq<Event>, q: seq<Event>)
    requires Tells(l0, l1, own, p) && Tells(l1, l2, own, q)
    ensures Tells(l0, l2, own, p + q)
  {
    CodedConcat(p, q);
    PlusAssociative(EventsAt(l0, own), Coded(p), Coded(q));
  }

  /** The events a happening takes from the watched device. */
  function Taken(v: Watch, h: Happening): seq<Event>
    requires v.d.Valid()
  {
    if h.Round? && Transmits(v.m, h) then
      Hear(v.d, PollRequest(v.m).address, PollRequest(v.m).payload, h.verdict).popped
    else []
  }

  lemma RoundMatches(s: Scene, h: Happening, a: nat, v: Watch)
    requires Sane(s.w) && InOrder(s, h) && Matches(s, a, v) && h.Round?
    ensures v.d.Valid()
    ensures Matches(Advanced(s, h), a, Next(v, h, a)) && Next(v, h, a).d.address == v.d.address
    ensures Next(v, h, a).popped == v.popped + Taken(v, h)
    ensures Tells(s.w.mon.log, Advanced(s, h).w.mon.log, v.d.address, Taken(v, h))
  {
    hide BusStep, Poll, Due, PollRequest, PollWritten, Frame, Hear, EventsAt, Coded, Orderly, Device.Valid;
    assert DeviceAt(s.w, a);
    NothingAt(v.d.address);
    if Transmits(s.m, h) {
      AskSeen(s.w, AskOf(s.m, h), a);
    }
  }

  lemma IncidentMatches(s: Scene, h: Happening, a: nat, v: Watch)
    requires Sane(s.w) && InOrder(s, h) && Matches(s, a, v) && h.Incident?
    ensures v.d.Valid()
    ensures Matches(Advanced(s, h), a, Next(v, h, a)) && Next(v, h, a).d.address == v.d.address
    ensures Next(v, h, a).popped == v.popped + Taken(v, h)
    ensures Tells(s.w.mon.log, Advanced(s, h).w.mon.log, v.d.address, Taken(v, h))
  {
    hide BusStep, EventsAt, Coded, Device.Valid, Accepted;
    assert DeviceAt(s.w, a);
    NothingAt(v.d.address);
    RaiseSeen(s.w, Raise(h.addr, h.event), a);
  }

  /** Over every run the device at `a` lives as in a run of its own, and the log tells just what it let go. */
  lemma {:induction false} OneDevice(s: Scene, hs: seq<Happening>, a: nat, v: Watch)
    requires Sane(s.w) && AllInOrder(s, hs) && Matches(s, a, v) && v.popped == []
    ensures v.d.Valid()
    ensures var v' := BeatRun(v, BeatsFor(hs, a));
            && Matches(Played(s, hs), a, v') && v'.d.address == v.d.address
            && Tells(s.w.mon.log, Played(s, hs).w.mon.log, v.d.address, v'.popped)
  {
    hide Sane, Next, Advanced, Matches, Tells, InOrder, Taken, Device.Valid;
    MatchedValid(s, a, v);
    if hs == [] {
      TellsNothing(s.w.mon.log, v.d.address);
    } else {
      var init, h := hs[..|hs| - 1], hs[|hs| - 1];
      OneDevice(s, init, a, v);
      var p, m := Played(s, init), BeatRun(v, BeatsFor(init, a));
      MatchedValid(p, a, m);
      RunNext(v, BeatsFor(init, a), h, a);
      if h.Round? {
        RoundMatches(p, h, a, m);
      } else {
        IncidentMatches(p, h, a, m);
      }
      TellsMore(s.w.mon.log, p.w.mon.log, Played(s, hs).w.mon.log, v.d.address, m.popped, Taken(m, h));
    }
  }

  lemma MatchedValid(s: Scene, a: nat, v: Watch)
    requires Sane(s.w) && Matches(s, a, v)
    ensures v.d.Valid() && ToNat(v.d.address) == a && v.d.globalKey == s.w.mon.key
  {
    hide ToNat;
    assert DeviceAt(s.w, a);
  }

  lemma TellsNothing(log: seq<BusEvent>, own: byte)
    ensures Tells(log, log, own, [])
  {}

  // --- Delivery to the listener ---

  predicate AllLossless(hs: seq<Happening>) {
    forall i :: 0 <= i < |hs| && hs[i].Round? ==> hs[i].air.accepts >= MAX_PACKET
  }

  lemma {:induction false} BeatsLossless(hs: seq<Happening>, a: nat)
    requires AllLossless(hs)
    ensures forall i :: 0 <= i < |BeatsFor(hs, a)| ==> Lossless(BeatsFor(hs, a)[i])
  {
    if hs != [] {
      BeatsLossless(hs[..|hs| - 1], a);
    }
  }

  lemma CodedPrefix(all: seq<Event>, n: nat)
    requires n <= |all|
    ensures Coded(all[..n]) <= Coded(all)
  {
    CodedConcat(all[..n], all[n..]);
    TakeDrop(all, n);
  }

  lemma PrefixAfter<T>(start: seq<T>, short: seq<T>, long: seq<T>)
    requires short <= long
    ensures start + short <= start + long
  {}

  /**
   * From a switch to MASTER on, with any devices on the bus holding the common key: for every device in the poll
   * range, once 4 * (max - min + 1) * (k + 1) polls have been due, the monitor's log tells of the first
   * k + 1 events the device had queued, all those with a code, in order, right after what it told before.
   */
  lemma QueuedIsLogged(m: Master, now: uint32, w: World, hs: seq<Happening>, a: nat, k: nat)
    requires Sane(w) && a in w.devs && k < |w.devs[a].queue|
    requires 1 <= ToNat(m.addrMin) <= a <= ToNat(m.addrMax) <= 127
    requires m.autoPolling && m.mode.Monitoring? && MaySwitch(m, now) && m.globalKey == w.mon.key
    requires var start := Scene(SwitchToMaster(m, now), w, 0); AllInOrder(start, hs) && AllLossless(hs)
    ensures var end := Played(Scene(SwitchToMaster(m, now), w, 0), hs);
            var d := w.devs[a];
            end.polls >= 4 * Span(m) * (k + 1) ==>
              EventsAt(w.mon.log, d.address) + Coded(d.queue[..k + 1]) <= EventsAt(end.w.mon.log, d.address)
  {
    hide Sane, AllInOrder, Played, ToNat, EventsAt, Coded, BeatRun, MaySwitch, Lossless, Device.Valid;
    var start := Scene(SwitchToMaster(m, now), w, 0);
    var d := w.devs[a];
    var v := Watch(start.m, d, [], [], 0);
    MatchedValid(start, a, v);
    OneDevice(start, hs, a, v);
    BeatsLossless(hs, a);
    DeliveryBound(m, now, d, BeatsFor(hs, a), k);
    var v' := BeatRun(v, BeatsFor(hs, a));
    if v'.polls >= 4 * Span(m) * (k + 1) {
      CodedPrefix(v'.popped, k + 1);
      PrefixAfter(EventsAt(w.mon.log, d.address), Coded(d.queue[..k + 1]), Coded(v'.popped));
    }
  }
}
