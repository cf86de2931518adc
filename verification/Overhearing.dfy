/** The monitor object over many polls: what it catches and logs, and what the sniffer sees of the same bytes. */
module Overhearing {
  import opened Bytes
  import opened Crc
  import opened Frames
  import opened Devices
  import opened Framing
  import opened Sniffer
  import opened Listening
  import opened Decoding
  import opened BusMonitor

  // --- Many polls ---

  function BurstsOf(turns: seq<Turn>): (b: seq<Burst>)
    ensures |b| == |turns| && forall i :: 0 <= i < |b| ==> b[i] == BurstOf(turns[i])
  {
    seq(|turns|, i requires 0 <= i < |turns| => BurstOf(turns[i]))
  }

  /** Every byte read, in order, over all the polls. */
  function ArrivalsOf(turns: seq<Turn>): seq<Arrival> {
    if turns == [] then [] else ArrivalsOf(turns[..|turns| - 1]) + turns[|turns| - 1].input
  }

  function CaughtInTurns(f: Framer, turns: seq<Turn>): seq<Caught>
    requires |f.rx| <= MAX_PACKET
  {
    if turns == [] then []
    else
      var k := |turns| - 1;
      CaughtInTurns(f, turns[..k]) + CaughtInTurn(PollsFramer(f, BurstsOf(turns[..k])), turns[k])
  }

  lemma BurstsOfLast(turns: seq<Turn>)
    requires turns != []
    ensures var k := |turns| - 1;
            && BurstsOf(turns) == BurstsOf(turns[..k]) + [BurstOf(turns[k])]
            && BurstsOf(turns)[..k] == BurstsOf(turns[..k])
  {}

  lemma ValuesOfConcat(a: seq<Arrival>, b: seq<Arrival>)
    ensures ValuesOf(a + b) == ValuesOf(a) + ValuesOf(b)
  {}

  lemma {:induction false} BytesArrived(turns: seq<Turn>)
    ensures BytesOf(BurstsOf(turns)) == ValuesOf(ArrivalsOf(turns))
  {
    if turns == [] {
      assert ValuesOf([]) == [];
    } else {
      var k := |turns| - 1;
      BurstsOfLast(turns);
      BytesArrived(turns[..k]);
      ValuesOfConcat(ArrivalsOf(turns[..k]), turns[k].input);
    }
  }

  /** Two monitors with the same log, key and remembered request; their device tables may differ. */
  predicate SameMind(m: Monitor, n: Monitor) {
    Kept(m, n) && n.log == m.log
  }

  lemma FrameSame(m: Monitor, n: Monitor, raw: byte, payload: seq<byte>, now: uint32)
    requires m.Valid() && n.Valid() && SameMind(m, n) && IsBusAddress(BusAddress(raw))
    ensures SameMind(OnFrame(m, raw, payload, now), OnFrame(n, raw, payload, now))
  {
    hide ToNat, BusAddress, OnResponse, OnRequest, Logged, Decipher, Xor, IsEncrypted, IsBusAddress;
    var mc, nc := m.(totalPackets := m.totalPackets + 1), n.(totalPackets := n.totalPackets + 1);
    RequestSame(mc, nc, BusAddress(raw), payload, IsEncrypted(raw), now);
  }

  lemma RequestSame(m: Monitor, n: Monitor, addr: byte, payload: seq<byte>, encrypted: bool, now: uint32)
    requires m.Valid() && n.Valid() && SameMind(m, n) && IsBusAddress(addr)
    ensures SameMind(OnRequest(m, addr, payload, encrypted, now), OnRequest(n, addr, payload, encrypted, now))
  {
    hide ToNat, Xor;
  }

  lemma ObserveSame(m: Monitor, n: Monitor, data: seq<byte>, now: uint32)
    requires m.Valid() && n.Valid() && SameMind(m, n)
    ensures SameMind(Observe(m, data, now), Observe(n, data, now))
  {
    hide Crc8, ToNat, BusAddress, OnFrame, IsBusAddress;
    if |data| >= 3 && IsBusAddress(BusAddress(data[0])) && |data| >= 2 + ToNat(data[1]) && ToNat(data[1]) != 0 {
      FrameSame(m, n, data[0], data[2..1 + ToNat(data[1])], now);
    }
  }

  lemma {:induction false} ObserveAllSame(m: Monitor, n: Monitor, caught: seq<Caught>)
    requires m.Valid() && n.Valid() && SameMind(m, n)
    ensures SameMind(ObserveAll(m, caught), ObserveAll(n, caught))
  {
    hide Observe, SameMind;
    if caught != [] {
      var k := |caught| - 1;
      ObserveAllSame(m, n, caught[..k]);
      ObserveSame(ObserveAll(m, caught[..k]), ObserveAll(n, caught[..k]), caught[k].data, caught[k].at);
    }
  }

  lemma {:induction false} ObserveParts(m: Monitor, a: seq<Caught>, b: seq<Caught>)
    requires m.Valid()
    ensures ObserveAll(m, a + b) == ObserveAll(ObserveAll(m, a), b)
    decreases |b|
  {
    hide Observe;
    if b == [] {
      assert a + b == a;
    } else {
      var k := |b| - 1;
      ObserveParts(m, a, b[..k]);
      assert (a + b)[..|a + b| - 1] == a + b[..k];
    }
  }

  /** Over all the polls the buffers caught are those the framer hands over. */
  lemma {:induction false} CaughtIsHandedOver(f: Framer, turns: seq<Turn>)
    requires |f.rx| <= MAX_PACKET
    ensures DataOf(CaughtInTurns(f, turns)) == PollsHanded(f, BurstsOf(turns))
  {
    hide CaughtInTurn, PollHanded, PollFramer;
    if turns == [] {
      assert BurstsOf(turns) == [] && DataOf([]) == [];
    } else {
      var k := |turns| - 1;
      var g := PollsFramer(f, BurstsOf(turns[..k]));
      BurstsOfLast(turns);
      CaughtIsHandedOver(f, turns[..k]);
      TurnData(g, turns[k]);
      DataOfConcat(CaughtInTurns(f, turns[..k]), CaughtInTurn(g, turns[k]));
    }
  }

  lemma TurnData(f: Framer, t: Turn)
    requires |f.rx| <= MAX_PACKET
    ensures DataOf(CaughtInTurn(f, t)) == PollHanded(f, BurstOf(t))
  {
    hide CaughtBy, Handed, Expired;
    CaughtIsHanded(if Expired(f, t.us) then [] else f.rx, t.input);
    DataOfConcat(CaughtBySilence(f, t), CaughtBy(if Expired(f, t.us) then [] else f.rx, t.input));
  }

  /** The framer of the monitor object. */
  ghost function FramerOf(monitor: OrionBusMonitor): (f: Framer)
    requires monitor.Valid()
    reads monitor, monitor.devices, monitor.events, monitor.rxBuf
    ensures |f.rx| <= MAX_PACKET
  {
    Framer(monitor.rxBuf[..monitor.rxPos], monitor.lastRx)
  }

  /** One poll of the object, as the framer and the log see it. */
  method PollOnce(monitor: OrionBusMonitor, t: Turn)
    requires monitor.Valid()
    modifies monitor, monitor.devices, monitor.events, monitor.rxBuf
    ensures monitor.Valid()
    ensures FramerOf(monitor) == PollFramer(old(FramerOf(monitor)), BurstOf(t))
    ensures monitor.caught == old(monitor.caught) + CaughtInTurn(old(FramerOf(monitor)), t)
    ensures SameMind(ObserveAll(old(monitor.Mon()), CaughtInTurn(old(FramerOf(monitor)), t)), monitor.Mon())
  {
    hide CaughtInTurn, PollFramer, ObserveAll, HearTurn, OrionBusMonitor.LogKept;
    TurnIsDecoding(monitor.State(), t);
    monitor.Poll(t);
  }

  /** The firmware's main loop: one poll after another. */
  method PollAll(monitor: OrionBusMonitor, turns: seq<Turn>)
    requires monitor.Valid()
    modifies monitor, monitor.devices, monitor.events, monitor.rxBuf
    ensures monitor.Valid()
    ensures FramerOf(monitor) == PollsFramer(old(FramerOf(monitor)), BurstsOf(turns))
    ensures monitor.caught == old(monitor.caught) + CaughtInTurns(old(FramerOf(monitor)), turns)
    ensures SameMind(ObserveAll(old(monitor.Mon()), CaughtInTurns(old(FramerOf(monitor)), turns)), monitor.Mon())
  {
    hide CaughtInTurn, PollFramer, SameMind, OrionBusMonitor.Valid, Monitor.Valid;
    ghost var f, m, caught := FramerOf(monitor), monitor.Mon(), monitor.caught;
    NothingYet(m);
    assert turns[..0] == [] && BurstsOf([]) == [] && caught + [] == caught;
    for i := 0 to |turns|
      invariant monitor.Valid()
      invariant FramerOf(monitor) == PollsFramer(f, BurstsOf(turns[..i]))
      invariant monitor.caught == caught + CaughtInTurns(f, turns[..i])
      invariant SameMind(ObserveAll(m, CaughtInTurns(f, turns[..i])), monitor.Mon())
    {
      ghost var before, more := CaughtInTurns(f, turns[..i]), CaughtInTurn(FramerOf(monitor), turns[i]);
      ghost var mind := monitor.Mon();
      TurnsLast(f, turns, i);
      PlusAssociative(caught, before, more);
      ObserveParts(m, before, more);
      ObserveAllSame(ObserveAll(m, before), mind, more);
      PollOnce(monitor, turns[i]);
      SameTransitive(ObserveAll(m, before + more), ObserveAll(mind, more), monitor.Mon());
    }
    assert turns[..|turns|] == turns;
  }

  lemma NothingYet(m: Monitor)
    requires m.Valid()
    ensures SameMind(ObserveAll(m, []), m)
  {}

  lemma SameTransitive(a: Monitor, b: Monitor, c: Monitor)
    requires SameMind(a, b) && SameMind(b, c)
    ensures SameMind(a, c)
  {}

  lemma TurnsLast(f: Framer, turns: seq<Turn>, i: nat)
    requires |f.rx| <= MAX_PACKET && i < |turns|
    ensures var g := PollsFramer(f, BurstsOf(turns[..i]));
            && PollsFramer(f, BurstsOf(turns[..i + 1])) == PollFramer(g, BurstOf(turns[i]))
            && CaughtInTurns(f, turns[..i + 1]) == CaughtInTurns(f, turns[..i]) + CaughtInTurn(g, turns[i])
  {
    hide CaughtInTurn, PollFramer;
    assert turns[..i + 1][..i] == turns[..i];
    BurstsOfLast(turns[..i + 1]);
  }

  // --- Corrupted buffers ---

  /** The buffers whose CRC over the announced bytes holds. */
  function SealedOf(caught: seq<Caught>): seq<Caught> {
    if caught == [] then []
    else
      var c := caught[|caught| - 1];
      SealedOf(caught[..|caught| - 1]) + (if IsSealed(c.data) then [c] else [])
  }

  /** What is not sealed adds nothing to the log, the key or the remembered request, wherever it comes in between. */
  lemma {:induction false} NoiseIsIgnored(m: Monitor, caught: seq<Caught>)
    requires m.Valid()
    ensures SameMind(ObserveAll(m, SealedOf(caught)), ObserveAll(m, caught))
  {
    hide Observe, SameMind, IsSealed;
    if caught == [] {
      NothingYet(m);
    } else {
      var init, c := caught[..|caught| - 1], caught[|caught| - 1];
      NoiseIsIgnored(m, init);
      var a, b := ObserveAll(m, SealedOf(init)), ObserveAll(m, init);
      if IsSealed(c.data) {
        ObserveMore(m, SealedOf(init), c);
        ObserveSame(a, b, c.data, c.at);
      } else {
        assert SealedOf(init) + [] == SealedOf(init);
        UnsealedSame(b, c.data, c.at);
        SameTransitive(a, b, Observe(b, c.data, c.at));
      }
    }
  }

  lemma UnsealedSame(m: Monitor, data: seq<byte>, now: uint32)
    requires m.Valid() && !IsSealed(data)
    ensures SameMind(m, Observe(m, data, now)) && Observe(m, data, now).devices == m.devices
    ensures Observe(m, data, now).totalPackets == m.totalPackets
  {
    hide Observe, Crc8, ToNat;
    if IsCandidate(data) {
      CorruptedIsIgnored(m, data, now);
    } else {
      NoCandidateIsIgnored(m, data, now);
    }
  }

  /** Polls that catch only corrupted buffers leave the object's log as it was. */
  method HearNoise(monitor: OrionBusMonitor, turns: seq<Turn>)
    requires monitor.Valid() && SealedOf(CaughtInTurns(FramerOf(monitor), turns)) == []
    modifies monitor, monitor.devices, monitor.events, monitor.rxBuf
    ensures monitor.Valid() && monitor.log == old(monitor.log)
    ensures monitor.lastRequestAddr == old(monitor.lastRequestAddr) && monitor.globalKey == old(monitor.globalKey)
    ensures monitor.lastRequestCmd == old(monitor.lastRequestCmd)
    ensures monitor.lastRequestTime == old(monitor.lastRequestTime)
  {
    hide SealedOf, CaughtInTurns, OrionBusMonitor.LogKept, ObserveAll;
    ghost var m := monitor.Mon();
    NoiseIsIgnored(m, CaughtInTurns(FramerOf(monitor), turns));
    NothingYet(m);
    PollAll(monitor, turns);
  }

  // --- In real time ---

  function AllClocked(turns: seq<RealTurn>): (c: seq<Turn>)
    ensures |c| == |turns| && forall i :: 0 <= i < |c| ==> c[i] == ClockedTurn(turns[i])
  {
    seq(|turns|, i requires 0 <= i < |turns| => ClockedTurn(turns[i]))
  }

  /** When the last byte was read. */
  function LastByteAt(turns: seq<RealTurn>): Option<nat> {
    if turns == [] then None
    else
      var input := turns[|turns| - 1].input;
      if input == [] then LastByteAt(turns[..|turns| - 1]) else Some(input[|input| - 1].us)
  }

  /** While bytes of a frame are held, each poll begins at most 5 ms after the last byte. */
  predicate Steady(turns: seq<RealTurn>) {
    turns == [] ||
    (Steady(turns[..|turns| - 1]) &&
     match LastByteAt(turns[..|turns| - 1])
     case None => true
     case Some(t) =>
       Held([], ValuesOf(ArrivalsOf(AllClocked(turns[..|turns| - 1])))) != [] ==>
         t <= turns[|turns| - 1].us <= t + 5000)
  }

  lemma AllClockedLast(turns: seq<RealTurn>)
    requires turns != []
    ensures var k := |turns| - 1;
            AllClocked(turns) == AllClocked(turns[..k]) + [ClockedTurn(turns[k])] &&
            AllClocked(turns)[..k] == AllClocked(turns[..k])
  {}

  /** The framer remembers the clock reading of the last byte. */
  lemma {:induction false} RemembersLast(f: Framer, turns: seq<RealTurn>)
    requires |f.rx| <= MAX_PACKET
    ensures LastByteAt(turns).Some? ==>
              PollsFramer(f, BurstsOf(AllClocked(turns))).lastRx == Ticks(LastByteAt(turns).value)
    ensures LastByteAt(turns).None? ==> ArrivalsOf(AllClocked(turns)) == []
  {
    hide Held, Expired;
    if turns == [] {
    } else {
      var k := |turns| - 1;
      RemembersLast(f, turns[..k]);
      AllClockedLast(turns);
      BurstsOfLast(AllClocked(turns));
    }
  }

  /** A stream that is steady in real time has no gap on the 32-bit clock. */
  lemma {:induction false} SteadyHasNoGap(f: Framer, turns: seq<RealTurn>)
    requires f.rx == [] && Steady(turns)
    ensures NoGap(f, BurstsOf(AllClocked(turns)))
  {
    hide Held, Handed, Expired, PollsHanded, PollFramer;
    if turns == [] {
    } else {
      var k := |turns| - 1;
      var init := AllClocked(turns[..k]);
      SteadyHasNoGap(f, turns[..k]);
      RemembersLast(f, turns[..k]);
      AllClockedLast(turns);
      BurstsOfLast(AllClocked(turns));
      PollsAreOneStream(f, BurstsOf(init));
      BytesArrived(init);
      HeldNothing([]);
      var g := PollsFramer(f, BurstsOf(init));
      if g.rx == [] {
        NothingHeldNoSilence(g, Ticks(turns[k].us));
      } else {
        assert ValuesOf([]) == [];
        SilenceIsRealTime(g, LastByteAt(turns[..k]).value, turns[k].us);
      }
    }
  }

  lemma NothingHeldNoSilence(f: Framer, now: uint32)
    requires f.rx == []
    ensures !Expired(f, now)
  {}

  // --- The two listeners on the same bytes ---

  /** On values: what the polls catch of a steady stream that begins between frames. */
  lemma StreamCaught(f: Framer, turns: seq<RealTurn>)
    requires f.rx == [] && Steady(turns)
    ensures var seen := AllClocked(turns);
            var handed, bytes := DataOf(CaughtInTurns(f, seen)), ValuesOf(ArrivalsOf(seen));
            && (handed == Segments(bytes) <==> GoodStream(bytes))
            && (GoodStream(bytes) ==> PollsFramer(f, BurstsOf(seen)).rx == Rest(bytes))
  {
    hide Segments, Rest, GoodStream, NoGap, PollsHanded, Held, Handed, CaughtInTurns, PollsFramer, Steady;
    var seen := AllClocked(turns);
    SteadyHasNoGap(f, turns);
    BytesArrived(seen);
    PollsAreOneStream(f, BurstsOf(seen));
    CaughtIsHandedOver(f, seen);
    var bytes := ValuesOf(ArrivalsOf(seen));
    FramersAgreeIff(bytes);
    if GoodStream(bytes) {
      FramersAgree(bytes);
    }
  }

  ghost function MonitorParts(monitor: OrionBusMonitor): set<object> {
    {monitor, monitor.devices, monitor.events, monitor.rxBuf}
  }

  ghost function SnifferParts(sniffer: Machine): set<object> {
    {sniffer, sniffer.ringBuf, sniffer.packet, sniffer.packet.payload}
  }

  /**
   * Monitor and sniffer, both between frames, on one stream that is steady in real time, split over the monitor's
   * polls in any way: the monitor catches the segments of the stream exactly when no header is bad, and the sniffer
   * then reports exactly the intact ones among what the monitor caught.
   */
  method HearTogether(monitor: OrionBusMonitor, sniffer: Machine, turns: seq<Turn>, ghost truth: seq<RealTurn>)
    requires monitor.Valid() && monitor.rxPos == 0 && sniffer.Valid() && sniffer.Pending() == []
    requires turns == AllClocked(truth) && Steady(truth)
    requires MonitorParts(monitor) !! SnifferParts(sniffer)
    modifies MonitorParts(monitor), SnifferParts(sniffer)
    ensures monitor.Valid() && sniffer.Valid()
    ensures monitor.caught == old(monitor.caught) + CaughtInTurns(old(FramerOf(monitor)), turns)
    ensures var handed := DataOf(CaughtInTurns(old(FramerOf(monitor)), turns));
            var bytes := ValuesOf(ArrivalsOf(turns));
            && (handed == Segments(bytes) <==> GoodStream(bytes))
            && (GoodStream(bytes) ==>
                  && sniffer.seen == old(sniffer.seen) + Delivered(handed)
                  && monitor.rxBuf[..monitor.rxPos] == sniffer.Pending())
  {
    hide Segments, Rest, Delivered, GoodStream, Steady, PollsFramer, CaughtInTurns, ObserveAll, AllClocked,
         ValuesOf, ArrivalsOf, DataOf, OrionBusMonitor.Valid, Machine.Valid, Machine.Pending, SameMind;
    ghost var bytes := ValuesOf(ArrivalsOf(turns));
    StreamCaught(FramerOf(monitor), truth);
    PollAll(monitor, turns);
    var input := BytesRead(turns);
    assert [] + bytes == bytes;
    sniffer.Run(input);
  }

  /** The bytes the polls read. */
  method BytesRead(turns: seq<Turn>) returns (bytes: seq<byte>)
    ensures bytes == ValuesOf(ArrivalsOf(turns))
  {
    bytes := [];
    assert ValuesOf(ArrivalsOf(turns[..0])) == [];
    for i := 0 to |turns|
      invariant bytes == ValuesOf(ArrivalsOf(turns[..i]))
    {
      assert turns[..i + 1][..i] == turns[..i];
      ValuesOfConcat(ArrivalsOf(turns[..i]), turns[i].input);
      bytes := bytes + ValuesOf(turns[i].input);
    }
    assert turns[..|turns|] == turns;
  }
}
