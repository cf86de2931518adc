/** The bus run carried on bytes: what the monitor object logs of it, poll by poll. */
module Wire {
  import opened Bytes
  import opened Crc
  import opened Frames
  import opened Devices
  import opened Framing
  import opened Listening
  import opened Decoding
  import opened BusMonitor
  import opened Bus
  import opened Overhearing

  /** The frames one step puts on the wire, each at the time of its last byte: a request, and its answer if any. */
  function StepCaught(w: World, op: BusOp): seq<Caught>
    requires Sane(w) && (op.Ask? ==> |op.payload| <= MAX_PAYLOAD)
  {
    if op.Raise? then []
    else
      var o := Answering(w, op.raw, op.payload, op.verdict);
      var reply := if o.Some? then ReplyBytes(o.value.dev, o.value.reply) else [];
      [Caught(Frame(op.raw, op.payload), Ticks(op.asked))] +
      (if reply == [] then [] else [Caught(reply, Ticks(op.answered))])
  }

  /** The frames a whole run puts on the wire. */
  function RunCaught(w: World, ops: seq<BusOp>): seq<Caught>
    requires Sane(w) && OrderlyRun(w, ops)
    decreases |ops|
  {
    if ops == [] then []
    else BusStepSane(w, ops[0]); StepCaught(w, ops[0]) + RunCaught(BusStep(w, ops[0]), ops[1..])
  }

  lemma StepIsDecoding(w: World, op: BusOp)
    requires Sane(w) && (op.Ask? ==> |op.payload| <= MAX_PAYLOAD)
    ensures BusStep(w, op).mon == ObserveAll(w.mon, StepCaught(w, op))
  {
    hide Observe, Frame, ReplyBytes, Hear;
    if op.Ask? {
      var first := Caught(Frame(op.raw, op.payload), Ticks(op.asked));
      ObserveOne(w.mon, first);
      var o := Answering(w, op.raw, op.payload, op.verdict);
      if o.Some? && ReplyBytes(o.value.dev, o.value.reply) != [] {
        ObserveMore(w.mon, [first], Caught(ReplyBytes(o.value.dev, o.value.reply), Ticks(op.answered)));
      } else {
        assert [first] + [] == [first];
      }
    }
  }

  /** The monitor of the run is one that decodes exactly the frames on the wire. */
  lemma {:induction false} RunIsDecoding(w: World, ops: seq<BusOp>)
    requires Sane(w) && OrderlyRun(w, ops)
    ensures w.mon.Valid() && BusRun(w, ops).mon == ObserveAll(w.mon, RunCaught(w, ops))
    decreases |ops|
  {
    SaneMonitor(w);
    if ops == [] {
    } else {
      hide BusStep, StepCaught, Sane, Orderly, ObserveAll;
      BusStepSane(w, ops[0]);
      OrderlyFits(w, ops[0]);
      StepIsDecoding(w, ops[0]);
      RunIsDecoding(BusStep(w, ops[0]), ops[1..]);
      ObserveParts(w.mon, StepCaught(w, ops[0]), RunCaught(BusStep(w, ops[0]), ops[1..]));
    }
  }

  predicate AllWellFormed(caught: seq<Caught>) {
    forall i :: 0 <= i < |caught| ==> WellFormed(caught[i].data)
  }

  lemma StepWellFormed(w: World, op: BusOp)
    requires Sane(w) && (op.Ask? ==> |op.payload| <= MAX_PAYLOAD)
    ensures AllWellFormed(StepCaught(w, op))
  {
    hide Frame, ReplyBytes, Hear, WellFormed, Answering, Sane;
    if op.Ask? {
      FrameShape(op.raw, op.payload);
      var o := Answering(w, op.raw, op.payload, op.verdict);
      if o.Some? {
        AnswerShort(w, op.raw, op.payload, op.verdict);
        ReplyIsFrame(o.value);
      }
    }
  }

  lemma AnswerShort(w: World, raw: byte, payload: seq<byte>, verdict: bool)
    requires Sane(w) && Answering(w, raw, payload, verdict).Some?
    ensures var o := Answering(w, raw, payload, verdict).value;
            o.reply.Clear? || o.reply.Enciphered? ==> 1 <= |o.reply.text| <= 7
  {
    hide Hear, ToNat, BusAddress;
  }

  lemma {:induction false} RunWellFormed(w: World, ops: seq<BusOp>)
    requires Sane(w) && OrderlyRun(w, ops)
    ensures AllWellFormed(RunCaught(w, ops))
    decreases |ops|
  {
    if ops == [] {
    } else {
      hide BusStep, StepCaught, Sane, Orderly, WellFormed;
      BusStepSane(w, ops[0]);
      OrderlyFits(w, ops[0]);
      StepWellFormed(w, ops[0]);
      RunWellFormed(BusStep(w, ops[0]), ops[1..]);
    }
  }

  // --- The stream of bytes ---

  /** The bytes read are those of the frames, one after another, the last byte of each read at its time. */
  predicate Carries(stream: seq<Arrival>, caught: seq<Caught>)
    decreases |caught|
  {
    if caught == [] then stream == []
    else
      var n := |caught[0].data|;
      && 0 < n <= |stream| && ValuesOf(stream[..n]) == caught[0].data && stream[n - 1].ms == caught[0].at
      && Carries(stream[n..], caught[1..])
  }

  lemma {:induction false} CaughtByConcat(buf: seq<byte>, a: seq<Arrival>, b: seq<Arrival>)
    requires |buf| <= MAX_PACKET
    ensures CaughtBy(buf, a + b) == CaughtBy(buf, a) + CaughtBy(Held(buf, ValuesOf(a)), b)
    decreases |b|
  {
    hide Held, CaughtByByte, CaughtBy;
    var h := Held(buf, ValuesOf(a));
    if b == [] {
      NothingMore(h);
      assert a + b == a && CaughtBy(buf, a) + [] == CaughtBy(buf, a);
    } else {
      var k := |b| - 1;
      CaughtByConcat(buf, a, b[..k]);
      CaughtByLast(buf, a + b[..k], b[k]);
      CaughtByLast(h, b[..k], b[k]);
      assert a + b == (a + b[..k]) + [b[k]] && b == b[..k] + [b[k]];
      ValuesOfConcat(a, b[..k]);
      HeldConcat(buf, ValuesOf(a), ValuesOf(b[..k]));
      PlusAssociative(CaughtBy(buf, a), CaughtBy(h, b[..k]), CaughtByByte(Held(h, ValuesOf(b[..k])), b[k]));
    }
  }

  lemma NothingMore(buf: seq<byte>)
    requires |buf| <= MAX_PACKET
    ensures CaughtBy(buf, []) == []
  {}

  lemma CaughtByLast(buf: seq<byte>, input: seq<Arrival>, a: Arrival)
    requires |buf| <= MAX_PACKET
    ensures CaughtBy(buf, input + [a]) == CaughtBy(buf, input) + CaughtByByte(Held(buf, ValuesOf(input)), a)
  {
    hide Held, CaughtByByte;
    assert (input + [a])[..|input|] == input;
  }

  lemma WholeFrame(f: seq<byte>)
    requires WellFormed(f)
    ensures Handed([], f) == [f] && Held([], f) == []
  {
    hide WellFormed, Segments, Rest, Handed, Held;
    ConcatOfFirst(f, []);
    assert [f] + [] == [f] && f + Concat([]) == f;
    SegmentsOfConcat([f]);
    FramersAgreeIff(f);
    FrameIsGood(f);
    FramersAgree(f);
  }

  lemma FrameIsGood(f: seq<byte>)
    requires WellFormed(f) && Segments(f) == [f]
    ensures GoodStream(f)
  {
    hide ToNat;
  }

  /** The bytes of one whole frame are caught once, at the time of the last. */
  lemma {:induction false} OneFrameCaught(input: seq<Arrival>)
    requires WellFormed(ValuesOf(input))
    ensures input != [] && Held([], ValuesOf(input)) == []
    ensures CaughtBy([], input) == [Caught(ValuesOf(input), input[|input| - 1].ms)]
  {
    hide WellFormed, Handed, Held, Complete, Extend;
    var f := ValuesOf(input);
    WholeFrame(f);
    FrameNotEmpty(f);
    var k := |input| - 1;
    CaughtIsHanded([], input);
    ValuesOfLast(input);
    HeldLast([], ValuesOf(input[..k]), input[k].value);
    var early, late := CaughtBy([], input[..k]), CaughtByByte(Held([], ValuesOf(input[..k])), input[k]);
    assert CaughtBy([], input) == early + late;
    assert |early + late| == |DataOf(early + late)| == 1;
    assert |late| == 1;
    assert DataOf(early + late)[0] == late[0].data;
  }

  lemma FrameNotEmpty(f: seq<byte>)
    requires WellFormed(f)
    ensures |f| >= 3
  {}

  /** A stream that carries well-formed frames is caught as just those frames, each at its time. */
  lemma {:induction false} CarriedIsCaught(stream: seq<Arrival>, caught: seq<Caught>)
    requires Carries(stream, caught) && AllWellFormed(caught)
    ensures CaughtBy([], stream) == caught && Held([], ValuesOf(stream)) == []
    decreases |caught|
  {
    hide WellFormed, CaughtBy, Held;
    if caught == [] {
      NothingCaught();
    } else {
      var n := |caught[0].data|;
      var first, rest := stream[..n], stream[n..];
      OneFrameCaught(first);
      CarriedIsCaught(rest, caught[1..]);
      CaughtByConcat([], first, rest);
      ValuesOfConcat(first, rest);
      HeldConcat([], ValuesOf(first), ValuesOf(rest));
      TakeDrop(stream, n);
      assert caught == [caught[0]] + caught[1..];
    }
  }

  lemma NothingCaught()
    ensures CaughtBy([], []) == [] && Held([], ValuesOf([])) == []
  {
    assert ValuesOf([]) == [];
  }

  /** However a stream without gaps is split over polls, it is caught as one stream. */
  lemma {:induction false} TurnsAreOneStream(f: Framer, turns: seq<Turn>)
    requires |f.rx| <= MAX_PACKET && NoGap(f, BurstsOf(turns))
    ensures CaughtInTurns(f, turns) == CaughtBy(f.rx, ArrivalsOf(turns))
  {
    if turns == [] {
    } else {
      hide CaughtInTurn, CaughtBy, Held, Handed, Expired, PollFramer, PollHanded;
      var k := |turns| - 1;
      BurstsOfLast(turns);
      var g := PollsFramer(f, BurstsOf(turns[..k]));
      TurnsAreOneStream(f, turns[..k]);
      PollsAreOneStream(f, BurstsOf(turns[..k]));
      BytesArrived(turns[..k]);
      TurnInTime(g, turns[k]);
      CaughtByConcat(f.rx, ArrivalsOf(turns[..k]), turns[k].input);
    }
  }

  lemma TurnInTime(f: Framer, t: Turn)
    requires |f.rx| <= MAX_PACKET && !Expired(f, t.us)
    ensures CaughtInTurn(f, t) == CaughtBy(f.rx, t.input)
  {
    hide CaughtBy;
    assert [] + CaughtBy(f.rx, t.input) == CaughtBy(f.rx, t.input);
  }

  // --- The run, heard by the object ---

  /**
   * The polls read, steadily in real time, the frames of a run among any number of corrupted ones: `carried` is
   * all the frames on the wire, of which those with a good checksum are the run's.
   */
  predicate ReadsRun(turns: seq<RealTurn>, carried: seq<Caught>, w: World, ops: seq<BusOp>)
    requires Sane(w) && OrderlyRun(w, ops)
  {
    && Steady(turns) && Carries(ArrivalsOf(AllClocked(turns)), carried) && AllWellFormed(carried)
    && SealedOf(carried) == RunCaught(w, ops)
  }

  /** Without noise, the frames of the run themselves are what is carried. */
  lemma {:induction false} RunIsSealed(w: World, ops: seq<BusOp>)
    requires Sane(w) && OrderlyRun(w, ops)
    ensures AllWellFormed(RunCaught(w, ops)) && SealedOf(RunCaught(w, ops)) == RunCaught(w, ops)
    decreases |ops|
  {
    RunWellFormed(w, ops);
    if ops == [] {
    } else {
      hide BusStep, StepCaught, Sane, Orderly, WellFormed, IsSealed, AllWellFormed;
      BusStepSane(w, ops[0]);
      OrderlyFits(w, ops[0]);
      StepSealed(w, ops[0]);
      RunIsSealed(BusStep(w, ops[0]), ops[1..]);
      SealedOfConcat(StepCaught(w, ops[0]), RunCaught(BusStep(w, ops[0]), ops[1..]));
    }
  }

  lemma {:induction false} SealedOfConcat(a: seq<Caught>, b: seq<Caught>)
    ensures SealedOf(a + b) == SealedOf(a) + SealedOf(b)
    decreases |b|
  {
    hide IsSealed;
    if b == [] {
      assert a + b == a;
    } else {
      var k := |b| - 1;
      SealedOfConcat(a, b[..k]);
      assert (a + b)[..|a + b| - 1] == a + b[..k];
      PlusAssociative(SealedOf(a), SealedOf(b[..k]), if IsSealed(b[k].data) then [b[k]] else []);
    }
  }

  lemma {:induction false} StepSealed(w: World, op: BusOp)
    requires Sane(w) && Orderly(w, op)
    ensures SealedOf(StepCaught(w, op)) == StepCaught(w, op)
  {
    hide Frame, ReplyBytes, Hear, IsSealed, Answering, Sane;
    SealedNone();
    if op.Ask? {
      var request := Caught(Frame(op.raw, op.payload), Ticks(op.asked));
      CandidateAddress(op.raw);
      FrameSealed(op.raw, op.payload);
      SealedSingle(request);
      var o := Answering(w, op.raw, op.payload, op.verdict);
      if o.Some? {
        AnswerShort(w, op.raw, op.payload, op.verdict);
        ReplySealed(w, op.raw, op.payload, op.verdict);
        if ReplyBytes(o.value.dev, o.value.reply) != [] {
          var answer := Caught(ReplyBytes(o.value.dev, o.value.reply), Ticks(op.answered));
          SealedSingle(answer);
          SealedOfConcat([request], [answer]);
        }
      }
      assert [request] + [] == [request];
    }
  }

  lemma SealedNone()
    ensures SealedOf([]) == []
  {}

  lemma {:induction false} SealedSingle(c: Caught)
    requires IsSealed(c.data)
    ensures SealedOf([c]) == [c]
  {
    hide IsSealed;
    assert [c][..0] == [];
  }

  /** Every frame at a device address is sealed. */
  lemma FrameSealed(raw: byte, payload: seq<byte>)
    requires |payload| <= MAX_PAYLOAD && raw != 0 && raw != 0x80
    ensures IsSealed(Frame(raw, payload))
  {
    hide ToNat, Frame;
    var f := Frame(raw, payload);
    FrameShape(raw, payload);
    SealedByLast(f);
  }

  lemma SealedByLast(f: seq<byte>)
    requires WellFormed(f) && f[0] != 0 && f[0] != 0x80
    ensures IsSealed(f) <==> Parse(f).Some?
  {
    hide ToNat, Crc8, Parse;
    AcceptedIffZero(f);
    assert f[..|f|] == f;
  }

  lemma ReplySealed(w: World, raw: byte, payload: seq<byte>, verdict: bool)
    requires Sane(w) && Answering(w, raw, payload, verdict).Some?
    requires var o := Answering(w, raw, payload, verdict).value;
             o.reply.Clear? || o.reply.Enciphered? ==> 1 <= |o.reply.text| <= 7
    ensures var o := Answering(w, raw, payload, verdict).value;
            ReplyBytes(o.dev, o.reply) == [] || IsSealed(ReplyBytes(o.dev, o.reply))
  {
    hide Hear, ToNat, BusAddress, IsSealed, Frame, Encipher, Sane;
    var o := Answering(w, raw, payload, verdict).value;
    AnsweringValid(w, raw, payload, verdict);
    OffsetAddress(o.dev.address);
    match o.reply
    case Silence =>
    case Clear(text) => FrameSealed(o.dev.address, text);
    case Enciphered(text) =>
      FrameSealed(o.dev.address + ENCRYPT_OFFSET, Encipher(o.dev.globalKey, o.dev.messageKey, text, REPLY_PAD));
  }

  lemma AnsweringValid(w: World, raw: byte, payload: seq<byte>, verdict: bool)
    requires Sane(w) && Answering(w, raw, payload, verdict).Some?
    ensures 1 <= Answering(w, raw, payload, verdict).value.dev.address <= MAX_ADDRESS
    ensures Answering(w, raw, payload, verdict).value.dev.address + ENCRYPT_OFFSET != 0x80
  {
    hide Hear, ToNat, BusAddress;
  }

  lemma {:induction false} RunHeard(f: Framer, turns: seq<RealTurn>, carried: seq<Caught>, w: World, ops: seq<BusOp>,
                                    m: Monitor)
    requires f.rx == [] && Sane(w) && OrderlyRun(w, ops) && ReadsRun(turns, carried, w, ops)
    requires m.Valid() && SameMind(w.mon, m)
    ensures PollsFramer(f, BurstsOf(AllClocked(turns))).rx == []
    ensures ObserveAll(m, CaughtInTurns(f, AllClocked(turns))).log == m.log + OwedByRun(w, ops)
  {
    hide NoGap, Carries, RunCaught, PollsFramer, CaughtInTurns, ObserveAll, OwedByRun, BusRun, Sane, OrderlyRun,
         CaughtBy, Held, Handed, PollsHanded, AllWellFormed, SealedOf, Steady;
    var seen := AllClocked(turns);
    SteadyHasNoGap(f, turns);
    TurnsAreOneStream(f, seen);
    PollsAreOneStream(f, BurstsOf(seen));
    BytesArrived(seen);
    CarriedIsCaught(ArrivalsOf(seen), carried);
    NoiseIsIgnored(m, carried);
    RunIsDecoding(w, ops);
    ObserveAllSame(w.mon, m, RunCaught(w, ops));
    ListenerAgrees(w, ops);
  }

  /**
   * The monitor object reads the bytes of an orderly run, with corrupted frames in between, split over its polls in
   * any way, and is then asked for an event: it holds the last 64 of what it had logged and what the devices have
   * handed out since.
   */
  method HearRun(monitor: OrionBusMonitor, turns: seq<Turn>, index: nat, ghost truth: seq<RealTurn>,
                 ghost carried: seq<Caught>, ghost w: World, ghost ops: seq<BusOp>)
    returns (e: Option<BusEvent>)
    requires monitor.Valid() && monitor.rxPos == 0 && Sane(w) && OrderlyRun(w, ops)
    requires SameMind(w.mon, monitor.Mon())
    requires turns == AllClocked(truth) && ReadsRun(truth, carried, w, ops)
    modifies monitor, monitor.devices, monitor.events, monitor.rxBuf
    ensures monitor.Valid() && monitor.rxPos == 0
    ensures monitor.log == old(monitor.log) + OwedByRun(w, ops)
    ensures var all := old(monitor.log) + OwedByRun(w, ops);
            var held := if |all| < LOG_SIZE then |all| else LOG_SIZE;
            e == if index < held then Some(all[|all| - held + index]) else None
  {
    hide ReadsRun, OwedByRun, Sane, OrderlyRun, PollsFramer, CaughtInTurns, ObserveAll, OrionBusMonitor.LogKept;
    RunHeard(FramerOf(monitor), truth, carried, w, ops, monitor.Mon());
    PollAll(monitor, turns);
    e := monitor.GetEvent(index);
  }
}
