/** The passive bus monitor on values: length-and-silence framing, and decoding of what passes. */
module Listening {
  import opened Bytes
  import opened Frames
  import opened Framing

  // --- Framing ---

  /** The buffer with one more byte; a full buffer starts over. */
  function Extend(buf: seq<byte>, b: byte): (r: seq<byte>)
    requires |buf| <= MAX_PACKET
    ensures 1 <= |r| <= MAX_PACKET
  {
    (if |buf| >= MAX_PACKET then [] else buf) + [b]
  }

  /** The announced size, in the 8-bit variable that holds it. */
  function ExpectedTotal(lengthByte: byte): nat {
    (2 + ToNat(lengthByte)) % 256
  }

  /** The buffer has just reached the announced size. */
  predicate Complete(buf: seq<byte>) {
    |buf| >= 2 && |buf| == ExpectedTotal(buf[1]) && ExpectedTotal(buf[1]) >= 3
  }

  /** The buffer after more bytes. */
  function Held(buf: seq<byte>, input: seq<byte>): (r: seq<byte>)
    requires |buf| <= MAX_PACKET
    ensures |r| <= MAX_PACKET
  {
    if input == [] then buf
    else
      var r := Extend(Held(buf, input[..|input| - 1]), input[|input| - 1]);
      if Complete(r) then [] else r
  }

  /** The buffers handed to packet processing on the way. */
  function Handed(buf: seq<byte>, input: seq<byte>): seq<seq<byte>>
    requires |buf| <= MAX_PACKET
  {
    if input == [] then []
    else
      var r := Extend(Held(buf, input[..|input| - 1]), input[|input| - 1]);
      Handed(buf, input[..|input| - 1]) + (if Complete(r) then [r] else [])
  }

  /** No segment of the stream is a bad header. */
  predicate GoodStream(s: seq<byte>) {
    forall seg :: seg in Segments(s) ==> |seg| >= 2 && GoodLength(seg[1])
  }

  lemma StepAgrees(rest: seq<byte>, b: byte)
    requires Cut(rest) == None
    requires |rest| == 1 ==> GoodLength(b)
    ensures |rest| < MAX_PACKET && Extend(rest, b) == rest + [b]
    ensures Complete(rest + [b]) <==> Cut(rest + [b]).Some?
  {
    hide ToNat;
    CutOneMoreByte(rest, b);
  }

  /** On a good stream the hybrid framer hands over exactly the segments, despite the 8-bit size. */
  lemma {:induction false} FramersAgree(s: seq<byte>)
    requires GoodStream(s)
    ensures Handed([], s) == Segments(s) && Held([], s) == Rest(s)
  {
    hide Cut, GoodLength, Complete, Extend;
    if s == [] {
      CutOfNothing();
    } else {
      var k := |s| - 1;
      var init, b := s[..k], s[k];
      assert s == init + [b];
      SplitAnywhere(init, [b]);
      FramersAgree(init);
      var rest := Rest(init);
      AllBytesAccounted(init);
      OneMoreByte(rest, b);
      LastIsGood(rest, b);
      StepAgrees(rest, b);
    }
  }

  lemma LastIsGood(rest: seq<byte>, b: byte)
    requires Cut(rest) == None
    requires forall seg :: seg in Segments(rest + [b]) ==> |seg| >= 2 && GoodLength(seg[1])
    ensures |rest| == 1 ==> GoodLength(b)
  {
    hide GoodLength;
    OneMoreByte(rest, b);
    if |rest| == 1 {
      assert Cut(rest + [b]).Some? ==> rest + [b] in Segments(rest + [b]);
    }
  }

  lemma {:induction false} HandedSizes(s: seq<byte>)
    ensures forall h :: h in Handed([], s) ==> |h| >= 3
  {
    if s == [] {
    } else {
      hide Held, ExpectedTotal;
      HandedSizes(s[..|s| - 1]);
    }
  }

  lemma {:induction false} SegmentSizes(s: seq<byte>)
    ensures forall seg :: seg in Segments(s) ==> |seg| >= 2 && (!GoodLength(seg[1]) ==> |seg| == 2)
  {
    hide GoodLength, ToNat;
    if Cut(s).Some? {
      SegmentSizes(s[Cut(s).value..]);
    }
  }

  /** The hybrid framer hands over the segments of a stream exactly when none of them is a bad header. */
  lemma FramersAgreeIff(s: seq<byte>)
    ensures Handed([], s) == Segments(s) <==> GoodStream(s)
  {
    hide Handed, Segments, GoodLength;
    if GoodStream(s) {
      FramersAgree(s);
    } else {
      HandedSizes(s);
      SegmentSizes(s);
      var seg :| seg in Segments(s) && (|seg| < 2 || !GoodLength(seg[1]));
      assert |seg| == 2;
    }
  }

  /** One `poll`: the microsecond clock at its start and the bytes it reads. */
  datatype Burst = Burst(now: uint32, input: seq<byte>, last: uint32)

  const INTER_BYTE_TIMEOUT_US := 5000

  /** The framer between polls. */
  datatype Framer = Framer(rx: seq<byte>, lastRx: uint32)

  predicate Expired(f: Framer, now: uint32) {
    f.rx != [] && Elapsed(now, f.lastRx) > INTER_BYTE_TIMEOUT_US
  }

  /** A clock reading at most 5 ms after the last byte finds no silence, one more than 5 ms after does. */
  lemma SilenceIsRealTime(f: Framer, last: nat, at: nat)
    requires f.lastRx == Ticks(last) && last <= at
    ensures at <= last + 5000 ==> !Expired(f, Ticks(at))
    ensures f.rx != [] && last + 5000 < at < last + TWO_TO_THE_32 ==> Expired(f, Ticks(at))
  {
    ElapsedIsRealTime(at, last);
    if at < last + TWO_TO_THE_32 {
      assert (at - last) % TWO_TO_THE_32 == at - last;
    }
  }

  /** After silence whatever is held is handed over, if it is at least three bytes, and dropped. */
  function PollFramer(f: Framer, p: Burst): Framer
    requires |f.rx| <= MAX_PACKET
  {
    Framer(Held(if Expired(f, p.now) then [] else f.rx, p.input), if p.input == [] then f.lastRx else p.last)
  }

  function PollHanded(f: Framer, p: Burst): seq<seq<byte>>
    requires |f.rx| <= MAX_PACKET
  {
    (if Expired(f, p.now) && |f.rx| >= 3 then [f.rx] else []) +
    Handed(if Expired(f, p.now) then [] else f.rx, p.input)
  }

  function PollsFramer(f: Framer, polls: seq<Burst>): (f': Framer)
    requires |f.rx| <= MAX_PACKET
    ensures |f'.rx| <= MAX_PACKET
  {
    if polls == [] then f else PollFramer(PollsFramer(f, polls[..|polls| - 1]), polls[|polls| - 1])
  }

  function PollsHanded(f: Framer, polls: seq<Burst>): seq<seq<byte>>
    requires |f.rx| <= MAX_PACKET
  {
    if polls == [] then []
    else PollsHanded(f, polls[..|polls| - 1]) + PollHanded(PollsFramer(f, polls[..|polls| - 1]), polls[|polls| - 1])
  }

  function BytesOf(polls: seq<Burst>): seq<byte> {
    if polls == [] then [] else BytesOf(polls[..|polls| - 1]) + polls[|polls| - 1].input
  }

  /** No poll finds a gap over 5 ms inside a frame. */
  predicate NoGap(f: Framer, polls: seq<Burst>)
    requires |f.rx| <= MAX_PACKET
  {
    polls == [] ||
    (NoGap(f, polls[..|polls| - 1]) && !Expired(PollsFramer(f, polls[..|polls| - 1]), polls[|polls| - 1].now))
  }

  lemma {:induction false} HeldConcat(buf: seq<byte>, a: seq<byte>, b: seq<byte>)
    requires |buf| <= MAX_PACKET
    ensures Held(buf, a + b) == Held(Held(buf, a), b)
    ensures Handed(buf, a + b) == Handed(buf, a) + Handed(Held(buf, a), b)
  {
    hide Complete, Extend, Held, Handed;
    if b == [] {
      assert a + b == a;
      HeldNothing(Held(buf, a));
      assert Handed(buf, a) + [] == Handed(buf, a);
    } else {
      var k := |b| - 1;
      HeldConcat(buf, a, b[..k]);
      assert a + b == (a + b[..k]) + [b[k]] && b == b[..k] + [b[k]];
      HeldLast(buf, a + b[..k], b[k]);
      HeldLast(Held(buf, a), b[..k], b[k]);
      var r := Extend(Held(buf, a + b[..k]), b[k]);
      PlusAssociative(Handed(buf, a), Handed(Held(buf, a), b[..k]), if Complete(r) then [r] else []);
    }
  }

  /** However a gapless stream is split over polls, the framer sees one stream. */
  lemma {:induction false} PollsAreOneStream(f: Framer, polls: seq<Burst>)
    requires |f.rx| <= MAX_PACKET && NoGap(f, polls)
    ensures PollsHanded(f, polls) == Handed(f.rx, BytesOf(polls))
    ensures PollsFramer(f, polls).rx == Held(f.rx, BytesOf(polls))
  {
    if polls == [] {
    } else {
      hide Handed, Held, Expired, PollFramer, PollHanded;
      var k := |polls| - 1;
      PollsAreOneStream(f, polls[..k]);
      PollInTime(PollsFramer(f, polls[..k]), polls[k]);
      HeldConcat(f.rx, BytesOf(polls[..k]), polls[k].input);
    }
  }

  lemma PollInTime(f: Framer, p: Burst)
    requires |f.rx| <= MAX_PACKET && !Expired(f, p.now)
    ensures PollHanded(f, p) == Handed(f.rx, p.input) && PollFramer(f, p).rx == Held(f.rx, p.input)
  {
    hide Handed, Held;
  }

  /**
   * A poll in real time. At most 5 ms after the last byte it carries on with what is held; more than 5 ms after it
   * first hands over what is held, if it is at least three bytes, and starts afresh.
   */
  lemma PollInRealTime(f: Framer, last: nat, at: nat, input: seq<byte>, now: uint32)
    requires |f.rx| <= MAX_PACKET && f.lastRx == Ticks(last) && last <= at
    ensures at <= last + 5000 ==>
              && PollHanded(f, Burst(Ticks(at), input, now)) == Handed(f.rx, input)
              && PollFramer(f, Burst(Ticks(at), input, now)).rx == Held(f.rx, input)
    ensures f.rx != [] && last + 5000 < at < last + TWO_TO_THE_32 ==>
              && PollHanded(f, Burst(Ticks(at), input, now)) == (if |f.rx| >= 3 then [f.rx] else []) + Handed([], input)
              && PollFramer(f, Burst(Ticks(at), input, now)).rx == Held([], input)
  {
    hide Handed, Held, Expired;
    SilenceIsRealTime(f, last, at);
    assert [] + Handed(f.rx, input) == Handed(f.rx, input);
  }

  /** A buffer that opened with a bad header never completes. */
  lemma {:induction false} DeafAfterBadHeader(header: seq<byte>, t: seq<byte>)
    requires |header| == 2 && !GoodLength(header[1]) && |t| <= MAX_PACKET - 2
    ensures Held([], header + t) == header + t && Handed([], header + t) == []
  {
    hide ToNat, Held, Handed, Complete, GoodLength;
    var s := header + t;
    if t == [] {
      assert s == header;
      HeaderHeld(header);
    } else {
      var k := |t| - 1;
      var init := header + t[..k];
      DeafAfterBadHeader(header, t[..k]);
      HeldLast([], init, t[k]);
      assert init + [t[k]] == s;
      NeverComplete(s);
      assert Extend(init, t[k]) == s;
    }
  }

  lemma NeverComplete(s: seq<byte>)
    requires |s| >= 2 && !GoodLength(s[1])
    ensures !Complete(s)
  {
    hide ToNat;
  }

  lemma HeaderHeld(header: seq<byte>)
    requires |header| == 2 && !GoodLength(header[1])
    ensures Held([], header) == header && Handed([], header) == []
  {
    hide Complete, Held, Handed, GoodLength;
    NeverComplete(header);
    TooShortToComplete(header[0]);
    HeldNothing([]);
    HeldLast([], [], header[0]);
    HeldLast([], [header[0]], header[1]);
    assert [] + [header[0]] == [header[0]] && [header[0]] + [header[1]] == header;
  }

  lemma HeldNothing(buf: seq<byte>)
    requires |buf| <= MAX_PACKET
    ensures Held(buf, []) == buf && Handed(buf, []) == []
  {}

  lemma HeldLast(buf: seq<byte>, input: seq<byte>, b: byte)
    requires |buf| <= MAX_PACKET
    ensures var r := Extend(Held(buf, input), b);
            Held(buf, input + [b]) == (if Complete(r) then [] else r) &&
            Handed(buf, input + [b]) == Handed(buf, input) + (if Complete(r) then [r] else [])
  {
    hide Complete;
    assert (input + [b])[..|input|] == input;
  }

  lemma TooShortToComplete(b: byte)
    ensures !Complete([b])
  {}

  /**
   * What disagreement costs: after any bad header the sniffer delivers the very next intact frame, and the
   * monitor, waiting for a size it can never reach, hands over nothing.
   */
  lemma BadHeaderSeparatesFramers(header: seq<byte>, frame: seq<byte>)
    requires |header| == 2 && !GoodLength(header[1]) && Intact(frame)
    ensures Delivered(Segments(header + frame)) == [frame]
    ensures Handed([], header + frame) == []
  {
    hide GoodLength, Parse, Segments, Delivered, Handed;
    BadHeaderSkipped(header, frame);
    NothingHanded(header, frame);
  }

  lemma NothingHanded(header: seq<byte>, frame: seq<byte>)
    requires |header| == 2 && !GoodLength(header[1]) && |frame| <= MAX_PACKET - 1
    ensures Handed([], header + frame) == []
  {
    hide GoodLength, Held, Handed, Complete;
    if |frame| <= MAX_PACKET - 2 {
      DeafAfterBadHeader(header, frame);
    } else {
      var k := |frame| - 1;
      var init := header + frame[..k];
      DeafAfterBadHeader(header, frame[..k]);
      HeldLast([], init, frame[k]);
      TooShortToComplete(frame[k]);
      assert init + [frame[k]] == header + frame;
      assert Extend(init, frame[k]) == [frame[k]];
    }
  }

  lemma HeaderNotDelivered(header: seq<byte>)
    requires |header| == 2
    ensures Delivered([header]) == []
  {}

  lemma BadHeaderSkipped(header: seq<byte>, frame: seq<byte>)
    requires |header| == 2 && !GoodLength(header[1]) && Intact(frame)
    ensures Delivered(Segments(header + frame)) == [frame]
  {
    hide Intact, Delivered;
    var s := header + frame;
    assert s[..2] == header && s[2..] == frame;
    ConcatOfFirst(frame, []);
    assert [frame] + [] == [frame] && frame + Concat([]) == frame;
    IntactFramesDelivered([frame]);
    assert Segments(s) == [header] + [frame];
    DeliveredOfConcat([header], [frame]);
    HeaderNotDelivered(header);
    assert [] + [frame] == [frame];
  }
}
