/** The PC device tracker on values, held to the history of packets and checks. */
module Tracking {
  import opened Bytes
  import opened Crc
  import opened Frames

  const MAX_TRACKED := 128
  const OFFLINE_SEC := 30
  const CODE_ONLINE: byte := 0xD1
  const CODE_OFFLINE: byte := 0xD0

  datatype Tracked = Tracked(online: bool, status1: byte, status2: byte, lastSeen: nat, packets: uint32)

  datatype TrackEvent = TrackEvent(id: uint32, at: nat, addr: nat, code: byte, raw: seq<byte>)

  /** The table, every event ever recorded, and the packet counter. */
  datatype Tracker = Tracker(devices: seq<Tracked>, log: seq<TrackEvent>, total: uint32)
  {
    predicate Valid() {
      |devices| == MAX_TRACKED
    }
  }

  const NEVER_SEEN: Tracked := Tracked(false, 0, 0, 0, 0)

  function NewTracker(): (t: Tracker)
    ensures t.Valid() && t.log == [] && t.total == 0
    ensures forall i :: 0 <= i < MAX_TRACKED ==> t.devices[i] == NEVER_SEEN
  {
    Tracker(seq(MAX_TRACKED, _ => NEVER_SEEN), [], 0)
  }

  function Increment(n: uint32): uint32 {
    (n + 1) % TWO_TO_THE_32
  }

  /** The device a packet concerns, 0 if none. */
  function PacketAddress(p: Packet): nat {
    var a := ToNat(p.address);
    var b := if p.encrypted && a >= 128 then a - 128 else a;
    if b > 127 then 0 else b
  }

  /** The event numbered by its position in the log, modulo 2^32. */
  function Record(t: Tracker, at: nat, addr: nat, code: byte, raw: seq<byte>): Tracker {
    t.(log := t.log + [TrackEvent(|t.log| % TWO_TO_THE_32, at, addr, code, raw)])
  }

  function Head16(raw: seq<byte>): seq<byte> {
    if |raw| < 16 then raw else raw[..16]
  }

  /** `tracker_on_packet`. */
  function OnPacket(t: Tracker, p: Packet, raw: seq<byte>, at: nat): (t': Tracker)
    requires t.Valid()
    ensures t'.Valid()
  {
    var a := PacketAddress(p);
    if a == 0 then t
    else
      var d := t.devices[a];
      var seen := d.(online := true, lastSeen := at, packets := Increment(d.packets));
      var shown := if ToNat(p.length) >= 8 && |p.payload| >= 7
                   then seen.(status1 := p.payload[5], status2 := p.payload[6]) else seen;
      var counted := t.(devices := t.devices[a := shown], total := Increment(t.total));
      if d.online then counted else Record(counted, at, a, CODE_ONLINE, Head16(raw))
  }

  predicate TimedOut(d: Tracked, now: nat) {
    d.online && d.lastSeen > 0 && now - d.lastSeen > OFFLINE_SEC
  }

  function CheckOne(t: Tracker, a: nat, now: nat): (t': Tracker)
    requires t.Valid() && a < MAX_TRACKED
    ensures t'.Valid()
  {
    if TimedOut(t.devices[a], now) then
      Record(t.(devices := t.devices[a := t.devices[a].(online := false)]), now, a, CODE_OFFLINE, [])
    else t
  }

  /** `tracker_check_timeouts` over the addresses below `n`, in order. */
  function CheckBelow(t: Tracker, n: nat, now: nat): (t': Tracker)
    requires t.Valid() && 1 <= n <= MAX_TRACKED
    ensures t'.Valid()
  {
    if n == 1 then t else CheckOne(CheckBelow(t, n - 1, now), n - 1, now)
  }

  function CheckTimeouts(t: Tracker, now: nat): (t': Tracker)
    requires t.Valid()
    ensures t'.Valid()
  {
    CheckBelow(t, MAX_TRACKED, now)
  }

  // --- Histories ---

  /** A frame reported by the sniffer, which the tracker sees if it parses, or a timeout check. */
  datatype Call = Packeted(raw: seq<byte>, at: nat) | Checked(at: nat)

  predicate Parses(raw: seq<byte>) {
    Parsable(raw) && Parse(raw).Some?
  }

  function Apply(t: Tracker, c: Call): (t': Tracker)
    requires t.Valid()
    ensures t'.Valid()
  {
    match c
    case Packeted(raw, at) => if Parses(raw) then OnPacket(t, Parse(raw).value, raw, at) else t
    case Checked(at) => CheckTimeouts(t, at)
  }

  function Run(h: seq<Call>): (t: Tracker)
    ensures t.Valid()
  {
    if h == [] then NewTracker() else Apply(Run(h[..|h| - 1]), h[|h| - 1])
  }

  /** The frame is to or from device `a`: its address byte is `a`, or `a` with the encryption offset. */
  predicate Concerns(c: Call, a: nat) {
    c.Packeted? && Parses(c.raw) && (ToNat(c.raw[0]) == a || ToNat(c.raw[0]) == a + 128)
  }

  /** The address the tracker takes from a parsed packet is that of its frame, offset or not; 0x00 and 0x80 are none. */
  lemma PacketConcerns(raw: seq<byte>, a: nat)
    requires Parses(raw) && 1 <= a <= 127
    ensures PacketAddress(Parse(raw).value) == a <==> ToNat(raw[0]) == a || ToNat(raw[0]) == a + 128
    ensures PacketAddress(Parse(raw).value) == 0 <==> ToNat(raw[0]) == 0 || ToNat(raw[0]) == 128
  {
    hide Crc8, ToNat;
    ToNatOrder(127, raw[0]);
    assert ToNat(127) == 127 by { Value127(); }
    assert Parse(raw).value.address == raw[0];
  }

  lemma Value127()
    ensures ToNat(127) == 127
  {}

  /** Frames of one device, plain and encrypted, concern it and no other. */
  lemma FramesConcern(own: byte, payload: seq<byte>, at: nat, a: nat)
    requires 1 <= own <= MAX_ADDRESS && |payload| <= MAX_PAYLOAD && 1 <= a < MAX_TRACKED
    ensures Concerns(Packeted(Frame(own, payload), at), a) <==> a == ToNat(own)
    ensures Concerns(Packeted(Frame(own + ENCRYPT_OFFSET, payload), at), a) <==> a == ToNat(own)
    ensures !Concerns(Packeted(Frame(0, payload), at), a) && !Concerns(Packeted(Frame(0x80, payload), at), a)
  {
    hide Frame, Parse, Parsable;
    OffsetValue(own);
    FrameParses(own, payload);
    FrameParses(own + ENCRYPT_OFFSET, payload);
    FrameParses(0, payload);
    FrameParses(0x80, payload);
  }

  lemma FrameParses(raw: byte, payload: seq<byte>)
    requires |payload| <= MAX_PAYLOAD
    ensures Parses(Frame(raw, payload)) && Frame(raw, payload)[0] == raw
  {
    hide Crc8, ToNat, ToByte;
    ParseOfFrame(raw, payload, []);
    assert Frame(raw, payload) + [] == Frame(raw, payload);
  }

  lemma OffsetValue(own: byte)
    requires 1 <= own <= MAX_ADDRESS
    ensures 1 <= ToNat(own) <= 127 && ToNat(own + ENCRYPT_OFFSET) == ToNat(own) + 128
    ensures ToNat(0) == 0 && ToNat(0x80) == 128
  {}

  /** The two status bytes of the last long enough frame of device `a`, as they stand in its raw bytes. */
  function LastStatus(h: seq<Call>, a: nat): (byte, byte) {
    if h == [] then (0, 0)
    else
      var c := h[|h| - 1];
      if Concerns(c, a) && ToNat(c.raw[1]) >= 8 && |c.raw| >= 9 then (c.raw[7], c.raw[8])
      else LastStatus(h[..|h| - 1], a)
  }

  /** The time of the last packet of device `a`, 0 if it never spoke. */
  function LastPacket(h: seq<Call>, a: nat): nat {
    if h == [] then 0
    else if Concerns(h[|h| - 1], a) then h[|h| - 1].at
    else LastPacket(h[..|h| - 1], a)
  }

  function PacketCount(h: seq<Call>, a: nat): nat {
    if h == [] then 0
    else PacketCount(h[..|h| - 1], a) + (if Concerns(h[|h| - 1], a) then 1 else 0)
  }

  /** The clock is positive and does not run backwards. */
  predicate Chronological(h: seq<Call>) {
    h == [] ||
    (Chronological(h[..|h| - 1]) && h[|h| - 1].at >= 1 &&
     (|h| >= 2 ==> h[|h| - 2].at <= h[|h| - 1].at))
  }

  function Now(h: seq<Call>): nat {
    if h == [] then 0 else h[|h| - 1].at
  }

  /** The events of one device. */
  function EventsOf(log: seq<TrackEvent>, a: nat): seq<byte> {
    if log == [] then []
    else EventsOf(log[..|log| - 1], a) + (if log[|log| - 1].addr == a then [log[|log| - 1].code] else [])
  }

  /** Coming on line and going off line take turns, beginning with coming on line. */
  predicate Alternates(codes: seq<byte>) {
    forall i :: 0 <= i < |codes| ==> codes[i] == if i % 2 == 0 then CODE_ONLINE else CODE_OFFLINE
  }

  /** Event number k carries the number k, modulo 2^32. */
  predicate Numbered(log: seq<TrackEvent>) {
    forall k :: 0 <= k < |log| ==> log[k].id == k % TWO_TO_THE_32
  }

  /** What the table says about device `a` matches the history. */
  predicate Agrees(t: Tracker, h: seq<Call>, a: nat)
    requires t.Valid() && a < MAX_TRACKED
  {
    var d := t.devices[a];
    && d.lastSeen == LastPacket(h, a) <= Now(h)
    && d.packets == PacketCount(h, a) % TWO_TO_THE_32
    && (d.status1, d.status2) == LastStatus(h, a)
    && (d.online ==> d.lastSeen >= 1)
    && (!d.online && d.lastSeen >= 1 ==> Now(h) - d.lastSeen > OFFLINE_SEC)
    && Alternates(EventsOf(t.log, a))
    && (d.online <==> |EventsOf(t.log, a)| % 2 == 1)
  }

  lemma RecordEvents(t: Tracker, at: nat, addr: nat, code: byte, raw: seq<byte>, a: nat)
    ensures var r := Record(t, at, addr, code, raw);
            EventsOf(r.log, a) == EventsOf(t.log, a) + (if addr == a then [code] else [])
    ensures Numbered(t.log) ==> Numbered(Record(t, at, addr, code, raw).log)
  {
    var r := Record(t, at, addr, code, raw);
    assert r.log[..|r.log| - 1] == t.log;
  }

  lemma AlternatesMore(codes: seq<byte>, code: byte)
    requires Alternates(codes) && code == (if |codes| % 2 == 0 then CODE_ONLINE else CODE_OFFLINE)
    ensures Alternates(codes + [code])
  {}

  lemma IncrementCounts(n: nat)
    ensures Increment(n % TWO_TO_THE_32) == (n + 1) % TWO_TO_THE_32
  {}

  /** A packet touches its own device. */
  lemma PacketOthers(t: Tracker, p: Packet, raw: seq<byte>, at: nat, a: nat)
    requires t.Valid() && a < MAX_TRACKED && PacketAddress(p) != a
    ensures var t' := OnPacket(t, p, raw, at);
            t'.devices[a] == t.devices[a] && EventsOf(t'.log, a) == EventsOf(t.log, a)
  {
    hide ToNat;
    var b := PacketAddress(p);
    if b != 0 && !t.devices[b].online {
      RecordEvents(t, at, b, CODE_ONLINE, Head16(raw), a);
    }
  }

  lemma PacketOwn(t: Tracker, p: Packet, raw: seq<byte>, at: nat, a: nat)
    requires t.Valid() && 1 <= a < MAX_TRACKED && PacketAddress(p) == a
    ensures var d, d', t' := t.devices[a], OnPacket(t, p, raw, at).devices[a], OnPacket(t, p, raw, at);
            && d'.online && d'.lastSeen == at && d'.packets == Increment(d.packets)
            && EventsOf(t'.log, a) == EventsOf(t.log, a) + (if d.online then [] else [CODE_ONLINE])
  {
    hide ToNat;
    RecordEvents(t, at, a, CODE_ONLINE, Head16(raw), a);
  }

  lemma PacketStatus(t: Tracker, p: Packet, raw: seq<byte>, at: nat, a: nat)
    requires t.Valid() && 1 <= a < MAX_TRACKED && PacketAddress(p) == a
    ensures var d, d' := t.devices[a], OnPacket(t, p, raw, at).devices[a];
            if ToNat(p.length) >= 8 && |p.payload| >= 7 then d'.status1 == p.payload[5] && d'.status2 == p.payload[6]
            else d'.status1 == d.status1 && d'.status2 == d.status2
  {
    hide ToNat, Head16, Increment;
  }

  /** The status bytes of a parsed packet are those of its frame. */
  lemma StatusBytes(raw: seq<byte>)
    requires Parses(raw)
    ensures var p := Parse(raw).value;
            && |raw| >= 3 && p.length == raw[1]
            && (ToNat(p.length) >= 8 && |p.payload| >= 7 <==> ToNat(raw[1]) >= 8 && |raw| >= 9)
            && (ToNat(p.length) >= 8 && |p.payload| >= 7 ==> p.payload[5] == raw[7] && p.payload[6] == raw[8])
  {
    hide Crc8, ToNat;
  }

  lemma CheckOneDevice(t: Tracker, k: nat, now: nat, a: nat)
    requires t.Valid() && k < MAX_TRACKED && a < MAX_TRACKED
    ensures var t' := CheckOne(t, k, now);
            var out := a == k && TimedOut(t.devices[a], now);
            && t'.devices[a] == (if out then t.devices[a].(online := false) else t.devices[a])
            && EventsOf(t'.log, a) == EventsOf(t.log, a) + (if out then [CODE_OFFLINE] else [])
  {
    RecordEvents(t, now, k, CODE_OFFLINE, [], a);
  }

  lemma {:induction false} CheckDevice(t: Tracker, n: nat, now: nat, a: nat)
    requires t.Valid() && 1 <= n <= MAX_TRACKED && a < MAX_TRACKED
    ensures var t' := CheckBelow(t, n, now);
            var out := 1 <= a < n && TimedOut(t.devices[a], now);
            && t'.devices[a] == (if out then t.devices[a].(online := false) else t.devices[a])
            && EventsOf(t'.log, a) == EventsOf(t.log, a) + (if out then [CODE_OFFLINE] else [])
    decreases n
  {
    hide CheckOne, EventsOf, TimedOut;
    if n == 1 {
    } else {
      CheckDevice(t, n - 1, now, a);
      var m := CheckBelow(t, n - 1, now);
      CheckOneDevice(m, n - 1, now, a);
      assert EventsOf(t.log, a) + [] == EventsOf(t.log, a);
    }
  }

  lemma CheckBelowStep(t: Tracker, n: nat, now: nat)
    requires t.Valid() && 2 <= n <= MAX_TRACKED
    ensures CheckBelow(t, n, now) == CheckOne(CheckBelow(t, n - 1, now), n - 1, now)
  {}

  /** The history with one more call. */
  lemma HistoryAfter(h: seq<Call>, c: Call, a: nat)
    requires Chronological(h + [c])
    ensures Now(h + [c]) == c.at && Now(h) <= c.at && c.at >= 1
    ensures LastPacket(h + [c], a) == if Concerns(c, a) then c.at else LastPacket(h, a)
    ensures PacketCount(h + [c], a) == PacketCount(h, a) + (if Concerns(c, a) then 1 else 0)
  {
    hide Concerns;
    var h' := h + [c];
    assert h'[..|h|] == h;
    assert h != [] ==> h'[|h'| - 2] == h[|h| - 1];
  }

  lemma OwnStep(t: Tracker, h: seq<Call>, raw: seq<byte>, at: nat, a: nat)
    requires Chronological(h + [Packeted(raw, at)]) && 1 <= a < MAX_TRACKED && t.Valid() && Agrees(t, h, a)
    requires Concerns(Packeted(raw, at), a)
    ensures Agrees(Apply(t, Packeted(raw, at)), h + [Packeted(raw, at)], a)
  {
    hide EventsOf, OnPacket, PacketAddress, Parse, Parsable, LastPacket, PacketCount, LastStatus, Chronological,
         ToNat, Alternates;
    var p := Parse(raw).value;
    HistoryAfter(h, Packeted(raw, at), a);
    StatusAfter(h, Packeted(raw, at), a);
    PacketConcerns(raw, a);
    StatusBytes(raw);
    PacketOwn(t, p, raw, at, a);
    PacketStatus(t, p, raw, at, a);
    IncrementCounts(PacketCount(h, a));
    MoreIsOdd(EventsOf(t.log, a), CODE_ONLINE);
    AlternatesIfOff(EventsOf(t.log, a), t.devices[a].online);
  }

  lemma MoreIsOdd(codes: seq<byte>, code: byte)
    ensures |codes + [code]| == |codes| + 1 && codes + [] == codes
  {}

  lemma OtherStep(t: Tracker, h: seq<Call>, raw: seq<byte>, at: nat, a: nat)
    requires Chronological(h + [Packeted(raw, at)]) && 1 <= a < MAX_TRACKED && t.Valid() && Agrees(t, h, a)
    requires !Concerns(Packeted(raw, at), a)
    ensures Agrees(Apply(t, Packeted(raw, at)), h + [Packeted(raw, at)], a)
  {
    hide EventsOf, OnPacket, PacketAddress, Parse, Parsable, LastPacket, PacketCount, LastStatus, Chronological,
         ToNat, Alternates;
    HistoryAfter(h, Packeted(raw, at), a);
    StatusAfter(h, Packeted(raw, at), a);
    if Parses(raw) {
      PacketConcerns(raw, a);
      PacketOthers(t, Parse(raw).value, raw, at, a);
    }
  }

  lemma CheckStep(t: Tracker, h: seq<Call>, at: nat, a: nat)
    requires Chronological(h + [Checked(at)]) && 1 <= a < MAX_TRACKED && t.Valid() && Agrees(t, h, a)
    ensures Agrees(Apply(t, Checked(at)), h + [Checked(at)], a)
  {
    hide EventsOf, CheckBelow, LastPacket, PacketCount, LastStatus, Chronological, Alternates;
    HistoryAfter(h, Checked(at), a);
    StatusAfter(h, Checked(at), a);
    CheckDevice(t, MAX_TRACKED, at, a);
    MoreIsOdd(EventsOf(t.log, a), CODE_OFFLINE);
    AlternatesIfOff(EventsOf(t.log, a), t.devices[a].online);
  }

  lemma StepAgrees(h: seq<Call>, c: Call, a: nat)
    requires Chronological(h + [c]) && 1 <= a < MAX_TRACKED && Agrees(Run(h), h, a)
    ensures Agrees(Apply(Run(h), c), h + [c], a)
  {
    hide Run, Agrees, Apply, Chronological, Concerns;
    match c
    case Packeted(raw, at) =>
      if Concerns(c, a) {
        OwnStep(Run(h), h, raw, at, a);
      } else {
        OtherStep(Run(h), h, raw, at, a);
      }
    case Checked(at) => CheckStep(Run(h), h, at, a);
  }

  lemma StatusAfter(h: seq<Call>, c: Call, a: nat)
    ensures LastStatus(h + [c], a) ==
            if Concerns(c, a) && ToNat(c.raw[1]) >= 8 && |c.raw| >= 9 then (c.raw[7], c.raw[8]) else LastStatus(h, a)
  {
    hide ToNat, Parses;
    assert (h + [c])[..|h|] == h;
  }

  lemma AlternatesIfOff(codes: seq<byte>, online: bool)
    requires Alternates(codes) && (online <==> |codes| % 2 == 1)
    ensures Alternates(codes + []) && Alternates(codes + [if online then CODE_OFFLINE else CODE_ONLINE])
  {
    assert codes + [] == codes;
    AlternatesMore(codes, if online then CODE_OFFLINE else CODE_ONLINE);
  }

  /** Over every run the table, the counters and the recorded events of every device match the history. */
  lemma {:induction false} TrackerAgrees(h: seq<Call>, a: nat)
    requires Chronological(h) && 1 <= a < MAX_TRACKED
    ensures Agrees(Run(h), h, a)
  {
    if h == [] {
      assert EventsOf([], a) == [];
    } else {
      hide Agrees, Apply;
      var k := |h| - 1;
      TrackerAgrees(h[..k], a);
      assert h[..k] + [h[k]] == h;
      StepAgrees(h[..k], h[k], a);
    }
  }

  /** Just after a check a device is on line exactly when its last packet is at most 30 seconds old. */
  lemma OnlineIffRecent(h: seq<Call>, now: nat, a: nat)
    requires Chronological(h + [Checked(now)]) && 1 <= a < MAX_TRACKED
    ensures Run(h + [Checked(now)]).devices[a].online <==>
            LastPacket(h, a) >= 1 && now - LastPacket(h, a) <= OFFLINE_SEC
  {
    hide EventsOf, CheckBelow;
    var h' := h + [Checked(now)];
    assert h'[..|h'| - 1] == h;
    TrackerAgrees(h', a);
    TrackerAgrees(h, a);
    CheckDevice(Run(h), MAX_TRACKED, now, a);
    assert h != [] ==> h'[|h'| - 2] == h[|h| - 1];
  }

  /** Each device's recorded events alternate, from on line. */
  lemma EventsAlternate(h: seq<Call>, a: nat)
    requires Chronological(h) && 1 <= a < MAX_TRACKED
    ensures Alternates(EventsOf(Run(h).log, a))
  {
    hide EventsOf, Run;
    TrackerAgrees(h, a);
  }

  // --- What each event records ---

  /** The event tells of the call: a first frame, its time and first 16 bytes, or a check that timed a device out. */
  predicate CausedBy(e: TrackEvent, c: Call) {
    if e.code == CODE_ONLINE then
      Concerns(c, e.addr) && e.at == c.at && e.raw == (if |c.raw| <= 16 then c.raw else c.raw[..16])
    else c.Checked? && e.code == CODE_OFFLINE && e.at == c.at && e.raw == []
  }

  predicate AllCausedBy(events: seq<TrackEvent>, c: Call) {
    forall i :: 0 <= i < |events| ==> CausedBy(events[i], c)
  }

  lemma {:induction false} CheckAdds(t: Tracker, n: nat, now: nat)
    requires t.Valid() && 1 <= n <= MAX_TRACKED
    ensures t.log <= CheckBelow(t, n, now).log
    ensures AllCausedBy(CheckBelow(t, n, now).log[|t.log|..], Checked(now))
    decreases n
  {
    if n > 1 {
      CheckAdds(t, n - 1, now);
    }
  }

  lemma PacketAdds(t: Tracker, p: Packet, raw: seq<byte>, at: nat)
    requires t.Valid()
    ensures var a, log := PacketAddress(p), OnPacket(t, p, raw, at).log;
            || log == t.log
            || (1 <= a <= 127 && log == t.log + [TrackEvent(|t.log| % TWO_TO_THE_32, at, a, CODE_ONLINE, Head16(raw))])
  {
    hide ToNat, Head16;
  }

  /** Each call appends to the log only what it causes. */
  lemma CallAdds(t: Tracker, c: Call)
    requires t.Valid()
    ensures t.log <= Apply(t, c).log && AllCausedBy(Apply(t, c).log[|t.log|..], c)
  {
    match c
    case Packeted(raw, at) =>
      hide Parse, Parsable, PacketAddress, ToNat, OnPacket;
      if Parses(raw) {
        var p := Parse(raw).value;
        PacketAdds(t, p, raw, at);
        if 1 <= PacketAddress(p) <= 127 {
          PacketConcerns(raw, PacketAddress(p));
        }
      }
    case Checked(at) =>
      hide CheckBelow, AllCausedBy;
      CheckAdds(t, MAX_TRACKED, at);
  }

  /** Every event of a run was caused by one of its calls. */
  lemma {:induction false} EventCaused(h: seq<Call>, k: nat) returns (i: nat)
    requires k < |Run(h).log|
    ensures i < |h| && CausedBy(Run(h).log[k], h[i])
    decreases |h|
  {
    hide CausedBy, Apply;
    var init, c := h[..|h| - 1], h[|h| - 1];
    var before := Run(init).log;
    CallAdds(Run(init), c);
    if k < |before| {
      i := EventCaused(init, k);
    } else {
      i := |h| - 1;
      assert Run(h).log[k] == Run(h).log[|before|..][k - |before|];
    }
  }

  // --- Counters ---

  /** Packets of devices 1 to n - 1 together. */
  function CountBelow(devices: seq<Tracked>, n: nat): nat
    requires 1 <= n <= |devices|
  {
    if n == 1 then 0 else CountBelow(devices, n - 1) + devices[n - 1].packets
  }

  lemma {:induction false} CountBelowUpdate(ds: seq<Tracked>, a: nat, d: Tracked, n: nat)
    requires 1 <= n <= |ds| && 1 <= a < |ds|
    ensures CountBelow(ds[a := d], n) ==
            CountBelow(ds, n) + (if a < n then d.packets - ds[a].packets else 0)
    decreases n
  {
    if n > 1 {
      CountBelowUpdate(ds, a, d, n - 1);
    }
  }

  /** The per-device counters add up to the total, all modulo 2^32. */
  predicate Balanced(t: Tracker)
    requires t.Valid()
  {
    CountBelow(t.devices, MAX_TRACKED) % TWO_TO_THE_32 == t.total
  }

  lemma IncrementBalanced(sum: nat, packets: uint32, total: uint32)
    requires packets <= sum && sum % TWO_TO_THE_32 == total
    ensures sum + Increment(packets) - packets >= 0
    ensures (sum + Increment(packets) - packets) % TWO_TO_THE_32 == Increment(total)
  {
    if packets + 1 == TWO_TO_THE_32 {
      assert sum + Increment(packets) - packets == sum + 1 - TWO_TO_THE_32;
    }
  }

  lemma {:induction false} CountAtLeast(ds: seq<Tracked>, a: nat, n: nat)
    requires 1 <= a < n <= |ds|
    ensures CountBelow(ds, n) >= ds[a].packets
    decreases n
  {
    if a < n - 1 {
      CountAtLeast(ds, a, n - 1);
    }
  }

  lemma PacketBalanced(t: Tracker, p: Packet, raw: seq<byte>, at: nat)
    requires t.Valid() && Balanced(t) && Numbered(t.log)
    ensures Balanced(OnPacket(t, p, raw, at)) && Numbered(OnPacket(t, p, raw, at).log)
  {
    hide ToNat, CountBelow;
    var a := PacketAddress(p);
    if a != 0 {
      var t' := OnPacket(t, p, raw, at);
      assert t'.devices == t.devices[a := t'.devices[a]];
      CountBelowUpdate(t.devices, a, t'.devices[a], MAX_TRACKED);
      CountAtLeast(t.devices, a, MAX_TRACKED);
      IncrementBalanced(CountBelow(t.devices, MAX_TRACKED), t.devices[a].packets, t.total);
    }
  }

  lemma {:induction false} CheckBalanced(t: Tracker, n: nat, now: nat)
    requires t.Valid() && Balanced(t) && 1 <= n <= MAX_TRACKED && Numbered(t.log)
    ensures Balanced(CheckBelow(t, n, now)) && Numbered(CheckBelow(t, n, now).log)
    decreases n
  {
    if n > 1 {
      CheckBalanced(t, n - 1, now);
      var m := CheckBelow(t, n - 1, now);
      hide CountBelow, CheckBelow;
      CheckBelowStep(t, n, now);
      CountBelowUpdate(m.devices, n - 1, m.devices[n - 1].(online := false), MAX_TRACKED);
    }
  }

  /** Over every run the counters balance and the events are numbered consecutively. */
  lemma {:induction false} RunBalanced(h: seq<Call>)
    ensures Balanced(Run(h)) && Numbered(Run(h).log)
  {
    if h == [] {
      EmptyCounts(MAX_TRACKED);
    } else {
      hide Balanced, Numbered, OnPacket, CheckBelow;
      var k := |h| - 1;
      RunBalanced(h[..k]);
      match h[k]
      case Packeted(raw, at) =>
        if Parses(raw) {
          PacketBalanced(Run(h[..k]), Parse(raw).value, raw, at);
        }
      case Checked(at) => CheckBalanced(Run(h[..k]), MAX_TRACKED, at);
    }
  }

  lemma {:induction false} EmptyCounts(n: nat)
    requires 1 <= n <= MAX_TRACKED
    ensures CountBelow(NewTracker().devices, n) == 0
  {
    if n > 1 {
      EmptyCounts(n - 1);
    }
  }

  // --- Selecting events for display ---

  const RING_SIZE := 256

  /** The 32-bit write position read as a signed `int`. */
  function AsInt(w: uint32): int {
    if w < 0x8000_0000 then w else w - TWO_TO_THE_32
  }

  function Min(a: int, b: int): int {
    if a < b then a else b
  }

  /** How many events `tracker_format_events` shows, out of `n` ever recorded. */
  function Shown(n: nat, maxEvents: int): nat {
    var c := Min(Min(AsInt(n % TWO_TO_THE_32), RING_SIZE), maxEvents);
    if c < 0 then 0 else c
  }

  /**
   * It shows the newest min(n, 256, max) exactly when the 32-bit position is below 2^31 and has either not
   * wrapped or moved on far enough since.
   */
  lemma ShownIsNewest(n: nat, maxEvents: int)
    requires maxEvents > 0
    ensures Shown(n, maxEvents) == Min(Min(n, RING_SIZE), maxEvents) <==>
            var w := n % TWO_TO_THE_32;
            w < 0x8000_0000 && (w == n || w >= Min(RING_SIZE, maxEvents))
  {
    var w := n % TWO_TO_THE_32;
    assert w <= n;
    assert w >= 0x8000_0000 ==> n >= RING_SIZE;
    if w != n {
      assert n >= TWO_TO_THE_32;
    }
  }
}
