/** `device_tracker_t`: the table and the event ring, updated in place. */
module DeviceTracker {
  import opened Bytes
  import opened Frames
  import opened Rings
  import opened Tracking

  class Table {
    const devices: array<Tracked>
    const events: array<TrackEvent>
    var writePos: uint32
    var eventCount: uint32
    var totalPackets: uint32

    ghost var log: seq<TrackEvent>   // every event ever recorded

    ghost predicate Valid()
      reads this, events
    {
      && devices.Length == MAX_TRACKED && events.Length == RING_SIZE
      && writePos == eventCount == |log| % TWO_TO_THE_32
      && KeepsLast(events[..], log)
    }

    ghost function State(): (t: Tracker)
      requires Valid()
      reads this, devices, events
      ensures t.Valid()
    {
      Tracker(devices[..], log, totalPackets)
    }

    constructor ()
      ensures Valid() && fresh(devices) && fresh(events) && State() == NewTracker()
    {
      devices := new Tracked[MAX_TRACKED](_ => NEVER_SEEN);
      events := new TrackEvent[RING_SIZE](_ => TrackEvent(0, 0, 0, 0, []));
      writePos, eventCount, totalPackets, log := 0, 0, 0, [];
      new;
      assert devices[..] == NewTracker().devices;
    }

    /** Writes the next event into its slot. */
    method RecordEvent(at: nat, addr: nat, code: byte, raw: seq<byte>)
      requires Valid()
      modifies this`writePos, this`eventCount, this`log, events
      ensures Valid() && State() == Record(old(State()), at, addr, code, raw)
    {
      hide KeepsLast;
      ghost var n := |log|;
      SlotOfPosition(n);
      var e := TrackEvent(eventCount, at, addr, code, raw);
      KeepsLastAppend(events[..], log, e);
      ghost var buf := events[..];
      events[writePos % RING_SIZE] := e;
      assert events[..] == buf[n % RING_SIZE := e];
      eventCount := (eventCount + 1) % TWO_TO_THE_32;
      writePos := (writePos + 1) % TWO_TO_THE_32;
      log := log + [e];
    }

    /** The wrap of the 32-bit position does not disturb the slots. */
    static lemma SlotOfPosition(n: nat)
      ensures n % TWO_TO_THE_32 % RING_SIZE == n % RING_SIZE
      ensures (n % TWO_TO_THE_32 + 1) % TWO_TO_THE_32 == (n + 1) % TWO_TO_THE_32
    {}

    /** `tracker_on_packet`. */
    method OnPacket(p: Packet, raw: seq<byte>, at: nat)
      requires Valid()
      modifies this, devices, events
      ensures Valid() && State() == Tracking.OnPacket(old(State()), p, raw, at)
    {
      hide KeepsLast, ToNat;
      var a := PacketAddress(p);
      if a == 0 {
        return;
      }
      totalPackets := (totalPackets + 1) % TWO_TO_THE_32;
      var online := devices[a].online;
      devices[a] := devices[a].(online := true, lastSeen := at, packets := (devices[a].packets + 1) % TWO_TO_THE_32);
      if !online {
        RecordEvent(at, a, CODE_ONLINE, if |raw| < 16 then raw else raw[..16]);
      }
      if ToNat(p.length) >= 8 && |p.payload| >= 7 {
        devices[a] := devices[a].(status1 := p.payload[5], status2 := p.payload[6]);
      }
      assert devices[..] == Tracking.OnPacket(old(State()), p, raw, at).devices;
    }

    /** `tracker_check_timeouts`. */
    method CheckTimeouts(now: nat)
      requires Valid()
      modifies this, devices, events
      ensures Valid() && State() == Tracking.CheckTimeouts(old(State()), now)
    {
      hide KeepsLast, Record;
      ghost var start := State();
      for i := 1 to MAX_TRACKED
        invariant Valid() && State() == CheckBelow(start, i, now)
      {
        if devices[i].online && devices[i].lastSeen > 0 {
          if now - devices[i].lastSeen > OFFLINE_SEC {
            ghost var before := devices[..];
            devices[i] := devices[i].(online := false);
            assert devices[..] == before[i := before[i].(online := false)];
            RecordEvent(now, i, CODE_OFFLINE, []);
          }
        }
      }
    }

    /** `tracker_online_count`. */
    method OnlineCount() returns (count: nat)
      requires Valid()
      ensures count == |set a | 1 <= a < MAX_TRACKED && devices[a].online|
    {
      count := 0;
      ghost var counted: set<int> := {};
      for i := 1 to MAX_TRACKED
        invariant counted == set a | 1 <= a < i && devices[a].online
        invariant count == |counted|
      {
        if devices[i].online {
          count := count + 1;
          counted := counted + {i};
        }
      }
    }

    /** The slot selection of `tracker_format_events`. */
    method RecentEvents(maxEvents: int) returns (shown: seq<TrackEvent>)
      requires Valid()
      ensures var k := Shown(|log|, maxEvents);
              k <= |log| && shown == log[|log| - k..]
    {
      hide KeepsLast, Shown, AsInt;
      var count := AsInt(writePos);
      if count > RING_SIZE {
        count := RING_SIZE;
      }
      if count > maxEvents {
        count := maxEvents;
      }
      shown := [];
      if count == 0 {
        ShownFits(|log|, count, maxEvents);
        assert log[|log|..] == [];
        return;
      }
      var startPos := (writePos - count) % TWO_TO_THE_32;
      ghost var n, k := |log|, Shown(|log|, maxEvents);
      ShownFits(n, count, maxEvents);
      var i := 0;
      while i < count
        invariant 0 <= i <= k <= n && shown == log[n - k..n - k + i]
      {
        var e := ShownAt(startPos, i, n, count);
        shown := shown + [e];
        i := i + 1;
      }
      assert i == k && log[n - k..n - k + k] == log[n - k..];
    }

    /** The event in the slot visited at step `i`. */
    method ShownAt(startPos: uint32, i: nat, ghost n: nat, ghost count: nat) returns (e: TrackEvent)
      requires Valid() && n == |log| && i < count <= n % TWO_TO_THE_32 && count <= RING_SIZE
      requires startPos == (n % TWO_TO_THE_32 - count) % TWO_TO_THE_32
      ensures n - count + i < |log| && e == log[n - count + i]
    {
      hide KeepsLast;
      SlotOfShown(n, count, i);
      KeptAt(events[..], log, n - count + i);
      e := events[(startPos + i) % TWO_TO_THE_32 % RING_SIZE];
      assert e == events[..][(n - count + i) % RING_SIZE];
    }

    static lemma ShownFits(n: nat, count: int, maxEvents: int)
      requires count == Min(Min(AsInt(n % TWO_TO_THE_32), RING_SIZE), maxEvents)
      ensures Shown(n, maxEvents) == (if count < 0 then 0 else count)
      ensures count > 0 ==> count <= n % TWO_TO_THE_32 && count <= n && count <= RING_SIZE
    {}

    /** Counting back from the wrapped position finds the slot of the event that far back. */
    static lemma SlotOfShown(n: nat, count: nat, i: nat)
      requires i < count <= n % TWO_TO_THE_32 && count <= RING_SIZE
      ensures ((n % TWO_TO_THE_32 - count) % TWO_TO_THE_32 + i) % TWO_TO_THE_32 % RING_SIZE ==
              (n - count + i) % RING_SIZE
    {
      var w, q := n % TWO_TO_THE_32, n / TWO_TO_THE_32;
      assert (w - count) % TWO_TO_THE_32 == w - count;
      assert (w - count + i) % TWO_TO_THE_32 == w - count + i;
      assert n - count + i == w - count + i + (q * 0x100_0000) * RING_SIZE;
      Shift(w - count + i, q * 0x100_0000);
    }

    static lemma Shift(x: int, k: int)
      ensures (x + k * RING_SIZE) % RING_SIZE == x % RING_SIZE
    {}
  }
}
