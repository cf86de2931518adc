/** The PC sniffer: a byte-at-a-time state machine over a fixed buffer. */
module Sniffer {
  import opened Bytes
  import opened Crc
  import opened Frames
  import opened Packets
  import opened Framing

  datatype State = Idle | GotAddr | Reading

  class Machine {
    const ringBuf: array<byte>
    const packet: PacketBuffer
    var state: State
    var pktPos: nat
    var expectedRemaining: nat
    var seen: seq<seq<byte>>   // raw frames handed to the packet callback

    ghost predicate Valid()
      reads this, ringBuf, packet
    {
      && ringBuf.Length == MAX_PACKET && packet.payload.Length == MAX_PAYLOAD && packet.payload != ringBuf
      && (state.GotAddr? ==> pktPos == 1)
      && (state.Reading? ==>
            && 2 <= pktPos < 2 + ToNat(ringBuf[1]) && GoodLength(ringBuf[1])
            && expectedRemaining == 2 + ToNat(ringBuf[1]) - pktPos)
    }

    /** The bytes of the frame in progress. */
    ghost function Pending(): (p: seq<byte>)
      requires Valid()
      reads this, ringBuf, packet
      ensures Cut(p) == None
    {
      hide ToNat;
      if state.Idle? then [] else ringBuf[..pktPos]
    }

    constructor ()
      ensures Valid() && Pending() == [] && seen == []
      ensures fresh(ringBuf) && fresh(packet) && fresh(packet.payload)
    {
      ringBuf := new byte[MAX_PACKET](_ => 0);
      packet := new PacketBuffer();
      state, pktPos, expectedRemaining, seen := Idle, 0, 0, [];
    }

    /** One turn of the loop of `orion_sniffer_run`, on one byte read. */
    method Feed(b: byte)
      requires Valid()
      modifies this, ringBuf, packet, packet.payload
      ensures Valid()
      ensures Pending() == Rest(old(Pending()) + [b])
      ensures seen == old(seen) + Delivered(Segments(old(Pending()) + [b]))
    {
      hide Crc8, ToNat, Parse;
      ghost var before := Pending();
      OneMoreByte(before, b);
      match state
      case Idle =>
        ringBuf[0] := b;
        pktPos := 1;
        state := GotAddr;
        assert Pending() == before + [b];
      case GotAddr =>
        ringBuf[1] := b;
        pktPos := 2;
        assert ringBuf[..2] == before + [b];
        if ToNat(b) == 0 || ToNat(b) > MAX_PAYLOAD + 1 {
          state := Idle;
        } else {
          expectedRemaining := ToNat(b);
          state := Reading;
        }
        assert Delivered([before + [b]]) == [] by { TooShort(before + [b]); }
      case Reading =>
        Read(b);
    }

    /** The third state: payload and CRC bytes, until the announced length is reached. */
    method Read(b: byte)
      requires Valid() && state.Reading?
      modifies this, ringBuf, packet, packet.payload
      ensures Valid()
      ensures Pending() == Rest(old(Pending()) + [b])
      ensures seen == old(seen) + Delivered(Segments(old(Pending()) + [b]))
    {
      hide Crc8, ToNat, Parse, Segments, Rest;
      ghost var now := Pending() + [b];
      OneMoreByte(Pending(), b);
      ringBuf[pktPos] := b;
      pktPos := pktPos + 1;
      expectedRemaining := expectedRemaining - 1;
      assert ringBuf[..pktPos] == now;
      if expectedRemaining == 0 {
        assert WellFormed(now);
        One(now);
        var ok := packet.ParseFrom(ringBuf, pktPos);
        if ok == 0 {
          seen := seen + [ringBuf[..pktPos]];
        }
        state := Idle;
        pktPos := 0;
      }
      if pktPos >= MAX_PACKET {
        assert false;   // the length byte bounds the frame, the buffer cannot overflow
      }
    }

    lemma TooShort(s: seq<byte>)
      requires |s| == 2
      ensures Delivered([s]) == []
    {}

    lemma One(s: seq<byte>)
      ensures Delivered([s]) == if Intact(s) then [s] else []
    {}

    /** `orion_sniffer_run` over the bytes read until it is stopped; read timeouts change nothing. */
    method Run(input: seq<byte>)
      requires Valid()
      modifies this, ringBuf, packet, packet.payload
      ensures Valid()
      ensures Pending() == Rest(old(Pending()) + input)
      ensures seen == old(seen) + Delivered(Segments(old(Pending()) + input))
    {
      hide Valid, Intact, Cut, Segments, Rest;
      ghost var start := Pending();
      PendingIsIncomplete();
      assert start + input[..0] == start;
      for i := 0 to |input|
        invariant Valid()
        invariant Pending() == Rest(start + input[..i])
        invariant seen == old(seen) + Delivered(Segments(start + input[..i]))
      {
        var fed := start + input[..i];
        Feed(input[i]);
        assert start + input[..i + 1] == fed + [input[i]];
        SplitAnywhere(fed, [input[i]]);
        DeliveredOfConcat(Segments(fed), Segments(Rest(fed) + [input[i]]));
      }
      assert input[..|input|] == input;
    }

    lemma PendingIsIncomplete()
      requires Valid()
      ensures Segments(Pending()) == [] && Rest(Pending()) == Pending()
    {}
  }
}
