/** Cutting a byte stream into frames by the length byte: the reference both framers are held to. */
module Framing {
  import opened Bytes
  import opened Crc
  import opened Frames

  /** A length byte a frame can have. */
  predicate GoodLength(b: byte) {
    1 <= ToNat(b) <= MAX_PAYLOAD + 1
  }

  /** The size of the first segment of a stream, if it is complete: a frame, or a two-byte bad header. */
  function Cut(s: seq<byte>): (k: Option<nat>)
    ensures k.Some? ==> 2 <= k.value <= |s|
  {
    if |s| < 2 then None
    else if !GoodLength(s[1]) then Some(2)
    else if |s| < 2 + ToNat(s[1]) then None
    else Some(2 + ToNat(s[1]))
  }

  function Segments(s: seq<byte>): seq<seq<byte>> {
    match Cut(s)
    case None => []
    case Some(k) => [s[..k]] + Segments(s[k..])
  }

  /** What is left incomplete. */
  function Rest(s: seq<byte>): seq<byte> {
    match Cut(s)
    case None => s
    case Some(k) => Rest(s[k..])
  }

  function Concat(segments: seq<seq<byte>>): seq<byte> {
    if segments == [] then [] else segments[0] + Concat(segments[1..])
  }

  /** A segment that is a frame with a good checksum. */
  predicate Intact(segment: seq<byte>) {
    WellFormed(segment) && Parse(segment).Some?
  }

  function Delivered(segments: seq<seq<byte>>): seq<seq<byte>> {
    if segments == [] then []
    else (if Intact(segments[0]) then [segments[0]] else []) + Delivered(segments[1..])
  }

  /** Exactly the segments of a frame's size whose CRC comes to 0 are delivered. */
  lemma {:induction false} DeliveredIff(segments: seq<seq<byte>>, f: seq<byte>)
    ensures f in Delivered(segments) <==> f in segments && WellFormed(f) && Crc8(f) == 0
  {
    if segments != [] {
      hide Crc8, WellFormed, Intact;
      DeliveredIff(segments[1..], f);
      IntactByCrc(segments[0]);
      assert segments == segments[..1] + segments[1..];
    }
  }

  lemma IntactByCrc(f: seq<byte>)
    ensures Intact(f) <==> WellFormed(f) && Crc8(f) == 0
  {
    hide Crc8, ToNat;
    if WellFormed(f) {
      AcceptedIffZero(f);
    }
  }

  lemma FirstSegment(s: seq<byte>)
    ensures Cut(s).None? ==> Segments(s) == [] && Rest(s) == s
    ensures Cut(s).Some? ==>
              var k := Cut(s).value; Segments(s) == [s[..k]] + Segments(s[k..]) && Rest(s) == Rest(s[k..])
  {
    hide Cut;
  }

  lemma ConcatOfFirst(segment: seq<byte>, rest: seq<seq<byte>>)
    ensures Concat([segment] + rest) == segment + Concat(rest)
  {
    assert ([segment] + rest)[1..] == rest;
  }

  /** Every byte is accounted for: delivered frames, discarded segments and the buffered rest, in order. */
  lemma {:induction false} AllBytesAccounted(s: seq<byte>)
    ensures Concat(Segments(s)) + Rest(s) == s
    ensures Cut(Rest(s)) == None
  {
    FirstSegment(s);
    if Cut(s).Some? {
      hide Cut, Segments, Rest, Concat;
      var k := Cut(s).value;
      AllBytesAccounted(s[k..]);
      ConcatOfFirst(s[..k], Segments(s[k..]));
      PlusAssociative(s[..k], Concat(Segments(s[k..])), Rest(s));
      TakeDrop(s, k);
    }
  }

  lemma CutOfExtension(s: seq<byte>, t: seq<byte>)
    requires Cut(s).Some?
    ensures Cut(s + t) == Cut(s)
  {
    hide GoodLength, ToNat;
  }

  /** Feeding `a + b` is feeding `a`, then `b` after what `a` left over. */
  lemma {:induction false} SplitAnywhere(a: seq<byte>, b: seq<byte>)
    ensures Segments(a + b) == Segments(a) + Segments(Rest(a) + b)
    ensures Rest(a + b) == Rest(Rest(a) + b)
    decreases |a|
  {
    hide GoodLength, ToNat;
    if Cut(a).Some? {
      var k := Cut(a).value;
      CutOfExtension(a, b);
      assert (a + b)[..k] == a[..k] && (a + b)[k..] == a[k..] + b;
      SplitAnywhere(a[k..], b);
      assert [a[..k]] + (Segments(a[k..]) + Segments(Rest(a) + b)) == Segments(a) + Segments(Rest(a) + b);
    }
  }

  lemma {:induction false} DeliveredOfConcat(a: seq<seq<byte>>, b: seq<seq<byte>>)
    ensures Delivered(a + b) == Delivered(a) + Delivered(b)
  {
    hide Intact;
    if a == [] {
      assert a + b == b;
    } else {
      assert (a + b)[1..] == a[1..] + b;
      DeliveredOfConcat(a[1..], b);
    }
  }

  /** Frames of good length, concatenated, come apart again. */
  lemma {:induction false} SegmentsOfConcat(frames: seq<seq<byte>>)
    requires forall i :: 0 <= i < |frames| ==> WellFormed(frames[i])
    ensures Segments(Concat(frames)) == frames && Rest(Concat(frames)) == []
  {
    hide ToNat;
    if frames == [] {
    } else {
      var f, rest := frames[0], Concat(frames[1..]);
      assert (f + rest)[..|f|] == f && (f + rest)[|f|..] == rest;
      SegmentsOfConcat(frames[1..]);
    }
  }

  /** Any list of intact frames is delivered exactly. */
  lemma {:induction false} IntactFramesDelivered(frames: seq<seq<byte>>)
    requires forall i :: 0 <= i < |frames| ==> Intact(frames[i])
    ensures Segments(Concat(frames)) == frames && Rest(Concat(frames)) == []
    ensures Delivered(Segments(Concat(frames))) == frames
  {
    SegmentsOfConcat(frames);
    hide Intact, Segments;
    AllIntact(frames);
  }

  lemma {:induction false} AllIntact(frames: seq<seq<byte>>)
    requires forall i :: 0 <= i < |frames| ==> Intact(frames[i])
    ensures Delivered(frames) == frames
  {
    hide Intact;
    if frames != [] {
      AllIntact(frames[1..]);
    }
  }

  lemma CutOneMoreByte(rest: seq<byte>, b: byte)
    requires Cut(rest) == None
    ensures Cut(rest + [b]) == None || Cut(rest + [b]) == Some(|rest| + 1)
  {
    hide GoodLength, ToNat;
    var s := rest + [b];
    assert |rest| >= 2 ==> s[1] == rest[1];
  }

  /** One more byte after an incomplete rest completes nothing, or all of it. */
  lemma OneMoreByte(rest: seq<byte>, b: byte)
    requires Cut(rest) == None
    ensures Cut(rest + [b]) == None || Cut(rest + [b]) == Some(|rest| + 1)
    ensures Segments(rest + [b]) == if Cut(rest + [b]).Some? then [rest + [b]] else []
    ensures Rest(rest + [b]) == if Cut(rest + [b]).Some? then [] else rest + [b]
  {
    hide Cut;
    CutOneMoreByte(rest, b);
    var s := rest + [b];
    if Cut(s).Some? {
      assert s[..|s|] == s && s[|s|..] == [];
      assert Cut([]) == None by { CutOfNothing(); }
      assert Segments([]) == [];
    }
  }

  lemma CutOfNothing()
    ensures Cut([]) == None
  {}
}
