/** CRC-8 of the Orion bus: the lookup table as written, against bit-serial division. */
module Crc {
  import opened Bytes

  /** Selects one of the sixteen entries of a table row. */
  function Row(k: byte, c0: byte, c1: byte, c2: byte, c3: byte, c4: byte, c5: byte, c6: byte, c7: byte,
               c8: byte, c9: byte, cA: byte, cB: byte, cC: byte, cD: byte, cE: byte, cF: byte): byte
  {
    if k == 0 then c0 else if k == 1 then c1 else if k == 2 then c2 else if k == 3 then c3 else if k == 4 then c4 else
    if k == 5 then c5 else if k == 6 then c6 else if k == 7 then c7 else if k == 8 then c8 else if k == 9 then c9 else
    if k == 10 then cA else if k == 11 then cB else if k == 12 then cC else if k == 13 then cD else
    if k == 14 then cE else cF
  }

  /** The table, entry 0xF9 included as it stands (0xFC, where division gives 0xE8). */
  function Table(i: byte): byte {
    var k := i & 0x0F;
    match i >> 4
    case 0 => Row(k, 0x00, 0x5E, 0xBC, 0xE2, 0x61, 0x3F, 0xDD, 0x83, 0xC2, 0x9C, 0x7E, 0x20, 0xA3, 0xFD, 0x1F, 0x41)
    case 1 => Row(k, 0x9D, 0xC3, 0x21, 0x7F, 0xFC, 0xA2, 0x40, 0x1E, 0x5F, 0x01, 0xE3, 0xBD, 0x3E, 0x60, 0x82, 0xDC)
    case 2 => Row(k, 0x23, 0x7D, 0x9F, 0xC1, 0x42, 0x1C, 0xFE, 0xA0, 0xE1, 0xBF, 0x5D, 0x03, 0x80, 0xDE, 0x3C, 0x62)
    case 3 => Row(k, 0xBE, 0xE0, 0x02, 0x5C, 0xDF, 0x81, 0x63, 0x3D, 0x7C, 0x22, 0xC0, 0x9E, 0x1D, 0x43, 0xA1, 0xFF)
    case 4 => Row(k, 0x46, 0x18, 0xFA, 0xA4, 0x27, 0x79, 0x9B, 0xC5, 0x84, 0xDA, 0x38, 0x66, 0xE5, 0xBB, 0x59, 0x07)
    case 5 => Row(k, 0xDB, 0x85, 0x67, 0x39, 0xBA, 0xE4, 0x06, 0x58, 0x19, 0x47, 0xA5, 0xFB, 0x78, 0x26, 0xC4, 0x9A)
    case 6 => Row(k, 0x65, 0x3B, 0xD9, 0x87, 0x04, 0x5A, 0xB8, 0xE6, 0xA7, 0xF9, 0x1B, 0x45, 0xC6, 0x98, 0x7A, 0x24)
    case 7 => Row(k, 0xF8, 0xA6, 0x44, 0x1A, 0x99, 0xC7, 0x25, 0x7B, 0x3A, 0x64, 0x86, 0xD8, 0x5B, 0x05, 0xE7, 0xB9)
    case 8 => Row(k, 0x8C, 0xD2, 0x30, 0x6E, 0xED, 0xB3, 0x51, 0x0F, 0x4E, 0x10, 0xF2, 0xAC, 0x2F, 0x71, 0x93, 0xCD)
    case 9 => Row(k, 0x11, 0x4F, 0xAD, 0xF3, 0x70, 0x2E, 0xCC, 0x92, 0xD3, 0x8D, 0x6F, 0x31, 0xB2, 0xEC, 0x0E, 0x50)
    case 10 => Row(k, 0xAF, 0xF1, 0x13, 0x4D, 0xCE, 0x90, 0x72, 0x2C, 0x6D, 0x33, 0xD1, 0x8F, 0x0C, 0x52, 0xB0, 0xEE)
    case 11 => Row(k, 0x32, 0x6C, 0x8E, 0xD0, 0x53, 0x0D, 0xEF, 0xB1, 0xF0, 0xAE, 0x4C, 0x12, 0x91, 0xCF, 0x2D, 0x73)
    case 12 => Row(k, 0xCA, 0x94, 0x76, 0x28, 0xAB, 0xF5, 0x17, 0x49, 0x08, 0x56, 0xB4, 0xEA, 0x69, 0x37, 0xD5, 0x8B)
    case 13 => Row(k, 0x57, 0x09, 0xEB, 0xB5, 0x36, 0x68, 0x8A, 0xD4, 0x95, 0xCB, 0x29, 0x77, 0xF4, 0xAA, 0x48, 0x16)
    case 14 => Row(k, 0xE9, 0xB7, 0x55, 0x0B, 0x88, 0xD6, 0x34, 0x6A, 0x2B, 0x75, 0x97, 0xC9, 0x4A, 0x14, 0xF6, 0xA8)
    case _ => Row(k, 0x74, 0x2A, 0xC8, 0x96, 0x15, 0x4B, 0xA9, 0xF7, 0xB6, 0xFC, 0x0A, 0x54, 0xD7, 0x89, 0x6B, 0x35)
  }

  const DEFECT: byte := 0xF9

  /** One byte of input: `crc = crc_table[crc ^ data[i]]`. */
  function Step(crc: byte, b: byte): byte {
    Table(crc ^ b)
  }

  function Crc8(data: seq<byte>): byte {
    if data == [] then 0
    else Step(Crc8(data[..|data| - 1]), data[|data| - 1])
  }

  /** The loop of `orion_crc8`. */
  method Compute(data: array<byte>, length: nat) returns (crc: byte)
    requires length <= data.Length
    ensures crc == Crc8(data[..length])
  {
    crc := 0;
    for i := 0 to length
      invariant crc == Crc8(data[..i])
    {
      assert data[..i + 1][..i] == data[..i];
      crc := Step(crc, data[i]);
    }
  }

  lemma Crc8Last(data: seq<byte>, b: byte)
    ensures Crc8(data + [b]) == Step(Crc8(data), b)
  {
    hide Step;
    assert (data + [b])[..|data|] == data;
  }

  // --- The reference: a reflected shift register for x^8 + x^5 + x^4 + 1 ---

  /** One message bit enters the register. */
  function Feed(crc: byte, bit: byte): byte {
    if (crc ^ bit) & 1 == 1 then (crc >> 1) ^ 0x8C else crc >> 1
  }

  /** The low `n` bits of a byte enter, least significant first. */
  function FeedBits(crc: byte, b: byte, n: nat): byte
    decreases n
  {
    if n == 0 then crc else FeedBits(Feed(crc, b & 1), b >> 1, n - 1)
  }

  function FeedByte(crc: byte, b: byte): byte {
    FeedBits(crc, b, 8)
  }

  function Division(data: seq<byte>): byte {
    if data == [] then 0
    else FeedByte(Division(data[..|data| - 1]), data[|data| - 1])
  }

  // --- The table, slot by slot ---

  /** Eight shifts of the register with no message bits entering. */
  function Remainder(c: byte): byte {
    Feed(Feed(Feed(Feed(Feed(Feed(Feed(Feed(c, 0), 0), 0), 0), 0), 0), 0), 0)
  }

  lemma RemainderIsFeed(c: byte)
    ensures Remainder(c) == FeedBits(c, 0, 8)
  {
    hide Feed;
    assert (0 as byte) & 1 == 0 && (0 as byte) >> 1 == 0;
  }

  lemma TableRow0(i: byte)
    requires i >> 4 == 0
    ensures Table(i) == Remainder(i)
  {}

  lemma TableRow1(i: byte)
    requires i >> 4 == 1
    ensures Table(i) == Remainder(i)
  {}

  lemma TableRow2(i: byte)
    requires i >> 4 == 2
    ensures Table(i) == Remainder(i)
  {}

  lemma TableRow3(i: byte)
    requires i >> 4 == 3
    ensures Table(i) == Remainder(i)
  {}

  lemma TableRow4(i: byte)
    requires i >> 4 == 4
    ensures Table(i) == Remainder(i)
  {}

  lemma TableRow5(i: byte)
    requires i >> 4 == 5
    ensures Table(i) == Remainder(i)
  {}

  lemma TableRow6(i: byte)
    requires i >> 4 == 6
    ensures Table(i) == Remainder(i)
  {}

  lemma TableRow7(i: byte)
    requires i >> 4 == 7
    ensures Table(i) == Remainder(i)
  {}

  lemma TableRow8(i: byte)
    requires i >> 4 == 8
    ensures Table(i) == Remainder(i)
  {}

  lemma TableRow9(i: byte)
    requires i >> 4 == 9
    ensures Table(i) == Remainder(i)
  {}

  lemma TableRowA(i: byte)
    requires i >> 4 == 10
    ensures Table(i) == Remainder(i)
  {}

  lemma TableRowB(i: byte)
    requires i >> 4 == 11
    ensures Table(i) == Remainder(i)
  {}

  lemma TableRowC(i: byte)
    requires i >> 4 == 12
    ensures Table(i) == Remainder(i)
  {}

  lemma TableRowD(i: byte)
    requires i >> 4 == 13
    ensures Table(i) == Remainder(i)
  {}

  lemma TableRowE(i: byte)
    requires i >> 4 == 14
    ensures Table(i) == Remainder(i)
  {}

  lemma TableRowF(i: byte)
    requires i >> 4 == 15 && i != DEFECT
    ensures Table(i) == Remainder(i)
  {}

  lemma DefectSlot()
    ensures DEFECT >> 4 == 15 && Table(DEFECT) == 0xFC && Remainder(DEFECT) == 0xE8
  {}

  lemma LowRows(i: byte)
    requires i >> 4 < 8
    ensures Table(i) == Remainder(i)
  {
    hide Table, Remainder;
    if i >> 4 == 0 { TableRow0(i); }
    else if i >> 4 == 1 { TableRow1(i); }
    else if i >> 4 == 2 { TableRow2(i); }
    else if i >> 4 == 3 { TableRow3(i); }
    else if i >> 4 == 4 { TableRow4(i); }
    else if i >> 4 == 5 { TableRow5(i); }
    else if i >> 4 == 6 { TableRow6(i); }
    else { TableRow7(i); }
  }

  lemma HighRows(i: byte)
    requires 8 <= i >> 4 < 16
    ensures i != DEFECT ==> Table(i) == Remainder(i)
    ensures i == DEFECT ==> Table(i) == 0xFC && Remainder(i) == 0xE8
  {
    hide Table, Remainder;
    if i >> 4 == 8 { TableRow8(i); }
    else if i >> 4 == 9 { TableRow9(i); }
    else if i >> 4 == 10 { TableRowA(i); }
    else if i >> 4 == 11 { TableRowB(i); }
    else if i >> 4 == 12 { TableRowC(i); }
    else if i >> 4 == 13 { TableRowD(i); }
    else if i >> 4 == 14 { TableRowE(i); }
    else if i == DEFECT { DefectSlot(); }
    else { TableRowF(i); }
  }

  /** Exactly one slot departs from division. */
  lemma TableEntry(i: byte)
    ensures i != DEFECT <==> Table(i) == FeedByte(i, 0)
    ensures i == DEFECT ==> Table(i) == 0xFC && FeedByte(i, 0) == 0xE8
    ensures i == 0x14 ==> Table(i) == 0xFC
  {
    hide Table, FeedBits, Remainder;
    RemainderIsFeed(i);
    if i < 0x80 {
      LowRows(i);
      TableTwin();
    } else {
      HighRows(i);
    }
  }

  lemma TableTwin()
    ensures Table(0x14) == 0xFC
  {}

  lemma FeedBitsZero(c: byte, b: byte)
    ensures FeedBits(c, b, 0) == c
  {}

  lemma FeedBitsStep(c: byte, b: byte, n: nat)
    requires n > 0
    ensures FeedBits(c, b, n) == FeedBits(Feed(c, b & 1), b >> 1, n - 1)
  {}

  lemma FeedShift(c: byte, b: byte, x: byte)
    ensures Feed(c ^ x, (b ^ x) & 1) == Feed(c, b & 1) ^ (x >> 1)
    ensures (b ^ x) >> 1 == (b >> 1) ^ (x >> 1)
  {}

  /** Only the low `n` bits of `x` may be set. */
  predicate Fits(x: byte, n: nat)
    decreases n
  {
    if n == 0 then x == 0 else Fits(x >> 1, n - 1)
  }

  lemma FitsEight(x: byte)
    ensures Fits(x, 8)
  {}

  /** Register and incoming bits differ from another pair by the same mask. */
  predicate Offset(c: byte, b: byte, cx: byte, bx: byte, x: byte) {
    cx == c ^ x && bx == b ^ x
  }

  lemma OffsetStep(c: byte, b: byte, cx: byte, bx: byte, x: byte)
    requires Offset(c, b, cx, bx, x)
    ensures Offset(Feed(c, b & 1), b >> 1, Feed(cx, bx & 1), bx >> 1, x >> 1)
  {
    FeedShift(c, b, x);
  }

  /** Register and incoming bits may exchange a mask of as many bits as are still to come. */
  lemma {:induction false} FeedBitsShift(c: byte, b: byte, cx: byte, bx: byte, x: byte, n: nat)
    requires Fits(x, n) && Offset(c, b, cx, bx, x)
    ensures FeedBits(cx, bx, n) == FeedBits(c, b, n)
    decreases n
  {
    if n == 0 {
    } else {
      hide Feed, Offset;
      OffsetStep(c, b, cx, bx, x);
      FeedBitsShift(Feed(c, b & 1), b >> 1, Feed(cx, bx & 1), bx >> 1, x >> 1, n - 1);
    }
  }

  /** A byte entering the register may be added to it beforehand. */
  lemma FeedByteOfXor(crc: byte, b: byte, i: byte)
    requires i == crc ^ b
    ensures FeedByte(crc, b) == FeedByte(i, 0)
  {
    hide FeedBits;
    FitsEight(b);
    FeedBitsShift(crc, b, i, 0, b, 8);
  }

  lemma FeedLinear(c: byte, x: byte, d: byte, y: byte, cd: byte, xy: byte)
    requires cd == Xor(c, d) && xy == Xor(x, y)
    ensures Feed(cd, xy & 1) == Xor(Feed(c, x & 1), Feed(d, y & 1))
    ensures xy >> 1 == Xor(x >> 1, y >> 1)
  {}

  lemma {:induction false} FeedBitsLinear(c: byte, x: byte, d: byte, y: byte, n: nat, cd: byte, xy: byte)
    requires cd == Xor(c, d) && xy == Xor(x, y)
    ensures FeedBits(cd, xy, n) == Xor(FeedBits(c, x, n), FeedBits(d, y, n))
    decreases n
  {
    hide Feed, Xor;
    if n > 0 {
      FeedLinear(c, x, d, y, cd, xy);
      FeedBitsLinear(Feed(c, x & 1), x >> 1, Feed(d, y & 1), y >> 1, n - 1, Feed(cd, xy & 1), xy >> 1);
    }
  }

  /** No shift loses information. */
  lemma FeedInjective(c: byte, d: byte)
    requires Feed(c, 0) == Feed(d, 0)
    ensures c == d
  {}

  lemma {:induction false} FeedBitsInjective(i: byte, j: byte, n: nat)
    requires FeedBits(i, 0, n) == FeedBits(j, 0, n)
    ensures i == j
    decreases n
  {
    hide *;
    if n == 0 {
      FeedBitsZero(i, 0);
      FeedBitsZero(j, 0);
    } else {
      FeedBitsStep(i, 0, n);
      FeedBitsStep(j, 0, n);
      assert (0 as byte) & 1 == 0 && (0 as byte) >> 1 == 0;
      FeedBitsInjective(Feed(i, 0), Feed(j, 0), n - 1);
      FeedInjective(i, j);
    }
  }

  /** The two slots that hold the same entry. */
  predicate Colliding(i: byte, j: byte) {
    (i == 0x14 && j == DEFECT) || (i == DEFECT && j == 0x14)
  }

  /** The table is injective but for the one pair. */
  lemma TableCollisions(i: byte, j: byte)
    ensures Table(i) == Table(j) <==> i == j || Colliding(i, j)
  {
    hide Table, FeedBits;
    TableEntry(i);
    TableEntry(j);
    TableEntry(0x14);
    if Table(i) == Table(j) && i != j {
      if i != DEFECT && j != DEFECT {
        FeedBitsInjective(i, j, 8);
      } else {
        FeedBitsInjective(if i == DEFECT then j else i, 0x14, 8);
      }
    }
  }

  lemma StepZero(crc: byte, b: byte)
    ensures Step(crc, b) == 0 <==> crc == b
  {
    hide Table;
    TableCollisions(crc ^ b, 0);
    assert Table(0) == 0 by { TableEntryZero(); }
  }

  lemma TableEntryZero()
    ensures Table(0) == 0
  {}

  /** Appending the right checksum, and only that, brings the checksum of the whole to zero. */
  lemma Crc8Sealed(data: seq<byte>, c: byte)
    ensures Crc8(data + [c]) == 0 <==> c == Crc8(data)
  {
    hide Step;
    Crc8Last(data, c);
    StepZero(Crc8(data), c);
  }

  // --- Table form against division ---

  predicate AtDefect(crc: byte, b: byte) {
    crc ^ b == DEFECT
  }

  /** The run over `data` never looks up the defective slot. */
  predicate AvoidsDefect(data: seq<byte>) {
    data == [] ||
    (AvoidsDefect(data[..|data| - 1]) && !AtDefect(Crc8(data[..|data| - 1]), data[|data| - 1]))
  }

  lemma StepIsDivision(crc: byte, b: byte)
    ensures !AtDefect(crc, b) <==> Step(crc, b) == FeedByte(crc, b)
  {
    hide Table, FeedByte;
    TableEntry(crc ^ b);
    FeedByteOfXor(crc, b, crc ^ b);
  }

  /** The checksum agrees with division on every prefix exactly when the run avoids the defect. */
  lemma {:induction false} TableRefinesDivision(data: seq<byte>)
    ensures (forall n :: 0 <= n <= |data| ==> Crc8(data[..n]) == Division(data[..n])) <==> AvoidsDefect(data)
    ensures AvoidsDefect(data) ==> Crc8(data) == Division(data)
  {
    hide Step, FeedByte, AtDefect;
    if data == [] {
    } else {
      var k := |data| - 1;
      var init, last := data[..k], data[k];
      TableRefinesDivision(init);
      StepIsDivision(Crc8(init), last);
      assert init[..k] == init;
      assert data[..|data|] == data;
      forall n | 0 <= n <= k
        ensures init[..n] == data[..n]
      {}
      if !AvoidsDefect(init) {
        var n :| 0 <= n <= k && Crc8(init[..n]) != Division(init[..n]);
        assert Crc8(data[..n]) != Division(data[..n]);
      } else {
        assert Crc8(data) == Step(Crc8(init), last) && Division(data) == FeedByte(Division(init), last);
        forall n | 0 <= n <= k
          ensures Crc8(data[..n]) == Division(data[..n])
        {
          assert Crc8(init[..n]) == Division(init[..n]);
        }
      }
    }
  }

  function XorBytes(a: seq<byte>, b: seq<byte>): (c: seq<byte>)
    requires |a| == |b|
    ensures |c| == |a|
    ensures forall i :: 0 <= i < |a| ==> c[i] == Xor(a[i], b[i])
  {
    seq(|a|, i requires 0 <= i < |a| => Xor(a[i], b[i]))
  }

  lemma FeedByteLinear(c: byte, x: byte, d: byte, y: byte, cd: byte, xy: byte)
    requires cd == Xor(c, d) && xy == Xor(x, y)
    ensures FeedByte(cd, xy) == Xor(FeedByte(c, x), FeedByte(d, y))
  {
    hide FeedBits;
    FeedBitsLinear(c, x, d, y, 8, cd, xy);
  }

  /** What a look-up of the defective slot adds to the register. */
  function Excess(hit: bool): byte {
    if hit then 0x14 else 0
  }

  lemma EntryExcess(i: byte)
    ensures Table(i) == Xor(FeedByte(i, 0), Excess(i == DEFECT))
  {
    hide Table, FeedByte;
    TableEntry(i);
  }

  lemma StepExcess(crc: byte, b: byte)
    ensures Step(crc, b) == Xor(FeedByte(crc, b), Excess(AtDefect(crc, b)))
  {
    hide Table, FeedByte, Excess, Xor;
    EntryExcess(crc ^ b);
    FeedByteOfXor(crc, b, crc ^ b);
  }

  /** The run over `data` looks up the defective slot at position `n`. */
  predicate Hits(data: seq<byte>, n: nat)
    requires n < |data|
  {
    AtDefect(Crc8(data[..n]), data[n])
  }

  /** The run over `a`, the run over `b` and the run over their XOR: an odd number of them hits at `n`. */
  predicate OddHits(a: seq<byte>, b: seq<byte>, n: nat)
    requires n < |a| == |b|
  {
    (Hits(a, n) != Hits(b, n)) != Hits(XorBytes(a, b), n)
  }

  predicate LinearAt(a: seq<byte>, b: seq<byte>, n: nat)
    requires n <= |a| == |b|
  {
    Crc8(XorBytes(a, b)[..n]) == Xor(Crc8(a[..n]), Crc8(b[..n]))
  }

  lemma XorMoves(a: byte, b: byte, c: byte)
    ensures Xor(Xor(a, b), c) == Xor(a, Xor(b, c))
    ensures Xor(a, b) == Xor(b, a)
  {}

  lemma XorRegroup(f: byte, g: byte, a: byte, b: byte)
    ensures Xor(Xor(f, a), Xor(g, b)) == Xor(Xor(f, g), Xor(a, b))
  {
    hide Xor;
    XorMoves(f, a, Xor(g, b));
    XorMoves(a, g, b);
    XorMoves(g, a, b);
    XorMoves(f, g, Xor(a, b));
  }

  lemma XorCancel(z: byte, a: byte, b: byte)
    ensures Xor(z, a) == Xor(z, b) <==> a == b
  {}

  lemma ExcessesAdd(p: bool, q: bool)
    ensures Xor(Excess(p), Excess(q)) == Excess(p != q)
    ensures Excess(p) == Excess(q) <==> p == q
  {}

  lemma ThreeExcesses(f: byte, g: byte, p: bool, q: bool, r: bool)
    ensures Xor(Xor(f, g), Excess(r)) == Xor(Xor(f, Excess(p)), Xor(g, Excess(q))) <==> (p != q) == r
  {
    hide Xor, Excess;
    XorRegroup(f, g, Excess(p), Excess(q));
    ExcessesAdd(p, q);
    ExcessesAdd(p != q, r);
    XorCancel(Xor(f, g), Excess(r), Excess(p != q));
  }

  /** From a linear step to the next: linear again exactly when an even number of the three runs hits. */
  lemma LinearStep(c: byte, x: byte, d: byte, y: byte, cd: byte, xy: byte)
    requires cd == Xor(c, d) && xy == Xor(x, y)
    ensures Step(cd, xy) == Xor(Step(c, x), Step(d, y)) <==> (AtDefect(c, x) != AtDefect(d, y)) == AtDefect(cd, xy)
  {
    hide Step, FeedByte, AtDefect, Excess, Xor;
    StepExcess(c, x);
    StepExcess(d, y);
    StepExcess(cd, xy);
    FeedByteLinear(c, x, d, y, cd, xy);
    ThreeExcesses(FeedByte(c, x), FeedByte(d, y), AtDefect(c, x), AtDefect(d, y), AtDefect(cd, xy));
  }

  lemma Crc8Prefix(data: seq<byte>, n: nat)
    requires n < |data|
    ensures Crc8(data[..n + 1]) == Step(Crc8(data[..n]), data[n])
  {
    hide Step;
    assert data[..n + 1][..n] == data[..n];
  }

  lemma LinearNext(a: seq<byte>, b: seq<byte>, n: nat)
    requires n < |a| == |b| && LinearAt(a, b, n)
    ensures LinearAt(a, b, n + 1) <==> !OddHits(a, b, n)
  {
    hide Step, Crc8, AtDefect, Xor;
    var x := XorBytes(a, b);
    Crc8Prefix(a, n);
    Crc8Prefix(b, n);
    Crc8Prefix(x, n);
    LinearStep(Crc8(a[..n]), a[n], Crc8(b[..n]), b[n], Crc8(x[..n]), x[n]);
  }

  /**
   * The checksum is XOR-linear on every prefix up to `m` exactly when at no step before does an odd number of
   * the three runs look up the defective slot.
   */
  lemma {:induction false} Crc8Linear(a: seq<byte>, b: seq<byte>, m: nat)
    requires m <= |a| == |b|
    ensures (forall n :: 0 <= n <= m ==> LinearAt(a, b, n)) <==> (forall n: nat :: n < m ==> !OddHits(a, b, n))
    decreases m
  {
    hide LinearAt, OddHits;
    if m == 0 {
      LinearFromStart(a, b);
    } else {
      Crc8Linear(a, b, m - 1);
      if forall n :: 0 <= n <= m - 1 ==> LinearAt(a, b, n) {
        LinearNext(a, b, m - 1);
      }
    }
  }

  lemma LinearFromStart(a: seq<byte>, b: seq<byte>)
    requires |a| == |b|
    ensures LinearAt(a, b, 0)
  {}

  /** Linearity does fail through the defective slot. */
  lemma DefectBreaksLinearity()
    ensures Crc8(XorBytes([0xF8], [0x01])) != Crc8([0xF8]) ^ Crc8([0x01])
  {
    assert XorBytes([0xF8], [0x01]) == [0xF9];
    assert Step(0, 0xF9) == 0xFC && Step(0, 0xF8) == 0xB6 && Step(0, 0x01) == 0x5E;
    assert Crc8([0xF9]) == Step(Crc8([]), 0xF9);
    assert Crc8([0xF8]) == Step(Crc8([]), 0xF8);
    assert Crc8([0x01]) == Step(Crc8([]), 0x01);
  }

  // --- Error detection ---

  /** Number of ones among the low `n` bits. */
  function CountBits(b: byte, n: nat): nat
    decreases n
  {
    if n == 0 then 0 else (if b & 1 == 1 then 1 else 0) + CountBits(b >> 1, n - 1)
  }

  /** Whether the low `n` bits hold an odd number of ones. */
  predicate OddBits(b: byte, n: nat)
    decreases n
  {
    n != 0 && (b & 1 == 1) != OddBits(b >> 1, n - 1)
  }

  function BitCount(b: byte): nat {
    CountBits(b, 8)
  }

  predicate Odd(b: byte) {
    OddBits(b, 8)
  }

  /** Whether a string holds an odd number of ones. */
  predicate OddString(data: seq<byte>) {
    data != [] && OddString(data[..|data| - 1]) != Odd(data[|data| - 1])
  }

  /** Number of bit positions in which two strings differ. */
  function BitDistance(a: seq<byte>, b: seq<byte>): nat
    requires |a| == |b|
  {
    if a == [] then 0
    else BitDistance(a[..|a| - 1], b[..|b| - 1]) + BitCount(a[|a| - 1] ^ b[|b| - 1])
  }

  lemma {:induction false} CountBitsOdd(b: byte, n: nat)
    ensures CountBits(b, n) % 2 == 1 <==> OddBits(b, n)
    decreases n
  {
    if n > 0 {
      CountBitsOdd(b >> 1, n - 1);
    }
  }

  lemma XorBit(a: byte, b: byte)
    ensures (a ^ b) & 1 == 1 <==> (a & 1 == 1) != (b & 1 == 1)
    ensures (a ^ b) >> 1 == (a >> 1) ^ (b >> 1)
  {}

  lemma {:induction false} OddBitsXor(a: byte, b: byte, n: nat, ab: byte)
    requires ab == a ^ b
    ensures OddBits(ab, n) <==> OddBits(a, n) != OddBits(b, n)
    decreases n
  {
    if n > 0 {
      XorBit(a, b);
      OddBitsXor(a >> 1, b >> 1, n - 1, ab >> 1);
    }
  }

  lemma DifferenceOdd(a: byte, b: byte)
    ensures BitCount(a ^ b) % 2 == 1 <==> Odd(a) != Odd(b)
  {
    hide CountBits, OddBits;
    CountBitsOdd(a ^ b, 8);
    OddBitsXor(a, b, 8, a ^ b);
  }

  /** Each shift keeps the parity, because the divisor has an even number of terms. */
  lemma FeedKeepsParity(c: byte, bit: byte)
    requires bit == 0 || bit == 1
    ensures Odd(Feed(c, bit)) <==> Odd(c) != (bit == 1)
  {}

  lemma {:induction false} FeedBitsKeepsParity(c: byte, b: byte, n: nat)
    ensures Odd(FeedBits(c, b, n)) <==> Odd(c) != OddBits(b, n)
    decreases n
  {
    hide Odd, Feed;
    if n == 0 {
    } else {
      assert b & 1 == 0 || b & 1 == 1;
      FeedKeepsParity(c, b & 1);
      FeedBitsKeepsParity(Feed(c, b & 1), b >> 1, n - 1);
    }
  }

  lemma StepKeepsParity(crc: byte, b: byte)
    ensures Odd(Step(crc, b)) <==> Odd(crc) != Odd(b)
  {
    hide Table, FeedBits, OddBits;
    var i := crc ^ b;
    TableEntry(i);
    OddBitsXor(crc, b, 8, i);
    if i == DEFECT {
      DefectParity();
    } else {
      FeedByteOfXor(crc, b, i);
      FeedBitsKeepsParity(crc, b, 8);
    }
  }

  lemma DefectParity()
    ensures !Odd(0xFC) && !Odd(0xF9)
  {}

  /** The checksum has the bit parity of the whole string, defect included. */
  lemma {:induction false} Crc8Parity(data: seq<byte>)
    ensures Odd(Crc8(data)) <==> OddString(data)
  {
    hide Odd, Step;
    if data == [] {
      assert !Odd(0) by { ZeroIsEven(); }
    } else {
      var k := |data| - 1;
      Crc8Parity(data[..k]);
      StepKeepsParity(Crc8(data[..k]), data[k]);
    }
  }

  lemma ZeroIsEven()
    ensures !Odd(0)
  {}

  lemma {:induction false} OddDistance(a: seq<byte>, b: seq<byte>)
    requires |a| == |b|
    ensures BitDistance(a, b) % 2 == 1 <==> OddString(a) != OddString(b)
  {
    hide Odd, BitCount;
    if a == [] {
    } else {
      var k := |a| - 1;
      OddDistance(a[..k], b[..k]);
      DifferenceOdd(a[k], b[k]);
    }
  }

  /** Any odd number of flipped bits changes the checksum. */
  lemma OddFlipsChangeCrc8(a: seq<byte>, b: seq<byte>)
    requires |a| == |b| && BitDistance(a, b) % 2 == 1
    ensures Crc8(a) != Crc8(b)
  {
    Crc8Parity(a);
    Crc8Parity(b);
    OddDistance(a, b);
  }

  predicate CollidingSteps(c: byte, a: byte, d: byte, b: byte) {
    Colliding(c ^ a, d ^ b)
  }

  lemma XorSides(c: byte, a: byte, d: byte, b: byte, i: byte, j: byte)
    requires i == c ^ a && j == d ^ b
    ensures a == b ==> (i == j <==> c == d)
    ensures c == d ==> (i == j <==> a == b)
  {}

  lemma StepIs(c: byte, a: byte, d: byte, b: byte, i: byte, j: byte)
    requires i == c ^ a && j == d ^ b
    ensures Step(c, a) == Table(i) && Step(d, b) == Table(j)
    ensures CollidingSteps(c, a, d, b) == Colliding(i, j)
  {
    hide Table, Colliding;
  }

  lemma StepCollisions(c: byte, a: byte, d: byte, b: byte, i: byte, j: byte)
    requires i == c ^ a && j == d ^ b
    ensures a == b ==> (Step(c, a) == Step(d, b) <==> c == d || CollidingSteps(c, a, d, b))
    ensures c == d && a != b ==> (Step(c, a) == Step(d, b) <==> CollidingSteps(c, a, d, b))
  {
    hide Table, Step, Colliding, CollidingSteps;
    XorSides(c, a, d, b, i, j);
    StepIs(c, a, d, b, i, j);
    TableCollisions(i, j);
  }

  lemma StepsCompare(c: byte, a: byte, d: byte, b: byte)
    ensures a == b ==> (Step(c, a) == Step(d, b) <==> c == d || CollidingSteps(c, a, d, b))
    ensures c == d && a != b ==> (Step(c, a) == Step(d, b) <==> CollidingSteps(c, a, d, b))
  {
    hide Step, CollidingSteps;
    StepCollisions(c, a, d, b, c ^ a, d ^ b);
  }

  /** At position `n` the two runs look up the two colliding slots. */
  predicate CollideAt(a: seq<byte>, b: seq<byte>, n: nat)
    requires n < |a| == |b|
  {
    CollidingSteps(Crc8(a[..n]), a[n], Crc8(b[..n]), b[n])
  }

  /** A change confined to one byte goes unnoticed exactly when the runs meet in the colliding pair. */
  lemma {:induction false} SingleByteChange(a: seq<byte>, b: seq<byte>, at: nat)
    requires at < |a| == |b| && a[at] != b[at]
    requires forall i :: 0 <= i < |a| && i != at ==> a[i] == b[i]
    ensures Crc8(a) == Crc8(b) <==> exists n: nat :: at <= n < |a| && CollideAt(a, b, n)
  {
    hide Step, CollidingSteps;
    var k := |a| - 1;
    var a', b' := a[..k], b[..k];
    StepsCompare(Crc8(a'), a[k], Crc8(b'), b[k]);
    if at == k {
      assert a' == b';
      assert Crc8(a) == Crc8(b) <==> CollideAt(a, b, k);
    } else {
      SingleByteChange(a', b', at);
      assert Crc8(a) == Crc8(b) <==> Crc8(a') == Crc8(b') || CollideAt(a, b, k);
      forall n: nat | n < k
        ensures CollideAt(a', b', n) == CollideAt(a, b, n)
      {
        assert a'[..n] == a[..n] && b'[..n] == b[..n];
      }
    }
  }
}
