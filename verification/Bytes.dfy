/** Bytes, the XOR mask used as the Orion cipher, and the wrapping 32-bit clocks. */
module Bytes {

  type byte = bv8

  datatype Option<+T> = None | Some(value: T)

  const TWO_TO_THE_32: int := 0x1_0000_0000

  /** A C `uint32_t`; arithmetic on it is written out modulo 2^32. */
  type uint32 = x: int | 0 <= x < TWO_TO_THE_32

  /** What `millis()` or `micros()` reads after `t` real ticks. */
  function Ticks(t: nat): uint32 {
    t % TWO_TO_THE_32
  }

  /** The unsigned difference `now - since`. */
  function Elapsed(now: uint32, since: uint32): uint32 {
    (now - since) % TWO_TO_THE_32
  }

  /** The unsigned difference of two clock readings is the real time between them, modulo 2^32. */
  lemma ElapsedIsRealTime(t: nat, since: nat)
    requires since <= t
    ensures Elapsed(Ticks(t), Ticks(since)) == (t - since) % TWO_TO_THE_32
    ensures Elapsed(Ticks(t), Ticks(since)) <= t - since
  {
    var a, b := t / TWO_TO_THE_32, since / TWO_TO_THE_32;
    assert Ticks(t) - Ticks(since) == t - since - (a - b) * TWO_TO_THE_32;
    ModShift(t - since, a - b);
  }

  lemma ModShift(x: int, k: int)
    ensures (x - k * TWO_TO_THE_32) % TWO_TO_THE_32 == x % TWO_TO_THE_32
  {
    var q, r := x / TWO_TO_THE_32, x % TWO_TO_THE_32;
    assert x - k * TWO_TO_THE_32 == (q - k) * TWO_TO_THE_32 + r;
  }

  /** A received byte and the clock when it was read. */
  datatype Timed = Timed(value: byte, at: uint32)

  /** The value of a byte. */
  function ToNat(b: byte): (n: nat)
    ensures n < 256
  {
    b as nat
  }

  /** A bit vector holds the value it was made from. */
  lemma Conversion(n: int)
    requires 0 <= n < 256
    ensures (n as bv8) as int == n
  {
    assert n % 256 == n;
  }

  /** The byte of a value. */
  function ToByte(n: nat): (b: byte)
    requires n < 256
    ensures ToNat(b) == n
  {
    Conversion(n);
    n as byte
  }

  lemma ToByteOfToNat(b: byte)
    ensures ToByte(ToNat(b)) == b
  {}

  lemma ToNatInjective(a: byte, b: byte)
    requires ToNat(a) == ToNat(b)
    ensures a == b
  {
    ToByteOfToNat(a);
    ToByteOfToNat(b);
  }

  lemma ToNatOrder(a: byte, b: byte)
    ensures a <= b <==> ToNat(a) <= ToNat(b)
    ensures a < b <==> ToNat(a) < ToNat(b)
  {}

  function Xor(a: byte, b: byte): byte {
    a ^ b
  }

  lemma XorTwice(a: byte, key: byte)
    ensures Xor(Xor(a, key), key) == a
    ensures Xor(key, key) == 0
    ensures Xor(a, key) == Xor(key, a)
  {}

  /** Every byte XOR-ed with one key. */
  function Mask(s: seq<byte>, key: byte): (m: seq<byte>)
    ensures |m| == |s|
    ensures forall i :: 0 <= i < |s| ==> m[i] == Xor(s[i], key)
  {
    seq(|s|, i requires 0 <= i < |s| => Xor(s[i], key))
  }

  function Repeat(b: byte, n: nat): (s: seq<byte>)
    ensures |s| == n
    ensures forall i :: 0 <= i < n ==> s[i] == b
  {
    seq(n, _ => b)
  }

  lemma PlusAssociative<T>(a: seq<T>, b: seq<T>, c: seq<T>)
    ensures (a + b) + c == a + (b + c)
  {}

  lemma TakeDrop<T>(s: seq<T>, k: nat)
    requires k <= |s|
    ensures s[..k] + s[k..] == s
  {}
}
