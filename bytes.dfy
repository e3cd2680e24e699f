/** Bytes, powers of two and little-endian integers: the vocabulary shared by the
    register map, the SPI packet sections and the display gate. */
module Bytes {

  /** One octet of the wire format, as the unsigned value it carries. */
  type Byte = b: int | 0 <= b < 256

  function Pow2(n: nat): (r: nat)
    ensures r >= 1
  {
    if n == 0 then 1 else 2 * Pow2(n - 1)
  }

  /** The powers of two that the 32-bit register layouts and the 16-bit
      samples use, spelled out. */
  lemma Pow2Values()
    ensures Pow2(0) == 0x1
    ensures Pow2(1) == 0x2
    ensures Pow2(2) == 0x4
    ensures Pow2(3) == 0x8
    ensures Pow2(4) == 0x10
    ensures Pow2(5) == 0x20
    ensures Pow2(6) == 0x40
    ensures Pow2(7) == 0x80
    ensures Pow2(8) == 0x100
    ensures Pow2(9) == 0x200
    ensures Pow2(10) == 0x400
    ensures Pow2(11) == 0x800
    ensures Pow2(12) == 0x1000
    ensures Pow2(13) == 0x2000
    ensures Pow2(14) == 0x4000
    ensures Pow2(15) == 0x8000
    ensures Pow2(16) == 0x10000
    ensures Pow2(17) == 0x20000
    ensures Pow2(18) == 0x40000
    ensures Pow2(19) == 0x80000
    ensures Pow2(20) == 0x100000
    ensures Pow2(21) == 0x200000
    ensures Pow2(22) == 0x400000
    ensures Pow2(23) == 0x800000
    ensures Pow2(24) == 0x1000000
    ensures Pow2(25) == 0x2000000
    ensures Pow2(26) == 0x4000000
    ensures Pow2(27) == 0x8000000
    ensures Pow2(28) == 0x10000000
    ensures Pow2(29) == 0x20000000
    ensures Pow2(30) == 0x40000000
    ensures Pow2(31) == 0x80000000
    ensures Pow2(32) == 0x100000000
  {
    assert Pow2(1) == 2 * Pow2(0);
    assert Pow2(2) == 2 * Pow2(1);
    assert Pow2(3) == 2 * Pow2(2);
    assert Pow2(4) == 2 * Pow2(3);
    assert Pow2(5) == 2 * Pow2(4);
    assert Pow2(6) == 2 * Pow2(5);
    assert Pow2(7) == 2 * Pow2(6);
    assert Pow2(8) == 2 * Pow2(7);
    assert Pow2(9) == 2 * Pow2(8);
    assert Pow2(10) == 2 * Pow2(9);
    assert Pow2(11) == 2 * Pow2(10);
    assert Pow2(12) == 2 * Pow2(11);
    assert Pow2(13) == 2 * Pow2(12);
    assert Pow2(14) == 2 * Pow2(13);
    assert Pow2(15) == 2 * Pow2(14);
    assert Pow2(16) == 2 * Pow2(15);
    assert Pow2(17) == 2 * Pow2(16);
    assert Pow2(18) == 2 * Pow2(17);
    assert Pow2(19) == 2 * Pow2(18);
    assert Pow2(20) == 2 * Pow2(19);
    assert Pow2(21) == 2 * Pow2(20);
    assert Pow2(22) == 2 * Pow2(21);
    assert Pow2(23) == 2 * Pow2(22);
    assert Pow2(24) == 2 * Pow2(23);
    assert Pow2(25) == 2 * Pow2(24);
    assert Pow2(26) == 2 * Pow2(25);
    assert Pow2(27) == 2 * Pow2(26);
    assert Pow2(28) == 2 * Pow2(27);
    assert Pow2(29) == 2 * Pow2(28);
    assert Pow2(30) == 2 * Pow2(29);
    assert Pow2(31) == 2 * Pow2(30);
    assert Pow2(32) == 2 * Pow2(31);
  }

  lemma {:induction false} Pow2Add(a: nat, b: nat)
    ensures Pow2(a + b) == Pow2(a) * Pow2(b)
  {
    if a > 0 {
      Pow2Add(a - 1, b);
      assert Pow2(a + b) == 2 * Pow2(a - 1 + b);
    }
  }

  /** The unsigned integer whose little-endian encoding is `s`: `s[0]` is the
      least significant byte, as in a ctypes LittleEndianStructure. */
  function LeUnsigned(s: seq<Byte>): (v: nat)
    ensures v < Pow2(8 * |s|)
  {
    if s == [] then 0
    else
      var rest := LeUnsigned(s[1..]);
      Pow2Step(|s|);
      AppendBound(s[0], rest, Pow2(8 * (|s| - 1)));
      s[0] + 256 * rest
  }

  lemma AppendBound(b: Byte, rest: nat, p: nat)
    requires rest < p
    ensures b + 256 * rest < 256 * p
  {
  }

  /** The `n`-byte little-endian encoding of `v`; the reference the decoders are
      checked against, not an operation of the codec. */
  ghost function LeBytes(v: nat, n: nat): (s: seq<Byte>)
    requires v < Pow2(8 * n)
    ensures |s| == n
  {
    if n == 0 then []
    else
      Pow2Step(n);
      QuotientBound(v, Pow2(8 * (n - 1)));
      [v % 256] + LeBytes(v / 256, n - 1)
  }

  lemma QuotientBound(v: nat, p: nat)
    requires v < 256 * p
    ensures v / 256 < p
  {
  }

  lemma ByteSplit(v: nat)
    ensures v == v % 256 + 256 * (v / 256)
  {
  }

  lemma {:induction false} LeBytesOfUnsigned(s: seq<Byte>)
    ensures LeBytes(LeUnsigned(s), |s|) == s
  {
    if s != [] {
      LeBytesOfUnsigned(s[1..]);
      var v := LeUnsigned(s);
      LeHead(s);
      DivModUnique256(v, LeUnsigned(s[1..]), s[0]);
      assert LeBytes(v, |s|) == [s[0]] + LeBytes(LeUnsigned(s[1..]), |s| - 1);
      assert s == [s[0]] + s[1..];
    }
  }

  lemma DivModUnique256(v: nat, q: nat, r: Byte)
    requires v == r + 256 * q
    ensures v % 256 == r && v / 256 == q
  {
  }

  lemma {:induction false} LeUnsignedOfBytes(v: nat, n: nat)
    requires v < Pow2(8 * n)
    ensures LeUnsigned(LeBytes(v, n)) == v
  {
    if n > 0 {
      Pow2Step(n);
      QuotientBound(v, Pow2(8 * (n - 1)));
      LeUnsignedOfBytes(v / 256, n - 1);
      var s := LeBytes(v, n);
      assert s[1..] == LeBytes(v / 256, n - 1);
      assert s[0] == v % 256;
      LeHead(s);
      ByteSplit(v);
    }
  }

  /** Little-endian decoding is a bijection between n-byte strings and the
      integers below 2^(8n). */
  lemma LeBijection(s: seq<Byte>, v: nat)
    requires v < Pow2(8 * |s|)
    ensures LeUnsigned(s) == v <==> s == LeBytes(v, |s|)
  {
    LeBytesOfUnsigned(s);
    LeUnsignedOfBytes(v, |s|);
  }

  /** A little-endian integer splits at any byte boundary: the first `i`
      bytes are its low part. */
  lemma {:induction false} LeSplit(s: seq<Byte>, i: nat)
    requires i <= |s|
    ensures LeUnsigned(s) == LeUnsigned(s[..i]) + Pow2(8 * i) * LeUnsigned(s[i..])
  {
    if i == 0 {
      assert s[0..] == s;
    } else {
      var t := s[1..];
      LeSplit(t, i - 1);
      assert s[..i][1..] == t[..i - 1];
      assert t[i - 1..] == s[i..];
      LeHead(s);
      LeHead(s[..i]);
      Pow2Step(i);
      ScaleSum(s[0], LeUnsigned(t[..i - 1]), Pow2(8 * (i - 1)), LeUnsigned(s[i..]));
    }
  }

  /** The first byte is the least significant one. */
  lemma LeHead(s: seq<Byte>)
    requires |s| > 0
    ensures LeUnsigned(s) == s[0] + 256 * LeUnsigned(s[1..])
  {
  }

  lemma Pow2Step(i: nat)
    requires i > 0
    ensures Pow2(8 * i) == 256 * Pow2(8 * (i - 1))
  {
    Pow2Add(8, 8 * (i - 1));
    assert Pow2(8) == 256;
    assert 8 + 8 * (i - 1) == 8 * i;
  }

  lemma ScaleSum(b: int, lo: int, p: int, hi: int)
    ensures b + 256 * (lo + p * hi) == (b + 256 * lo) + (256 * p) * hi
  {
  }

  /** Two's-complement reading of a `bits`-wide unsigned pattern: ctypes'
      c_int8/c_int16/c_int32 and signed bitfields. */
  function ToSigned(u: nat, bits: nat): (v: int)
    requires bits > 0 && u < Pow2(bits)
    ensures -(Pow2(bits - 1) as int) <= v < Pow2(bits - 1)
    ensures v == u || v == u - Pow2(bits)
  {
    assert Pow2(bits) == 2 * Pow2(bits - 1);
    if u >= Pow2(bits - 1) then u - Pow2(bits) else u
  }

  /** The `bits`-wide pattern that a signed value is stored as. */
  function ToUnsigned(v: int, bits: nat): (u: nat)
    requires bits > 0 && -(Pow2(bits - 1) as int) <= v < Pow2(bits - 1)
    ensures u < Pow2(bits)
    ensures ToSigned(u, bits) == v
  {
    assert Pow2(bits) == 2 * Pow2(bits - 1);
    if v < 0 then v + Pow2(bits) else v
  }

  lemma SignedRoundTrip(u: nat, bits: nat)
    requires bits > 0 && u < Pow2(bits)
    ensures ToUnsigned(ToSigned(u, bits), bits) == u
  {
    assert Pow2(bits) == 2 * Pow2(bits - 1);
  }

  /** A little-endian int16 as ctypes reads a c_int16. */
  function LeInt16(s: seq<Byte>): (v: int)
    requires |s| == 2
    ensures -32768 <= v < 32768
  {
    Pow2Values();
    ToSigned(LeUnsigned(s), 16)
  }

  /** Little-endian decoding of equally long strings is injective. */
  lemma LeUnsignedInjective(s1: seq<Byte>, s2: seq<Byte>)
    requires |s1| == |s2| && LeUnsigned(s1) == LeUnsigned(s2)
    ensures s1 == s2
  {
    LeBytesOfUnsigned(s1);
    LeBytesOfUnsigned(s2);
  }

  /** Two different byte pairs never read as the same int16. */
  lemma LeInt16Injective(s1: seq<Byte>, s2: seq<Byte>)
    requires |s1| == |s2| == 2 && LeInt16(s1) == LeInt16(s2)
    ensures s1 == s2
  {
    Pow2Values();
    SignedRoundTrip(LeUnsigned(s1), 16);
    SignedRoundTrip(LeUnsigned(s2), 16);
    LeUnsignedInjective(s1, s2);
  }

  /** The bytes in the form the CRC engine consumes. */
  function Octets(s: seq<Byte>): (o: seq<bv8>)
    ensures |o| == |s|
  {
    seq(|s|, i requires 0 <= i < |s| => Octet(s[i]))
  }

  /** A byte as an 8-bit vector, built bit by bit from the most significant
      end (its bits are those of `b / 2`, shifted up, then the lowest bit). */
  function Octet(b: Byte): bv8
    decreases b
  {
    if b == 0 then 0 else (Octet(b / 2) << 1) | (if b % 2 == 1 then 1 else 0)
  }

  /** Appending a low bit to a vector whose top bit is clear doubles its
      value and adds the bit. */
  lemma AppendBitValue(y: bv8, c: bv8)
    requires y as int < 128 && c as int < 2
    ensures ((y << 1) | c) as int == 2 * (y as int) + c as int
  {
  }

  /** The octet of a byte has exactly the byte's value. */
  lemma {:induction false} OctetValue(b: Byte)
    ensures Octet(b) as int == b
    decreases b
  {
    if b != 0 {
      OctetValue(b / 2);
      AppendBitValue(Octet(b / 2), if b % 2 == 1 then 1 else 0);
    }
  }

  /** Converting to octets keeps every value: strings that differ at an
      index still differ there, and agree where they agreed. */
  lemma OctetsAt(s: seq<Byte>, t: seq<Byte>, i: nat)
    requires i < |s| && i < |t|
    ensures Octets(s)[i] == Octets(t)[i] <==> s[i] == t[i]
  {
    OctetValue(s[i]);
    OctetValue(t[i]);
  }

  /** Changing one byte changes exactly that octet. */
  lemma OneOctetChanged(s: seq<Byte>, k: nat, v: Byte)
    requires k < |s| && v != s[k]
    ensures |Octets(s[k := v])| == |Octets(s)|
    ensures Octets(s)[k] != Octets(s[k := v])[k]
    ensures forall i :: 0 <= i < |s| && i != k ==> Octets(s)[i] == Octets(s[k := v])[i]
  {
    OctetsAt(s, s[k := v], k);
  }

  /** A slice of a slice is the slice of the whole at the shifted bounds. */
  lemma SliceOfSlice(s: seq<Byte>, lo: nat, hi: nat, a: nat, b: nat)
    requires lo <= hi <= |s| && a <= b <= hi - lo
    ensures s[lo .. hi][a .. b] == s[lo + a .. lo + b]
  {
    assert forall j :: 0 <= j < b - a ==> s[lo .. hi][a .. b][j] == s[lo + a + j];
  }
}
