/** The 16-bit CRC that guards every packet section: width 16, polynomial
    0x1021, initial value 0xFFFF, input and output not reflected, final XOR 0
    (the CRC-16/CCITT-FALSE parameter set, CRC-16/IBM-3740 in the Rocksoft
    parameter catalogue). The bytes are fed most significant bit first into
    the top of the register. */
module Crc16 {

  /** CRC_POLYNOMIAL (spi.py:20). */
  const Poly: bv16 := 0x1021
  /** CRC_INITIAL_VALUE (spi.py:21). */
  const Init: bv16 := 0xFFFF
  /** final_xor_value (spi.py:123). */
  const XorOut: bv16 := 0x0000

  /** One bit of polynomial division: shift left, and subtract (XOR) the
      polynomial when the bit shifted out of the top was set. */
  function ShiftStep(reg: bv16): bv16 {
    if reg & 0x8000 != 0 then (reg << 1) ^ Poly else reg << 1
  }

  /** `n` steps of the division. */
  function Shift(reg: bv16, n: nat): bv16
    decreases n
  {
    if n == 0 then reg else Shift(ShiftStep(reg), n - 1)
  }

  /** Feeds one byte, unreflected: it enters the top eight bits of the
      register and is divided through bit by bit. */
  function UpdateByte(reg: bv16, b: bv8): bv16 {
    Shift(Entry(reg, b), 8)
  }

  /** The register with the byte added into its top eight bits. */
  function Entry(reg: bv16, b: bv8): bv16 {
    reg ^ ((b as bv16) << 8)
  }

  /** The register after feeding `data`, first byte first, starting from `reg`. */
  function Feed(reg: bv16, data: seq<bv8>): bv16 {
    if |data| == 0 then reg else UpdateByte(Feed(reg, data[..|data| - 1]), data[|data| - 1])
  }

  /** The final XOR applied to the register. */
  function Finish(reg: bv16): bv16 {
    reg ^ XorOut
  }

  /** The checksum of `data` under these parameters; that of the empty input
      is the initial value. */
  function Crc(data: seq<bv8>): (c: bv16)
    ensures data == [] ==> c == 0xFFFF
  {
    Finish(Feed(Init, data))
  }

  /** The checksum computed the way a bitwise implementation does: a loop
      over the bytes and, inside it, a loop over the eight bits of each. */
  method Compute(data: seq<bv8>) returns (crc: bv16)
    ensures crc == Crc(data)
  {
    var reg := Init;
    var i := 0;
    while i < |data|
      invariant 0 <= i <= |data|
      invariant reg == Feed(Init, data[..i])
    {
      assert data[..i + 1][..i] == data[..i];
      ghost var target := UpdateByte(reg, data[i]);
      reg := Entry(reg, data[i]);
      var k := 0;
      while k < 8
        invariant 0 <= k <= 8
        invariant Shift(reg, 8 - k) == target
      {
        ghost var before := reg;
        if reg & 0x8000 != 0 {
          reg := (reg << 1) ^ Poly;
        } else {
          reg := reg << 1;
        }
        assert reg == ShiftStep(before);
        k := k + 1;
      }
      i := i + 1;
    }
    assert data[..|data|] == data;
    crc := Finish(reg);
  }

  // ---------------------------------------------------------------------------
  // The catalogue check value
  // ---------------------------------------------------------------------------

  /** The catalogue check value: the checksum of ASCII "123456789" is 0x29B1. */
  lemma CheckValue()
    ensures Crc([0x31, 0x32, 0x33, 0x34, 0x35, 0x36, 0x37, 0x38, 0x39]) == 0x29B1
  {
    var s: seq<bv8> := [0x31, 0x32, 0x33, 0x34, 0x35, 0x36, 0x37, 0x38, 0x39];
    assert Feed(Init, s[..0]) == 0xFFFF;
    assert UpdateByte(0xFFFF, 0x31) == 0xC782;
    assert Feed(Init, s[..1]) == 0xC782;
    assert UpdateByte(0xC782, 0x32) == 0x3DBA;
    assert s[..2][..1] == s[..1];
    assert Feed(Init, s[..2]) == 0x3DBA;
    assert UpdateByte(0x3DBA, 0x33) == 0x5BCE;
    assert s[..3][..2] == s[..2];
    assert Feed(Init, s[..3]) == 0x5BCE;
    assert UpdateByte(0x5BCE, 0x34) == 0x5349;
    assert s[..4][..3] == s[..3];
    assert Feed(Init, s[..4]) == 0x5349;
    assert UpdateByte(0x5349, 0x35) == 0x4560;
    assert s[..5][..4] == s[..4];
    assert Feed(Init, s[..5]) == 0x4560;
    assert UpdateByte(0x4560, 0x36) == 0x2EF4;
    assert s[..6][..5] == s[..5];
    assert Feed(Init, s[..6]) == 0x2EF4;
    assert UpdateByte(0x2EF4, 0x37) == 0x7718;
    assert s[..7][..6] == s[..6];
    assert Feed(Init, s[..7]) == 0x7718;
    assert UpdateByte(0x7718, 0x38) == 0xA12B;
    assert s[..8][..7] == s[..7];
    assert Feed(Init, s[..8]) == 0xA12B;
    assert UpdateByte(0xA12B, 0x39) == 0x29B1;
    assert s[..9] == s;
  }

  // ---------------------------------------------------------------------------
  // Error detection: no information is lost in the register
  // ---------------------------------------------------------------------------

  /** The bit shifted out of the top reappears as bit 0, because the
      polynomial's constant term is 1. */
  lemma StepParity(x: bv16)
    ensures (ShiftStep(x) & 1 == 1) == (x & 0x8000 != 0)
  {
  }

  lemma StepInjectiveTop(x: bv16, y: bv16)
    requires x & 0x8000 != 0 && y & 0x8000 != 0
    requires ShiftStep(x) == ShiftStep(y)
    ensures x == y
  {
  }

  lemma StepInjectiveNoTop(x: bv16, y: bv16)
    requires x & 0x8000 == 0 && y & 0x8000 == 0
    requires ShiftStep(x) == ShiftStep(y)
    ensures x == y
  {
  }

  /** One division step is a bijection of the register. */
  lemma StepInjective(x: bv16, y: bv16)
    requires ShiftStep(x) == ShiftStep(y)
    ensures x == y
  {
    StepParity(x);
    StepParity(y);
    if x & 0x8000 != 0 { StepInjectiveTop(x, y); } else { StepInjectiveNoTop(x, y); }
  }

  lemma {:induction false} ShiftInjective(x: bv16, y: bv16, n: nat)
    requires Shift(x, n) == Shift(y, n)
    ensures x == y
    decreases n
  {
    if n > 0 {
      ShiftInjective(ShiftStep(x), ShiftStep(y), n - 1);
      StepInjective(x, y);
    }
  }

  lemma EntryRegister(r1: bv16, r2: bv16, b: bv8)
    requires Entry(r1, b) == Entry(r2, b)
    ensures r1 == r2
  {
  }

  lemma EntryByte(r: bv16, b1: bv8, b2: bv8)
    requires Entry(r, b1) == Entry(r, b2)
    ensures b1 == b2
  {
  }

  /** Feeding a byte loses nothing: from the same register, different bytes
      give different registers, and the same byte fed into different
      registers gives different registers. */
  lemma UpdateByteInjective(r1: bv16, r2: bv16, b1: bv8, b2: bv8)
    requires UpdateByte(r1, b1) == UpdateByte(r2, b2)
    ensures r1 == r2 <==> b1 == b2
  {
    ShiftInjective(Entry(r1, b1), Entry(r2, b2), 8);
    if r1 == r2 { EntryByte(r1, b1, b2); }
    if b1 == b2 { EntryRegister(r1, r2, b1); }
  }

  /** Two inputs that differ in byte `k` only leave different registers
      after every prefix that includes byte `k`. */
  lemma {:induction false} DifferentAfter(d1: seq<bv8>, d2: seq<bv8>, k: nat, n: nat)
    requires |d1| == |d2| && k < n <= |d1|
    requires d1[k] != d2[k]
    requires forall i :: 0 <= i < |d1| && i != k ==> d1[i] == d2[i]
    ensures Feed(Init, d1[..n]) != Feed(Init, d2[..n])
  {
    if n - 1 == k {
      FirstDifference(d1, d2, k);
    } else {
      DifferentAfter(d1, d2, k, n - 1);
      StaysDifferent(d1, d2, n);
    }
  }

  /** Equal prefixes followed by different bytes leave different registers. */
  lemma FirstDifference(d1: seq<bv8>, d2: seq<bv8>, k: nat)
    requires |d1| == |d2| && k < |d1| && d1[k] != d2[k]
    requires forall i :: 0 <= i < k ==> d1[i] == d2[i]
    ensures Feed(Init, d1[..k + 1]) != Feed(Init, d2[..k + 1])
  {
    FeedLast(d1, k + 1);
    FeedLast(d2, k + 1);
    assert d1[..k] == d2[..k];
    UpdateByteDiffers(Feed(Init, d1[..k]), Feed(Init, d2[..k]), d1[k], d2[k]);
  }

  /** Different registers fed the same byte stay different. */
  lemma StaysDifferent(d1: seq<bv8>, d2: seq<bv8>, n: nat)
    requires 0 < n <= |d1| && n <= |d2| && d1[n - 1] == d2[n - 1]
    requires Feed(Init, d1[..n - 1]) != Feed(Init, d2[..n - 1])
    ensures Feed(Init, d1[..n]) != Feed(Init, d2[..n])
  {
    FeedLast(d1, n);
    FeedLast(d2, n);
    UpdateByteDiffers(Feed(Init, d1[..n - 1]), Feed(Init, d2[..n - 1]), d1[n - 1], d2[n - 1]);
  }

  /** Feeding a prefix of length n is feeding the shorter prefix, then byte n - 1. */
  lemma FeedLast(d: seq<bv8>, n: nat)
    requires 0 < n <= |d|
    ensures Feed(Init, d[..n]) == UpdateByte(Feed(Init, d[..n - 1]), d[n - 1])
  {
    assert d[..n][..n - 1] == d[..n - 1];
  }

  /** Registers that differ in exactly one of register and byte stay different. */
  lemma UpdateByteDiffers(r1: bv16, r2: bv16, b1: bv8, b2: bv8)
    requires (r1 == r2) != (b1 == b2)
    ensures UpdateByte(r1, b1) != UpdateByte(r2, b2)
  {
    if UpdateByte(r1, b1) == UpdateByte(r2, b2) {
      UpdateByteInjective(r1, r2, b1, b2);
    }
  }

  /** Every error confined to one byte (in particular every single-bit error)
      changes the checksum: two equally long inputs that differ in exactly
      one byte never have the same checksum. */
  lemma DetectsOneByteChange(d1: seq<bv8>, d2: seq<bv8>, k: nat)
    requires |d1| == |d2| && k < |d1| && d1[k] != d2[k]
    requires forall i :: 0 <= i < |d1| && i != k ==> d1[i] == d2[i]
    ensures Crc(d1) != Crc(d2)
  {
    DifferentAfter(d1, d2, k, |d1|);
    assert d1[..|d1|] == d1 && d2[..|d2|] == d2;
    FinishInjective(Feed(Init, d1), Feed(Init, d2));
  }

  lemma FinishInjective(r1: bv16, r2: bv16)
    requires r1 != r2
    ensures Finish(r1) != Finish(r2)
  {
  }
}
