/**
 CRC-32 (IEEE): the bit-by-bit definition (tools/png.ts) and the table-driven one
 (previews/png.rs), and the proof that they are the same function (PNG section 5.3, Annex D).
 Words are naturals: masking and shifting by powers of two are `%` and `/`.
 */
module Crc {
  import opened Words

  const POLYNOMIAL: u32 := 0xedb8_8320
  const ALL_ONES: u32 := 0xffff_ffff

  // ---- Exclusive or ---------------------------------------------------------------------------

  function XorNat(a: nat, b: nat): nat
    decreases a + b
  {
    if a == 0 then b
    else if b == 0 then a
    else (a % 2 + b % 2) % 2 + 2 * XorNat(a / 2, b / 2)
  }

  lemma {:induction false} XorStep(a: nat, b: nat)
    ensures XorNat(a, b) % 2 == (a % 2 + b % 2) % 2
    ensures XorNat(a, b) / 2 == XorNat(a / 2, b / 2)
  {
  }

  lemma {:induction false} XorCommutes(a: nat, b: nat)
    ensures XorNat(a, b) == XorNat(b, a)
    decreases a + b
  {
    if a != 0 && b != 0 {
      XorCommutes(a / 2, b / 2);
    }
  }

  lemma XorZero(a: nat)
    ensures XorNat(a, 0) == a && XorNat(0, a) == a
  {
  }

  lemma {:induction false} XorAssociates(a: nat, b: nat, c: nat)
    ensures XorNat(XorNat(a, b), c) == XorNat(a, XorNat(b, c))
    decreases a + b + c
  {
    hide XorNat;
    XorZero(a);
    XorZero(b);
    XorZero(c);
    XorZero(XorNat(a, b));
    XorZero(XorNat(b, c));
    if a != 0 && b != 0 && c != 0 {
      XorAssociates(a / 2, b / 2, c / 2);
      XorStep(a, b);
      XorStep(b, c);
      XorStep(XorNat(a, b), c);
      XorStep(a, XorNat(b, c));
    }
  }

  lemma {:induction false} XorCancels(a: nat)
    ensures XorNat(a, a) == 0
  {
    if a != 0 {
      XorCancels(a / 2);
    }
  }

  function Pow2(n: nat): nat {
    if n == 0 then 1 else 2 * Pow2(n - 1)
  }

  lemma {:induction false} XorBounded(a: nat, b: nat, n: nat)
    requires a < Pow2(n) && b < Pow2(n)
    ensures XorNat(a, b) < Pow2(n)
  {
    if n > 0 {
      XorBounded(a / 2, b / 2, n - 1);
      XorStep(a, b);
    }
  }

  /** The low `n` bits of `w` are zero. */
  predicate LowBitsClear(w: nat, n: nat) {
    n == 0 || (w % 2 == 0 && LowBitsClear(w / 2, n - 1))
  }

  /** Parts that share no bit are added. */
  lemma {:induction false} XorOfParts(low: nat, high: nat, n: nat)
    requires low < Pow2(n) && LowBitsClear(high, n)
    ensures XorNat(low, high) == low + high
  {
    if n > 0 {
      XorOfParts(low / 2, high / 2, n - 1);
      XorStep(low, high);
    }
  }

  lemma Pow2Values()
    ensures Pow2(8) == 0x100 && Pow2(32) == 0x1_0000_0000
  {
    assert Pow2(8) == 0x100;
    assert Pow2(16) == 0x1_0000;
    assert Pow2(24) == 0x100_0000;
  }

  function Xor(a: u32, b: u32): (c: u32)
    ensures c == XorNat(a, b)
  {
    Pow2Values();
    XorBounded(a, b, 32);
    XorNat(a, b)
  }

  // ---- Bit by bit ---------------------------------------------------------------------------

  /** One step of the shift register. */
  function Shift(c: u32): u32 {
    if c % 2 == 1 then Xor(POLYNOMIAL, c / 2) else c / 2
  }

  function Shifts(c: u32, n: nat): u32 {
    if n == 0 then c else Shift(Shifts(c, n - 1))
  }

  /** The register after `bytes`. */
  function Feed(c: u32, bytes: seq<byte>): u32 {
    if bytes == [] then c else Shifts(Xor(Feed(c, bytes[..|bytes| - 1]), bytes[|bytes| - 1]), 8)
  }

  function Crc32(bytes: seq<byte>): u32 {
    Xor(Feed(ALL_ONES, bytes), ALL_ONES)
  }

  method BitwiseCrc32(bytes: seq<byte>) returns (crc: u32)
    ensures crc == Crc32(bytes)
  {
    hide Xor;
    var c := ALL_ONES;
    for i := 0 to |bytes|
      invariant c == Feed(ALL_ONES, bytes[..i])
    {
      c := Xor(c, bytes[i]);
      ghost var mixed := c;
      for bit := 0 to 8
        invariant c == Shifts(mixed, bit)
      {
        XorCommutes(c / 2, POLYNOMIAL);
        c := if c % 2 == 1 then Xor(c / 2, POLYNOMIAL) else c / 2;
      }
      assert bytes[..i + 1][..i] == bytes[..i];
    }
    assert bytes[..|bytes|] == bytes;
    return Xor(c, ALL_ONES);
  }

  // ---- The register is linear, so eight steps split into a table lookup and a shift --------

  /** Four terms can be paired the other way round. */
  lemma XorPairs(a: nat, b: nat, c: nat, d: nat)
    ensures XorNat(XorNat(a, b), XorNat(c, d)) == XorNat(XorNat(a, c), XorNat(b, d))
  {
    hide XorNat;
    XorAssociates(a, b, XorNat(c, d));
    XorAssociates(b, c, d);
    XorCommutes(b, c);
    XorAssociates(c, b, d);
    XorAssociates(a, c, XorNat(b, d));
  }

  lemma ShiftLinear(a: u32, b: u32)
    ensures Shift(Xor(a, b)) == Xor(Shift(a), Shift(b))
  {
    hide XorNat;
    XorStep(a, b);
    var pa, pb := if a % 2 == 1 then POLYNOMIAL else 0, if b % 2 == 1 then POLYNOMIAL else 0;
    XorZero(a / 2);
    XorZero(b / 2);
    XorZero(XorNat(a / 2, b / 2));
    XorZero(POLYNOMIAL);
    XorZero(0);
    XorCancels(POLYNOMIAL);
    XorPairs(pa, a / 2, pb, b / 2);
  }

  lemma {:induction false} ShiftsLinear(a: u32, b: u32, n: nat)
    ensures Shifts(Xor(a, b), n) == Xor(Shifts(a, n), Shifts(b, n))
  {
    hide Xor, Shift;
    if n > 0 {
      ShiftsLinear(a, b, n - 1);
      ShiftLinear(Shifts(a, n - 1), Shifts(b, n - 1));
    }
  }

  function Halved(w: nat, n: nat): nat {
    if n == 0 then w else Halved(w, n - 1) / 2
  }

  /** While only zeros are shifted out, the register is just shifted. */
  lemma {:induction false} ClearBitsFall(c: u32, n: nat, k: nat)
    requires k <= n && LowBitsClear(c, n)
    ensures Shifts(c, k) == Halved(c, k) && LowBitsClear(Halved(c, k), n - k)
  {
    if k > 0 {
      ClearBitsFall(c, n, k - 1);
    }
  }

  function Doubled(h: nat, n: nat): nat {
    if n == 0 then h else 2 * Doubled(h, n - 1)
  }

  lemma ClearAfterDoubling(w: nat, n: nat)
    requires LowBitsClear(w, n)
    ensures LowBitsClear(2 * w, n + 1)
  {
    assert 2 * w / 2 == w && 2 * w % 2 == 0;
  }

  lemma {:induction false} DoubledIsClear(h: nat, n: nat)
    ensures LowBitsClear(Doubled(h, n), n)
  {
    if n > 0 {
      DoubledIsClear(h, n - 1);
      hide LowBitsClear;
      ClearAfterDoubling(Doubled(h, n - 1), n - 1);
    }
  }

  lemma {:induction false} DoubledHalved(h: nat, n: nat, k: nat)
    requires k <= n
    ensures Halved(Doubled(h, n), k) == Doubled(h, n - k)
  {
    hide LowBitsClear;
    if k > 0 {
      DoubledHalved(h, n, k - 1);
      assert Doubled(h, n - k + 1) == 2 * Doubled(h, n - k);
    }
  }

  lemma EightDoublings(h: nat)
    ensures Doubled(h, 8) == h * 0x100
  {
    assert Doubled(h, 1) == h * 2;
    assert Doubled(h, 2) == h * 4;
    assert Doubled(h, 3) == h * 8;
    assert Doubled(h, 4) == h * 0x10;
    assert Doubled(h, 5) == h * 0x20;
    assert Doubled(h, 6) == h * 0x40;
    assert Doubled(h, 7) == h * 0x80;
  }

  lemma HighPart(c: u32)
    ensures LowBitsClear(c / 0x100 * 0x100, 8) && Halved(c / 0x100 * 0x100, 8) == c / 0x100
    ensures c == Xor(c % 0x100, c / 0x100 * 0x100)
  {
    EightDoublings(c / 0x100);
    DoubledIsClear(c / 0x100, 8);
    DoubledHalved(c / 0x100, 8, 8);
    Pow2Values();
    XorOfParts(c % 0x100, c / 0x100 * 0x100, 8);
  }

  lemma EightShifts(c: u32)
    ensures Shifts(c, 8) == Xor(Shifts(c % 0x100, 8), c / 0x100)
  {
    hide Xor, Shift, Shifts;
    HighPart(c);
    ShiftsLinear(c % 0x100, c / 0x100 * 0x100, 8);
    ClearBitsFall(c / 0x100 * 0x100, 8, 8);
  }

  // ---- Table-driven ---------------------------------------------------------------------------

  predicate IsTable(table: seq<u32>) {
    |table| == 0x100 && forall n :: 0 <= n < 0x100 ==> table[n] == Shifts(n, 8)
  }

  /** The table of PNG Annex D. */
  method CrcTable() returns (table: seq<u32>)
    ensures IsTable(table)
  {
    var slots := new u32[0x100](_ => 0);
    for n := 0 to 0x100
      invariant forall m :: 0 <= m < n ==> slots[m] == Shifts(m, 8)
    {
      var c: u32 := n;
      for step := 0 to 8
        invariant c == Shifts(n, step)
      {
        c := if c % 2 == 1 then Xor(POLYNOMIAL, c / 2) else c / 2;
      }
      slots[n] := c;
    }
    return slots[..];
  }

  function Flat(parts: seq<seq<byte>>): seq<byte> {
    if parts == [] then [] else Flat(parts[..|parts| - 1]) + parts[|parts| - 1]
  }

  /** One table step is eight bit steps. */
  lemma TableStep(c: u32, b: byte)
    ensures Shifts(Xor(c, b), 8) == Xor(Shifts(Xor(c, b) % 0x100, 8), c / 0x100)
  {
    hide Shift, Shifts, XorNat;
    HighPart(c);
    Pow2Values();
    var low, high := c % 0x100, c / 0x100 * 0x100;
    XorBounded(low, b, 8);
    XorCommutes(low, high);
    XorAssociates(high, low, b);
    XorCommutes(high, XorNat(low, b));
    XorOfParts(XorNat(low, b), high, 8);
    assert Xor(c, b) == XorNat(low, b) + high;
    EightShifts(Xor(c, b));
  }

  /** The table gives the same CRC, whatever parts the bytes come in. */
  method TableCrc32(parts: seq<seq<byte>>) returns (crc: u32)
    ensures crc == Crc32(Flat(parts))
  {
    hide Xor, Shift, Shifts;
    var table := CrcTable();
    var c := ALL_ONES;
    for i := 0 to |parts|
      invariant c == Feed(ALL_ONES, Flat(parts[..i]))
    {
      var part := parts[i];
      ghost var before := Flat(parts[..i]);
      assert before + part[..0] == before;
      for k := 0 to |part|
        invariant c == Feed(ALL_ONES, before + part[..k])
      {
        ghost var fed := before + part[..k + 1];
        assert fed[..|fed| - 1] == before + part[..k] && fed[|fed| - 1] == part[k];
        TableStep(c, part[k]);
        c := Xor(table[Xor(c, part[k]) % 0x100], c / 0x100);
      }
      assert part[..|part|] == part && parts[..i + 1][..i] == parts[..i];
    }
    assert parts[..|parts|] == parts;
    return Xor(c, ALL_ONES);
  }

  // ---- The polynomial, bit by bit -------------------------------------------------------------

  /** Bit `k` of a word. */
  predicate Bit(w: nat, k: nat) {
    if k == 0 then w % 2 == 1 else Bit(w / 2, k - 1)
  }

  lemma {:induction false} XorBits(a: nat, b: nat, k: nat)
    ensures Bit(XorNat(a, b), k) <==> Bit(a, k) != Bit(b, k)
  {
    hide XorNat;
    XorStep(a, b);
    if k > 0 {
      XorBits(a / 2, b / 2, k - 1);
    }
  }

  /** The terms of the generator below x^32 (PNG Annex D, ISO 3309): 0x04C11DB7, reflected. */
  predicate IsTerm(e: int) {
    e in {26, 23, 22, 16, 12, 11, 10, 8, 7, 5, 4, 2, 1, 0}
  }

  lemma PolynomialTerms(k: nat)
    requires k < 32
    ensures Bit(POLYNOMIAL, k) <==> IsTerm(31 - k)
  {
    hide Bit, Halved;
    var n := k / 4 * 4;
    BitsAbove(POLYNOMIAL, n, k);
    PolynomialDigits();
    LowBits(Halved(POLYNOMIAL, n), k - n);
  }

  lemma LowBits(w: nat, j: nat)
    requires j < 4
    ensures Bit(w, j) <==> (if j == 0 then w else if j == 1 then w / 2 else if j == 2 then w / 4 else w / 8) % 2 == 1
  {
    assert w / 2 / 2 == w / 4 && w / 2 / 2 / 2 == w / 8;
  }

  lemma PolynomialDigits()
    ensures Halved(POLYNOMIAL, 0) == 0xedb88320 && Halved(POLYNOMIAL, 4) == 0xedb8832 && Halved(POLYNOMIAL, 8) == 0xedb883
    ensures Halved(POLYNOMIAL, 12) == 0xedb88 && Halved(POLYNOMIAL, 16) == 0xedb8 && Halved(POLYNOMIAL, 20) == 0xedb
    ensures Halved(POLYNOMIAL, 24) == 0xed && Halved(POLYNOMIAL, 28) == 0xe
  {
    assert Halved(POLYNOMIAL, 2) == 0x3b6e20c8;
    assert Halved(POLYNOMIAL, 6) == 0x3b6e20c;
    assert Halved(POLYNOMIAL, 10) == 0x3b6e20;
    assert Halved(POLYNOMIAL, 14) == 0x3b6e2;
    assert Halved(POLYNOMIAL, 18) == 0x3b6e;
    assert Halved(POLYNOMIAL, 22) == 0x3b6;
    assert Halved(POLYNOMIAL, 26) == 0x3b;
  }

  lemma {:induction false} BitsAbove(w: nat, n: nat, k: nat)
    requires n <= k
    ensures Bit(w, k) == Bit(Halved(w, n), k - n)
  {
    if n > 0 {
      BitsAbove(w, n - 1, k);
    }
  }

  /** One step of the register divides by the generator: a one that falls out at the low end subtracts it. */
  lemma ShiftDivides(c: u32, k: nat)
    requires k < 32
    ensures Bit(Shift(c), k) <==> Bit(c, k + 1) != (Bit(c, 0) && IsTerm(31 - k))
  {
    hide XorNat, IsTerm;
    XorBits(POLYNOMIAL, c / 2, k);
    PolynomialTerms(k);
  }

  /** The register takes in one bit. */
  function TakeBit(c: u32, bit: bool): u32 {
    Shift(if bit then Xor(c, 1) else c)
  }

  /** It takes in `n` bits, the lowest first. */
  function TakeBits(c: u32, b: nat, n: nat): u32
    decreases n
  {
    if n == 0 then c else TakeBits(TakeBit(c, b % 2 == 1), b / 2, n - 1)
  }

  lemma {:induction false} ShiftsFront(c: u32, n: nat)
    requires n > 0
    ensures Shifts(c, n) == Shifts(Shift(c), n - 1)
  {
    hide Shift;
    if n > 1 {
      ShiftsFront(c, n - 1);
    }
  }

  lemma LowBitFirst(c: u32, b: u32)
    ensures Shift(Xor(c, b)) == Xor(TakeBit(c, b % 2 == 1), b / 2)
  {
    hide XorNat;
    var low, high := b % 2, b - b % 2;
    assert LowBitsClear(high, 1) && low < Pow2(1) by { assert high % 2 == 0 && LowBitsClear(high / 2, 0); }
    XorOfParts(low, high, 1);
    XorAssociates(c, low, high);
    XorZero(c);
    ShiftLinear(Xor(c, low), high);
    assert high % 2 == 0 && high / 2 == b / 2;
  }

  /** Mixing a byte in and shifting eight times is taking its bits in one by one. */
  lemma {:induction false} ShiftsTakeBits(c: u32, b: u32, n: nat)
    requires b < Pow2(n)
    ensures Shifts(Xor(c, b), n) == TakeBits(c, b, n)
    decreases n
  {
    hide Shift, XorNat, TakeBit;
    if n == 0 {
      XorZero(c);
    } else {
      ShiftsFront(Xor(c, b), n);
      LowBitFirst(c, b);
      ShiftsTakeBits(TakeBit(c, b % 2 == 1), b / 2, n - 1);
    }
  }

  function TakeBytes(c: u32, bytes: seq<byte>): u32 {
    if bytes == [] then c else TakeBits(TakeBytes(c, bytes[..|bytes| - 1]), bytes[|bytes| - 1], 8)
  }

  /**
   The CRC of PNG section 5.5: from a register of ones, every bit of the data divided in, the least
   significant of each byte first, and the remainder complemented.
   */
  lemma {:induction false} CrcIsSerialDivision(bytes: seq<byte>)
    ensures Crc32(bytes) == Xor(TakeBytes(0xffff_ffff, bytes), 0xffff_ffff)
  {
    hide Xor;
    assert Feed(ALL_ONES, bytes) == TakeBytes(ALL_ONES, bytes) by { FeedTakesBytes(ALL_ONES, bytes); }
  }

  lemma {:induction false} FeedTakesBytes(c: u32, bytes: seq<byte>)
    ensures Feed(c, bytes) == TakeBytes(c, bytes)
  {
    hide Xor, Shifts, TakeBits;
    if bytes != [] {
      FeedTakesBytes(c, bytes[..|bytes| - 1]);
      Pow2Values();
      ShiftsTakeBits(Feed(c, bytes[..|bytes| - 1]), bytes[|bytes| - 1], 8);
    }
  }

  /** Nothing at all has the CRC zero. */
  lemma CrcOfNothing()
    ensures Crc32([]) == 0
  {
    XorCancels(ALL_ONES);
  }
}
