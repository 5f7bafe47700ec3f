/** Single steps of the CRC-24 of RFC 4880, section 6.1, on bit patterns. */
module CrcBits {
  const POLY: bv32 := 0x864CFB

  function Xor(a: bv32, b: bv32): bv32 {
    a ^ b
  }

  function Double(a: bv32): bv32 {
    a << 1
  }

  /** The 24 bits that matter. */
  function Low(a: bv32): bv32 {
    a & 0xFFFFFF
  }

  predicate Overflows(n: bv32) {
    n & 0x1000000 != 0
  }

  /** One step of the division: shift in a zero bit, and reduce if bit 24 became set. */
  function Shift(n: bv32): bv32 {
    if Overflows(Double(n)) then Xor(Double(n), POLY) else Double(n)
  }

  lemma DoubleXor(a: bv32, b: bv32)
    ensures Double(Xor(a, b)) == Xor(Double(a), Double(b))
  {
  }

  lemma OverflowsXor(a: bv32, b: bv32)
    ensures Overflows(Xor(a, b)) <==> Overflows(a) != Overflows(b)
  {
  }

  lemma XorMoves(a: bv32, b: bv32, c: bv32)
    ensures Xor(Xor(a, b), c) == Xor(a, Xor(b, c))
  {
  }

  lemma XorCommutes(a: bv32, b: bv32)
    ensures Xor(a, b) == Xor(b, a)
  {
  }

  lemma XorSelf(a: bv32, b: bv32)
    ensures Xor(Xor(a, b), b) == a
  {
  }

  lemma XorCancels(a: bv32, b: bv32, p: bv32)
    ensures Xor(Xor(a, p), Xor(b, p)) == Xor(a, b)
    ensures Xor(Xor(a, p), b) == Xor(Xor(a, b), p) && Xor(a, Xor(b, p)) == Xor(Xor(a, b), p)
  {
    hide Xor;
    XorMoves(a, b, p);
    XorMoves(a, p, b);
    XorCommutes(b, p);
    XorMoves(Xor(a, p), b, p);
    XorSelf(Xor(a, b), p);
  }

  /** The step is linear over exclusive or. */
  lemma ShiftXor(a: bv32, b: bv32)
    ensures Shift(Xor(a, b)) == Xor(Shift(a), Shift(b))
  {
    hide Xor, Double, Overflows;
    DoubleXor(a, b);
    OverflowsXor(Double(a), Double(b));
    XorCancels(Double(a), Double(b), POLY);
  }

  lemma DoubleLow(a: bv32, b: bv32)
    requires Low(a) == Low(b)
    ensures Low(Double(a)) == Low(Double(b)) && (Overflows(Double(a)) <==> Overflows(Double(b)))
  {
  }

  lemma XorLow(a: bv32, b: bv32, c: bv32)
    requires Low(a) == Low(b)
    ensures Low(Xor(a, c)) == Low(Xor(b, c)) && Low(Xor(c, a)) == Low(Xor(c, b))
  {
  }

  /** The step respects the 24 bits that matter. */
  lemma ShiftLow(a: bv32, b: bv32)
    requires Low(a) == Low(b)
    ensures Low(Shift(a)) == Low(Shift(b))
  {
    hide Xor, Double, Overflows, Low;
    DoubleLow(a, b);
    XorLow(Double(a), Double(b), POLY);
  }

  /** A pattern that keeps clear of the top bit is only shifted. */
  lemma ShiftSmall(n: bv32)
    requires n & 0x800000 == 0
    ensures Shift(n) == n << 1
  {
    SmallDouble(n);
  }

  lemma SmallDouble(n: bv32)
    requires n & 0x800000 == 0
    ensures !Overflows(Double(n)) && Double(n) == n << 1
  {
  }

  /** Looking at the top bit before the shift, or above it after, is the same. */
  lemma TopBit(n: bv32)
    ensures n & 0x800000 != 0 <==> Overflows(Double(n))
  {
  }

  lemma SplitRest(n: bv32)
    ensures (n & 0xFFFF) <= 0xFFFF && Low((n & 0xFFFF) << 8) == Low(n << 8)
  {
  }
}

/** Octets as bit patterns and as numbers. */
module OctetBits {
  import opened CrcBits

  /** An octet, moved to the bits above the low 16. */
  function Top(x: bv8): bv32 {
    x as bv32 << 16
  }

  /** `(n >> 16) as u8` */
  function Middle(n: bv32): bv8 {
    ((n >> 16) & 0xFF) as bv8
  }

  function Xor8(a: bv8, b: bv8): bv8 {
    a ^ b
  }

  /** The octet as an index. */
  function Number(x: bv8): (k: nat)
    ensures k < 256
  {
    x as int
  }

  lemma Split(n: bv32, x: bv8)
    ensures Low(Xor(n, Top(x))) == Low(Xor(Top(Xor8(x, Middle(n))), n & 0xFFFF))
  {
  }

  lemma TopXor(a: bv8, b: bv8)
    ensures Top(Xor8(a, b)) == Xor(Top(a), Top(b))
  {
  }

  /** The octet with only bit `r` set, and the octet with number `k`. */
  function OneBit(r: nat): bv8
    requires r < 8
  {
    1 << r
  }

  lemma TopNext(r: nat)
    requires r < 7
    ensures Top(OneBit(r)) & 0x800000 == 0 && Top(OneBit(r + 1)) == Top(OneBit(r)) << 1
  {
  }

  /** Adding a number below a single bit sets its bits. */
  lemma AddBit(r: nat, b: bv8)
    requires r < 8 && Number(b) < Number(OneBit(r))
    ensures Number(Xor8(OneBit(r), b)) == Number(OneBit(r)) + Number(b)
  {
    var a := OneBit(r);
    Below(a, b);
    AddBitBelow(a, b);
  }

  lemma Below(a: bv8, b: bv8)
    requires b as int < a as int
    ensures b < a
  {
  }

  lemma AddBitBelow(a: bv8, b: bv8)
    requires a == 1 || a == 2 || a == 4 || a == 8 || a == 16 || a == 32 || a == 64 || a == 128
    requires b < a
    ensures (a ^ b) as int == a as int + b as int
  {
  }

  lemma NumberOneBit(r: nat)
    requires r < 8
    ensures Number(OneBit(r)) == if r == 0 then 1 else 2 * Number(OneBit(r - 1))
  {
  }

  lemma Distinct(a: bv8, b: bv8)
    requires Number(a) == Number(b)
    ensures a == b
  {
  }

  /** Every number below 256 is the number of an octet. */
  lemma {:induction false} OctetOf(k: nat) returns (x: bv8)
    requires k < 256
    ensures Number(x) == k
  {
    if k == 0 {
      x := 0;
    } else {
      var y := OctetOf(k - 1);
      Below(255, y);
      x := Following(y);
    }
  }

  lemma Following(y: bv8) returns (x: bv8)
    requires y < 255
    ensures Number(x) == Number(y) + 1
  {
    x := y + 1;
  }

  /** Three octets, most significant first, and the number they denote. */
  lemma ThreeOctets(x: bv8, y: bv8, z: bv8)
    ensures ((x as bv32 << 16) | (y as bv32 << 8) | (z as bv32)) as int
      == Number(x) * 0x10000 + Number(y) * 0x100 + Number(z)
  {
  }

  lemma LowTwice(n: bv32)
    ensures Low(Low(n)) == Low(n)
  {
  }

  lemma LowOctets(n: bv32)
    ensures Low(n) == ((((n >> 16) & 0xFF) as bv8) as bv32 << 16)
      | ((((n >> 8) & 0xFF) as bv8) as bv32 << 8) | (((n & 0xFF) as bv8) as bv32)
  {
  }
}
