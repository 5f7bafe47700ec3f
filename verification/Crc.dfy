/** The CRC-24 of RFC 4880, section 6.1, computed octet by octet with a lookup table. */
module Crc24 {
  import opened Primitives
  import opened CrcBits
  import opened OctetBits

  const INIT: bv32 := 0xB704CE

  function Shifts(n: bv32, count: nat): bv32 {
    if count == 0 then n else Shift(Shifts(n, count - 1))
  }

  function Octet(n: bv32, octet: byte): bv32 {
    Shifts(Xor(n, Top(octet as bv8)), 8)
  }

  function Octets(n: bv32, buf: seq<byte>): bv32 {
    if buf == [] then n else Octet(Octets(n, buf[..|buf| - 1]), buf[|buf| - 1])
  }

  /** The reference: the bitwise CRC of the section, eight steps an octet. */
  function Checksum(buf: seq<byte>): bv32 {
    Low(Octets(INIT, buf))
  }

  lemma {:induction false} OctetsConcat(n: bv32, a: seq<byte>, b: seq<byte>)
    ensures Octets(n, a + b) == Octets(Octets(n, a), b)
  {
    hide Octet;
    if b == [] {
      assert a + b == a;
    } else {
      assert (a + b)[..|a + b| - 1] == a + b[..|b| - 1];
      OctetsConcat(n, a, b[..|b| - 1]);
    }
  }

  lemma {:induction false} ShiftsXor(a: bv32, b: bv32, count: nat)
    ensures Shifts(Xor(a, b), count) == Xor(Shifts(a, count), Shifts(b, count))
  {
    hide Xor, Shift;
    if count > 0 {
      ShiftsXor(a, b, count - 1);
      ShiftXor(Shifts(a, count - 1), Shifts(b, count - 1));
    }
  }

  lemma {:induction false} ShiftsLow(a: bv32, b: bv32, count: nat)
    requires Low(a) == Low(b)
    ensures Low(Shifts(a, count)) == Low(Shifts(b, count))
  {
    hide Low, Shift;
    if count > 0 {
      ShiftsLow(a, b, count - 1);
      ShiftLow(Shifts(a, count - 1), Shifts(b, count - 1));
    }
  }

  lemma {:induction false} ShiftsAdd(n: bv32, a: nat, b: nat)
    ensures Shifts(Shifts(n, a), b) == Shifts(n, a + b)
  {
    hide Shift;
    if b > 0 {
      ShiftsAdd(n, a, b - 1);
    }
  }

  /** Sixteen bits are moved up by eight without a reduction. */
  lemma ShiftsSmall(n: bv32)
    requires n <= 0xFFFF
    ensures Shifts(n, 8) == n << 8
  {
    var n1, n2, n3, n4 := n << 1, n << 2, n << 3, n << 4;
    var n5, n6, n7 := n << 5, n << 6, n << 7;
    ShiftSmall(n); ShiftSmall(n1); ShiftSmall(n2); ShiftSmall(n3);
    ShiftSmall(n4); ShiftSmall(n5); ShiftSmall(n6); ShiftSmall(n7);
    ShiftsNext(n, 0); ShiftsNext(n, 1); ShiftsNext(n, 2); ShiftsNext(n, 3);
    ShiftsNext(n, 4); ShiftsNext(n, 5); ShiftsNext(n, 6); ShiftsNext(n, 7);
  }

  lemma ShiftsNext(n: bv32, count: nat)
    ensures Shifts(n, count + 1) == Shift(Shifts(n, count))
  {
  }

  /** What the lookup table holds for an octet. */
  function Entry(x: bv8): bv32 {
    Shifts(Top(x), 8)
  }

  lemma EntryXor(a: bv8, b: bv8)
    ensures Entry(Xor8(a, b)) == Xor(Entry(a), Entry(b))
  {
    hide Xor, Top, Shifts;
    TopXor(a, b);
    ShiftsXor(Top(a), Top(b), 8);
  }

  /** The table entry an octet selects. */
  function Index(n: bv32, octet: byte): bv8 {
    Xor8(octet as bv8, Middle(n))
  }

  /** `self.n << 8 ^ entry` */
  function Advance(n: bv32, entry: bv32): bv32 {
    Xor(n << 8, entry)
  }

  /** One lookup does what eight steps do, as far as the low 24 bits are concerned. */
  lemma LookupIsEightSteps(n: bv32, m: bv32, octet: byte)
    requires Low(n) == Low(m)
    ensures Low(Advance(n, Entry(Index(n, octet)))) == Low(Octet(m, octet))
  {
    hide Shifts, Low, Xor, Top, Middle, Xor8;
    var o := octet as bv8;
    var x, rest := Index(n, octet), n & 0xFFFF;
    XorLow(m, n, Top(o));
    Split(n, o);
    ShiftsLow(Xor(m, Top(o)), Xor(Top(x), rest), 8);
    ShiftsXor(Top(x), rest, 8);
    SplitRest(n);
    ShiftsSmall(rest);
    XorLow(rest << 8, n << 8, Shifts(Top(x), 8));
    XorCommutes(n << 8, Shifts(Top(x), 8));
  }

  /** The next power of two: its entry is one step further. */
  lemma EntryNext(r: nat)
    requires r < 7
    ensures Entry(OneBit(r + 1)) == Shift(Entry(OneBit(r)))
  {
    hide Top, Shift, OneBit;
    var n := Top(OneBit(r));
    TopNext(r);
    ShiftSmall(n);
    ShiftsAdd(n, 1, 8);
    ShiftsNext(n, 0);
    ShiftsNext(n, 8);
  }

  lemma EntryFirst()
    ensures Entry(OneBit(0)) == Shift(0x800000)
  {
    assert Top(OneBit(0)) == 0x10000;
    ShiftSmall(0x10000); ShiftSmall(0x20000); ShiftSmall(0x40000); ShiftSmall(0x80000);
    ShiftSmall(0x100000); ShiftSmall(0x200000); ShiftSmall(0x400000);
    ShiftsNext(0x10000, 0); ShiftsNext(0x10000, 1); ShiftsNext(0x10000, 2); ShiftsNext(0x10000, 3);
    ShiftsNext(0x10000, 4); ShiftsNext(0x10000, 5); ShiftsNext(0x10000, 6); ShiftsNext(0x10000, 7);
  }

  /** The first `size` entries of the table are filled in. */
  ghost predicate IsTable(t: seq<bv32>, size: nat) {
    && size <= |t| == 256
    && forall x: bv8 | Number(x) < size :: t[Number(x)] == Entry(x)
  }

  lemma TableExtends(t: seq<bv32>, size: nat, x: bv8)
    requires IsTable(t, size) && size == Number(x) < 256
    ensures IsTable(t[size := Entry(x)], size + 1)
  {
    hide Entry, Number;
    var u := t[size := Entry(x)];
    forall y: bv8 | Number(y) < size + 1 ensures u[Number(y)] == Entry(y) {
      if Number(y) == size {
        Distinct(x, y);
      }
    }
  }

  lemma TableStarts(t: seq<bv32>)
    requires |t| == 256 && t[0] == 0
    ensures IsTable(t, 1)
  {
    forall y: bv8 | Number(y) < 1 ensures t[Number(y)] == Entry(y) {
      assert Number(0) == 0;
      Distinct(0, y);
      assert Top(0) == 0;
      ShiftsSmall(0);
    }
  }

  /** `t[i + j]` for a power of two `i` and a smaller `j`. */
  lemma TableCombines(t: seq<bv32>, r: nat, j: nat)
    requires r < 8 && j < Number(OneBit(r)) && IsTable(t, Number(OneBit(r)) + j)
    ensures Number(OneBit(r)) + j < 256
    ensures IsTable(t[Number(OneBit(r)) + j := Xor(Entry(OneBit(r)), t[j])], Number(OneBit(r)) + j + 1)
  {
    hide Entry, OneBit, Number, Xor, Xor8;
    var b := OctetOf(j);
    AddBit(r, b);
    EntryXor(OneBit(r), b);
    TableExtends(t, Number(OneBit(r)) + j, Xor8(OneBit(r), b));
  }

  /** One step, by the bit about to be shifted out. */
  function TableStep(crc: bv32): bv32 {
    if crc & 0x800000 != 0 then (crc << 1) ^ POLY else crc << 1
  }

  lemma TableStepIsShift(crc: bv32)
    ensures TableStep(crc) == Shift(crc)
  {
    hide Overflows;
    TopBit(crc);
  }

  /** The lookup table: each power of two takes one more step, and the entries in between
      combine those before. */
  method BuildTable() returns (t: seq<bv32>)
    ensures IsTable(t, 256)
  {
    hide Entry, IsTable, Shift, TableStep, OneBit, Number, Xor;
    t := seq(256, _ => 0);
    var crc: bv32 := 0x800000;
    var i := 1;
    ghost var r := 0;
    TableStarts(t);
    EntryFirst();
    NumberOneBit(0);
    while true
      invariant 0 <= r < 8 && i == Number(OneBit(r)) && i + Number(OneBit(r)) <= 256
      invariant |t| == 256 && IsTable(t, i) && Entry(OneBit(r)) == Shift(crc)
      decreases 8 - r
    {
      TableStepIsShift(crc);
      crc := TableStep(crc);
      for j := 0 to i
        invariant |t| == 256 && IsTable(t, i + j)
      {
        TableCombines(t, r, j);
        t := t[i + j := Xor(crc, t[j])];
      }
      i := i * 2;
      if i == 256 {
        break;
      }
      NumbersOneBit();
      NumberOneBit(r + 1);
      EntryNext(r);
      r := r + 1;
    }
  }

  lemma NumbersOneBit()
    ensures Number(OneBit(7)) == 128 && forall r | 0 <= r < 7 :: Number(OneBit(r)) <= 64
  {
    hide OneBit, Number;
    NumberOneBit(0); NumberOneBit(1); NumberOneBit(2); NumberOneBit(3);
    NumberOneBit(4); NumberOneBit(5); NumberOneBit(6); NumberOneBit(7);
    forall r | 0 <= r < 7 ensures Number(OneBit(r)) <= 64 {
      assert r == 0 || r == 1 || r == 2 || r == 3 || r == 4 || r == 5 || r == 6;
    }
  }

  /** The number that three octets denote. */
  function Denoted(b: seq<byte>): nat
    requires |b| == 3
  {
    var x: nat, y: nat, z: nat := b[0], b[1], b[2];
    x * 0x10000 + y * 0x100 + z
  }

  /** The three octets of a checksum, most significant first. */
  function BigEndian(crc: bv32): (b: seq<byte>)
    ensures |b| == 3
  {
    [Number(((crc >> 16) & 0xFF) as bv8), Number(((crc >> 8) & 0xFF) as bv8), Number((crc & 0xFF) as bv8)]
  }

  lemma BigEndianDenotes(crc: bv32)
    ensures Denoted(BigEndian(crc)) == Low(crc) as int
  {
    var x, y, z := ((crc >> 16) & 0xFF) as bv8, ((crc >> 8) & 0xFF) as bv8, (crc & 0xFF) as bv8;
    hide Low, Number;
    LowOctets(crc);
    ThreeOctets(x, y, z);
    assert BigEndian(crc) == [Number(x), Number(y), Number(z)];
  }

  /** The checksum of nothing, and of the letter "a". */
  lemma KnownSums()
    ensures Checksum([]) == 0xB704CE && Checksum([0x61]) == 0xF25713
  {
    assert Low(INIT) == 0xB704CE;
    var n := Xor(INIT, Top(0x61));
    assert n == 0xD604CE;
    EightSteps(n, 0x12A4567, 0x2548ACE, 0x4A9159C, 0x9D467C3, 0x132E837D, 0x265D06FA, 0x4CBA0DF4, 0x99F25713);
    assert Low(0x99F25713) == 0xF25713;
    hide Low, Xor, Top, Shifts;
    assert [0x61][..0] == [];
    assert Octets(INIT, [0x61]) == Octet(INIT, 0x61);
  }

  /** Eight steps, one after the other. */
  lemma EightSteps(n: bv32, a: bv32, b: bv32, c: bv32, d: bv32, e: bv32, f: bv32, g: bv32, h: bv32)
    requires Shift(n) == a && Shift(a) == b && Shift(b) == c && Shift(c) == d
    requires Shift(d) == e && Shift(e) == f && Shift(f) == g && Shift(g) == h
    ensures Shifts(n, 8) == h
  {
    hide Shift;
    ShiftsNext(n, 0); ShiftsNext(n, 1); ShiftsNext(n, 2); ShiftsNext(n, 3);
    ShiftsNext(n, 4); ShiftsNext(n, 5); ShiftsNext(n, 6); ShiftsNext(n, 7);
  }

  /** The running checksum of a writer. */
  class Crc {
    var n: bv32
    /** Everything the checksum was computed over. */
    ghost var seen: seq<byte>

    ghost predicate Valid()
      reads this
    {
      Low(n) == Checksum(seen)
    }

    constructor ()
      ensures Valid() && seen == []
    {
      n, seen := INIT, [];
    }

    /** `update`: one lookup an octet; the bits above the low 24 are garbage. */
    method Update(buf: seq<byte>)
      requires Valid()
      modifies this
      ensures Valid() && seen == old(seen) + buf
    {
      hide Low, Entry, IsTable, Octet, Index, Advance, Number;
      var table := BuildTable();
      for i := 0 to |buf|
        invariant Valid() && seen == old(seen) + buf[..i]
      {
        var x := Index(n, buf[i]);
        LookupIsEightSteps(n, Octets(INIT, seen), buf[i]);
        TableLookup(table, x);
        ghost var more := seen + [buf[i]];
        assert more[..|more| - 1] == seen;
        n := Advance(n, table[Number(x)]);
        seen := more;
        assert buf[..i + 1] == buf[..i] + [buf[i]];
      }
      assert buf[..|buf|] == buf;
    }

    /** `finalize` */
    method Finalize() returns (crc: bv32)
      requires Valid()
      ensures crc == Checksum(seen)
    {
      crc := Low(n);
    }
  }

  lemma TableLookup(t: seq<bv32>, x: bv8)
    requires IsTable(t, 256)
    ensures Number(x) < |t| && t[Number(x)] == Entry(x)
  {
  }
}
