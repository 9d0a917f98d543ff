/** The checksum of compressed RTF: a table-driven, reflected CRC with a zero start value. */
module Crc {
  import opened Bits
  import opened Bytes

  /** Entry `i` of one block of sixteen. */
  function Entry(i: bv8, v0: bv32, v1: bv32, v2: bv32, v3: bv32, v4: bv32, v5: bv32, v6: bv32, v7: bv32,
                 v8: bv32, v9: bv32, va: bv32, vb: bv32, vc: bv32, vd: bv32, ve: bv32, vf: bv32): bv32 {
    if i < 8 then (if i < 4 then (if i < 2 then (if i < 1 then v0 else v1) else (if i < 3 then v2 else v3)) else (if i < 6 then (if i < 5 then v4 else v5) else (if i < 7 then v6 else v7)))
    else (if i < 12 then (if i < 10 then (if i < 9 then v8 else v9) else (if i < 11 then va else vb)) else (if i < 14 then (if i < 13 then vc else vd) else (if i < 15 then ve else vf)))
  }

  /** `crc_table`, in blocks of sixteen. */
  function Table(j: bv8): bv32 {
    match j >> 4
    case 0 =>
      Entry(j & 0xf,
            0x00000000, 0x77073096, 0xee0e612c, 0x990951ba,
            0x076dc419, 0x706af48f, 0xe963a535, 0x9e6495a3,
            0x0edb8832, 0x79dcb8a4, 0xe0d5e91e, 0x97d2d988,
            0x09b64c2b, 0x7eb17cbd, 0xe7b82d07, 0x90bf1d91)
    case 1 =>
      Entry(j & 0xf,
            0x1db71064, 0x6ab020f2, 0xf3b97148, 0x84be41de,
            0x1adad47d, 0x6ddde4eb, 0xf4d4b551, 0x83d385c7,
            0x136c9856, 0x646ba8c0, 0xfd62f97a, 0x8a65c9ec,
            0x14015c4f, 0x63066cd9, 0xfa0f3d63, 0x8d080df5)
    case 2 =>
      Entry(j & 0xf,
            0x3b6e20c8, 0x4c69105e, 0xd56041e4, 0xa2677172,
            0x3c03e4d1, 0x4b04d447, 0xd20d85fd, 0xa50ab56b,
            0x35b5a8fa, 0x42b2986c, 0xdbbbc9d6, 0xacbcf940,
            0x32d86ce3, 0x45df5c75, 0xdcd60dcf, 0xabd13d59)
    case 3 =>
      Entry(j & 0xf,
            0x26d930ac, 0x51de003a, 0xc8d75180, 0xbfd06116,
            0x21b4f4b5, 0x56b3c423, 0xcfba9599, 0xb8bda50f,
            0x2802b89e, 0x5f058808, 0xc60cd9b2, 0xb10be924,
            0x2f6f7c87, 0x58684c11, 0xc1611dab, 0xb6662d3d)
    case 4 =>
      Entry(j & 0xf,
            0x76dc4190, 0x01db7106, 0x98d220bc, 0xefd5102a,
            0x71b18589, 0x06b6b51f, 0x9fbfe4a5, 0xe8b8d433,
            0x7807c9a2, 0x0f00f934, 0x9609a88e, 0xe10e9818,
            0x7f6a0dbb, 0x086d3d2d, 0x91646c97, 0xe6635c01)
    case 5 =>
      Entry(j & 0xf,
            0x6b6b51f4, 0x1c6c6162, 0x856530d8, 0xf262004e,
            0x6c0695ed, 0x1b01a57b, 0x8208f4c1, 0xf50fc457,
            0x65b0d9c6, 0x12b7e950, 0x8bbeb8ea, 0xfcb9887c,
            0x62dd1ddf, 0x15da2d49, 0x8cd37cf3, 0xfbd44c65)
    case 6 =>
      Entry(j & 0xf,
            0x4db26158, 0x3ab551ce, 0xa3bc0074, 0xd4bb30e2,
            0x4adfa541, 0x3dd895d7, 0xa4d1c46d, 0xd3d6f4fb,
            0x4369e96a, 0x346ed9fc, 0xad678846, 0xda60b8d0,
            0x44042d73, 0x33031de5, 0xaa0a4c5f, 0xdd0d7cc9)
    case 7 =>
      Entry(j & 0xf,
            0x5005713c, 0x270241aa, 0xbe0b1010, 0xc90c2086,
            0x5768b525, 0x206f85b3, 0xb966d409, 0xce61e49f,
            0x5edef90e, 0x29d9c998, 0xb0d09822, 0xc7d7a8b4,
            0x59b33d17, 0x2eb40d81, 0xb7bd5c3b, 0xc0ba6cad)
    case 8 =>
      Entry(j & 0xf,
            0xedb88320, 0x9abfb3b6, 0x03b6e20c, 0x74b1d29a,
            0xead54739, 0x9dd277af, 0x04db2615, 0x73dc1683,
            0xe3630b12, 0x94643b84, 0x0d6d6a3e, 0x7a6a5aa8,
            0xe40ecf0b, 0x9309ff9d, 0x0a00ae27, 0x7d079eb1)
    case 9 =>
      Entry(j & 0xf,
            0xf00f9344, 0x8708a3d2, 0x1e01f268, 0x6906c2fe,
            0xf762575d, 0x806567cb, 0x196c3671, 0x6e6b06e7,
            0xfed41b76, 0x89d32be0, 0x10da7a5a, 0x67dd4acc,
            0xf9b9df6f, 0x8ebeeff9, 0x17b7be43, 0x60b08ed5)
    case 10 =>
      Entry(j & 0xf,
            0xd6d6a3e8, 0xa1d1937e, 0x38d8c2c4, 0x4fdff252,
            0xd1bb67f1, 0xa6bc5767, 0x3fb506dd, 0x48b2364b,
            0xd80d2bda, 0xaf0a1b4c, 0x36034af6, 0x41047a60,
            0xdf60efc3, 0xa867df55, 0x316e8eef, 0x4669be79)
    case 11 =>
      Entry(j & 0xf,
            0xcb61b38c, 0xbc66831a, 0x256fd2a0, 0x5268e236,
            0xcc0c7795, 0xbb0b4703, 0x220216b9, 0x5505262f,
            0xc5ba3bbe, 0xb2bd0b28, 0x2bb45a92, 0x5cb36a04,
            0xc2d7ffa7, 0xb5d0cf31, 0x2cd99e8b, 0x5bdeae1d)
    case 12 =>
      Entry(j & 0xf,
            0x9b64c2b0, 0xec63f226, 0x756aa39c, 0x026d930a,
            0x9c0906a9, 0xeb0e363f, 0x72076785, 0x05005713,
            0x95bf4a82, 0xe2b87a14, 0x7bb12bae, 0x0cb61b38,
            0x92d28e9b, 0xe5d5be0d, 0x7cdcefb7, 0x0bdbdf21)
    case 13 =>
      Entry(j & 0xf,
            0x86d3d2d4, 0xf1d4e242, 0x68ddb3f8, 0x1fda836e,
            0x81be16cd, 0xf6b9265b, 0x6fb077e1, 0x18b74777,
            0x88085ae6, 0xff0f6a70, 0x66063bca, 0x11010b5c,
            0x8f659eff, 0xf862ae69, 0x616bffd3, 0x166ccf45)
    case 14 =>
      Entry(j & 0xf,
            0xa00ae278, 0xd70dd2ee, 0x4e048354, 0x3903b3c2,
            0xa7672661, 0xd06016f7, 0x4969474d, 0x3e6e77db,
            0xaed16a4a, 0xd9d65adc, 0x40df0b66, 0x37d83bf0,
            0xa9bcae53, 0xdebb9ec5, 0x47b2cf7f, 0x30b5ffe9)
    case _ =>
      Entry(j & 0xf,
            0xbdbdf21c, 0xcabac28a, 0x53b39330, 0x24b4a3a6,
            0xbad03605, 0xcdd70693, 0x54de5729, 0x23d967bf,
            0xb3667a2e, 0xc4614ab8, 0x5d681b02, 0x2a6f2b94,
            0xb40bbe37, 0xc30c8ea1, 0x5a05df1b, 0x2d02ef8d)
  }

  /** The checksum register: a polynomial of degree below 32, its highest power in the lowest bit. */
  datatype Register = Register(bits: bv32)

  const ZERO := Register(0)

  function Plus(a: Register, b: Register): Register {
    Register(a.bits ^ b.bits)
  }

  function OfBits(v: bv8): Register {
    Register(v as bv32)
  }

  function OfByte(b: byte): Register {
    OfBits(ToBits(b))
  }

  function LowByte(c: Register): bv8 {
    (c.bits & 0xff) as bv8
  }

  function DropByte(c: Register): Register {
    Register(c.bits >> 8)
  }

  function Lookup(j: bv8): Register {
    Register(Table(j))
  }

  /** One byte of the program's loop. */
  function Feed(c: Register, b: byte): Register {
    Plus(Lookup(LowByte(Plus(c, OfByte(b)))), DropByte(c))
  }

  /** The register after the bytes `s`, starting from `c`. */
  function Update(c: Register, s: seq<byte>): Register
    decreases |s|
  {
    if s == [] then c else Update(Feed(c, s[0]), s[1..])
  }

  function Checksum(s: seq<byte>): bv32 {
    Update(ZERO, s).bits
  }

  /** `generate_crc` on `data[start..start + len]`. */
  method GenerateCrc(data: array<byte>, start: nat, len: nat) returns (crc: bv32)
    requires start + len <= data.Length
    ensures crc == Checksum(data[start..start + len])
  {
    hide Plus, OfByte, LowByte, DropByte, Lookup;
    var c := ZERO;
    ghost var s := data[start..start + len];
    for i := 0 to len
      invariant Update(c, s[i..]) == Update(ZERO, s)
    {
      assert s[i..][0] == data[start + i] && s[i..][1..] == s[i + 1..];
      var j := LowByte(Plus(c, OfByte(data[start + i])));
      c := Plus(Lookup(j), DropByte(c));
    }
    crc := c.bits;
  }

  // ----- Bit-at-a-time division -----

  /** The polynomial 0xEDB88320. */
  const POLYNOMIAL := Register(0xedb88320)

  predicate Odd(c: Register) {
    c.bits & 1 == 1
  }

  function Halve(c: Register): Register {
    Register(c.bits >> 1)
  }

  /** One step of reflected division: shift right and subtract the polynomial if a 1 fell out. */
  function Shift(c: Register): Register {
    if Odd(c) then Plus(Halve(c), POLYNOMIAL) else Halve(c)
  }

  function Shift2(c: Register): Register {
    Shift(Shift(c))
  }

  function Shift4(c: Register): Register {
    Shift2(Shift2(c))
  }

  function Shift8(c: Register): Register {
    Shift4(Shift4(c))
  }

  function Shifts(c: Register, n: nat): Register
    decreases n
  {
    if n == 0 then c else Shifts(Shift(c), n - 1)
  }

  /** The low `n` bits of `x`, least significant first. */
  function BitsOf(x: Register, n: nat): (bits: seq<bool>)
    decreases n
  {
    if n == 0 then [] else [Odd(x)] + BitsOf(Halve(x), n - 1)
  }

  /** The bits of a byte string in the order they enter the division. */
  function BitStream(s: seq<byte>): seq<bool> {
    if s == [] then [] else BitsOf(OfByte(s[0]), 8) + BitStream(s[1..])
  }

  function Unit(bit: bool): Register {
    Register(if bit then 1 else 0)
  }

  /** Division of a bit stream: each bit is added to the low end of the register, then shifted. */
  function Divide(c: Register, bits: seq<bool>): Register
    decreases |bits|
  {
    if bits == [] then c else Divide(Shift(Plus(c, Unit(bits[0]))), bits[1..])
  }

  lemma TableFirstQuarter(j: bv8)
    requires j < 0x40
    ensures Lookup(j) == Shift8(Register(j as bv32))
  {
  }

  lemma TableSecondQuarter(j: bv8)
    requires 0x40 <= j < 0x80
    ensures Lookup(j) == Shift8(Register(j as bv32))
  {
  }

  lemma TableThirdQuarter(j: bv8)
    requires 0x80 <= j < 0xc0
    ensures Lookup(j) == Shift8(Register(j as bv32))
  {
  }

  lemma TableFourthQuarter(j: bv8)
    requires 0xc0 <= j
    ensures Lookup(j) == Shift8(Register(j as bv32))
  {
  }

  /** Every entry of the table is its index shifted eight times. */
  lemma TableIsEightShifts(j: bv8)
    ensures Lookup(j) == Shift8(Register(j as bv32))
  {
    hide Table, Shift8;
    if j < 0x40 {
      TableFirstQuarter(j);
    } else if j < 0x80 {
      TableSecondQuarter(j);
    } else if j < 0xc0 {
      TableThirdQuarter(j);
    } else {
      TableFourthQuarter(j);
    }
  }

  // ----- Addition: the only facts about bit-vectors that the rest needs -----

  lemma PlusAssociates(a: Register, b: Register, c: Register)
    ensures Plus(Plus(a, b), c) == Plus(a, Plus(b, c))
  {
  }

  lemma PlusCommutes(a: Register, b: Register)
    ensures Plus(a, b) == Plus(b, a)
  {
  }

  lemma PlusZero(a: Register)
    ensures Plus(a, ZERO) == a && Plus(a, a) == ZERO
  {
  }

  lemma OddPlus(a: Register, b: Register)
    ensures Odd(Plus(a, b)) <==> Odd(a) != Odd(b)
  {
  }

  lemma HalvePlus(a: Register, b: Register)
    ensures Halve(Plus(a, b)) == Plus(Halve(a), Halve(b))
  {
  }

  /** Only the polynomial sets the top bit of a shifted register. */
  lemma HalveNotMarked(a: Register, b: Register)
    ensures Halve(a) != Plus(Halve(b), POLYNOMIAL)
  {
    assert (a.bits >> 1) & 0x8000_0000 == 0;
    assert ((b.bits >> 1) ^ 0xedb88320) & 0x8000_0000 != 0;
  }

  function Join(h: Register, odd: bool): Register {
    Register((h.bits << 1) | (if odd then 1 else 0))
  }

  lemma JoinHalves(a: Register)
    ensures Join(Halve(a), Odd(a)) == a
  {
  }

  // ----- Division is linear and loses nothing -----

  lemma PlusCancels(a: Register, b: Register, c: Register)
    requires Plus(a, c) == Plus(b, c)
    ensures a == b
  {
    hide Plus;
    PlusAssociates(a, c, c);
    PlusAssociates(b, c, c);
    PlusZero(c);
    PlusZero(a);
    PlusZero(b);
  }

  /** Sums regroup. */
  lemma PlusRegroups(a: Register, b: Register, c: Register, d: Register)
    ensures Plus(Plus(a, b), Plus(c, d)) == Plus(Plus(a, c), Plus(b, d))
  {
    hide Plus;
    PlusAssociates(a, b, Plus(c, d));
    PlusAssociates(b, c, d);
    PlusCommutes(b, c);
    PlusAssociates(c, b, d);
    PlusAssociates(a, c, Plus(b, d));
  }

  lemma ShiftLinear(a: Register, b: Register)
    ensures Shift(Plus(a, b)) == Plus(Shift(a), Shift(b))
  {
    hide Plus, Odd, Halve;
    OddPlus(a, b);
    HalvePlus(a, b);
    var ha, hb := Halve(a), Halve(b);
    PlusRegroups(ha, POLYNOMIAL, hb, POLYNOMIAL);
    PlusZero(POLYNOMIAL);
    PlusZero(Plus(ha, hb));
    PlusAssociates(ha, POLYNOMIAL, hb);
    PlusCommutes(POLYNOMIAL, hb);
    PlusAssociates(ha, hb, POLYNOMIAL);
  }

  lemma Shift8Linear(a: Register, b: Register)
    ensures Shift8(Plus(a, b)) == Plus(Shift8(a), Shift8(b))
  {
    hide Shift, Plus;
    Shift4Linear(a, b);
    Shift4Linear(Shift4(a), Shift4(b));
  }

  lemma Shift4Linear(a: Register, b: Register)
    ensures Shift4(Plus(a, b)) == Plus(Shift4(a), Shift4(b))
  {
    hide Shift, Plus;
    Shift2Linear(a, b);
    Shift2Linear(Shift2(a), Shift2(b));
  }

  lemma Shift2Linear(a: Register, b: Register)
    ensures Shift2(Plus(a, b)) == Plus(Shift2(a), Shift2(b))
  {
    hide Shift, Plus;
    ShiftLinear(a, b);
    ShiftLinear(Shift(a), Shift(b));
  }

  lemma ShiftInjective(a: Register, b: Register)
    requires Shift(a) == Shift(b)
    ensures a == b
  {
    hide Plus, Odd, Halve, Join;
    HalveNotMarked(a, b);
    HalveNotMarked(b, a);
    if Odd(a) && Odd(b) {
      PlusCancels(Halve(a), Halve(b), POLYNOMIAL);
    }
    JoinHalves(a);
    JoinHalves(b);
  }

  lemma Shift8Injective(a: Register, b: Register)
    requires Shift8(a) == Shift8(b)
    ensures a == b
  {
    hide Shift;
    ShiftInjective(Shift(Shift2(Shift4(a))), Shift(Shift2(Shift4(b))));
    ShiftInjective(Shift2(Shift4(a)), Shift2(Shift4(b)));
    ShiftInjective(Shift(Shift4(a)), Shift(Shift4(b)));
    ShiftInjective(Shift4(a), Shift4(b));
    ShiftInjective(Shift(Shift2(a)), Shift(Shift2(b)));
    ShiftInjective(Shift2(a), Shift2(b));
    ShiftInjective(Shift(a), Shift(b));
    ShiftInjective(a, b);
  }

  // ----- The table loop is the division -----

  function Up(c: Register): Register {
    Register(c.bits << 8)
  }

  /** Eight shifts merely move what lies above the low byte. */
  lemma UpMoves(c: Register)
    ensures Shift8(Up(c)) == DropByte(Up(c))
  {
  }

  lemma SplitLowByte(x: Register)
    ensures Plus(Register(LowByte(x) as bv32), Up(DropByte(x))) == x
  {
  }

  lemma DropUpDrop(x: Register)
    ensures DropByte(Up(DropByte(x))) == DropByte(x)
  {
  }

  lemma DropAddedByte(c: Register, b: byte)
    ensures DropByte(Plus(c, OfByte(b))) == DropByte(c)
  {
  }

  /** One byte of the program's loop is eight shifts of the register with the byte added in. */
  lemma FeedIsEightShifts(c: Register, b: byte)
    ensures Feed(c, b) == Shift8(Plus(c, OfByte(b)))
  {
    hide Plus, OfByte, LowByte, DropByte, Lookup, Shift8, Up;
    var x := Plus(c, OfByte(b));
    SplitLowByte(x);
    DropUpDrop(x);
    TableIsEightShifts(LowByte(x));
    UpMoves(DropByte(x));
    Shift8Linear(Register(LowByte(x) as bv32), Up(DropByte(x)));
    DropAddedByte(c, b);
  }

  lemma Shift8IsShifts(c: Register)
    ensures Shift8(c) == Shifts(c, 8)
  {
    hide Shift;
    var c4 := Shift4(c);
    assert Shifts(c, 8) == Shifts(Shift(c), 7) == Shifts(Shift2(c), 6) == Shifts(Shift(Shift2(c)), 5) == Shifts(c4, 4);
    assert Shifts(c4, 4) == Shifts(Shift(c4), 3) == Shifts(Shift2(c4), 2) == Shifts(Shift(Shift2(c4)), 1) == Shifts(Shift4(c4), 0);
  }

  function Even(x: Register): Register {
    Register((x.bits >> 1) << 1)
  }

  lemma SplitLowBit(x: Register)
    ensures Plus(Unit(Odd(x)), Even(x)) == x
  {
  }

  lemma EvenIsEven(x: Register)
    ensures !Odd(Even(x))
  {
  }

  lemma HalveEven(x: Register)
    ensures Halve(Even(x)) == Halve(x)
  {
  }

  predicate Below(x: Register, n: nat)
    decreases n
  {
    if n == 0 then x == ZERO else Below(Halve(x), n - 1)
  }

  lemma ByteBelow(b: byte)
    ensures Below(OfByte(b), 8)
  {
    var x := OfByte(b);
    var x4 := Halve(Halve(Halve(Halve(x))));
    assert Below(x, 8) == Below(x4, 4);
    assert Below(x4, 4) == (Halve(Halve(Halve(Halve(x4)))) == ZERO);
  }

  /** Dividing the `n` bits of `x` one by one is adding them all at once and shifting `n` times. */
  lemma {:induction false} DivideIsShifts(c: Register, x: Register, n: nat)
    requires Below(x, n)
    ensures Divide(c, BitsOf(x, n)) == Shifts(Plus(c, x), n)
    decreases n
  {
    hide Plus, Odd, Halve, Unit, Even;
    if n == 0 {
      PlusZero(c);
    } else {
      var u, e := Unit(Odd(x)), Even(x);
      SplitLowBit(x);
      EvenIsEven(x);
      HalveEven(x);
      PlusAssociates(c, u, e);
      ShiftLinear(Plus(c, u), e);
      assert Shift(e) == Halve(x);
      assert BitsOf(x, n)[1..] == BitsOf(Halve(x), n - 1);
      DivideIsShifts(Shift(Plus(c, u)), Halve(x), n - 1);
    }
  }

  lemma {:induction false} DivideConcat(c: Register, a: seq<bool>, b: seq<bool>)
    ensures Divide(c, a + b) == Divide(Divide(c, a), b)
    decreases |a|
  {
    hide Plus, Unit, Shift;
    if a == [] {
      assert a + b == b;
    } else {
      assert (a + b)[1..] == a[1..] + b;
      DivideConcat(Shift(Plus(c, Unit(a[0]))), a[1..], b);
    }
  }

  /** The table-driven loop computes the bit-at-a-time division, for every byte string and start value. */
  lemma {:induction false} UpdateIsDivision(c: Register, s: seq<byte>)
    ensures Update(c, s) == Divide(c, BitStream(s))
    decreases |s|
  {
    hide Plus, Feed, Shift, Shift8, OfByte;
    if s != [] {
      var b := OfByte(s[0]);
      FeedIsEightShifts(c, s[0]);
      Shift8IsShifts(Plus(c, b));
      ByteBelow(s[0]);
      DivideIsShifts(c, b, 8);
      DivideConcat(c, BitsOf(b, 8), BitStream(s[1..]));
      UpdateIsDivision(Feed(c, s[0]), s[1..]);
    }
  }

  /** A checksum can be computed in pieces. */
  lemma {:induction false} UpdateConcat(c: Register, a: seq<byte>, b: seq<byte>)
    ensures Update(c, a + b) == Update(Update(c, a), b)
    decreases |a|
  {
    hide Feed;
    if a == [] {
      assert a + b == b;
    } else {
      assert (a + b)[1..] == a[1..] + b;
      UpdateConcat(Feed(c, a[0]), a[1..], b);
    }
  }

  // ----- Linearity -----

  function PlusByte(a: byte, b: byte): byte {
    FromBits(ToBits(a) ^ ToBits(b))
  }

  function PlusBytes(s: seq<byte>, t: seq<byte>): (r: seq<byte>)
    requires |s| == |t|
    ensures |r| == |s|
  {
    if s == [] then [] else [PlusByte(s[0], t[0])] + PlusBytes(s[1..], t[1..])
  }

  lemma OfBitsLinear(v: bv8, w: bv8)
    ensures OfBits(v ^ w) == Plus(OfBits(v), OfBits(w))
  {
  }

  lemma OfByteLinear(a: byte, b: byte)
    ensures OfByte(PlusByte(a, b)) == Plus(OfByte(a), OfByte(b))
  {
    hide OfBits, Plus, ToBits, FromBits;
    ToFromBits(ToBits(a) ^ ToBits(b));
    OfBitsLinear(ToBits(a), ToBits(b));
  }

  lemma FeedLinear(c: Register, d: Register, a: byte, b: byte)
    ensures Feed(Plus(c, d), PlusByte(a, b)) == Plus(Feed(c, a), Feed(d, b))
  {
    hide Plus, Feed, Shift8, OfByte, PlusByte;
    FeedIsEightShifts(c, a);
    FeedIsEightShifts(d, b);
    FeedIsEightShifts(Plus(c, d), PlusByte(a, b));
    OfByteLinear(a, b);
    PlusRegroups(c, d, OfByte(a), OfByte(b));
    Shift8Linear(Plus(c, OfByte(a)), Plus(d, OfByte(b)));
  }

  /** The checksum of the XOR of two equally long strings is the XOR of their checksums. */
  lemma {:induction false} UpdateLinear(c: Register, d: Register, s: seq<byte>, t: seq<byte>)
    requires |s| == |t|
    ensures Update(Plus(c, d), PlusBytes(s, t)) == Plus(Update(c, s), Update(d, t))
    decreases |s|
  {
    hide Plus, Feed, PlusByte;
    if s != [] {
      FeedLinear(c, d, s[0], t[0]);
      assert PlusBytes(s, t)[1..] == PlusBytes(s[1..], t[1..]);
      UpdateLinear(Feed(c, s[0]), Feed(d, t[0]), s[1..], t[1..]);
    }
  }

  function Zero(n: nat): seq<byte> {
    seq(n, _ => 0)
  }

  /** The checksum of the XOR of two equally long strings is the XOR of their checksums. */
  lemma ChecksumLinear(s: seq<byte>, t: seq<byte>)
    requires |s| == |t|
    ensures Checksum(PlusBytes(s, t)) == Checksum(s) ^ Checksum(t)
  {
    hide Update, PlusBytes;
    UpdateLinear(ZERO, ZERO, s, t);
    assert Plus(ZERO, ZERO) == ZERO;
  }

  /** A checksum is what is left of the bits of the string, divided from a register of zeros. */
  lemma ChecksumIsDivision(s: seq<byte>)
    ensures Checksum(s) == Divide(Register(0), BitStream(s)).bits
  {
    hide Update, Divide, BitStream;
    UpdateIsDivision(ZERO, s);
  }

  /** Zeros at the front of a string go unnoticed, and a single 1 is the second entry of the table. */
  lemma ChecksumBegins(n: nat, s: seq<byte>)
    ensures Checksum(Zero(n) + s) == Checksum(s) && Checksum([1]) == 0x7707_3096
  {
    hide Update;
    ZerosUnnoticed(n);
    UpdateConcat(ZERO, Zero(n), s);
    OneByte();
  }

  lemma {:induction false} ZerosUnnoticed(n: nat)
    ensures Update(Register(0), Zero(n)) == Register(0)
  {
    if n != 0 {
      ZeroFed();
      assert Zero(n)[1..] == Zero(n - 1);
      hide Feed;
      ZerosUnnoticed(n - 1);
    }
  }

  lemma ZeroFed()
    ensures Feed(Register(0), 0) == Register(0)
  {
  }

  lemma OneByte()
    ensures Checksum([1]) == 0x7707_3096
  {
    assert OfByte(1) == Register(1);
    OneFed(OfByte(1));
    hide Feed;
    assert [1 as byte][1..] == [];
    assert Update(ZERO, [1]) == Update(Feed(ZERO, 1), []);
  }

  lemma OneFed(x: Register)
    requires x == OfByte(1) == Register(1)
    ensures Feed(ZERO, 1) == Register(0x7707_3096)
  {
    hide OfByte;
    assert Plus(ZERO, x) == Register(1);
    assert LowByte(Register(1)) == 1;
    assert Table(1) == 0x7707_3096;
    hide Table;
  }

  // ----- Error detection -----

  lemma FeedInjective(c: Register, d: Register, b: byte)
    requires Feed(c, b) == Feed(d, b)
    ensures c == d
  {
    hide Plus, Feed, Shift8, OfByte;
    FeedIsEightShifts(c, b);
    FeedIsEightShifts(d, b);
    Shift8Injective(Plus(c, OfByte(b)), Plus(d, OfByte(b)));
    PlusCancels(c, d, OfByte(b));
  }

  /** Equal bytes never hide a difference between two registers. */
  lemma {:induction false} UpdateInjective(c: Register, d: Register, s: seq<byte>)
    requires Update(c, s) == Update(d, s)
    ensures c == d
    decreases |s|
  {
    hide Feed;
    if s != [] {
      UpdateInjective(Feed(c, s[0]), Feed(d, s[0]), s[1..]);
      FeedInjective(c, d, s[0]);
    }
  }

  function Word(b0: bv8, b1: bv8, b2: bv8, b3: bv8): bv32 {
    (b0 as bv32) | ((b1 as bv32) << 8) | ((b2 as bv32) << 16) | ((b3 as bv32) << 24)
  }

  /** Byte `i` of `s`, or 0 past its end. */
  function ByteAt(s: seq<byte>, i: nat): bv8 {
    if i < |s| then ToBits(s[i]) else 0
  }

  /** Up to four bytes as one little-endian word. */
  function WordOf(s: seq<byte>): Register {
    Register(Word(ByteAt(s, 0), ByteAt(s, 1), ByteAt(s, 2), ByteAt(s, 3)))
  }

  lemma WordParts(b0: bv8, b1: bv8, b2: bv8, b3: bv8)
    ensures Word(b0, b1, b2, b3) == (b0 as bv32) ^ (Word(b1, b2, b3, 0) << 8)
    ensures (Word(b1, b2, b3, 0) << 8) >> 8 == Word(b1, b2, b3, 0)
  {
  }

  function Unword(w: bv32): (bv8, bv8, bv8, bv8) {
    ((w & 0xff) as bv8, ((w >> 8) & 0xff) as bv8, ((w >> 16) & 0xff) as bv8, ((w >> 24) & 0xff) as bv8)
  }

  lemma UnwordWord(b0: bv8, b1: bv8, b2: bv8, b3: bv8)
    ensures Unword(Word(b0, b1, b2, b3)) == (b0, b1, b2, b3)
  {
  }

  /** The first byte of a word, and the rest one byte up. */
  lemma WordOfParts(s: seq<byte>)
    requires 1 <= |s| <= 4
    ensures WordOf(s) == Plus(OfByte(s[0]), Up(WordOf(s[1..]))) && DropByte(Up(WordOf(s[1..]))) == WordOf(s[1..])
  {
    hide Word;
    WordParts(ByteAt(s, 0), ByteAt(s, 1), ByteAt(s, 2), ByteAt(s, 3));
    assert ByteAt(s[1..], 0) == ByteAt(s, 1) && ByteAt(s[1..], 1) == ByteAt(s, 2);
    assert ByteAt(s[1..], 2) == ByteAt(s, 3) && ByteAt(s[1..], 3) == 0;
  }

  lemma WordInjective(s: seq<byte>, t: seq<byte>)
    requires |s| == |t| <= 4 && WordOf(s) == WordOf(t)
    ensures s == t
  {
    hide Word, Unword, ToBits, FromBits;
    UnwordWord(ByteAt(s, 0), ByteAt(s, 1), ByteAt(s, 2), ByteAt(s, 3));
    UnwordWord(ByteAt(t, 0), ByteAt(t, 1), ByteAt(t, 2), ByteAt(t, 3));
    forall i | 0 <= i < |s|
      ensures s[i] == t[i]
    {
      assert ByteAt(s, i) == ByteAt(t, i);
      FromToBits(s[i]);
      FromToBits(t[i]);
    }
  }

  lemma {:induction false} ShiftsAdd(c: Register, m: nat, n: nat)
    ensures Shifts(c, m + n) == Shifts(Shifts(c, m), n)
    decreases m
  {
    hide Shift;
    if m != 0 {
      ShiftsAdd(Shift(c), m - 1, n);
    }
  }

  lemma EmptyWord()
    ensures WordOf([]) == ZERO
  {
  }

  /** Four bytes or fewer enter the register as one word. */
  lemma {:induction false} UpdateIsWord(c: Register, s: seq<byte>)
    requires |s| <= 4
    ensures Update(c, s) == Shifts(Plus(c, WordOf(s)), 8 * |s|)
    decreases |s|
  {
    hide Plus, OfByte, Up, Feed, Shift8, WordOf, DropByte;
    if s == [] {
      EmptyWord();
      PlusZero(c);
    } else {
      var b, w := OfByte(s[0]), WordOf(s[1..]);
      WordOfParts(s);
      UpMoves(w);
      FeedIsEightShifts(c, s[0]);
      UpdateIsWord(Feed(c, s[0]), s[1..]);
      PlusAssociates(c, b, Up(w));
      Shift8Linear(Plus(c, b), Up(w));
      Shift8IsShifts(Plus(c, WordOf(s)));
      ShiftsAdd(Plus(c, WordOf(s)), 8, 8 * |s[1..]|);
    }
  }

  lemma {:induction false} ShiftsInjective(c: Register, d: Register, n: nat)
    requires Shifts(c, n) == Shifts(d, n)
    ensures c == d
    decreases n
  {
    hide Shift;
    if n != 0 {
      ShiftsInjective(Shift(c), Shift(d), n - 1);
      ShiftInjective(c, d);
    }
  }

  /** Two strings that differ only inside a window of at most four bytes have different checksums. */
  lemma BurstDetected(before: seq<byte>, v: seq<byte>, w: seq<byte>, after: seq<byte>)
    requires |v| == |w| <= 4 && v != w
    ensures Checksum(before + v + after) != Checksum(before + w + after)
  {
    hide Plus;
    var c := Update(ZERO, before);
    UpdateConcat(ZERO, before + v, after);
    UpdateConcat(ZERO, before + w, after);
    UpdateConcat(ZERO, before, v);
    UpdateConcat(ZERO, before, w);
    if Update(Update(c, v), after) == Update(Update(c, w), after) {
      UpdateInjective(Update(c, v), Update(c, w), after);
      UpdateIsWord(c, v);
      UpdateIsWord(c, w);
      ShiftsInjective(Plus(c, WordOf(v)), Plus(c, WordOf(w)), 8 * |v|);
      PlusCommutes(c, WordOf(v));
      PlusCommutes(c, WordOf(w));
      PlusCancels(WordOf(v), WordOf(w), c);
      WordInjective(v, w);
    }
  }

  lemma {:induction false} ShiftsZero(n: nat)
    ensures Shifts(ZERO, n) == ZERO
  {
    if n != 0 {
      assert Shift(ZERO) == ZERO;
      ShiftsZero(n - 1);
    }
  }

  lemma PlusIsZero(a: Register, b: Register)
    ensures Plus(a, b) == ZERO <==> a == b
  {
    hide Plus;
    PlusZero(b);
    if Plus(a, b) == ZERO {
      PlusCancels(a, b, b);
    }
  }

  /** Four more bytes bring the checksum to 0 exactly when they are the checksum, least significant byte first. */
  lemma AppendedChecksum(s: seq<byte>, t: seq<byte>)
    requires |t| == 4
    ensures Checksum(s + t) == 0 <==> WordOf(t) == Register(Checksum(s))
  {
    hide Plus;
    var c := Update(ZERO, s);
    UpdateConcat(ZERO, s, t);
    UpdateIsWord(c, t);
    ShiftsZero(32);
    PlusIsZero(c, WordOf(t));
    if Shifts(Plus(c, WordOf(t)), 32) == ZERO {
      ShiftsInjective(Plus(c, WordOf(t)), ZERO, 32);
    }
  }

  /** The four bytes of a register, least significant first. */
  function BytesOf(c: bv32): (s: seq<byte>)
    ensures |s| == 4
  {
    var (b0, b1, b2, b3) := Unword(c);
    [FromBits(b0), FromBits(b1), FromBits(b2), FromBits(b3)]
  }

  lemma WordUnword(w: bv32)
    ensures var (b0, b1, b2, b3) := Unword(w); Word(b0, b1, b2, b3) == w
  {
  }

  lemma WordOfBytes(c: bv32)
    ensures WordOf(BytesOf(c)) == Register(c)
  {
    hide Word, Unword, ToBits, FromBits;
    var (b0, b1, b2, b3) := Unword(c);
    WordUnword(c);
    ToFromBits(b0);
    ToFromBits(b1);
    ToFromBits(b2);
    ToFromBits(b3);
  }

  /** A string followed by its own checksum has checksum 0. */
  lemma AppendedBytes(s: seq<byte>)
    ensures Checksum(s + BytesOf(Checksum(s))) == 0
  {
    hide WordOf, BytesOf;
    AppendedChecksum(s, BytesOf(Checksum(s)));
    WordOfBytes(Checksum(s));
  }

  // ----- Windows of bits -----

  /** The low `n` bits set. */
  function Mask(n: nat): bv32 {
    if n == 0 then 0 else (Mask(n - 1) << 1) | 1
  }

  predicate Fits(h: Register, n: nat) {
    h.bits | Mask(n) == Mask(n)
  }

  lemma {:induction false} MaskGrows(n: nat)
    ensures Mask(n) | Mask(n + 1) == Mask(n + 1)
  {
    if n != 0 {
      MaskGrows(n - 1);
    }
  }

  lemma {:induction false} MaskMonotone(m: nat, n: nat)
    requires m <= n
    ensures Mask(m) | Mask(n) == Mask(n)
    decreases n - m
  {
    hide Mask;
    if m < n {
      MaskGrows(m);
      MaskMonotone(m + 1, n);
    }
  }

  lemma MaskOf31()
    ensures Mask(31) == 0x7fff_ffff
  {
    assert Mask(4) == 0xf;
    assert Mask(8) == 0xff;
    assert Mask(12) == 0xfff;
    assert Mask(16) == 0xffff;
    assert Mask(20) == 0xf_ffff;
    assert Mask(24) == 0xff_ffff;
    assert Mask(28) == 0xfff_ffff;
  }

  lemma JoinWithin(h: Register, odd: bool, m: bv32)
    requires h.bits | m == m
    ensures Join(h, odd).bits | ((m << 1) | 1) == (m << 1) | 1
  {
  }

  lemma JoinFits(h: Register, odd: bool, n: nat)
    requires Fits(h, n)
    ensures Fits(Join(h, odd), n + 1)
  {
    hide Join;
    JoinWithin(h, odd, Mask(n));
  }

  lemma WithinWider(h: Register, m: bv32, k: bv32)
    requires h.bits | m == m && m | k == k
    ensures h.bits | k == k
  {
  }

  lemma HalveJoinClear(h: Register, odd: bool)
    requires h.bits | 0x7fff_ffff == 0x7fff_ffff
    ensures Halve(Join(h, odd)) == h
  {
  }

  lemma OddJoin(h: Register, odd: bool)
    ensures Odd(Join(h, odd)) == odd
  {
  }

  /** Nothing falls out at the top of a register with at most 31 bits. */
  lemma HalveJoin(h: Register, odd: bool, n: nat)
    requires Fits(h, n) && n <= 31
    ensures Halve(Join(h, odd)) == h
  {
    hide Mask, Halve, Join;
    MaskMonotone(n, 31);
    MaskOf31();
    WithinWider(h, Mask(n), Mask(31));
    HalveJoinClear(h, odd);
  }

  /** A register with these bits, the first in the lowest place. */
  function OfBitList(v: seq<bool>): Register {
    if v == [] then ZERO else Join(OfBitList(v[1..]), v[0])
  }

  lemma {:induction false} BitListBack(v: seq<bool>)
    requires |v| <= 32
    ensures var x := OfBitList(v);
      Fits(x, |v|) && Below(x, |v|) && BitsOf(x, |v|) == v
  {
    hide Fits, Join, Odd, Halve;
    if v == [] {
      ZeroFits();
    } else {
      var h := OfBitList(v[1..]);
      BitListBack(v[1..]);
      JoinFits(h, v[0], |v| - 1);
      HalveJoin(h, v[0], |v| - 1);
      OddJoin(h, v[0]);
    }
  }

  lemma ZeroFits()
    ensures Fits(ZERO, 0)
  {
  }

  lemma {:induction false} DivideInjective(c: Register, d: Register, bits: seq<bool>)
    requires Divide(c, bits) == Divide(d, bits)
    ensures c == d
    decreases |bits|
  {
    hide Plus, Shift, Unit;
    if bits != [] {
      var u := Unit(bits[0]);
      DivideInjective(Shift(Plus(c, u)), Shift(Plus(d, u)), bits[1..]);
      ShiftInjective(Plus(c, u), Plus(d, u));
      PlusCancels(c, d, u);
    }
  }

  /** Two bit streams that differ only inside a window of at most 32 bits leave different registers. */
  lemma WindowDetected(c: Register, before: seq<bool>, v: seq<bool>, w: seq<bool>, after: seq<bool>)
    requires |v| == |w| <= 32 && v != w
    ensures Divide(c, before + v + after) != Divide(c, before + w + after)
  {
    hide Divide, Plus, Below, BitsOf, OfBitList;
    var d := Divide(c, before);
    DivideConcat(c, before + v, after);
    DivideConcat(c, before + w, after);
    DivideConcat(c, before, v);
    DivideConcat(c, before, w);
    if Divide(Divide(d, v), after) == Divide(Divide(d, w), after) {
      DivideInjective(Divide(d, v), Divide(d, w), after);
      var x, y := OfBitList(v), OfBitList(w);
      BitListBack(v);
      BitListBack(w);
      DivideIsShifts(d, x, |v|);
      DivideIsShifts(d, y, |w|);
      ShiftsInjective(Plus(d, x), Plus(d, y), |v|);
      PlusCommutes(d, x);
      PlusCommutes(d, y);
      PlusCancels(x, y, d);
    }
  }

  lemma {:induction false} BitsOfLength(x: Register, n: nat)
    ensures |BitsOf(x, n)| == n
    decreases n
  {
    hide Halve, Odd;
    if n != 0 {
      BitsOfLength(Halve(x), n - 1);
    }
  }

  lemma {:induction false} BitsOfInjective(x: Register, y: Register, n: nat)
    requires Below(x, n) && Below(y, n) && BitsOf(x, n) == BitsOf(y, n)
    ensures x == y
    decreases n
  {
    hide Halve, Odd, Join;
    if n != 0 {
      assert BitsOf(x, n)[0] == Odd(x) && BitsOf(y, n)[0] == Odd(y);
      assert BitsOf(x, n)[1..] == BitsOf(Halve(x), n - 1) && BitsOf(y, n)[1..] == BitsOf(Halve(y), n - 1);
      BitsOfInjective(Halve(x), Halve(y), n - 1);
      JoinHalves(x);
      JoinHalves(y);
    }
  }

  lemma OfBitsInjective(v: bv8, w: bv8)
    requires OfBits(v) == OfBits(w)
    ensures v == w
  {
    assert (v as bv32) as bv8 == v && (w as bv32) as bv8 == w;
  }

  lemma OfByteInjective(a: byte, b: byte)
    requires OfByte(a) == OfByte(b)
    ensures a == b
  {
    hide OfBits, ToBits, FromBits;
    OfBitsInjective(ToBits(a), ToBits(b));
    FromToBits(a);
    FromToBits(b);
  }

  /** Every byte is eight bits of the stream, and nothing else makes the same bits. */
  lemma {:induction false} BitStreamInjective(s: seq<byte>, t: seq<byte>)
    ensures |BitStream(s)| == 8 * |s|
    ensures |s| == |t| && BitStream(s) == BitStream(t) ==> s == t
  {
    hide OfByte, BitsOf;
    if s != [] {
      var x := OfByte(s[0]);
      BitsOfLength(x, 8);
      BitStreamInjective(s[1..], if t == [] then [] else t[1..]);
      if |s| == |t| && BitStream(s) == BitStream(t) {
        var y := OfByte(t[0]);
        BitsOfLength(y, 8);
        assert BitStream(s)[..8] == BitsOf(x, 8) && BitStream(t)[..8] == BitsOf(y, 8);
        assert BitStream(s)[8..] == BitStream(s[1..]) && BitStream(t)[8..] == BitStream(t[1..]);
        ByteBelow(s[0]);
        ByteBelow(t[0]);
        BitsOfInjective(x, y, 8);
        OfByteInjective(s[0], t[0]);
        assert s == [s[0]] + s[1..] && t == [t[0]] + t[1..];
      }
    }
  }

  /** The bits of two strings agree but for 32 consecutive ones, from bit `i` on. */
  predicate DifferWithin(s: seq<byte>, t: seq<byte>, i: nat) {
    var x, y := BitStream(s), BitStream(t);
    |x| == |y| && forall k :: 0 <= k < |x| && !(i <= k < i + 32) ==> x[k] == y[k]
  }

  /** Any difference inside 32 consecutive bits, wherever they begin, changes the checksum. */
  lemma BitBurstDetected(s: seq<byte>, t: seq<byte>, i: nat)
    requires s != t && DifferWithin(s, t, i)
    ensures Checksum(s) != Checksum(t)
  {
    hide BitStream, Divide, Update;
    var x, y := BitStream(s), BitStream(t);
    BitStreamInjective(s, t);
    BitStreamInjective(t, s);
    var from := if i <= |x| then i else |x|;
    var to := if i + 32 <= |x| then i + 32 else |x|;
    assert x == x[..from] + x[from..to] + x[to..];
    assert y == x[..from] + y[from..to] + x[to..] by {
      assert x[..from] == y[..from] && x[to..] == y[to..];
      assert y == y[..from] + y[from..to] + y[to..];
    }
    WindowDetected(ZERO, x[..from], x[from..to], y[from..to], x[to..]);
    UpdateIsDivision(ZERO, s);
    UpdateIsDivision(ZERO, t);
  }
}
