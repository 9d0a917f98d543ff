/** The bits of a byte. */
module Bits {
  import opened Bytes

  function Pack(p0: bool, p1: bool, p2: bool, p3: bool, p4: bool, p5: bool, p6: bool, p7: bool): bv8 {
    (if p0 then 1 else 0) | (if p1 then 2 else 0) | (if p2 then 4 else 0) | (if p3 then 8 else 0)
    | (if p4 then 16 else 0) | (if p5 then 32 else 0) | (if p6 then 64 else 0) | (if p7 then 128 else 0)
  }

  predicate Has(v: bv8, m: bv8) {
    v & m != 0
  }

  predicate LowBit(n: nat) {
    n % 2 == 1
  }

  /** Bit by bit, the least significant first. */
  function ToBits(b: byte): bv8 {
    Pack(LowBit(b), LowBit(b / 2), LowBit(b / 2 / 2), LowBit(b / 2 / 2 / 2), LowBit(b / 2 / 2 / 2 / 2), LowBit(b / 2 / 2 / 2 / 2 / 2),
         LowBit(b / 2 / 2 / 2 / 2 / 2 / 2), LowBit(b / 2 / 2 / 2 / 2 / 2 / 2 / 2))
  }

  function Digit(d: bool, rest: nat): nat {
    (if d then 1 else 0) + 2 * rest
  }

  function FromBits(v: bv8): byte {
    Digit(Has(v, 1), Digit(Has(v, 2), Digit(Has(v, 4), Digit(Has(v, 8),
    Digit(Has(v, 16), Digit(Has(v, 32), Digit(Has(v, 64), Digit(Has(v, 128), 0))))))))
  }

  lemma PackHas(p0: bool, p1: bool, p2: bool, p3: bool, p4: bool, p5: bool, p6: bool, p7: bool)
    ensures var v := Pack(p0, p1, p2, p3, p4, p5, p6, p7);
      && Has(v, 1) == p0 && Has(v, 2) == p1 && Has(v, 4) == p2 && Has(v, 8) == p3
      && Has(v, 16) == p4 && Has(v, 32) == p5 && Has(v, 64) == p6 && Has(v, 128) == p7
  {
  }

  lemma HasPack(v: bv8)
    ensures Pack(Has(v, 1), Has(v, 2), Has(v, 4), Has(v, 8), Has(v, 16), Has(v, 32), Has(v, 64), Has(v, 128)) == v
  {
  }

  lemma DigitBack(d: bool, rest: nat)
    ensures LowBit(Digit(d, rest)) == d && Digit(d, rest) / 2 == rest
  {
  }

  lemma DigitOf(n: nat)
    ensures Digit(LowBit(n), n / 2) == n
  {
  }

  lemma FromToBits(b: byte)
    ensures FromBits(ToBits(b)) == b
  {
    hide Pack, Has, LowBit, Digit;
    var b1 := b / 2;
    var b2 := b1 / 2;
    var b3 := b2 / 2;
    var b4 := b3 / 2;
    var b5 := b4 / 2;
    var b6 := b5 / 2;
    var b7 := b6 / 2;
    PackHas(LowBit(b), LowBit(b1), LowBit(b2), LowBit(b3), LowBit(b4), LowBit(b5), LowBit(b6), LowBit(b7));
    DigitOf(b);
    DigitOf(b1);
    DigitOf(b2);
    DigitOf(b3);
    DigitOf(b4);
    DigitOf(b5);
    DigitOf(b6);
    DigitOf(b7);
  }

  lemma ToFromBits(v: bv8)
    ensures ToBits(FromBits(v)) == v
  {
    hide Pack, Has, LowBit, Digit;
    var n7 := Digit(Has(v, 128), 0);
    var n6 := Digit(Has(v, 64), n7);
    var n5 := Digit(Has(v, 32), n6);
    var n4 := Digit(Has(v, 16), n5);
    var n3 := Digit(Has(v, 8), n4);
    var n2 := Digit(Has(v, 4), n3);
    var n1 := Digit(Has(v, 2), n2);
    DigitBack(Has(v, 128), 0);
    DigitBack(Has(v, 64), n7);
    DigitBack(Has(v, 32), n6);
    DigitBack(Has(v, 16), n5);
    DigitBack(Has(v, 8), n4);
    DigitBack(Has(v, 4), n3);
    DigitBack(Has(v, 2), n2);
    DigitBack(Has(v, 1), n1);
    HasPack(v);
  }
}
