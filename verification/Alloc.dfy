/** Allocation sizes: 64-bit products and sums that wrap around, and the check that they did not. */
module Alloc {
  const SIZE_MAX_PLUS_1: nat := 0x1_0000_0000_0000_0000

  type size = n: int | 0 <= n < SIZE_MAX_PLUS_1

  /** `abort`, `exit`, no memory, or a block of so many bytes. */
  datatype Allocation = Aborted | Exited | Null | Block(bytes: nat)

  function WrapMul(a: size, b: size): size {
    var x: int, y: int := a, b;
    x * y % SIZE_MAX_PLUS_1
  }

  function WrapAdd(a: size, b: size): size {
    var x: int, y: int := a, b;
    (x + y) % SIZE_MAX_PLUS_1
  }

  /** The portable `check_mul_overflow`: multiply, then see whether dividing gives the factor back. */
  method CheckMulOverflow(a: size, b: size) returns (overflow: bool, res: size)
    ensures overflow <==> (a as int) * (b as int) >= 0x1_0000_0000_0000_0000
    ensures !overflow ==> res == (a as int) * (b as int)
  {
    var tmp := WrapMul(a, b);
    if a == 0 {
      return false, tmp;
    }
    DivideBack(a, b);
    if tmp / a != b {
      return true, 0;
    }
    return false, tmp;
  }

  /** Quotients are unique. */
  lemma SameQuotient(x: int, y: int, q: int, r: int)
    requires x * y == x * q + r && 0 <= r < x
    ensures y == q
  {
    var k := y - q;
    assert x * k == r;
    assert k >= 1 ==> x * k >= x * 1;
    assert k <= -1 ==> x * k <= x * -1;
  }

  lemma ExactQuotient(x: int, y: int, p: int)
    requires x > 0 && p == x * y
    ensures p / x == y
  {
    QuotientAndRest(p, x);
    SameQuotient(x, y, p / x, p % x);
  }

  lemma QuotientAndRest(t: int, x: int)
    requires x > 0
    ensures t == x * (t / x) + t % x
  {
  }

  lemma QuotientBound(t: int, x: int)
    requires x > 0
    ensures x * (t / x) <= t
  {
  }

  lemma WrapBound(p: int)
    requires p >= SIZE_MAX_PLUS_1
    ensures p % SIZE_MAX_PLUS_1 <= p - SIZE_MAX_PLUS_1
  {
  }

  /** A wrapped product gives the factor back exactly when it did not wrap. */
  lemma DivideBack(a: size, b: size)
    requires a != 0
    ensures (WrapMul(a, b) / a == b) <==> (a as int) * (b as int) < SIZE_MAX_PLUS_1
  {
    var x: int, y: int := a, b;
    var p := x * y;
    assert p >= 0;
    if p < SIZE_MAX_PLUS_1 {
      assert WrapMul(a, b) == p;
      ExactQuotient(x, y, p);
    } else {
      WrapBound(p);
      QuotientBound(WrapMul(a, b), x);
    }
  }

  /** Exactly the product and the extra bytes, if there is such a size and so much memory; `without` if there is none. */
  predicate Asked(r: Allocation, num: size, size: size, extra: size, available: bool, without: Allocation) {
    var bytes: int := (num as int) * (size as int) + extra;
    r == if bytes >= 0x1_0000_0000_0000_0000 then Aborted else if available then Block(bytes) else without
  }

  /** The allocators and their limit; `available` says whether `malloc` finds memory. */
  class Allocator {
    var limit: size

    constructor ()
      ensures limit == 0
    {
      limit := 0;
    }

    method SetAllocLimit(size: size)
      modifies this
      ensures limit == size
    {
      limit := size;
    }

    /** Whether `alloc_limit_assert` lets the program go on. */
    predicate Within(size: size)
      reads this
    {
      limit == 0 || size <= limit
    }

    method Xmalloc(num: size, size: size, extra: size, available: bool) returns (r: Allocation)
      ensures Asked(r, num, size, extra, available, if size != 0 then Aborted else Null)
    {
      var overflow, res := CheckMulOverflow(num, size);
      if overflow || WrapAdd(res, extra) < res {
        return Aborted;
      }
      if !available {
        return if size != 0 then Aborted else Null;
      }
      return Block(WrapAdd(res, extra));
    }

    method Xcalloc(num: size, size: size, extra: size, available: bool) returns (r: Allocation)
      ensures Asked(r, num, size, extra, available, Null)
    {
      var overflow, res := CheckMulOverflow(num, size);
      if overflow || WrapAdd(res, extra) < res {
        return Aborted;
      }
      if !available {
        return Null;
      }
      return Block(WrapAdd(res, extra));
    }

    /** The limit is on the product alone, and it is looked at after the sum. */
    method CheckedXmalloc(num: size, size: size, extra: size, available: bool) returns (r: Allocation)
      ensures var product: int := (num as int) * (size as int);
        if product + extra < 0x1_0000_0000_0000_0000 && limit != 0 && product > limit then r == Exited
        else Asked(r, num, size, extra, available, if size != 0 then Aborted else Null)
      ensures limit != 0 && r.Block? ==> r.bytes <= limit + extra
    {
      var overflow, res := CheckMulOverflow(num, size);
      if overflow || WrapAdd(res, extra) < res {
        return Aborted;
      }
      if !Within(res) {
        return Exited;
      }
      r := Xmalloc(num, size, extra, available);
    }

    /** Here the limit comes before the sum. */
    method CheckedXcalloc(num: size, size: size, extra: size, available: bool) returns (r: Allocation)
      ensures var product: int := (num as int) * (size as int);
        if product < 0x1_0000_0000_0000_0000 && limit != 0 && product > limit then r == Exited
        else Asked(r, num, size, extra, available, Null)
      ensures limit != 0 && r.Block? ==> r.bytes <= limit + extra
    {
      var overflow, res := CheckMulOverflow(num, size);
      if overflow {
        return Aborted;
      }
      if !Within(res) {
        return Exited;
      }
      r := Xcalloc(num, size, extra, available);
    }
  }
}
