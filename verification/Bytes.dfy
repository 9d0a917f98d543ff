/** Bytes and the little-endian integers the decoders read from them. */
module Bytes {
  type byte = x: int | 0 <= x < 0x100
  type word = x: int | 0 <= x < 0x1_0000
  type dword = x: int | 0 <= x < 0x1_0000_0000

  /** A C string without its terminator. */
  type text = seq<byte>

  function Zeros(n: nat): (z: seq<byte>)
    ensures |z| == n && forall k :: 0 <= k < n ==> z[k] == 0
  {
    seq(n, _ => 0)
  }

  /** The 16-bit little-endian integer at offset `i`. */
  function Int16At(s: seq<byte>, i: nat): word
    requires i + 2 <= |s|
  {
    var b0: int, b1: int := s[i], s[i + 1];
    b0 + b1 * 0x100
  }

  /** The 32-bit little-endian integer at offset `i`. */
  function Int32At(s: seq<byte>, i: nat): dword
    requires i + 4 <= |s|
  {
    var b0: int, b1: int, b2: int, b3: int := s[i], s[i + 1], s[i + 2], s[i + 3];
    b0 + b1 * 0x100 + b2 * 0x1_0000 + b3 * 0x100_0000
  }

  /** The two bytes of `n`, least significant first. */
  function Le16(n: word): (s: seq<byte>)
    ensures |s| == 2
  {
    [n % 0x100, n / 0x100]
  }

  /** The four bytes of `n`, least significant first. */
  function Le32(n: dword): (s: seq<byte>)
    ensures |s| == 4
  {
    [n % 0x100, n / 0x100 % 0x100, n / 0x100 / 0x100 % 0x100, n / 0x100 / 0x100 / 0x100]
  }

  /** Reading a 16-bit integer undoes writing it, wherever it stands, and only its own bytes do. */
  lemma Le16Inverse(s: seq<byte>, i: nat, n: word)
    requires i + 2 <= |s|
    ensures s[i..i + 2] == Le16(n) <==> Int16At(s, i) == n
  {
    assert s[i..i + 2] == [s[i], s[i + 1]];
  }

  lemma LowDigit(b: byte, m: nat)
    ensures (b + 0x100 * m) % 0x100 == b && (b + 0x100 * m) / 0x100 == m
  {
  }

  /** The base-256 digits of a number are unique. */
  lemma Digits(b0: byte, b1: byte, b2: byte, b3: byte, n: dword)
    requires n == (b0 as int) + 0x100 * b1 + 0x1_0000 * b2 + 0x100_0000 * b3
    ensures [b0, b1, b2, b3] == Le32(n)
  {
    var m2: nat := (b2 as int) + 0x100 * b3;
    var m1: nat := (b1 as int) + 0x100 * m2;
    assert n == b0 + 0x100 * m1;
    LowDigit(b0, m1);
    LowDigit(b1, m2);
    LowDigit(b2, b3);
  }

  /** Reading a 32-bit integer undoes writing it, wherever it stands, and only its own bytes do. */
  lemma Le32Inverse(s: seq<byte>, i: nat, n: dword)
    requires i + 4 <= |s|
    ensures s[i..i + 4] == Le32(n) <==> Int32At(s, i) == n
  {
    assert s[i..i + 4] == [s[i], s[i + 1], s[i + 2], s[i + 3]];
    if Int32At(s, i) == n {
      Digits(s[i], s[i + 1], s[i + 2], s[i + 3], n);
    }
  }

  /** Which end is little. */
  lemma LittleEnd()
    ensures Le16(0x0201) == [1, 2] && Le32(0x0403_0201) == [1, 2, 3, 4]
  {
  }

  /** `GETINT16` on a buffer. */
  method GetInt16(buf: array<byte>, i: nat) returns (n: word)
    requires i + 2 <= buf.Length
    ensures n == Int16At(buf[..], i)
  {
    var b0: int, b1: int := buf[i], buf[i + 1];
    n := b0 + b1 * 0x100;
  }

  /** `GETINT32` on a buffer. */
  method GetInt32(buf: array<byte>, i: nat) returns (n: dword)
    requires i + 4 <= buf.Length
    ensures n == Int32At(buf[..], i)
  {
    var b0: int, b1: int, b2: int, b3: int := buf[i], buf[i + 1], buf[i + 2], buf[i + 3];
    n := b0 + b1 * 0x100 + b2 * 0x1_0000 + b3 * 0x100_0000;
  }
}
