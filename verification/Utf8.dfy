/** `unicode_to_utf8`: UTF-16LE text to bytes. */
module Utf8 {
  import opened Wrappers
  import opened Bytes

  /** The 16-bit units of `buf`; an odd last byte is dropped. */
  function Units(buf: seq<byte>): (us: seq<word>)
    ensures |us| == |buf| / 2
  {
    if |buf| < 2 then [] else [Int16At(buf, 0)] + Units(buf[2..])
  }

  /** The bytes written for one unit.  0x07FF is written in three bytes. */
  function EncodeUnit(c: word): (bs: seq<byte>)
    ensures 1 <= |bs| <= 3
  {
    if c <= 0x7f then [c]
    else if c < 0x7ff then [0xc0 + c / 0x40, 0x80 + c % 0x40]
    else [0xe0 + c / 0x1000, 0x80 + c / 0x40 % 0x40, 0x80 + c % 0x40]
  }

  function Encode(us: seq<word>): (bs: seq<byte>)
    ensures |bs| <= 3 * |us|
  {
    if us == [] then [] else EncodeUnit(us[0]) + Encode(us[1..])
  }

  lemma {:induction false} EncodeOneMore(us: seq<word>, c: word)
    ensures Encode(us + [c]) == Encode(us) + EncodeUnit(c)
  {
    if us == [] {
      assert us + [c] == [c] && Encode([c]) == EncodeUnit(c) + Encode([]);
    } else {
      assert (us + [c])[1..] == us[1..] + [c];
      EncodeOneMore(us[1..], c);
    }
  }

  lemma {:induction false} UnitsAt(buf: seq<byte>, k: nat)
    requires k < |buf| / 2
    ensures Units(buf)[k] == Int16At(buf, 2 * k)
  {
    if k > 0 {
      UnitsAt(buf[2..], k - 1);
      assert Int16At(buf[2..], 2 * (k - 1)) == Int16At(buf, 2 * k);
    }
  }

  /**
   * Converts `buf[start..start + len]`.  `used` is how many bytes precede the terminator; the buffer of
   * `3 * len / 2 + 1` bytes always has room for it.
   */
  method UnicodeToUtf8(buf: array<byte>, start: nat, len: nat) returns (utf8: array<byte>, used: nat)
    requires start + len <= buf.Length
    ensures fresh(utf8) && utf8.Length == 3 * len / 2 + 1 && used < utf8.Length
    ensures utf8[..used] == Encode(Units(buf[start..start + len])) && utf8[used] == 0
  {
    hide Encode, EncodeUnit, Units, Int16At;
    utf8 := new byte[3 * len / 2 + 1];
    ghost var s := buf[start..start + len];
    ghost var us := Units(s);
    var i: nat, j: nat := 0, 0;
    EmptyText();
    if len > 0 {
      while i < len - 1
        invariant i % 2 == 0 && i <= len && j <= 3 * (i / 2)
        invariant buf[start..start + len] == s
        invariant utf8[..j] == Encode(us[..i / 2])
      {
        var c := GetInt16(buf, start + i);
        UnitAt(buf[..], start, len, i / 2);
        EncodeOneMore(us[..i / 2], c);
        assert us[..i / 2 + 1] == us[..i / 2] + [c];
        j := PutUnit(utf8, j, c);
        i := i + 2;
      }
    }
    assert us[..i / 2] == us;
    utf8[j] := 0;
    used := j;
  }

  lemma EmptyText()
    ensures Encode([]) == []
  {
  }

  lemma UnitAt(buf: seq<byte>, start: nat, len: nat, k: nat)
    requires start + len <= |buf| && k < len / 2
    ensures Units(buf[start..start + len])[k] == Int16At(buf, start + 2 * k)
  {
    UnitsAt(buf[start..start + len], k);
  }

  /** Writes the bytes of one unit at `j`. */
  method PutUnit(utf8: array<byte>, j: nat, c: word) returns (next: nat)
    requires j + 3 <= utf8.Length
    modifies utf8
    ensures next == j + |EncodeUnit(c)| && utf8[..next] == old(utf8[..j]) + EncodeUnit(c)
  {
    next := j;
    if c <= 0x7f {
      utf8[next] := c;
      next := next + 1;
    } else if c < 0x7ff {
      utf8[next] := 0xc0 + c / 0x40;
      utf8[next + 1] := 0x80 + c % 0x40;
      next := next + 2;
    } else {
      utf8[next] := 0xe0 + c / 0x1000;
      utf8[next + 1] := 0x80 + c / 0x40 % 0x40;
      utf8[next + 2] := 0x80 + c % 0x40;
      next := next + 3;
    }
  }

  // ----- Reading it back -----

  predicate Continuation(b: byte) {
    0x80 <= b < 0xc0
  }

  /** Decodes the one-, two- and three-byte forms, overlong or not, surrogate or not. */
  function Decode(bs: seq<byte>): Option<seq<word>> {
    if bs == [] then Some([])
    else
      var b: int := bs[0];
      if b < 0x80 then Prepend(b, Decode(bs[1..]))
      else if 0xc0 <= b < 0xe0 && |bs| >= 2 && Continuation(bs[1]) then
        Prepend((b - 0xc0) * 0x40 + (bs[1] - 0x80), Decode(bs[2..]))
      else if 0xe0 <= b < 0xf0 && |bs| >= 3 && Continuation(bs[1]) && Continuation(bs[2]) then
        var b1: int, b2: int := bs[1], bs[2];
        Prepend((b - 0xe0) * 0x1000 + (b1 - 0x80) * 0x40 + (b2 - 0x80), Decode(bs[3..]))
      else None
  }

  function Prepend(c: word, us: Option<seq<word>>): Option<seq<word>> {
    match us
    case None => None
    case Some(v) => Some([c] + v)
  }

  lemma DecodeUnit(c: word, rest: seq<byte>)
    ensures Decode(EncodeUnit(c) + rest) == Prepend(c, Decode(rest))
  {
    var n, bs := |EncodeUnit(c)|, EncodeUnit(c) + rest;
    assert bs[n..] == rest;
    assert c == c / 0x1000 * 0x1000 + c / 0x40 % 0x40 * 0x40 + c % 0x40;
  }

  /** Decoding undoes encoding, for every sequence of units whatever. */
  lemma {:induction false} DecodeEncode(us: seq<word>)
    ensures Decode(Encode(us)) == Some(us)
  {
    hide EncodeUnit;
    if us != [] {
      DecodeUnit(us[0], Encode(us[1..]));
      DecodeEncode(us[1..]);
      assert us == [us[0]] + us[1..];
    }
  }

  /** So different texts never become the same bytes. */
  lemma EncodeInjective(us: seq<word>, vs: seq<word>)
    requires Encode(us) == Encode(vs)
    ensures us == vs
  {
    DecodeEncode(us);
    DecodeEncode(vs);
  }

  // ----- RFC 3629 -----

  predicate HighSurrogate(c: word) {
    0xd800 <= c < 0xdc00
  }

  predicate LowSurrogate(c: word) {
    0xdc00 <= c < 0xe000
  }

  predicate Surrogate(c: word) {
    HighSurrogate(c) || LowSurrogate(c)
  }

  /** A code point in UTF-8, as in section 3 of RFC 3629. */
  function RfcCodePoint(n: nat): seq<byte>
    requires n < 0x11_0000
  {
    if n < 0x80 then [n]
    else if n < 0x800 then [0xc0 + n / 0x40, 0x80 + n % 0x40]
    else if n < 0x1_0000 then [0xe0 + n / 0x1000, 0x80 + n / 0x40 % 0x40, 0x80 + n % 0x40]
    else [0xf0 + n / 0x4_0000, 0x80 + n / 0x1000 % 0x40, 0x80 + n / 0x40 % 0x40, 0x80 + n % 0x40]
  }

  /** UTF-16 text in UTF-8; there is none for a surrogate without its partner. */
  function Rfc(us: seq<word>): Option<seq<byte>>
    decreases |us|
  {
    if us == [] then Some([])
    else if !Surrogate(us[0]) then Append(RfcCodePoint(us[0]), Rfc(us[1..]))
    else if |us| >= 2 && HighSurrogate(us[0]) && LowSurrogate(us[1]) then
      var high: int, low: int := us[0], us[1];
      Append(RfcCodePoint(0x1_0000 + (high - 0xd800) * 0x400 + (low - 0xdc00)), Rfc(us[2..]))
    else None
  }

  function Append(bs: seq<byte>, rest: Option<seq<byte>>): Option<seq<byte>> {
    match rest
    case None => None
    case Some(v) => Some(bs + v)
  }

  /** The units this program writes differently. */
  predicate Deviates(c: word) {
    c == 0x7ff || Surrogate(c)
  }

  /** Deviating units make the text longer, and nothing makes it shorter. */
  lemma {:induction false} DeviationsLengthen(us: seq<word>)
    requires Rfc(us).Some?
    ensures |Rfc(us).value| <= |Encode(us)|
    ensures (exists u :: u in us && Deviates(u)) ==> |Rfc(us).value| < |Encode(us)|
    decreases |us|
  {
    if us == [] {
    } else if !Surrogate(us[0]) {
      DeviationsLengthen(us[1..]);
      assert us == [us[0]] + us[1..];
    } else {
      DeviationsLengthen(us[2..]);
      assert |EncodeUnit(us[0])| == 3 && |EncodeUnit(us[1])| == 3;
      assert us[1..][0] == us[1] && us[1..][1..] == us[2..];
    }
  }

  lemma {:induction false} OtherwiseEqual(us: seq<word>)
    requires forall u :: u in us ==> !Deviates(u)
    ensures Rfc(us) == Some(Encode(us))
    decreases |us|
  {
    if us != [] {
      assert !Deviates(us[0]);
      OtherwiseEqual(us[1..]);
    }
  }

  /** The text written is the UTF-8 encoding exactly when there is no surrogate and no 0x07FF in it. */
  lemma IsRfcEncoding(us: seq<word>)
    ensures Rfc(us) == Some(Encode(us)) <==> forall u :: u in us ==> !Deviates(u)
  {
    if forall u :: u in us ==> !Deviates(u) {
      OtherwiseEqual(us);
    } else if Rfc(us) == Some(Encode(us)) {
      DeviationsLengthen(us);
    }
  }
}
