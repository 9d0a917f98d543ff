/** The attributes of a TNEF stream: `attr_read`, `read_object` and `data_left`. */
module Attributes {
  import opened Wrappers
  import opened Bytes

  const LVL_MESSAGE: byte := 1
  const LVL_ATTACHMENT: byte := 2
  const MINIMUM_ATTR_LENGTH := 8

  datatype Attribute = Attribute(lvl: byte, typ: word, name: word, buf: seq<byte>)

  /** The sum of all bytes. */
  function Sum(s: seq<byte>): nat {
    if s == [] then 0 else Sum(s[..|s| - 1]) + s[|s| - 1]
  }

  /** The attribute at `pos` and the position after it. */
  function ReadAttr(s: seq<byte>, pos: nat, checksumSkip: bool): (r: Result<(Attribute, nat)>)
    ensures r.Ok? ==> pos + 11 <= r.value.1 <= |s|
  {
    if pos + 1 > |s| then Fail(Exit)
    else if s[pos] != LVL_MESSAGE && s[pos] != LVL_ATTACHMENT then Fail(Abort)
    else if pos + 9 > |s| then Fail(Exit)
    else
      var typeAndName, len := Int32At(s, pos + 1), Int32At(s, pos + 5);
      var end := pos + 9 + len;
      if end + 2 > |s| then Fail(Exit)
      else
        var buf := s[pos + 9..end];
        if Sum(buf) % 0x1_0000 != Int16At(s, end) && !checksumSkip then Fail(Exit)
        else Ok((Attribute(s[pos], typeAndName / 0x1_0000, typeAndName % 0x1_0000, buf), end + 2))
  }

  /** The attributes from `pos` on, up to where fewer than eight bytes are left or one cannot be read. */
  function ReadStream(s: seq<byte>, pos: nat, checksumSkip: bool): (seq<Attribute>, Option<Failure>)
    requires pos <= |s|
    decreases |s| - pos
  {
    if |s| - pos < MINIMUM_ATTR_LENGTH then ([], None)
    else
      match ReadAttr(s, pos, checksumSkip)
      case Fail(f) => ([], Some(f))
      case Ok((a, next)) =>
        var (rest, end) := ReadStream(s, next, checksumSkip);
        ([a] + rest, end)
  }

  /** The running masked sum of `check_checksum`. */
  method CheckChecksum(buf: seq<byte>, checksum: word) returns (ok: bool)
    ensures ok <==> Sum(buf) % 0x1_0000 == checksum
  {
    hide Sum;
    var sum: int := 0;
    NothingSummed();
    for i := 0 to |buf|
      invariant sum == Sum(buf[..i]) % 0x1_0000
    {
      var b: int := buf[i];
      SumOneMore(buf, i);
      MaskedSum(Sum(buf[..i]), b);
      sum := (sum + b) % 0x1_0000;
    }
    assert buf[..|buf|] == buf;
    return sum == checksum;
  }

  lemma NothingSummed()
    ensures Sum([]) == 0
  {
  }

  lemma SumOneMore(s: seq<byte>, i: nat)
    requires i < |s|
    ensures Sum(s[..i + 1]) == Sum(s[..i]) + s[i]
  {
    assert s[..i + 1][..i] == s[..i];
  }

  lemma MaskedSum(a: int, b: int)
    ensures (a % 0x1_0000 + b) % 0x1_0000 == (a + b) % 0x1_0000
  {
  }

  /** A seekable input file. */
  class InFile {
    const data: seq<byte>
    var pos: nat
    var eof: bool

    constructor (data: seq<byte>)
      ensures this.data == data && pos == 0 && !eof
    {
      this.data, pos, eof := data, 0, false;
    }

    ghost predicate Valid()
      reads this
    {
      pos <= |data| && (eof ==> pos == |data|)
    }

    /** `getbuf`: so many bytes or the end of the program. */
    method Getbuf(n: nat) returns (r: Result<seq<byte>>)
      requires Valid()
      modifies this
      ensures Valid() && (r.Fail? ==> r == Fail(Exit))
      ensures r.Ok? <==> old(pos) + n <= |data|
      ensures r.Ok? ==> r.value == data[old(pos)..old(pos) + n] && pos == old(pos) + n && eof == old(eof)
    {
      if pos + n > |data| {
        pos, eof := |data|, true;
        return Fail(Exit);
      }
      pos := pos + n;
      return Ok(data[pos - n..pos]);
    }

    method Geti16() returns (r: Result<word>)
      requires Valid()
      modifies this
      ensures Valid() && r == if old(pos) + 2 <= |data| then Ok(Int16At(data, old(pos))) else Fail(Exit)
      ensures r.Ok? ==> pos == old(pos) + 2 && eof == old(eof)
    {
      var b :- Getbuf(2);
      return Ok(Int16At(b, 0));
    }

    method Geti32() returns (r: Result<dword>)
      requires Valid()
      modifies this
      ensures Valid() && r == if old(pos) + 4 <= |data| then Ok(Int32At(data, old(pos))) else Fail(Exit)
      ensures r.Ok? ==> pos == old(pos) + 4 && eof == old(eof)
    {
      var b :- Getbuf(4);
      return Ok(Int32At(b, 0));
    }

    /** `attr_read`. */
    method AttrRead(checksumSkip: bool) returns (r: Result<Attribute>)
      requires Valid()
      modifies this
      ensures Valid()
      ensures var spec := ReadAttr(data, old(pos), checksumSkip);
        match spec
        case Fail(f) => r == Fail(f)
        case Ok((a, next)) => r == Ok(a) && pos == next && eof == old(eof)
    {
      hide Int16At, Int32At, Sum;
      ghost var start := pos;
      var lvl :- Getbuf(1);
      if lvl[0] != LVL_MESSAGE && lvl[0] != LVL_ATTACHMENT {
        return Fail(Abort);
      }
      var typeAndName :- Geti32();
      var len :- Geti32();
      var buf :- Getbuf(len);
      var checksum :- Geti16();
      var ok := CheckChecksum(buf, checksum);
      if !ok && !checksumSkip {
        return Fail(Exit);
      }
      return Ok(Attribute(lvl[0], typeAndName / 0x1_0000, typeAndName % 0x1_0000, buf));
    }

    /** `data_left`: not at the end, and not at a few stray bytes before it. */
    method DataLeft() returns (r: bool)
      requires Valid()
      ensures r <==> !eof && !(0 < |data| - pos < 8)
    {
      if eof {
        return false;
      }
      var left := |data| - pos;
      return !(left > 0 && left < MINIMUM_ATTR_LENGTH);
    }

    /** `read_object`: no attribute at the very end of the file. */
    method ReadObject(checksumSkip: bool) returns (r: Result<Option<Attribute>>)
      requires Valid()
      modifies this
      ensures Valid()
      ensures old(pos) == |data| ==> r == Ok(None)
      ensures old(pos) < |data| ==>
        match ReadAttr(data, old(pos), checksumSkip)
        case Fail(f) => r == Fail(f)
        case Ok((a, next)) => r == Ok(Some(a)) && pos == next && eof == old(eof)
    {
      if pos == |data| {
        eof := true;
        return Ok(None);
      }
      var a :- AttrRead(checksumSkip);
      return Ok(Some(a));
    }
  }

  // ----- Writing a stream, and reading it back -----

  predicate Writable(a: Attribute) {
    (a.lvl == 1 || a.lvl == 2) && |a.buf| < 0x1_0000_0000
  }

  /** An attribute with any two bytes where its checksum should be. */
  function WriteWith(a: Attribute, checksum: word): seq<byte>
    requires Writable(a)
  {
    [a.lvl] + Le32(TypeAndName(a)) + Le32(|a.buf|) + a.buf + Le16(checksum)
  }

  function Write(a: Attribute): seq<byte>
    requires Writable(a)
  {
    WriteWith(a, Sum(a.buf) % 0x1_0000)
  }

  function TypeAndName(a: Attribute): dword {
    var typ: int, name: int := a.typ, a.name;
    typ * 0x1_0000 + name
  }

  function WriteAll(attrs: seq<Attribute>): seq<byte>
    requires forall a :: a in attrs ==> Writable(a)
  {
    if attrs == [] then [] else Write(attrs[0]) + WriteAll(attrs[1..])
  }

  /** Where the parts of a written attribute lie. */
  lemma Parts(lvl: byte, n: seq<byte>, len: seq<byte>, buf: seq<byte>, sum: seq<byte>, rest: seq<byte>)
    requires |n| == 4 && |len| == 4 && |sum| == 2
    ensures var t := [lvl] + n + len + buf + sum + rest; var end := 9 + |buf|;
      && |t| == end + 2 + |rest| && t[0] == lvl && t[1..5] == n && t[5..9] == len
      && t[9..end] == buf && t[end..end + 2] == sum && t[end + 2..] == rest
  {
    var t := [lvl] + n + len + buf + sum + rest;
    var end := 9 + |buf|;
    assert t[9..] == buf + (sum + rest);
    assert t[9..][..|buf|] == t[9..end];
    assert t[9..][|buf|..] == t[end..] == sum + rest;
    assert t[end..][..2] == t[end..end + 2];
    assert t[end..][2..] == t[end + 2..];
  }

  /** An attribute is read back whatever stands around it, exactly if its checksum is right or not looked at. */
  lemma ChecksumDecides(a: Attribute, checksum: word, before: seq<byte>, rest: seq<byte>, checksumSkip: bool)
    requires Writable(a)
    ensures ReadAttr(before + WriteWith(a, checksum) + rest, |before|, checksumSkip) ==
      if checksumSkip || checksum == Sum(a.buf) % 0x1_0000 then Ok((a, |before| + |WriteWith(a, checksum)|)) else Fail(Exit)
  {
    hide Le16, Le32, Int16At, Int32At, Sum, TypeAndName;
    var s, pos, end := before + WriteWith(a, checksum) + rest, |before|, |before| + 9 + |a.buf|;
    Parts(a.lvl, Le32(TypeAndName(a)), Le32(|a.buf|), a.buf, Le16(checksum), rest);
    var t := WriteWith(a, checksum) + rest;
    assert s == before + t;
    assert s[pos + 1..pos + 5] == t[1..5] && s[pos + 5..pos + 9] == t[5..9];
    assert s[pos + 9..end] == t[9..9 + |a.buf|] && s[end..end + 2] == t[9 + |a.buf|..9 + |a.buf| + 2];
    assert s[pos] == t[0];
    Le32Inverse(s, pos + 1, TypeAndName(a));
    Le32Inverse(s, pos + 5, |a.buf|);
    Le16Inverse(s, end, checksum);
    TypeAndNameBack(a);
  }

  /** So a written attribute always is. */
  lemma AttrBack(a: Attribute, before: seq<byte>, rest: seq<byte>, checksumSkip: bool)
    requires Writable(a)
    ensures ReadAttr(before + Write(a) + rest, |before|, checksumSkip) == Ok((a, |before| + |Write(a)|))
  {
    hide WriteWith, ReadAttr, Sum;
    ChecksumDecides(a, Sum(a.buf) % 0x1_0000, before, rest, checksumSkip);
  }

  /** Any other level runs into an assertion, and so does, with an exit, anything that ends too early. */
  lemma Refused(s: seq<byte>, pos: nat, checksumSkip: bool)
    requires pos <= |s|
    ensures pos < |s| && s[pos] != 1 && s[pos] != 2 ==> ReadAttr(s, pos, checksumSkip) == Fail(Abort)
    ensures pos == |s| ==> ReadAttr(s, pos, checksumSkip) == Fail(Exit)
    ensures pos < |s| < pos + 11 && (s[pos] == 1 || s[pos] == 2) ==> ReadAttr(s, pos, checksumSkip) == Fail(Exit)
    ensures pos + 11 <= |s| < pos + 11 + Int32At(s, pos + 5) && (s[pos] == 1 || s[pos] == 2) ==>
      ReadAttr(s, pos, checksumSkip) == Fail(Exit)
  {
    hide Sum, Int32At, Int16At;
  }

  lemma TypeAndNameBack(a: Attribute)
    ensures TypeAndName(a) / 0x1_0000 == a.typ && TypeAndName(a) % 0x1_0000 == a.name
  {
  }

  /** A list of attributes is read as the list, and then whatever follows it. */
  lemma {:induction false} StreamThen(before: seq<byte>, attrs: seq<Attribute>, after: seq<byte>, checksumSkip: bool)
    requires forall a :: a in attrs ==> Writable(a)
    ensures var (rest, end) := ReadStream(before + WriteAll(attrs) + after, |before| + |WriteAll(attrs)|, checksumSkip);
      ReadStream(before + WriteAll(attrs) + after, |before|, checksumSkip) == (attrs + rest, end)
    decreases |attrs|
  {
    hide Write, ReadAttr, Writable;
    if attrs == [] {
      var (rest, end) := ReadStream(before + WriteAll(attrs) + after, |before|, checksumSkip);
      assert [] + rest == rest;
    } else {
      var a, tail := attrs[0], WriteAll(attrs[1..]);
      assert WriteAll(attrs) == Write(a) + tail;
      hide WriteAll;
      AttrBack(a, before, tail + after, checksumSkip);
      WrittenLength(a);
      Regrouped(before, Write(a), tail, after);
      StreamThen(before + Write(a), attrs[1..], after, checksumSkip);
      var (rest, end) := ReadStream(before + WriteAll(attrs) + after, |before| + |WriteAll(attrs)|, checksumSkip);
      assert [a] + (attrs[1..] + rest) == attrs + rest;
    }
  }

  lemma WrittenLength(a: Attribute)
    requires Writable(a)
    ensures |Write(a)| == 11 + |a.buf|
  {
  }

  /** A list of attributes, then fewer than eight bytes of anything, is read back as the list. */
  lemma StreamBack(before: seq<byte>, attrs: seq<Attribute>, garbage: seq<byte>, checksumSkip: bool)
    requires (forall a :: a in attrs ==> Writable(a)) && |garbage| < 8
    ensures ReadStream(before + WriteAll(attrs) + garbage, |before|, checksumSkip) == (attrs, None)
  {
    hide WriteAll;
    StreamThen(before, attrs, garbage, checksumSkip);
    assert attrs + [] == attrs;
  }

  lemma StreamEnds(before: seq<byte>, attrs: seq<Attribute>, after: seq<byte>, checksumSkip: bool)
    requires (forall a :: a in attrs ==> Writable(a)) && |after| >= 8
    ensures var r := ReadAttr(before + WriteAll(attrs) + after, |before| + |WriteAll(attrs)|, checksumSkip);
      r.Fail? ==> ReadStream(before + WriteAll(attrs) + after, |before|, checksumSkip) == (attrs, Some(r.failure))
  {
    hide WriteAll, ReadAttr, Writable;
    StreamThen(before, attrs, after, checksumSkip);
    assert attrs + [] == attrs;
  }

  /** Eight to ten stray bytes are taken for an attribute, and refused. */
  lemma StreamRagged(before: seq<byte>, attrs: seq<Attribute>, garbage: seq<byte>, checksumSkip: bool)
    requires (forall a :: a in attrs ==> Writable(a)) && 8 <= |garbage| < 11
    ensures ReadStream(before + WriteAll(attrs) + garbage, |before|, checksumSkip)
         == (attrs, Some(if garbage[0] == 1 || garbage[0] == 2 then Exit else Abort))
  {
    hide WriteAll, ReadAttr, ReadStream, Writable;
    var s, pos := before + WriteAll(attrs) + garbage, |before| + |WriteAll(attrs)|;
    assert s[pos] == garbage[0];
    Refused(s, pos, checksumSkip);
    StreamEnds(before, attrs, garbage, checksumSkip);
  }

  /** An attribute with a wrong checksum ends the reading, whatever stands before and behind it. */
  lemma StreamDamaged(before: seq<byte>, attrs: seq<Attribute>, a: Attribute, checksum: word, after: seq<byte>)
    requires (forall b :: b in attrs ==> Writable(b)) && Writable(a) && checksum != Sum(a.buf) % 0x1_0000
    ensures ReadStream(before + WriteAll(attrs) + (WriteWith(a, checksum) + after), |before|, false) == (attrs, Some(Exit))
  {
    hide WriteAll, WriteWith, ReadAttr, ReadStream, Sum, Writable;
    var head, rest := before + WriteAll(attrs), WriteWith(a, checksum) + after;
    DamagedLength(a, checksum);
    assert head + rest == head + WriteWith(a, checksum) + after;
    ChecksumDecides(a, checksum, head, after, false);
    StreamEnds(before, attrs, rest, false);
  }

  lemma DamagedLength(a: Attribute, checksum: word)
    requires Writable(a)
    ensures |WriteWith(a, checksum)| == 11 + |a.buf|
  {
  }

  lemma Regrouped(a: seq<byte>, b: seq<byte>, c: seq<byte>, d: seq<byte>)
    ensures a + (b + c) + d == a + b + (c + d) == (a + b) + c + d
  {
  }

  lemma {:induction false} SumOfUpdate(s: seq<byte>, i: nat, b: byte)
    requires i < |s|
    ensures Sum(s[i := b]) == Sum(s) - s[i] + b
  {
    var t := s[i := b];
    if i < |s| - 1 {
      assert t[..|s| - 1] == s[..|s| - 1][i := b];
      SumOfUpdate(s[..|s| - 1], i, b);
    } else {
      assert t[..|s| - 1] == s[..|s| - 1];
    }
  }

  /** One changed byte is always noticed. */
  lemma ChangedByteNoticed(s: seq<byte>, i: nat, b: byte)
    requires i < |s| && b != s[i]
    ensures Sum(s[i := b]) % 0x1_0000 != Sum(s) % 0x1_0000
  {
    SumOfUpdate(s, i, b);
  }
}
