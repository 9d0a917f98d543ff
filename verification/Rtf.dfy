/** Compressed RTF as it is found in a property value: header, checksum, stream. */
module Rtf {
  import opened Bytes
  import opened Lz
  import opened Preload
  import Crc
  import Decompress
  import Tokens

  const UNCOMPRESSED_MAGIC: dword := 0x414c454d
  const COMPRESSED_MAGIC: dword := 0x75465a4c

  /** `Aborted` is a failed assertion; otherwise the output buffer and why decoding stopped. */
  datatype Decompression = Aborted | Text(dest: array<byte>, flag: Flag)

  /** `decompress_rtf_data`, which asserts that neither length is 0. */
  method DecompressRtfData(src: array<byte>, start: nat, lenc: nat, lenu: nat) returns (r: Decompression)
    requires start + lenc <= src.Length
    ensures r.Aborted? <==> lenc == 0 || lenu == 0
    ensures r.Text? ==> fresh(r.dest)
    ensures r.Text? ==> r.dest[..] == Padded(Decoded(Prebuf(), src[start..start + lenc], lenu), lenu)
    ensures r.Text? ==> r.flag == Run(src[start..start + lenc], |Prebuf()| + lenu, Start(Prebuf())).flag
  {
    if lenc == 0 || lenu == 0 {
      return Aborted;
    }
    var dest, flag := Decompress.DecompressAfter(Prebuf(), src, start, lenc, lenu);
    r := Text(dest, flag);
  }

  /**
   * What a property value yields: a failed assertion, a read past the end of the value, a stored text, the
   * decoded text, nothing because of a wrong checksum, or nothing because of an unknown magic number.
   */
  datatype Body = Failed | Overread | Stored(text: seq<byte>) | Decompressed(text: seq<byte>) | BadChecksum | Unknown

  /** A stored text is copied from byte 4 on; one byte behind the value, a terminator, may be copied with it. */
  function StoredText(data: seq<byte>, size: dword): Body {
    if 4 + size <= |data| + 1 then Stored((data + [0])[4..4 + size]) else Overread
  }

  /** `get_rtf_data_from_buf`, on values. */
  function BodyOf(data: seq<byte>): Body {
    if |data| <= 16 || Int32At(data, 0) + 4 != |data| then Failed
    else
      var size := Int32At(data, 4);
      var magic := Int32At(data, 8);
      if magic == UNCOMPRESSED_MAGIC then StoredText(data, size)
      else if magic != COMPRESSED_MAGIC then Unknown
      else if Int32At(data, 12) != Crc.Checksum(data[16..]) as int then BadChecksum
      else if size == 0 then Failed
      else Decompressed(Padded(Decoded(Prebuf(), data[16..], size), size))
  }

  /** `get_rtf_data_from_buf`, on a value of `len` bytes and the terminator behind it. */
  method GetRtfDataFromBuf(data: array<byte>, len: nat) returns (body: Body)
    requires data.Length == len + 1 && data[len] == 0
    ensures body == BodyOf(data[..len])
  {
    hide Int32At, Prebuf, Crc.Checksum, Decoded, Padded, Run;
    if len <= 16 {
      return Failed;
    }
    ghost var s := data[..len];
    FieldsInside(data[..], len);
    var comprSize: int := GetInt32(data, 0);
    var uncomprSize := GetInt32(data, 4);
    var magic := GetInt32(data, 8);
    var checksum := GetInt32(data, 12);
    if comprSize + 4 != len {
      return Failed;
    }
    if magic == UNCOMPRESSED_MAGIC {
      if 4 + uncomprSize > data.Length {
        return Overread;
      }
      assert s + [0] == data[..];
      return Stored(data[4..4 + uncomprSize]);
    }
    if magic != COMPRESSED_MAGIC {
      return Unknown;
    }
    assert data[16..16 + (len - 16)] == s[16..];
    var crc := Crc.GenerateCrc(data, 16, len - 16);
    if checksum != crc as int {
      return BadChecksum;
    }
    var r := DecompressRtfData(data, 16, len - 16, uncomprSize);
    match r
    case Aborted => return Failed;
    case Text(dest, _) => return Decompressed(dest[..]);
  }

  lemma FieldsInside(s: seq<byte>, len: nat)
    requires 16 <= len <= |s|
    ensures Int32At(s, 0) == Int32At(s[..len], 0) && Int32At(s, 4) == Int32At(s[..len], 4)
    ensures Int32At(s, 8) == Int32At(s[..len], 8) && Int32At(s, 12) == Int32At(s[..len], 12)
  {
  }

  /** The four fields before the text or stream. */
  function Fields(len: dword, size: dword, magic: dword, crc: dword): (h: seq<byte>)
    ensures |h| == 16
  {
    Le32(len) + Le32(size) + Le32(magic) + Le32(crc)
  }

  /** The header of a compressed stream. */
  function Header(len: dword, size: dword, crc: dword): (h: seq<byte>)
    ensures |h| == 16
  {
    Fields(len, size, 0x7546_5a4c, crc)
  }

  /** A property value holding a compressed stream that announces `size` bytes of text. */
  function Wrap(stream: seq<byte>, size: dword): seq<byte>
    requires |stream| + 12 < 0x1_0000_0000
  {
    Header(|stream| + 12, size, Crc.Checksum(stream) as int) + stream
  }

  lemma FieldsBack(len: dword, size: dword, magic: dword, crc: dword, rest: seq<byte>)
    ensures var data := Fields(len, size, magic, crc) + rest;
      && |data| == |rest| + 16 && data[16..] == rest
      && Int32At(data, 0) == len && Int32At(data, 4) == size
      && Int32At(data, 8) == magic && Int32At(data, 12) == crc
  {
    hide Le32, Int32At;
    var data := Fields(len, size, magic, crc) + rest;
    Le32Inverse(data, 0, len);
    Le32Inverse(data, 4, size);
    Le32Inverse(data, 8, magic);
    Le32Inverse(data, 12, crc);
  }

  lemma HeaderFields(len: dword, size: dword, crc: dword, stream: seq<byte>)
    ensures var data := Header(len, size, crc) + stream;
      && |data| == |stream| + 16 && data[16..] == stream
      && Int32At(data, 0) == len && Int32At(data, 4) == size
      && Int32At(data, 8) == 0x7546_5a4c && Int32At(data, 12) == crc
  {
    hide Fields, Int32At;
    FieldsBack(len, size, 0x7546_5a4c, crc, stream);
  }

  /** Even the empty list is written with a control byte and the end marker. */
  lemma NeverEmpty(ts: seq<Tokens.Token>)
    requires Tokens.Valid(Prebuf(), ts)
    ensures |Tokens.Encode(Prebuf(), ts)| > 0
  {
    hide Prebuf, Tokens.AllBytes, Tokens.Control;
  }

  /**
   * Every list of tokens, written as a stream behind a header with its checksum, is accepted and comes
   * back as its meaning, followed by as many zeros as the header announces too many bytes.  Only the
   * announcement of no text at all runs into an assertion.
   */
  lemma WrappedRoundTrip(ts: seq<Tokens.Token>, size: dword)
    requires Tokens.Valid(Prebuf(), ts) && |Tokens.Encode(Prebuf(), ts)| + 12 < 0x1_0000_0000
    requires |Tokens.Meaning(Prebuf(), ts)| <= 207 + size
    ensures BodyOf(Wrap(Tokens.Encode(Prebuf(), ts), size))
         == if size == 0 then Failed else Decompressed(Padded(Tokens.Meaning(Prebuf(), ts)[207..], size))
  {
    hide Header, Int32At, Prebuf, Crc.Checksum, Tokens.Encode, Tokens.Valid, Tokens.Meaning, Decoded, Padded, Run;
    var stream := Tokens.Encode(Prebuf(), ts);
    HeaderFields(|stream| + 12, size, Crc.Checksum(stream) as int, stream);
    Tokens.RoundTrip(Prebuf(), ts, [], size);
    assert stream + [] == stream;
    assert Decoded(Prebuf(), stream, size) == Tokens.Meaning(Prebuf(), ts)[|Prebuf()|..];
    assert |stream| > 0 by {
      NeverEmpty(ts);
    }
  }

  /**
   * The same without saying how to decode: if `r` begins with the preload and says what the tokens say, what
   * comes back is the rest of `r`, then zeros up to the announced size.
   */
  lemma SpelledBack(ts: seq<Tokens.Token>, r: seq<byte>, size: dword)
    requires Tokens.Valid(Prebuf(), ts) && |Tokens.Encode(Prebuf(), ts)| + 12 < 0x1_0000_0000
    requires Prebuf() <= r && Tokens.Spells(r, ts, 207) && 207 <= |r| <= 207 + size && size > 0
    ensures var body := BodyOf(Wrap(Tokens.Encode(Prebuf(), ts), size));
      && body.Decompressed? && |body.text| == size
      && forall k :: 0 <= k < size ==> body.text[k] == if k < |r| - 207 then r[207 + k] else 0
  {
    hide BodyOf, Wrap, Prebuf, Tokens.Valid, Tokens.Encode, Tokens.Meaning, Tokens.Spells;
    Tokens.MeaningIsSpelled(Prebuf(), ts, r);
    WrappedRoundTrip(ts, size);
    forall k | 0 <= k < size
      ensures Padded(r[207..], size)[k] == if k < |r| - 207 then r[207 + k] else 0
    {
      PaddedAt(r[207..], size, k);
    }
  }

  /** Fields that do not fit the value are refused: too short a value, a wrong length, an unknown magic number. */
  lemma HeaderChecked(len: dword, size: dword, magic: dword, crc: dword, rest: seq<byte>)
    ensures var body := BodyOf(Fields(len, size, magic, crc) + rest);
      && (rest == [] || len != |rest| + 12 ==> body == Failed)
      && (rest != [] && len == |rest| + 12 && magic != 0x7546_5a4c && magic != 0x414c_454d ==> body == Unknown)
  {
    hide Fields, Int32At, Crc.Checksum;
    FieldsBack(len, size, magic, crc, rest);
  }

  lemma TooShort(data: seq<byte>)
    requires |data| <= 16
    ensures BodyOf(data) == Failed
  {
  }

  /** Any text can be wrapped, and comes back byte for byte unless it is empty. */
  lemma TextRoundTrip(s: seq<byte>)
    requires |s| < 0x1_0000_0000
    ensures Tokens.Valid(Prebuf(), Tokens.Literals(s))
    ensures var stream := Tokens.Encode(Prebuf(), Tokens.Literals(s));
      |stream| + 12 < 0x1_0000_0000 ==> BodyOf(Wrap(stream, |s|)) == if s == [] then Failed else Decompressed(s)
  {
    hide BodyOf, Wrap, Tokens.Encode, Tokens.Valid, Tokens.Meaning, Tokens.Literals;
    var pre := Prebuf();
    Tokens.LiteralsMean(pre, s);
    if |Tokens.Encode(pre, Tokens.Literals(s))| + 12 < 0x1_0000_0000 {
      WrappedRoundTrip(Tokens.Literals(s), |s|);
    }
    assert (pre + s)[207..] == s;
    assert s + Zeros(0) == s;
  }

  /** A checksum that is not the stream's own is refused. */
  lemma WrongChecksum(size: dword, crc: dword, stream: seq<byte>)
    requires 0 < |stream| && |stream| + 12 < 0x1_0000_0000 && crc != Crc.Checksum(stream) as int
    ensures BodyOf(Header(|stream| + 12, size, crc) + stream) == BadChecksum
  {
    hide Header, Int32At, Crc.Checksum;
    HeaderFields(|stream| + 12, size, crc, stream);
  }

  /** A stream changed anywhere inside 32 consecutive bits, under its old header, is refused. */
  lemma DamageDetected(stream: seq<byte>, damaged: seq<byte>, i: nat, size: dword)
    requires stream != damaged && |stream| == |damaged| && |stream| + 12 < 0x1_0000_0000
    requires Crc.DifferWithin(stream, damaged, i)
    ensures BodyOf(Header(|stream| + 12, size, Crc.Checksum(stream) as int) + damaged) == BadChecksum
  {
    hide BodyOf, Header, Crc.Checksum, Crc.DifferWithin;
    Crc.BitBurstDetected(stream, damaged, i);
    ChecksumsDiffer(Crc.Checksum(stream), Crc.Checksum(damaged));
    WrongChecksum(size, Crc.Checksum(stream) as int, damaged);
  }

  lemma ChecksumsDiffer(a: bv32, b: bv32)
    requires a != b
    ensures a as int != b as int
  {
    assert (a as int) as bv32 == a && (b as int) as bv32 == b;
  }

  // ----- Stored text -----

  /** A text that is stored as it is. */
  function Store(s: seq<byte>, crc: dword): seq<byte>
    requires |s| + 12 < 0x1_0000_0000
  {
    Fields(|s| + 12, |s|, 0x414c_454d, crc) + s
  }

  /** What is copied begins with the last three fields of the header, and there must be so much. */
  lemma StoredShifted(s: seq<byte>, size: dword, crc: dword)
    requires 0 < |s| && |s| + 12 < 0x1_0000_0000
    ensures var behind := Le32(size) + Le32(0x414c_454d) + Le32(crc) + s + [0];
      BodyOf(Fields(|s| + 12, size, 0x414c_454d, crc) + s) == if size > |s| + 13 then Overread else Stored(behind[..size])
  {
    hide Le32, Int32At;
    var data, behind := Fields(|s| + 12, size, 0x414c_454d, crc) + s, Le32(size) + Le32(0x414c_454d) + Le32(crc) + s + [0];
    FieldsBack(|s| + 12, size, 0x414c_454d, crc, s);
    assert data + [0] == Le32(|s| + 12) + behind;
    if size <= |s| + 13 {
      assert (data + [0])[4..4 + size] == behind[..size];
    }
  }

  lemma StoredBody(s: seq<byte>, crc: dword)
    requires 0 < |s| && |s| + 12 < 0x1_0000_0000
    ensures BodyOf(Store(s, crc)) == Stored((Le32(|s|) + Le32(0x414c_454d) + Le32(crc) + s)[..|s|])
  {
    hide BodyOf, Le32, Fields;
    StoredShifted(s, |s|, crc);
    var fields := Le32(|s|) + Le32(0x414c_454d) + Le32(crc);
    assert (fields + s + [0])[..|s|] == (fields + s)[..|s|];
  }

  /** A stored text comes back exactly if it repeats, every twelve bytes, those three fields of its header. */
  lemma StoredComesBack(s: seq<byte>, crc: dword)
    requires 0 < |s| && |s| + 12 < 0x1_0000_0000
    ensures var fields := Le32(|s|) + Le32(0x414c_454d) + Le32(crc);
      BodyOf(Store(s, crc)) == Stored(s) <==> forall k :: 0 <= k < |s| ==> s[k] == fields[k % 12]
  {
    hide Le32, BodyOf, Store;
    var fields := Le32(|s|) + Le32(0x414c_454d) + Le32(crc);
    StoredBody(s, crc);
    var copied := (fields + s)[..|s|];
    if copied == s {
      forall k | 0 <= k < |s|
        ensures s[k] == fields[k % 12]
      {
        Repeats(s, fields, k);
      }
    }
    if forall k :: 0 <= k < |s| ==> s[k] == fields[k % 12] {
      RepeatsCopied(s, fields);
    }
  }

  lemma RepeatsCopied(s: seq<byte>, fields: seq<byte>)
    requires |fields| == 12 && forall k :: 0 <= k < |s| ==> s[k] == fields[k % 12]
    ensures (fields + s)[..|s|] == s
  {
    assert forall k :: 12 <= k < |s| ==> (k - 12) % 12 == k % 12;
  }

  lemma {:induction false} Repeats(s: seq<byte>, fields: seq<byte>, k: nat)
    requires |fields| == 12 && k < |s| && (fields + s)[..|s|] == s
    ensures s[k] == fields[k % 12]
    decreases k
  {
    assert s[k] == (fields + s)[..|s|][k];
    if k >= 12 {
      Repeats(s, fields, k - 12);
    }
  }

  /** The letter A does not: what is copied is the low byte of its length. */
  lemma StoredLost(crc: dword)
    ensures BodyOf(Store([0x41], crc)) == Stored([1])
  {
    hide BodyOf, Store;
    StoredBody([0x41], crc);
    assert Le32(1)[0] == 1;
  }
}
