/** The MAPI properties inside an attribute: `mapi_attr_read`. */
module Mapi {
  import opened Wrappers
  import opened Bytes
  import Utf8

  datatype Guid = Guid(data1: dword, data2: word, data3: word, data4: seq<byte>)

  /** The union inside a value; a text or binary buffer is given without the terminator put after it. */
  datatype Data =
    | Zero
    | Bytes2(w: word)
    | Bytes4(d: dword)
    | Bytes8(low: dword, high: dword)
    | Id(guid: Guid)
    | Buf(bytes: seq<byte>)

  datatype Value = Value(len: nat, data: Data)

  datatype Name = Name(len: nat, text: seq<byte>)

  datatype Attr = Attr(typ: nat, name: nat, guid: Option<Guid>, names: seq<Name>, values: seq<Value>)

  const MULTI_VALUE_FLAG := 0x1000
  const GUID_EXISTS_FLAG := 0x8000

  const SHORT := 0x0002
  const INT := 0x0003
  const FLOAT := 0x0004
  const DOUBLE := 0x0005
  const CURRENCY := 0x0006
  const APPTIME := 0x0007
  const BOOLEAN := 0x000b
  const OBJECT := 0x000d
  const INT8BYTE := 0x0014
  const STRING := 0x001e
  const UNICODE_STRING := 0x001f
  const SYSTIME := 0x0040
  const CLSID := 0x0048
  const BINARY := 0x0102

  predicate IsBuffer(typ: nat) {
    typ == STRING || typ == UNICODE_STRING || typ == OBJECT || typ == BINARY
  }

  predicate IsBytes4(typ: nat) {
    typ == FLOAT || typ == BOOLEAN
  }

  predicate IsBytes8(typ: nat) {
    typ == DOUBLE || typ == APPTIME || typ == CURRENCY || typ == INT8BYTE
  }

  /** The types whose case moves on to the next value; for the others every value lands in the first place. */
  predicate Advances(typ: nat) {
    typ == INT || typ == SYSTIME || IsBuffer(typ)
  }

  predicate HasGuid(name: word) {
    name / GUID_EXISTS_FLAG % 2 == 1
  }

  predicate IsMulti(typ: word) {
    typ / MULTI_VALUE_FLAG % 2 == 1
  }

  /** The type without the multi-value flag. */
  function Base(typ: word): nat {
    if IsMulti(typ) then typ - MULTI_VALUE_FLAG else typ
  }

  /** `pad_to_4byte`. */
  function Pad4(n: nat): (r: nat)
    ensures n <= r < n + 4 && r % 4 == 0
  {
    (n + 3) / 4 * 4
  }

  /** UTF-16 text as it is stored. */
  function TextOf(bytes: seq<byte>): seq<byte> {
    Utf8.Encode(Utf8.Units(bytes))
  }

  // ----- The reader on values: every function takes and returns the cursor -----

  function ReadInt16(s: seq<byte>, idx: nat): Result<(word, nat)> {
    if idx + 2 > |s| then Fail(Exit) else Ok((Int16At(s, idx), idx + 2))
  }

  function ReadInt32(s: seq<byte>, idx: nat): Result<(dword, nat)> {
    if idx + 4 > |s| then Fail(Exit) else Ok((Int32At(s, idx), idx + 4))
  }

  function GuidAt(s: seq<byte>, idx: nat): Guid
    requires idx + 16 <= |s|
  {
    Guid(Int32At(s, idx), Int16At(s, idx + 4), Int16At(s, idx + 6), s[idx + 8..idx + 16])
  }

  /** `copy_guid_from_buf`: the length it is given wraps around when the cursor is past the end. */
  function ReadGuid(s: seq<byte>, idx: nat): Result<(Guid, nat)> {
    if idx > |s| then Fail(OutOfBounds)
    else if |s| - idx < 16 then Fail(Abort)
    else Ok((GuidAt(s, idx), idx + 16))
  }

  /** A length and as many bytes, padded. */
  function ReadBuffer(s: seq<byte>, idx: nat, unicode: bool): Result<(seq<byte>, nat)> {
    var (len, at) :- ReadInt32(s, idx);
    if at + len > |s| || (unicode && len == 0) then Fail(Abort)
    else Ok((s[at..at + len], at + Pad4(len)))
  }

  lemma BufferStands(s: seq<byte>, idx: nat, unicode: bool)
    ensures var r := ReadBuffer(s, idx, unicode);
      r.Ok? ==> var n := |r.value.0|; idx + 4 + n <= |s| && r.value.0 == s[idx + 4..idx + 4 + n] && (unicode ==> n != 0)
  {
  }

  function ReadNames(s: seq<byte>, idx: nat, n: nat, names: seq<Name>): Result<(seq<Name>, nat)>
    decreases n
  {
    if n == 0 then Ok((names, idx))
    else
      var (raw, next) :- ReadBuffer(s, idx, true);
      ReadNames(s, next, n - 1, names + [Name(|raw|, TextOf(raw))])
  }

  /** A string or binary value. */
  function ReadText(s: seq<byte>, idx: nat, unicode: bool): Result<(Value, nat)> {
    var (raw, next) :- ReadBuffer(s, idx, unicode);
    Ok((Value(|raw|, Buf(if unicode then TextOf(raw) else raw)), next))
  }

  function ReadValue(s: seq<byte>, idx: nat, typ: nat, encodeSkip: bool): Result<(Value, nat)> {
    if typ == SHORT then
      var (w, _) :- ReadInt16(s, idx);
      Ok((Value(2, Bytes2(w)), idx + 4))
    else if typ == INT || IsBytes4(typ) then
      var (d, next) :- ReadInt32(s, idx);
      Ok((Value(4, Bytes4(d)), next))
    else if typ == SYSTIME || IsBytes8(typ) then
      var (low, middle) :- ReadInt32(s, idx);
      var (high, next) :- ReadInt32(s, middle);
      Ok((Value(8, Bytes8(low, high)), next))
    else if typ == CLSID then
      var (g, next) :- ReadGuid(s, idx);
      Ok((Value(16, Id(g)), next))
    else if IsBuffer(typ) then ReadText(s, idx, typ == UNICODE_STRING)
    else Fail(if encodeSkip then Skip else Exit)
  }

  /** `n` more values, the next one going to place `v`. */
  function ReadValues(s: seq<byte>, idx: nat, typ: nat, n: nat, values: seq<Value>, v: nat, encodeSkip: bool): Result<(seq<Value>, nat)>
    requires v + n <= |values|
    decreases n
  {
    if n == 0 then Ok((values, idx))
    else
      var (value, next) :- ReadValue(s, idx, typ, encodeSkip);
      ReadValues(s, next, typ, n - 1, values[v := value], if Advances(typ) then v + 1 else v, encodeSkip)
  }

  function NoValues(n: nat): (values: seq<Value>)
    ensures |values| == n
  {
    seq(n, _ => Value(0, Zero))
  }

  /** What identifies a property: its name, and for named ones a GUID and possibly strings. */
  function ReadNaming(s: seq<byte>, idx: nat): Result<(Attr, nat)> {
    var (tag, at) :- ReadInt16(s, idx);
    if !HasGuid(tag) then Ok((Attr(0, tag, None, [], []), at))
    else
      var (guid, at1) :- ReadGuid(s, at);
      var (numNames, at2) :- ReadInt32(s, at1);
      if numNames > 0 then
        var (names, at3) :- ReadNames(s, at2, numNames, []);
        Ok((Attr(0, tag, Some(guid), names, []), at3))
      else
        var (name, at3) :- ReadInt32(s, at2);
        Ok((Attr(0, name, Some(guid), [], []), at3))
  }

  function ReadProperty(s: seq<byte>, idx: nat, encodeSkip: bool): Result<(Attr, nat)> {
    var (typ, at) :- ReadInt16(s, idx);
    var (a, at1) :- ReadNaming(s, at);
    var (n, at2) :- if IsMulti(typ) || IsBuffer(typ) then ReadInt32(s, at1) else Ok((1, at1));
    var base := Base(typ);
    if n == 0 then Fail(Abort)
    else
      var (values, at3) :- ReadValues(s, at2, base, n, NoValues(n), 0, encodeSkip);
      Ok((a.(typ := base, values := values), at3))
  }

  function ReadProperties(s: seq<byte>, idx: nat, n: nat, attrs: seq<Attr>, encodeSkip: bool): Result<(seq<Attr>, nat)>
    decreases n
  {
    if n == 0 then Ok((attrs, idx))
    else
      var (a, next) :- ReadProperty(s, idx, encodeSkip);
      ReadProperties(s, next, n - 1, attrs + [a], encodeSkip)
  }

  /** The attributes in `s`, and where the cursor stands after the last. */
  function ReadAll(s: seq<byte>, encodeSkip: bool): Result<(seq<Attr>, nat)> {
    if |s| <= 4 || Int32At(s, 0) == 0xffff_ffff then Fail(Abort)
    else ReadProperties(s, 4, Int32At(s, 0), [], encodeSkip)
  }

  function AttrsOf(s: seq<byte>, encodeSkip: bool): Result<seq<Attr>> {
    var (attrs, _) :- ReadAll(s, encodeSkip);
    Ok(attrs)
  }

  // ----- The reader the program runs -----

  method CheckedInt16(buf: array<byte>, idx: nat) returns (r: Result<(word, nat)>)
    ensures r == ReadInt16(buf[..], idx)
  {
    if idx + 2 > buf.Length {
      return Fail(Exit);
    }
    var n := GetInt16(buf, idx);
    return Ok((n, idx + 2));
  }

  method CheckedInt32(buf: array<byte>, idx: nat) returns (r: Result<(dword, nat)>)
    ensures r == ReadInt32(buf[..], idx)
  {
    if idx + 4 > buf.Length {
      return Fail(Exit);
    }
    var n := GetInt32(buf, idx);
    return Ok((n, idx + 4));
  }

  method CopyGuidFromBuf(buf: array<byte>, idx: nat) returns (r: Result<(Guid, nat)>)
    ensures r == ReadGuid(buf[..], idx)
  {
    if idx > buf.Length {
      return Fail(OutOfBounds);
    }
    if buf.Length - idx < 16 {
      return Fail(Abort);
    }
    var data1 := GetInt32(buf, idx);
    var data2 := GetInt16(buf, idx + 4);
    var data3 := GetInt16(buf, idx + 6);
    var data4: seq<byte> := [];
    for i := 0 to 8
      invariant data4 == buf[idx + 8..idx + 8 + i]
    {
      data4 := data4 + [buf[idx + 8 + i]];
    }
    assert buf[..][idx + 8..idx + 16] == data4;
    return Ok((Guid(data1, data2, data3, data4), idx + 16));
  }

  method BufferAt(buf: array<byte>, idx: nat, unicode: bool) returns (r: Result<(seq<byte>, nat)>)
    ensures r == ReadBuffer(buf[..], idx, unicode)
  {
    var readLen :- CheckedInt32(buf, idx);
    var (len, at) := readLen;
    if at + len > buf.Length || (unicode && len == 0) {
      return Fail(Abort);
    }
    assert buf[..][at..at + len] == buf[at..at + len];
    return Ok((buf[at..at + len], at + Pad4(len)));
  }

  method NamesFrom(buf: array<byte>, idx: nat, n: nat) returns (r: Result<(seq<Name>, nat)>)
    ensures r == ReadNames(buf[..], idx, n, [])
  {
    hide ReadBuffer;
    var names: seq<Name>, at := [], idx;
    for i := 0 to n
      invariant ReadNames(buf[..], at, n - i, names) == ReadNames(buf[..], idx, n, [])
    {
      var start := at + 4;
      var readRaw :- BufferAt(buf, at, true);
      var (raw, next) := readRaw;
      BufferStands(buf[..], start - 4, true);
      assert buf[start..start + |raw|] == raw;
      var utf8, used := Utf8.UnicodeToUtf8(buf, start, |raw|);
      names := names + [Name(|raw|, utf8[..used])];
      at := next;
    }
    return Ok((names, at));
  }

  method TextFrom(buf: array<byte>, idx: nat, unicode: bool) returns (r: Result<(Value, nat)>)
    ensures r == ReadText(buf[..], idx, unicode)
  {
    hide ReadBuffer;
    BufferStands(buf[..], idx, unicode);
    var readRaw :- BufferAt(buf, idx, unicode);
    var (raw, next) := readRaw;
    var data := raw;
    if unicode {
      assert buf[idx + 4..idx + 4 + |raw|] == raw;
      var utf8, used := Utf8.UnicodeToUtf8(buf, idx + 4, |raw|);
      data := utf8[..used];
    }
    return Ok((Value(|raw|, Buf(data)), next));
  }

  method ValueFrom(buf: array<byte>, idx: nat, typ: nat, encodeSkip: bool) returns (r: Result<(Value, nat)>)
    ensures r == ReadValue(buf[..], idx, typ, encodeSkip)
  {
    hide ReadInt16, ReadInt32, ReadGuid, ReadText;
    if typ == SHORT {
      var readW :- CheckedInt16(buf, idx);
      var (w, _) := readW;
      return Ok((Value(2, Bytes2(w)), idx + 4));
    } else if typ == INT || IsBytes4(typ) {
      var readD :- CheckedInt32(buf, idx);
      var (d, next) := readD;
      return Ok((Value(4, Bytes4(d)), next));
    } else if typ == SYSTIME || IsBytes8(typ) {
      var readLow :- CheckedInt32(buf, idx);
      var (low, middle) := readLow;
      var readHigh :- CheckedInt32(buf, middle);
      var (high, next) := readHigh;
      return Ok((Value(8, Bytes8(low, high)), next));
    } else if typ == CLSID {
      var readG :- CopyGuidFromBuf(buf, idx);
      var (g, next) := readG;
      return Ok((Value(16, Id(g)), next));
    } else if IsBuffer(typ) {
      r := TextFrom(buf, idx, typ == UNICODE_STRING);
      return;
    }
    return Fail(if encodeSkip then Skip else Exit);
  }

  method ValuesFrom(buf: array<byte>, idx: nat, typ: nat, n: nat, encodeSkip: bool) returns (r: Result<(seq<Value>, nat)>)
    ensures r == ReadValues(buf[..], idx, typ, n, NoValues(n), 0, encodeSkip)
  {
    hide ReadValue, Advances;
    var values, v, at := NoValues(n), 0, idx;
    for j := 0 to n
      invariant |values| == n && v <= j
      invariant ReadValues(buf[..], at, typ, n - j, values, v, encodeSkip)
             == ReadValues(buf[..], idx, typ, n, NoValues(n), 0, encodeSkip)
    {
      var readValue :- ValueFrom(buf, at, typ, encodeSkip);
      var (value, next) := readValue;
      values := values[v := value];
      v, at := if Advances(typ) then v + 1 else v, next;
    }
    return Ok((values, at));
  }

  method NamingFrom(buf: array<byte>, idx: nat) returns (r: Result<(Attr, nat)>)
    ensures r == ReadNaming(buf[..], idx)
  {
    hide ReadInt16, ReadInt32, ReadGuid, ReadNames, HasGuid;
    var readTag :- CheckedInt16(buf, idx);
    var (tag, at) := readTag;
    if !HasGuid(tag) {
      return Ok((Attr(0, tag, None, [], []), at));
    }
    var readGuid :- CopyGuidFromBuf(buf, at);
    var (guid, at1) := readGuid;
    var readNumNames :- CheckedInt32(buf, at1);
    var (numNames, at2) := readNumNames;
    if numNames > 0 {
      var readNames :- NamesFrom(buf, at2, numNames);
      return Ok((Attr(0, tag, Some(guid), readNames.0, []), readNames.1));
    }
    var readName :- CheckedInt32(buf, at2);
    return Ok((Attr(0, readName.0, Some(guid), [], []), readName.1));
  }

  method PropertyFrom(buf: array<byte>, idx: nat, encodeSkip: bool) returns (r: Result<(Attr, nat)>)
    ensures r == ReadProperty(buf[..], idx, encodeSkip)
  {
    hide ReadInt16, ReadInt32, ReadNaming, ReadValues, NoValues, IsMulti;
    var readTyp :- CheckedInt16(buf, idx);
    var (typ, at0) := readTyp;
    var readA :- NamingFrom(buf, at0);
    var (a, at) := readA;
    var n: nat := 1;
    if IsMulti(typ) || IsBuffer(typ) {
      var readM :- CheckedInt32(buf, at);
      var (m, at1) := readM;
      n, at := m, at1;
    }
    var base := Base(typ);
    if n == 0 {
      return Fail(Abort);
    }
    var readValues :- ValuesFrom(buf, at, base, n, encodeSkip);
    var (values, end) := readValues;
    return Ok((a.(typ := base, values := values), end));
  }

  /** `mapi_attr_read`. */
  method MapiAttrRead(buf: array<byte>, encodeSkip: bool) returns (r: Result<seq<Attr>>)
    ensures r == AttrsOf(buf[..], encodeSkip)
  {
    hide ReadProperty, Int32At;
    if buf.Length <= 4 {
      return Fail(Abort);
    }
    var numProperties := GetInt32(buf, 0);
    if numProperties == 0xffff_ffff {
      return Fail(Abort);
    }
    var attrs: seq<Attr>, idx := [], 4;
    for i := 0 to numProperties
      invariant ReadProperties(buf[..], idx, numProperties - i, attrs, encodeSkip)
             == ReadProperties(buf[..], 4, numProperties, [], encodeSkip)
    {
      var readA :- PropertyFrom(buf, idx, encodeSkip);
      var (a, next) := readA;
      attrs, idx := attrs + [a], next;
    }
    return Ok(attrs);
  }

  // ----- Alignment -----

  /** In a buffer whose length is a multiple of four the cursor has not passed the end. */
  predicate Inside(s: seq<byte>, idx: nat) {
    |s| % 4 == 0 ==> idx <= |s|
  }

  /** The cursor is at a multiple of four, whatever the length of the buffer. */
  predicate Aligned(s: seq<byte>, idx: nat) {
    idx % 4 == 0 && Inside(s, idx)
  }

  /** A read that ends aligned, or fails; in a buffer of aligned length never for a byte outside it. */
  predicate Safe<T>(s: seq<byte>, r: Result<(T, nat)>) {
    match r
    case Ok((_, next)) => Aligned(s, next)
    case Fail(f) => |s| % 4 == 0 ==> f != OutOfBounds
  }

  lemma GuidSafe(s: seq<byte>, idx: nat)
    requires Aligned(s, idx)
    ensures Safe(s, ReadGuid(s, idx))
  {
  }

  lemma BufferSafe(s: seq<byte>, idx: nat, unicode: bool)
    requires Aligned(s, idx)
    ensures Safe(s, ReadBuffer(s, idx, unicode))
  {
    hide Int32At;
    if idx + 4 <= |s| {
      var len := Int32At(s, idx);
      if idx + 4 + len <= |s| {
        PaddingFits(idx + 4, len, |s|);
      }
    }
  }

  /** Padding keeps the cursor aligned, and never leads past an aligned end. */
  lemma PaddingFits(at: nat, len: nat, n: nat)
    requires at % 4 == 0 && at + len <= n
    ensures (at + Pad4(len)) % 4 == 0 && (n % 4 == 0 ==> at + Pad4(len) <= n)
  {
    hide Pad4;
    var p := Pad4(len);
    SumOfFours(at, p);
    if n % 4 == 0 && at + p > n {
      FoursApart(n, at + p);
    }
  }

  lemma SumOfFours(a: nat, b: nat)
    requires a % 4 == 0 && b % 4 == 0
    ensures (a + b) % 4 == 0
  {
  }

  /** Different multiples of four are at least four apart. */
  lemma FoursApart(a: nat, b: nat)
    requires a % 4 == 0 && b % 4 == 0 && a < b
    ensures a + 4 <= b
  {
  }

  lemma {:induction false} NamesSafe(s: seq<byte>, idx: nat, n: nat, names: seq<Name>)
    requires Aligned(s, idx)
    ensures Safe(s, ReadNames(s, idx, n, names))
    decreases n
  {
    hide Aligned, ReadBuffer;
    if n != 0 {
      BufferSafe(s, idx, true);
      var r := ReadBuffer(s, idx, true);
      if r.Ok? {
        var (raw, next) := r.value;
        NamesSafe(s, next, n - 1, names + [Name(|raw|, TextOf(raw))]);
      }
    }
  }

  /** Four bytes read, or only two of them, take the cursor four on. */
  lemma FourFit(s: seq<byte>, idx: nat)
    requires Aligned(s, idx) && idx < |s|
    ensures Aligned(s, idx + 4)
  {
    if |s| % 4 == 0 {
      FoursApart(idx, |s|);
    }
  }

  lemma Int32Safe(s: seq<byte>, idx: nat)
    requires Aligned(s, idx)
    ensures Safe(s, ReadInt32(s, idx))
  {
    hide Aligned, Int32At;
    if idx + 4 <= |s| {
      FourFit(s, idx);
    }
  }

  lemma TextSafe(s: seq<byte>, idx: nat, unicode: bool)
    requires Aligned(s, idx)
    ensures Safe(s, ReadText(s, idx, unicode))
  {
    hide Aligned, ReadBuffer, TextOf;
    BufferSafe(s, idx, unicode);
  }

  lemma ValueSafe(s: seq<byte>, idx: nat, typ: nat, encodeSkip: bool)
    requires Aligned(s, idx)
    ensures Safe(s, ReadValue(s, idx, typ, encodeSkip))
  {
    hide Aligned, ReadGuid, ReadText, Int16At, Int32At;
    GuidSafe(s, idx);
    TextSafe(s, idx, typ == UNICODE_STRING);
    Int32Safe(s, idx);
    if idx < |s| {
      FourFit(s, idx);
      Int32Safe(s, idx + 4);
    }
  }

  lemma {:induction false} ValuesSafe(s: seq<byte>, idx: nat, typ: nat, n: nat, values: seq<Value>, v: nat, encodeSkip: bool)
    requires Aligned(s, idx) && v + n <= |values|
    ensures Safe(s, ReadValues(s, idx, typ, n, values, v, encodeSkip))
    decreases n
  {
    hide Aligned, ReadValue, Advances;
    if n != 0 {
      ValueSafe(s, idx, typ, encodeSkip);
      var r := ReadValue(s, idx, typ, encodeSkip);
      if r.Ok? {
        ValuesSafe(s, r.value.1, typ, n - 1, values[v := r.value.0], if Advances(typ) then v + 1 else v, encodeSkip);
      }
    }
  }

  lemma TwoMore(s: seq<byte>, idx: nat)
    requires idx % 4 == 2 && idx + 2 <= |s|
    ensures Aligned(s, idx + 2)
  {
  }

  lemma NamingSafe(s: seq<byte>, idx: nat)
    requires idx % 4 == 2 && Inside(s, idx)
    ensures Safe(s, ReadNaming(s, idx))
  {
    hide Aligned, Inside, ReadGuid, ReadInt32, ReadNames, HasGuid, Int16At;
    if idx + 2 <= |s| {
      TwoMore(s, idx);
      var guid := ReadGuid(s, idx + 2);
      GuidSafe(s, idx + 2);
      if guid.Ok? {
        var count := ReadInt32(s, guid.value.1);
        Int32Safe(s, guid.value.1);
        if count.Ok? {
          NamesSafe(s, count.value.1, count.value.0, []);
          Int32Safe(s, count.value.1);
        }
      }
    }
  }

  lemma TwoOn(s: seq<byte>, idx: nat)
    requires Aligned(s, idx) && idx + 2 <= |s|
    ensures (idx + 2) % 4 == 2 && Inside(s, idx + 2)
  {
  }

  lemma PropertySafe(s: seq<byte>, idx: nat, encodeSkip: bool)
    requires Aligned(s, idx)
    ensures Safe(s, ReadProperty(s, idx, encodeSkip))
  {
    hide Aligned, Inside, ReadNaming, ReadValues, ReadInt32, IsMulti, IsBuffer, Base, Int16At, NoValues;
    if idx + 2 <= |s| {
      var typ, naming := Int16At(s, idx), ReadNaming(s, idx + 2);
      TwoOn(s, idx);
      NamingSafe(s, idx + 2);
      if naming.Ok? {
        var at := naming.value.1;
        var count := if IsMulti(typ) || IsBuffer(typ) then ReadInt32(s, at) else Ok((1, at));
        Int32Safe(s, at);
        if count.Ok? {
          var n: nat := count.value.0;
          ValuesSafe(s, count.value.1, Base(typ), n, NoValues(n), 0, encodeSkip);
        }
      }
    }
  }

  lemma {:induction false} PropertiesSafe(s: seq<byte>, idx: nat, n: nat, attrs: seq<Attr>, encodeSkip: bool)
    requires Aligned(s, idx)
    ensures Safe(s, ReadProperties(s, idx, n, attrs, encodeSkip))
    decreases n
  {
    hide Aligned, ReadProperty;
    if n != 0 {
      PropertySafe(s, idx, encodeSkip);
      var r := ReadProperty(s, idx, encodeSkip);
      if r.Ok? {
        PropertiesSafe(s, r.value.1, n - 1, attrs + [r.value.0], encodeSkip);
      }
    }
  }

  /** Whatever is accepted, in a buffer of any length, the cursor ends at a multiple of four. */
  lemma CursorAligned(s: seq<byte>, encodeSkip: bool)
    ensures ReadAll(s, encodeSkip).Ok? ==> ReadAll(s, encodeSkip).value.1 % 4 == 0
  {
    if |s| > 4 {
      PropertiesSafe(s, 4, Int32At(s, 0), [], encodeSkip);
    }
  }

  /** In a buffer whose length is a multiple of four no input makes the parser read past the end. */
  lemma AlignedBufferIsSafe(s: seq<byte>, encodeSkip: bool)
    requires |s| % 4 == 0
    ensures Safe(s, ReadAll(s, encodeSkip))
  {
    if |s| > 4 {
      PropertiesSafe(s, 4, Int32At(s, 0), [], encodeSkip);
    }
  }

  // ----- Which lengths are safe -----

  /** A read that moves the cursor on, or fails, but never for a byte outside the buffer. */
  predicate Onward<T>(idx: nat, r: Result<(T, nat)>) {
    match r
    case Ok((_, next)) => idx <= next
    case Fail(f) => f != OutOfBounds
  }

  /** Only class ids are read without looking at where the buffer ends. */
  lemma {:induction false} ValuesOnward(s: seq<byte>, idx: nat, typ: nat, n: nat, values: seq<Value>, v: nat, encodeSkip: bool)
    requires v + n <= |values| && (typ == CLSID ==> idx <= |s|)
    ensures Onward(idx, ReadValues(s, idx, typ, n, values, v, encodeSkip))
    decreases n
  {
    hide Advances, GuidAt, Int16At, Int32At, TextOf;
    if n != 0 {
      var r := ReadValue(s, idx, typ, encodeSkip);
      if r.Ok? {
        ValuesOnward(s, r.value.1, typ, n - 1, values[v := r.value.0], if Advances(typ) then v + 1 else v, encodeSkip);
      }
    }
  }

  /** In 32 bytes there is no room for a property named by a string. */
  lemma ShortNaming(s: seq<byte>, idx: nat)
    requires 6 <= idx <= |s| <= 32
    ensures Onward(idx, ReadNaming(s, idx)) && (ReadNaming(s, idx).Ok? ==> ReadNaming(s, idx).value.1 <= |s|)
  {
    hide HasGuid, GuidAt, Int16At, Int32At;
    if idx + 22 <= |s| {
      var n: nat := Int32At(s, idx + 18);
      if n > 0 {
        assert ReadBuffer(s, idx + 22, true).Fail?;
        assert ReadNames(s, idx + 22, n, []).Fail?;
      }
    }
  }

  lemma ShortProperty(s: seq<byte>, idx: nat, encodeSkip: bool)
    requires 4 <= idx && |s| <= 32
    ensures Onward(idx, ReadProperty(s, idx, encodeSkip))
  {
    hide ReadNaming, ReadValues, IsMulti, IsBuffer, Base, Int16At, Int32At, NoValues;
    if idx + 2 <= |s| {
      ShortNaming(s, idx + 2);
      var typ, naming := Int16At(s, idx), ReadNaming(s, idx + 2);
      if naming.Ok? {
        var at := naming.value.1;
        var count := if IsMulti(typ) || IsBuffer(typ) then ReadInt32(s, at) else Ok((1, at));
        if count.Ok? {
          var n: nat := count.value.0;
          ValuesOnward(s, count.value.1, Base(typ), n, NoValues(n), 0, encodeSkip);
        }
      }
    }
  }

  lemma {:induction false} ShortProperties(s: seq<byte>, idx: nat, n: nat, attrs: seq<Attr>, encodeSkip: bool)
    requires 4 <= idx && |s| <= 32
    ensures Onward(idx, ReadProperties(s, idx, n, attrs, encodeSkip))
    decreases n
  {
    hide ReadProperty;
    if n != 0 {
      ShortProperty(s, idx, encodeSkip);
      var r := ReadProperty(s, idx, encodeSkip);
      if r.Ok? {
        ShortProperties(s, r.value.1, n - 1, attrs + [r.value.0], encodeSkip);
      }
    }
  }

  /** A class id behind a name that ends the buffer and whose padding does not fit in it. */
  function Overlong(n: nat): (s: seq<byte>)
    requires 32 < n < 0x1_0000_0000
    ensures |s| == n
  {
    [1, 0, 0, 0, 0x48, 0, 0, 0x80] + Zeros(16) + [1, 0, 0, 0] + Le32(n - 32) + Zeros(n - 32)
  }

  lemma OverlongFields(n: nat)
    requires 32 < n < 0x1_0000_0000
    ensures var s := Overlong(n);
      && Int32At(s, 0) == 1 && Int16At(s, 4) == CLSID && Int16At(s, 6) == 0x8000
      && Int32At(s, 24) == 1 && Int32At(s, 28) == n - 32
  {
    var s := Overlong(n);
    assert Int32At(s, 28) == n - 32 by {
      hide Le32, Int32At;
      assert s[28..32] == Le32(n - 32);
      Le32Inverse(s, 28, n - 32);
    }
  }

  lemma OverlongIsUnsafe(n: nat, encodeSkip: bool)
    requires 32 < n < 0x1_0000_0000 && n % 4 != 0
    ensures ReadAll(Overlong(n), encodeSkip) == Fail(OutOfBounds)
  {
    hide TextOf, GuidAt, Int16At, Int32At, Le32, Overlong, Pad4, NoValues;
    var s := Overlong(n);
    OverlongFields(n);
    var end := 32 + Pad4(n - 32);
    assert end > n;
    var name := Name(n - 32, TextOf(s[32..n]));
    assert ReadBuffer(s, 28, true) == Ok((s[32..n], end));
    assert ReadNames(s, end, 0, [name]) == Ok(([name], end));
    assert ReadNames(s, 28, 1, []) == Ok(([name], end)) by {
      assert [] + [name] == [name];
    }
    assert ReadNaming(s, 6) == Ok((Attr(0, 0x8000, Some(GuidAt(s, 8)), [name], []), end));
    assert ReadValue(s, end, CLSID, encodeSkip) == Fail(OutOfBounds);
    assert ReadValues(s, end, CLSID, 1, NoValues(1), 0, encodeSkip) == Fail(OutOfBounds);
    assert ReadProperty(s, 4, encodeSkip) == Fail(OutOfBounds);
  }

  /** The lengths at which no input makes the parser read past the end: multiples of four, and up to 32. */
  lemma SafeLengths(n: nat, encodeSkip: bool)
    requires n < 0x1_0000_0000
    ensures (forall s: seq<byte> | |s| == n :: ReadAll(s, encodeSkip) != Fail(OutOfBounds)) <==> n % 4 == 0 || n <= 32
  {
    hide ReadProperties;
    if n % 4 == 0 || n <= 32 {
      forall s: seq<byte> | |s| == n
        ensures ReadAll(s, encodeSkip) != Fail(OutOfBounds)
      {
        if n % 4 == 0 {
          AlignedBufferIsSafe(s, encodeSkip);
        } else if n > 4 {
          ShortProperties(s, 4, Int32At(s, 0), [], encodeSkip);
        }
      }
    } else {
      OverlongIsUnsafe(n, encodeSkip);
      assert |Overlong(n)| == n;
    }
  }
}
