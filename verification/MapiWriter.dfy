/** Writing MAPI properties, and reading them back. */
module MapiWriter {
  import opened Wrappers
  import opened Bytes
  import opened Mapi

  /** How a property is identified: a plain name, a GUID and a number, or a GUID and UTF-16 strings. */
  datatype Naming =
    | Plain(name: word)
    | Numbered(tag: word, guid: Guid, id: dword)
    | Named(tag: word, guid: Guid, names: seq<seq<byte>>)

  /** A property to be written; buffers are given as they stand in the file, UTF-16 text unconverted. */
  datatype Property = Property(typ: nat, multi: bool, naming: Naming, values: seq<Data>)

  /** Strings, UTF-16 strings, objects and binary data are always counted. */
  predicate Counted(typ: nat) {
    typ == 0x1e || typ == 0x1f || typ == 0x0d || typ == 0x102
  }

  /** Names of named properties have the top bit of sixteen set, all others do not. */
  predicate FitsNaming(n: Naming) {
    match n
    case Plain(name) => name < 0x8000
    case Numbered(tag, guid, _) => tag >= 0x8000 && |guid.data4| == 8
    case Named(tag, guid, names) =>
      && tag >= 0x8000 && |guid.data4| == 8 && 0 < |names| < 0x1_0000_0000
      && forall k :: 0 <= k < |names| ==> 0 < |names[k]| < 0x1_0000_0000
  }

  /** The type codes, and what is written for a value of each. */
  predicate FitsData(typ: nat, d: Data) {
    match d
    case Zero => false
    case Bytes2(_) => typ == 0x02
    case Bytes4(_) => typ == 0x03 || typ == 0x04 || typ == 0x0b
    case Bytes8(_, _) => typ == 0x05 || typ == 0x06 || typ == 0x07 || typ == 0x14 || typ == 0x40
    case Id(guid) => typ == 0x48 && |guid.data4| == 8
    case Buf(bytes) => Counted(typ) && |bytes| < 0x1_0000_0000 && (typ == 0x1f ==> bytes != [])
  }

  /** Any number of values of one type, one if there is no count to write. */
  predicate Fits(p: Property) {
    && FitsNaming(p.naming) && 0 < |p.values| < 0x1_0000_0000
    && (forall k :: 0 <= k < |p.values| ==> FitsData(p.typ, p.values[k]))
    && (!p.multi && !Counted(p.typ) ==> |p.values| == 1)
  }

  predicate AllFit(ps: seq<Property>) {
    forall k :: 0 <= k < |ps| ==> Fits(ps[k])
  }

  // ----- Writing -----

  function WriteBuffer(b: seq<byte>): seq<byte>
    requires |b| < 0x1_0000_0000
  {
    Le32(|b|) + (b + Zeros(Pad4(|b|) - |b|))
  }

  function WriteGuid(g: Guid): seq<byte> {
    Le32(g.data1) + (Le16(g.data2) + (Le16(g.data3) + g.data4))
  }

  function WriteNames(names: seq<seq<byte>>): seq<byte>
    requires forall k :: 0 <= k < |names| ==> |names[k]| < 0x1_0000_0000
  {
    if names == [] then [] else WriteBuffer(names[0]) + WriteNames(names[1..])
  }

  function WriteNaming(n: Naming): seq<byte>
    requires FitsNaming(n)
  {
    match n
    case Plain(name) => Le16(name)
    case Numbered(tag, guid, id) => Le16(tag) + (WriteGuid(guid) + (Le32(0) + Le32(id)))
    case Named(tag, guid, names) => Le16(tag) + (WriteGuid(guid) + (Le32(|names|) + WriteNames(names)))
  }

  function WriteData(typ: nat, d: Data): seq<byte>
    requires FitsData(typ, d)
  {
    match d
    case Bytes2(w) => Le16(w) + [0, 0]
    case Bytes4(v) => Le32(v)
    case Bytes8(low, high) => Le32(low) + Le32(high)
    case Id(guid) => WriteGuid(guid)
    case Buf(bytes) => WriteBuffer(bytes)
  }

  function WriteValues(typ: nat, ds: seq<Data>): seq<byte>
    requires forall k :: 0 <= k < |ds| ==> FitsData(typ, ds[k])
  {
    if ds == [] then [] else WriteData(typ, ds[0]) + WriteValues(typ, ds[1..])
  }

  /** The type as it is written. */
  function Tag(typ: nat, multi: bool): (tag: nat) {
    if multi then typ + 0x1000 else typ
  }

  lemma TagIsRead(typ: nat, d: Data, multi: bool)
    requires FitsData(typ, d)
    ensures var tag := Tag(typ, multi); tag < 0x1_0000 && IsMulti(tag) == multi && Base(tag) == typ
    ensures multi || IsBuffer(Tag(typ, multi)) <==> multi || Counted(typ)
  {
  }

  function Write(p: Property): seq<byte>
    requires Fits(p)
  {
    TagIsRead(p.typ, p.values[0], p.multi);
    var count := if p.multi || Counted(p.typ) then Le32(|p.values|) else [];
    Le16(Tag(p.typ, p.multi)) + (WriteNaming(p.naming) + (count + WriteValues(p.typ, p.values)))
  }

  function WriteAll(ps: seq<Property>): seq<byte>
    requires AllFit(ps)
  {
    if ps == [] then [] else Write(ps[0]) + WriteAll(ps[1..])
  }

  // ----- What reading should give -----

  function StoredName(b: seq<byte>): Name {
    Name(|b|, TextOf(b))
  }

  function StoredValue(typ: nat, d: Data): Value {
    match d
    case Zero => Value(0, Zero)
    case Bytes2(_) => Value(2, d)
    case Bytes4(_) => Value(4, d)
    case Bytes8(_, _) => Value(8, d)
    case Id(_) => Value(16, d)
    case Buf(bytes) => Value(|bytes|, Buf(if typ == 0x1f then TextOf(bytes) else bytes))
  }

  /** The types of which several values are kept. */
  predicate Several(typ: nat) {
    typ == 0x03 || typ == 0x40 || Counted(typ)
  }

  /** Where `ds` end up in `values`, the first at place `v`: one after another, or all in the same place. */
  function Filled(typ: nat, ds: seq<Data>, values: seq<Value>, v: nat): seq<Value>
    requires v + |ds| <= |values|
    decreases |ds|
  {
    if ds == [] then values
    else Filled(typ, ds[1..], values[v := StoredValue(typ, ds[0])], if Several(typ) then v + 1 else v)
  }

  function Stored(p: Property): Attr {
    var values := Filled(p.typ, p.values, NoValues(|p.values|), 0);
    match p.naming
    case Plain(name) => Attr(p.typ, name, None, [], values)
    case Numbered(_, guid, id) => Attr(p.typ, id, Some(guid), [], values)
    case Named(tag, guid, names) => Attr(p.typ, tag, Some(guid), seq(|names|, k requires 0 <= k < |names| => StoredName(names[k])), values)
  }

  function AllStored(ps: seq<Property>): seq<Attr> {
    seq(|ps|, k requires 0 <= k < |ps| => Stored(ps[k]))
  }

  /** What place `k` holds afterwards, having held `before`. */
  function Placed(typ: nat, ds: seq<Data>, v: nat, k: nat, before: Value): Value {
    if Several(typ) && v <= k < v + |ds| then StoredValue(typ, ds[k - v])
    else if !Several(typ) && k == v && ds != [] then StoredValue(typ, ds[|ds| - 1])
    else before
  }

  lemma {:induction false} FilledInOrder(typ: nat, ds: seq<Data>, values: seq<Value>, v: nat)
    requires v + |ds| <= |values|
    ensures |Filled(typ, ds, values, v)| == |values|
    ensures forall k | 0 <= k < |values| :: Filled(typ, ds, values, v)[k] == Placed(typ, ds, v, k, values[k])
    decreases |ds|
  {
    hide Several, StoredValue;
    if ds != [] {
      FilledInOrder(typ, ds[1..], values[v := StoredValue(typ, ds[0])], if Several(typ) then v + 1 else v);
    }
  }

  /** All the values of a property survive, in order, exactly when there is one or its type moves on. */
  lemma ValuesKept(p: Property)
    requires Fits(p)
    ensures |Stored(p).values| == |p.values|
    ensures (forall k | 0 <= k < |p.values| :: Stored(p).values[k] == StoredValue(p.typ, p.values[k]))
       <==> Several(p.typ) || |p.values| == 1
  {
    FilledInOrder(p.typ, p.values, NoValues(|p.values|), 0);
    assert FitsData(p.typ, p.values[0]);
    if !Several(p.typ) && |p.values| > 1 {
      assert FitsData(p.typ, p.values[1]);
      assert Stored(p).values[1] == Value(0, Zero) != StoredValue(p.typ, p.values[1]);
    }
  }

  // ----- Reading back -----

  /** `bs` stands at `idx`. */
  predicate At(s: seq<byte>, idx: nat, bs: seq<byte>) {
    idx + |bs| <= |s| && s[idx..idx + |bs|] == bs
  }

  lemma AtSplit(s: seq<byte>, idx: nat, a: seq<byte>, b: seq<byte>)
    requires At(s, idx, a + b)
    ensures At(s, idx, a) && At(s, idx + |a|, b)
  {
    assert s[idx..idx + |a|] == s[idx..idx + |a + b|][..|a|];
    assert s[idx + |a|..idx + |a| + |b|] == s[idx..idx + |a + b|][|a|..];
  }

  lemma Int16Back(s: seq<byte>, idx: nat, n: word)
    requires At(s, idx, Le16(n))
    ensures ReadInt16(s, idx) == Ok((n, idx + 2))
  {
    hide Le16, Int16At;
    Le16Inverse(s, idx, n);
  }

  lemma Int32Back(s: seq<byte>, idx: nat, n: dword)
    requires At(s, idx, Le32(n))
    ensures ReadInt32(s, idx) == Ok((n, idx + 4))
  {
    hide Le32, Int32At;
    Le32Inverse(s, idx, n);
  }

  lemma GuidBack(s: seq<byte>, idx: nat, g: Guid)
    requires |g.data4| == 8 && At(s, idx, WriteGuid(g))
    ensures ReadGuid(s, idx) == Ok((g, idx + 16)) && |WriteGuid(g)| == 16
  {
    hide Le16, Le32, Int16At, Int32At;
    AtSplit(s, idx, Le32(g.data1), Le16(g.data2) + (Le16(g.data3) + g.data4));
    AtSplit(s, idx + 4, Le16(g.data2), Le16(g.data3) + g.data4);
    AtSplit(s, idx + 6, Le16(g.data3), g.data4);
    Int32Back(s, idx, g.data1);
    Int16Back(s, idx + 4, g.data2);
    Int16Back(s, idx + 6, g.data3);
  }

  lemma BufferBack(s: seq<byte>, idx: nat, b: seq<byte>, unicode: bool)
    requires |b| < 0x1_0000_0000 && (unicode ==> b != []) && At(s, idx, WriteBuffer(b))
    ensures ReadBuffer(s, idx, unicode) == Ok((b, idx + |WriteBuffer(b)|))
  {
    hide Le32, ReadInt32, Pad4;
    var pad := Zeros(Pad4(|b|) - |b|);
    AtSplit(s, idx, Le32(|b|), b + pad);
    AtSplit(s, idx + 4, b, pad);
    Int32Back(s, idx, |b|);
  }

  lemma {:induction false} NamesBack(s: seq<byte>, idx: nat, names: seq<seq<byte>>, before: seq<Name>)
    requires forall k :: 0 <= k < |names| ==> 0 < |names[k]| < 0x1_0000_0000
    requires At(s, idx, WriteNames(names))
    ensures ReadNames(s, idx, |names|, before)
         == Ok((before + seq(|names|, k requires 0 <= k < |names| => StoredName(names[k])), idx + |WriteNames(names)|))
    decreases |names|
  {
    hide WriteBuffer, ReadBuffer, At, TextOf;
    var all := seq(|names|, k requires 0 <= k < |names| => StoredName(names[k]));
    if names == [] {
      assert before + all == before;
    } else {
      var rest := seq(|names[1..]|, k requires 0 <= k < |names[1..]| => StoredName(names[1..][k]));
      AtSplit(s, idx, WriteBuffer(names[0]), WriteNames(names[1..]));
      BufferBack(s, idx, names[0], true);
      var here := [StoredName(names[0])];
      NamesBack(s, idx + |WriteBuffer(names[0])|, names[1..], before + here);
      assert before + all == before + here + rest;
    }
  }

  lemma TopBit(tag: word)
    ensures HasGuid(tag) <==> tag >= 0x8000
  {
  }

  lemma NamingBack(s: seq<byte>, idx: nat, p: Property)
    requires FitsNaming(p.naming) && At(s, idx, WriteNaming(p.naming))
    ensures ReadNaming(s, idx) == Ok((Stored(p).(typ := 0, values := []), idx + |WriteNaming(p.naming)|))
  {
    hide Le16, Le32, ReadInt16, ReadInt32, ReadGuid, ReadNames, WriteGuid, WriteNames, HasGuid, At, Filled;
    match p.naming {
      case Plain(name) =>
        TopBit(name);
        Int16Back(s, idx, name);
      case Numbered(tag, guid, id) =>
        TopBit(tag);
        AtSplit(s, idx, Le16(tag), WriteGuid(guid) + (Le32(0) + Le32(id)));
        AtSplit(s, idx + 2, WriteGuid(guid), Le32(0) + Le32(id));
        Int16Back(s, idx, tag);
        GuidBack(s, idx + 2, guid);
        AtSplit(s, idx + 18, Le32(0), Le32(id));
        Int32Back(s, idx + 18, 0);
        Int32Back(s, idx + 22, id);
      case Named(tag, guid, names) =>
        TopBit(tag);
        AtSplit(s, idx, Le16(tag), WriteGuid(guid) + (Le32(|names|) + WriteNames(names)));
        AtSplit(s, idx + 2, WriteGuid(guid), Le32(|names|) + WriteNames(names));
        Int16Back(s, idx, tag);
        GuidBack(s, idx + 2, guid);
        AtSplit(s, idx + 18, Le32(|names|), WriteNames(names));
        Int32Back(s, idx + 18, |names|);
        NamesBack(s, idx + 22, names, []);
        assert [] + Stored(p).names == Stored(p).names;
    }
  }

  lemma DataBack(s: seq<byte>, idx: nat, typ: nat, d: Data, encodeSkip: bool)
    requires FitsData(typ, d) && At(s, idx, WriteData(typ, d))
    ensures ReadValue(s, idx, typ, encodeSkip) == Ok((StoredValue(typ, d), idx + |WriteData(typ, d)|))
  {
    hide Le16, Le32, ReadInt16, ReadInt32, ReadGuid, WriteGuid, ReadBuffer, WriteBuffer, At, TextOf;
    match d {
      case Bytes2(w) =>
        AtSplit(s, idx, Le16(w), [0, 0]);
        Int16Back(s, idx, w);
      case Bytes4(v) =>
        Int32Back(s, idx, v);
      case Bytes8(low, high) =>
        AtSplit(s, idx, Le32(low), Le32(high));
        Int32Back(s, idx, low);
        Int32Back(s, idx + 4, high);
      case Id(guid) =>
        GuidBack(s, idx, guid);
      case Buf(bytes) =>
        BufferBack(s, idx, bytes, typ == 0x1f);
    }
  }

  lemma SeveralAdvance(typ: nat)
    ensures Advances(typ) == Several(typ)
  {
  }

  lemma {:induction false} ValuesBack(s: seq<byte>, idx: nat, typ: nat, ds: seq<Data>, values: seq<Value>, v: nat, encodeSkip: bool)
    requires v + |ds| <= |values| && forall k :: 0 <= k < |ds| ==> FitsData(typ, ds[k])
    requires At(s, idx, WriteValues(typ, ds))
    ensures ReadValues(s, idx, typ, |ds|, values, v, encodeSkip) == Ok((Filled(typ, ds, values, v), idx + |WriteValues(typ, ds)|))
    decreases |ds|
  {
    SeveralAdvance(typ);
    hide FitsData, WriteData, ReadValue, StoredValue, Advances, Several, At;
    if ds != [] {
      AtSplit(s, idx, WriteData(typ, ds[0]), WriteValues(typ, ds[1..]));
      DataBack(s, idx, typ, ds[0], encodeSkip);
      ValuesBack(s, idx + |WriteData(typ, ds[0])|, typ, ds[1..], values[v := StoredValue(typ, ds[0])],
                 if Several(typ) then v + 1 else v, encodeSkip);
    }
  }

  lemma PropertyBack(s: seq<byte>, idx: nat, p: Property, encodeSkip: bool)
    requires Fits(p) && At(s, idx, Write(p))
    ensures ReadProperty(s, idx, encodeSkip) == Ok((Stored(p), idx + |Write(p)|))
  {
    hide Le16, Le32, ReadInt16, ReadInt32, ReadNaming, WriteNaming, ReadValues, WriteValues, Filled, FitsNaming, FitsData, At;
    hide IsMulti, Base, IsBuffer, Tag, NoValues;
    TagIsRead(p.typ, p.values[0], p.multi);
    var tag, naming, values := Le16(Tag(p.typ, p.multi)), WriteNaming(p.naming), WriteValues(p.typ, p.values);
    var count := if p.multi || Counted(p.typ) then Le32(|p.values|) else [];
    AtSplit(s, idx, tag, naming + (count + values));
    Int16Back(s, idx, Tag(p.typ, p.multi));
    AtSplit(s, idx + 2, naming, count + values);
    NamingBack(s, idx + 2, p);
    var at := idx + 2 + |naming|;
    AtSplit(s, at, count, values);
    if count != [] {
      Int32Back(s, at, |p.values|);
    }
    ValuesBack(s, at + |count|, p.typ, p.values, NoValues(|p.values|), 0, encodeSkip);
  }

  lemma {:induction false} PropertiesBack(s: seq<byte>, idx: nat, ps: seq<Property>, before: seq<Attr>, encodeSkip: bool)
    requires AllFit(ps) && At(s, idx, WriteAll(ps))
    ensures ReadProperties(s, idx, |ps|, before, encodeSkip)
         == Ok((before + AllStored(ps), idx + |WriteAll(ps)|))
    decreases |ps|
  {
    hide Fits, Write, ReadProperty, Stored, At;
    if ps == [] {
      assert before + AllStored(ps) == before;
    } else {
      AtSplit(s, idx, Write(ps[0]), WriteAll(ps[1..]));
      PropertyBack(s, idx, ps[0], encodeSkip);
      PropertiesBack(s, idx + |Write(ps[0])|, ps[1..], before + [Stored(ps[0])], encodeSkip);
      assert before + AllStored(ps) == before + [Stored(ps[0])] + AllStored(ps[1..]);
    }
  }

  function Document(ps: seq<Property>): seq<byte>
    requires AllFit(ps) && |ps| < 0x1_0000_0000
  {
    Le32(|ps|) + WriteAll(ps)
  }

  /**
   * Every list of properties comes back as it was, in order, with every byte of it used and whatever follows
   * left alone.  Two lists run into an assertion: the empty one with nothing after it, which is only four
   * bytes long, and the longest one, whose number has no successor in 32 bits.
   */
  lemma RoundTrip(ps: seq<Property>, after: seq<byte>, encodeSkip: bool)
    requires AllFit(ps) && |ps| < 0x1_0000_0000
    ensures ReadAll(Document(ps) + after, encodeSkip) ==
      if (ps == [] && after == []) || |ps| == 0xffff_ffff then Fail(Abort)
      else Ok((AllStored(ps), |Document(ps)|))
  {
    hide Le32, WriteAll, ReadProperties, Stored, AllFit;
    var s := Document(ps) + after;
    assert s[0..|Document(ps)|] == Document(ps);
    AtSplit(s, 0, Le32(|ps|), WriteAll(ps));
    Int32Back(s, 0, |ps|);
    WriteAllLength(ps);
    PropertiesBack(s, 4, ps, [], encodeSkip);
    assert [] + AllStored(ps) == AllStored(ps);
  }

  lemma WriteAllLength(ps: seq<Property>)
    requires AllFit(ps)
    ensures if ps == [] then WriteAll(ps) == [] else |WriteAll(ps)| >= 2
  {
    hide WriteNaming, WriteValues;
    if ps != [] {
      assert |Write(ps[0])| >= 2;
    }
  }

  // ----- What is not read -----

  /** The fourteen type codes that are known. */
  predicate Known(typ: nat) {
    typ in {0x02, 0x03, 0x04, 0x05, 0x06, 0x07, 0x0b, 0x0d, 0x14, 0x1e, 0x1f, 0x40, 0x48, 0x102}
  }

  /** A known type is read for what it is, if its bytes are there. */
  lemma KnownIsRead(s: seq<byte>, idx: nat, typ: nat, encodeSkip: bool)
    requires Known(typ) && !Counted(typ)
    ensures var size := if typ == 0x02 then 2 else if typ in {0x03, 0x04, 0x0b} then 4 else if typ == 0x48 then 16 else 8;
      var r := ReadValue(s, idx, typ, encodeSkip);
      && (idx + size <= |s| ==> r.Ok? && r.value.0.len == size && r.value.1 == idx + if typ == 0x02 then 4 else size)
      && (idx <= |s| < idx + size ==> r == Fail(if typ == 0x48 then Abort else Exit))
      && (typ == 0x02 && r.Ok? ==> r.value.0.data == Bytes2(Int16At(s, idx)))
      && (size == 4 && r.Ok? ==> r.value.0.data == Bytes4(Int32At(s, idx)))
      && (size == 8 && r.Ok? ==> r.value.0.data == Bytes8(Int32At(s, idx), Int32At(s, idx + 4)))
      && (size == 16 && r.Ok? ==> r.value.0.data == Id(Guid(Int32At(s, idx), Int16At(s, idx + 4), Int16At(s, idx + 6), s[idx + 8..idx + 16])))
  {
    hide Int16At, Int32At;
  }

  /** A counted type is a length and as many bytes, refused if they are not there or there is no text. */
  lemma CountedIsRead(s: seq<byte>, idx: nat, typ: nat, encodeSkip: bool)
    requires Counted(typ)
    ensures var r := ReadValue(s, idx, typ, encodeSkip);
      if idx + 4 > |s| then r == Fail(Exit)
      else
        var len := Int32At(s, idx);
        if idx + 4 + len > |s| || (typ == 0x1f && len == 0) then r == Fail(Abort)
        else
          var raw := s[idx + 4..idx + 4 + len];
          && r.Ok? && r.value.0 == Value(len, Buf(if typ == 0x1f then TextOf(raw) else raw))
          && idx + 4 + len <= r.value.1 < idx + 8 + len && (r.value.1 - idx) % 4 == 0
  {
    hide Int32At, TextOf;
  }

  /** Every other type ends the program, or the reading of the attribute if errors are to be skipped. */
  lemma UnknownStops(s: seq<byte>, idx: nat, typ: nat, encodeSkip: bool)
    ensures !Known(typ) ==> ReadValue(s, idx, typ, encodeSkip) == Fail(if encodeSkip then Skip else Exit)
  {
    hide Int16At, Int32At, TextOf;
  }

  /** A property of an unknown type, with or without the multi-value flag, is not read whatever follows. */
  lemma UnknownProperty(s: seq<byte>, idx: nat, typ: word, name: word, encodeSkip: bool)
    requires idx + 8 <= |s| && s[idx..idx + 4] == Le16(typ) + Le16(name) && name < 0x8000
    requires if typ / 0x1000 % 2 == 1 then !Known(typ - 0x1000) && Int32At(s, idx + 4) != 0 else !Known(typ)
    ensures ReadProperty(s, idx, encodeSkip) == Fail(if encodeSkip then Skip else Exit)
  {
    hide Le16, Int16At, Int32At, NoValues, ReadValue;
    assert s[idx..idx + 2] == s[idx..idx + 4][..2] == Le16(typ);
    assert s[idx + 2..idx + 4] == s[idx..idx + 4][2..] == Le16(name);
    Le16Inverse(s, idx, typ);
    Le16Inverse(s, idx + 2, name);
    UnknownStops(s, idx + 4, Base(typ), encodeSkip);
    UnknownStops(s, idx + 8, Base(typ), encodeSkip);
  }

  /** A name must not be empty and must be there. */
  lemma NameRefused(s: seq<byte>, idx: nat, n: nat, names: seq<Name>)
    requires n > 0 && (idx + 4 <= |s| ==> Int32At(s, idx) == 0 || idx + 4 + Int32At(s, idx) > |s|)
    ensures ReadNames(s, idx, n, names) == Fail(if idx + 4 > |s| then Exit else Abort)
  {
    hide Int32At, TextOf;
  }

  /** A property without values, and a list that announces more than can be counted, run into assertions. */
  lemma NoValuesStop(s: seq<byte>, idx: nat, typ: word, name: word, encodeSkip: bool)
    requires idx + 8 <= |s| && s[idx..idx + 4] == Le16(typ) + Le16(name) && name < 0x8000
    requires (typ / 0x1000 % 2 == 1 || Counted(typ)) && Int32At(s, idx + 4) == 0
    ensures ReadProperty(s, idx, encodeSkip) == Fail(Abort)
  {
    hide Le16, Int16At, Int32At, NoValues, ReadValue;
    assert s[idx..idx + 2] == s[idx..idx + 4][..2] == Le16(typ);
    assert s[idx + 2..idx + 4] == s[idx..idx + 4][2..] == Le16(name);
    Le16Inverse(s, idx, typ);
    Le16Inverse(s, idx + 2, name);
  }
}
