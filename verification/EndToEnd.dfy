/** From the attachments and bodies somebody put into a TNEF file to the files that are written. */
module EndToEnd {
  import opened Wrappers
  import opened Bytes
  import opened Attributes
  import opened Files
  import opened Latest
  import opened Tnef
  import opened Assembly
  import Lz
  import Mapi
  import MapiWriter
  import Message
  import Path
  import Preload
  import Rtf
  import Saving
  import Tokens
  import Utf8

  /** What somebody sends: a name, contents, and rendering data at either level. */
  datatype Attachment = Attachment(name: text, data: seq<byte>, rendering: seq<byte>, lvl: byte)

  /** The name is a C string and every part fits in an attribute. */
  predicate Proper(a: Attachment) {
    && 0 !in a.name && |a.name| + 1 < 0x1_0000_0000 && |a.data| < 0x1_0000_0000
    && |a.rendering| < 0x1_0000_0000 && (a.lvl == 1 || a.lvl == 2)
  }

  predicate AllProper(attachments: seq<Attachment>) {
    forall k :: 0 <= k < |attachments| ==> Proper(attachments[k])
  }

  /** The attributes of one attachment, by their codes: rendering data, title, contents. */
  function AttachmentAttrs(a: Attachment): seq<Attribute> {
    [Attribute(a.lvl, 6, 0x9002, a.rendering),
     Attribute(2, 1, 0x8010, a.name + [0]),
     Attribute(2, 6, 0x800f, a.data)]
  }

  function AllAttrs(attachments: seq<Attachment>): seq<Attribute> {
    if attachments == [] then [] else AttachmentAttrs(attachments[0]) + AllAttrs(attachments[1..])
  }

  /** The file one attachment should become. */
  function Expected(a: Attachment, o: Settings): Written {
    Written(a.name, PathOf(a.name, o), FileData(Some(a.name), |a.data|, Some(a.data), Date(0, 0, 0, 0, 0, 0, 0), None, None))
  }

  /** One file for each attachment, in order. */
  function AllExpected(attachments: seq<Attachment>, o: Settings): (ws: seq<Written>)
    ensures |ws| == |attachments|
  {
    seq(|attachments|, k requires 0 <= k < |attachments| => Expected(attachments[k], o))
  }

  /** What the attributes of an attachment write. */
  lemma AttachmentWrites(a: Attachment, o: Settings)
    requires 0 !in a.name
    ensures FileWrites(AttachmentAttrs(a), o) == [Name(a.name), Data(|a.data|, a.data)]
  {
    hide CString;
    CStringIs(a.name, []);
    assert a.name + [0] + [] == a.name + [0];
    var attrs := AttachmentAttrs(a);
    assert AttrWrites(attrs[0], o.encodeSkip) == [];
    assert AttrWrites(attrs[1], o.encodeSkip) == [Name(a.name)];
    assert AttrWrites(attrs[2], o.encodeSkip) == [Data(|a.data|, a.data)];
    hide AttrWrites;
    assert attrs[1..][1..] == attrs[2..] && attrs[2..][1..] == [];
    assert FileWrites(attrs[2..], o) == [Data(|a.data|, a.data)];
    assert FileWrites(attrs[1..], o) == [Name(a.name)] + [Data(|a.data|, a.data)];
  }

  lemma NoBodyFound(a: Attachment, o: Settings)
    ensures FoundWrites(AttachmentAttrs(a), o) == []
  {
    var attrs := AttachmentAttrs(a);
    assert Message.MessageWrites(attrs[0], o.encodeSkip) == [];
    hide Message.MessageWrites;
    assert attrs[1..][1..] == attrs[2..] && attrs[2..][1..] == [];
    assert FoundWrites(attrs[2..], o) == [];
    assert FoundWrites(attrs[1..], o) == [];
  }

  lemma AttachmentFields(a: Attachment, o: Settings)
    ensures WriteOut(FieldsAfter(NO_FILE, [Name(a.name), Data(|a.data|, a.data)]), o) == Expected(a, o)
  {
    hide PathOf;
    var ws := [Name(a.name), Data(|a.data|, a.data)];
    hide Last;
    LastAt(ws, AsName, 0);
    LastAt(ws, AsData, 1);
    LastOfNone(ws, AsDate);
    LastOfNone(ws, AsMime);
    LastOfNone(ws, AsCid);
  }

  /** The attributes of one attachment make one file. */
  lemma OneFile(a: Attachment, o: Settings)
    requires 0 !in a.name
    ensures AllFiles(AttachmentAttrs(a), o) == [Expected(a, o)]
  {
    hide WriteOut, FieldsAfter, FileWrites, Expected;
    var attrs := AttachmentAttrs(a);
    assert attrs[..2][..1] == attrs[..1];
    assert LastStart(attrs[..1]) == Some(0);
    assert LastStart(attrs[..2]) == Some(0);
    assert LastStart(attrs) == Some(0);
    assert attrs[..0] == [] && attrs[0..] == attrs;
    hide LastStart, AttachmentAttrs;
    NoneAtAll(o);
    AttachmentWrites(a, o);
    AttachmentFields(a, o);
    assert [] + [Expected(a, o)] == [Expected(a, o)];
  }

  lemma NoneAtAll(o: Settings)
    ensures AllFiles([], o) == [] && FoundWrites([], o) == []
  {
  }

  lemma {:induction false} FilesOfAll(attachments: seq<Attachment>, o: Settings)
    requires AllProper(attachments)
    ensures var attrs := AllAttrs(attachments);
      && (attrs != [] ==> StartsFile(attrs[0]))
      && AllFiles(attrs, o) == AllExpected(attachments, o) && FoundWrites(attrs, o) == []
    decreases |attachments|
  {
    hide AllFiles, FoundWrites, Expected;
    if attachments == [] {
      NoneAtAll(o);
    } else {
      var a, rest := attachments[0], attachments[1..];
      FilesOfAll(rest, o);
      OneFile(a, o);
      NoBodyFound(a, o);
      hide AttachmentAttrs;
      FilesConcat(AttachmentAttrs(a), AllAttrs(rest), o);
      FoundConcat(AttachmentAttrs(a), AllAttrs(rest), o);
      assert AllExpected(attachments, o) == [Expected(a, o)] + AllExpected(rest, o);
    }
  }

  /** Nothing an attachment consists of can stop the program, and all of it can be written. */
  lemma {:induction false} AttrsFine(attachments: seq<Attachment>, encodeSkip: bool)
    requires AllProper(attachments)
    ensures forall a :: a in AllAttrs(attachments) ==>
      Writable(a) && Accepted(a, encodeSkip) && Message.Readable(a, encodeSkip)
  {
    hide Mapi.AttrsOf;
    if attachments != [] {
      AttrsFine(attachments[1..], encodeSkip);
    }
  }

  /** Messages before the first attachment that can be read and written. */
  predicate Fine(m: Attribute, encodeSkip: bool) {
    m.lvl == 1 && m.name != 0x9002 && Writable(m) && Message.Readable(m, encodeSkip)
  }

  predicate AllFine(messages: seq<Attribute>, encodeSkip: bool) {
    forall k :: 0 <= k < |messages| ==> Fine(messages[k], encodeSkip)
  }

  lemma EverythingTaken(messages: seq<Attribute>, attrs: seq<Attribute>, o: Settings)
    requires AllFine(messages, o.encodeSkip) && (attrs != [] ==> StartsFile(attrs[0]))
    requires forall a :: a in attrs ==> Accepted(a, o.encodeSkip) && Message.Readable(a, o.encodeSkip)
    ensures TakenUpTo(messages + attrs, 0, o) == |messages + attrs|
  {
    hide Accepted, StartsFile, Message.Readable, TakenUpTo;
    var all := messages + attrs;
    forall k | 0 <= k < |all|
      ensures Taken(all, k, o)
    {
      if k < |messages| {
        assert Fine(messages[k], o.encodeSkip);
      } else {
        assert all[k] == attrs[k - |messages|] && all[..k + 1][|messages|] == attrs[0];
      }
    }
  }

  lemma MessagesMakeNoFile(messages: seq<Attribute>, o: Settings)
    requires AllFine(messages, o.encodeSkip)
    ensures LastStart(messages).None? && AllFiles(messages, o) == []
  {
    assert forall k :: 0 <= k < |messages| ==> Fine(messages[k], o.encodeSkip) && !StartsFile(messages[k]);
  }

  /**
   * Every list of attachments put into a TNEF file behind any messages, with any key and fewer than eight
   * stray bytes at the end, comes out as exactly those files, in order, with their names and contents.
   */
  lemma AttachmentsExtracted(key: word, messages: seq<Attribute>, attachments: seq<Attachment>, garbage: seq<byte>, o: Settings)
    requires |garbage| < 8
    requires AllFine(messages, o.encodeSkip) && AllProper(attachments)
    ensures forall a :: a in messages + AllAttrs(attachments) ==> Writable(a)
    ensures OutcomeOf(FileOf(key, messages + AllAttrs(attachments), garbage), o)
         == Parsed(AllExpected(attachments, o), BodiesOf(messages, o))
  {
    hide OutcomeOf, FileOf, AllFiles, AllAttrs, AllProper, AllExpected, Writable, StartsFile, Accepted, Message.Readable, FoundWrites;
    hide TakenUpTo, Message.BodiesAfter, LastStart;
    var attrs := AllAttrs(attachments);
    AttrsFine(attachments, o.encodeSkip);
    assert forall a :: a in messages ==> Writable(a) by {
      assert forall k :: 0 <= k < |messages| ==> Fine(messages[k], o.encodeSkip);
    }
    FilesOfAll(attachments, o);
    EverythingTaken(messages, attrs, o);
    MessagesMakeNoFile(messages, o);
    FilesConcat(messages, attrs, o);
    FoundConcat(messages, attrs, o);
    ParsedAsWritten(key, messages + attrs, garbage, o);
    assert [] + AllExpected(attachments, o) == AllExpected(attachments, o);
    assert FoundWrites(messages, o) + [] == FoundWrites(messages, o);
  }

  /**
   * With numbering, no attachment is lost, whatever their names and whatever is on the disk: each has a
   * place of its own that holds its contents, and every file that was there is as it was.
   */
  lemma EveryAttachmentKept(key: word, messages: seq<Attribute>, attachments: seq<Attachment>, garbage: seq<byte>, o: Settings, disk: Disk)
    requires |garbage| < 8 && o.policy == Saving.NUMBERED
    requires AllFine(messages, o.encodeSkip) && AllProper(attachments)
    ensures forall a :: a in messages + AllAttrs(attachments) ==> Writable(a)
    ensures var ws := Log(OutcomeOf(FileOf(key, messages + AllAttrs(attachments), garbage), o));
      var places, after := Saving.Places(disk, ws, o.policy), SaveAll(disk, ws, o.policy);
      && |places| == |attachments| && Saving.Distinct(disk, places)
      && (forall i :: 0 <= i < |attachments| ==> places[i].value in after && after[places[i].value] == attachments[i].data)
      && (forall path :: path in disk ==> path in after && after[path] == disk[path])
  {
    hide OutcomeOf, FileOf, AllAttrs, AllProper, AllFine, Writable, SaveAll, PathOf, BodiesOf, Saving.Places;
    AttachmentsExtracted(key, messages, attachments, garbage, o);
    var ws := AllExpected(attachments, o);
    Saving.NothingLost(disk, ws);
    assert forall i :: 0 <= i < |attachments| ==> Contents(ws[i].file) == attachments[i].data;
  }

  /** What stands before the name of a file written to a directory. */
  function DirectoryPrefix(directory: Option<text>): text {
    match directory
    case None => []
    case Some(d) => if d == [] || d[|d| - 1] == Path.SLASH then d else d + [Path.SLASH]
  }

  /** Without paths a file is written under its escaped name, in the directory and in no other below it. */
  lemma PlainPath(name: text, o: Settings)
    requires name != [] && !o.paths.usePaths
    ensures var escaped := Path.Sanitize(name, o.paths.unixFs);
      PathOf(name, o) == DirectoryPrefix(o.directory) + escaped && escaped != [] && Path.SLASH !in escaped
  {
    hide Path.Sanitize, Path.StripSlashes, Path.IsWindowsPath;
    Path.MungePlain(name, o.paths);
    var path := Path.Sanitize(name, o.paths.unixFs);
    var whole := DirectoryPrefix(o.directory) + path;
    assert path[0] in path && path[|path| - 1] in path && whole[|whole| - 1] == path[|path| - 1];
    if o.directory.Some? && o.directory.value != [] {
      assert Path.Join(o.directory.value, path) == whole;
    } else {
      assert whole == path;
    }
    NothingStripped(whole);
  }

  lemma NothingStripped(s: text)
    requires s != [] && s[|s| - 1] != Path.SLASH
    ensures Path.StripSlashes(s) == s
  {
  }

  lemma MungedEnd(name: text, o: Path.Rules)
    requires name != []
    ensures var m := Path.Munge(name, o); m.Some? && m.value != [] && m.value[|m.value| - 1] != Path.SLASH
  {
    hide Path.Sanitize, Path.IsWindowsPath, Path.Directory, Path.LastIndex, Path.Munge;
    if o.usePaths && Path.IsWindowsPath(name) {
      Path.WindowsPathHasBackslash(name);
      Path.MungePath(name, o);
      var base := Path.Sanitize(name[Path.LastIndex(name, Path.BACKSLASH).value + 1..], o.unixFs);
      assert base[|base| - 1] in base;
    } else {
      Path.MungePlain(name, o);
      var base := Path.Sanitize(name, o.unixFs);
      assert base[|base| - 1] in base;
    }
  }

  /** A path in a directory: a slash in between, unless there is one. */
  function Under(directory: Option<text>, m: text): text
    requires m != []
  {
    match directory
    case None => m
    case Some(d) => if d == [] then m else if d[|d| - 1] == 0x2f || m[0] == 0x2f then d + m else d + [0x2f] + m
  }

  lemma JoinedUnder(directory: Option<text>, m: text)
    requires m != [] && m[|m| - 1] != Path.SLASH
    ensures Path.Concat(directory, Some(m)) == Some(Under(directory, m))
  {
    hide Path.StripSlashes;
    var whole := Under(directory, m);
    assert whole[|whole| - 1] == m[|m| - 1];
    NothingStripped(whole);
    if directory.Some? && directory.value != [] {
      assert directory.value + [] + m == directory.value + m;
      assert Path.Join(directory.value, m) == whole;
    }
  }

  function TnefTmp(): text {
    [0x74, 0x6e, 0x65, 0x66, 0x2d, 0x74, 0x6d, 0x70]
  }

  lemma DefaultIs()
    ensures DEFAULT_FILENAME == TnefTmp()
  {
  }

  lemma PathThrough(name: text, o: Settings, m: text)
    requires Path.Munge(name, o.paths).GetOr(DEFAULT_FILENAME) == m && m != [] && m[|m| - 1] != Path.SLASH
    ensures PathOf(name, o) == Under(o.directory, m)
  {
    hide Path.Munge, Path.Concat, Under;
    JoinedUnder(o.directory, m);
  }

  lemma NothingMunged(o: Path.Rules)
    ensures Path.Munge([], o).None?
  {
  }

  /** With or without paths and a name: what the name becomes, or "tnef-tmp", under the directory. */
  lemma PathIsJoined(name: text, o: Settings)
    ensures var m := if name == [] then TnefTmp() else Path.Munge(name, o.paths).GetOr([]);
      m != [] && PathOf(name, o) == Under(o.directory, m)
  {
    hide Path.Munge, Path.Concat, Under, PathOf;
    if name == [] {
      NothingMunged(o.paths);
      DefaultIs();
      PathThrough(name, o, TnefTmp());
    } else {
      MungedEnd(name, o.paths);
      PathThrough(name, o, Path.Munge(name, o.paths).value);
    }
  }

  // ----- Properties of an attachment -----

  /** The name under which a property is filed. */
  function NameOf(p: MapiWriter.Property): nat {
    match p.naming
    case Plain(name) => name
    case Numbered(_, _, id) => id
    case Named(tag, _, _) => tag
  }

  /** The type the fields of a file want: text for name, MIME type and content id, binary or an object for the data. */
  predicate Suits(p: MapiWriter.Property) {
    var name := NameOf(p);
    && (name == 0x3707 || name == 0x370e || name == 0x3712 ==> p.typ == 0x1e || p.typ == 0x1f)
    && (name == 0x3701 ==> p.typ == 0x102 || p.typ == 0x0d)
  }

  /** As many bytes of a text as its value was long in the file, the terminator included. */
  function Cut(content: text, n: nat): text {
    if n <= |content| then content[..n] else content + [0]
  }

  /** What a property says about a file: its first value, UTF-16 converted. */
  function Says(p: MapiWriter.Property): seq<FieldWrite>
    requires p.values != []
  {
    match p.values[0]
    case Buf(raw) =>
      var content := if p.typ == 0x1f then Utf8.Encode(Utf8.Units(raw)) else raw;
      if NameOf(p) == 0x3707 then [Name(CString(content))]
      else if NameOf(p) == 0x3701 then [Data(|raw|, content)]
      else if NameOf(p) == 0x370e then [Mime(Cut(content, |raw|))]
      else if NameOf(p) == 0x3712 then [Cid(Cut(content, |raw|))]
      else []
    case _ => []
  }

  function AllSay(ps: seq<MapiWriter.Property>): seq<FieldWrite>
    requires MapiWriter.AllFit(ps)
  {
    if ps == [] then [] else Says(ps[0]) + AllSay(ps[1..])
  }

  predicate AllSuit(ps: seq<MapiWriter.Property>) {
    forall k :: 0 <= k < |ps| ==> Suits(ps[k])
  }

  lemma CopiedIsCut(v: Mapi.Value)
    requires v.data.Buf?
    ensures Copied(v) == Cut(v.data.bytes, v.len)
  {
    var bytes := v.data.bytes;
    if v.len <= |bytes| {
      assert (bytes + [0])[..v.len] == bytes[..v.len];
    }
  }

  lemma FirstStored(p: MapiWriter.Property)
    requires MapiWriter.Fits(p)
    ensures var values := MapiWriter.Stored(p).values;
      values != [] && (MapiWriter.Counted(p.typ) ==> values[0] == MapiWriter.StoredValue(p.typ, p.values[0]))
  {
    hide MapiWriter.StoredValue, MapiWriter.FitsNaming, MapiWriter.FitsData, MapiWriter.Filled;
    MapiWriter.FilledInOrder(p.typ, p.values, Mapi.NoValues(|p.values|), 0);
    assert MapiWriter.Stored(p).values[0] == MapiWriter.Placed(p.typ, p.values, 0, 0, Mapi.NoValues(|p.values|)[0]);
  }

  /** Of a property that suits, the first value arrives, whatever its naming and however many values it has. */
  lemma StoredSays(p: MapiWriter.Property)
    requires MapiWriter.Fits(p)
    ensures WellTyped(MapiWriter.Stored(p)) <==> Suits(p)
    ensures Suits(p) ==> MapiWrites(MapiWriter.Stored(p)) == Says(p)
  {
    hide CString, Copied, Cut, MapiWriter.FitsNaming, MapiWriter.Filled;
    FirstStored(p);
    assert MapiWriter.FitsData(p.typ, p.values[0]);
    if MapiWriter.Counted(p.typ) {
      CopiedIsCut(MapiWriter.StoredValue(p.typ, p.values[0]));
    }
  }

  lemma {:induction false} AllStoredSay(ps: seq<MapiWriter.Property>)
    requires MapiWriter.AllFit(ps)
    ensures AllWellTyped(MapiWriter.AllStored(ps)) <==> AllSuit(ps)
    ensures AllSuit(ps) ==> AllMapiWrites(MapiWriter.AllStored(ps)) == AllSay(ps)
  {
    hide WellTyped, Suits, MapiWrites, Says, MapiWriter.Stored, MapiWriter.Fits;
    if ps != [] {
      var stored := MapiWriter.AllStored(ps);
      assert stored[0] == MapiWriter.Stored(ps[0]) && stored[1..] == MapiWriter.AllStored(ps[1..]);
      StoredSays(ps[0]);
      AllStoredSay(ps[1..]);
      assert AllSuit(ps) <==> Suits(ps[0]) && AllSuit(ps[1..]);
      assert AllWellTyped(stored) <==> WellTyped(stored[0]) && AllWellTyped(stored[1..]);
    } else {
      assert MapiWriter.AllStored(ps) == [];
    }
  }

  /**
   * Whatever properties an attachment attribute holds, and whatever was in the file: if the types suit, each
   * field becomes what the last property for it says, and otherwise the program stops.
   */
  lemma PropertiesReachTheFile(f: FileData, ps: seq<MapiWriter.Property>, encodeSkip: bool)
    requires MapiWriter.AllFit(ps) && 0 < |ps| < 0xffff_ffff
    ensures WithAttr(f, Attribute(2, 6, 0x9005, MapiWriter.Document(ps)), encodeSkip)
         == if AllSuit(ps) then Ok(FieldsAfter(f, AllSay(ps))) else Fail(Abort)
  {
    hide MapiWriter.Document, MapiWriter.AllStored, MapiWriter.AllFit, Mapi.ReadAll, FieldsAfter, AllWellTyped, AllSuit, AllSay;
    MapiWriter.RoundTrip(ps, [], encodeSkip);
    assert MapiWriter.Document(ps) + [] == MapiWriter.Document(ps);
    AllStoredSay(ps);
    MapiLastWins(f, MapiWriter.AllStored(ps));
  }

  /**
   * An attribute whose first property has an unknown type: if errors are to be skipped it changes nothing, be it
   * in an attachment or in a message, and otherwise the program ends.
   */
  lemma UnknownSkipped(f: FileData, b: Message.Bodies, lvl: byte, typ: word, name: word, count: dword, rest: seq<byte>, encodeSkip: bool)
    requires !MapiWriter.Known(typ) && typ / 0x1000 % 2 == 0 && name < 0x8000 && 0 < count < 0xffff_ffff && |rest| >= 4
    ensures var a := Attribute(lvl, 6, 0x9005, Le32(count) + Le16(typ) + Le16(name) + rest);
      WithAttr(f, a, encodeSkip) == if encodeSkip then Ok(f) else Fail(Exit)
    ensures var a := Attribute(lvl, 6, 0x9003, Le32(count) + Le16(typ) + Le16(name) + rest);
      Message.WithMessage(b, a, encodeSkip) == if encodeSkip then Ok(b) else Fail(Exit)
  {
    hide Le32, Le16, Int32At, Mapi.ReadProperty, MapiWriter.Known;
    var s := Le32(count) + Le16(typ) + Le16(name) + rest;
    assert s[0..4] == Le32(count) && s[4..8] == Le16(typ) + Le16(name);
    Le32Inverse(s, 0, count);
    MapiWriter.UnknownProperty(s, 4, typ, name, encodeSkip);
    assert Mapi.AttrsOf(s, encodeSkip) == Fail(if encodeSkip then Skip else Exit);
    hide Mapi.AttrsOf;
  }

  // ----- The formatted body of a message -----

  /** A property holding a compressed stream. */
  function RtfProperty(stream: seq<byte>, size: dword): MapiWriter.Property
    requires |stream| + 12 < 0x1_0000_0000
  {
    MapiWriter.Property(0x102, false, MapiWriter.Plain(0x1009), [Mapi.Buf(Rtf.Wrap(stream, size))])
  }

  predicate IsRtf(p: MapiWriter.Property) {
    p.typ == 0x102 && NameOf(p) == 0x1009
  }

  lemma WrapHasMagic(stream: seq<byte>, size: dword)
    requires |stream| + 12 < 0x1_0000_0000
    ensures var data := Rtf.Wrap(stream, size);
      |data| == |stream| + 16 && Message.IsRtfData(data)
  {
    hide Int32At, Rtf.Header;
    Rtf.HeaderFields(|stream| + 12, size, Rtf.Crc.Checksum(stream) as int, stream);
  }

  lemma StoredBuffer(name: word, s: seq<byte>)
    ensures MapiWriter.Stored(MapiWriter.Property(Mapi.BINARY, false, MapiWriter.Plain(name), [Mapi.Buf(s)]))
         == Mapi.Attr(Mapi.BINARY, name, None, [], [Mapi.Value(|s|, Mapi.Buf(s))])
  {
    var v := Mapi.Value(|s|, Mapi.Buf(s));
    assert Mapi.NoValues(1)[0 := v] == [v];
    assert MapiWriter.Filled(Mapi.BINARY, [Mapi.Buf(s)][1..], [v], 1) == [v];
  }

  lemma OneValue(v: Mapi.Value)
    ensures Message.Stops(Message.RtfBody(v)).None? ==> Message.RtfBodies([v]) == Ok([Message.RtfBody(v)])
  {
    if Message.Stops(Message.RtfBody(v)).None? {
      Message.BodiesOneByOne([v], [Message.RtfBody(v)]);
    }
  }

  /** The one body in a property that holds a stream written from tokens. */
  lemma OneBody(ts: seq<Tokens.Token>, size: dword)
    requires Tokens.Valid(Preload.Prebuf(), ts) && |Tokens.Encode(Preload.Prebuf(), ts)| + 16 < 0x1_0000_0000
    requires |Tokens.Meaning(Preload.Prebuf(), ts)| <= 207 + size && size > 0
    ensures var a := MapiWriter.Stored(RtfProperty(Tokens.Encode(Preload.Prebuf(), ts), size));
      && Message.HasRtf(a)
      && Message.RtfBodies(a.values) == Ok([Some(Rtf.Decompressed(Lz.Padded(Tokens.Meaning(Preload.Prebuf(), ts)[207..], size)))])
  {
    hide Rtf.BodyOf, Rtf.Wrap, Message.IsRtfData, Tokens.Encode, Tokens.Meaning, Tokens.Valid, MapiWriter.Stored;
    var stream := Tokens.Encode(Preload.Prebuf(), ts);
    var data := Rtf.Wrap(stream, size);
    WrapHasMagic(stream, size);
    StoredBuffer(Message.MAPI_RTF_COMPRESSED, data);
    Rtf.WrappedRoundTrip(ts, size);
    OneValue(Mapi.Value(|data|, Mapi.Buf(data)));
  }

  function MessageAttr(ps: seq<MapiWriter.Property>): Attribute
    requires MapiWriter.AllFit(ps) && |ps| < 0x1_0000_0000
  {
    Attribute(1, 6, 0x9003, MapiWriter.Document(ps))
  }

  lemma StoredThreeParts(before: seq<MapiWriter.Property>, p: MapiWriter.Property, after: seq<MapiWriter.Property>)
    ensures MapiWriter.AllStored(before + [p] + after)
         == MapiWriter.AllStored(before) + [MapiWriter.Stored(p)] + MapiWriter.AllStored(after)
  {
    hide MapiWriter.Stored;
  }

  lemma StoredKind(p: MapiWriter.Property)
    ensures Message.HasRtf(MapiWriter.Stored(p)) == IsRtf(p)
  {
    hide MapiWriter.Filled;
  }

  /**
   * Text compressed as any list of tokens, behind a header with its checksum, as one of any properties of a
   * message: the message is taken exactly if the other formatted bodies before it can be read, and if this
   * one is the last, what is found is the text that the tokens mean.
   */
  lemma BodyFound(b: Message.Bodies, before: seq<MapiWriter.Property>, ts: seq<Tokens.Token>, size: dword,
                  after: seq<MapiWriter.Property>, encodeSkip: bool)
    requires Tokens.Valid(Preload.Prebuf(), ts) && |Tokens.Encode(Preload.Prebuf(), ts)| + 16 < 0x1_0000_0000
    requires |Tokens.Meaning(Preload.Prebuf(), ts)| <= 207 + size && size > 0
    requires MapiWriter.AllFit(before) && MapiWriter.AllFit(after) && |before| + |after| + 1 < 0xffff_ffff
    requires forall k :: 0 <= k < |after| ==> !IsRtf(after[k])
    ensures var ps := before + [RtfProperty(Tokens.Encode(Preload.Prebuf(), ts), size)] + after;
      && MapiWriter.AllFit(ps)
      && var r := Message.WithMessage(b, MessageAttr(ps), encodeSkip);
      && (r.Ok? <==> Message.AllDecode(MapiWriter.AllStored(before)))
      && (r.Ok? ==> r.value.rtf == Some([Some(Rtf.Decompressed(Lz.Padded(Tokens.Meaning(Preload.Prebuf(), ts)[207..], size)))]))
  {
    hide Tokens.Encode, Tokens.Meaning, Tokens.Valid, Rtf.Wrap, Preload.Prebuf, Mapi.ReadAll;
    hide MapiWriter.Document, MapiWriter.AllStored, MapiWriter.Stored, IsRtf, Message.HasRtf, Message.RtfBodies, Message.WithProperties;
    var stream := Tokens.Encode(Preload.Prebuf(), ts);
    var p := RtfProperty(stream, size);
    var ps, a := before + [p] + after, MapiWriter.Stored(p);
    RtfFits(stream, size);
    FitThreeParts(before, p, after);
    hide RtfProperty, MapiWriter.AllFit, MapiWriter.Fits;
    MapiWriter.RoundTrip(ps, [], encodeSkip);
    assert MapiWriter.Document(ps) + [] == MapiWriter.Document(ps);
    StoredThreeParts(before, p, after);
    OneBody(ts, size);
    var first, last := MapiWriter.AllStored(before), MapiWriter.AllStored(after);
    NoRtfStored(after);
    var all := first + [a] + last;
    assert Mapi.AttrsOf(MapiWriter.Document(ps), encodeSkip) == Ok(all);
    Message.PropertiesLastWin(b, all);
    DecodeThreeParts(first, a, last);
    if Message.WithProperties(b, all).Ok? {
      Message.LastRtfStays(b, first, a, last);
    }
  }

  lemma RtfFits(stream: seq<byte>, size: dword)
    requires |stream| + 16 < 0x1_0000_0000
    ensures MapiWriter.Fits(RtfProperty(stream, size))
  {
    hide Rtf.Wrap;
    WrapHasMagic(stream, size);
  }

  lemma FitThreeParts(before: seq<MapiWriter.Property>, p: MapiWriter.Property, after: seq<MapiWriter.Property>)
    requires MapiWriter.AllFit(before) && MapiWriter.Fits(p) && MapiWriter.AllFit(after)
    ensures MapiWriter.AllFit(before + [p] + after)
  {
    hide MapiWriter.Fits;
  }

  lemma NoRtfStored(ps: seq<MapiWriter.Property>)
    requires forall k :: 0 <= k < |ps| ==> !IsRtf(ps[k])
    ensures forall k :: 0 <= k < |MapiWriter.AllStored(ps)| ==> !Message.HasRtf(MapiWriter.AllStored(ps)[k])
  {
    hide IsRtf, Message.HasRtf, MapiWriter.Stored;
    forall k | 0 <= k < |ps|
      ensures !Message.HasRtf(MapiWriter.AllStored(ps)[k])
    {
      StoredKind(ps[k]);
    }
  }

  lemma DecodeThreeParts(first: seq<Mapi.Attr>, a: Mapi.Attr, last: seq<Mapi.Attr>)
    requires Message.Decodes(a) && forall k :: 0 <= k < |last| ==> !Message.HasRtf(last[k])
    ensures Message.AllDecode(first + [a] + last) <==> Message.AllDecode(first)
  {
    hide Message.HasRtf;
    var all := first + [a] + last;
    if Message.AllDecode(all) {
      assert forall k :: 0 <= k < |first| ==> first[k] == all[k] && Message.Decodes(all[k]);
    }
  }

  // ----- Other bodies -----

  /** A plain body is the data of its attribute, and attributes other than that and the properties are passed over. */
  lemma TextFound(b: Message.Bodies, a: Attribute, encodeSkip: bool)
    ensures a.name == 0x800c ==> Message.WithMessage(b, a, encodeSkip) == Ok(b.(text := Some(a.buf)))
    ensures a.name != 0x800c && a.name != 0x9003 ==> Message.WithMessage(b, a, encodeSkip) == Ok(b)
  {
  }

  predicate IsHtml(p: MapiWriter.Property) {
    p.typ == 0x102 && NameOf(p) == 0x1013
  }

  lemma StoredHtml(p: MapiWriter.Property)
    ensures Message.HasHtml(MapiWriter.Stored(p)) == IsHtml(p)
  {
    hide MapiWriter.Filled;
  }

  lemma HtmlParts(p: MapiWriter.Property, k: nat)
    requires MapiWriter.Fits(p) && IsHtml(p) && k < |p.values|
    ensures var parts := Message.Buffers(MapiWriter.Stored(p).values);
      |parts| == |p.values| && p.values[k].Buf? && parts[k] == p.values[k].bytes
  {
    hide MapiWriter.FitsNaming, MapiWriter.Filled;
    assert MapiWriter.FitsData(p.typ, p.values[k]);
    MapiWriter.FilledInOrder(p.typ, p.values, Mapi.NoValues(|p.values|), 0);
    assert MapiWriter.Stored(p).values[k] == MapiWriter.Placed(p.typ, p.values, 0, k, Mapi.NoValues(|p.values|)[k]);
    Message.BuffersAt(MapiWriter.Stored(p).values, k);
  }

  /** An HTML body as one of any properties: if it is the last, its values are found as they stand. */
  lemma HtmlFound(b: Message.Bodies, before: seq<MapiWriter.Property>, p: MapiWriter.Property, after: seq<MapiWriter.Property>, encodeSkip: bool)
    requires MapiWriter.AllFit(before) && MapiWriter.Fits(p) && MapiWriter.AllFit(after) && |before| + |after| + 1 < 0xffff_ffff
    requires IsHtml(p) && forall k :: 0 <= k < |after| ==> !IsHtml(after[k])
    ensures var ps := before + [p] + after;
      && MapiWriter.AllFit(ps)
      && var r := Message.WithMessage(b, MessageAttr(ps), encodeSkip);
      && (r.Ok? <==> Message.AllDecode(MapiWriter.AllStored(ps)))
      && (r.Ok? ==>
            && r.value.html.Some? && |r.value.html.value| == |p.values|
            && forall k :: 0 <= k < |p.values| ==> p.values[k].Buf? && r.value.html.value[k] == p.values[k].bytes)
  {
    hide Mapi.ReadAll, MapiWriter.Document, MapiWriter.AllStored, MapiWriter.Stored, IsHtml, Message.HasHtml, Message.Buffers;
    hide Message.WithProperties, Message.AllDecode;
    var ps, a := before + [p] + after, MapiWriter.Stored(p);
    FitThreeParts(before, p, after);
    hide MapiWriter.AllFit, MapiWriter.Fits;
    MapiWriter.RoundTrip(ps, [], encodeSkip);
    assert MapiWriter.Document(ps) + [] == MapiWriter.Document(ps);
    StoredThreeParts(before, p, after);
    var first, last := MapiWriter.AllStored(before), MapiWriter.AllStored(after);
    StoredHtml(p);
    NoHtmlStored(after);
    assert Mapi.AttrsOf(MapiWriter.Document(ps), encodeSkip) == Ok(first + [a] + last);
    Message.PropertiesLastWin(b, first + [a] + last);
    if Message.WithProperties(b, first + [a] + last).Ok? {
      Message.LastHtmlStays(b, first, a, last);
      HtmlPartsAll(p);
    }
  }

  lemma HtmlPartsAll(p: MapiWriter.Property)
    requires MapiWriter.Fits(p) && IsHtml(p)
    ensures var parts := Message.Buffers(MapiWriter.Stored(p).values);
      |parts| == |p.values| && forall k :: 0 <= k < |p.values| ==> p.values[k].Buf? && parts[k] == p.values[k].bytes
  {
    HtmlParts(p, 0);
    hide MapiWriter.Stored, Message.Buffers, IsHtml, MapiWriter.FitsData, MapiWriter.FitsNaming;
    forall k | 0 <= k < |p.values|
      ensures p.values[k].Buf? && Message.Buffers(MapiWriter.Stored(p).values)[k] == p.values[k].bytes
    {
      HtmlParts(p, k);
    }
  }

  lemma NoHtmlStored(ps: seq<MapiWriter.Property>)
    requires forall k :: 0 <= k < |ps| ==> !IsHtml(ps[k])
    ensures forall k :: 0 <= k < |MapiWriter.AllStored(ps)| ==> !Message.HasHtml(MapiWriter.AllStored(ps)[k])
  {
    hide IsHtml, Message.HasHtml, MapiWriter.Stored;
    forall k | 0 <= k < |ps|
      ensures !Message.HasHtml(MapiWriter.AllStored(ps)[k])
    {
      StoredHtml(ps[k]);
    }
  }

  /**
   * A whole mail: other messages, a message with a compressed body among any properties, and attachments.
   * All attachments become files, and the body is decoded to the text its tokens mean.
   */
  lemma MailExtracted(key: word, others: seq<Attribute>, before: seq<MapiWriter.Property>, ts: seq<Tokens.Token>, size: dword,
                      after: seq<MapiWriter.Property>, attachments: seq<Attachment>, garbage: seq<byte>, o: Settings)
    requires Tokens.Valid(Preload.Prebuf(), ts) && |Tokens.Encode(Preload.Prebuf(), ts)| + 16 < 0x1_0000_0000
    requires |Tokens.Meaning(Preload.Prebuf(), ts)| <= 207 + size && size > 0
    requires MapiWriter.AllFit(before) && MapiWriter.AllFit(after) && |before| + |after| + 1 < 0xffff_ffff
    requires Message.AllDecode(MapiWriter.AllStored(before)) && forall k :: 0 <= k < |after| ==> !IsRtf(after[k])
    requires |garbage| < 8 && AllFine(others, o.encodeSkip) && AllProper(attachments)
    ensures var ps := before + [RtfProperty(Tokens.Encode(Preload.Prebuf(), ts), size)] + after;
      && MapiWriter.AllFit(ps)
      && (|MapiWriter.Document(ps)| < 0x1_0000_0000 ==>
            && (forall a :: a in others + [MessageAttr(ps)] + AllAttrs(attachments) ==> Writable(a))
            && var r := OutcomeOf(FileOf(key, others + [MessageAttr(ps)] + AllAttrs(attachments), garbage), o);
            && r.Parsed? && r.written == AllExpected(attachments, o)
            && r.bodies.rtf == Some([Some(Rtf.Decompressed(Lz.Padded(Tokens.Meaning(Preload.Prebuf(), ts)[207..], size)))]))
  {
    hide Tokens.Encode, Tokens.Meaning, Tokens.Valid, RtfProperty, Preload.Prebuf, OutcomeOf, FileOf, AllAttrs, AllProper, AllExpected;
    hide MapiWriter.Document, MapiWriter.AllStored, MapiWriter.AllFit, Message.AllDecode, Message.WithMessage, Message.Readable, BodiesOf;
    var ps := before + [RtfProperty(Tokens.Encode(Preload.Prebuf(), ts), size)] + after;
    BodyFound(BodiesOf(others, o), before, ts, size, after, o.encodeSkip);
    if |MapiWriter.Document(ps)| < 0x1_0000_0000 {
      var m := MessageAttr(ps);
      Message.MessageLastWins(BodiesOf(others, o), m, o.encodeSkip);
      assert Fine(m, o.encodeSkip);
      assert AllFine(others + [m], o.encodeSkip);
      AttachmentsExtracted(key, others + [m], attachments, garbage, o);
      BodiesOneMore(others, m, o);
    }
  }
}
