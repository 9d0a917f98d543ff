/** One attachment: the mutable `File` that collects its name and data. */
module Files {
  import opened Wrappers
  import opened Bytes
  import opened Attributes
  import opened Latest
  import Mapi
  import Path

  const ATTACHDATA: word := 0x800f
  const ATTACHTITLE: word := 0x8010
  const ATTACHMODIFYDATE: word := 0x8013
  const ATTACHMENT: word := 0x9005
  const SZ_DATE: word := 0x0003

  const MAPI_ATTACH_DATA_OBJ := 0x3701
  const MAPI_ATTACH_LONG_FILENAME := 0x3707
  const MAPI_ATTACH_MIME_TAG := 0x370e
  const MAPI_ATTACH_CONTENT_ID := 0x3712

  datatype Date = Date(year: word, month: word, day: word, hour: word, min: word, sec: word, dow: word)

  /** The fields of a `File`; `None` is a null pointer. */
  datatype FileData = FileData(
    name: Option<text>, len: nat, data: Option<seq<byte>>, dt: Date, mimeType: Option<text>, contentId: Option<text>)

  const ZERO_DATE := Date(0, 0, 0, 0, 0, 0, 0)

  /** A zeroed `File`. */
  const NO_FILE := FileData(None, 0, None, ZERO_DATE, None, None)

  /** What happens to a file whose name is taken: it is overwritten, gets a numbered name, or is refused. */
  datatype Policy = Policy(overwrite: bool, numberFiles: bool)

  datatype Settings = Settings(paths: Path.Rules, directory: Option<text>, policy: Policy, checksumSkip: bool, encodeSkip: bool)

  /** The files there are, by path. */
  type Disk = map<text, seq<byte>>

  /** The text up to the first terminator. */
  function CString(s: seq<byte>): text {
    if s == [] || s[0] == 0 then [] else [s[0]] + CString(s[1..])
  }

  function DateAt(s: seq<byte>): Date
    requires |s| >= 14
  {
    Date(Int16At(s, 0), Int16At(s, 2), Int16At(s, 4), Int16At(s, 6), Int16At(s, 8), Int16At(s, 10), Int16At(s, 12))
  }

  // ----- What one attribute does to a file -----

  predicate IsText(typ: nat) {
    typ == Mapi.STRING || typ == Mapi.UNICODE_STRING
  }

  function BufferOf(v: Mapi.Value): seq<byte> {
    match v.data
    case Buf(bytes) => bytes
    case _ => []
  }

  /** As many bytes of a text value, terminator included, as its length says. */
  function Copied(v: Mapi.Value): text {
    var all := BufferOf(v) + [0];
    all[..if v.len < |all| then v.len else |all|]
  }

  function WithMapi(f: FileData, a: Mapi.Attr): Result<FileData> {
    if a.values == [] then Ok(f)
    else
      var v := a.values[0];
      if a.name == MAPI_ATTACH_LONG_FILENAME then
        if !IsText(a.typ) then Fail(Abort) else Ok(f.(name := Some(CString(BufferOf(v)))))
      else if a.name == MAPI_ATTACH_DATA_OBJ then
        if a.typ != Mapi.BINARY && a.typ != Mapi.OBJECT then Fail(Abort)
        else Ok(f.(len := v.len, data := Some(BufferOf(v))))
      else if a.name == MAPI_ATTACH_MIME_TAG then
        if !IsText(a.typ) then Fail(Abort) else Ok(f.(mimeType := Some(Copied(v))))
      else if a.name == MAPI_ATTACH_CONTENT_ID then
        if !IsText(a.typ) then Fail(Abort) else Ok(f.(contentId := Some(Copied(v))))
      else Ok(f)
  }

  function WithMapiAttrs(f: FileData, attrs: seq<Mapi.Attr>): Result<FileData>
    decreases |attrs|
  {
    if attrs == [] then Ok(f)
    else
      var g :- WithMapi(f, attrs[0]);
      WithMapiAttrs(g, attrs[1..])
  }

  /** `file_add_attr`. */
  function WithAttr(f: FileData, a: Attribute, encodeSkip: bool): Result<FileData> {
    if a.name == ATTACHMODIFYDATE then
      if a.typ != SZ_DATE || |a.buf| < 14 then Fail(Abort) else Ok(f.(dt := DateAt(a.buf)))
    else if a.name == ATTACHMENT then
      match Mapi.AttrsOf(a.buf, encodeSkip)
      case Ok(attrs) => WithMapiAttrs(f, attrs)
      case Fail(failure) => if failure == Skip then Ok(f) else Fail(failure)
    else if a.name == ATTACHTITLE then Ok(f.(name := Some(CString(a.buf))))
    else if a.name == ATTACHDATA then Ok(f.(len := |a.buf|, data := Some(a.buf)))
    else Ok(f)
  }

  /** All other attributes leave a file as it is. */
  lemma OtherAttrs(f: FileData, a: Attribute, encodeSkip: bool)
    ensures a.name != 0x8013 && a.name != 0x9005 && a.name != 0x8010 && a.name != 0x800f ==> WithAttr(f, a, encodeSkip) == Ok(f)
  {
  }

  /** A date is seven 16-bit integers; any other type, or less, runs into an assertion. */
  lemma DateRead(f: FileData, a: Attribute, dt: Date, more: seq<byte>, encodeSkip: bool)
    requires a.name == 0x8013
    ensures a.typ != 3 || |a.buf| < 14 ==> WithAttr(f, a, encodeSkip) == Fail(Abort)
    ensures a.typ == 3 && a.buf == DateBytes(dt) + more ==> WithAttr(f, a, encodeSkip) == Ok(f.(dt := dt))
  {
    hide Int16At, Le16;
    var s := DateBytes(dt) + more;
    if a.buf == s {
      Le16Inverse(s, 0, dt.year);
      Le16Inverse(s, 2, dt.month);
      Le16Inverse(s, 4, dt.day);
      Le16Inverse(s, 6, dt.hour);
      Le16Inverse(s, 8, dt.min);
      Le16Inverse(s, 10, dt.sec);
      Le16Inverse(s, 12, dt.dow);
    }
  }

  function DateBytes(dt: Date): (s: seq<byte>)
    ensures |s| == 14
  {
    Le16(dt.year) + Le16(dt.month) + Le16(dt.day) + Le16(dt.hour) + Le16(dt.min) + Le16(dt.sec) + Le16(dt.dow)
  }

  /** The text of a C string, and what is no C string is taken as a whole. */
  lemma {:induction false} CStringIs(s: text, rest: seq<byte>)
    requires 0 !in s
    ensures CString(s + [0] + rest) == s && CString(s) == s
  {
    if s == [] {
      assert (s + [0] + rest)[0] == 0;
    } else {
      assert (s + [0] + rest)[1..] == s[1..] + [0] + rest;
      CStringIs(s[1..], rest);
    }
  }

  // ----- Fields as last writes -----

  /** What an attribute or property puts into a file. */
  datatype FieldWrite =
    | Name(name: text)
    | Data(len: nat, bytes: seq<byte>)
    | When(dt: Date)
    | Mime(mimeType: text)
    | Cid(contentId: text)

  function AsName(w: FieldWrite): Option<text> {
    if w.Name? then Some(w.name) else None
  }

  function AsData(w: FieldWrite): Option<(nat, seq<byte>)> {
    if w.Data? then Some((w.len, w.bytes)) else None
  }

  function AsDate(w: FieldWrite): Option<Date> {
    if w.When? then Some(w.dt) else None
  }

  function AsMime(w: FieldWrite): Option<text> {
    if w.Mime? then Some(w.mimeType) else None
  }

  function AsCid(w: FieldWrite): Option<text> {
    if w.Cid? then Some(w.contentId) else None
  }

  /** `f` after these writes: each field holds the last write to it, or what it held before. */
  function FieldsAfter(f: FileData, ws: seq<FieldWrite>): FileData {
    var data := Last(ws, AsData);
    FileData(
      Or(Last(ws, AsName), f.name),
      if data.Some? then data.value.0 else f.len,
      if data.Some? then Some(data.value.1) else f.data,
      Last(ws, AsDate).GetOr(f.dt),
      Or(Last(ws, AsMime), f.mimeType),
      Or(Last(ws, AsCid), f.contentId))
  }

  lemma NoWrites(f: FileData)
    ensures FieldsAfter(f, []) == f
  {
  }

  lemma FieldsConcat(f: FileData, a: seq<FieldWrite>, b: seq<FieldWrite>)
    ensures FieldsAfter(f, a + b) == FieldsAfter(FieldsAfter(f, a), b)
  {
    hide Last;
    LastConcat(a, b, AsName);
    LastConcat(a, b, AsData);
    LastConcat(a, b, AsDate);
    LastConcat(a, b, AsMime);
    LastConcat(a, b, AsCid);
  }

  /** The writes of a property: its first value goes to the field that its name stands for. */
  function MapiWrites(a: Mapi.Attr): seq<FieldWrite> {
    if a.values == [] then []
    else if a.name == MAPI_ATTACH_LONG_FILENAME then [Name(CString(BufferOf(a.values[0])))]
    else if a.name == MAPI_ATTACH_DATA_OBJ then [Data(a.values[0].len, BufferOf(a.values[0]))]
    else if a.name == MAPI_ATTACH_MIME_TAG then [Mime(Copied(a.values[0]))]
    else if a.name == MAPI_ATTACH_CONTENT_ID then [Cid(Copied(a.values[0]))]
    else []
  }

  function AllMapiWrites(attrs: seq<Mapi.Attr>): seq<FieldWrite> {
    if attrs == [] then [] else MapiWrites(attrs[0]) + AllMapiWrites(attrs[1..])
  }

  /** The names that must be texts, and the one that must be data, are of such a type. */
  predicate WellTyped(a: Mapi.Attr) {
    && (a.name == MAPI_ATTACH_LONG_FILENAME || a.name == MAPI_ATTACH_MIME_TAG || a.name == MAPI_ATTACH_CONTENT_ID ==>
          a.values == [] || IsText(a.typ))
    && (a.name == MAPI_ATTACH_DATA_OBJ ==> a.values == [] || a.typ == Mapi.BINARY || a.typ == Mapi.OBJECT)
  }

  predicate AllWellTyped(attrs: seq<Mapi.Attr>) {
    forall k :: 0 <= k < |attrs| ==> WellTyped(attrs[k])
  }

  lemma OneMapiWrite(f: FileData, a: Mapi.Attr)
    ensures WithMapi(f, a) == if WellTyped(a) then Ok(FieldsAfter(f, MapiWrites(a))) else Fail(Abort)
  {
    hide CString, Copied, BufferOf;
    NoWrites(f);
  }

  /** Properties are taken exactly if all are well typed, and then the last one for each field decides it. */
  lemma {:induction false} MapiLastWins(f: FileData, attrs: seq<Mapi.Attr>)
    ensures WithMapiAttrs(f, attrs) == if AllWellTyped(attrs) then Ok(FieldsAfter(f, AllMapiWrites(attrs))) else Fail(Abort)
    decreases |attrs|
  {
    hide WithMapi, MapiWrites, FieldsAfter, WellTyped;
    if attrs == [] {
      NoWrites(f);
    } else {
      OneMapiWrite(f, attrs[0]);
      assert AllWellTyped(attrs) <==> WellTyped(attrs[0]) && AllWellTyped(attrs[1..]);
      if WellTyped(attrs[0]) {
        MapiLastWins(FieldsAfter(f, MapiWrites(attrs[0])), attrs[1..]);
        FieldsConcat(f, MapiWrites(attrs[0]), AllMapiWrites(attrs[1..]));
      }
    }
  }

  /** The writes of an attachment attribute. */
  function AttrWrites(a: Attribute, encodeSkip: bool): seq<FieldWrite> {
    if a.name == ATTACHMODIFYDATE then (if |a.buf| >= 14 then [When(DateAt(a.buf))] else [])
    else if a.name == ATTACHMENT then AllMapiWrites(Mapi.AttrsOf(a.buf, encodeSkip).GetOr([]))
    else if a.name == ATTACHTITLE then [Name(CString(a.buf))]
    else if a.name == ATTACHDATA then [Data(|a.buf|, a.buf)]
    else []
  }

  /** An attachment attribute that no assertion stops. */
  predicate Accepted(a: Attribute, encodeSkip: bool) {
    && (a.name == ATTACHMODIFYDATE ==> a.typ == SZ_DATE && |a.buf| >= 14)
    && (a.name == ATTACHMENT ==>
          var attrs := Mapi.AttrsOf(a.buf, encodeSkip);
          attrs == Fail(Skip) || (attrs.Ok? && AllWellTyped(attrs.value)))
  }

  /** Whether an attribute is taken does not depend on the file, and what it does to it is what it writes. */
  lemma AttrLastWins(f: FileData, a: Attribute, encodeSkip: bool)
    ensures WithAttr(f, a, encodeSkip).Ok? <==> Accepted(a, encodeSkip)
    ensures Accepted(a, encodeSkip) ==> WithAttr(f, a, encodeSkip) == Ok(FieldsAfter(f, AttrWrites(a, encodeSkip)))
  {
    hide WithMapiAttrs, AllWellTyped, CString, Mapi.AttrsOf;
    NoWrites(f);
    var attrs := Mapi.AttrsOf(a.buf, encodeSkip);
    if attrs.Ok? {
      MapiLastWins(f, attrs.value);
    }
  }

  // ----- What is written -----

  const DEFAULT_FILENAME: text := ['t' as int, 'n' as int, 'e' as int, 'f' as int, '-' as int, 't' as int, 'm' as int, 'p' as int]

  /** A file as `file_write` gets it: its name and path settled. */
  datatype Written = Written(name: text, path: text, file: FileData)

  function PathOf(name: text, o: Settings): text {
    var path := Path.Munge(name, o.paths).GetOr(DEFAULT_FILENAME);
    Path.Concat(o.directory, Some(path)).GetOr(DEFAULT_FILENAME)
  }

  function WriteOut(f: FileData, o: Settings): Written {
    var name := f.name.GetOr(DEFAULT_FILENAME);
    Written(name, PathOf(name, o), f)
  }

  /** Where a file goes, if anywhere. */
  function Target(disk: Disk, path: text, p: Policy): Option<text> {
    if p.overwrite || path !in disk then Some(path)
    else if p.numberFiles then Some(Path.Numbered(path, Path.FreeNumber(path, disk.Keys)))
    else None
  }

  /** The bytes that are written. */
  function Contents(f: FileData): seq<byte> {
    f.data.GetOr([])
  }

  /** A file without a name is written under the name "tnef-tmp". */
  lemma Nameless(f: FileData, o: Settings)
    ensures f.name.None? ==> WriteOut(f, o).name == [0x74, 0x6e, 0x65, 0x66, 0x2d, 0x74, 0x6d, 0x70]
    ensures f.name.Some? ==> WriteOut(f, o).name == f.name.value
    ensures WriteOut(f, o).path == PathOf(WriteOut(f, o).name, o)
  {
    hide PathOf;
  }

  function Save(disk: Disk, w: Written, p: Policy): Disk {
    match Target(disk, w.path, p)
    case None => disk
    case Some(path) => disk[path := Contents(w.file)]
  }

  /** The files there are after these have been written, one after another. */
  function SaveAll(disk: Disk, ws: seq<Written>, p: Policy): Disk {
    if ws == [] then disk else Save(SaveAll(disk, ws[..|ws| - 1], p), ws[|ws| - 1], p)
  }

  // ----- The program -----

  /** The `File` that the loop fills, writes out, clears and fills again. */
  class File {
    var name: Option<text>
    var len: nat
    var data: Option<seq<byte>>
    var dt: Date
    var mimeType: Option<text>
    var contentId: Option<text>

    function View(): FileData
      reads this
    {
      FileData(name, len, data, dt, mimeType, contentId)
    }

    constructor ()
      ensures View() == NO_FILE
    {
      name, len, data, dt, mimeType, contentId := None, 0, None, ZERO_DATE, None, None;
    }

    /** `file_free`. */
    method Free()
      modifies this
      ensures View() == NO_FILE
    {
      name, len, data, dt, mimeType, contentId := None, 0, None, ZERO_DATE, None, None;
    }

    /** `file_add_mapi_attrs`. */
    method AddMapiAttrs(attrs: seq<Mapi.Attr>) returns (r: Result<()>)
      modifies this
      ensures match WithMapiAttrs(old(View()), attrs)
        case Ok(g) => r.Ok? && View() == g
        case Fail(f) => r == Fail(f)
    {
      for i := 0 to |attrs|
        invariant WithMapiAttrs(View(), attrs[i..]) == WithMapiAttrs(old(View()), attrs)
      {
        var a := attrs[i];
        assert attrs[i..][1..] == attrs[i + 1..];
        if a.values != [] {
          var v := a.values[0];
          if a.name == MAPI_ATTACH_LONG_FILENAME {
            if !IsText(a.typ) {
              return Fail(Abort);
            }
            name := Some(CString(BufferOf(v)));
          } else if a.name == MAPI_ATTACH_DATA_OBJ {
            if a.typ != Mapi.BINARY && a.typ != Mapi.OBJECT {
              return Fail(Abort);
            }
            len := v.len;
            data := Some(BufferOf(v));
          } else if a.name == MAPI_ATTACH_MIME_TAG {
            if !IsText(a.typ) {
              return Fail(Abort);
            }
            mimeType := Some(Copied(v));
          } else if a.name == MAPI_ATTACH_CONTENT_ID {
            if !IsText(a.typ) {
              return Fail(Abort);
            }
            contentId := Some(Copied(v));
          }
        }
      }
      return Ok(());
    }

    /** `file_add_attr`. */
    method AddAttr(a: Attribute, encodeSkip: bool) returns (r: Result<()>)
      modifies this
      ensures match WithAttr(old(View()), a, encodeSkip)
        case Ok(g) => r.Ok? && View() == g
        case Fail(f) => r == Fail(f)
    {
      if a.name == ATTACHMODIFYDATE {
        if a.typ != SZ_DATE || |a.buf| < 14 {
          return Fail(Abort);
        }
        dt := DateAt(a.buf);
      } else if a.name == ATTACHMENT {
        var attrs := ReadMapi(a.buf, encodeSkip);
        match attrs {
          case Ok(list) =>
            r := AddMapiAttrs(list);
            return;
          case Fail(f) =>
            if f != Skip {
              return Fail(f);
            }
        }
      } else if a.name == ATTACHTITLE {
        name := Some(CString(a.buf));
      } else if a.name == ATTACHDATA {
        len := |a.buf|;
        data := Some(a.buf);
      }
      return Ok(());
    }
  }

  method ReadMapi(bytes: seq<byte>, encodeSkip: bool) returns (r: Result<seq<Mapi.Attr>>)
    ensures r == Mapi.AttrsOf(bytes, encodeSkip)
  {
    var buf := new byte[|bytes|](i requires 0 <= i < |bytes| => bytes[i]);
    assert buf[..] == bytes;
    r := Mapi.MapiAttrRead(buf, encodeSkip);
  }

  /** `file_write`: settles the name and the path, and puts the data there. */
  method FileWrite(file: FileData, disk0: Disk, o: Settings) returns (w: Written, disk: Disk)
    ensures w == WriteOut(file, o) && disk == Save(disk0, w, o.policy)
  {
    hide Path.Munge, Path.Concat, Path.FreeNumber, Path.Numbered;
    var name := file.name.GetOr(DEFAULT_FILENAME);
    var munged := Path.MungeFname(name, o.paths);
    var joined := Path.ConcatFname(o.directory, Some(munged.GetOr(DEFAULT_FILENAME)));
    var path := joined.GetOr(DEFAULT_FILENAME);
    w, disk := Written(name, path, file), disk0;
    if !o.policy.overwrite && path in disk {
      if !o.policy.numberFiles {
        return;
      }
      var n;
      path, n := Path.FindFreeNumber(path, disk.Keys);
    }
    disk := disk[path := file.data.GetOr([])];
  }
}
