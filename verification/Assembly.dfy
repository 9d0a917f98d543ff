/** What the loop of `parse_file` amounts to: split the attributes into files, each with the last writes to its fields. */
module Assembly {
  import opened Wrappers
  import opened Bytes
  import opened Attributes
  import opened Files
  import opened Latest
  import opened Tnef
  import Mapi
  import Message

  // ----- Later attributes win -----

  /** What these attributes write to a file; message attributes write nothing. */
  function FileWrites(attrs: seq<Attribute>, o: Settings): seq<FieldWrite> {
    if attrs == [] then []
    else (if attrs[0].lvl == LVL_MESSAGE then [] else AttrWrites(attrs[0], o.encodeSkip)) + FileWrites(attrs[1..], o)
  }

  /** `file_add_attr` for one attachment attribute after another. */
  function FoldFile(f: FileData, attrs: seq<Attribute>, o: Settings): Result<FileData>
    decreases |attrs|
  {
    if attrs == [] then Ok(f)
    else if attrs[0].lvl == LVL_MESSAGE then FoldFile(f, attrs[1..], o)
    else
      var g :- WithAttr(f, attrs[0], o.encodeSkip);
      FoldFile(g, attrs[1..], o)
  }

  /** No assertion stops any of them. */
  predicate AllAccepted(attrs: seq<Attribute>, o: Settings) {
    forall k :: 0 <= k < |attrs| && attrs[k].lvl != LVL_MESSAGE ==> Accepted(attrs[k], o.encodeSkip)
  }

  /**
   * Whatever was in the file: attributes are taken exactly if each of them is acceptable on its own, and
   * then every field holds the last write to it, be it by a title, by data or by a property.
   */
  lemma {:induction false} LastWriterWins(f: FileData, attrs: seq<Attribute>, o: Settings)
    ensures FoldFile(f, attrs, o).Ok? <==> AllAccepted(attrs, o)
    ensures AllAccepted(attrs, o) ==> FoldFile(f, attrs, o) == Ok(FieldsAfter(f, FileWrites(attrs, o)))
    decreases |attrs|
  {
    hide WithAttr, AttrWrites, Accepted, FieldsAfter;
    if attrs == [] {
      NoWrites(f);
    } else {
      var a, rest := attrs[0], attrs[1..];
      assert AllAccepted(attrs, o) <==> (a.lvl != LVL_MESSAGE ==> Accepted(a, o.encodeSkip)) && AllAccepted(rest, o);
      if a.lvl == LVL_MESSAGE {
        LastWriterWins(f, rest, o);
        assert [] + FileWrites(rest, o) == FileWrites(rest, o);
      } else {
        AttrLastWins(f, a, o.encodeSkip);
        if Accepted(a, o.encodeSkip) {
          LastWriterWins(FieldsAfter(f, AttrWrites(a, o.encodeSkip)), rest, o);
          FieldsConcat(f, AttrWrites(a, o.encodeSkip), FileWrites(rest, o));
        }
      }
    }
  }

  lemma {:induction false} FileWritesConcat(a: seq<Attribute>, b: seq<Attribute>, o: Settings)
    ensures FileWrites(a + b, o) == FileWrites(a, o) + FileWrites(b, o)
  {
    hide AttrWrites;
    if a == [] {
      assert a + b == b;
    } else {
      assert (a + b)[1..] == a[1..] + b;
      FileWritesConcat(a[1..], b, o);
    }
  }

  function FoundWrites(attrs: seq<Attribute>, o: Settings): seq<Message.BodyWrite> {
    if attrs == [] then []
    else (if attrs[0].lvl == LVL_MESSAGE then Message.MessageWrites(attrs[0], o.encodeSkip) else []) + FoundWrites(attrs[1..], o)
  }

  /** The bodies in these attributes: of each kind the last. */
  function BodiesOf(attrs: seq<Attribute>, o: Settings): Message.Bodies {
    Message.BodiesAfter(Message.NO_BODIES, FoundWrites(attrs, o))
  }

  lemma {:induction false} FoundConcat(a: seq<Attribute>, b: seq<Attribute>, o: Settings)
    ensures FoundWrites(a + b, o) == FoundWrites(a, o) + FoundWrites(b, o)
  {
    hide Message.MessageWrites;
    if a == [] {
      assert a + b == b;
    } else {
      assert (a + b)[1..] == a[1..] + b;
      FoundConcat(a[1..], b, o);
    }
  }

  // ----- Splitting -----

  /** Where the last file starts. */
  function LastStart(attrs: seq<Attribute>): (k: Option<nat>)
    ensures k.Some? ==> k.value < |attrs| && StartsFile(attrs[k.value])
    ensures forall j :: (if k.Some? then k.value + 1 else 0) <= j < |attrs| ==> !StartsFile(attrs[j])
  {
    if attrs == [] then None
    else if StartsFile(attrs[|attrs| - 1]) then Some(|attrs| - 1)
    else LastStart(attrs[..|attrs| - 1])
  }

  /** The last file: what its own attributes write, from nothing. */
  function LastFile(attrs: seq<Attribute>, o: Settings): Option<FileData> {
    match LastStart(attrs)
    case None => None
    case Some(k) => Some(FieldsAfter(NO_FILE, FileWrites(attrs[k..], o)))
  }

  /** One file for every attribute that starts one. */
  function AllFiles(attrs: seq<Attribute>, o: Settings): seq<Written>
    decreases |attrs|
  {
    match LastStart(attrs)
    case None => []
    case Some(k) => AllFiles(attrs[..k], o) + [WriteOut(FieldsAfter(NO_FILE, FileWrites(attrs[k..], o)), o)]
  }

  /** All files but the last, which may have more to come. */
  function Finished(attrs: seq<Attribute>, o: Settings): seq<Written> {
    match LastStart(attrs)
    case None => []
    case Some(k) => AllFiles(attrs[..k], o)
  }

  /** The state the loop must be in when it has taken these attributes. */
  function StateAfter(attrs: seq<Attribute>, o: Settings): State {
    State(LastFile(attrs, o), Finished(attrs, o), BodiesOf(attrs, o))
  }

  /** Attribute `k` ends nothing: a message can be read, and an attachment stands in a file and is acceptable. */
  predicate Taken(attrs: seq<Attribute>, k: nat, o: Settings)
    requires k < |attrs|
  {
    if attrs[k].lvl == LVL_MESSAGE then Message.Readable(attrs[k], o.encodeSkip)
    else LastStart(attrs[..k + 1]).Some? && Accepted(attrs[k], o.encodeSkip)
  }

  /** How many attributes from the `k`th on are taken before one is not, or the list ends. */
  function TakenUpTo(attrs: seq<Attribute>, k: nat, o: Settings): (n: nat)
    requires k <= |attrs|
    ensures k <= n <= |attrs| && (n < |attrs| ==> !Taken(attrs, n, o))
    ensures forall j :: k <= j < n ==> Taken(attrs, j, o)
    decreases |attrs| - k
  {
    if k < |attrs| && Taken(attrs, k, o) then TakenUpTo(attrs, k + 1, o) else k
  }

  /** Why an attribute is not taken. */
  function Reason(attrs: seq<Attribute>, k: nat, o: Settings): Failure
    requires k < |attrs| && !Taken(attrs, k, o)
  {
    var a := attrs[k];
    if a.lvl == LVL_MESSAGE then
      Message.MessageLastWins(Message.NO_BODIES, a, o.encodeSkip);
      Message.WithMessage(Message.NO_BODIES, a, o.encodeSkip).failure
    else if LastStart(attrs[..k + 1]).None? then Abort
    else
      AttrLastWins(NO_FILE, a, o.encodeSkip);
      WithAttr(NO_FILE, a, o.encodeSkip).failure
  }

  /**
   * The outcome by splitting: if everything is taken and the input ends, one file for each start; otherwise
   * the files that were finished before the first attribute that is not taken or cannot be read.
   */
  function SplitAndFold(attrs: seq<Attribute>, end: Option<Failure>, o: Settings): Outcome {
    var n := TakenUpTo(attrs, 0, o);
    if n < |attrs| then Failed(Reason(attrs, n, o), Finished(attrs[..n], o))
    else
      match end
      case None => Parsed(AllFiles(attrs, o), BodiesOf(attrs, o))
      case Some(f) => Failed(f, Finished(attrs, o))
  }

  // ----- The loop does just that -----

  lemma LastStartOneMore(attrs: seq<Attribute>, a: Attribute)
    ensures LastStart(attrs + [a]) == if StartsFile(a) then Some(|attrs|) else LastStart(attrs)
  {
    hide StartsFile;
    assert (attrs + [a])[..|attrs|] == attrs;
  }

  lemma WritesOneMore(attrs: seq<Attribute>, a: Attribute, o: Settings)
    ensures FileWrites(attrs + [a], o) == FileWrites(attrs, o) + if a.lvl == LVL_MESSAGE then [] else AttrWrites(a, o.encodeSkip)
    ensures FoundWrites(attrs + [a], o) == FoundWrites(attrs, o) + if a.lvl == LVL_MESSAGE then Message.MessageWrites(a, o.encodeSkip) else []
  {
    hide AttrWrites, Message.MessageWrites;
    FileWritesConcat(attrs, [a], o);
    FoundConcat(attrs, [a], o);
    assert [a][1..] == [];
  }

  lemma StartWritesNothing(a: Attribute, encodeSkip: bool)
    requires StartsFile(a)
    ensures AttrWrites(a, encodeSkip) == [] && Accepted(a, encodeSkip) && Message.Readable(a, encodeSkip)
  {
  }

  /** The file after one more attribute, and the files finished before it. */
  lemma FilesOneMore(attrs: seq<Attribute>, a: Attribute, o: Settings)
    ensures var s := Opened(StateAfter(attrs, o), a, o); var all := attrs + [a];
      && Finished(all, o) == s.written && (s.file.Some? <==> LastStart(all).Some?)
      && (s.file.Some? ==> LastFile(all, o) == Some(FieldsAfter(s.file.value, if a.lvl == LVL_MESSAGE then [] else AttrWrites(a, o.encodeSkip))))
  {
    hide WriteOut, FieldsAfter, AttrWrites, StartsFile, FileWrites, Accepted, LastStart;
    var all := attrs + [a];
    LastStartOneMore(attrs, a);
    var start := LastStart(attrs);
    if StartsFile(a) {
      assert all[..|attrs|] == attrs && all[|attrs|..] == [] + [a];
      StartWritesNothing(a, o.encodeSkip);
      WritesOneMore([], a, o);
      NothingWritten(o);
      NoWrites(NO_FILE);
    } else if start.Some? {
      var k := start.value;
      assert all[..k] == attrs[..k] && all[k..] == attrs[k..] + [a];
      WritesOneMore(attrs[k..], a, o);
      FieldsConcat(NO_FILE, FileWrites(attrs[k..], o), if a.lvl == LVL_MESSAGE then [] else AttrWrites(a, o.encodeSkip));
    }
  }

  lemma NothingWritten(o: Settings)
    ensures FileWrites([], o) == []
  {
  }

  lemma BodiesOneMore(attrs: seq<Attribute>, a: Attribute, o: Settings)
    ensures BodiesOf(attrs + [a], o) ==
      Message.BodiesAfter(BodiesOf(attrs, o), if a.lvl == LVL_MESSAGE then Message.MessageWrites(a, o.encodeSkip) else [])
  {
    hide Message.BodiesAfter, Message.MessageWrites, FoundWrites;
    WritesOneMore(attrs, a, o);
    Message.BodiesConcat(Message.NO_BODIES, FoundWrites(attrs, o), if a.lvl == LVL_MESSAGE then Message.MessageWrites(a, o.encodeSkip) else []);
  }

  /** One round of the loop: the state is what it must be after one more attribute, if that is taken. */
  lemma RoundKeepsState(attrs: seq<Attribute>, a: Attribute, o: Settings)
    ensures var s := Opened(StateAfter(attrs, o), a, o); var all := attrs + [a];
      && (Added(s, a, o).Ok? <==> Taken(all, |attrs|, o))
      && (Taken(all, |attrs|, o) ==> Added(s, a, o) == Ok(StateAfter(all, o)))
      && (!Taken(all, |attrs|, o) ==> Added(s, a, o) == Fail(Reason(all, |attrs|, o)) && s.written == Finished(attrs, o))
  {
    hide WriteOut, WithAttr, AttrWrites, Accepted, FieldsAfter, AllFiles, LastStart, FileWrites;
    hide Message.BodiesAfter, Message.MessageWrites, Message.WithMessage, Message.Readable, FoundWrites;
    var all := attrs + [a];
    assert all[..|attrs| + 1] == all;
    var s := Opened(StateAfter(attrs, o), a, o);
    FilesOneMore(attrs, a, o);
    BodiesOneMore(attrs, a, o);
    if StartsFile(a) {
      StartWritesNothing(a, o.encodeSkip);
      LastStartOneMore(attrs, a);
    }
    if a.lvl == LVL_MESSAGE {
      Message.MessageLastWins(s.bodies, a, o.encodeSkip);
      SameMessageFailure(s.bodies, Message.NO_BODIES, a, o.encodeSkip);
      if s.file.Some? {
        NoWrites(s.file.value);
      } else {
        LastStartOneMore(attrs, a);
      }
    } else {
      Message.NoBodyWrites(s.bodies);
      if s.file.Some? {
        AttrLastWins(s.file.value, a, o.encodeSkip);
        SameAttrFailure(s.file.value, NO_FILE, a, o.encodeSkip);
      }
    }
  }

  lemma SameAttrFailure(f: FileData, g: FileData, a: Attribute, encodeSkip: bool)
    ensures WithAttr(f, a, encodeSkip).Fail? ==> WithAttr(g, a, encodeSkip) == WithAttr(f, a, encodeSkip)
  {
    hide WithMapiAttrs, AllWellTyped, CString, Mapi.AttrsOf, FieldsAfter;
    var attrs := Mapi.AttrsOf(a.buf, encodeSkip);
    if attrs.Ok? {
      MapiLastWins(f, attrs.value);
      MapiLastWins(g, attrs.value);
    }
  }

  lemma {:induction false} SamePropertiesFailure(b: Message.Bodies, c: Message.Bodies, attrs: seq<Mapi.Attr>)
    ensures Message.WithProperties(b, attrs).Fail? ==> Message.WithProperties(c, attrs) == Message.WithProperties(b, attrs)
    decreases |attrs|
  {
    hide Message.RtfBodies, Message.Buffers;
    if attrs != [] {
      var b1, c1 := Message.WithProperty(b, attrs[0]), Message.WithProperty(c, attrs[0]);
      if b1.Ok? {
        SamePropertiesFailure(b1.value, c1.value, attrs[1..]);
      }
    }
  }

  lemma SameMessageFailure(b: Message.Bodies, c: Message.Bodies, a: Attribute, encodeSkip: bool)
    ensures Message.WithMessage(b, a, encodeSkip).Fail? ==> Message.WithMessage(c, a, encodeSkip) == Message.WithMessage(b, a, encodeSkip)
  {
    hide Message.WithProperties, Mapi.AttrsOf;
    var attrs := Mapi.AttrsOf(a.buf, encodeSkip);
    if attrs.Ok? {
      SamePropertiesFailure(b, c, attrs.value);
    }
  }

  lemma TakenInPrefix(attrs: seq<Attribute>, k: nat, o: Settings)
    requires k < |attrs|
    ensures Taken(attrs[..k + 1], k, o) == Taken(attrs, k, o)
    ensures !Taken(attrs, k, o) ==> Reason(attrs[..k + 1], k, o) == Reason(attrs, k, o)
  {
    hide WithAttr, Accepted, LastStart, Message.WithMessage, Message.Readable;
    assert attrs[..k + 1][..k + 1] == attrs[..k + 1];
  }

  lemma ClosedIsAll(attrs: seq<Attribute>, o: Settings)
    ensures Closed(LastFile(attrs, o), Finished(attrs, o), o) == AllFiles(attrs, o)
  {
    hide WriteOut, FieldsAfter, FileWrites, LastStart;
  }

  /** The rest of the loop, from any point all attributes before which were taken. */
  lemma {:induction false} ProcessFrom(attrs: seq<Attribute>, k: nat, end: Option<Failure>, o: Settings)
    requires k <= |attrs| && TakenUpTo(attrs, 0, o) == TakenUpTo(attrs, k, o)
    ensures Process(attrs[k..], end, StateAfter(attrs[..k], o), o) == SplitAndFold(attrs, end, o)
    decreases |attrs| - k
  {
    hide Opened, Added, Closed, Taken, Reason, AllFiles, LastStart, LastFile, Finished, BodiesOf;
    var s := StateAfter(attrs[..k], o);
    if k == |attrs| {
      assert attrs[..k] == attrs && attrs[k..] == [];
      ClosedIsAll(attrs, o);
    } else {
      var a := attrs[k];
      assert attrs[k..][0] == a && attrs[k..][1..] == attrs[k + 1..];
      assert attrs[..k + 1] == attrs[..k] + [a];
      RoundKeepsState(attrs[..k], a, o);
      TakenInPrefix(attrs, k, o);
      if Taken(attrs, k, o) {
        ProcessFrom(attrs, k + 1, end, o);
      }
    }
  }

  lemma NothingYet(o: Settings)
    ensures StateAfter([], o) == START
  {
    Message.NoBodyWrites(Message.NO_BODIES);
  }

  /**
   * The loop writes one file for every attribute that starts one, in order, each with the last writes of its
   * own attributes only: the reused struct carries nothing from one file to the next.  When an attribute
   * stops the program, the files finished before it have been written.
   */
  lemma ProcessIsSplitAndFold(attrs: seq<Attribute>, end: Option<Failure>, o: Settings)
    ensures Process(attrs, end, START, o) == SplitAndFold(attrs, end, o)
  {
    hide Process, SplitAndFold, StateAfter;
    NothingYet(o);
    assert attrs[..0] == [] && attrs[0..] == attrs;
    ProcessFrom(attrs, 0, end, o);
  }

  /** Reading attribute by attribute is reading all there are first. */
  lemma {:induction false} LoopIsProcess(data: seq<byte>, pos: nat, s: State, o: Settings)
    requires pos <= |data|
    ensures var (attrs, end) := ReadStream(data, pos, o.checksumSkip);
      Loop(data, pos, s, o) == Process(attrs, end, s, o)
    decreases |data| - pos
  {
    hide ReadAttr, Added, Opened, Closed;
    if |data| - pos >= MINIMUM_ATTR_LENGTH {
      var r := ReadAttr(data, pos, o.checksumSkip);
      if r.Ok? {
        var (a, next) := r.value;
        var (rest, end) := ReadStream(data, next, o.checksumSkip);
        assert ([a] + rest)[0] == a && ([a] + rest)[1..] == rest;
        var t := Added(Opened(s, a, o), a, o);
        if t.Ok? {
          LoopIsProcess(data, next, t.value, o);
        }
      }
    }
  }

  // ----- How many files, and how long -----

  function CountStarts(attrs: seq<Attribute>): nat {
    if attrs == [] then 0 else CountStarts(attrs[..|attrs| - 1]) + (if StartsFile(attrs[|attrs| - 1]) then 1 else 0)
  }

  lemma {:induction false} CountToLast(attrs: seq<Attribute>)
    ensures CountStarts(attrs) == match LastStart(attrs) case None => 0 case Some(k) => CountStarts(attrs[..k]) + 1
  {
    hide StartsFile;
    if attrs != [] && !StartsFile(attrs[|attrs| - 1]) {
      var shorter := attrs[..|attrs| - 1];
      CountToLast(shorter);
      if LastStart(attrs).Some? {
        assert shorter[..LastStart(attrs).value] == attrs[..LastStart(attrs).value];
      }
    }
  }

  /** As many files as attributes that start one. */
  lemma {:induction false} WrittenCounted(attrs: seq<Attribute>, o: Settings)
    ensures |AllFiles(attrs, o)| == CountStarts(attrs)
    decreases |attrs|
  {
    hide WriteOut, FieldsAfter, FileWrites, LastStart, CountStarts;
    CountToLast(attrs);
    var k := LastStart(attrs);
    if k.Some? {
      WrittenCounted(attrs[..k.value], o);
    } else {
      hide AllFiles;
      NoStartNoFile(attrs, o);
    }
  }

  lemma NoStartNoFile(attrs: seq<Attribute>, o: Settings)
    requires LastStart(attrs).None?
    ensures AllFiles(attrs, o) == []
  {
  }

  /** The files of two lists are those of both together, if a file starts at the border. */
  lemma {:induction false} FilesConcat(a: seq<Attribute>, b: seq<Attribute>, o: Settings)
    requires b != [] ==> StartsFile(b[0])
    ensures AllFiles(a + b, o) == AllFiles(a, o) + AllFiles(b, o)
    decreases |b|
  {
    hide WriteOut, FieldsAfter, FileWrites, LastStart;
    if b == [] {
      assert a + b == a;
      NoStartNoFile([], o);
    } else {
      FirstCounts(b);
      var k := LastStart(b).value;
      LastStartShifted(a, b);
      assert (a + b)[..|a| + k] == a + b[..k] && (a + b)[|a| + k..] == b[k..];
      FilesConcat(a, b[..k], o);
      AssociateOne(AllFiles(a, o), AllFiles(b[..k], o), WriteOut(FieldsAfter(NO_FILE, FileWrites(b[k..], o)), o));
    }
  }

  lemma FirstCounts(b: seq<Attribute>)
    requires b != [] && StartsFile(b[0])
    ensures LastStart(b).Some?
  {
  }

  lemma AssociateOne(a: seq<Written>, b: seq<Written>, w: Written)
    ensures (a + b) + [w] == a + (b + [w])
  {
  }

  lemma {:induction false} LastStartShifted(a: seq<Attribute>, b: seq<Attribute>)
    ensures LastStart(b).Some? ==> LastStart(a + b) == Some(|a| + LastStart(b).value)
    ensures LastStart(b).None? ==> LastStart(a + b) == LastStart(a)
    decreases |b|
  {
    hide StartsFile;
    if b == [] {
      assert a + b == a;
    } else {
      assert (a + b)[..|a + b| - 1] == a + b[..|b| - 1];
      LastStartShifted(a, b[..|b| - 1]);
    }
  }

  /** The length of a file is the size of its data. */
  predicate Sized(f: FileData) {
    f.len == |f.data.GetOr([])|
  }

  predicate SizedValues(typ: nat, values: seq<Mapi.Value>) {
    typ == Mapi.BINARY || typ == Mapi.OBJECT ==> forall k :: 0 <= k < |values| ==> values[k].len == |BufferOf(values[k])|
  }

  lemma {:induction false} ReadValuesSized(s: seq<byte>, idx: nat, typ: nat, n: nat, values: seq<Mapi.Value>, v: nat, encodeSkip: bool)
    requires v + n <= |values| && SizedValues(typ, values)
    ensures var r := Mapi.ReadValues(s, idx, typ, n, values, v, encodeSkip); r.Ok? ==> SizedValues(typ, r.value.0)
    decreases n
  {
    hide Mapi.ReadBuffer, Mapi.ReadGuid, Mapi.ReadInt16, Mapi.ReadInt32, Mapi.Advances;
    if n != 0 {
      var r := Mapi.ReadValue(s, idx, typ, encodeSkip);
      if r.Ok? {
        assert SizedValues(typ, values[v := r.value.0]);
        ReadValuesSized(s, r.value.1, typ, n - 1, values[v := r.value.0], if Mapi.Advances(typ) then v + 1 else v, encodeSkip);
      }
    }
  }

  predicate SizedAttrs(attrs: seq<Mapi.Attr>) {
    forall k :: 0 <= k < |attrs| ==> SizedValues(attrs[k].typ, attrs[k].values)
  }

  lemma ReadPropertySized(s: seq<byte>, idx: nat, encodeSkip: bool)
    ensures var r := Mapi.ReadProperty(s, idx, encodeSkip); r.Ok? ==> SizedValues(r.value.0.typ, r.value.0.values)
  {
    hide Mapi.ReadNaming, Mapi.ReadValues, Mapi.IsMulti, Mapi.IsBuffer, Int16At, Int32At;
    if idx + 2 <= |s| {
      var typ, naming := Int16At(s, idx), Mapi.ReadNaming(s, idx + 2);
      if naming.Ok? {
        var at := naming.value.1;
        var count := if Mapi.IsMulti(typ) || Mapi.IsBuffer(typ) then Mapi.ReadInt32(s, at) else Ok((1, at));
        if count.Ok? {
          var n: nat := count.value.0;
          assert SizedValues(Mapi.Base(typ), Mapi.NoValues(n));
          ReadValuesSized(s, count.value.1, Mapi.Base(typ), n, Mapi.NoValues(n), 0, encodeSkip);
        }
      }
    }
  }

  lemma {:induction false} ReadPropertiesSized(s: seq<byte>, idx: nat, n: nat, attrs: seq<Mapi.Attr>, encodeSkip: bool)
    requires SizedAttrs(attrs)
    ensures var r := Mapi.ReadProperties(s, idx, n, attrs, encodeSkip); r.Ok? ==> SizedAttrs(r.value.0)
    decreases n
  {
    hide Mapi.ReadProperty, SizedValues;
    if n != 0 {
      ReadPropertySized(s, idx, encodeSkip);
      var r := Mapi.ReadProperty(s, idx, encodeSkip);
      if r.Ok? {
        ReadPropertiesSized(s, r.value.1, n - 1, attrs + [r.value.0], encodeSkip);
      }
    }
  }

  predicate SizedWrite(w: FieldWrite) {
    w.Data? ==> w.len == |w.bytes|
  }

  predicate SizedWrites(ws: seq<FieldWrite>) {
    forall k :: 0 <= k < |ws| ==> SizedWrite(ws[k])
  }

  lemma {:induction false} MapiWritesSized(attrs: seq<Mapi.Attr>)
    requires SizedAttrs(attrs) && AllWellTyped(attrs)
    ensures SizedWrites(AllMapiWrites(attrs))
  {
    hide CString, Copied;
    if attrs != [] {
      MapiWritesSized(attrs[1..]);
      assert WellTyped(attrs[0]);
    }
  }

  lemma AttrWritesSized(a: Attribute, encodeSkip: bool)
    requires Accepted(a, encodeSkip)
    ensures SizedWrites(AttrWrites(a, encodeSkip))
  {
    hide AllWellTyped, CString, Mapi.ReadProperties, Int32At;
    var r := Mapi.AttrsOf(a.buf, encodeSkip);
    if r.Ok? && a.name == ATTACHMENT {
      ReadPropertiesSized(a.buf, 4, Int32At(a.buf, 0), [], encodeSkip);
      MapiWritesSized(r.value);
    }
  }

  lemma {:induction false} FileWritesSized(attrs: seq<Attribute>, o: Settings)
    requires AllAccepted(attrs, o)
    ensures SizedWrites(FileWrites(attrs, o))
  {
    hide Accepted, AttrWrites, SizedWrite;
    if attrs != [] {
      FileWritesSized(attrs[1..], o);
      if attrs[0].lvl != LVL_MESSAGE {
        AttrWritesSized(attrs[0], o.encodeSkip);
      }
    }
  }

  lemma {:induction false} LastDataSized(ws: seq<FieldWrite>)
    requires SizedWrites(ws)
    ensures var d := Last(ws, AsData); d.Some? ==> d.value.0 == |d.value.1|
  {
    if ws != [] {
      LastDataSized(ws[..|ws| - 1]);
    }
  }

  /** Every file that is written has exactly the data its length announces. */
  lemma {:induction false} FilesSized(attrs: seq<Attribute>, o: Settings)
    requires AllAccepted(attrs, o)
    ensures forall k :: 0 <= k < |AllFiles(attrs, o)| ==> Sized(AllFiles(attrs, o)[k].file)
    decreases |attrs|
  {
    hide FileWrites, LastStart, Last, Accepted;
    var k := LastStart(attrs);
    if k.Some? {
      FilesSized(attrs[..k.value], o);
      FileWritesSized(attrs[k.value..], o);
      LastDataSized(FileWrites(attrs[k.value..], o));
    }
  }

  // ----- A whole file -----

  /** Whatever a TNEF file contains, the outcome is split-and-fold of the attributes that can be read from it. */
  lemma ParsedIsSplitAndFold(data: seq<byte>, o: Settings)
    requires |data| >= 6 && Int32At(data, 0) == TNEF_SIGNATURE
    ensures var (attrs, end) := ReadStream(data, 6, o.checksumSkip);
      OutcomeOf(data, o) == SplitAndFold(attrs, end, o)
  {
    hide Int32At, SplitAndFold, Process, Loop, ReadStream;
    var (attrs, end) := ReadStream(data, 6, o.checksumSkip);
    LoopIsProcess(data, 6, START, o);
    ProcessIsSplitAndFold(attrs, end, o);
  }

  /** A file with these attributes and, after them, fewer than eight bytes of anything. */
  function FileOf(key: word, attrs: seq<Attribute>, garbage: seq<byte>): seq<byte>
    requires forall a :: a in attrs ==> Writable(a)
  {
    Le32(0x223e_9f78) + Le16(key) + WriteAll(attrs) + garbage
  }

  /** A written file is parsed into the files that its attributes describe. */
  lemma ParsedAsWritten(key: word, attrs: seq<Attribute>, garbage: seq<byte>, o: Settings)
    requires (forall a :: a in attrs ==> Writable(a)) && |garbage| < 8
    ensures OutcomeOf(FileOf(key, attrs, garbage), o) == SplitAndFold(attrs, None, o)
  {
    hide Le16, Le32, Int32At, SplitAndFold, OutcomeOf, ReadStream, WriteAll, Writable;
    var data, head := FileOf(key, attrs, garbage), Le32(0x223e_9f78) + Le16(key);
    assert data[0..4] == Le32(0x223e_9f78);
    Le32Inverse(data, 0, 0x223e_9f78);
    StreamBack(head, attrs, garbage, o.checksumSkip);
    ParsedIsSplitAndFold(data, o);
  }

  /** The first four bytes decide whether a file is looked at; with fewer than six the program ends. */
  lemma SignatureDecides(data: seq<byte>, o: Settings)
    ensures |data| < 4 ==> OutcomeOf(data, o) == Failed(Exit, [])
    ensures |data| >= 4 ==> (OutcomeOf(data, o) == NotTnef <==> data[0..4] != [0x78, 0x9f, 0x3e, 0x22])
    ensures 4 <= |data| < 6 && data[0..4] == [0x78, 0x9f, 0x3e, 0x22] ==> OutcomeOf(data, o) == Failed(Exit, [])
  {
    SignatureBytes();
    hide Loop;
    if |data| >= 4 {
      hide Le32, Int32At;
      Le32Inverse(data, 0, 0x223e_9f78);
      if |data| >= 6 {
        LoopEnds(data, 6, START, o);
      }
    }
  }

  lemma SignatureBytes()
    ensures Le32(0x223e_9f78) == [0x78, 0x9f, 0x3e, 0x22]
  {
  }

  lemma {:induction false} LoopEnds(data: seq<byte>, pos: nat, s: State, o: Settings)
    requires pos <= |data|
    ensures Loop(data, pos, s, o) != NotTnef
    decreases |data| - pos
  {
    hide ReadAttr, Opened, Added, Closed;
    if |data| - pos >= MINIMUM_ATTR_LENGTH {
      var r := ReadAttr(data, pos, o.checksumSkip);
      if r.Ok? {
        var t := Added(Opened(s, r.value.0, o), r.value.0, o);
        if t.Ok? {
          LoopEnds(data, r.value.1, t.value, o);
        }
      }
    }
  }

  /** A file in which an attribute has a wrong checksum, whatever follows that. */
  function DamagedFile(key: word, attrs: seq<Attribute>, a: Attribute, checksum: word, after: seq<byte>): seq<byte>
    requires (forall b :: b in attrs ==> Writable(b)) && Writable(a)
  {
    Le32(0x223e_9f78) + Le16(key) + WriteAll(attrs) + (WriteWith(a, checksum) + after)
  }

  /** What is read from such a file: its signature, and the attributes before the damage. */
  lemma DamagedRead(key: word, attrs: seq<Attribute>, a: Attribute, checksum: word, after: seq<byte>)
    requires (forall b :: b in attrs ==> Writable(b)) && Writable(a) && checksum != Sum(a.buf) % 0x1_0000
    ensures var data := DamagedFile(key, attrs, a, checksum, after);
      |data| >= 6 && Int32At(data, 0) == 0x223e_9f78 && ReadStream(data, 6, false) == (attrs, Some(Exit))
  {
    hide Le16, Le32, Int32At, Sum, ReadStream, WriteAll, WriteWith, Writable;
    var data, head := DamagedFile(key, attrs, a, checksum, after), Le32(0x223e_9f78) + Le16(key);
    assert data[0..4] == Le32(0x223e_9f78);
    Le32Inverse(data, 0, 0x223e_9f78);
    StreamDamaged(head, attrs, a, checksum, after);
  }

  lemma StoppedBehind(attrs: seq<Attribute>, f: Failure, o: Settings)
    ensures TakenUpTo(attrs, 0, o) == |attrs| ==> SplitAndFold(attrs, Some(f), o) == Failed(f, Finished(attrs, o))
  {
    hide TakenUpTo, Finished, AllFiles, Reason, Taken;
  }

  /** A wrong checksum ends the program with the files finished before it, if all attributes before it were taken. */
  lemma DamageStops(key: word, attrs: seq<Attribute>, a: Attribute, checksum: word, after: seq<byte>, o: Settings)
    requires (forall b :: b in attrs ==> Writable(b)) && Writable(a) && checksum != Sum(a.buf) % 0x1_0000 && !o.checksumSkip
    ensures OutcomeOf(DamagedFile(key, attrs, a, checksum, after), o) == SplitAndFold(attrs, Some(Exit), o)
    ensures TakenUpTo(attrs, 0, o) == |attrs| ==>
      OutcomeOf(DamagedFile(key, attrs, a, checksum, after), o) == Failed(Exit, Finished(attrs, o))
  {
    hide Int32At, Sum, SplitAndFold, Finished, TakenUpTo, OutcomeOf, ReadStream, DamagedFile, Writable;
    DamagedRead(key, attrs, a, checksum, after);
    ParsedIsSplitAndFold(DamagedFile(key, attrs, a, checksum, after), o);
    StoppedBehind(attrs, Exit, o);
  }

  /** So does a single changed byte of its data, under the old checksum. */
  lemma ChangedByteStops(key: word, attrs: seq<Attribute>, a: Attribute, i: nat, b: byte, after: seq<byte>, o: Settings)
    requires (forall c :: c in attrs ==> Writable(c)) && Writable(a) && i < |a.buf| && b != a.buf[i] && !o.checksumSkip
    requires TakenUpTo(attrs, 0, o) == |attrs|
    ensures OutcomeOf(DamagedFile(key, attrs, a.(buf := a.buf[i := b]), Sum(a.buf) % 0x1_0000, after), o)
         == Failed(Exit, Finished(attrs, o))
  {
    hide OutcomeOf, DamagedFile, SplitAndFold, TakenUpTo, Finished, Sum;
    ChangedByteNoticed(a.buf, i, b);
    DamageStops(key, attrs, a.(buf := a.buf[i := b]), Sum(a.buf) % 0x1_0000, after, o);
  }

  /** The finished files are all but the one still open. */
  lemma FinishedIsAllButLast(attrs: seq<Attribute>, o: Settings)
    ensures var all := AllFiles(attrs, o);
      Finished(attrs, o) == if all == [] then [] else all[..|all| - 1]
  {
    hide WriteOut, FieldsAfter, FileWrites, LastStart;
  }

  lemma TakenAccepted(attrs: seq<Attribute>, n: nat, o: Settings)
    requires n <= |attrs| && forall j :: 0 <= j < n ==> Taken(attrs, j, o)
    ensures AllAccepted(attrs[..n], o)
  {
    hide Accepted, LastStart, Message.Readable;
    assert forall k :: 0 <= k < n && attrs[..n][k].lvl != LVL_MESSAGE ==> Taken(attrs, k, o) && Accepted(attrs[..n][k], o.encodeSkip);
  }

  lemma FinishedSized(attrs: seq<Attribute>, o: Settings)
    requires AllAccepted(attrs, o)
    ensures forall k :: 0 <= k < |Finished(attrs, o)| ==> Sized(Finished(attrs, o)[k].file)
  {
    hide AllFiles, LastStart, Accepted, Sized;
    var k := LastStart(attrs);
    if k.Some? {
      FilesSized(attrs[..k.value], o);
    }
  }

  /** However a run ends, every file it has written has exactly the data its length announces. */
  lemma WrittenSized(data: seq<byte>, o: Settings)
    ensures var log := Log(OutcomeOf(data, o)); forall k :: 0 <= k < |log| ==> Sized(log[k].file)
  {
    hide Loop, ReadStream, AllFiles, Finished, Sized, Taken, Reason, BodiesOf, AllAccepted, Int32At;
    if |data| >= 6 && Int32At(data, 0) == TNEF_SIGNATURE {
      var (attrs, end) := ReadStream(data, 6, o.checksumSkip);
      ParsedIsSplitAndFold(data, o);
      var n := TakenUpTo(attrs, 0, o);
      TakenAccepted(attrs, n, o);
      FinishedSized(attrs[..n], o);
      FilesSized(attrs[..n], o);
      assert n == |attrs| ==> attrs[..n] == attrs;
    }
  }
}
