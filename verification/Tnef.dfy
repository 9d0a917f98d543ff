/** The loop of `parse_file`: one reused `File`, written out and cleared whenever the next one starts. */
module Tnef {
  import opened Wrappers
  import opened Bytes
  import opened Attributes
  import opened Files
  import Message

  const TNEF_SIGNATURE: dword := 0x223e9f78

  const ATTACHRENDDATA: word := 0x9002

  // ----- The loop on values -----

  predicate StartsFile(a: Attribute) {
    a.name == ATTACHRENDDATA
  }

  /** The file being collected, the files written so far, and the bodies found so far. */
  datatype State = State(file: Option<FileData>, written: seq<Written>, bodies: Message.Bodies)

  const START := State(None, [], Message.NO_BODIES)

  function Closed(file: Option<FileData>, written: seq<Written>, o: Settings): seq<Written> {
    match file
    case None => written
    case Some(f) => written + [WriteOut(f, o)]
  }

  /** An attribute that starts a file first has the one before it written. */
  function Opened(s: State, a: Attribute, o: Settings): State {
    if StartsFile(a) then s.(file := Some(NO_FILE), written := Closed(s.file, s.written, o)) else s
  }

  /** Then every attribute is added to the file or to the bodies. */
  function Added(s: State, a: Attribute, o: Settings): Result<State> {
    if a.lvl == LVL_MESSAGE then
      var b :- Message.WithMessage(s.bodies, a, o.encodeSkip);
      Ok(s.(bodies := b))
    else
      match s.file
      case None => Fail(Abort)
      case Some(f) =>
        var g :- WithAttr(f, a, o.encodeSkip);
        Ok(s.(file := Some(g)))
  }

  /** How a run ends.  `NotTnef` is a wrong signature; a failure leaves behind the files written before it. */
  datatype Outcome =
    | NotTnef
    | Failed(failure: Failure, written: seq<Written>)
    | Parsed(written: seq<Written>, bodies: Message.Bodies)

  /** The files written, however the run ended. */
  function Log(r: Outcome): seq<Written> {
    match r
    case NotTnef => []
    case Failed(_, written) => written
    case Parsed(written, _) => written
  }

  /** The rounds for a list of attributes, after which the input ends, or cannot be read further. */
  function Process(attrs: seq<Attribute>, end: Option<Failure>, s: State, o: Settings): Outcome
    decreases |attrs|
  {
    if attrs == [] then
      match end
      case None => Parsed(Closed(s.file, s.written, o), s.bodies)
      case Some(f) => Failed(f, s.written)
    else
      var ready := Opened(s, attrs[0], o);
      match Added(ready, attrs[0], o)
      case Ok(t) => Process(attrs[1..], end, t, o)
      case Fail(f) => Failed(f, ready.written)
  }

  /** The loop, reading as it goes. */
  function Loop(data: seq<byte>, pos: nat, s: State, o: Settings): Outcome
    requires pos <= |data|
    decreases |data| - pos
  {
    if |data| - pos < MINIMUM_ATTR_LENGTH then Parsed(Closed(s.file, s.written, o), s.bodies)
    else
      match ReadAttr(data, pos, o.checksumSkip)
      case Fail(f) => Failed(f, s.written)
      case Ok((a, next)) =>
        var ready := Opened(s, a, o);
        match Added(ready, a, o)
        case Ok(t) => Loop(data, next, t, o)
        case Fail(f) => Failed(f, ready.written)
  }

  /** `parse_file`, up to the saving of bodies. */
  function OutcomeOf(data: seq<byte>, o: Settings): Outcome {
    if |data| < 4 then Failed(Exit, [])
    else if Int32At(data, 0) != TNEF_SIGNATURE then NotTnef
    else if |data| < 6 then Failed(Exit, [])
    else Loop(data, 6, START, o)
  }

  // ----- The program -----

  /** The file there is, if any. */
  ghost function ViewOf(file: File?): Option<FileData>
    reads file
  {
    if file == null then None else Some(file.View())
  }

  lemma SaveOneMore(disk: Disk, ws: seq<Written>, w: Written, p: Policy)
    ensures SaveAll(disk, ws + [w], p) == Save(SaveAll(disk, ws, p), w, p)
  {
    hide Save;
    assert (ws + [w])[..|ws|] == ws;
  }

  /** Writes the file there is; `before` is what the disk held at the start. */
  method WriteFile(file: File, written0: seq<Written>, disk0: Disk, o: Settings, ghost before: Disk)
    returns (written: seq<Written>, disk: Disk)
    requires disk0 == SaveAll(before, written0, o.policy)
    ensures written == Closed(Some(file.View()), written0, o) && disk == SaveAll(before, written, o.policy)
  {
    hide Save, WriteOut, SaveAll;
    var w;
    w, disk := FileWrite(file.View(), disk0, o);
    SaveOneMore(before, written0, w, o.policy);
    written := written0 + [w];
  }

  /** Starts the next file: writes out and clears the one there is, or makes the first. */
  method StartNext(file0: File?, written0: seq<Written>, disk0: Disk, o: Settings, ghost before: Disk)
    returns (file: File, written: seq<Written>, disk: Disk)
    requires disk0 == SaveAll(before, written0, o.policy)
    modifies file0
    ensures file.View() == NO_FILE && (file == file0 || fresh(file))
    ensures written == Closed(old(ViewOf(file0)), written0, o) && disk == SaveAll(before, written, o.policy)
  {
    hide WriteOut, SaveAll;
    written, disk := written0, disk0;
    if file0 != null {
      written, disk := WriteFile(file0, written, disk, o, before);
      file0.Free();
      file := file0;
    } else {
      file := new File();
    }
  }

  /** Adds an attribute to the file there is, or to the bodies. */
  method AddOne(file: File?, ghost written: seq<Written>, bodies0: Message.Bodies, a: Attribute, o: Settings)
    returns (r: Result<Message.Bodies>)
    modifies file
    ensures
      match Added(State(old(ViewOf(file)), written, bodies0), a, o)
      case Ok(s) => r == Ok(s.bodies) && s.file == ViewOf(file) && s.written == written
      case Fail(f) => r == Fail(f)
  {
    hide WithAttr, Message.WithMessage;
    if a.lvl == LVL_MESSAGE {
      r := Message.ReadMessage(bodies0, a, o.encodeSkip);
    } else if file == null {
      r := Fail(Abort);
    } else {
      var added := file.AddAttr(a, o.encodeSkip);
      r := if added.Ok? then Ok(bodies0) else Fail(added.failure);
    }
  }

  /** `parse_file`, on a disk that holds the files in `disk0`. */
  method ParseFile(input: InFile, disk0: Disk, o: Settings) returns (r: Outcome, disk: Disk)
    requires input.Valid() && input.pos == 0 && !input.eof
    modifies input
    ensures r == OutcomeOf(input.data, o) && disk == SaveAll(disk0, Log(r), o.policy)
  {
    hide Int32At, Loop;
    disk := disk0;
    var signature := input.Geti32();
    if signature.Fail? {
      return Failed(signature.failure, []), disk;
    }
    if signature.value != TNEF_SIGNATURE {
      return NotTnef, disk;
    }
    var key := input.Geti16();
    if key.Fail? {
      return Failed(key.failure, []), disk;
    }
    r, disk := ParseLoop(input, disk, o);
  }

  method ParseLoop(input: InFile, disk0: Disk, o: Settings) returns (r: Outcome, disk: Disk)
    requires input.Valid() && !input.eof
    modifies input
    ensures r == Loop(input.data, old(input.pos), START, o) && disk == SaveAll(disk0, Log(r), o.policy)
  {
    hide ReadAttr, WriteOut, SaveAll, Added;
    var file: File? := null;
    var written: seq<Written>, bodies := [], Message.NO_BODIES;
    disk := disk0;
    NothingSaved(disk0, o.policy);
    ghost var total := Loop(input.data, input.pos, START, o);
    var more := input.DataLeft();
    while more
      invariant input.Valid() && !input.eof && (file == null || fresh(file))
      invariant more <==> !(0 < |input.data| - input.pos < 8)
      invariant disk == SaveAll(disk0, written, o.policy)
      invariant Loop(input.data, input.pos, State(ViewOf(file), written, bodies), o) == total
      decreases |input.data| - input.pos
    {
      var next := input.ReadObject(o.checksumSkip);
      if next.Fail? {
        return Failed(next.failure, written), disk;
      }
      if next.value.None? {
        break;
      }
      var a := next.value.value;
      if a.name == ATTACHRENDDATA {
        file, written, disk := StartNext(file, written, disk, o, disk0);
      }
      var added := AddOne(file, written, bodies, a, o);
      if added.Fail? {
        return Failed(added.failure, written), disk;
      }
      bodies := added.value;
      more := input.DataLeft();
    }
    if file != null {
      written, disk := WriteFile(file, written, disk, o, disk0);
    }
    return Parsed(written, bodies), disk;
  }

  lemma NothingSaved(disk: Disk, p: Policy)
    ensures SaveAll(disk, [], p) == disk
  {
  }
}
