/** The bodies of a message: plain text, HTML and compressed RTF. */
module Message {
  import opened Wrappers
  import opened Bytes
  import opened Attributes
  import opened Latest
  import Files
  import Mapi
  import Rtf

  const ATTBODY: word := 0x800c
  const MAPIPROPS: word := 0x9003

  const MAPI_RTF_COMPRESSED := 0x1009
  const MAPI_BODY_HTML := 0x1013

  /** The bodies found so far; `None` is a null pointer.  A value that is no RTF at all has no body. */
  datatype Bodies = Bodies(text: Option<seq<byte>>, html: Option<seq<seq<byte>>>, rtf: Option<seq<Option<Rtf.Body>>>)

  const NO_BODIES := Bodies(None, None, None)

  // ----- The values of a property -----

  /** One of the two magic numbers is where it should be. */
  predicate IsRtfData(data: seq<byte>)
    requires |data| >= 12
  {
    Int32At(data, 8) == Rtf.UNCOMPRESSED_MAGIC || Int32At(data, 8) == Rtf.COMPRESSED_MAGIC
  }

  /** The body in one value, if it is formatted text at all. */
  function RtfBody(v: Mapi.Value): Option<Rtf.Body> {
    var data := Files.BufferOf(v);
    if |data| > 12 && IsRtfData(data) then Some(Rtf.BodyOf(data)) else None
  }

  /** How a body ends the program, if it does. */
  function Stops(b: Option<Rtf.Body>): Option<Failure> {
    if b == Some(Rtf.Failed) then Some(Abort) else if b == Some(Rtf.Overread) then Some(OutOfBounds) else None
  }

  /** A body that is refused aborts, and a read past the end of a value is just that. */
  lemma StopsAre(v: Mapi.Value, rest: seq<Mapi.Value>)
    requires v.data.Buf? && |v.data.bytes| > 12 && IsRtfData(v.data.bytes)
    ensures Rtf.BodyOf(v.data.bytes) == Rtf.Failed ==> RtfBodies([v] + rest) == Fail(Abort)
    ensures Rtf.BodyOf(v.data.bytes) == Rtf.Overread ==> RtfBodies([v] + rest) == Fail(OutOfBounds)
  {
    hide Rtf.BodyOf, IsRtfData;
  }

  /** One body for each value; the first that ends the program decides how. */
  function RtfBodies(values: seq<Mapi.Value>): (r: Result<seq<Option<Rtf.Body>>>) {
    if values == [] then Ok([])
    else if Stops(RtfBody(values[0])).Some? then Fail(Stops(RtfBody(values[0])).value)
    else
      var rest :- RtfBodies(values[1..]);
      Ok([RtfBody(values[0])] + rest)
  }

  function Buffers(values: seq<Mapi.Value>): seq<seq<byte>> {
    if values == [] then [] else [Files.BufferOf(values[0])] + Buffers(values[1..])
  }

  /** The parts of an HTML body are the values as they stand. */
  lemma {:induction false} BuffersAt(values: seq<Mapi.Value>, k: nat)
    requires k < |values|
    ensures |Buffers(values)| == |values|
    ensures Buffers(values)[k] == if values[k].data.Buf? then values[k].data.bytes else []
  {
    if k > 0 {
      BuffersAt(values[1..], k - 1);
    } else if |values| > 1 {
      BuffersAt(values[1..], 0);
    }
  }

  /** A value is taken for formatted text exactly if it has more than twelve bytes, and "LZFu" or "MELA" at the eighth. */
  lemma RtfRecognised(v: Mapi.Value)
    requires v.data.Buf?
    ensures var data := v.data.bytes;
      RtfBody(v).Some? <==> |data| > 12 && (data[8..12] == [0x4c, 0x5a, 0x46, 0x75] || data[8..12] == [0x4d, 0x45, 0x4c, 0x41])
  {
    hide Rtf.BodyOf;
    var data := v.data.bytes;
    MagicBytes();
    if |data| > 12 {
      hide Le32, Int32At;
      Le32Inverse(data, 8, 0x7546_5a4c);
      Le32Inverse(data, 8, 0x414c_454d);
    }
  }

  lemma MagicBytes()
    ensures Le32(0x7546_5a4c) == [0x4c, 0x5a, 0x46, 0x75] && Le32(0x414c_454d) == [0x4d, 0x45, 0x4c, 0x41]
  {
  }

  predicate HasHtml(a: Mapi.Attr) {
    a.typ == Mapi.BINARY && a.name == MAPI_BODY_HTML
  }

  predicate HasRtf(a: Mapi.Attr) {
    a.typ == Mapi.BINARY && a.name == MAPI_RTF_COMPRESSED
  }

  // ----- What one attribute does to the bodies -----

  function WithProperty(b: Bodies, a: Mapi.Attr): Result<Bodies> {
    if HasHtml(a) then Ok(b.(html := Some(Buffers(a.values))))
    else if HasRtf(a) then
      var rtf :- RtfBodies(a.values);
      Ok(b.(rtf := Some(rtf)))
    else Ok(b)
  }

  function WithProperties(b: Bodies, attrs: seq<Mapi.Attr>): Result<Bodies>
    decreases |attrs|
  {
    if attrs == [] then Ok(b)
    else
      var c :- WithProperty(b, attrs[0]);
      WithProperties(c, attrs[1..])
  }

  function WithMessage(b: Bodies, a: Attribute, encodeSkip: bool): Result<Bodies> {
    if a.name == ATTBODY then Ok(b.(text := Some(a.buf)))
    else if a.name == MAPIPROPS then
      match Mapi.AttrsOf(a.buf, encodeSkip)
      case Ok(attrs) => WithProperties(b, attrs)
      case Fail(failure) => if failure == Skip then Ok(b) else Fail(failure)
    else Ok(b)
  }

  // ----- Bodies as last writes -----

  datatype BodyWrite = Plain(text: seq<byte>) | Html(parts: seq<seq<byte>>) | Formatted(bodies: seq<Option<Rtf.Body>>)

  function AsPlain(w: BodyWrite): Option<seq<byte>> {
    if w.Plain? then Some(w.text) else None
  }

  function AsHtml(w: BodyWrite): Option<seq<seq<byte>>> {
    if w.Html? then Some(w.parts) else None
  }

  function AsFormatted(w: BodyWrite): Option<seq<Option<Rtf.Body>>> {
    if w.Formatted? then Some(w.bodies) else None
  }

  /** Each kind of body is the last that was found, or the one there was. */
  function BodiesAfter(b: Bodies, ws: seq<BodyWrite>): Bodies {
    Bodies(Or(Last(ws, AsPlain), b.text), Or(Last(ws, AsHtml), b.html), Or(Last(ws, AsFormatted), b.rtf))
  }

  lemma NoBodyWrites(b: Bodies)
    ensures BodiesAfter(b, []) == b
  {
  }

  lemma BodiesConcat(b: Bodies, v: seq<BodyWrite>, w: seq<BodyWrite>)
    ensures BodiesAfter(b, v + w) == BodiesAfter(BodiesAfter(b, v), w)
  {
    hide Last;
    LastConcat(v, w, AsPlain);
    LastConcat(v, w, AsHtml);
    LastConcat(v, w, AsFormatted);
  }

  function PropertyWrites(a: Mapi.Attr): seq<BodyWrite> {
    if HasHtml(a) then [Html(Buffers(a.values))]
    else if HasRtf(a) then [Formatted(RtfBodies(a.values).GetOr([]))]
    else []
  }

  function AllPropertyWrites(attrs: seq<Mapi.Attr>): seq<BodyWrite> {
    if attrs == [] then [] else PropertyWrites(attrs[0]) + AllPropertyWrites(attrs[1..])
  }

  /** No formatted body of this property ends the program. */
  predicate Decodes(a: Mapi.Attr) {
    HasRtf(a) ==> RtfBodies(a.values).Ok?
  }

  predicate AllDecode(attrs: seq<Mapi.Attr>) {
    forall k :: 0 <= k < |attrs| ==> Decodes(attrs[k])
  }

  lemma OnePropertyWrite(b: Bodies, a: Mapi.Attr)
    ensures WithProperty(b, a).Ok? <==> Decodes(a)
    ensures Decodes(a) ==> WithProperty(b, a) == Ok(BodiesAfter(b, PropertyWrites(a)))
  {
    hide RtfBodies, Buffers;
    NoBodyWrites(b);
  }

  /** All properties decide: they are taken exactly if every formatted body can be read, and the last of each kind stays. */
  lemma {:induction false} PropertiesLastWin(b: Bodies, attrs: seq<Mapi.Attr>)
    ensures WithProperties(b, attrs).Ok? <==> AllDecode(attrs)
    ensures AllDecode(attrs) ==> WithProperties(b, attrs) == Ok(BodiesAfter(b, AllPropertyWrites(attrs)))
    decreases |attrs|
  {
    hide WithProperty, PropertyWrites, BodiesAfter, Decodes;
    if attrs == [] {
      NoBodyWrites(b);
    } else {
      OnePropertyWrite(b, attrs[0]);
      assert AllDecode(attrs) <==> Decodes(attrs[0]) && AllDecode(attrs[1..]);
      if Decodes(attrs[0]) {
        PropertiesLastWin(BodiesAfter(b, PropertyWrites(attrs[0])), attrs[1..]);
        BodiesConcat(b, PropertyWrites(attrs[0]), AllPropertyWrites(attrs[1..]));
      }
    }
  }

  function MessageWrites(a: Attribute, encodeSkip: bool): seq<BodyWrite> {
    if a.name == ATTBODY then [Plain(a.buf)]
    else if a.name == MAPIPROPS then AllPropertyWrites(Mapi.AttrsOf(a.buf, encodeSkip).GetOr([]))
    else []
  }

  /** A message attribute that ends nothing. */
  predicate Readable(a: Attribute, encodeSkip: bool) {
    a.name == MAPIPROPS ==>
      var attrs := Mapi.AttrsOf(a.buf, encodeSkip);
      attrs == Fail(Skip) || (attrs.Ok? && AllDecode(attrs.value))
  }

  /** Whether a message attribute is taken does not depend on the bodies, and what it does is what it writes. */
  lemma MessageLastWins(b: Bodies, a: Attribute, encodeSkip: bool)
    ensures WithMessage(b, a, encodeSkip).Ok? <==> Readable(a, encodeSkip)
    ensures Readable(a, encodeSkip) ==> WithMessage(b, a, encodeSkip) == Ok(BodiesAfter(b, MessageWrites(a, encodeSkip)))
  {
    hide WithProperties, AllDecode, Mapi.AttrsOf;
    NoBodyWrites(b);
    var attrs := Mapi.AttrsOf(a.buf, encodeSkip);
    if attrs.Ok? {
      PropertiesLastWin(b, attrs.value);
    }
  }

  lemma {:induction false} WritesConcat(a: seq<Mapi.Attr>, b: seq<Mapi.Attr>)
    ensures AllPropertyWrites(a + b) == AllPropertyWrites(a) + AllPropertyWrites(b)
  {
    hide PropertyWrites;
    if a == [] {
      assert a + b == b;
    } else {
      assert (a + b)[1..] == a[1..] + b;
      WritesConcat(a[1..], b);
    }
  }

  lemma {:induction false} NoRtfWritten(attrs: seq<Mapi.Attr>)
    requires forall k :: 0 <= k < |attrs| ==> !HasRtf(attrs[k])
    ensures Last(AllPropertyWrites(attrs), AsFormatted).None?
  {
    hide HasRtf, Buffers;
    if attrs != [] {
      NoRtfWritten(attrs[1..]);
      LastConcat(PropertyWrites(attrs[0]), AllPropertyWrites(attrs[1..]), AsFormatted);
      assert !HasRtf(attrs[0]);
      assert Last([], AsFormatted) == None;
    }
  }

  /** The formatted bodies are those of the last property that has any, whatever stands before it. */
  lemma LastRtfStays(b: Bodies, before: seq<Mapi.Attr>, p: Mapi.Attr, after: seq<Mapi.Attr>)
    requires HasRtf(p) && WithProperties(b, before + [p] + after).Ok?
    requires forall k :: 0 <= k < |after| ==> !HasRtf(after[k])
    ensures RtfBodies(p.values).Ok? && WithProperties(b, before + [p] + after).value.rtf == Some(RtfBodies(p.values).value)
  {
    hide RtfBodies, HasRtf, WithProperties, AllPropertyWrites;
    var all := before + [p] + after;
    PropertiesLastWin(b, all);
    assert all[|before|] == p && Decodes(p);
    OneAndRest(p);
    WritesConcat(before + [p], after);
    WritesConcat(before, [p]);
    NoRtfWritten(after);
    var w, here := AllPropertyWrites(before), [Formatted(RtfBodies(p.values).value)];
    LastConcat(w + here, AllPropertyWrites(after), AsFormatted);
    LastConcat(w, here, AsFormatted);
    assert Last(here, AsFormatted) == Some(RtfBodies(p.values).value);
  }

  lemma {:induction false} NoHtmlWritten(attrs: seq<Mapi.Attr>)
    requires forall k :: 0 <= k < |attrs| ==> !HasHtml(attrs[k])
    ensures Last(AllPropertyWrites(attrs), AsHtml).None?
  {
    hide HasHtml, RtfBodies;
    if attrs != [] {
      NoHtmlWritten(attrs[1..]);
      LastConcat(PropertyWrites(attrs[0]), AllPropertyWrites(attrs[1..]), AsHtml);
      assert !HasHtml(attrs[0]);
      assert Last([], AsHtml) == None;
    }
  }

  /** The HTML body is that of the last property that has one. */
  lemma LastHtmlStays(b: Bodies, before: seq<Mapi.Attr>, p: Mapi.Attr, after: seq<Mapi.Attr>)
    requires HasHtml(p) && WithProperties(b, before + [p] + after).Ok?
    requires forall k :: 0 <= k < |after| ==> !HasHtml(after[k])
    ensures WithProperties(b, before + [p] + after).value.html == Some(Buffers(p.values))
  {
    hide Buffers, HasHtml, WithProperties, AllPropertyWrites;
    PropertiesLastWin(b, before + [p] + after);
    OneHtml(p);
    WritesConcat(before + [p], after);
    WritesConcat(before, [p]);
    NoHtmlWritten(after);
    var w, here := AllPropertyWrites(before), [Html(Buffers(p.values))];
    LastConcat(w + here, AllPropertyWrites(after), AsHtml);
    LastConcat(w, here, AsHtml);
    assert Last(here, AsHtml) == Some(Buffers(p.values));
  }

  lemma OneHtml(p: Mapi.Attr)
    requires HasHtml(p)
    ensures AllPropertyWrites([p]) == [Html(Buffers(p.values))]
  {
    hide Buffers;
    assert [p][1..] == [];
    assert AllPropertyWrites([p]) == PropertyWrites(p) + [];
  }

  lemma OneAndRest(p: Mapi.Attr)
    requires HasRtf(p)
    ensures AllPropertyWrites([p]) == [Formatted(RtfBodies(p.values).GetOr([]))]
  {
    hide RtfBodies;
    assert [p][1..] == [];
    assert AllPropertyWrites([p]) == PropertyWrites(p) + [];
  }

  // ----- The program -----

  /** The body in one value. */
  method BodyFrom(v: Mapi.Value) returns (r: Option<Rtf.Body>)
    ensures r == RtfBody(v)
  {
    hide Rtf.BodyOf, Int32At;
    var data := Files.BufferOf(v);
    if |data| <= 12 || !IsRtfData(data) {
      return None;
    }
    var buf := new byte[|data| + 1](i requires 0 <= i <= |data| => if i < |data| then data[i] else 0);
    assert buf[..|data|] == data;
    var body := Rtf.GetRtfDataFromBuf(buf, |data|);
    return Some(body);
  }

  /** A body that ends the program is found at whichever value it stands. */
  lemma {:induction false} FailedBody(values: seq<Mapi.Value>, j: nat)
    requires j < |values| && Stops(RtfBody(values[j])).Some?
    requires forall k :: 0 <= k < j ==> Stops(RtfBody(values[k])).None?
    ensures RtfBodies(values) == Fail(Stops(RtfBody(values[j])).value)
  {
    hide RtfBody, Stops;
    if j > 0 {
      FailedBody(values[1..], j - 1);
    }
  }

  lemma {:induction false} BodiesOneByOne(values: seq<Mapi.Value>, body: seq<Option<Rtf.Body>>)
    requires |body| == |values|
    requires forall k :: 0 <= k < |values| ==> body[k] == RtfBody(values[k]) && Stops(body[k]).None?
    ensures RtfBodies(values) == Ok(body)
  {
    hide RtfBody, Stops;
    if values != [] {
      BodiesOneByOne(values[1..], body[1..]);
      assert body == [body[0]] + body[1..];
    }
  }

  /** `get_rtf_data`. */
  method GetRtfData(a: Mapi.Attr) returns (r: Result<seq<Option<Rtf.Body>>>)
    ensures r == RtfBodies(a.values)
  {
    hide RtfBody, RtfBodies, Stops;
    var body: seq<Option<Rtf.Body>> := [];
    for j := 0 to |a.values|
      invariant |body| == j && forall k :: 0 <= k < j ==> body[k] == RtfBody(a.values[k]) && Stops(body[k]).None?
    {
      var one := BodyFrom(a.values[j]);
      var stop := Stops(one);
      if stop.Some? {
        FailedBody(a.values, j);
        return Fail(stop.value);
      }
      body := body + [one];
    }
    BodiesOneByOne(a.values, body);
    return Ok(body);
  }

  /** `get_html_data`. */
  method GetHtmlData(a: Mapi.Attr) returns (body: seq<seq<byte>>)
    ensures body == Buffers(a.values)
  {
    body := [];
    for j := 0 to |a.values|
      invariant body + Buffers(a.values[j..]) == Buffers(a.values)
    {
      assert a.values[j..][0] == a.values[j] && a.values[j..][1..] == a.values[j + 1..];
      body := body + [Files.BufferOf(a.values[j])];
    }
  }

  /** The search for bodies among the properties of a message. */
  method ReadBodies(b: Bodies, attrs: seq<Mapi.Attr>) returns (r: Result<Bodies>)
    ensures r == WithProperties(b, attrs)
  {
    hide RtfBodies, Buffers;
    var bodies := b;
    for i := 0 to |attrs|
      invariant WithProperties(bodies, attrs[i..]) == WithProperties(b, attrs)
    {
      assert attrs[i..][0] == attrs[i] && attrs[i..][1..] == attrs[i + 1..];
      if HasHtml(attrs[i]) {
        var html := GetHtmlData(attrs[i]);
        bodies := bodies.(html := Some(html));
      } else if HasRtf(attrs[i]) {
        var rtf :- GetRtfData(attrs[i]);
        bodies := bodies.(rtf := Some(rtf));
      }
    }
    return Ok(bodies);
  }

  /** A message attribute. */
  method ReadMessage(b: Bodies, a: Attribute, encodeSkip: bool) returns (r: Result<Bodies>)
    ensures r == WithMessage(b, a, encodeSkip)
  {
    if a.name == ATTBODY {
      return Ok(b.(text := Some(a.buf)));
    } else if a.name == MAPIPROPS {
      var attrs := Files.ReadMapi(a.buf, encodeSkip);
      match attrs {
        case Ok(list) =>
          r := ReadBodies(b, list);
          return;
        case Fail(f) =>
          if f != Skip {
            return Fail(f);
          }
      }
    }
    return Ok(b);
  }
}
