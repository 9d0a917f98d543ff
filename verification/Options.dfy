/** What a command line means: the specification of the bundled `getopt_long`. */
module Options {
  import opened Wrappers

  datatype Ordering = RequireOrder | Permute | ReturnInOrder

  /** `no_argument`, `required_argument` and `optional_argument`. */
  datatype ArgKind = NoArgument | RequiredArgument | OptionalArgument

  /** `flagged` tells whether the option stores its value itself and makes the call return 0. */
  datatype LongOption = LongOption(name: string, kind: ArgKind, flagged: bool, val: int)

  /** What stays the same over a run: the option string as the caller wrote it, the long options, the mode. */
  datatype Config = Config(optstring: string, longopts: seq<LongOption>, ordering: Ordering)

  /** What one call tells the caller: the code it returns and `optarg`. */
  datatype Event = Event(code: int, arg: Option<string>)

  /**
   * One option: its event, what is left of its cluster, and how many elements are used up, which may be
   * one more than there are.
   */
  datatype Step = Step(event: Event, pending: string, used: nat)

  /**
   * How a run ends: all elements read, a `--`, a non-option that options must not follow, or an ambiguous
   * `-W` as the last element, which puts the scanner behind the end.
   */
  datatype Ending = AtEnd | AtDashes | AtNonOption | PastEnd

  /** A whole run: the events, the elements used by options, and the others, both in their original order. */
  datatype Parsed = Parsed(events: seq<Event>, opts: seq<string>, rest: seq<string>, ending: Ending)

  predicate NonOption(s: string) {
    |s| < 2 || s[0] != '-'
  }

  function FirstIndex(s: string, c: char): (r: Option<nat>)
    ensures r.Some? ==> r.value < |s| && s[r.value] == c && c !in s[..r.value]
    ensures r.None? ==> c !in s
  {
    if s == "" then None
    else if s[0] == c then Some(0)
    else match FirstIndex(s[1..], c)
      case None => None
      case Some(i) => Some(i + 1)
  }

  /** The text up to the first `=`, and what follows it. */
  function SplitAtEquals(s: string): (string, Option<string>) {
    match FirstIndex(s, '=')
    case None => (s, None)
    case Some(i) => (s[..i], Some(s[i + 1..]))
  }

  // ----- The mode and the option string -----

  function Strip(optstring: string): string {
    if |optstring| > 0 && optstring[0] in {'-', '+'} then optstring[1..] else optstring
  }

  function OrderingOf(optstring: string, posixlyCorrect: bool): Ordering {
    if |optstring| > 0 && optstring[0] == '-' then ReturnInOrder
    else if |optstring| > 0 && optstring[0] == '+' then RequireOrder
    else if posixlyCorrect then RequireOrder
    else Permute
  }

  /** Only the first call drops a leading `-` or `+`; later calls look options up in the string as it was passed. */
  function OptString(cfg: Config, first: bool): string {
    if first then Strip(cfg.optstring) else cfg.optstring
  }

  /** The code for an option whose argument is missing. */
  function Missing(optstring: string): int {
    if |optstring| > 0 && optstring[0] == ':' then ':' as int else '?' as int
  }

  // ----- Short options -----

  /** What the option string says of a character; `Vendor` is a `W` with a semicolon. */
  datatype ShortForm = Unknown | Plain | WithArgument | WithOptional | Vendor

  function FormOf(optstring: string, c: char): ShortForm {
    match FirstIndex(optstring, c)
    case None => Unknown
    case Some(i) =>
      if c == ':' then Unknown
      else if c == 'W' && i + 1 < |optstring| && optstring[i + 1] == ';' then Vendor
      else if i + 1 < |optstring| && optstring[i + 1] == ':' then
        if i + 2 < |optstring| && optstring[i + 2] == ':' then WithOptional else WithArgument
      else Plain
  }

  /** The next option of a cluster; `after` are the elements after the cluster. */
  function ShortStep(cfg: Config, optstring: string, pending: string, after: seq<string>): (step: Step)
    requires pending != ""
    ensures step.used <= |after| + 2 && (step.pending != "" ==> step.used == 0)
    ensures step.used == 0 ==> 0 < |step.pending| < |pending|
  {
    var c, rest := pending[0], pending[1..];
    var used := if rest == "" then 1 else 0;
    match FormOf(optstring, c)
    case Unknown => Step(Event('?' as int, None), rest, used)
    case Plain => Step(Event(c as int, None), rest, used)
    case WithOptional => Step(Event(c as int, if rest == "" then None else Some(rest)), "", 1)
    case WithArgument =>
      if rest != "" then Step(Event(c as int, Some(rest)), "", 1)
      else if after == [] then Step(Event(Missing(optstring), None), "", 1)
      else Step(Event(c as int, Some(after[0])), "", 2)
    case Vendor =>
      if rest != "" then VendorStep(cfg, optstring, rest, 1, after)
      else if after == [] then Step(Event(Missing(optstring), None), "", 1)
      else VendorStep(cfg, optstring, after[0], 2, after[1..])
  }

  /** What the option string says, read off its text: the first `c` in it and what follows that. */
  lemma FormByText(before: string, c: char, after: string)
    requires c !in before
    ensures FormOf(before + [c] + after, c) ==
      if c == ':' then Unknown
      else if c == 'W' && ";" <= after then Vendor
      else if "::" <= after then WithOptional
      else if ":" <= after then WithArgument
      else Plain
    ensures FormOf(before, c) == Unknown
  {
    var s := before + [c] + after;
    FirstIsThere(before, c, after);
    hide FirstIndex;
    assert s[|before| + 1..] == after;
    assert forall k :: 0 <= k < |after| ==> s[|before| + 1 + k] == after[k];
  }

  lemma {:induction false} FirstIsThere(before: string, c: char, after: string)
    requires c !in before
    ensures FirstIndex(before + [c] + after, c) == Some(|before|) && FirstIndex(before, c) == None
  {
    if before == "" {
      assert (before + [c] + after)[0] == c;
    } else {
      assert (before + [c] + after)[1..] == before[1..] + [c] + after;
      FirstIsThere(before[1..], c, after);
    }
  }

  // ----- Long options -----

  datatype LongMatch = NoMatch | Ambiguous | Found(index: nat)

  /** The first option from `k` on with exactly this name. */
  function ExactFrom(table: seq<LongOption>, key: string, k: nat): (r: Option<nat>)
    requires k <= |table|
    ensures r.Some? ==> k <= r.value < |table|
    decreases |table| - k
  {
    if k == |table| then None
    else if table[k].name == key then Some(k)
    else ExactFrom(table, key, k + 1)
  }

  /** The options before `k` of which `key` is an abbreviation, in order. */
  function Abbreviated(table: seq<LongOption>, key: string, k: nat): (r: seq<nat>)
    requires k <= |table|
    ensures forall i :: 0 <= i < |r| ==> r[i] < k
  {
    if k == 0 then []
    else Abbreviated(table, key, k - 1) + (if key <= table[k - 1].name then [k - 1] else [])
  }

  /** An exact match wins; otherwise there must be exactly one option the key abbreviates. */
  function MatchLong(table: seq<LongOption>, key: string): (m: LongMatch)
    ensures m.Found? ==> m.index < |table|
  {
    match ExactFrom(table, key, 0)
    case Some(i) => Found(i)
    case None =>
      var all := Abbreviated(table, key, |table|);
      if all == [] then NoMatch else if |all| == 1 then Found(all[0]) else Ambiguous
  }

  /** Option `i` is the one that `key` names: the first with exactly this name, or, if none has it, the only one it abbreviates. */
  predicate Selects(table: seq<LongOption>, key: string, i: nat) {
    && i < |table|
    && (if table[i].name == key then forall j :: 0 <= j < i ==> table[j].name != key
        else
          && (forall j :: 0 <= j < |table| ==> table[j].name != key)
          && key <= table[i].name
          && (forall j :: 0 <= j < |table| && key <= table[j].name ==> j == i))
  }

  lemma {:induction false} ExactIsFirst(table: seq<LongOption>, key: string, k: nat)
    requires k <= |table|
    ensures var r := ExactFrom(table, key, k);
      && (r.Some? ==> k <= r.value < |table| && table[r.value].name == key)
      && (forall j :: k <= j < (if r.Some? then r.value else |table|) ==> table[j].name != key)
    decreases |table| - k
  {
    if k < |table| && table[k].name != key {
      ExactIsFirst(table, key, k + 1);
    }
  }

  predicate Begins(table: seq<LongOption>, key: string, j: nat)
    requires j < |table|
  {
    key <= table[j].name
  }

  /** These are all the options before `k` that begin with the key, in order. */
  predicate AllThatBegin(table: seq<LongOption>, key: string, k: nat, all: seq<nat>)
    requires k <= |table|
  {
    && (forall i :: 0 <= i < |all| ==> all[i] < k && Begins(table, key, all[i]))
    && (forall j :: 0 <= j < k && Begins(table, key, j) ==> j in all)
    && (forall i, j :: 0 <= i < j < |all| ==> all[i] < all[j])
  }

  lemma OneMoreBegins(table: seq<LongOption>, key: string, k: nat, all: seq<nat>)
    requires k < |table| && AllThatBegin(table, key, k, all)
    ensures AllThatBegin(table, key, k + 1, if Begins(table, key, k) then all + [k] else all)
  {
    hide Begins;
  }

  lemma AbbreviatedStep(table: seq<LongOption>, key: string, k: nat)
    requires k < |table|
    ensures var shorter := Abbreviated(table, key, k);
      Abbreviated(table, key, k + 1) == if Begins(table, key, k) then shorter + [k] else shorter
  {
  }

  lemma NoneBegins(table: seq<LongOption>, key: string)
    ensures AllThatBegin(table, key, 0, Abbreviated(table, key, 0))
  {
  }

  lemma {:induction false} AbbreviatedAll(table: seq<LongOption>, key: string, k: nat)
    requires k <= |table|
    ensures AllThatBegin(table, key, k, Abbreviated(table, key, k))
  {
    hide AllThatBegin, Begins, Abbreviated;
    if k == 0 {
      NoneBegins(table, key);
    } else {
      AbbreviatedAll(table, key, k - 1);
      AbbreviatedStep(table, key, k - 1);
      OneMoreBegins(table, key, k - 1, Abbreviated(table, key, k - 1));
    }
  }

  /** With no exact match, what the list of all that begin says. */
  lemma SelectsByList(table: seq<LongOption>, key: string, all: seq<nat>, i: nat)
    requires AllThatBegin(table, key, |table|, all) && forall j :: 0 <= j < |table| ==> table[j].name != key
    ensures Selects(table, key, i) <==> all == [i]
  {
    assert forall j :: 0 <= j < |table| ==> (Begins(table, key, j) <==> key <= table[j].name);
    hide Begins;
    if Selects(table, key, i) {
      assert Begins(table, key, i) && i in all;
      assert forall k :: 0 <= k < |all| ==> all[k] == i;
      assert all[0] == all[|all| - 1];
    }
    if all == [i] {
      assert all[0] == i && forall j :: j in all ==> j == i;
    }
  }

  lemma CountByList(table: seq<LongOption>, key: string, all: seq<nat>)
    requires AllThatBegin(table, key, |table|, all)
    ensures all == [] <==> forall j :: 0 <= j < |table| ==> !Begins(table, key, j)
    ensures |all| >= 2 <==> exists i, j :: 0 <= i < j < |table| && Begins(table, key, i) && Begins(table, key, j)
  {
    hide Begins;
    if all != [] {
      assert Begins(table, key, all[0]);
    }
    if |all| >= 2 {
      assert all[0] < all[1] && Begins(table, key, all[1]);
    }
    if i, j :| 0 <= i < j < |table| && Begins(table, key, i) && Begins(table, key, j) {
      assert i in all && j in all;
    }
  }

  /** What the search finds, said without searching. */
  lemma MatchSelects(table: seq<LongOption>, key: string, i: nat)
    ensures MatchLong(table, key) == Found(i) <==> Selects(table, key, i)
  {
    var exact, all := ExactFrom(table, key, 0), Abbreviated(table, key, |table|);
    ExactIsFirst(table, key, 0);
    AbbreviatedAll(table, key, |table|);
    hide ExactFrom, Abbreviated, AllThatBegin;
    if exact.None? {
      SelectsByList(table, key, all, i);
      hide Selects;
    }
  }

  /** And when it finds nothing, or too much. */
  lemma MatchFails(table: seq<LongOption>, key: string)
    ensures MatchLong(table, key) == NoMatch <==> forall j :: 0 <= j < |table| ==> !Begins(table, key, j)
    ensures MatchLong(table, key) == Ambiguous <==>
      && (forall j :: 0 <= j < |table| ==> table[j].name != key)
      && (exists i, j :: 0 <= i < j < |table| && Begins(table, key, i) && Begins(table, key, j))
  {
    var exact, all := ExactFrom(table, key, 0), Abbreviated(table, key, |table|);
    ExactIsFirst(table, key, 0);
    AbbreviatedAll(table, key, |table|);
    if exact.Some? {
      assert Begins(table, key, exact.value);
    }
    hide ExactFrom, Abbreviated, AllThatBegin, Begins;
    CountByList(table, key, all);
  }

  /** The search loop over the long options. */
  method FindLong(table: seq<LongOption>, key: string) returns (m: LongMatch)
    ensures m == MatchLong(table, key)
  {
    var pfound: Option<nat> := None;
    var ambig := false;
    for i := 0 to |table|
      invariant ExactFrom(table, key, i) == ExactFrom(table, key, 0)
      invariant pfound == if Abbreviated(table, key, i) == [] then None else Some(Abbreviated(table, key, i)[0])
      invariant ambig <==> |Abbreviated(table, key, i)| >= 2
    {
      if key <= table[i].name {
        if |key| == |table[i].name| {
          assert key == table[i].name;
          return Found(i);
        } else if pfound.None? {
          pfound := Some(i);
        } else {
          ambig := true;
        }
      }
    }
    if ambig {
      return Ambiguous;
    }
    match pfound
    case None => return NoMatch;
    case Some(i) => return Found(i);
  }

  function Code(o: LongOption): int {
    if o.flagged then 0 else o.val
  }

  /** A `--name` or `--name=value` element. */
  function LongStep(cfg: Config, optstring: string, elem: string, after: seq<string>): (step: Step)
    requires |elem| >= 2
    ensures step.pending == "" && 1 <= step.used <= |after| + 1
  {
    var (key, value) := SplitAtEquals(elem[2..]);
    match MatchLong(cfg.longopts, key)
    case NoMatch => Step(Event('?' as int, None), "", 1)
    case Ambiguous => Step(Event('?' as int, None), "", 1)
    case Found(i) =>
      var o := cfg.longopts[i];
      if value.Some? then
        if o.kind.NoArgument? then Step(Event('?' as int, None), "", 1)
        else Step(Event(Code(o), value), "", 1)
      else if o.kind.RequiredArgument? then
        if after == [] then Step(Event(Missing(optstring), None), "", 1)
        else Step(Event(Code(o), Some(after[0])), "", 2)
      else Step(Event(Code(o), None), "", 1)
  }

  /**
   * `-W name` and `-W name=value`, `used` being the elements read so far.  The text stays the argument unless
   * there is a better one, and an ambiguous name uses up one more element, whatever it is.
   */
  function VendorStep(cfg: Config, optstring: string, text: string, used: nat, after: seq<string>): (step: Step)
    ensures step.pending == "" && used <= step.used <= used + 1
  {
    var (key, value) := SplitAtEquals(text);
    match MatchLong(cfg.longopts, key)
    case NoMatch => Step(Event('W' as int, Some(text)), "", used)
    case Ambiguous => Step(Event('?' as int, Some(text)), "", used + 1)
    case Found(i) =>
      var o := cfg.longopts[i];
      if value.Some? then
        if o.kind.NoArgument? then Step(Event('?' as int, Some(text)), "", used)
        else Step(Event(Code(o), value), "", used)
      else if o.kind.RequiredArgument? then
        if after == [] then Step(Event(Missing(optstring), Some(text)), "", used)
        else Step(Event(Code(o), Some(after[0])), "", used + 1)
      else Step(Event(Code(o), Some(text)), "", used)
  }

  // ----- A whole run -----

  /** The option that the next call reads, `elems[0]` being the element it is in. */
  function OptionStep(cfg: Config, first: bool, pending: string, elems: seq<string>): (step: Step)
    requires elems != [] && (pending == "" ==> !NonOption(elems[0]))
    ensures step.used <= |elems| + 1 && (step.pending != "" ==> step.used == 0)
    ensures step.used == 0 ==> 0 < |step.pending| < (if pending == "" then |elems[0]| else |pending|)
  {
    var s := OptString(cfg, first);
    if pending != "" then ShortStep(cfg, s, pending, elems[1..])
    else if elems[0][1] == '-' then LongStep(cfg, s, elems[0], elems[1..])
    else ShortStep(cfg, s, elems[0][1..], elems[1..])
  }

  /**
   * The meaning of `elems`, `pending` being the unread part of a cluster in `elems[0]` and `first`
   * telling whether the next call is the first one.
   */
  function Scan(cfg: Config, first: bool, pending: string, elems: seq<string>): (p: Parsed)
    requires pending != "" ==> elems != []
    decreases |elems|, if pending != "" then |pending| else if elems == [] then 0 else |elems[0]|
  {
    if elems == [] then Parsed([], [], [], AtEnd)
    else if pending == "" && elems[0] == "--" then Parsed([], elems[..1], elems[1..], AtDashes)
    else if pending == "" && NonOption(elems[0]) then
      match cfg.ordering
      case RequireOrder => Parsed([], [], elems, AtNonOption)
      case Permute =>
        var p := Scan(cfg, first, "", elems[1..]);
        p.(rest := elems[..1] + p.rest)
      case ReturnInOrder =>
        var p := Scan(cfg, false, "", elems[1..]);
        Parsed([Event(1, Some(elems[0]))] + p.events, elems[..1] + p.opts, p.rest, p.ending)
    else
      var step := OptionStep(cfg, first, pending, elems);
      if step.used > |elems| then Parsed([step.event], elems, [], PastEnd)
      else
        var p := Scan(cfg, false, step.pending, elems[step.used..]);
        Parsed([step.event] + p.events, elems[..step.used] + p.opts, p.rest, p.ending)
  }

  // ----- The two halves -----

  /** Which elements a run uses as options. */
  function Marks(cfg: Config, first: bool, pending: string, elems: seq<string>): (m: seq<bool>)
    requires pending != "" ==> elems != []
    ensures |m| == |elems|
    decreases |elems|, if pending != "" then |pending| else if elems == [] then 0 else |elems[0]|
  {
    if elems == [] then []
    else if pending == "" && elems[0] == "--" then [true] + seq(|elems| - 1, _ => false)
    else if pending == "" && NonOption(elems[0]) then
      match cfg.ordering
      case RequireOrder => seq(|elems|, _ => false)
      case Permute => [false] + Marks(cfg, first, "", elems[1..])
      case ReturnInOrder => [true] + Marks(cfg, false, "", elems[1..])
    else
      var step := OptionStep(cfg, first, pending, elems);
      if step.used > |elems| then seq(|elems|, _ => true)
      else seq(step.used, _ => true) + Marks(cfg, false, step.pending, elems[step.used..])
  }

  /** The elements with mark `b`, in order. */
  function Select(elems: seq<string>, marks: seq<bool>, b: bool): seq<string>
    requires |elems| == |marks|
  {
    if elems == [] then []
    else (if marks[0] == b then elems[..1] else []) + Select(elems[1..], marks[1..], b)
  }

  lemma {:induction false} SelectUniform(elems: seq<string>, marks: seq<bool>, b: bool)
    requires |elems| == |marks| && forall k :: 0 <= k < |marks| ==> marks[k] == b
    ensures Select(elems, marks, b) == elems && Select(elems, marks, !b) == []
  {
    if elems != [] {
      SelectUniform(elems[1..], marks[1..], b);
      assert elems == elems[..1] + elems[1..];
    }
  }

  lemma SelectCons(elem: string, elems: seq<string>, mark: bool, marks: seq<bool>, b: bool)
    requires |elems| == |marks|
    ensures Select([elem] + elems, [mark] + marks, b) == (if mark == b then [elem] else []) + Select(elems, marks, b)
  {
    assert ([elem] + elems)[1..] == elems && ([mark] + marks)[1..] == marks && ([elem] + elems)[..1] == [elem];
  }

  lemma FirstOut<T>(s: seq<T>, t: seq<T>)
    requires s != []
    ensures s == [s[0]] + s[1..] && s + t == [s[0]] + (s[1..] + t)
  {
  }

  lemma {:induction false} SelectConcat(a: seq<string>, e: seq<string>, m: seq<bool>, n: seq<bool>, b: bool)
    requires |a| == |m| && |e| == |n|
    ensures Select(a + e, m + n, b) == Select(a, m, b) + Select(e, n, b)
  {
    if a == [] {
      assert a + e == e && m + n == n;
    } else {
      hide Select;
      var x, xs, p, ps := a[0], a[1..], m[0], m[1..];
      SelectCons(x, xs, p, ps, b);
      SelectCons(x, xs + e, p, ps + n, b);
      SelectConcat(xs, e, ps, n, b);
      FirstOut(a, e);
      FirstOut(m, n);
      ThreeJoined(if p == b then [x] else [], Select(xs, ps, b), Select(e, n, b));
    }
  }

  lemma ThreeJoined<T>(a: seq<T>, b: seq<T>, c: seq<T>)
    ensures a + (b + c) == a + b + c
  {
  }

  /** Marking the first `n` elements adds them to one half only. */
  lemma SelectPrefix(elems: seq<string>, n: nat, marks: seq<bool>)
    requires n <= |elems| && |marks| == |elems| - n
    ensures var all := seq(n, _ => true) + marks;
      && Select(elems, all, true) == elems[..n] + Select(elems[n..], marks, true)
      && Select(elems, all, false) == Select(elems[n..], marks, false)
  {
    hide Select;
    var yes := seq(n, _ => true);
    assert elems == elems[..n] + elems[n..];
    SelectUniform(elems[..n], yes, true);
    SelectConcat(elems[..n], elems[n..], yes, marks, true);
    SelectConcat(elems[..n], elems[n..], yes, marks, false);
    assert [] + Select(elems[n..], marks, false) == Select(elems[n..], marks, false);
  }

  /** A run splits the elements in two, each half in its original order: a stable partition. */
  lemma {:induction false} StablePartition(cfg: Config, first: bool, pending: string, elems: seq<string>)
    requires pending != "" ==> elems != []
    ensures var p, marks := Scan(cfg, first, pending, elems), Marks(cfg, first, pending, elems);
      p.opts == Select(elems, marks, true) && p.rest == Select(elems, marks, false)
    decreases |elems|, if pending != "" then |pending| else if elems == [] then 0 else |elems[0]|
  {
    hide OptionStep, NonOption;
    if elems == [] {
    } else if pending == "" && elems[0] == "--" {
      SelectUniform(elems[1..], seq(|elems| - 1, _ => false), false);
    } else if pending == "" && NonOption(elems[0]) {
      match cfg.ordering
      case RequireOrder => SelectUniform(elems, Marks(cfg, first, pending, elems), false);
      case Permute => StablePartition(cfg, first, "", elems[1..]);
      case ReturnInOrder => StablePartition(cfg, false, "", elems[1..]);
    } else {
      var step := OptionStep(cfg, first, pending, elems);
      if step.used > |elems| {
        SelectUniform(elems, Marks(cfg, first, pending, elems), true);
      } else {
        StablePartition(cfg, false, step.pending, elems[step.used..]);
        SelectPrefix(elems, step.used, Marks(cfg, false, step.pending, elems[step.used..]));
      }
    }
  }

  lemma {:induction false} SelectKeepsAll(elems: seq<string>, marks: seq<bool>)
    requires |elems| == |marks|
    ensures multiset(Select(elems, marks, true)) + multiset(Select(elems, marks, false)) == multiset(elems)
  {
    if elems != [] {
      SelectKeepsAll(elems[1..], marks[1..]);
      assert elems == elems[..1] + elems[1..];
    }
  }

  /** Nothing is lost or made up. */
  lemma ScanKeepsAll(cfg: Config, elems: seq<string>)
    ensures var p := Scan(cfg, true, "", elems); multiset(p.opts + p.rest) == multiset(elems)
  {
    var p := Scan(cfg, true, "", elems);
    StablePartition(cfg, true, "", elems);
    SelectKeepsAll(elems, Marks(cfg, true, "", elems));
  }

  /** Unless a `--` ends the run, nothing that looks like an option is left over when options may come anywhere. */
  lemma {:induction false} RestNonOptions(cfg: Config, first: bool, pending: string, elems: seq<string>)
    requires (pending != "" ==> elems != []) && cfg.ordering == Permute
    ensures var p := Scan(cfg, first, pending, elems); p.ending != AtDashes ==> forall s :: s in p.rest ==> NonOption(s)
    decreases |elems|, if pending != "" then |pending| else if elems == [] then 0 else |elems[0]|
  {
    hide OptionStep, NonOption;
    if elems == [] || (pending == "" && elems[0] == "--") {
    } else if pending == "" && NonOption(elems[0]) {
      RestNonOptions(cfg, first, "", elems[1..]);
    } else {
      var step := OptionStep(cfg, first, pending, elems);
      if step.used <= |elems| {
        RestNonOptions(cfg, false, step.pending, elems[step.used..]);
      }
    }
  }

  lemma Rejoined(elems: seq<string>, k: nat, opts: seq<string>, rest: seq<string>)
    requires k <= |elems| && opts + rest == elems[k..]
    ensures elems[..k] + opts + rest == elems
  {
    assert elems[..k] + opts + rest == elems[..k] + (opts + rest);
  }

  /** Unless options may come anywhere, no element changes its place. */
  lemma {:induction false} OrderKept(cfg: Config, first: bool, pending: string, elems: seq<string>)
    requires (pending != "" ==> elems != []) && cfg.ordering != Permute
    ensures var p := Scan(cfg, first, pending, elems); p.opts + p.rest == elems
    decreases |elems|, if pending != "" then |pending| else if elems == [] then 0 else |elems[0]|
  {
    hide OptionStep, NonOption;
    if elems == [] || (pending == "" && elems[0] == "--") {
    } else if pending == "" && NonOption(elems[0]) {
      if cfg.ordering == ReturnInOrder {
        var p := Scan(cfg, false, "", elems[1..]);
        OrderKept(cfg, false, "", elems[1..]);
        Rejoined(elems, 1, p.opts, p.rest);
      }
    } else {
      var step := OptionStep(cfg, first, pending, elems);
      if step.used > |elems| {
        assert elems + [] == elems;
      } else {
        var p := Scan(cfg, false, step.pending, elems[step.used..]);
        OrderKept(cfg, false, step.pending, elems[step.used..]);
        Rejoined(elems, step.used, p.opts, p.rest);
      }
    }
  }

  /** How a run can end: only a `--`, or a non-option where options must come first, leaves the rest unread. */
  lemma {:induction false} Endings(cfg: Config, first: bool, pending: string, elems: seq<string>)
    requires pending != "" ==> elems != []
    ensures var p := Scan(cfg, first, pending, elems);
      && (p.ending == AtNonOption <==> cfg.ordering == RequireOrder && p.rest != [] && p.ending != AtDashes)
      && (cfg.ordering == ReturnInOrder && p.ending != AtDashes ==> p.rest == [])
    decreases |elems|, if pending != "" then |pending| else if elems == [] then 0 else |elems[0]|
  {
    hide OptionStep, NonOption;
    if elems == [] || (pending == "" && elems[0] == "--") {
    } else if pending == "" && NonOption(elems[0]) {
      if cfg.ordering != RequireOrder {
        Endings(cfg, first && cfg.ordering == Permute, "", elems[1..]);
      }
    } else {
      var step := OptionStep(cfg, first, pending, elems);
      if step.used <= |elems| {
        Endings(cfg, false, step.pending, elems[step.used..]);
      }
    }
  }

  /** Where non-options are handed out in place, only a `--` leaves anything over. */
  lemma OnlyDashesLeave(cfg: Config, first: bool, pending: string, elems: seq<string>)
    requires (pending != "" ==> elems != []) && cfg.ordering == ReturnInOrder
    ensures var p := Scan(cfg, first, pending, elems); p.rest != [] ==> p.ending == AtDashes
  {
    hide Scan;
    Endings(cfg, first, pending, elems);
  }

  // ----- Runs that go past the end -----

  /** A leading mark changes nothing for other characters. */
  lemma FormStripped(optstring: string, c: char)
    requires c != '-' && c != '+'
    ensures FormOf(Strip(optstring), c) == FormOf(optstring, c)
  {
    if |optstring| > 0 && optstring[0] in {'-', '+'} {
      assert FirstIndex(optstring, c) == match FirstIndex(optstring[1..], c)
        case None => None
        case Some(i) => Some(i + 1);
      hide FirstIndex;
    }
  }

  /** `-W` stands for `--`, and some name is ambiguous. */
  ghost predicate CanRunPast(cfg: Config) {
    FormOf(cfg.optstring, 'W') == Vendor && exists key :: '=' !in key && MatchLong(cfg.longopts, key) == Ambiguous
  }

  lemma ShortPastNeeds(cfg: Config, s: string, pending: string, after: seq<string>)
    requires pending != "" && ShortStep(cfg, s, pending, after).used > |after| + 1
    ensures FormOf(s, 'W') == Vendor && exists key :: '=' !in key && MatchLong(cfg.longopts, key) == Ambiguous
  {
    hide MatchLong, FirstIndex;
    var rest := pending[1..];
    var text := if rest != "" then rest else after[0];
    assert FormOf(s, pending[0]) == Vendor && pending[0] == 'W';
    assert '=' !in SplitAtEquals(text).0 && MatchLong(cfg.longopts, SplitAtEquals(text).0) == Ambiguous;
  }

  lemma StepPastNeeds(cfg: Config, first: bool, pending: string, elems: seq<string>)
    requires elems != [] && (pending == "" ==> !NonOption(elems[0]))
    ensures OptionStep(cfg, first, pending, elems).used > |elems| ==> CanRunPast(cfg)
  {
    hide FormOf, MatchLong, ShortStep, LongStep;
    FormStripped(cfg.optstring, 'W');
    var long := pending == "" && elems[0][1] == '-';
    if !long && OptionStep(cfg, first, pending, elems).used > |elems| {
      ShortPastNeeds(cfg, OptString(cfg, first), if pending != "" then pending else elems[0][1..], elems[1..]);
    }
  }

  lemma {:induction false} PastNeeds(cfg: Config, first: bool, pending: string, elems: seq<string>)
    requires pending != "" ==> elems != []
    ensures Scan(cfg, first, pending, elems).ending == PastEnd ==> CanRunPast(cfg)
    decreases |elems|, if pending != "" then |pending| else if elems == [] then 0 else |elems[0]|
  {
    hide OptionStep, NonOption, CanRunPast;
    if elems == [] || (pending == "" && elems[0] == "--") {
    } else if pending == "" && NonOption(elems[0]) {
      if cfg.ordering != RequireOrder {
        PastNeeds(cfg, first && cfg.ordering == Permute, "", elems[1..]);
      }
    } else {
      var step := OptionStep(cfg, first, pending, elems);
      StepPastNeeds(cfg, first, pending, elems);
      if step.used <= |elems| {
        PastNeeds(cfg, false, step.pending, elems[step.used..]);
      }
    }
  }

  lemma PastHappens(cfg: Config, key: string)
    requires FormOf(cfg.optstring, 'W') == Vendor && '=' !in key && MatchLong(cfg.longopts, key) == Ambiguous
    ensures Scan(cfg, true, "", ["-W", key]).ending == PastEnd
  {
    hide FormOf, MatchLong, FirstIndex;
    FormStripped(cfg.optstring, 'W');
    var elems := ["-W", key];
    assert elems[0][1..] == "W" && elems[0][1..][1..] == "" && elems[1..] == [key] && elems[1..][1..] == [];
    assert SplitAtEquals(key).0 == key;
    assert OptionStep(cfg, true, "", elems).used == 3;
  }

  /** Some command line leads past its end exactly when `-W` stands for `--` and some name is ambiguous. */
  lemma RunsPastExactly(cfg: Config)
    ensures (exists elems :: Scan(cfg, true, "", elems).ending == PastEnd) <==> CanRunPast(cfg)
  {
    hide Scan, FormOf, MatchLong;
    if elems: seq<string> :| Scan(cfg, true, "", elems).ending == PastEnd {
      PastNeeds(cfg, true, "", elems);
    }
    if CanRunPast(cfg) {
      var key :| '=' !in key && MatchLong(cfg.longopts, key) == Ambiguous;
      PastHappens(cfg, key);
    }
  }

  // ----- Marks in the option string -----

  /** How one operand is treated shows the mode that the mark, or its absence, selects. */
  lemma ModeByMark(optstring: string, longopts: seq<LongOption>, posixlyCorrect: bool, operand: string)
    requires |operand| < 2 || operand[0] != '-'
    ensures Scan(Config(optstring, longopts, OrderingOf(optstring, posixlyCorrect)), true, "", [operand]) ==
      if "-" <= optstring then Parsed([Event(1, Some(operand))], [operand], [], AtEnd)
      else if "+" <= optstring || posixlyCorrect then Parsed([], [], [operand], AtNonOption)
      else Parsed([], [], [operand], AtEnd)
  {
    assert [operand][1..] == [] && [operand][..1] == [operand];
    var cfg := Config(optstring, longopts, OrderingOf(optstring, posixlyCorrect));
    assert operand != "--";
    assert Scan(cfg, true, "", []) == Parsed([], [], [], AtEnd) && Scan(cfg, false, "", []) == Parsed([], [], [], AtEnd);
  }

  /** The mark itself is no option in the first call, but it is one in all later calls. */
  lemma MarkLater(mark: char, rest: string, cfg: Config, elems: seq<string>)
    requires (mark == '-' || mark == '+') && mark !in rest && !(":" <= rest) && cfg.optstring == [mark] + rest
    requires elems != []
    ensures OptionStep(cfg, true, [mark], elems).event == Event(63, None)
    ensures OptionStep(cfg, false, [mark], elems).event == Event(mark as int, None)
  {
    assert cfg.optstring[1..] == rest;
    FormByText("", mark, rest);
    FormByText(rest, mark, "");
    assert "" + [mark] + rest == cfg.optstring;
    hide FormOf;
  }
}
