/** Writing a command line, and what `getopt_long` makes of it. */
module CommandLine {
  import opened Wrappers
  import opened Options

  /**
   * One thing to say on a command line.  Short options may follow others without arguments in one element;
   * an argument is attached to its option or stands in an element of its own; a long option is said by a key
   * that selects the option at `index`.  Some things can be said that are mistakes.
   */
  datatype Item =
    | Flags(flags: string)
    | Short(flags: string, c: char, arg: string, attached: bool)
    | ShortOptional(flags: string, c: char, value: Option<string>)
    | Long(key: string, index: nat)
    | LongArg(key: string, index: nat, arg: string, attached: bool)
    | VendorLong(flags: string, key: string, index: nat, value: Option<string>, attached: bool)
    | Operand(text: string)
    | WrongShort(flags: string, c: char)
    | WrongLong(key: string, value: Option<string>)
    | UnwantedArg(key: string, index: nat, arg: string)
    | WrongVendor(flags: string, key: string, value: Option<string>, attached: bool)
    | VendorArg(flags: string, key: string, index: nat, arg: string, attached: bool)
    | UnwantedVendor(flags: string, key: string, index: nat, arg: string, attached: bool)
    | AmbiguousVendor(flags: string, key: string, value: Option<string>, attached: bool, lost: string)

  /** What the option string says of `c`, in the first call and in all later ones. */
  predicate HasForm(cfg: Config, c: char, form: ShortForm) {
    FormOf(OptString(cfg, true), c) == form && FormOf(OptString(cfg, false), c) == form
  }

  predicate AllFlags(cfg: Config, flags: string) {
    forall k :: 0 <= k < |flags| ==> HasForm(cfg, flags[k], Plain)
  }

  /** A text that can stand before an equals sign. */
  predicate IsKey(key: string) {
    key != "" && '=' !in key
  }

  /** A long name, or an unambiguous abbreviation of one. */
  predicate Says(cfg: Config, key: string, index: nat) {
    IsKey(key) && Selects(cfg.longopts, key, index)
  }

  /** A cluster can end in a `W` that stands for two dashes. */
  predicate VendorFits(cfg: Config, flags: string) {
    (flags + "W")[0] != '-' && AllFlags(cfg, flags) && HasForm(cfg, 'W', Vendor)
  }

  /** A text that more than one name begins with, and that is no name itself. */
  predicate Doubtful(cfg: Config, key: string) {
    && IsKey(key) && (forall k :: 0 <= k < |cfg.longopts| ==> cfg.longopts[k].name != key)
    && exists j, k :: 0 <= j < k < |cfg.longopts| && key <= cfg.longopts[j].name && key <= cfg.longopts[k].name
  }

  ghost predicate CanSay(cfg: Config, i: Item) {
    match i
    case Flags(fs) => fs != "" && fs[0] != '-' && AllFlags(cfg, fs)
    case Short(fs, c, arg, attached) =>
      (fs + [c])[0] != '-' && AllFlags(cfg, fs) && HasForm(cfg, c, WithArgument) && (attached ==> arg != "")
    case ShortOptional(fs, c, value) =>
      (fs + [c])[0] != '-' && AllFlags(cfg, fs) && HasForm(cfg, c, WithOptional) && value != Some("")
    case Long(key, k) => Says(cfg, key, k) && cfg.longopts[k].kind != RequiredArgument
    case LongArg(key, k, _, attached) =>
      Says(cfg, key, k) && (if attached then cfg.longopts[k].kind != NoArgument else cfg.longopts[k].kind == RequiredArgument)
    case VendorLong(fs, key, k, value, _) =>
      && VendorFits(cfg, fs) && Says(cfg, key, k)
      && (if value.Some? then cfg.longopts[k].kind != NoArgument else cfg.longopts[k].kind != RequiredArgument)
    case Operand(s) => (|s| < 2 || s[0] != '-') && cfg.ordering != RequireOrder
    case WrongShort(fs, c) => (fs + [c])[0] != '-' && AllFlags(cfg, fs) && HasForm(cfg, c, Unknown)
    case WrongLong(key, _) => IsKey(key) && forall k: nat :: !Selects(cfg.longopts, key, k)
    case UnwantedArg(key, k, _) => Says(cfg, key, k) && cfg.longopts[k].kind == NoArgument
    case WrongVendor(fs, key, _, _) =>
      VendorFits(cfg, fs) && IsKey(key) && forall k :: 0 <= k < |cfg.longopts| ==> !(key <= cfg.longopts[k].name)
    case VendorArg(fs, key, k, _, _) => VendorFits(cfg, fs) && Says(cfg, key, k) && cfg.longopts[k].kind == RequiredArgument
    case UnwantedVendor(fs, key, k, _, _) => VendorFits(cfg, fs) && Says(cfg, key, k) && cfg.longopts[k].kind == NoArgument
    case AmbiguousVendor(fs, key, _, _, _) => VendorFits(cfg, fs) && Doubtful(cfg, key)
  }

  /** Operands that wait for the end; in the other modes they are handed out or end the run. */
  predicate Waits(cfg: Config, i: Item) {
    i.Operand? && cfg.ordering == Permute
  }

  ghost predicate CanSayAll(cfg: Config, items: seq<Item>) {
    forall k :: 0 <= k < |items| ==> CanSay(cfg, items[k])
  }

  // ----- Saying it -----

  function Elements(i: Item): seq<string> {
    match i
    case Flags(fs) => ["-" + fs]
    case Short(fs, c, arg, attached) => if attached then ["-" + (fs + ([c] + arg))] else ["-" + (fs + [c]), arg]
    case ShortOptional(fs, c, value) => ["-" + (fs + ([c] + value.GetOr("")))]
    case Long(key, _) => ["--" + key]
    case LongArg(key, _, arg, attached) => if attached then ["--" + (key + ("=" + arg))] else ["--" + key, arg]
    case VendorLong(fs, key, _, value, attached) => VendorElements(fs, VendorText(key, value), attached)
    case Operand(s) => [s]
    case WrongShort(fs, c) => ["-" + (fs + [c])]
    case WrongLong(key, value) => ["--" + VendorText(key, value)]
    case UnwantedArg(key, _, arg) => ["--" + VendorText(key, Some(arg))]
    case WrongVendor(fs, key, value, attached) => VendorElements(fs, VendorText(key, value), attached)
    case VendorArg(fs, key, _, arg, attached) => VendorElements(fs, key, attached) + [arg]
    case UnwantedVendor(fs, key, _, arg, attached) => VendorElements(fs, VendorText(key, Some(arg)), attached)
    case AmbiguousVendor(fs, key, value, attached, lost) => VendorElements(fs, VendorText(key, value), attached) + [lost]
  }

  /** A `W` and its text, in one element or two. */
  function VendorElements(flags: string, text: string, attached: bool): (es: seq<string>)
    ensures |es| == if attached then 1 else 2
  {
    if attached then ["-" + (flags + ("W" + text))] else ["-" + (flags + "W"), text]
  }

  function VendorText(key: string, value: Option<string>): string {
    match value
    case None => key
    case Some(v) => key + ("=" + v)
  }

  function Said(items: seq<Item>): seq<string> {
    if items == [] then [] else Elements(items[0]) + Said(items[1..])
  }

  function Operands(cfg: Config, items: seq<Item>): seq<string> {
    if items == [] then []
    else (if Waits(cfg, items[0]) then Elements(items[0]) else []) + Operands(cfg, items[1..])
  }

  function OptionElements(cfg: Config, items: seq<Item>): seq<string> {
    if items == [] then []
    else (if Waits(cfg, items[0]) then [] else Elements(items[0])) + OptionElements(cfg, items[1..])
  }

  // ----- What is meant -----

  function FlagEvents(flags: string): seq<Event> {
    if flags == "" then [] else [Event(flags[0] as int, None)] + FlagEvents(flags[1..])
  }

  /** What a long option returns. */
  function CodeOf(cfg: Config, index: nat): int
    requires index < |cfg.longopts|
  {
    if cfg.longopts[index].flagged then 0 else cfg.longopts[index].val
  }

  const QUESTION := 63

  ghost function Events(cfg: Config, i: Item): seq<Event>
    requires CanSay(cfg, i)
  {
    match i
    case Flags(fs) => FlagEvents(fs)
    case Short(fs, c, arg, _) => FlagEvents(fs) + [Event(c as int, Some(arg))]
    case ShortOptional(fs, c, value) => FlagEvents(fs) + [Event(c as int, value)]
    case Long(_, k) => [Event(CodeOf(cfg, k), None)]
    case LongArg(_, k, arg, _) => [Event(CodeOf(cfg, k), Some(arg))]
    case VendorLong(fs, key, k, value, _) => FlagEvents(fs) + [Event(CodeOf(cfg, k), Some(if value.Some? then value.value else key))]
    case Operand(s) => if Waits(cfg, i) then [] else [Event(1, Some(s))]
    case WrongShort(fs, _) => FlagEvents(fs) + [Event(QUESTION, None)]
    case WrongLong(_, _) => [Event(QUESTION, None)]
    case UnwantedArg(_, _, _) => [Event(QUESTION, None)]
    case WrongVendor(fs, key, value, _) => FlagEvents(fs) + [Event('W' as int, Some(VendorText(key, value)))]
    case VendorArg(fs, _, k, arg, _) => FlagEvents(fs) + [Event(CodeOf(cfg, k), Some(arg))]
    case UnwantedVendor(fs, key, _, arg, _) => FlagEvents(fs) + [Event(QUESTION, Some(VendorText(key, Some(arg))))]
    case AmbiguousVendor(fs, key, value, _, _) => FlagEvents(fs) + [Event(QUESTION, Some(VendorText(key, value)))]
  }

  ghost function AllEvents(cfg: Config, items: seq<Item>): seq<Event>
    requires CanSayAll(cfg, items)
  {
    if items == [] then [] else Events(cfg, items[0]) + AllEvents(cfg, items[1..])
  }

  // ----- Understanding it -----

  function Before(events: seq<Event>, opts: seq<string>, rest: seq<string>, p: Parsed): Parsed {
    Parsed(events + p.events, opts + p.opts, rest + p.rest, p.ending)
  }

  lemma BeforeTwice(e: seq<Event>, f: seq<Event>, opts: seq<string>, p: Parsed)
    ensures Before(e, [], [], Before(f, opts, [], p)) == Before(e + f, opts, [], p)
  {
    assert e + (f + p.events) == (e + f) + p.events;
  }

  lemma NothingBefore(q: Parsed)
    ensures Before([], [], [], q) == q
  {
    assert [] + q.events == q.events && [] + q.opts == q.opts && [] + q.rest == q.rest;
  }

  lemma BeforeBoth(e: seq<Event>, o: seq<string>, r: seq<string>, f: seq<Event>, p: seq<string>, s: seq<string>, q: Parsed)
    ensures Before(e, o, r, Before(f, p, s, q)) == Before(e + f, o + p, r + s, q)
  {
    assert e + (f + q.events) == (e + f) + q.events && o + (p + q.opts) == (o + p) + q.opts && r + (s + q.rest) == (r + s) + q.rest;
  }

  /** One option, from a cluster or a whole element. */
  lemma OneStep(cfg: Config, first: bool, pending: string, elems: seq<string>)
    requires elems != [] && (pending == "" ==> !NonOption(elems[0]) && elems[0] != "--")
    requires OptionStep(cfg, first, pending, elems).used <= |elems|
    ensures var step := OptionStep(cfg, first, pending, elems);
      Scan(cfg, first, pending, elems)
      == Before([step.event], elems[..step.used], [], Scan(cfg, false, step.pending, elems[step.used..]))
  {
    hide NonOption;
    var step := OptionStep(cfg, first, pending, elems);
    var p := Scan(cfg, false, step.pending, elems[step.used..]);
    hide OptionStep;
    assert [] + p.rest == p.rest;
  }

  /** Flags before the rest `t` of a cluster are read one by one. */
  lemma {:induction false} FlagsRead(cfg: Config, first: bool, flags: string, t: string, elems: seq<string>)
    requires elems != [] && t != "" && AllFlags(cfg, flags)
    ensures Scan(cfg, first, flags + t, elems)
         == Before(FlagEvents(flags), [], [], Scan(cfg, first && flags == "", t, elems))
    decreases |flags|
  {
    hide Scan, FormOf, OptString;
    if flags == "" {
      assert flags + t == t;
    } else {
      var pending, q := flags + t, Scan(cfg, false, t, elems);
      assert pending[0] == flags[0] && pending[1..] == flags[1..] + t;
      assert HasForm(cfg, flags[0], Plain);
      assert OptionStep(cfg, first, pending, elems) == Step(Event(flags[0] as int, None), flags[1..] + t, 0);
      OneStep(cfg, first, pending, elems);
      assert elems[0..] == elems && elems[..0] == [];
      FlagsRead(cfg, false, flags[1..], t, elems);
      BeforeTwice([Event(flags[0] as int, None)], FlagEvents(flags[1..]), [], q);
    }
  }

  /** A cluster is read from its second character on. */
  lemma ClusterStarts(cfg: Config, first: bool, pending: string, elems: seq<string>)
    requires elems != [] && pending != "" && pending[0] != '-' && elems[0] == "-" + pending
    ensures Scan(cfg, first, "", elems) == Scan(cfg, first, pending, elems)
  {
    hide ShortStep, Scan;
    assert elems[0][1..] == pending && !NonOption(elems[0]) && elems[0][1] == pending[0];
    assert OptionStep(cfg, first, "", elems) == OptionStep(cfg, first, pending, elems);
    SameStep(cfg, first, pending, elems);
  }

  lemma SameStep(cfg: Config, first: bool, pending: string, elems: seq<string>)
    requires elems != [] && pending != "" && !NonOption(elems[0]) && elems[0] != "--"
    requires OptionStep(cfg, first, "", elems) == OptionStep(cfg, first, pending, elems)
    ensures Scan(cfg, first, "", elems) == Scan(cfg, first, pending, elems)
  {
    hide OptionStep, NonOption;
  }

  /** A cluster whose last option, `t` being its text, makes `event` and uses up `used` elements. */
  lemma ClusterRead(cfg: Config, first: bool, flags: string, t: string, event: Event, used: nat, elems: seq<string>)
    requires elems != [] && t != "" && AllFlags(cfg, flags) && (flags + t)[0] != '-'
    requires elems[0] == "-" + (flags + t) && used <= |elems|
    requires forall call :: OptionStep(cfg, call, t, elems) == Step(event, "", used)
    ensures Scan(cfg, first, "", elems) == Before(FlagEvents(flags) + [event], elems[..used], [], Scan(cfg, false, "", elems[used..]))
  {
    hide OptionStep, Scan, AllFlags;
    ClusterStarts(cfg, first, flags + t, elems);
    FlagsRead(cfg, first, flags, t, elems);
    OneStep(cfg, first && flags == "", t, elems);
    BeforeTwice(FlagEvents(flags), [event], elems[..used], Scan(cfg, false, "", elems[used..]));
  }

  lemma {:induction false} FlagEventsSplit(flags: string, c: char)
    ensures FlagEvents(flags + [c]) == FlagEvents(flags) + [Event(c as int, None)]
  {
    if flags == "" {
      assert flags + [c] == [c] && [c][1..] == "";
    } else {
      assert (flags + [c])[1..] == flags[1..] + [c];
      FlagEventsSplit(flags[1..], c);
    }
  }

  /** The key ends at the first `=`. */
  lemma {:induction false} KeySplit(key: string, arg: string)
    requires '=' !in key
    ensures FirstIndex(key + ("=" + arg), '=') == Some(|key|) && FirstIndex(key, '=') == None
  {
    var s := key + ("=" + arg);
    if key == "" {
      assert s == "=" + arg;
    } else {
      assert s[0] == key[0] && s[1..] == key[1..] + ("=" + arg);
      KeySplit(key[1..], arg);
    }
  }

  lemma KeyAndValue(key: string, arg: string)
    requires '=' !in key
    ensures SplitAtEquals(key + ("=" + arg)) == (key, Some(arg)) && SplitAtEquals(key) == (key, None)
  {
    hide FirstIndex;
    KeySplit(key, arg);
    var s := key + ("=" + arg);
    assert s[..|key|] == key && s[|key| + 1..] == arg;
  }

  lemma LongRead(cfg: Config, first: bool, body: string, event: Event, used: nat, elems: seq<string>)
    requires elems != [] && body != "" && elems[0] == "--" + body && used <= |elems|
    requires LongStep(cfg, OptString(cfg, first), elems[0], elems[1..]) == Step(event, "", used)
    ensures Scan(cfg, first, "", elems) == Before([event], elems[..used], [], Scan(cfg, false, "", elems[used..]))
  {
    hide LongStep, Scan;
    assert elems[0][2..] == body;
    OneStep(cfg, first, "", elems);
  }

  lemma FlagsItem(cfg: Config, first: bool, fs: string, elems: seq<string>)
    requires CanSay(cfg, Flags(fs)) && Elements(Flags(fs)) <= elems
    ensures Scan(cfg, first, "", elems) == Before(FlagEvents(fs), elems[..1], [], Scan(cfg, false, "", elems[1..]))
  {
    hide FormOf, FlagEvents, Scan, OptString;
    var n := |fs| - 1;
    assert elems[0] == Elements(Flags(fs))[0];
    assert fs == fs[..n] + [fs[n]] && [fs[n]][1..] == "";
    assert HasForm(cfg, fs[n], Plain);
    FlagEventsSplit(fs[..n], fs[n]);
    ClusterRead(cfg, first, fs[..n], [fs[n]], Event(fs[n] as int, None), 1, elems);
  }

  lemma ShortItem(cfg: Config, first: bool, fs: string, c: char, arg: string, attached: bool, elems: seq<string>)
    requires CanSay(cfg, Short(fs, c, arg, attached)) && Elements(Short(fs, c, arg, attached)) <= elems
    ensures var n := if attached then 1 else 2;
      Scan(cfg, first, "", elems)
      == Before(FlagEvents(fs) + [Event(c as int, Some(arg))], elems[..n], [], Scan(cfg, false, "", elems[n..]))
  {
    hide AllFlags, FormOf, FlagEvents, Scan, OptString;
    var all := Elements(Short(fs, c, arg, attached));
    assert elems[0] == all[0] && (!attached ==> elems[1] == all[1]);
    var t := if attached then [c] + arg else [c];
    assert t[1..] == if attached then arg else "";
    ClusterRead(cfg, first, fs, t, Event(c as int, Some(arg)), if attached then 1 else 2, elems);
  }

  lemma OptionalItem(cfg: Config, first: bool, fs: string, c: char, value: Option<string>, elems: seq<string>)
    requires CanSay(cfg, ShortOptional(fs, c, value)) && Elements(ShortOptional(fs, c, value)) <= elems
    ensures Scan(cfg, first, "", elems)
         == Before(FlagEvents(fs) + [Event(c as int, value)], elems[..1], [], Scan(cfg, false, "", elems[1..]))
  {
    hide AllFlags, FormOf, FlagEvents, Scan, OptString;
    assert elems[0] == Elements(ShortOptional(fs, c, value))[0];
    var t := [c] + value.GetOr("");
    assert t[1..] == value.GetOr("");
    ClusterRead(cfg, first, fs, t, Event(c as int, value), 1, elems);
  }

  /** Selecting is what the search does. */
  lemma Searched(cfg: Config, key: string)
    ensures forall k: nat :: Selects(cfg.longopts, key, k) ==> MatchLong(cfg.longopts, key) == Options.Found(k)
    ensures (forall k: nat :: !Selects(cfg.longopts, key, k)) ==> !MatchLong(cfg.longopts, key).Found?
    ensures (forall k :: 0 <= k < |cfg.longopts| ==> !(key <= cfg.longopts[k].name)) ==> MatchLong(cfg.longopts, key) == NoMatch
  {
    forall k: nat
      ensures MatchLong(cfg.longopts, key) == Options.Found(k) <==> Selects(cfg.longopts, key, k)
    {
      MatchSelects(cfg.longopts, key, k);
    }
    MatchFails(cfg.longopts, key);
  }

  lemma LongItem(cfg: Config, first: bool, key: string, k: nat, elems: seq<string>)
    requires CanSay(cfg, Long(key, k)) && Elements(Long(key, k)) <= elems
    ensures Scan(cfg, first, "", elems)
         == Before([Event(CodeOf(cfg, k), None)], elems[..1], [], Scan(cfg, false, "", elems[1..]))
  {
    hide MatchLong, Selects, Scan, SplitAtEquals, OptString;
    Searched(cfg, key);
    KeyAndValue(key, "");
    assert elems[0] == Elements(Long(key, k))[0] && elems[0][2..] == key;
    LongRead(cfg, first, key, Event(CodeOf(cfg, k), None), 1, elems);
  }

  lemma LongArgItem(cfg: Config, first: bool, key: string, k: nat, arg: string, attached: bool, elems: seq<string>)
    requires CanSay(cfg, LongArg(key, k, arg, attached)) && Elements(LongArg(key, k, arg, attached)) <= elems
    ensures var n := if attached then 1 else 2;
      Scan(cfg, first, "", elems)
      == Before([Event(CodeOf(cfg, k), Some(arg))], elems[..n], [], Scan(cfg, false, "", elems[n..]))
  {
    hide MatchLong, Selects, Scan, SplitAtEquals, OptString;
    Searched(cfg, key);
    KeyAndValue(key, arg);
    var all := Elements(LongArg(key, k, arg, attached));
    if attached {
      var body := key + ("=" + arg);
      assert elems[0] == all[0] && elems[0][2..] == body;
      LongRead(cfg, first, body, Event(CodeOf(cfg, k), Some(arg)), 1, elems);
    } else {
      assert elems[0] == all[0] && elems[1] == all[1] && elems[0][2..] == key;
      LongRead(cfg, first, key, Event(CodeOf(cfg, k), Some(arg)), 2, elems);
    }
  }

  /** A name that selects nothing, and an argument that is not wanted. */
  lemma WrongLongItem(cfg: Config, first: bool, i: Item, elems: seq<string>)
    requires CanSay(cfg, i) && (i.WrongLong? || i.UnwantedArg?) && Elements(i) <= elems
    ensures Scan(cfg, first, "", elems) == Before([Event(63, None)], elems[..1], [], Scan(cfg, false, "", elems[1..]))
  {
    hide MatchLong, Selects, Scan, SplitAtEquals, OptString;
    var key, value := i.key, if i.WrongLong? then i.value else Some(i.arg);
    Searched(cfg, key);
    KeyAndValue(key, value.GetOr(""));
    assert elems[0] == Elements(i)[0] && elems[0][2..] == VendorText(key, value);
    LongRead(cfg, first, VendorText(key, value), Event(63, None), 1, elems);
  }

  lemma WrongShortItem(cfg: Config, first: bool, fs: string, c: char, elems: seq<string>)
    requires CanSay(cfg, WrongShort(fs, c)) && Elements(WrongShort(fs, c)) <= elems
    ensures Scan(cfg, first, "", elems)
         == Before(FlagEvents(fs) + [Event(63, None)], elems[..1], [], Scan(cfg, false, "", elems[1..]))
  {
    hide AllFlags, FormOf, FlagEvents, Scan, OptString;
    assert elems[0] == Elements(WrongShort(fs, c))[0] && [c][1..] == "";
    ClusterRead(cfg, first, fs, [c], Event(63, None), 1, elems);
  }

  /** The long option behind a `-W`. */
  lemma VendorIsLong(cfg: Config, s: string, key: string, k: nat, value: Option<string>, used: nat, after: seq<string>)
    requires Says(cfg, key, k)
    requires if value.Some? then cfg.longopts[k].kind != NoArgument else cfg.longopts[k].kind != RequiredArgument
    ensures VendorStep(cfg, s, VendorText(key, value), used, after)
         == Step(Event(CodeOf(cfg, k), Some(if value.Some? then value.value else key)), "", used)
  {
    hide MatchLong, Selects, SplitAtEquals;
    Searched(cfg, key);
    KeyAndValue(key, value.GetOr(""));
  }

  lemma VendorIsNone(cfg: Config, s: string, key: string, value: Option<string>, used: nat, after: seq<string>)
    requires IsKey(key) && forall k :: 0 <= k < |cfg.longopts| ==> !(key <= cfg.longopts[k].name)
    ensures VendorStep(cfg, s, VendorText(key, value), used, after) == Step(Event('W' as int, Some(VendorText(key, value))), "", used)
  {
    hide MatchLong, Selects, SplitAtEquals;
    Searched(cfg, key);
    KeyAndValue(key, value.GetOr(""));
  }

  /** The other ways in which `-W` can go: an argument in an element of its own, one that is not wanted, and too many names. */
  lemma VendorIsArg(cfg: Config, s: string, key: string, k: nat, arg: string, used: nat, after: seq<string>)
    requires Says(cfg, key, k) && cfg.longopts[k].kind == RequiredArgument && [arg] <= after
    ensures VendorStep(cfg, s, key, used, after) == Step(Event(CodeOf(cfg, k), Some(arg)), "", used + 1)
  {
    hide MatchLong, Selects, SplitAtEquals;
    Searched(cfg, key);
    KeyAndValue(key, "");
    assert after[0] == [arg][0];
  }

  lemma VendorIsUnwanted(cfg: Config, s: string, key: string, k: nat, arg: string, used: nat, after: seq<string>)
    requires Says(cfg, key, k) && cfg.longopts[k].kind == NoArgument
    ensures var text := VendorText(key, Some(arg)); VendorStep(cfg, s, text, used, after) == Step(Event(63, Some(text)), "", used)
  {
    hide MatchLong, Selects, SplitAtEquals;
    Searched(cfg, key);
    KeyAndValue(key, arg);
  }

  lemma VendorIsAmbiguous(cfg: Config, s: string, key: string, value: Option<string>, used: nat, after: seq<string>)
    requires Doubtful(cfg, key)
    ensures var text := VendorText(key, value); VendorStep(cfg, s, text, used, after) == Step(Event(63, Some(text)), "", used + 1)
  {
    var j, k :| 0 <= j < k < |cfg.longopts| && key <= cfg.longopts[j].name && key <= cfg.longopts[k].name;
    assert Begins(cfg.longopts, key, j) && Begins(cfg.longopts, key, k);
    hide MatchLong, SplitAtEquals;
    MatchFails(cfg.longopts, key);
    KeyAndValue(key, value.GetOr(""));
  }

  /** What follows a `-W` makes `event`, and takes the elements `more` with it. */
  ghost predicate Gives(cfg: Config, text: string, event: Event, more: seq<string>) {
    forall call, used: nat, after ::
      more <= after ==> VendorStep(cfg, OptString(cfg, call), text, used, after) == Step(event, "", used + |more|)
  }

  /** A `-W` with its text, whatever comes of that. */
  lemma VendorRead(cfg: Config, first: bool, fs: string, text: string, event: Event, attached: bool, more: seq<string>, elems: seq<string>)
    requires VendorFits(cfg, fs) && text != "" && VendorElements(fs, text, attached) + more <= elems && Gives(cfg, text, event, more)
    ensures var n := |VendorElements(fs, text, attached)| + |more|;
      Scan(cfg, first, "", elems) == Before(FlagEvents(fs) + [event], elems[..n], [], Scan(cfg, false, "", elems[n..]))
  {
    hide AllFlags, FormOf, FlagEvents, Scan, OptString, VendorStep;
    var all := VendorElements(fs, text, attached);
    assert elems[0] == (all + more)[0] == all[0];
    if !attached {
      assert elems[1] == (all + more)[1] == text;
    }
    var t, n := if attached then "W" + text else "W", |all|;
    assert t[0] == 'W' && t[1..] == if attached then text else "";
    var after := if attached then elems[1..] else elems[1..][1..];
    assert after == elems[n..] && more == (all + more)[n..] <= elems[n..];
    forall call
      ensures OptionStep(cfg, call, t, elems) == Step(event, "", n + |more|)
    {
      assert VendorStep(cfg, OptString(cfg, call), text, n, after) == Step(event, "", n + |more|);
    }
    hide Gives;
    ClusterRead(cfg, first, fs, t, event, n + |more|, elems);
  }

  predicate IsVendor(i: Item) {
    i.VendorLong? || i.WrongVendor? || i.VendorArg? || i.UnwantedVendor? || i.AmbiguousVendor?
  }

  /** The text behind the `W`, and the elements lost or taken behind it. */
  function TextAndMore(i: Item): (string, seq<string>)
    requires IsVendor(i)
  {
    match i
    case VendorLong(_, key, _, value, _) => (VendorText(key, value), [])
    case WrongVendor(_, key, value, _) => (VendorText(key, value), [])
    case VendorArg(_, key, _, arg, _) => (key, [arg])
    case UnwantedVendor(_, key, _, arg, _) => (VendorText(key, Some(arg)), [])
    case AmbiguousVendor(_, key, value, _, lost) => (VendorText(key, value), [lost])
  }

  lemma VendorGives(cfg: Config, i: Item)
    requires CanSay(cfg, i) && IsVendor(i)
    ensures exists event :: Events(cfg, i) == FlagEvents(i.flags) + [event] && Gives(cfg, TextAndMore(i).0, event, TextAndMore(i).1)
  {
    hide MatchLong, VendorStep, FlagEvents, Doubtful, VendorFits;
    var (text, more) := TextAndMore(i);
    var event := match i
      case VendorLong(_, key, k, value, _) => Event(CodeOf(cfg, k), Some(if value.Some? then value.value else key))
      case WrongVendor(_, _, _, _) => Event('W' as int, Some(text))
      case VendorArg(_, _, k, arg, _) => Event(CodeOf(cfg, k), Some(arg))
      case _ => Event(QUESTION, Some(text));
    assert Events(cfg, i) == FlagEvents(i.flags) + [event];
    hide Selects;
    forall call, used: nat, after | more <= after
      ensures VendorStep(cfg, OptString(cfg, call), text, used, after) == Step(event, "", used + |more|)
    {
      var s := OptString(cfg, call);
      match i
      case VendorLong(_, key, k, value, _) => VendorIsLong(cfg, s, key, k, value, used, after);
      case WrongVendor(_, key, value, _) => VendorIsNone(cfg, s, key, value, used, after);
      case VendorArg(_, key, k, arg, _) => VendorIsArg(cfg, s, key, k, arg, used, after);
      case UnwantedVendor(_, key, k, arg, _) => VendorIsUnwanted(cfg, s, key, k, arg, used, after);
      case AmbiguousVendor(_, key, value, _, _) => VendorIsAmbiguous(cfg, s, key, value, used, after);
    }
    assert Gives(cfg, text, event, more);
  }

  lemma VendorShape(cfg: Config, i: Item)
    requires CanSay(cfg, i) && IsVendor(i)
    ensures var (text, more) := TextAndMore(i);
      VendorFits(cfg, i.flags) && text != "" && Elements(i) == VendorElements(i.flags, text, i.attached) + more
  {
    hide AllFlags, HasForm, Selects;
  }

  lemma VendorItem(cfg: Config, first: bool, i: Item, elems: seq<string>)
    requires CanSay(cfg, i) && IsVendor(i) && Elements(i) <= elems
    ensures var n := |Elements(i)|;
      Scan(cfg, first, "", elems) == Before(Events(cfg, i), elems[..n], [], Scan(cfg, false, "", elems[n..]))
  {
    hide FlagEvents, Scan, Gives, VendorFits, Events, CanSay, TextAndMore, VendorElements, Elements, Before;
    VendorGives(cfg, i);
    VendorShape(cfg, i);
    var (text, more) := TextAndMore(i);
    var event :| Events(cfg, i) == FlagEvents(i.flags) + [event] && Gives(cfg, text, event, more);
    VendorRead(cfg, first, i.flags, text, event, i.attached, more, elems);
  }

  lemma OperandItem(cfg: Config, first: bool, s: string, elems: seq<string>)
    requires CanSay(cfg, Operand(s)) && [s] <= elems
    ensures Scan(cfg, first, "", elems) ==
      if Waits(cfg, Operand(s)) then Before([], [], elems[..1], Scan(cfg, first, "", elems[1..]))
      else Before([Event(1, Some(s))], elems[..1], [], Scan(cfg, false, "", elems[1..]))
  {
    assert elems[0] == [s][0];
    var p := Scan(cfg, first, "", elems[1..]);
    assert [] + p.events == p.events && [] + p.opts == p.opts;
  }

  /** Each item is understood where it stands. */
  lemma ItemRead(cfg: Config, first: bool, i: Item, elems: seq<string>)
    requires CanSay(cfg, i) && Elements(i) <= elems
    ensures var n := |Elements(i)|;
      Scan(cfg, first, "", elems) == Before(
        Events(cfg, i), if Waits(cfg, i) then [] else elems[..n], if Waits(cfg, i) then elems[..n] else [],
        Scan(cfg, first && Waits(cfg, i), "", elems[n..]))
  {
    hide AllFlags, MatchLong, HasForm, Selects, Scan, FlagEvents;
    match i {
      case Flags(fs) => FlagsItem(cfg, first, fs, elems);
      case Short(fs, c, arg, attached) => ShortItem(cfg, first, fs, c, arg, attached, elems);
      case ShortOptional(fs, c, value) => OptionalItem(cfg, first, fs, c, value, elems);
      case Long(key, k) => LongItem(cfg, first, key, k, elems);
      case LongArg(key, k, arg, attached) => LongArgItem(cfg, first, key, k, arg, attached, elems);
      case VendorLong(_, _, _, _, _) => VendorItem(cfg, first, i, elems);
      case Operand(s) => OperandItem(cfg, first, s, elems);
      case WrongShort(fs, c) => WrongShortItem(cfg, first, fs, c, elems);
      case WrongLong(_, _) => WrongLongItem(cfg, first, i, elems);
      case UnwantedArg(_, _, _) => WrongLongItem(cfg, first, i, elems);
      case WrongVendor(_, _, _, _) => VendorItem(cfg, first, i, elems);
      case VendorArg(_, _, _, _, _) => VendorItem(cfg, first, i, elems);
      case UnwantedVendor(_, _, _, _, _) => VendorItem(cfg, first, i, elems);
      case AmbiguousVendor(_, _, _, _, _) => VendorItem(cfg, first, i, elems);
    }
  }

  /** Said before anything that the first call reads like all others. */
  lemma {:induction false} AllRead(cfg: Config, first: bool, items: seq<Item>, after: seq<string>)
    requires CanSayAll(cfg, items) && Scan(cfg, true, "", after) == Scan(cfg, false, "", after)
    ensures Scan(cfg, first, "", Said(items) + after)
         == Before(AllEvents(cfg, items), OptionElements(cfg, items), Operands(cfg, items), Scan(cfg, false, "", after))
    decreases |items|
  {
    hide Scan, CanSay, Events, Elements, Waits, Before;
    var q := Scan(cfg, false, "", after);
    if items == [] {
      assert Said(items) + after == after;
      NothingBefore(q);
    } else {
      var i, tail := items[0], items[1..];
      var elems, n := Said(items) + after, |Elements(i)|;
      assert elems[..n] == Elements(i) && elems[n..] == Said(tail) + after;
      ItemRead(cfg, first, i, elems);
      AllRead(cfg, first && Waits(cfg, i), tail, after);
      var opts, rest := if Waits(cfg, i) then [] else Elements(i), if Waits(cfg, i) then Elements(i) else [];
      BeforeBoth(Events(cfg, i), opts, rest, AllEvents(cfg, tail), OptionElements(cfg, tail), Operands(cfg, tail), q);
    }
  }

  /**
   * Whatever is said with any mixture of short and long options, clusters, abbreviations, attached and
   * separate arguments and operands is understood, in every mode and with any option string: the events are
   * those meant, in order, and so are the operands left over, with everything after a `--`.
   */
  lemma Understood(cfg: Config, items: seq<Item>, after: seq<string>)
    requires CanSayAll(cfg, items)
    ensures Scan(cfg, true, "", Said(items))
         == Parsed(AllEvents(cfg, items), OptionElements(cfg, items), Operands(cfg, items), AtEnd)
    ensures Scan(cfg, true, "", Said(items) + (["--"] + after))
         == Parsed(AllEvents(cfg, items), OptionElements(cfg, items) + ["--"], Operands(cfg, items) + after, AtDashes)
  {
    hide OptionStep, Said, AllEvents, OptionElements, Operands;
    AllRead(cfg, true, items, []);
    AllRead(cfg, true, items, ["--"] + after);
    assert Said(items) + [] == Said(items);
    assert (["--"] + after)[..1] == ["--"] && (["--"] + after)[1..] == after;
  }

  /** Where options must come first, the first operand ends them, and it and everything after it is left over. */
  lemma StopsAtOperand(cfg: Config, items: seq<Item>, operand: string, after: seq<string>)
    requires CanSayAll(cfg, items) && cfg.ordering == RequireOrder && (|operand| < 2 || operand[0] != '-')
    ensures Scan(cfg, true, "", Said(items) + ([operand] + after))
         == Parsed(AllEvents(cfg, items), Said(items), [operand] + after, AtNonOption)
  {
    hide OptionStep, Said, AllEvents, OptionElements, Operands;
    AllRead(cfg, true, items, [operand] + after);
    NoneWaits(cfg, items);
  }

  lemma {:induction false} NoneWaits(cfg: Config, items: seq<Item>)
    requires cfg.ordering != Permute
    ensures OptionElements(cfg, items) == Said(items) && Operands(cfg, items) == []
  {
    hide Elements;
    if items != [] {
      NoneWaits(cfg, items[1..]);
    }
  }

  // ----- Missing arguments -----

  /** What a call makes of a missing argument: a colon if the option string, as that call sees it, begins with one. */
  function MissingCode(optstring: string, first: bool): int {
    if ":" <= optstring || (first && ("-:" <= optstring || "+:" <= optstring)) then 58 else 63
  }

  lemma MissingSeen(cfg: Config, first: bool)
    ensures Missing(OptString(cfg, first)) == MissingCode(cfg.optstring, first)
  {
    var o := cfg.optstring;
    assert |o| >= 2 ==> o[1..][0] == o[1];
  }

  /** A cluster that ends the command line with an option that uses up nothing behind it. */
  lemma LastCluster(cfg: Config, first: bool, fs: string, t: string, event: Event, elems: seq<string>)
    requires elems != [] && t != "" && (fs + t)[0] != '-' && AllFlags(cfg, fs) && elems[0] == "-" + (fs + t)
    requires OptionStep(cfg, first && fs == "", t, elems) == Step(event, "", |elems|)
    ensures Scan(cfg, first, "", elems) == Parsed(FlagEvents(fs) + [event], elems, [], AtEnd)
  {
    hide AllFlags, FlagEvents, OptionStep;
    var call := first && fs == "";
    assert Scan(cfg, false, "", []) == Parsed([], [], [], AtEnd);
    hide Scan;
    ClusterStarts(cfg, first, fs + t, elems);
    FlagsRead(cfg, first, fs, t, elems);
    assert elems[|elems|..] == [] && elems[..|elems|] == elems;
    OneStep(cfg, call, t, elems);
    assert Scan(cfg, call, t, elems) == Parsed([event], elems, [], AtEnd);
  }

  /** A short option whose argument should follow but does not. */
  lemma MissingShort(cfg: Config, first: bool, fs: string, c: char)
    requires (fs + [c])[0] != '-' && AllFlags(cfg, fs) && HasForm(cfg, c, WithArgument)
    ensures Scan(cfg, first, "", ["-" + (fs + [c])])
         == Parsed(FlagEvents(fs) + [Event(MissingCode(cfg.optstring, first && fs == ""), None)], ["-" + (fs + [c])], [], AtEnd)
  {
    hide AllFlags, FormOf, FlagEvents, Missing, MissingCode, Scan;
    var elems := ["-" + (fs + [c])];
    MissingSeen(cfg, first && fs == "");
    hide OptString;
    assert elems[1..] == [] && [c][1..] == "";
    LastCluster(cfg, first, fs, [c], Event(MissingCode(cfg.optstring, first && fs == ""), None), elems);
  }

  /** A `-W` without its text. */
  lemma MissingText(cfg: Config, first: bool, fs: string)
    requires VendorFits(cfg, fs)
    ensures Scan(cfg, first, "", ["-" + (fs + "W")])
         == Parsed(FlagEvents(fs) + [Event(MissingCode(cfg.optstring, first && fs == ""), None)], ["-" + (fs + "W")], [], AtEnd)
  {
    hide AllFlags, FormOf, FlagEvents, Missing, MissingCode, Scan;
    var elems := ["-" + (fs + "W")];
    MissingSeen(cfg, first && fs == "");
    hide OptString;
    assert elems[1..] == [] && "W"[1..] == "";
    LastCluster(cfg, first, fs, "W", Event(MissingCode(cfg.optstring, first && fs == ""), None), elems);
  }

  /** A `-W` whose option wants an argument that is not there: the name stays the argument. */
  lemma MissingVendor(cfg: Config, first: bool, fs: string, key: string, k: nat, attached: bool)
    requires VendorFits(cfg, fs) && Says(cfg, key, k) && cfg.longopts[k].kind == RequiredArgument
    ensures var elems := VendorElements(fs, key, attached);
      Scan(cfg, first, "", elems)
      == Parsed(FlagEvents(fs) + [Event(MissingCode(cfg.optstring, first && fs == ""), Some(key))], elems, [], AtEnd)
  {
    hide AllFlags, FormOf, FlagEvents, Missing, MissingCode, Scan, MatchLong, Selects, SplitAtEquals;
    var elems, call := VendorElements(fs, key, attached), first && fs == "";
    var t := if attached then "W" + key else "W";
    var event := Event(MissingCode(cfg.optstring, call), Some(key));
    MissingSeen(cfg, call);
    Searched(cfg, key);
    KeyAndValue(key, "");
    assert VendorStep(cfg, OptString(cfg, call), key, |elems|, []) == Step(event, "", |elems|);
    hide OptString, VendorStep;
    assert t[0] == 'W' && t[1..] == if attached then key else "";
    assert elems[1..] == if attached then [] else [key];
    assert [key][1..] == [];
    LastCluster(cfg, first, fs, t, event, elems);
  }

  /** The same for a long option. */
  lemma MissingLong(cfg: Config, first: bool, key: string, k: nat)
    requires Says(cfg, key, k) && cfg.longopts[k].kind == RequiredArgument
    ensures Scan(cfg, first, "", ["--" + key])
         == Parsed([Event(MissingCode(cfg.optstring, first), None)], ["--" + key], [], AtEnd)
  {
    hide MatchLong, Selects, SplitAtEquals, Missing, MissingCode;
    var elems := ["--" + key];
    Searched(cfg, key);
    KeyAndValue(key, "");
    MissingSeen(cfg, first);
    assert elems[0][2..] == key && elems[1..] == [] && elems[..1] == elems;
    assert Scan(cfg, false, "", []) == Parsed([], [], [], AtEnd);
    hide Scan, OptString;
    LongRead(cfg, first, key, Event(MissingCode(cfg.optstring, first), None), 1, elems);
  }
}
