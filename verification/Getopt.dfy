/** The bundled `getopt_long`: it permutes `argv` in place while it hands out one option per call. */
module Getopt {
  import opened Wrappers
  import opened Options

  /** `Finished` is a return value of -1; `Returned` any other. */
  datatype Answer = Finished | Returned(code: int)

  // ----- Exchanging two blocks -----

  /** `s` with `[bottom, middle)` and `[middle, top)` changed over. */
  function Rotated(s: seq<string>, bottom: nat, middle: nat, top: nat): seq<string>
    requires bottom <= middle <= top <= |s|
  {
    s[..bottom] + s[middle..top] + s[bottom..middle] + s[top..]
  }

  /** Where the element at place `k` of a rotation comes from. */
  lemma RotatedAt(s: seq<string>, bottom: nat, middle: nat, top: nat, k: nat)
    requires bottom <= middle <= top <= |s| && k < |s|
    ensures |Rotated(s, bottom, middle, top)| == |s|
    ensures Rotated(s, bottom, middle, top)[k] ==
      if bottom <= k < bottom + (top - middle) then s[k + (middle - bottom)]
      else if bottom + (top - middle) <= k < top then s[k - (top - middle)]
      else s[k]
  {
  }

  /** `s` with the `len` elements at `low` and those at `high` changed over. */
  function Swapped(s: seq<string>, low: nat, high: nat, len: nat): (t: seq<string>)
    requires low + len <= high && high + len <= |s|
    ensures |t| == |s|
  {
    seq(|s|, k requires 0 <= k < |s| =>
      if low <= k < low + len then s[high + (k - low)]
      else if high <= k < high + len then s[low + (k - high)]
      else s[k])
  }

  lemma SwappedNone(s: seq<string>, low: nat, high: nat)
    requires low <= high <= |s|
    ensures Swapped(s, low, high, 0) == s
  {
  }

  lemma SwappedOneMore(s: seq<string>, low: nat, high: nat, len: nat)
    requires low + len < high && high + len < |s|
    ensures var t := Swapped(s, low, high, len);
      t[low + len := t[high + len]][high + len := t[low + len]] == Swapped(s, low, high, len + 1)
  {
  }

  /** Swaps two blocks of the same length that do not overlap. */
  method SwapBlocks(argv: array<string>, low: nat, high: nat, len: nat)
    requires low + len <= high && high + len <= argv.Length
    modifies argv
    ensures argv[..] == Swapped(old(argv[..]), low, high, len)
  {
    hide Swapped;
    ghost var s := argv[..];
    SwappedNone(s, low, high);
    for i := 0 to len
      invariant argv[..] == Swapped(s, low, high, i)
    {
      ghost var before := argv[..];
      argv[low + i], argv[high + i] := argv[high + i], argv[low + i];
      assert argv[..] == before[low + i := before[high + i]][high + i := before[low + i]];
      SwappedOneMore(s, low, high, i);
    }
  }

  lemma RotatedDone(s: seq<string>, bottom: nat, middle: nat, top: nat)
    requires bottom <= middle <= top <= |s| && (top == middle || middle == bottom)
    ensures Rotated(s, bottom, middle, top) == s
  {
  }

  /** The short bottom block has gone to its place at the top; the rest of the top block is next to be moved. */
  lemma SwapBottom(s: seq<string>, t: seq<string>, bottom: nat, middle: nat, top: nat)
    requires bottom <= middle <= top <= |s| && middle - bottom <= top - middle
    requires t == Swapped(s, bottom, top - (middle - bottom), middle - bottom)
    ensures Rotated(t, bottom, middle, top - (middle - bottom)) == Rotated(s, bottom, middle, top)
  {
    hide Rotated;
    forall k | 0 <= k < |s|
      ensures |Rotated(s, bottom, middle, top)| == |Rotated(t, bottom, middle, top - (middle - bottom))| == |s|
      ensures Rotated(t, bottom, middle, top - (middle - bottom))[k] == Rotated(s, bottom, middle, top)[k]
    {
      RotatedAt(s, bottom, middle, top, k);
      RotatedAt(t, bottom, middle, top - (middle - bottom), k);
    }
    RotatedLength(s, bottom, middle, top);
    RotatedLength(t, bottom, middle, top - (middle - bottom));
  }

  /** The short top block has gone to its place at the bottom. */
  lemma SwapTop(s: seq<string>, t: seq<string>, bottom: nat, middle: nat, top: nat)
    requires bottom <= middle <= top <= |s| && top - middle <= middle - bottom
    requires t == Swapped(s, bottom, middle, top - middle)
    ensures Rotated(t, bottom + (top - middle), middle, top) == Rotated(s, bottom, middle, top)
  {
    hide Rotated;
    forall k | 0 <= k < |s|
      ensures |Rotated(s, bottom, middle, top)| == |Rotated(t, bottom + (top - middle), middle, top)| == |s|
      ensures Rotated(t, bottom + (top - middle), middle, top)[k] == Rotated(s, bottom, middle, top)[k]
    {
      RotatedAt(s, bottom, middle, top, k);
      RotatedAt(t, bottom + (top - middle), middle, top, k);
    }
    RotatedLength(s, bottom, middle, top);
    RotatedLength(t, bottom + (top - middle), middle, top);
  }

  lemma RotatedLength(s: seq<string>, bottom: nat, middle: nat, top: nat)
    requires bottom <= middle <= top <= |s|
    ensures |Rotated(s, bottom, middle, top)| == |s|
  {
  }

  /** The elements read so far only add to those used. */
  lemma UsedShift(cfg: Config, opts: string, text: string, after: seq<string>)
    ensures after != [] ==>
      VendorStep(cfg, opts, text, 2, after[1..]) == VendorStep(cfg, opts, text, 1, after[1..]).(used := VendorStep(cfg, opts, text, 1, after[1..]).used + 1)
  {
    hide SplitAtEquals, MatchLong;
  }

  // ----- The outlook of a run -----

  /**
   * What a run gives when non-options were skipped at `[first, last)`, options were read in
   * `[1, first)` and `[last, next)`, and the elements from `next` on will give `p`.
   */
  function Outcome(s: seq<string>, first: nat, last: nat, next: nat, p: Parsed): Parsed
    requires 1 <= first <= last <= next <= |s|
  {
    Parsed(p.events, s[1..first] + (s[last..next] + p.opts), s[first..last] + p.rest, p.ending)
  }

  /** `p` with one more event before it. */
  function Preceded(e: Event, p: Parsed): Parsed {
    p.(events := [e] + p.events)
  }

  /** Exchanging the two blocks changes their places only. */
  lemma ExchangeKeeps(s: seq<string>, first: nat, last: nat, next: nat, p: Parsed)
    requires 1 <= first <= last <= next <= |s|
    ensures var t := Rotated(s, first, last, next);
      && t[0] == s[0] && t[next..] == s[next..]
      && Outcome(t, first + (next - last), next, next, p) == Outcome(s, first, last, next, p)
  {
    var t, f := Rotated(s, first, last, next), first + (next - last);
    assert t[1..f] == s[1..first] + s[last..next];
    assert t[f..next] == s[first..last] && t[next..next] == [];
    assert (s[1..first] + s[last..next]) + ([] + p.opts) == s[1..first] + (s[last..next] + p.opts);
  }

  /** With no non-options skipped, the two blocks of options are one. */
  lemma NothingSkipped(s: seq<string>, first: nat, next: nat, p: Parsed)
    requires 1 <= first <= next <= |s|
    ensures Outcome(s, first, first, next, p) == Outcome(s, next, next, next, p)
  {
    assert s[1..next] == s[1..first] + s[first..next] && s[next..next] == [] && s[first..first] == [];
    assert (s[1..first] + s[first..next]) + ([] + p.opts) == s[1..first] + (s[first..next] + p.opts);
  }

  /** A skipped non-option joins the ones skipped before it. */
  lemma SkipOne(cfg: Config, call: bool, s: seq<string>, first: nat, i: nat)
    requires 1 <= first <= i < |s| && NonOption(s[i]) && cfg.ordering == Permute
    ensures Outcome(s, first, i, i, Scan(cfg, call, "", s[i..])) == Outcome(s, first, i + 1, i + 1, Scan(cfg, call, "", s[i + 1..]))
  {
    hide OptionStep;
    var p, q := Scan(cfg, call, "", s[i..]), Scan(cfg, call, "", s[i + 1..]);
    assert s[i..][0] == s[i] && s[i..][1..] == s[i + 1..] && s[i..][..1] == s[i..i + 1];
    assert p.rest == s[i..i + 1] + q.rest;
    JoinSlices(s, first, i, i + 1, q.rest);
    assert s[i..i] == s[i + 1..i + 1] == [];
  }

  lemma JoinSlices(s: seq<string>, a: nat, b: nat, c: nat, t: seq<string>)
    requires a <= b <= c <= |s|
    ensures s[a..b] + (s[b..c] + t) == s[a..c] + t
  {
    assert s[a..c] == s[a..b] + s[b..c];
  }

  lemma SliceTwice(s: seq<string>, i: nat, n: nat)
    requires i + n <= |s|
    ensures s[i..][n..] == s[i + n..] && s[i..][..n] == s[i..i + n]
  {
  }

  lemma ScanOption(cfg: Config, call: bool, pending: string, elems: seq<string>)
    requires elems != [] && (pending == "" ==> !NonOption(elems[0]) && elems[0] != "--")
    ensures var step := OptionStep(cfg, call, pending, elems);
      if step.used > |elems| then Scan(cfg, call, pending, elems) == Parsed([step.event], elems, [], PastEnd)
      else
        var q := Scan(cfg, false, step.pending, elems[step.used..]);
        Scan(cfg, call, pending, elems) == Parsed([step.event] + q.events, elems[..step.used] + q.opts, q.rest, q.ending)
  {
    hide NonOption;
    var step := OptionStep(cfg, call, pending, elems);
    hide OptionStep;
  }

  lemma OutcomeOneMore(s: seq<string>, first: nat, last: nat, i: nat, next: nat, e: Event, q: Parsed)
    requires 1 <= first <= last <= i <= next <= |s|
    ensures Outcome(s, first, last, i, Parsed([e] + q.events, s[i..next] + q.opts, q.rest, q.ending))
         == Preceded(e, Outcome(s, first, last, next, q))
  {
    JoinSlices(s, last, i, next, q.opts);
  }

  /** What the run gives from `next` on, which may be one place behind the end. */
  function Onward(cfg: Config, call: bool, pending: string, s: seq<string>, first: nat, last: nat, next: nat): Parsed
    requires 1 <= first <= last <= |s| && last <= next && (pending != "" ==> next < |s|)
  {
    if next > |s| then Outcome(s, first, last, |s|, Parsed([], [], [], PastEnd))
    else Outcome(s, first, last, next, Scan(cfg, call, pending, s[next..]))
  }

  /** An option and its argument join the options read before them. */
  lemma TakeOne(cfg: Config, call: bool, pending: string, s: seq<string>, first: nat, last: nat, i: nat)
    requires 1 <= first <= last <= i < |s| && (pending == "" ==> !NonOption(s[i]) && s[i] != "--")
    ensures s[i..][0] == s[i]
    ensures var step := OptionStep(cfg, call, pending, s[i..]);
      && i + step.used <= |s| + 1 && (step.pending != "" ==> step.used == 0)
      && Onward(cfg, call, pending, s, first, last, i)
         == Preceded(step.event, Onward(cfg, false, step.pending, s, first, last, i + step.used))
  {
    hide OptionStep, Outcome, Scan, Preceded, NonOption;
    assert s[i..][0] == s[i];
    var step := OptionStep(cfg, call, pending, s[i..]);
    var next := i + step.used;
    ScanOption(cfg, call, pending, s[i..]);
    if next > |s| {
      PastTheEnd(s, first, last, i, step.event);
    } else {
      SliceTwice(s, i, step.used);
      OutcomeOneMore(s, first, last, i, next, step.event, Scan(cfg, false, step.pending, s[next..]));
    }
  }

  lemma PastTheEnd(s: seq<string>, first: nat, last: nat, i: nat, e: Event)
    requires 1 <= first <= last <= i <= |s|
    ensures Outcome(s, first, last, i, Parsed([e], s[i..], [], PastEnd))
         == Preceded(e, Outcome(s, first, last, |s|, Parsed([], [], [], PastEnd)))
  {
    JoinSlices(s, last, i, |s|, []);
    assert s[i..|s|] + [] == s[i..] && s[last..|s|] + [] == s[last..|s|] && [e] + [] == [e];
  }

  /** A non-option that is handed out joins the options too. */
  lemma PassOne(cfg: Config, call: bool, s: seq<string>, first: nat, last: nat, i: nat)
    requires 1 <= first <= last <= i < |s| && NonOption(s[i]) && cfg.ordering == ReturnInOrder
    ensures Outcome(s, first, last, i, Scan(cfg, call, "", s[i..]))
         == Preceded(Event(1, Some(s[i])), Outcome(s, first, last, i + 1, Scan(cfg, false, "", s[i + 1..])))
  {
    hide OptionStep, Outcome, Preceded;
    assert s[i..][0] == s[i];
    SliceTwice(s, i, 1);
    OutcomeOneMore(s, first, last, i, i + 1, Event(1, Some(s[i])), Scan(cfg, false, "", s[i + 1..]));
  }

  /** Once every element has been seen, the options stand first. */
  lemma NothingLeft(s: seq<string>, first: nat)
    requires 1 <= first <= |s|
    ensures Outcome(s, first, |s|, |s|, Parsed([], [], [], AtEnd)) == Parsed([], s[1..first], s[first..], AtEnd)
  {
    assert s[1..first] + ([] + []) == s[1..first] && s[|s|..] == [];
    assert s[first..|s|] + [] == s[first..];
  }

  /** A `--` at `i` is the last option; everything after it joins the non-options. */
  lemma DashesOutcome(cfg: Config, call: bool, s: seq<string>, first: nat, last: nat, i: nat)
    requires 1 <= first <= last <= i < |s| && s[i] == "--"
    ensures Outcome(s, first, last, i, Scan(cfg, call, "", s[i..])) == Outcome(s, first, last, i + 1, Parsed([], [], s[i + 1..], AtDashes))
  {
    assert s[i..][0] == s[i] && s[i..][1..] == s[i + 1..] && s[i..][..1] == s[i..i + 1];
    JoinSlices(s, last, i, i + 1, []);
    assert s[i..i + 1] + [] == s[i..i + 1];
  }

  /** Non-options next to the rest are one block with it. */
  lemma RestJoins(s: seq<string>, first: nat, next: nat, ending: Ending)
    requires 1 <= first <= next <= |s|
    ensures Outcome(s, first, next, next, Parsed([], [], s[next..], ending)) == Parsed([], s[1..first], s[first..], ending)
  {
    assert s[next..next] + [] == [] && s[1..first] + [] == s[1..first];
    JoinSlices(s, first, next, |s|, []);
    assert s[next..|s|] + [] == s[next..] && s[first..|s|] + [] == s[first..];
  }

  lemma LaterOptString(cfg: Config)
    ensures OptString(cfg, false) == cfg.optstring
  {
  }

  /** The static state of the scanner, over one argument vector. */
  class Scanner {
    const argv: array<string>
    const optstring: string
    const longopts: seq<LongOption>
    const posixlyCorrect: bool

    var initialized: bool
    var ordering: Ordering
    var optind: nat
    var firstNonopt: nat
    var lastNonopt: nat
    var nextchar: string  // "" for a null pointer too
    var optarg: Option<string>

    constructor (argv: array<string>, optstring: string, longopts: seq<LongOption>, posixlyCorrect: bool)
      requires argv.Length >= 1
      ensures Valid() && !initialized && optind == 0
      ensures this.argv == argv && this.optstring == optstring && this.longopts == longopts
      ensures this.posixlyCorrect == posixlyCorrect
    {
      this.argv, this.optstring, this.longopts, this.posixlyCorrect := argv, optstring, longopts, posixlyCorrect;
      initialized, ordering, optind, firstNonopt, lastNonopt, nextchar, optarg := false, Permute, 0, 0, 0, "", None;
    }

    function Cfg(): Config {
      Config(optstring, longopts, OrderingOf(optstring, posixlyCorrect))
    }

    /**
     * The order every call keeps, and a cluster that is being read stands at `optind`, which may be one
     * place behind the end.
     */
    ghost predicate Valid()
      reads this, argv
    {
      && argv.Length >= 1
      && (initialized ==>
            && ordering == Cfg().ordering
            && 1 <= firstNonopt <= lastNonopt <= argv.Length && lastNonopt <= optind <= argv.Length + 1
            && (nextchar != "" ==> optind < argv.Length && !NonOption(argv[optind]) && argv[optind][1] != '-')
            && (ordering != Permute ==> firstNonopt == lastNonopt))
    }

    /**
     * What the rest of the run will give: the events to come, all elements used by options (already
     * seen or not), and all others.  `first` tells whether no event has been handed out yet.
     */
    ghost function Outlook(first: bool): Parsed
      requires Valid() && initialized
      reads this, argv
    {
      Onward(Cfg(), first, nextchar, argv[..], firstNonopt, lastNonopt, optind)
    }

    /** The same before the first call. */
    ghost function Prospect(): Parsed
      requires Valid()
      reads this, argv
    {
      if initialized then Outlook(false) else Scan(Cfg(), true, "", argv[1..])
    }

    /** Moves the options read since the last non-options before those non-options. */
    method Exchange()
      requires firstNonopt <= lastNonopt <= optind <= argv.Length
      modifies this`firstNonopt, this`lastNonopt, argv
      ensures argv[..] == Rotated(old(argv[..]), old(firstNonopt), old(lastNonopt), optind)
      ensures firstNonopt == old(firstNonopt) + (optind - old(lastNonopt)) && lastNonopt == optind
    {
      hide Rotated, Swapped;
      var bottom, middle, top := firstNonopt, lastNonopt, optind;
      while top > middle && middle > bottom
        invariant firstNonopt <= bottom <= middle <= top <= optind <= argv.Length && firstNonopt <= lastNonopt <= optind
        invariant firstNonopt == old(firstNonopt) && lastNonopt == old(lastNonopt)
        invariant Rotated(argv[..], bottom, middle, top) == Rotated(old(argv[..]), firstNonopt, lastNonopt, optind)
        decreases top - bottom
      {
        ghost var s := argv[..];
        if top - middle > middle - bottom {
          var len := middle - bottom;
          SwapBlocks(argv, bottom, top - len, len);
          SwapBottom(s, argv[..], bottom, middle, top);
          top := top - len;
        } else {
          var len := top - middle;
          SwapBlocks(argv, bottom, middle, len);
          SwapTop(s, argv[..], bottom, middle, top);
          bottom := bottom + len;
        }
      }
      RotatedDone(argv[..], bottom, middle, top);
      firstNonopt := firstNonopt + (optind - lastNonopt);
      lastNonopt := optind;
    }

    /** The first call: settle the mode; drop its mark from the option string. */
    method Initialize() returns (opts: string)
      requires Valid() && !initialized
      modifies this`initialized, this`ordering, this`optind, this`firstNonopt, this`lastNonopt, this`nextchar
      ensures Valid() && initialized && nextchar == "" && optind == 1 && opts == OptString(Cfg(), true)
      ensures Outlook(true) == old(Prospect())
    {
      optind := 1;
      firstNonopt, lastNonopt, nextchar := 1, 1, "";
      opts := optstring;
      if |optstring| > 0 && optstring[0] == '-' {
        ordering := ReturnInOrder;
        opts := optstring[1..];
      } else if |optstring| > 0 && optstring[0] == '+' {
        ordering := RequireOrder;
        opts := optstring[1..];
      } else if posixlyCorrect {
        ordering := RequireOrder;
      } else {
        ordering := Permute;
      }
      initialized := true;
    }

    /** The outlook once all options read so far stand before `firstNonopt`. */
    ghost predicate Grouped(first: bool, total: Parsed)
      reads this, argv
    {
      && 1 <= firstNonopt <= optind <= argv.Length
      && total == Outcome(argv[..], firstNonopt, optind, optind, Scan(Cfg(), first, "", argv[optind..]))
    }

    /** Brings options read since the last non-options before them. */
    method Regroup(ghost first: bool)
      requires Valid() && initialized && nextchar == "" && ordering == Permute && optind <= argv.Length
      modifies this`firstNonopt, this`lastNonopt, argv
      ensures Grouped(first, old(Outlook(first))) && argv[0] == old(argv[0])
    {
      hide Scan, Outcome, Rotated, NonOption;
      ghost var p := Scan(Cfg(), first, nextchar, argv[optind..]);
      ghost var s := argv[..];
      if firstNonopt != lastNonopt && lastNonopt != optind {
        ExchangeKeeps(s, firstNonopt, lastNonopt, optind, p);
        Exchange();
      } else if lastNonopt != optind {
        NothingSkipped(s, firstNonopt, optind, p);
        firstNonopt := optind;
      }
    }

    /** Skips non-options, leaving them for the end. */
    method SkipNonOptions(ghost first: bool)
      requires Valid() && initialized && nextchar == "" && ordering == Permute && optind <= argv.Length
      modifies this`firstNonopt, this`lastNonopt, this`optind, argv
      ensures Valid() && Outlook(first) == old(Outlook(first)) && argv[0] == old(argv[0])
      ensures lastNonopt == optind && (optind < argv.Length ==> !NonOption(argv[optind]))
    {
      hide NonOption, Scan, Outcome;
      Regroup(first);
      ghost var total := old(Outlook(first));
      while optind < argv.Length && NonOption(argv[optind])
        invariant Grouped(first, total) && argv[0] == old(argv[0])
      {
        SkipOne(Cfg(), first, argv[..], firstNonopt, optind);
        optind := optind + 1;
      }
      lastNonopt := optind;
    }

    /**
     * The run is over: options first, `optind` at the first of the others.  The indices are still in order
     * exactly when nothing is left over, or what is left begins with a non-option that no option may follow.
     */
    ghost predicate Done(total: Parsed)
      reads this, argv
    {
      && 1 <= optind <= argv.Length && 1 <= firstNonopt <= lastNonopt <= argv.Length && total.ending != PastEnd
      && (lastNonopt <= optind || optind == firstNonopt)
      && (lastNonopt <= optind <==> total.rest == [] || total.ending == AtNonOption)
      && total.events == [] && argv[1..optind] == total.opts && argv[optind..] == total.rest
    }

    /** `--` counts as an option and everything after it as a non-option. */
    method StopAtDashes(ghost first: bool)
      requires Valid() && initialized && nextchar == "" && optind < argv.Length && argv[optind] == "--"
      requires ordering == Permute ==> lastNonopt == optind
      modifies this`firstNonopt, this`lastNonopt, this`optind, argv
      ensures Done(old(Outlook(first))) && argv[0] == old(argv[0])
    {
      hide NonOption, Scan, Outcome, Rotated;
      DashesOutcome(Cfg(), first, argv[..], firstNonopt, lastNonopt, optind);
      optind := optind + 1;
      ghost var p := Parsed([], [], argv[optind..], AtDashes);
      if firstNonopt != lastNonopt && lastNonopt != optind {
        ExchangeKeeps(argv[..], firstNonopt, lastNonopt, optind, p);
        Exchange();
      } else if firstNonopt == lastNonopt {
        NothingSkipped(argv[..], firstNonopt, optind, p);
        firstNonopt := optind;
      }
      RestJoins(argv[..], firstNonopt, optind, AtDashes);
      lastNonopt := argv.Length;
      optind := argv.Length;
      if firstNonopt != lastNonopt {
        optind := firstNonopt;
      }
    }

    /** All elements have been seen: back over the skipped non-options. */
    method StopAtEnd(ghost first: bool)
      requires Valid() && initialized && nextchar == "" && optind == argv.Length
      requires ordering == Permute ==> lastNonopt == optind
      modifies this`optind
      ensures Done(old(Outlook(first)))
    {
      hide NonOption, Outcome;
      if firstNonopt != lastNonopt {
        NothingLeft(argv[..], firstNonopt);
        optind := firstNonopt;
      } else {
        NothingSkipped(argv[..], firstNonopt, optind, Parsed([], [], [], AtEnd));
        NothingLeft(argv[..], optind);
      }
    }

    /** A non-option ends the run where options must come first. */
    ghost method StopAtNonOption(first: bool)
      requires Valid() && initialized && nextchar == "" && ordering == RequireOrder
      requires optind < argv.Length && NonOption(argv[optind]) && argv[optind] != "--"
      ensures Done(Outlook(first))
    {
      hide OptionStep, Outcome;
      NothingSkipped(argv[..], firstNonopt, optind, Parsed([], [], argv[optind..], AtNonOption));
      RestJoins(argv[..], optind, optind, AtNonOption);
    }

    /** The state after one option: what `step` says, and nothing else. */
    twostate predicate Took(step: Step, code: int)
      reads this
    {
      && code == step.event.code && optarg == step.event.arg
      && nextchar == step.pending && optind == old(optind) + step.used
    }

    /** The element at `optind` is a long option. */
    method TakeLong(opts: string, name: string) returns (code: int)
      requires optind < argv.Length && |argv[optind]| >= 2 && name == argv[optind][2..]
      modifies this`optind, this`nextchar, this`optarg
      ensures Took(LongStep(Cfg(), opts, old(argv[optind]), old(argv[optind + 1..])), code)
    {
      ghost var after := argv[optind + 1..];
      assert after != [] ==> after[0] == argv[optind + 1];
      optarg := None;
      nextchar := "";
      var (key, value) := SplitAtEquals(name);
      var m := FindLong(longopts, key);
      optind := optind + 1;
      if !m.Found? {
        return '?' as int;
      }
      var o := longopts[m.index];
      if value.Some? {
        if o.kind.NoArgument? {
          return '?' as int;
        }
        optarg := value;
      } else if o.kind.RequiredArgument? {
        if optind < argv.Length {
          optarg := Some(argv[optind]);
          optind := optind + 1;
        } else {
          return Missing(opts);
        }
      }
      return if o.flagged then 0 else o.val;
    }

    /** A `W` that stands for `--` has been read; its text is the rest of the element or the next one. */
    method TakeVendor(opts: string) returns (code: int)
      requires optind <= argv.Length && (nextchar != "" ==> optind < argv.Length) && optarg.None?
      modifies this`optind, this`nextchar, this`optarg
      ensures old(nextchar) == "" && old(optind) == argv.Length ==>
        code == Missing(opts) && optarg.None? && nextchar == "" && optind == old(optind)
      ensures old(optind) < argv.Length ==>
        Took(VendorStep(Cfg(), opts, if old(nextchar) != "" then old(nextchar) else old(argv[optind]), 1, old(argv[optind + 1..])), code)
    {
      hide SplitAtEquals, MatchLong;
      if nextchar != "" {
        optarg := Some(nextchar);
        optind := optind + 1;
      } else if optind == argv.Length {
        return if |opts| > 0 && opts[0] == ':' then ':' as int else '?' as int;
      } else {
        optarg := Some(argv[optind]);
        optind := optind + 1;
      }
      var (key, value) := SplitAtEquals(optarg.value);
      var m := FindLong(longopts, key);
      nextchar := "";
      match m
      case Ambiguous =>
        optind := optind + 1;
        code := '?' as int;
      case NoMatch =>
        code := 'W' as int;
      case Found(i) =>
        var o := longopts[i];
        code := if o.flagged then 0 else o.val;
        if value.Some? {
          if o.kind.NoArgument? {
            return '?' as int;
          }
          optarg := value;
        } else if o.kind.RequiredArgument? {
          if optind == argv.Length {
            return Missing(opts);
          }
          optarg := Some(argv[optind]);
          optind := optind + 1;
        }
    }

    /** `nextchar` points at a short option. */
    method TakeShort(opts: string) returns (code: int)
      requires optind < argv.Length && nextchar != ""
      modifies this`optind, this`nextchar, this`optarg
      ensures Took(ShortStep(Cfg(), opts, old(nextchar), old(argv[optind + 1..])), code)
    {
      hide FirstIndex, VendorStep;
      ghost var after := argv[optind + 1..];
      assert after != [] ==> after[0] == argv[optind + 1] && after[1..] == argv[optind + 2..];
      optarg := None;
      var c := nextchar[0];
      nextchar := nextchar[1..];
      if nextchar == "" {
        optind := optind + 1;
      }
      var temp := FirstIndex(opts, c);
      if temp.None? || c == ':' {
        return '?' as int;
      }
      var i := temp.value;
      if c == 'W' && i + 1 < |opts| && opts[i + 1] == ';' {
        ghost var text := if nextchar != "" then nextchar else if after != [] then after[0] else "";
        UsedShift(Cfg(), opts, text, after);
        code := TakeVendor(opts);
        return;
      }
      code := c as int;
      if i + 1 < |opts| && opts[i + 1] == ':' {
        if i + 2 < |opts| && opts[i + 2] == ':' {
          if nextchar != "" {
            optarg := Some(nextchar);
            optind := optind + 1;
          }
        } else if nextchar != "" {
          optarg := Some(nextchar);
          optind := optind + 1;
        } else if optind == argv.Length {
          code := if |opts| > 0 && opts[0] == ':' then ':' as int else '?' as int;
        } else {
          optarg := Some(argv[optind]);
          optind := optind + 1;
        }
        nextchar := "";
      }
    }

    /** The next option, from wherever the scan stands. */
    method ReadOption(opts: string, ghost first: bool) returns (code: int)
      requires Valid() && initialized && opts == OptString(Cfg(), first) && optind <= argv.Length
      requires nextchar == "" ==> optind < argv.Length && !NonOption(argv[optind])
      modifies this`optind, this`nextchar, this`optarg
      ensures Took(old(OptionStep(Cfg(), first, nextchar, argv[optind..])), code)
    {
      hide LongStep, ShortStep, OptString, OrderingOf;
      ghost var elems := argv[optind..];
      assert elems[0] == argv[optind] && elems[1..] == argv[optind + 1..];
      if nextchar == "" {
        if argv[optind][1] == '-' {
          code := TakeLong(opts, argv[optind][2..]);
          return;
        }
        nextchar := argv[optind][1..];
      }
      code := TakeShort(opts);
    }

    /** The next option, as the first event of the outlook. */
    method TakeOption(opts: string, ghost first: bool) returns (code: int)
      requires Valid() && initialized && opts == OptString(Cfg(), first)
      requires nextchar == "" ==> optind < argv.Length && !NonOption(argv[optind]) && argv[optind] != "--"
      requires ordering == Permute && nextchar == "" ==> lastNonopt == optind
      modifies this`optind, this`nextchar, this`optarg
      ensures Valid() && old(Outlook(first)) == Preceded(Event(code, optarg), Outlook(false))
    {
      hide OptString, OrderingOf, LongStep, ShortStep, Scan, Outcome, Preceded;
      ghost var step := OptionStep(Cfg(), first, nextchar, argv[optind..]);
      TakeOne(Cfg(), first, nextchar, argv[..], firstNonopt, lastNonopt, optind);
      assert step.pending != "" ==> !NonOption(argv[optind]) && argv[optind][1] != '-';
      hide OptionStep;
      code := ReadOption(opts, first);
    }

    /** A non-option handed out in its place. */
    method PassNonOption(ghost first: bool) returns (code: int)
      requires Valid() && initialized && nextchar == "" && ordering == ReturnInOrder
      requires optind < argv.Length && NonOption(argv[optind])
      modifies this`optind, this`optarg
      ensures Valid() && old(Outlook(first)) == Preceded(Event(code, optarg), Outlook(false))
    {
      hide NonOption, OptionStep, Scan, Outcome, Preceded;
      PassOne(Cfg(), first, argv[..], firstNonopt, lastNonopt, optind);
      optarg := Some(argv[optind]);
      optind := optind + 1;
      code := 1;
    }

    /** One call: the next event of the run, or the end of it.  Behind the end there is nothing to call it for. */
    method GetoptLong() returns (r: Answer)
      requires Valid() && (initialized ==> optind <= argv.Length)
      modifies this, argv
      ensures argv[0] == old(argv[0])
      ensures r.Finished? ==> Done(old(Prospect()))
      ensures r.Returned? ==> Valid() && initialized && old(Prospect()) == Preceded(Event(r.code, optarg), Prospect())
    {
      hide NonOption, OptionStep, OptString, OrderingOf, Scan, Outcome, Preceded;
      var opts := optstring;
      ghost var first := !initialized;
      if !initialized {
        opts := Initialize();
      } else {
        LaterOptString(Cfg());
      }
      optarg := None;
      if nextchar == "" {
        if ordering == Permute {
          SkipNonOptions(first);
        }
        if optind != argv.Length && argv[optind] == "--" {
          StopAtDashes(first);
          return Finished;
        }
        if optind == argv.Length {
          StopAtEnd(first);
          return Finished;
        }
        if NonOption(argv[optind]) {
          if ordering == RequireOrder {
            StopAtNonOption(first);
            return Finished;
          }
          var one := PassNonOption(first);
          return Returned(one);
        }
      }
      var code := TakeOption(opts, first);
      return Returned(code);
    }
  }

  /**
   * The loop of a program that calls `getopt_long` until it says -1.  The events are those of the
   * specification, `argv` ends up with all options and their arguments before everything else, each
   * group in its original order, and `optind` marks the border, unless an ambiguous `-W` is the last
   * element: then, and only then, `optind` is moved past the end, where no further call has a meaning.
   */
  method ParseCommandLine(argv: array<string>, optstring: string, longopts: seq<LongOption>, posixlyCorrect: bool)
    returns (events: seq<Event>, optind: nat)
    requires argv.Length >= 1
    modifies argv
    ensures var p := Scan(Config(optstring, longopts, OrderingOf(optstring, posixlyCorrect)), true, "", old(argv[1..]));
      && events == p.events && (optind == argv.Length + 1 <==> p.ending == PastEnd)
      && (p.ending != PastEnd ==> optind == 1 + |p.opts| && argv[..] == [old(argv[0])] + p.opts + p.rest)
  {
    hide Scan, Preceded, OrderingOf;
    var scanner := new Scanner(argv, optstring, longopts, posixlyCorrect);
    ghost var p := scanner.Prospect();
    events := [];
    while scanner.optind <= argv.Length
      invariant fresh(scanner) && scanner.argv == argv && scanner.Valid() && argv[0] == old(argv[0])
      invariant p == AllPreceded(events, scanner.Prospect())
      invariant !scanner.initialized ==> scanner.optind <= argv.Length
      decreases |scanner.Prospect().events|
    {
      ghost var left := scanner.Prospect();
      var answer := scanner.GetoptLong();
      match answer
      case Finished =>
        PrecededDone(events, left);
        ThreeParts(argv[..], scanner.optind);
        return events, scanner.optind;
      case Returned(code) =>
        PrecededOneMore(events, Event(code, scanner.optarg), scanner.Prospect());
        events := events + [Event(code, scanner.optarg)];
    }
    PrecededDone(events, scanner.Prospect());
    return events, scanner.optind;
  }

  /** The shortest run whose last call leaves the indices out of order: one operand. */
  method OrderLost() returns (last: nat, optind: nat)
    ensures optind < last
  {
    hide Outcome;
    var argv := new string[]["tnef", "x"];
    var scanner := new Scanner(argv, "", [], false);
    assert argv[1..] == ["x"];
    assert Scan(scanner.Cfg(), true, "", ["x"]) == Parsed([], [], ["x"], AtEnd);
    var answer := scanner.GetoptLong();
    return scanner.lastNonopt, scanner.optind;
  }

  /** The shortest run that moves `optind` past the end: an ambiguous `-W` in the last place. */
  method RunsPastTheEnd() returns (argc: nat, optind: nat)
    ensures optind == argc + 1
  {
    var argv := new string[]["tnef", "-W", "v"];
    var longopts := [LongOption("verbose", NoArgument, false, 0), LongOption("version", NoArgument, false, 0)];
    AmbiguousLast(longopts);
    assert argv[1..] == ["-W", "v"];
    var events;
    events, optind := ParseCommandLine(argv, "W;", longopts, false);
    argc := argv.Length;
  }

  lemma AmbiguousLast(longopts: seq<LongOption>)
    requires longopts == [LongOption("verbose", NoArgument, false, 0), LongOption("version", NoArgument, false, 0)]
    ensures Scan(Config("W;", longopts, OrderingOf("W;", false)), true, "", ["-W", "v"]).ending == PastEnd
  {
    var cfg := Config("W;", longopts, OrderingOf("W;", false));
    assert MatchLong(longopts, "v") == Ambiguous by {
      assert Abbreviated(longopts, "v", 0) == [];
      assert Abbreviated(longopts, "v", 1) == [0];
      assert |Abbreviated(longopts, "v", 2)| == 2;
      assert ExactFrom(longopts, "v", 2) == None;
      assert ExactFrom(longopts, "v", 1) == None;
    }
    assert SplitAtEquals("v") == ("v", None) by {
      assert FirstIndex("v", '=') == None;
    }
    assert FormOf("W;", 'W') == Vendor;
    hide FormOf, SplitAtEquals, MatchLong;
    assert OptionStep(cfg, true, "", ["-W", "v"]).used == 3;
  }

  lemma ThreeParts(s: seq<string>, k: nat)
    requires 1 <= k <= |s|
    ensures s == [s[0]] + s[1..k] + s[k..]
  {
  }

  /** `p` with more events before it. */
  function AllPreceded(events: seq<Event>, p: Parsed): Parsed {
    p.(events := events + p.events)
  }

  lemma PrecededDone(events: seq<Event>, p: Parsed)
    ensures p.events == [] ==> AllPreceded(events, p).events == events
  {
  }

  lemma PrecededOneMore(events: seq<Event>, e: Event, p: Parsed)
    ensures AllPreceded(events + [e], p) == AllPreceded(events, Preceded(e, p))
    ensures |p.events| < |Preceded(e, p).events|
  {
    assert events + [e] + p.events == events + ([e] + p.events);
  }
}
