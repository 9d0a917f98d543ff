/** Compressed RTF as a list of tokens: what a stream means, and how to write one. */
module Tokens {
  import opened Bytes
  import opened Lz

  datatype Token =
    | Literal(b: byte)
    | Reference(off: nat, len: nat)

  /** A token that can be written after the history `h`: a reference to the write position would be the end marker. */
  predicate ValidToken(h: seq<byte>, t: Token) {
    t.Reference? ==> t.off < RING && 2 <= t.len <= 17 && t.off != |h| % RING
  }

  /** The history after one token. */
  function Apply(h: seq<byte>, t: Token): (r: seq<byte>)
    requires ValidToken(h, t)
    ensures h <= r
  {
    match t
    case Literal(b) => h + [b]
    case Reference(off, len) =>
      DistanceOfOffset(h, off);
      CopyBack(h, Distance(h, off), len)
  }

  predicate Valid(h: seq<byte>, ts: seq<Token>)
    decreases |ts|
  {
    ts == [] || (ValidToken(h, ts[0]) && Valid(Apply(h, ts[0]), ts[1..]))
  }

  /** The history after a list of tokens. */
  function Meaning(h: seq<byte>, ts: seq<Token>): (r: seq<byte>)
    requires Valid(h, ts)
    ensures h <= r
    decreases |ts|
  {
    if ts == [] then h else Meaning(Apply(h, ts[0]), ts[1..])
  }

  // ----- What a text must be to be the meaning -----

  /** The byte `d` places before place `k`; where there is nothing that far back, 0. */
  function Earlier(r: seq<byte>, d: nat, k: nat): byte
    requires k <= |r| && d != 0
  {
    if d <= k then r[k - d] else 0
  }

  /** Each byte of a stretch equals the one `d` places back. */
  predicate Repeats(r: seq<byte>, d: nat, from: nat, end: nat) {
    end <= |r| && d != 0 && forall k :: from <= k < end ==> r[k] == Earlier(r, d, k)
  }

  /**
   * From place `at` on, `r` is what these tokens say: a literal stands where it should, and a reference
   * repeats the text as many places back as its offset lies behind in a window of 4096.
   */
  predicate Spells(r: seq<byte>, ts: seq<Token>, at: nat)
    decreases |ts|
  {
    if ts == [] then at == |r|
    else
      match ts[0]
      case Literal(b) => at < |r| && r[at] == b && Spells(r, ts[1..], at + 1)
      case Reference(off, len) =>
        Repeats(r, (at - off) % 4096, at, at + len) && Spells(r, ts[1..], at + len)
  }

  lemma CopyIsRepeated(h: seq<byte>, d: nat, n: nat)
    requires d != 0
    ensures Repeats(CopyBack(h, d, n), d, |h|, |h| + n)
  {
    var r := CopyBack(h, d, n);
    forall k | |h| <= k < |h| + n
      ensures r[k] == Earlier(r, d, k)
    {
      CopyRepeats(h, d, n, k);
    }
  }

  lemma RepeatsInside(c: seq<byte>, r: seq<byte>, d: nat, from: nat, end: nat)
    requires c <= r && Repeats(c, d, from, end)
    ensures Repeats(r, d, from, end)
  {
    forall k | from <= k < end
      ensures r[k] == Earlier(r, d, k)
    {
      assert r[k] == c[k] == Earlier(c, d, k) == Earlier(r, d, k);
    }
  }

  lemma CopySpells(h: seq<byte>, off: nat, len: nat, r: seq<byte>)
    requires ValidToken(h, Reference(off, len)) && Apply(h, Reference(off, len)) <= r
    ensures |Apply(h, Reference(off, len))| == |h| + len && Repeats(r, (|h| - off) % 4096, |h|, |h| + len)
  {
    hide Repeats;
    DistanceOfOffset(h, off);
    var d := Distance(h, off);
    assert d == (|h| - off) % 4096;
    CopyIsRepeated(h, d, len);
    RepeatsInside(CopyBack(h, d, len), r, d, |h|, |h| + len);
  }

  /** The meaning of a list of tokens says what they say. */
  lemma {:induction false} MeaningSpells(h: seq<byte>, ts: seq<Token>)
    requires Valid(h, ts)
    ensures Spells(Meaning(h, ts), ts, |h|)
    decreases |ts|
  {
    if ts != [] {
      var r, next := Meaning(h, ts), Apply(h, ts[0]);
      MeaningSpells(next, ts[1..]);
      assert next <= r;
      match ts[0]
      case Literal(b) => assert r[|h|] == next[|h|];
      case Reference(off, len) => CopySpells(h, off, len, r);
    }
  }

  /** Two texts that begin alike and agree with the same distance go on alike. */
  lemma {:induction false} SameCopy(r: seq<byte>, q: seq<byte>, d: nat, from: nat, end: nat)
    requires from <= end && Repeats(r, d, from, end) && Repeats(q, d, from, end) && r[..from] == q[..from]
    ensures r[..end] == q[..end]
    decreases end - from
  {
    if from < end {
      assert d <= from ==> r[from - d] == r[..from][from - d] == q[..from][from - d] == q[from - d];
      assert r[from] == Earlier(r, d, from) == Earlier(q, d, from) == q[from];
      assert r[..from + 1] == r[..from] + [r[from]] && q[..from + 1] == q[..from] + [q[from]];
      SameCopy(r, q, d, from + 1, end);
    }
  }

  /** Nothing else does: two texts that begin with `h` and say the same are the same. */
  lemma {:induction false} SpellsOnce(h: seq<byte>, ts: seq<Token>, r: seq<byte>, q: seq<byte>, at: nat)
    requires Valid(h, ts) && at == |h| && at <= |r| && at <= |q| && r[..at] == q[..at]
    requires Spells(r, ts, at) && Spells(q, ts, at)
    ensures r == q
    decreases |ts|
  {
    hide CopyBack, Distance, Earlier;
    if ts == [] {
      assert r == r[..at] && q == q[..at];
    } else {
      var next := Apply(h, ts[0]);
      match ts[0]
      case Literal(b) =>
        assert r[..at + 1] == r[..at] + [r[at]] && q[..at + 1] == q[..at] + [q[at]];
        SpellsOnce(next, ts[1..], r, q, at + 1);
      case Reference(off, len) =>
        CopySpells(h, off, len, next);
        SameCopy(r, q, (at - off) % 4096, at, at + len);
        SpellsOnce(next, ts[1..], r, q, at + len);
    }
  }

  /** The meaning of a list of tokens after `h` is the one text that begins with `h` and says what they say. */
  lemma MeaningIsSpelled(h: seq<byte>, ts: seq<Token>, r: seq<byte>)
    requires Valid(h, ts)
    ensures r == Meaning(h, ts) <==> h <= r && Spells(r, ts, |h|)
  {
    hide Spells, Valid, Meaning;
    MeaningSpells(h, ts);
    if h <= r && Spells(r, ts, |h|) {
      var m := Meaning(h, ts);
      assert h <= m && m[..|h|] == h == r[..|h|];
      SpellsOnce(h, ts, r, m, |h|);
    }
  }

  // ----- Every stream is a list of tokens -----

  /** The tokens a run goes through before it stops. */
  function TokensOf(src: seq<byte>, limit: nat, s: State): (ts: seq<Token>)
    requires s.cin <= |src| && s.bit <= 8 && |s.hist| <= limit
    decreases |src| - s.cin
  {
    if !s.flag.Running? then []
    else
      var t := Step(src, limit, s);
      if !t.flag.Running? then []
      else if s.bit == 8 then TokensOf(src, limit, t)
      else if Bit(s.control, s.bit) then
        [Reference(RefOffset(src[s.cin], src[s.cin + 1]), RefLength(src[s.cin + 1]))] + TokensOf(src, limit, t)
      else [Literal(src[s.cin])] + TokensOf(src, limit, t)
  }

  lemma {:induction false} RunIsMeaning(src: seq<byte>, limit: nat, s: State)
    requires s.cin <= |src| && s.bit <= 8 && |s.hist| <= limit
    ensures Valid(s.hist, TokensOf(src, limit, s))
    ensures Run(src, limit, s).hist == Meaning(s.hist, TokensOf(src, limit, s))
    decreases |src| - s.cin
  {
    if s.flag.Running? {
      var t := Step(src, limit, s);
      FinishStep(src, limit, s);
      if t.flag.Running? {
        RunIsMeaning(src, limit, t);
        if s.bit != 8 {
          if Bit(s.control, s.bit) {
            DistanceOfOffset(s.hist, RefOffset(src[s.cin], src[s.cin + 1]));
          }
          var ts := TokensOf(src, limit, s);
          assert ts[1..] == TokensOf(src, limit, t);
        }
      }
    }
  }

  /** Whatever the input, what is decoded is the meaning of a valid list of tokens read from it. */
  lemma DecodedIsMeaning(pre: seq<byte>, src: seq<byte>, lenu: nat)
    ensures var ts := TokensOf(src, |pre| + lenu, Start(pre));
      Valid(pre, ts) && pre + Decoded(pre, src, lenu) == Meaning(pre, ts)
  {
    hide Run, TokensOf, Valid, Meaning;
    RunIsMeaning(src, |pre| + lenu, Start(pre));
  }

  /** Whatever the input, the text decoded from it says what its tokens say. */
  lemma DecodedSpells(pre: seq<byte>, src: seq<byte>, lenu: nat)
    ensures Spells(pre + Decoded(pre, src, lenu), TokensOf(src, |pre| + lenu, Start(pre)), |pre|)
  {
    hide Spells, Valid, Meaning, TokensOf;
    DecodedIsMeaning(pre, src, lenu);
    MeaningSpells(pre, TokensOf(src, |pre| + lenu, Start(pre)));
  }

  // ----- Writing a stream -----

  function TokenBytes(t: Token): seq<byte>
    requires t.Reference? ==> t.off < RING && 2 <= t.len <= 17
  {
    match t
    case Literal(b) => [b]
    case Reference(off, len) => [off / 16, off % 16 * 16 + (len - 2)]
  }

  predicate Encodable(ts: seq<Token>) {
    forall t :: t in ts && t.Reference? ==> t.off < RING && 2 <= t.len <= 17
  }

  function AllBytes(ts: seq<Token>): seq<byte>
    requires Encodable(ts)
  {
    if ts == [] then [] else TokenBytes(ts[0]) + AllBytes(ts[1..])
  }

  /** Which tokens are references, the first in the least significant bit. */
  function Control(ts: seq<Token>): nat {
    if ts == [] then 0 else 2 * Control(ts[1..]) + (if ts[0].Reference? then 1 else 0)
  }

  /** Eight tokens fit in a byte. */
  lemma ControlFits(ts: seq<Token>)
    ensures |ts| == 0 ==> Control(ts) == 0
    ensures |ts| <= 1 ==> Control(ts) < 2
    ensures |ts| <= 2 ==> Control(ts) < 4
    ensures |ts| <= 3 ==> Control(ts) < 8
    ensures |ts| <= 4 ==> Control(ts) < 16
    ensures |ts| <= 5 ==> Control(ts) < 32
    ensures |ts| <= 6 ==> Control(ts) < 64
    ensures |ts| <= 7 ==> Control(ts) < 128
    ensures |ts| <= 8 ==> Control(ts) < 256
  {
    if ts != [] {
      ControlFits(ts[1..]);
    }
  }

  /** The marker that ends a stream: a reference to the write position. */
  function End(h: seq<byte>): Token {
    Reference(|h| % RING, 2)
  }

  /** Groups of eight tokens, each behind its control byte. */
  function Grouped(ts: seq<Token>): seq<byte>
    requires Encodable(ts)
  {
    ControlFits(ts[..if |ts| <= 8 then |ts| else 8]);
    if |ts| <= 8 then assert ts[..|ts|] == ts; [Control(ts)] + AllBytes(ts)
    else [Control(ts[..8])] + AllBytes(ts[..8]) + Grouped(ts[8..])
  }

  lemma {:induction false} ValidEncodable(h: seq<byte>, ts: seq<Token>)
    requires Valid(h, ts)
    ensures Encodable(ts)
    decreases |ts|
  {
    if ts != [] {
      ValidEncodable(Apply(h, ts[0]), ts[1..]);
      assert ts == [ts[0]] + ts[1..];
    }
  }

  /** The stream that says `ts` after the preload `pre`. */
  function Encode(pre: seq<byte>, ts: seq<Token>): seq<byte>
    requires Valid(pre, ts)
  {
    ValidEncodable(pre, ts);
    Grouped(ts + [End(Meaning(pre, ts))])
  }

  // ----- Reading it back -----

  lemma {:induction false} ControlBit(ts: seq<Token>, i: nat)
    requires i < |ts| <= 8
    ensures Bit(Control(ts), i) == ts[i].Reference?
  {
    assert Control(ts) / 2 == Control(ts[1..]);
    if i != 0 {
      ControlBit(ts[1..], i - 1);
    }
  }

  lemma ReferenceBytes(off: nat, len: nat)
    requires off < RING && 2 <= len <= 17
    ensures var bs := TokenBytes(Reference(off, len));
      RefOffset(bs[0], bs[1]) == off && RefLength(bs[1]) == len
  {
  }

  /** One token, read where it stands. */
  lemma StepToken(src: seq<byte>, limit: nat, s: State, t: Token)
    requires s.flag.Running? && s.cin <= |src| && s.bit < 8 && ValidToken(s.hist, t)
    requires |Apply(s.hist, t)| <= limit && TokenBytes(t) <= src[s.cin..]
    requires Bit(s.control, s.bit) == t.Reference?
    ensures Step(src, limit, s) == State(s.cin + |TokenBytes(t)|, s.control, s.bit + 1, Apply(s.hist, t), Running)
  {
    var bs := TokenBytes(t);
    assert forall k :: 0 <= k < |bs| ==> src[s.cin + k] == src[s.cin..][k] == bs[k];
    if t.Reference? {
      ReferenceBytes(t.off, t.len);
      DistanceOfOffset(s.hist, t.off);
    }
  }

  /** The tokens of one group, from bit `s.bit` of its control byte on. */
  lemma {:induction false} RunTokens(src: seq<byte>, limit: nat, s: State, ts: seq<Token>)
    requires s.flag.Running? && s.cin <= |src| && s.bit + |ts| <= 8 && Valid(s.hist, ts)
    requires |Meaning(s.hist, ts)| <= limit && Encodable(ts) && AllBytes(ts) <= src[s.cin..]
    requires forall k :: 0 <= k < |ts| ==> Bit(s.control, s.bit + k) == ts[k].Reference?
    ensures Finish(src, limit, s) ==
      Finish(src, limit, State(s.cin + |AllBytes(ts)|, s.control, s.bit + |ts|, Meaning(s.hist, ts), Running))
    decreases |ts|
  {
    hide Step, Finish, Bit, Apply, TokenBytes, ValidToken;
    if ts != [] {
      var bs, rest := TokenBytes(ts[0]), AllBytes(ts[1..]);
      assert Bit(s.control, s.bit + 0) == ts[0].Reference?;
      assert src[s.cin..] == bs + src[s.cin + |bs|..];
      StepToken(src, limit, s, ts[0]);
      FinishStep(src, limit, s);
      var next := Step(src, limit, s);
      assert rest == AllBytes(ts)[|bs|..] <= src[next.cin..];
      forall k | 0 <= k < |ts[1..]|
        ensures Bit(next.control, next.bit + k) == ts[1..][k].Reference?
      {
        assert Bit(s.control, s.bit + (k + 1)) == ts[k + 1].Reference?;
      }
      RunTokens(src, limit, next, ts[1..]);
    }
  }

  lemma {:induction false} MeaningConcat(h: seq<byte>, a: seq<Token>, b: seq<Token>)
    requires Valid(h, a + b)
    ensures Valid(h, a) && Valid(Meaning(h, a), b) && Meaning(Meaning(h, a), b) == Meaning(h, a + b)
    decreases |a|
  {
    hide Apply, ValidToken;
    if a == [] {
      assert a + b == b;
    } else {
      assert (a + b)[0] == a[0] && (a + b)[1..] == a[1..] + b;
      MeaningConcat(Apply(h, a[0]), a[1..], b);
    }
  }

  lemma SplitMeaning(h: seq<byte>, ts: seq<Token>, k: nat)
    requires Valid(h, ts) && k <= |ts|
    ensures Valid(h, ts[..k]) && Valid(Meaning(h, ts[..k]), ts[k..])
    ensures Meaning(Meaning(h, ts[..k]), ts[k..]) == Meaning(h, ts)
  {
    hide Valid, Meaning;
    assert ts[..k] + ts[k..] == ts;
    MeaningConcat(h, ts[..k], ts[k..]);
  }

  lemma {:induction false} SplitBytes(ts: seq<Token>, t: Token)
    requires Encodable(ts + [t])
    ensures AllBytes(ts + [t]) == AllBytes(ts) + TokenBytes(t)
  {
    hide TokenBytes;
    if ts == [] {
      assert AllBytes([t]) == TokenBytes(t) + AllBytes([]);
    } else {
      assert (ts + [t])[1..] == ts[1..] + [t];
      SplitBytes(ts[1..], t);
    }
  }

  /** The end marker stops the run where it stands. */
  lemma StepEnd(src: seq<byte>, limit: nat, s: State)
    requires s.flag.Running? && s.cin <= |src| && s.bit < 8 && |s.hist| <= limit
    requires TokenBytes(End(s.hist)) <= src[s.cin..] && Bit(s.control, s.bit)
    ensures Finish(src, limit, s) == (s.hist, Ended)
  {
    hide Finish;
    var bs := TokenBytes(End(s.hist));
    assert src[s.cin] == src[s.cin..][0] == bs[0] && src[s.cin + 1] == src[s.cin..][1] == bs[1];
    ReferenceBytes(|s.hist| % RING, 2);
    DistanceOfOffset(s.hist, |s.hist| % RING);
    FinishStep(src, limit, s);
  }

  /** Fetching the control byte of a group. */
  lemma StepControl(src: seq<byte>, limit: nat, s: State, group: seq<Token>)
    requires s.flag.Running? && s.cin < |src| && s.bit == 8 && |s.hist| <= limit
    requires |group| <= 8 && src[s.cin] == Control(group)
    ensures var t := State(s.cin + 1, src[s.cin], 0, s.hist, Running);
      Finish(src, limit, s) == Finish(src, limit, t)
      && forall k :: 0 <= k < |group| ==> Bit(t.control, t.bit + k) == group[k].Reference?
  {
    hide Finish, Control, Bit;
    FinishFetch(src, limit, s);
    forall k | 0 <= k < |group|
      ensures Bit(src[s.cin], 0 + k) == group[k].Reference?
    {
      ControlBit(group, k);
    }
  }

  /** Where the pieces of the last group lie. */
  lemma LastGroupParts(ts: seq<Token>, t: Token, rest: seq<byte>)
    requires |ts| < 8 && Encodable(ts + [t]) && Grouped(ts + [t]) <= rest
    ensures |rest| > 0 && rest[0] == Control(ts + [t]) && AllBytes(ts) <= rest[1..]
    ensures TokenBytes(t) <= rest[1..][|AllBytes(ts)|..]
  {
    hide Control, TokenBytes;
    ControlFits(ts + [t]);
    SplitBytes(ts, t);
    assert rest[0] == Grouped(ts + [t])[0];
    var bs := AllBytes(ts) + TokenBytes(t);
    assert bs == Grouped(ts + [t])[1..] <= rest[1..];
    assert bs[|AllBytes(ts)|..] == TokenBytes(t);
  }

  /** The last group: its tokens, then the end marker. */
  lemma RunLastGroup(src: seq<byte>, limit: nat, s: State, ts: seq<Token>)
    requires s.flag.Running? && s.cin <= |src| && s.bit == 8 && |ts| < 8
    requires Valid(s.hist, ts) && |Meaning(s.hist, ts)| <= limit && Encodable(ts + [End(Meaning(s.hist, ts))])
    requires Grouped(ts + [End(Meaning(s.hist, ts))]) <= src[s.cin..]
    ensures Finish(src, limit, s) == (Meaning(s.hist, ts), Ended)
  {
    hide Finish, Control, Bit, TokenBytes, Apply, ValidToken, Grouped, AllBytes;
    var h := Meaning(s.hist, ts);
    var group, n := ts + [End(h)], |AllBytes(ts)|;
    LastGroupParts(ts, End(h), src[s.cin..]);
    StepControl(src, limit, s, group);
    var t := State(s.cin + 1, src[s.cin], 0, s.hist, Running);
    assert src[t.cin..] == src[s.cin..][1..];
    forall k | 0 <= k < |ts|
      ensures Bit(t.control, t.bit + k) == ts[k].Reference?
    {
      assert group[k] == ts[k];
    }
    RunTokens(src, limit, t, ts);
    var u := State(t.cin + n, t.control, |ts|, h, Running);
    assert src[u.cin..] == src[t.cin..][n..];
    assert group[|ts|].Reference? && Bit(t.control, t.bit + |ts|);
    StepEnd(src, limit, u);
  }

  /** A run over an encoded list decodes the list and stops at the marker, whatever follows it. */
  lemma {:induction false} RunGroups(src: seq<byte>, limit: nat, s: State, ts: seq<Token>)
    requires s.flag.Running? && s.cin <= |src| && s.bit == 8
    requires Valid(s.hist, ts) && |Meaning(s.hist, ts)| <= limit && Encodable(ts + [End(Meaning(s.hist, ts))])
    requires Grouped(ts + [End(Meaning(s.hist, ts))]) <= src[s.cin..]
    ensures Finish(src, limit, s) == (Meaning(s.hist, ts), Ended)
    decreases |ts|
  {
    hide Finish, Control, Bit, TokenBytes, Apply, ValidToken;
    if |ts| < 8 {
      RunLastGroup(src, limit, s, ts);
    } else {
      var h := Meaning(s.hist, ts);
      var all := ts + [End(h)];
      var group, rest := ts[..8], ts[8..];
      assert all[..8] == group && all[8..] == rest + [End(h)];
      SplitMeaning(s.hist, ts, 8);
      ControlFits(group);
      assert src[s.cin] == src[s.cin..][0] == Grouped(all)[0];
      StepControl(src, limit, s, group);
      var t := State(s.cin + 1, src[s.cin], 0, s.hist, Running);
      assert src[t.cin..] == src[s.cin..][1..];
      assert Grouped(all)[1..] == AllBytes(group) + Grouped(all[8..]);
      RunTokens(src, limit, t, group);
      var u := State(t.cin + |AllBytes(group)|, t.control, 8, Meaning(s.hist, group), Running);
      assert src[u.cin..] == src[t.cin..][|AllBytes(group)|..];
      RunGroups(src, limit, u, rest);
    }
  }

  /**
   * Round trip: what is written as tokens is decoded as their meaning, as long as the output buffer
   * is large enough and whatever follows the end marker.
   */
  lemma RoundTrip(pre: seq<byte>, ts: seq<Token>, after: seq<byte>, lenu: nat)
    requires Valid(pre, ts) && |Meaning(pre, ts)| <= |pre| + lenu
    ensures Decoded(pre, Encode(pre, ts) + after, lenu) == Meaning(pre, ts)[|pre|..]
    ensures Run(Encode(pre, ts) + after, |pre| + lenu, Start(pre)).flag == Ended
  {
    var src := Encode(pre, ts) + after;
    assert src[0..] == src;
    ValidEncodable(pre, ts);
    RunGroups(src, |pre| + lenu, Start(pre), ts);
  }

  function Literals(s: seq<byte>): seq<Token> {
    if s == [] then [] else [Literal(s[0])] + Literals(s[1..])
  }

  lemma MeaningCons(h: seq<byte>, t: Token, ts: seq<Token>)
    requires ValidToken(h, t) && Valid(Apply(h, t), ts)
    ensures Valid(h, [t] + ts) && Meaning(h, [t] + ts) == Meaning(Apply(h, t), ts)
  {
    hide Apply, ValidToken;
    assert ([t] + ts)[1..] == ts;
  }

  lemma OneLiteral(h: seq<byte>, b: byte, ts: seq<Token>)
    requires Valid(h + [b], ts)
    ensures Valid(h, [Literal(b)] + ts) && Meaning(h, [Literal(b)] + ts) == Meaning(h + [b], ts)
  {
    assert Apply(h, Literal(b)) == h + [b];
    hide Apply;
    MeaningCons(h, Literal(b), ts);
  }

  lemma {:induction false} LiteralsMean(h: seq<byte>, s: seq<byte>)
    ensures Valid(h, Literals(s)) && Meaning(h, Literals(s)) == h + s
    decreases |s|
  {
    hide ValidToken, Apply;
    if s == [] {
      assert h + s == h;
    } else {
      hide Valid, Meaning;
      var b, rest := s[0], s[1..];
      LiteralsMean(h + [b], rest);
      OneLiteral(h, b, Literals(rest));
      assert Literals(s) == [Literal(b)] + Literals(rest);
      hide Literals;
      assert h + [b] + rest == h + s;
    }
  }

  /** An encoder that only writes literals loses nothing. */
  lemma LiteralRoundTrip(pre: seq<byte>, s: seq<byte>)
    ensures Valid(pre, Literals(s)) && Decoded(pre, Encode(pre, Literals(s)), |s|) == s
  {
    LiteralsMean(pre, s);
    RoundTrip(pre, Literals(s), [], |s|);
    assert Encode(pre, Literals(s)) + [] == Encode(pre, Literals(s));
  }

  /** Every stream, however damaged or cut short, decodes to the same text as a well-formed one. */
  lemma Normalised(pre: seq<byte>, src: seq<byte>, lenu: nat)
    ensures var ts := TokensOf(src, |pre| + lenu, Start(pre));
      Valid(pre, ts) && Decoded(pre, Encode(pre, ts), lenu) == Decoded(pre, src, lenu)
  {
    hide Encode, Valid, Meaning, TokensOf;
    var ts := TokensOf(src, |pre| + lenu, Start(pre));
    DecodedIsMeaning(pre, src, lenu);
    RoundTrip(pre, ts, [], lenu);
    assert Encode(pre, ts) + [] == Encode(pre, ts);
  }
}
