/**
 * Compressed RTF as an LZ77 decoder over an unbounded history: what [MS-OXRTFCP] describes
 * once the 4096-byte window is seen as "the last 4096 bytes written".
 */
module Lz {
  import opened Bytes

  const RING: nat := 4096

  /** `Running` is an end flag of 0, `Ended` of 1 and `Overrun` of -1. */
  datatype Flag = Running | Ended | Overrun

  /** Decoder state: input position, current control byte, next bit of it (8: spent), history, end flag. */
  datatype State = State(cin: nat, control: byte, bit: nat, hist: seq<byte>, flag: Flag)

  /** Bit `i` of `c`, counted from the least significant one. */
  predicate Bit(c: nat, i: nat) {
    if i == 0 then c % 2 == 1 else Bit(c / 2, i - 1)
  }

  /** The byte written `d` bytes ago; a place never written holds 0. */
  function Lookback(h: seq<byte>, d: nat): byte
    requires 1 <= d
  {
    if d <= |h| then h[|h| - d] else 0
  }

  /** Appends, one at a time, `n` bytes each equal to the byte `d` places before it. */
  function CopyBack(h: seq<byte>, d: nat, n: nat): (r: seq<byte>)
    requires 1 <= d
    ensures |r| == |h| + n && h <= r
    decreases n
  {
    if n == 0 then h else CopyBack(h + [Lookback(h, d)], d, n - 1)
  }

  /** Every byte of a copy is the byte `d` places before it, also where the copy overlaps itself. */
  lemma {:induction false} CopyRepeats(h: seq<byte>, d: nat, n: nat, k: nat)
    requires 1 <= d && |h| <= k < |h| + n
    ensures var r := CopyBack(h, d, n); r[k] == if d <= k then r[k - d] else 0
    decreases n
  {
    var h1 := h + [Lookback(h, d)];
    assert h1 <= CopyBack(h1, d, n - 1) == CopyBack(h, d, n);
    if k > |h| {
      CopyRepeats(h1, d, n - 1, k);
    } else {
      assert CopyBack(h, d, n)[k] == h1[k];
      assert d <= k ==> CopyBack(h, d, n)[k - d] == h1[k - d];
    }
  }

  /** How far back offset `off` of the window lies; 0 stands for the write position itself. */
  function Distance(h: seq<byte>, off: nat): (d: nat)
    ensures d < RING
  {
    (|h| - off) % RING
  }

  /** An offset is the write position exactly when its distance is 0, and distances undo offsets. */
  lemma DistanceOfOffset(h: seq<byte>, off: nat)
    requires off < RING
    ensures Distance(h, off) == 0 <==> off == |h| % RING
    ensures (|h| - Distance(h, off)) % RING == off
  {
    var q := (|h| - off) / RING;
    assert |h| - Distance(h, off) == off + q * RING;
  }

  function RefOffset(b0: byte, b1: byte): (off: nat)
    ensures off < RING
  {
    b0 * 16 + b1 / 16
  }

  function RefLength(b1: byte): (len: nat)
    ensures 2 <= len <= 17
  {
    b1 % 16 + 2
  }

  /** One control byte, one literal, one reference, or the end of the run. */
  function Step(src: seq<byte>, limit: nat, s: State): (t: State)
    requires s.flag.Running? && s.cin <= |src| && s.bit <= 8 && |s.hist| <= limit
    ensures s.cin <= t.cin <= |src| && t.bit <= 8 && |t.hist| <= limit && s.hist <= t.hist
    ensures t.flag.Running? ==> s.cin < t.cin
  {
    if s.bit == 8 then
      if s.cin + 1 > |src| then s.(flag := Overrun)
      else s.(cin := s.cin + 1, control := src[s.cin], bit := 0)
    else if Bit(s.control, s.bit) then
      if s.cin + 2 > |src| then s.(flag := Overrun)
      else
        var d := Distance(s.hist, RefOffset(src[s.cin], src[s.cin + 1]));
        var n := RefLength(src[s.cin + 1]);
        if d == 0 then s.(cin := s.cin + 2, flag := Ended)
        else if |s.hist| + n > limit then s.(cin := s.cin + 2, flag := Overrun)
        else s.(cin := s.cin + 2, bit := s.bit + 1, hist := CopyBack(s.hist, d, n))
    else
      if s.cin + 1 > |src| || |s.hist| + 1 > limit then s.(flag := Overrun)
      else s.(cin := s.cin + 1, bit := s.bit + 1, hist := s.hist + [src[s.cin]])
  }

  /** Steps until the end flag is set. */
  function Run(src: seq<byte>, limit: nat, s: State): (t: State)
    requires s.cin <= |src| && s.bit <= 8 && |s.hist| <= limit
    ensures !t.flag.Running? && t.cin <= |src| && |t.hist| <= limit && s.hist <= t.hist
    decreases |src| - s.cin, if s.flag.Running? then 1 else 0
  {
    if !s.flag.Running? then s else Run(src, limit, Step(src, limit, s))
  }

  /** What is left when the run is over: the history and why it stopped. */
  function Finish(src: seq<byte>, limit: nat, s: State): (seq<byte>, Flag)
    requires s.cin <= |src| && s.bit <= 8 && |s.hist| <= limit
  {
    var t := Run(src, limit, s);
    (t.hist, t.flag)
  }

  /** A step does not change how the run finishes, and a stopped run is finished. */
  lemma FinishStep(src: seq<byte>, limit: nat, s: State)
    requires s.cin <= |src| && s.bit <= 8 && |s.hist| <= limit && s.flag.Running?
    ensures var t := Step(src, limit, s);
      Finish(src, limit, s) == if t.flag.Running? then Finish(src, limit, t) else (t.hist, t.flag)
  {
    var t := Step(src, limit, s);
    assert Run(src, limit, s) == Run(src, limit, t);
  }

  /** Between two groups there is either a control byte or an input overrun. */
  lemma FinishFetch(src: seq<byte>, limit: nat, s: State)
    requires s.cin <= |src| && s.bit == 8 && |s.hist| <= limit && s.flag.Running?
    ensures Finish(src, limit, s) ==
      if s.cin == |src| then (s.hist, Overrun) else Finish(src, limit, State(s.cin + 1, src[s.cin], 0, s.hist, Running))
  {
    hide Finish;
    FinishStep(src, limit, s);
  }

  function Start(pre: seq<byte>): State {
    State(0, 0, 8, pre, Running)
  }

  /** Everything decoded from `src` after the preloaded history `pre`, at most `lenu` bytes. */
  function Decoded(pre: seq<byte>, src: seq<byte>, lenu: nat): (out: seq<byte>)
    ensures |out| <= lenu
  {
    Run(src, |pre| + lenu, Start(pre)).hist[|pre|..]
  }

  /** The output buffer: what was decoded, then zeros. */
  function Padded(out: seq<byte>, lenu: nat): (buf: seq<byte>)
    requires |out| <= lenu
    ensures |buf| == lenu
  {
    out + Zeros(lenu - |out|)
  }

  /** The buffer byte by byte. */
  lemma PaddedAt(out: seq<byte>, lenu: nat, k: nat)
    requires |out| <= lenu && k < lenu
    ensures Padded(out, lenu)[k] == if k < |out| then out[k] else 0
  {
  }

  /** Input that ends inside a token, and a token for which there is no room, add nothing and end the run. */
  lemma StepStops(src: seq<byte>, limit: nat, s: State)
    requires s.flag.Running? && s.cin <= |src| && s.bit <= 8 && |s.hist| <= limit
    requires |src| - s.cin < (if s.bit < 8 && Bit(s.control, s.bit) then 2 else 1)
      || (s.bit < 8 && !Bit(s.control, s.bit) && |s.hist| == limit)
      || (s.bit < 8 && Bit(s.control, s.bit) && |s.hist| + RefLength(src[s.cin + 1]) > limit
          && RefOffset(src[s.cin], src[s.cin + 1]) != |s.hist| % 4096)
    ensures Step(src, limit, s).flag == Overrun && Step(src, limit, s).hist == s.hist
  {
    if s.bit < 8 && |src| - s.cin >= 2 {
      DistanceOfOffset(s.hist, RefOffset(src[s.cin], src[s.cin + 1]));
    }
  }

  // ----- Truncation -----

  /** A run on a shorter input or into a smaller output is a prefix of the longer run. */
  lemma {:induction false} RunMonotone(src: seq<byte>, more: seq<byte>, small: nat, large: nat, s: State)
    requires s.cin <= |src| && s.bit <= 8 && |s.hist| <= small <= large
    ensures Run(src, small, s).hist <= Run(src + more, large, s).hist
    decreases |src| - s.cin, if s.flag.Running? then 1 else 0
  {
    if s.flag.Running? {
      var t := Step(src, small, s);
      if t.flag.Running? {
        assert Step(src + more, large, s) == t;
        RunMonotone(src, more, small, large, t);
      } else {
        assert t.hist == s.hist;
        assert s.hist <= Run(src + more, large, s).hist;
      }
    }
  }

  /** Cutting the input or the output buffer cuts the text; it never changes a byte that is still there. */
  lemma TruncationMonotone(pre: seq<byte>, src: seq<byte>, lenc: nat, lenu: nat, room: nat)
    requires lenc <= |src| && lenu <= room
    ensures Decoded(pre, src[..lenc], lenu) <= Decoded(pre, src, room)
  {
    assert src == src[..lenc] + src[lenc..];
    RunMonotone(src[..lenc], src[lenc..], |pre| + lenu, |pre| + room, Start(pre));
  }
}
