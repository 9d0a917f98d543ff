/** The loops of `decompress_rtf_data`: the decoder the program runs, over a 4096-byte dictionary. */
module Decompress {
  import opened Bytes
  import opened Lz
  import opened Ring

  /** One place further round the ring. */
  lemma NextPlace(a: int)
    ensures (a % RING + 1) % RING == (a + 1) % RING
  {
  }

  /**
   * The two arrays agree with the history decoded so far: `dict` holds its last 4096 bytes,
   * `dest` all of it but the preload, then zeros.
   */
  ghost predicate Agree(dict: seq<byte>, dest: seq<byte>, woff: nat, cout: nat, pre: seq<byte>, h: seq<byte>) {
    && Mirrors(dict, h) && woff == |h| % RING
    && cout <= |dest| && |h| == |pre| + cout && pre + dest == h + Zeros(|dest| - cout)
  }

  /** Stores one decoded byte in both places. */
  method Emit(dict: array<byte>, dest: array<byte>, woff: nat, cout: nat, b: byte, ghost pre: seq<byte>, ghost h: seq<byte>)
    requires dict != dest && cout < dest.Length
    requires Agree(dict[..], dest[..], woff, cout, pre, h)
    modifies dict, dest
    ensures Agree(dict[..], dest[..], (woff + 1) % RING, cout + 1, pre, h + [b])
  {
    MirrorsAfterPush(dict[..], h, b);
    NextPlace(|h|);
    ghost var ring, text := dict[..], dest[..];
    dest[cout] := b;
    dict[woff] := b;
    assert dict[..] == ring[woff := b];
    assert pre + dest[..] == (pre + text)[|h| := b];
  }

  /** A byte of the dictionary is the byte of the history at its distance. */
  lemma ByteBack(dict: seq<byte>, dest: seq<byte>, woff: nat, cout: nat, pre: seq<byte>, h: seq<byte>, d: nat, roff: nat)
    requires Agree(dict, dest, woff, cout, pre, h) && 1 <= d < RING && roff == (|h| - d) % RING
    ensures |dict| == RING && dict[roff] == Lookback(h, d)
  {
    SlotAtDistance(h, d);
  }

  /**
   * Copies `rlen` bytes starting at offset `roff0` of the dictionary, one at a time,
   * both offsets wrapping at 4096.  The regions may overlap.
   */
  method CopyReference(dict: array<byte>, dest: array<byte>, woff0: nat, roff0: nat, rlen: nat, cout0: nat,
                       ghost pre: seq<byte>, ghost h0: seq<byte>, ghost d: nat)
    returns (woff: nat)
    requires dict != dest && cout0 + rlen <= dest.Length
    requires Agree(dict[..], dest[..], woff0, cout0, pre, h0)
    requires 1 <= d < RING && roff0 == (|h0| - d) % RING
    modifies dict, dest
    ensures Agree(dict[..], dest[..], woff, cout0 + rlen, pre, CopyBack(h0, d, rlen))
  {
    hide Agree, Lookback;
    woff := woff0;
    var roff := roff0;
    ghost var h := h0;
    for j := 0 to rlen
      invariant |h| == |h0| + j && CopyBack(h, d, rlen - j) == CopyBack(h0, d, rlen)
      invariant Agree(dict[..], dest[..], woff, cout0 + j, pre, h) && roff == (|h| - d) % RING
    {
      ByteBack(dict[..], dest[..], woff, cout0 + j, pre, h, d, roff);
      NextPlace(|h| - d);
      Emit(dict, dest, woff, cout0 + j, dict[roff], pre, h);
      h := h + [Lookback(h, d)];
      woff, roff := (woff + 1) % RING, (roff + 1) % RING;
    }
  }

  lemma AgreeLengths(dict: seq<byte>, dest: seq<byte>, woff: nat, cout: nat, pre: seq<byte>, h: seq<byte>)
    requires Agree(dict, dest, woff, cout, pre, h)
    ensures woff == |h| % RING && cout <= |dest| && |h| == |pre| + cout
  {
    hide Mirrors;
  }

  /** One token: a dictionary reference if bit `i` of the control byte is set, a literal if not. */
  method ReadToken(src: array<byte>, start: nat, lenc: nat, control: byte, i: nat, cin0: nat,
                   dict: array<byte>, dest: array<byte>, woff0: nat, cout0: nat, ghost pre: seq<byte>, ghost h0: seq<byte>)
    returns (cin: nat, woff: nat, cout: nat, flag: Flag, ghost h: seq<byte>)
    requires start + lenc <= src.Length && src != dict && src != dest && dict != dest && cin0 <= lenc && i < 8
    requires Agree(dict[..], dest[..], woff0, cout0, pre, h0)
    modifies dict, dest
    ensures cin0 <= cin <= lenc && Agree(dict[..], dest[..], woff, cout, pre, h)
    ensures var t := Step(src[start..start + lenc], |pre| + dest.Length, State(cin0, control, i, h0, Running));
      flag == t.flag && h == t.hist && (flag.Running? ==> cin == t.cin)
  {
    hide Agree, Bit, CopyBack, RefOffset, RefLength, Distance;
    cin, woff, cout, flag, h := cin0, woff0, cout0, Running, h0;
    AgreeLengths(dict[..], dest[..], woff, cout, pre, h);
    if Bit(control, i) {
      if cin + 2 > lenc {
        flag := Overrun;
        return;
      }
      var roff := RefOffset(src[start + cin], src[start + cin + 1]);
      var rlen := RefLength(src[start + cin + 1]);
      cin := cin + 2;
      DistanceOfOffset(h, roff);
      if roff == woff {
        flag := Ended;
        return;
      }
      if cout + rlen > dest.Length {
        flag := Overrun;
        return;
      }
      ghost var d := Distance(h, roff);
      woff := CopyReference(dict, dest, woff, roff, rlen, cout, pre, h, d);
      h, cout := CopyBack(h, d, rlen), cout + rlen;
    } else {
      if cin + 1 > lenc || cout + 1 > dest.Length {
        flag := Overrun;
        return;
      }
      Emit(dict, dest, woff, cout, src[start + cin], pre, h);
      h := h + [src[start + cin]];
      woff, cin, cout := (woff + 1) % RING, cin + 1, cout + 1;
    }
  }

  /** The eight tokens of one control byte, or as many as there are before the end flag is set. */
  method ControlRun(src: array<byte>, start: nat, lenc: nat, control: byte, cin0: nat,
                    dict: array<byte>, dest: array<byte>, woff0: nat, cout0: nat, ghost pre: seq<byte>, ghost h0: seq<byte>)
    returns (cin: nat, woff: nat, cout: nat, flag: Flag, ghost h: seq<byte>)
    requires start + lenc <= src.Length && src != dict && src != dest && dict != dest && cin0 <= lenc
    requires Agree(dict[..], dest[..], woff0, cout0, pre, h0)
    modifies dict, dest
    ensures cin0 <= cin <= lenc && Agree(dict[..], dest[..], woff, cout, pre, h)
    ensures Finish(src[start..start + lenc], |pre| + dest.Length, State(cin0, control, 0, h0, Running))
         == if flag.Running? then Finish(src[start..start + lenc], |pre| + dest.Length, State(cin, control, 8, h, Running))
            else (h, flag)
  {
    cin, woff, cout, flag, h := cin0, woff0, cout0, Running, h0;
    ghost var s, limit := src[start..start + lenc], |pre| + dest.Length;
    ghost var final := Finish(s, limit, State(cin, control, 0, h, Running));
    for i := 0 to 8
      invariant cin0 <= cin <= lenc && flag == Running && src[start..start + lenc] == s
      invariant Agree(dict[..], dest[..], woff, cout, pre, h)
      invariant Finish(s, limit, State(cin, control, i, h, Running)) == final
    {
      FinishStep(s, limit, State(cin, control, i, h, Running));
      cin, woff, cout, flag, h := ReadToken(src, start, lenc, control, i, cin, dict, dest, woff, cout, pre, h);
      if flag != Running {
        break;
      }
    }
  }

  /** The dictionary before the first byte: the preload, then zeros. */
  method NewDictionary(prebuf: seq<byte>) returns (dict: array<byte>)
    requires |prebuf| <= RING
    ensures fresh(dict) && Mirrors(dict[..], prebuf)
  {
    dict := new byte[RING](k => 0);
    forall k | 0 <= k < |prebuf| {
      dict[k] := prebuf[k];
    }
    assert dict[..] == prebuf + Zeros(RING - |prebuf|);
    MirrorsInitially(prebuf);
  }

  lemma RunFinishes(src: seq<byte>, limit: nat, s: State)
    requires s.cin <= |src| && s.bit <= 8 && |s.hist| <= limit
    ensures Finish(src, limit, s) == (Run(src, limit, s).hist, Run(src, limit, s).flag)
  {
  }

  /**
   * Decodes `src[start..start + lenc]` into a buffer of `lenu` bytes, with any text preloaded in the
   * dictionary.  The buffer holds what the unbounded-history decoder writes, then zeros.
   */
  method DecompressAfter(prebuf: seq<byte>, src: array<byte>, start: nat, lenc: nat, lenu: nat)
    returns (dest: array<byte>, flag: Flag)
    requires start + lenc <= src.Length && |prebuf| < RING
    ensures fresh(dest) && dest[..] == Padded(Decoded(prebuf, src[start..start + lenc], lenu), lenu)
    ensures flag == Run(src[start..start + lenc], |prebuf| + lenu, Start(prebuf)).flag
  {
    hide Step, Run, Finish, Mirrors;
    ghost var s, limit := src[start..start + lenc], |prebuf| + lenu;
    ghost var final := Finish(s, limit, Start(prebuf));
    var dict := NewDictionary(prebuf);
    dest := new byte[lenu](k => 0);
    assert dest[..] == Zeros(lenu);

    flag := Running;
    var woff: nat, cin: nat, cout: nat := |prebuf|, 0, 0;
    var control: byte := 0;
    ghost var h := prebuf;
    while flag == Running
      invariant cin <= lenc && cout <= lenu && src[start..start + lenc] == s
      invariant Agree(dict[..], dest[..], woff, cout, prebuf, h)
      invariant final == if flag == Running then Finish(s, limit, State(cin, control, 8, h, flag)) else (h, flag)
      decreases lenc - cin, if flag == Running then 1 else 0
    {
      FinishFetch(s, limit, State(cin, control, 8, h, flag));
      if cin + 1 > lenc {
        flag := Overrun;
        break;
      }
      control := src[start + cin];
      cin, woff, cout, flag, h := ControlRun(src, start, lenc, control, cin + 1, dict, dest, woff, cout, prebuf, h);
    }
    assert src[start..start + lenc] == s;
    assert (h, flag) == final && h[|prebuf|..] == Decoded(prebuf, s, lenu) && flag == Run(s, limit, Start(prebuf)).flag by {
      RunFinishes(s, limit, Start(prebuf));
    }
    assert dest[..] == (prebuf + dest[..])[|prebuf|..] == Padded(h[|prebuf|..], lenu);
  }
}
