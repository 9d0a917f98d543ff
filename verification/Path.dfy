/** File names: percent-escaping, Windows paths, joining, and numbered backups. */
module Path {
  import opened Wrappers
  import opened Bytes

  const SLASH: byte := '/' as int
  const BACKSLASH: byte := '\\' as int
  const PERCENT: byte := '%' as int

  /** Not allowed in file names on Windows. */
  const UNSANITARY: seq<char> := "\\/:*?\"<>|"

  /** Not welcome in file names on Unix. */
  const UNSAVORY: seq<char> := " ;`'[]{}()"

  predicate IsCntrl(b: byte) {
    b < 0x20 || b == 0x7f
  }

  predicate Unsanitary(b: byte) {
    b < 0x80 && b as char in UNSANITARY
  }

  predicate Unsavory(b: byte) {
    b < 0x80 && b as char in UNSAVORY
  }

  // ----- Percent-escaping -----

  /** The characters that are escaped; `unixFs` is the option for Unix file systems. */
  predicate Escaped(b: byte, unixFs: bool) {
    IsCntrl(b) || Unsanitary(b) || (unixFs && (b >= 0x80 || Unsavory(b))) || b == PERCENT
  }

  predicate IsHexDigit(b: byte) {
    '0' as int <= b <= '9' as int || 'A' as int <= b <= 'F' as int
  }

  function HexDigit(n: nat): (b: byte)
    requires n < 16
    ensures IsHexDigit(b) && HexValue(b) == n
  {
    if n < 10 then '0' as int + n else 'A' as int + n - 10
  }

  function HexValue(b: byte): (n: nat)
    requires IsHexDigit(b)
    ensures n < 16
  {
    if b <= '9' as int then b - '0' as int else b - 'A' as int + 10
  }

  function SanitizeByte(b: byte, unixFs: bool): (t: text)
    ensures 1 <= |t| <= 3
  {
    if Escaped(b, unixFs) then [PERCENT, HexDigit(b / 16), HexDigit(b % 16)] else [b]
  }

  function Sanitize(s: text, unixFs: bool): (t: text)
    ensures |s| <= |t| <= 3 * |s|
  {
    if s == [] then [] else SanitizeByte(s[0], unixFs) + Sanitize(s[1..], unixFs)
  }

  /** The characters that are escaped, by their codes: control characters, backslash and eight others, the percent sign. */
  predicate Forbidden(b: byte, unixFs: bool) {
    || b < 0x20 || b == 0x7f || b == 0x25
    || b == 0x5c || b == 0x2f || b == 0x3a || b == 0x2a || b == 0x3f || b == 0x22 || b == 0x3c || b == 0x3e || b == 0x7c
    || (unixFs && (b >= 0x80 || b == 0x20 || b == 0x3b || b == 0x60 || b == 0x27
                   || b == 0x5b || b == 0x5d || b == 0x7b || b == 0x7d || b == 0x28 || b == 0x29))
  }

  lemma InUnsanitary(b: byte)
    ensures Unsanitary(b) <==> b == 0x5c || b == 0x2f || b == 0x3a || b == 0x2a || b == 0x3f || b == 0x22 || b == 0x3c || b == 0x3e || b == 0x7c
  {
    var u := UNSANITARY;
    assert u[0] == '\\' && u[1] == '/' && u[2] == ':' && u[3] == '*' && u[4] == '?' && u[5] == '"' && u[6] == '<' && u[7] == '>' && u[8] == '|';
  }

  lemma InUnsavory(b: byte)
    ensures Unsavory(b) <==> b == 0x20 || b == 0x3b || b == 0x60 || b == 0x27 || b == 0x5b || b == 0x5d || b == 0x7b || b == 0x7d || b == 0x28 || b == 0x29
  {
    var u := UNSAVORY;
    assert u[0] == ' ' && u[1] == ';' && u[2] == '`' && u[3] == '\'' && u[4] == '[' && u[5] == ']' && u[6] == '{' && u[7] == '}' && u[8] == '(' && u[9] == ')';
  }

  lemma EscapedExactly(b: byte, unixFs: bool)
    ensures Escaped(b, unixFs) <==> Forbidden(b, unixFs)
  {
    InUnsanitary(b);
    InUnsavory(b);
    hide Unsanitary, Unsavory;
  }

  const HEX: seq<char> := "0123456789ABCDEF"

  /** One character: a forbidden one becomes a percent sign and its code in hexadecimal, any other stays. */
  lemma SanitizeOne(b: byte, unixFs: bool)
    ensures Sanitize([b], unixFs) == if Forbidden(b, unixFs) then [0x25, HEX[b / 16] as int, HEX[b % 16] as int] else [b]
  {
    EscapedExactly(b, unixFs);
    hide Escaped, Forbidden;
    HexIs(b / 16);
    HexIs(b % 16);
    hide HexDigit;
    assert [b][1..] == [] && SanitizeByte(b, unixFs) + [] == SanitizeByte(b, unixFs);
  }

  lemma HexIs(n: nat)
    requires n < 16
    ensures HexDigit(n) == HEX[n] as int
  {
    assert HEX[0] == '0' && HEX[1] == '1' && HEX[2] == '2' && HEX[3] == '3' && HEX[4] == '4' && HEX[5] == '5' && HEX[6] == '6' && HEX[7] == '7';
    assert HEX[8] == '8' && HEX[9] == '9' && HEX[10] == 'A' && HEX[11] == 'B' && HEX[12] == 'C' && HEX[13] == 'D' && HEX[14] == 'E' && HEX[15] == 'F';
  }

  /** Names are escaped character by character. */
  lemma {:induction false} SanitizeConcat(s: text, t: text, unixFs: bool)
    ensures Sanitize(s + t, unixFs) == Sanitize(s, unixFs) + Sanitize(t, unixFs)
  {
    hide SanitizeByte;
    if s == [] {
      assert s + t == t;
    } else {
      assert (s + t)[1..] == s[1..] + t;
      SanitizeConcat(s[1..], t, unixFs);
    }
  }

  lemma {:induction false} SanitizeOneMore(s: text, b: byte, unixFs: bool)
    ensures Sanitize(s + [b], unixFs) == Sanitize(s, unixFs) + SanitizeByte(b, unixFs)
  {
    if s == [] {
      assert [b][1..] == [] && s + [b] == [b];
      assert SanitizeByte(b, unixFs) + [] == SanitizeByte(b, unixFs);
    } else {
      assert (s + [b])[1..] == s[1..] + [b];
      SanitizeOneMore(s[1..], b, unixFs);
    }
  }

  /** Handles one character: keep it or escape it. */
  method PutByte(buf: array<byte>, bp: nat, c: byte, unixFs: bool) returns (next: nat)
    requires bp + 3 <= buf.Length
    modifies buf
    ensures bp < next <= bp + 3 && buf[..next] == old(buf[..bp]) + SanitizeByte(c, unixFs)
    ensures buf[next..] == old(buf[bp..])[next - bp..]
  {
    hide Escaped;
    if !Escaped(c, unixFs) {
      buf[bp] := c;
      next := bp + 1;
    } else {
      buf[bp] := PERCENT;
      buf[bp + 1] := HexDigit(c / 16);
      buf[bp + 2] := HexDigit(c % 16);
      next := bp + 3;
    }
  }

  /** `sanitize_filename`: a zeroed buffer of three bytes for each of the name and four to spare. */
  method SanitizeFilename(fname: text, unixFs: bool) returns (buf: array<byte>, used: nat)
    ensures fresh(buf) && used < buf.Length
    ensures buf.Length == (if fname == [] then 4 else 3 * |fname| + 4)
    ensures buf[..used] == Sanitize(fname, unixFs) && buf[used..] == Zeros(buf.Length - used)
  {
    hide SanitizeByte, Sanitize;
    if fname == [] {
      return new byte[4](_ => 0), 0;
    }
    buf := new byte[3 * |fname| + 4](_ => 0);
    var bp: nat := 0;
    for cp := 0 to |fname|
      invariant bp <= 3 * cp && buf[..bp] == Sanitize(fname[..cp], unixFs)
      invariant buf[bp..] == Zeros(buf.Length - bp)
    {
      SanitizeOneMore(fname[..cp], fname[cp], unixFs);
      assert fname[..cp + 1] == fname[..cp] + [fname[cp]];
      ghost var tail, was := buf[bp..], bp;
      bp := PutByte(buf, bp, fname[cp], unixFs);
      assert buf[bp..] == tail[bp - was..];
    }
    assert fname[..|fname|] == fname;
    used := bp;
  }

  /** Reads `%XX` as one character and everything else as it stands. */
  function Unescape(t: text): text {
    if t == [] then []
    else if t[0] == PERCENT && |t| >= 3 && IsHexDigit(t[1]) && IsHexDigit(t[2]) then
      [HexValue(t[1]) * 16 + HexValue(t[2])] + Unescape(t[3..])
    else [t[0]] + Unescape(t[1..])
  }

  lemma UnescapeByte(b: byte, unixFs: bool, rest: text)
    ensures Unescape(SanitizeByte(b, unixFs) + rest) == [b] + Unescape(rest)
  {
    var t := SanitizeByte(b, unixFs) + rest;
    assert t[|SanitizeByte(b, unixFs)|..] == rest;
  }

  /** Escaping loses nothing. */
  lemma {:induction false} UnescapeSanitize(s: text, unixFs: bool)
    ensures Unescape(Sanitize(s, unixFs)) == s
  {
    if s != [] {
      UnescapeByte(s[0], unixFs, Sanitize(s[1..], unixFs));
      UnescapeSanitize(s[1..], unixFs);
    }
  }

  /** So different names stay different. */
  lemma SanitizeInjective(s: text, t: text, unixFs: bool)
    requires Sanitize(s, unixFs) == Sanitize(t, unixFs)
    ensures s == t
  {
    UnescapeSanitize(s, unixFs);
    UnescapeSanitize(t, unixFs);
  }

  /** Every `%` starts a `%XX` with two upper-case hexadecimal digits, and no character left needs escaping. */
  predicate Clean(t: text, unixFs: bool) {
    if t == [] then true
    else if t[0] == PERCENT then |t| >= 3 && IsHexDigit(t[1]) && IsHexDigit(t[2]) && Clean(t[3..], unixFs)
    else !Escaped(t[0], unixFs) && Clean(t[1..], unixFs)
  }

  lemma CleanByte(b: byte, unixFs: bool, rest: text)
    requires Clean(rest, unixFs)
    ensures Clean(SanitizeByte(b, unixFs) + rest, unixFs)
  {
    var t := SanitizeByte(b, unixFs) + rest;
    assert t[|SanitizeByte(b, unixFs)|..] == rest;
  }

  lemma {:induction false} SanitizeClean(s: text, unixFs: bool)
    ensures Clean(Sanitize(s, unixFs), unixFs)
  {
    hide Escaped;
    if s != [] {
      SanitizeClean(s[1..], unixFs);
      CleanByte(s[0], unixFs, Sanitize(s[1..], unixFs));
    }
  }

  lemma HexDigitHarmless(b: byte, unixFs: bool)
    requires IsHexDigit(b)
    ensures !Escaped(b, unixFs)
  {
  }

  /** A clean name has no control, forbidden or (on Unix) unwelcome or non-ASCII character anywhere. */
  lemma {:induction false} CleanHarmless(t: text, unixFs: bool)
    requires Clean(t, unixFs)
    ensures forall b :: b in t ==> b == 0x25 || !Forbidden(b, unixFs)
  {
    hide Escaped, Forbidden, IsHexDigit;
    if t == [] {
    } else if t[0] == PERCENT {
      CleanHarmless(t[3..], unixFs);
      HexDigitHarmless(t[1], unixFs);
      HexDigitHarmless(t[2], unixFs);
      EscapedExactly(t[1], unixFs);
      EscapedExactly(t[2], unixFs);
      assert t == [t[0], t[1], t[2]] + t[3..];
    } else {
      CleanHarmless(t[1..], unixFs);
      EscapedExactly(t[0], unixFs);
      assert t == [t[0]] + t[1..];
    }
  }

  lemma SanitizeHasNoSlash(s: text, unixFs: bool)
    ensures SLASH !in Sanitize(s, unixFs)
  {
    SanitizeClean(s, unixFs);
    CleanHarmless(Sanitize(s, unixFs), unixFs);
  }

  // ----- Windows paths -----

  /** The place of the last `c`. */
  function LastIndex(s: text, c: byte): (r: Option<nat>)
    ensures r.Some? ==> r.value < |s| && s[r.value] == c && c !in s[r.value + 1..]
    ensures r.None? ==> c !in s
  {
    if s == [] then None
    else if s[|s| - 1] == c then Some(|s| - 1)
    else
      var r := LastIndex(s[..|s| - 1], c);
      assert s == s[..|s| - 1] + [s[|s| - 1]];
      assert r.Some? ==> s[r.value + 1..] == s[..|s| - 1][r.value + 1..] + [s[|s| - 1]];
      r
  }

  /** A backslash, but not at the end, and no other forbidden or control character. */
  predicate IsWindowsPath(s: text) {
    && BACKSLASH in s && s[|s| - 1] != BACKSLASH
    && (forall b :: b in s && Unsanitary(b) ==> b == BACKSLASH)
    && (forall b :: b in s ==> !IsCntrl(b))
  }

  /** The same by character codes. */
  lemma WindowsPathExactly(s: text)
    ensures IsWindowsPath(s) <==>
      && 0x5c in s && s[|s| - 1] != 0x5c
      && forall b :: b in s ==> b == 0x5c || !Forbidden(b, false) || b == 0x25
  {
    hide IsCntrl, Unsanitary;
    forall b: byte
      ensures b == 0x5c || !Forbidden(b, false) || b == 0x25 <==> (Unsanitary(b) ==> b == BACKSLASH) && !IsCntrl(b)
    {
      CodesOf(b);
    }
  }

  lemma CodesOf(b: byte)
    ensures b == 0x5c || !Forbidden(b, false) || b == 0x25 <==> (Unsanitary(b) ==> b == BACKSLASH) && !IsCntrl(b)
  {
    InUnsanitary(b);
    hide Unsanitary;
  }

  /** `could_be_a_windows_path` on a name that is there. */
  method CouldBeAWindowsPath(fname: text) returns (r: bool)
    ensures r == IsWindowsPath(fname)
  {
    if fname == [] {
      return false;
    }
    var up := LastIndex(fname, BACKSLASH);
    if up.None? || up.value + 1 == |fname| {
      return false;
    }
    for i := 0 to |UNSANITARY|
      invariant forall k :: 0 <= k < i && UNSANITARY[k] != '\\' ==> UNSANITARY[k] as byte !in fname
    {
      if UNSANITARY[i] != '\\' && UNSANITARY[i] as byte in fname {
        return false;
      }
    }
    for i := 0 to |fname|
      invariant forall k :: 0 <= k < i ==> !IsCntrl(fname[k])
    {
      if IsCntrl(fname[i]) {
        return false;
      }
    }
    return true;
  }

  // ----- Joining -----

  function StripSlashes(s: text): (t: text)
    ensures t <= s && (t != [] ==> t[|t| - 1] != SLASH)
    ensures forall k :: |t| <= k < |s| ==> s[k] == SLASH
  {
    if s != [] && s[|s| - 1] == SLASH then StripSlashes(s[..|s| - 1]) else s
  }

  function Join(a: text, b: text): text
    requires a != []
  {
    a + (if a[|a| - 1] != SLASH && (b == [] || b[0] != SLASH) then [SLASH] else []) + b
  }

  /** `concat_fname`; the C code has no answer to an empty first name without a second one. */
  function Concat(fname1: Option<text>, fname2: Option<text>): Option<text>
    requires fname1 == Some([]) ==> fname2.Some?
  {
    if fname1.None? && fname2.None? then None
    else
      var joined :=
        if fname1.None? || fname1.value == [] then fname2.value
        else if fname2.None? then fname1.value
        else Join(fname1.value, fname2.value);
      var t := StripSlashes(joined);
      if t == [] then None else Some(t)
  }

  /** Overwrites trailing slashes with terminators. */
  method StripInPlace(joined: text) returns (t: text)
    ensures t == StripSlashes(joined)
  {
    var filename := new byte[|joined| + 1](i requires 0 <= i <= |joined| => if i < |joined| then joined[i] else 0);
    var len: nat := |joined|;
    assert joined[..len] == joined;
    while len > 0 && filename[len - 1] == SLASH
      invariant len <= |joined| && filename[..len] == joined[..len] && StripSlashes(joined[..len]) == StripSlashes(joined)
    {
      assert joined[..len][..len - 1] == joined[..len - 1];
      filename[len - 1] := 0;
      len := len - 1;
    }
    return filename[..len];
  }

  method ConcatFname(fname1: Option<text>, fname2: Option<text>) returns (r: Option<text>)
    requires fname1 == Some([]) ==> fname2.Some?
    ensures r == Concat(fname1, fname2)
  {
    hide StripSlashes;
    if fname1.None? && fname2.None? {
      return None;
    }
    var joined: text;
    if fname1.None? || fname1.value == [] {
      joined := fname2.value;
    } else if fname2.None? {
      joined := fname1.value;
    } else {
      joined := fname1.value;
      if joined[|joined| - 1] != SLASH && (fname2.value == [] || fname2.value[0] != SLASH) {
        joined := joined + [SLASH];
      } else {
        assert joined == joined + [];
      }
      joined := joined + fname2.value;
    }
    var stripped := StripInPlace(joined);
    return if stripped == [] then None else Some(stripped);
  }

  // ----- From a name in the file to a path -----

  datatype Rules = Rules(usePaths: bool, absoluteOk: bool, unixFs: bool)

  /** Backslashes turned into slashes. */
  function Flipped(s: text): (t: text)
    ensures |t| == |s|
  {
    seq(|s|, i requires 0 <= i < |s| => if s[i] == BACKSLASH then SLASH else s[i])
  }

  /** Only backslashes change. */
  lemma FlippedAt(s: text, i: nat)
    requires i < |s|
    ensures Flipped(s)[i] == if s[i] == 0x5c then 0x2f else s[i]
  {
  }

  function DropSlashes(s: text): (t: text)
    ensures IsSuffix(t, s) && SlashesBefore(t, s) && (t != [] ==> t[0] != SLASH)
  {
    if s != [] && s[0] == SLASH then DropSlashes(s[1..]) else s
  }

  predicate IsSuffix(t: text, s: text) {
    |t| <= |s| && t == s[|s| - |t|..]
  }

  /** What stands before the suffix `t` is nothing but slashes. */
  predicate SlashesBefore(t: text, s: text) {
    forall k :: 0 <= k < |s| - |t| ==> s[k] == SLASH
  }

  /** The directory part of a Windows path, if anything is left of it. */
  function Directory(s: text, absoluteOk: bool): Option<text>
    requires BACKSLASH in s
  {
    var dir := Flipped(s[..LastIndex(s, BACKSLASH).value + 1]);
    if dir[0] == SLASH && !absoluteOk then
      var rest := DropSlashes(dir);
      if rest == [] then None else Some(rest)
    else Some(dir)
  }

  /** `munge_fname`. */
  function Munge(fname: text, o: Rules): Option<text> {
    if fname == [] then None
    else if o.usePaths && IsWindowsPath(fname) then
      Concat(Directory(fname, o.absoluteOk), Some(Sanitize(fname[LastIndex(fname, BACKSLASH).value + 1..], o.unixFs)))
    else Concat(None, Some(Sanitize(fname, o.unixFs)))
  }

  /** Moves past leading slashes. */
  method PassSlashes(dir: text) returns (rest: text)
    ensures rest == DropSlashes(dir)
  {
    hide IsSuffix, SlashesBefore;
    rest := dir;
    while rest != [] && rest[0] == SLASH
      invariant DropSlashes(rest) == DropSlashes(dir)
    {
      rest := rest[1..];
    }
  }

  /** Splits off the directory part, `last` being the place of the last backslash. */
  method TakeDirectory(fname: text, last: nat, absoluteOk: bool) returns (dir: Option<text>)
    requires LastIndex(fname, BACKSLASH) == Some(last)
    ensures dir == Directory(fname, absoluteOk)
  {
    hide LastIndex, Flipped, DropSlashes, IsSuffix, SlashesBefore;
    var flipped := FlipSeparators(fname[..last + 1]);
    if flipped[0] != SLASH || absoluteOk {
      return Some(flipped);
    }
    var rest := PassSlashes(flipped);
    return if rest == [] then None else Some(rest);
  }

  method MungeFname(fname: text, o: Rules) returns (r: Option<text>)
    ensures r == Munge(fname, o)
  {
    hide LastIndex, IsWindowsPath, Sanitize, Directory, Concat;
    if fname == [] {
      return None;
    }
    var dir: Option<text>, base := None, fname;
    if o.usePaths {
      var path := CouldBeAWindowsPath(fname);
      if path {
        WindowsPathHasBackslash(fname);
        var last := LastIndex(fname, BACKSLASH).value;
        dir := TakeDirectory(fname, last, o.absoluteOk);
        base := fname[last + 1..];
      }
    }
    var buf, used := SanitizeFilename(base, o.unixFs);
    r := ConcatFname(dir, Some(buf[..used]));
  }

  lemma WindowsPathHasBackslash(fname: text)
    requires IsWindowsPath(fname)
    ensures BACKSLASH in fname && SLASH !in fname
    ensures LastIndex(fname, BACKSLASH).Some? && LastIndex(fname, BACKSLASH).value + 1 < |fname|
  {
    assert UNSANITARY[1] == '/';
    assert Unsanitary(SLASH);
  }

  method FlipSeparators(s: text) returns (t: text)
    ensures t == Flipped(s)
  {
    var dir := new byte[|s|](i requires 0 <= i < |s| => s[i]);
    for p := 0 to |s|
      invariant dir[..p] == Flipped(s)[..p] && dir[p..] == s[p..]
    {
      if dir[p] == BACKSLASH {
        dir[p] := SLASH;
      }
    }
    return dir[..];
  }

  /** Without paths, or for a name that is no Windows path, the result is the escaped name: one component. */
  lemma MungePlain(fname: text, o: Rules)
    requires fname != [] && !(o.usePaths && IsWindowsPath(fname))
    ensures Munge(fname, o) == Some(Sanitize(fname, o.unixFs)) && SLASH !in Sanitize(fname, o.unixFs)
  {
    hide Sanitize, IsWindowsPath;
    SanitizeHasNoSlash(fname, o.unixFs);
  }

  /**
   * The directory part is what stands before the last backslash with all backslashes flipped; it ends
   * in a slash, and loses its leading slashes, and only those, unless absolute paths are welcome.
   */
  lemma DirectoryShape(fname: text, absoluteOk: bool)
    requires BACKSLASH in fname && SLASH !in fname
    ensures var n, dir := LastIndex(fname, BACKSLASH).value + 1, Directory(fname, absoluteOk).GetOr([]);
      && |dir| <= n && dir == Flipped(fname)[n - |dir|..n]
      && (dir != [] ==> dir[|dir| - 1] == SLASH)
      && (if absoluteOk then |dir| == n else dir == [] || dir[0] != SLASH)
      && (forall k :: 0 <= k < n - |dir| ==> fname[k] == BACKSLASH)
  {
    hide LastIndex, Flipped, DropSlashes, Directory;
    var n := LastIndex(fname, BACKSLASH).value + 1;
    var all, dir := Flipped(fname[..n]), Directory(fname, absoluteOk).GetOr([]);
    FlippedPart(fname, n);
    DirectoryIsDropped(fname, absoluteOk);
    SameEnd(all, dir);
    assert Flipped(fname)[n - |dir|..n] == Flipped(fname)[..n][n - |dir|..];
  }

  /** The directory part is what is left of the flipped text once slashes before it are dropped, or all of it. */
  lemma DirectoryIsDropped(fname: text, absoluteOk: bool)
    requires BACKSLASH in fname
    ensures var all, dir := Flipped(fname[..LastIndex(fname, BACKSLASH).value + 1]), Directory(fname, absoluteOk).GetOr([]);
      IsSuffix(dir, all) && SlashesBefore(dir, all) && (if absoluteOk then |dir| == |all| else dir == [] || dir[0] != SLASH)
  {
    hide LastIndex, Flipped, DropSlashes, IsSuffix, SlashesBefore;
    var all := Flipped(fname[..LastIndex(fname, BACKSLASH).value + 1]);
    WholeIsSuffix(all);
  }

  lemma WholeIsSuffix(s: text)
    ensures IsSuffix(s, s) && SlashesBefore(s, s)
  {
  }

  lemma SameEnd(all: text, rest: text)
    requires IsSuffix(rest, all)
    ensures rest != [] ==> rest[|rest| - 1] == all[|all| - 1]
  {
  }

  lemma FlippedPart(fname: text, n: nat)
    requires 0 < n <= |fname| && fname[n - 1] == BACKSLASH && SLASH !in fname
    ensures Flipped(fname[..n]) == Flipped(fname)[..n] && Flipped(fname)[n - 1] == SLASH
    ensures forall k :: 0 <= k < n && Flipped(fname[..n])[k] == SLASH ==> fname[k] == BACKSLASH
  {
    assert forall k :: 0 <= k < n ==> fname[k] in fname;
  }

  /** A directory part that ends in a slash and a clean name are joined as they are. */
  lemma ConcatDirectory(dir: Option<text>, base: text)
    requires base != [] && SLASH !in base
    requires dir.Some? ==> dir.value != [] && dir.value[|dir.value| - 1] == SLASH
    ensures Concat(dir, Some(base)) == Some(dir.GetOr([]) + base)
  {
    var joined := dir.GetOr([]) + base;
    assert joined[|joined| - 1] == base[|base| - 1] && base[|base| - 1] in base && base[0] in base;
    assert dir.Some? ==> Join(dir.value, base) == joined;
    assert dir.None? ==> joined == base;
    assert StripSlashes(joined) == joined;
  }

  /**
   * For a Windows path the result is the directory part, unescaped, followed by the escaped text after
   * the last backslash, which has no slash in it.  The result starts with a slash only if absolute paths
   * are welcome and the name starts with a backslash.
   */
  lemma MungePath(fname: text, o: Rules)
    requires o.usePaths && IsWindowsPath(fname)
    ensures var n, dir := LastIndex(fname, BACKSLASH).value + 1, Directory(fname, o.absoluteOk).GetOr([]);
      var base := Sanitize(fname[n..], o.unixFs);
      && Munge(fname, o) == Some(dir + base) && SLASH !in base && base != []
      && ((dir + base)[0] == SLASH <==> o.absoluteOk && fname[0] == BACKSLASH)
  {
    hide Sanitize, LastIndex, Directory, Concat, IsWindowsPath;
    WindowsPathHasBackslash(fname);
    DirectoryShape(fname, o.absoluteOk);
    var base := Sanitize(fname[LastIndex(fname, BACKSLASH).value + 1..], o.unixFs);
    SanitizeHasNoSlash(fname[LastIndex(fname, BACKSLASH).value + 1..], o.unixFs);
    DirectoryNotEmpty(fname, o.absoluteOk);
    ConcatDirectory(Directory(fname, o.absoluteOk), base);
  }

  lemma DirectoryNotEmpty(fname: text, absoluteOk: bool)
    requires BACKSLASH in fname
    ensures Directory(fname, absoluteOk) != Some([])
  {
  }

  // ----- Numbered backups -----

  /** A number in decimal, as `%d` prints it. */
  function Decimal(n: nat): (t: text)
    ensures t != []
  {
    if n < 10 then ['0' as int + n] else Decimal(n / 10) + ['0' as int + n % 10]
  }

  lemma {:induction false} DecimalInjective(m: nat, n: nat)
    requires Decimal(m) == Decimal(n)
    ensures m == n
  {
    var s, t := Decimal(m), Decimal(n);
    if m >= 10 && n >= 10 {
      assert s[..|s| - 1] == Decimal(m / 10) && t[..|t| - 1] == Decimal(n / 10);
      assert s[|s| - 1] == t[|t| - 1];
      DecimalInjective(m / 10, n / 10);
    }
  }

  /** The number a text of digits stands for. */
  function NumberOf(t: text): int {
    if t == [] then 0
    else
      var last: int := t[|t| - 1];
      NumberOf(t[..|t| - 1]) * 10 + (last - 0x30)
  }

  predicate AllDigits(t: text) {
    forall k :: 0 <= k < |t| ==> 0x30 <= t[k] <= 0x39
  }

  /** Digits only, no needless zero in front, and read as a number they are the number. */
  lemma {:induction false} DecimalReads(n: nat)
    ensures NumberOf(Decimal(n)) == n && AllDigits(Decimal(n))
    ensures Decimal(n)[0] == 0x30 <==> n == 0
    ensures n == 0 ==> |Decimal(n)| == 1
  {
    var t := Decimal(n);
    if n >= 10 {
      DecimalReads(n / 10);
      assert t[..|t| - 1] == Decimal(n / 10) && t[0] == Decimal(n / 10)[0];
      assert t == Decimal(n / 10) + [t[|t| - 1]];
    } else {
      assert t[..0] == [];
    }
  }

  /** A numbered name is the name, a full stop and the number. */
  lemma NumberedReads(fname: text, n: nat)
    ensures var t := Numbered(fname, n); var k := |fname|;
      && |t| > k + 1 && t[..k] == fname && t[k] == 0x2e && NumberOf(t[k + 1..]) == n
      && AllDigits(t[k + 1..]) && (t[k + 1] == 0x30 <==> n == 0)
  {
    hide Decimal;
    DecimalReads(n);
    assert Numbered(fname, n)[|fname| + 1..] == Decimal(n);
  }

  function Numbered(fname: text, n: nat): text {
    fname + ['.' as int] + Decimal(n)
  }

  lemma NumberedInjective(fname: text, m: nat, n: nat)
    requires Numbered(fname, m) == Numbered(fname, n)
    ensures m == n
  {
    assert Numbered(fname, m)[|fname| + 1..] == Decimal(m);
    assert Numbered(fname, n)[|fname| + 1..] == Decimal(n);
    DecimalInjective(m, n);
  }

  /** The least number from `k` on whose name is free. */
  function FreeFrom(fname: text, existing: set<text>, k: nat): (n: nat)
    ensures k <= n <= k + |existing| && Numbered(fname, n) !in existing
    decreases |existing|
  {
    var t := Numbered(fname, k);
    if t !in existing then k
    else
      var n := FreeFrom(fname, existing - {t}, k + 1);
      assert Numbered(fname, n) != t by {
        if Numbered(fname, n) == t {
          NumberedInjective(fname, n, k);
        }
      }
      n
  }

  lemma {:induction false} FreeIsLeast(fname: text, existing: set<text>, k: nat, j: nat)
    requires k <= j < FreeFrom(fname, existing, k)
    ensures Numbered(fname, j) in existing
    decreases |existing|
  {
    var t := Numbered(fname, k);
    if j != k {
      FreeIsLeast(fname, existing - {t}, k + 1, j);
    }
  }

  function FreeNumber(fname: text, existing: set<text>): (n: nat)
    ensures 1 <= n <= |existing| + 1 && Numbered(fname, n) !in existing
  {
    FreeFrom(fname, existing, 1)
  }

  /** No other number is free with all smaller ones taken. */
  lemma FreeNumberUnique(fname: text, existing: set<text>, n: nat)
    requires 1 <= n && Numbered(fname, n) !in existing
    requires forall k :: 1 <= k < n ==> Numbered(fname, k) in existing
    ensures n == FreeNumber(fname, existing)
  {
    var m := FreeNumber(fname, existing);
    if n < m {
      FreeIsLeast(fname, existing, 1, n);
    }
  }

  /** `find_free_number`: the least number from 1 on whose name is free, found after at most one try per existing file. */
  method FindFreeNumber(fname: text, existing: set<text>) returns (tmp: text, n: nat)
    ensures 1 <= n <= |existing| + 1 && tmp == Numbered(fname, n) && tmp !in existing
    ensures forall k :: 1 <= k < n ==> Numbered(fname, k) in existing
    ensures n == FreeNumber(fname, existing)
    ensures |tmp| + 1 <= NumberedSize(fname) <==> exists k :: 1 <= k <= 99999 && Numbered(fname, k) !in existing
  {
    hide Numbered;
    var counter := 1;
    tmp := Numbered(fname, counter);
    counter := counter + 1;
    while tmp in existing
      invariant counter >= 2 && tmp == Numbered(fname, counter - 1)
      invariant forall k :: 1 <= k < counter - 1 ==> Numbered(fname, k) in existing
      decreases FreeNumber(fname, existing) + 2 - counter
    {
      NotPastFree(fname, existing, counter - 1);
      tmp := Numbered(fname, counter);
      counter := counter + 1;
    }
    n := counter - 1;
    FreeNumberUnique(fname, existing, n);
    NumberFits(fname, n);
  }

  lemma NotPastFree(fname: text, existing: set<text>, n: nat)
    requires 1 <= n && forall k :: 1 <= k <= n ==> Numbered(fname, k) in existing
    ensures n < FreeNumber(fname, existing)
  {
    var m := FreeNumber(fname, existing);
  }

  /** The bytes the program sets aside for a numbered name: five for the number, and a terminator. */
  function NumberedSize(fname: text): nat {
    |fname| + 1 + 5 + 1
  }

  /** Five places are enough exactly up to 99999. */
  lemma NumberFits(fname: text, n: nat)
    ensures |Numbered(fname, n)| + 1 <= NumberedSize(fname) <==> n <= 99999
  {
    DecimalLength(n);
  }

  function FirstNumbered(fname: text, n: nat): set<text> {
    set k | 1 <= k <= n :: Numbered(fname, k)
  }

  /** With the first 99999 names taken, the name found does not fit. */
  lemma NumberOverflows(fname: text)
    ensures var existing := FirstNumbered(fname, 99999);
      FreeNumber(fname, existing) == 100000 && |Numbered(fname, 100000)| + 1 > NumberedSize(fname)
  {
    hide Numbered;
    var existing := FirstNumbered(fname, 99999);
    assert forall k :: 1 <= k < 100000 ==> Numbered(fname, k) in existing;
    if Numbered(fname, 100000) in existing {
      var k :| 1 <= k <= 99999 && Numbered(fname, k) == Numbered(fname, 100000);
      NumberedInjective(fname, k, 100000);
    }
    FreeNumberUnique(fname, existing, 100000);
    NumberFits(fname, 100000);
  }

  lemma {:induction false} DecimalLength(n: nat)
    ensures |Decimal(n)| <= 5 <==> n <= 99999
    ensures |Decimal(n)| <= 4 <==> n <= 9999
    ensures |Decimal(n)| <= 3 <==> n <= 999
    ensures |Decimal(n)| <= 2 <==> n <= 99
    ensures |Decimal(n)| <= 1 <==> n <= 9
  {
    if n >= 10 {
      DecimalLength(n / 10);
    }
  }
}
