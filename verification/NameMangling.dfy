/** Device-name mangling of libdm-common.c: characters that udev does not accept in a
    name are written as \xNN. A name is a string of bytes. */
module NameMangling {
  import opened CStrings

  const NAME_LEN := 128

  /** A byte of a C string. */
  type Byte = c: char | 0 < c as int < 256 witness 'a'

  type Name = seq<Byte>

  predicate White(c: char) {
    '0' <= c <= '9' || 'A' <= c <= 'Z' || 'a' <= c <= 'z' || c in "#+-.:=@_"
  }

  function HexDigit(d: nat): (c: Byte)
    requires d < 16
    ensures White(c) && IsHex(c) && HexValue(c) == d
  {
    if d < 10 then '0' + d as char else 'a' + (d - 10) as char
  }

  predicate IsHex(c: char) { '0' <= c <= '9' || 'a' <= c <= 'f' || 'A' <= c <= 'F' }

  function HexValue(c: char): (d: nat)
    requires IsHex(c)
    ensures d < 16
  {
    if c <= '9' then (c - '0') as nat else if c <= 'F' then 10 + (c - 'A') as nat else 10 + (c - 'a') as nat
  }

  /** The mangled form of one character. */
  function Coded(c: Byte): (s: Name)
    ensures |s| == if White(c) then 1 else 4
  {
    if White(c) then [c] else ['\\', 'x', HexDigit(c as int / 16), HexDigit(c as int % 16)]
  }

  function HexMangled(s: Name): Name {
    if s == [] then [] else Coded(s[0]) + HexMangled(s[1..])
  }

  /** The text begins with the mark of a mangled character. */
  predicate Marked(s: string) { |s| >= 2 && s[0] == '\\' && s[1] == 'x' }

  // ---- mangle_string ----

  /** need is the source's need_mangling: -1 not known yet, 0 no, 1 yes. */
  datatype Mangling = Fail | Ok(text: Name, need: int)

  function Prepend(a: Name, m: Mangling): Mangling {
    if m.Fail? then Fail else Ok(a + m.text, m.need)
  }

  function Mangle(s: Name, hex: bool, need: int): Mangling
    decreases |s|
  {
    if s == [] then Ok([], need)
    else if !hex && Marked(s) then
      if |s| < 4 || need == 1 then Fail else Prepend(s[..4], Mangle(s[4..], hex, 0))
    else if White(s[0]) then Prepend([s[0]], Mangle(s[1..], hex, need))
    else if !hex && need == 0 then Fail
    else Prepend(Coded(s[0]), Mangle(s[1..], hex, 1))
  }

  // ---- unmangle_string ----

  datatype Unmangling = Blacklisted | Done(text: string, applied: bool)

  function Before(a: string, applied: bool, u: Unmangling): Unmangling {
    if u.Blacklisted? then u else Done(a + u.text, applied || u.applied)
  }

  /** A sign takes one place of the two that %2x reads. */
  predicate Sign(c: char) { c == '+' || c == '-' }

  /** What scanf("%2x") makes of the next two characters: how it treats white space or
      0x here is outside this model. */
  predicate Scannable(a: char, b: char) {
    a != ' ' && !('\t' <= a <= '\r') && !(a == '0' && (b == 'x' || b == 'X'))
  }

  /** The code read, as an unsigned char; -1 if nothing matches. */
  function ScanHex(a: char, b: char): (code: int)
    ensures -1 <= code < 256
  {
    if IsHex(a) then if IsHex(b) then 16 * HexValue(a) + HexValue(b) else HexValue(a)
    else if Sign(a) && IsHex(b) then if a == '+' then HexValue(b) else (256 - HexValue(b)) % 256
    else -1
  }

  /** Where a code is looked for, what follows can be scanned. */
  predicate Decodable(s: string)
    decreases |s|
  {
    s == [] || (if Marked(s) && |s| >= 4 then Scannable(s[2], s[3]) && Decodable(s[4..]) else Decodable(s[1..]))
  }

  function Unmangle(s: string, strict: bool): Unmangling
    decreases |s|
  {
    if s == [] then Done([], false)
    else if strict && !(White(s[0]) || s[0] == '\\') then Blacklisted
    else if Marked(s) then
      if |s| < 4 || ScanHex(s[2], s[3]) < 0 then Done([], false)
      else Before([ScanHex(s[2], s[3]) as char], true, Unmangle(s[4..], strict))
    else Before([s[0]], false, Unmangle(s[1..], strict))
  }

  // ---- mangling and unmangling undo each other ----

  lemma CodedByte(c: Byte)
    requires !White(c)
    ensures Marked(Coded(c))
    ensures ScanHex(Coded(c)[2], Coded(c)[3]) == c as int
  {
    var n := c as int;
    assert 16 * (n / 16) + n % 16 == n;
  }

  lemma UnmangleCoded(c: Byte, rest: string, strict: bool)
    ensures Unmangle(Coded(c) + rest, strict) == Before([c], !White(c), Unmangle(rest, strict))
  {
    var s := Coded(c) + rest;
    if White(c) {
      assert s[1..] == rest;
    } else {
      CodedByte(c);
      assert s[2] == Coded(c)[2] && s[3] == Coded(c)[3];
      assert s[4..] == rest;
    }
  }

  predicate AllWhite(s: Name) { forall c :: c in s ==> White(c) }

  lemma WhiteCons(s: Name)
    requires s != []
    ensures AllWhite(s) <==> White(s[0]) && AllWhite(s[1..])
  {
    assert s == [s[0]] + s[1..];
    hide White;
  }

  /** Every name unmangles from its hex-mangled form, strictly or not. */
  lemma {:induction false} UnmangleUndoesMangle(s: Name, strict: bool)
    ensures Unmangle(HexMangled(s), strict) == Done(s, !AllWhite(s))
  {
    if s == [] {
      assert HexMangled(s) == [];
    } else {
      hide Coded, Unmangle, AllWhite;
      WhiteCons(s);
      UnmangleUndoesMangle(s[1..], strict);
      UnmangleCoded(s[0], HexMangled(s[1..]), strict);
      assert s == [s[0]] + s[1..];
    }
  }

  /** The mangled form has only whitelisted characters and backslashes. */
  lemma {:induction false} MangledIsWhite(s: Name)
    ensures forall c :: c in HexMangled(s) ==> White(c) || c == '\\'
  {
    if s != [] {
      MangledIsWhite(s[1..]);
      assert forall c :: c in Coded(s[0]) ==> White(c) || c == '\\';
      hide White;
    }
  }

  lemma DecodableCoded(c: Byte, rest: string)
    ensures Decodable(Coded(c) + rest) == Decodable(rest)
  {
    var s := Coded(c) + rest;
    if White(c) {
      assert s[1..] == rest;
    } else {
      CodedByte(c);
      assert s[2] == Coded(c)[2] && s[3] == Coded(c)[3];
      assert s[4..] == rest;
    }
  }

  /** Unmangling can scan every code that mangling writes. */
  lemma {:induction false} MangledIsDecodable(s: Name)
    ensures Decodable(HexMangled(s))
  {
    if s != [] {
      hide Coded, Decodable;
      MangledIsDecodable(s[1..]);
      DecodableCoded(s[0], HexMangled(s[1..]));
    }
  }

  // ---- the text of a name, spelled out ----

  const HEX: Name := ['0', '1', '2', '3', '4', '5', '6', '7', '8', '9', 'a', 'b', 'c', 'd', 'e', 'f']

  /** A letter, a digit, or one of the eight characters that udev accepts besides. */
  predicate Accepted(c: char) {
    || 48 <= c as int <= 57 || 65 <= c as int <= 90 || 97 <= c as int <= 122
    || c == '#' || c == '+' || c == '-' || c == '.' || c == ':' || c == '=' || c == '@' || c == '_'
  }

  function Spelled(s: Name): Name {
    if s == [] then []
    else
      var c := s[0];
      (if Accepted(c) then [c] else ['\\', 'x', HEX[c as int / 16], HEX[c as int % 16]]) + Spelled(s[1..])
  }

  lemma WhiteIsAccepted(c: char)
    ensures White(c) <==> Accepted(c)
  {
  }

  lemma HexDigitIs(d: nat)
    requires d < 16
    ensures HexDigit(d) == HEX[d]
  {
  }

  /** Mangling keeps the accepted characters and writes every other byte as a backslash,
      an x and its two hexadecimal digits. */
  lemma {:induction false} MangledIsSpelled(s: Name)
    ensures HexMangled(s) == Spelled(s)
  {
    if s != [] {
      MangledIsSpelled(s[1..]);
      WhiteIsAccepted(s[0]);
      HexDigitIs(s[0] as int / 16);
      HexDigitIs(s[0] as int % 16);
      hide White, Accepted, HexDigit;
    }
  }

  /** Names of accepted characters stay as they are, in both modes. */
  lemma {:induction false} AcceptedStays(s: Name, hex: bool, need: int)
    requires forall c :: c in s ==> Accepted(c)
    ensures Mangle(s, hex, need) == Ok(s, need)
  {
    if s != [] {
      assert s[0] in s;
      WhiteIsAccepted(s[0]);
      assert s[0] != '\\';
      assert s == [s[0]] + s[1..];
      hide White, Accepted;
      AcceptedStays(s[1..], hex, need);
    }
  }

  /** Upper-case digits count as well. */
  lemma HexDigitsAre(d: nat, c: char)
    requires d < 16
    ensures IsHex(HEX[d]) && HexValue(HEX[d]) == d
    ensures d >= 10 ==> IsHex('A' + (d - 10) as char) && HexValue('A' + (d - 10) as char) == d
    ensures IsHex(c) <==> 48 <= c as int <= 57 || 97 <= c as int <= 102 || 65 <= c as int <= 70
  {
  }

  /** A name without codes stays as it is, except that strict unmangling refuses it if a
      character is neither accepted nor a backslash. */
  lemma {:induction false} StrictRefuses(s: Name, strict: bool)
    requires !HasMark(s)
    ensures Unmangle(s, strict) ==
            if strict && exists c :: c in s && !Accepted(c) && c != '\\' then Blacklisted else Done(s, false)
    decreases |s|
  {
    if s != [] {
      MarkCons(s);
      WhiteIsAccepted(s[0]);
      StrictRefuses(s[1..], strict);
      assert s == [s[0]] + s[1..];
      hide White, Accepted, HasMark;
    }
  }

  // ---- automatic mode ----

  /** Whitelisted characters and four-character codes only. */
  predicate Clean(s: Name)
    decreases |s|
  {
    s == [] || (if Marked(s) then |s| >= 4 && Clean(s[4..]) else White(s[0]) && Clean(s[1..]))
  }

  predicate HasMark(s: Name) {
    exists i :: 0 <= i < |s| - 1 && s[i] == '\\' && s[i + 1] == 'x'
  }

  lemma MarkCons(s: Name)
    requires s != []
    ensures HasMark(s) <==> Marked(s) || HasMark(s[1..])
  {
    if HasMark(s[1..]) {
      var i :| 0 <= i < |s[1..]| - 1 && s[1..][i] == '\\' && s[1..][i + 1] == 'x';
      assert s[i + 1] == '\\' && s[i + 2] == 'x';
    }
    if HasMark(s) && !Marked(s) {
      var i :| 0 <= i < |s| - 1 && s[i] == '\\' && s[i + 1] == 'x';
      assert s[1..][i - 1] == '\\' && s[1..][i] == 'x';
    }
  }

  lemma {:induction false} AutoKnownClean(s: Name)
    ensures Mangle(s, false, 0) == if Clean(s) then Ok(s, 0) else Fail
    decreases |s|
  {
    hide Coded;
    if s != [] {
      if Marked(s) {
        if |s| >= 4 {
          AutoKnownClean(s[4..]);
          assert s == s[..4] + s[4..];
        }
      } else {
        AutoKnownClean(s[1..]);
        assert s == [s[0]] + s[1..];
      }
    }
  }

  lemma {:induction false} AutoKnownDirty(s: Name)
    ensures Mangle(s, false, 1) == if HasMark(s) then Fail else Ok(HexMangled(s), 1)
  {
    if s != [] {
      hide HasMark;
      MarkCons(s);
      AutoKnownDirty(s[1..]);
    }
  }

  /** Before the first character that decides. */
  lemma {:induction false} AutoUnknown(s: Name)
    ensures Mangle(s, false, -1) ==
            if Clean(s) then Ok(s, if AllWhite(s) then -1 else 0)
            else if HasMark(s) then Fail else Ok(HexMangled(s), 1)
    decreases |s|
  {
    hide HasMark, Coded;
    if s != [] {
      MarkCons(s);
      WhiteCons(s);
      assert s == [s[0]] + s[1..];
      if Marked(s) {
        if |s| >= 4 {
          AutoKnownClean(s[4..]);
          assert s == s[..4] + s[4..];
        }
      } else if White(s[0]) {
        AutoUnknown(s[1..]);
        HexCons(s);
      } else {
        AutoKnownDirty(s[1..]);
      }
    }
  }

  lemma HexCons(s: Name)
    requires s != [] && White(s[0])
    ensures HexMangled(s) == [s[0]] + HexMangled(s[1..])
  {
    hide White;
  }

  lemma {:induction false} HexMode(s: Name, need: int)
    ensures Mangle(s, true, need) == Ok(HexMangled(s), if AllWhite(s) then need else 1)
    decreases |s|
  {
    if s != [] {
      WhiteCons(s);
      hide AllWhite;
      HexMode(s[1..], if White(s[0]) then need else 1);
    }
  }

  lemma CleanCoded(c: Byte, rest: Name)
    ensures Clean(Coded(c) + rest) == Clean(rest)
  {
    var s := Coded(c) + rest;
    if White(c) {
      assert s[1..] == rest;
    } else {
      CodedByte(c);
      assert s[4..] == rest;
    }
  }

  lemma {:induction false} MangledIsClean(s: Name)
    ensures Clean(HexMangled(s))
  {
    if s != [] {
      hide Coded, Clean;
      MangledIsClean(s[1..]);
      CleanCoded(s[0], HexMangled(s[1..]));
    }
  }

  /** In automatic mode a name is kept if it is clean, mangled if it carries no mark,
      and refused as a mixture otherwise; mangling the outcome again keeps it. */
  lemma AutoIsIdempotent(s: Name)
    ensures var m := Mangle(s, false, -1);
            && (m.Fail? <==> !Clean(s) && HasMark(s))
            && (m.Ok? ==> m.text == (if Clean(s) then s else HexMangled(s)))
            && (m.Ok? ==> Mangle(m.text, false, -1).Ok? && Mangle(m.text, false, -1).text == m.text)
  {
    hide Mangle, Clean, HasMark, HexMangled, AllWhite;
    AutoUnknown(s);
    MangledIsClean(s);
    AutoUnknown(HexMangled(s));
  }

  // ---- names mangled twice ----

  const TWICE: string := "\\x5cx"

  predicate TwiceAt(t: string, i: nat) { i + 5 <= |t| && t[i..i + 5] == TWICE }

  /** strstr(str, "\x5cx"), with which automatic mode refuses a name. */
  predicate MangledTwice(t: string) { exists i :: 0 <= i < |t| && TwiceAt(t, i) }

  lemma TwiceParts(t: string, i: nat)
    ensures TwiceAt(t, i) <==>
            i + 5 <= |t| && t[i] == '\\' && t[i + 1] == 'x' && t[i + 2] == '5' && t[i + 3] == 'c' && t[i + 4] == 'x'
  {
    if i + 5 <= |t| {
      assert t[i..i + 5] == [t[i], t[i + 1], t[i + 2], t[i + 3], t[i + 4]];
    }
  }

  lemma TwiceSuffix(a: string, t: string, i: nat)
    ensures TwiceAt(a + t, |a| + i) <==> TwiceAt(t, i)
  {
    TwiceParts(a + t, |a| + i);
    TwiceParts(t, i);
  }

  /** A code for the backslash before an x is the only way in which mangling one more
      character makes the pattern. */
  lemma TwiceCons(c: Byte, t: string)
    ensures MangledTwice(Coded(c) + t) <==> MangledTwice(t) || (c == '\\' && t != [] && t[0] == 'x')
  {
    var a := Coded(c);
    if MangledTwice(t) {
      var i :| 0 <= i < |t| && TwiceAt(t, i);
      TwiceSuffix(a, t, i);
      assert TwiceAt(a + t, |a| + i);
    }
    TwiceFirst(c, t);
    if MangledTwice(a + t) {
      var i :| 0 <= i < |a + t| && TwiceAt(a + t, i);
      TwiceParts(a + t, i);
      if i >= |a| {
        TwiceSuffix(a, t, i - |a|);
        assert TwiceAt(t, i - |a|);
      }
    }
  }

  lemma TwiceFirst(c: Byte, t: string)
    ensures TwiceAt(Coded(c) + t, 0) <==> c == '\\' && t != [] && t[0] == 'x'
  {
    TwiceParts(Coded(c) + t, 0);
    if !White(c) {
      CodedByte(c);
      assert Coded('\\') == "\\x5c";
    }
  }

  lemma FirstX(s: Name)
    ensures HexMangled(s) != [] && HexMangled(s)[0] == 'x' <==> s != [] && s[0] == 'x'
  {
    if s != [] && !White(s[0]) {
      CodedByte(s[0]);
    }
  }

  /** Mangling a name that is mangled already is what the pattern detects, no more and
      no less. */
  lemma {:induction false} TwiceIsDetected(s: Name)
    ensures MangledTwice(HexMangled(s)) <==> HasMark(s)
  {
    if s != [] {
      hide MangledTwice, HasMark, Coded;
      TwiceIsDetected(s[1..]);
      MarkCons(s);
      TwiceCons(s[0], HexMangled(s[1..]));
      FirstX(s[1..]);
    }
  }

  // ---- the two methods ----

  datatype Mode = ModeNone | ModeAuto | ModeHex

  /** The buffer begins with s. */
  ghost predicate Begins(buf: array<char>, s: string)
    reads buf
  {
    |s| <= buf.Length && forall k :: 0 <= k < |s| ==> buf[k] == s[k]
  }

  method Put(buf: array<char>, j: nat, piece: string, ghost done: string)
    requires Begins(buf, done) && j == |done| && j + |piece| <= buf.Length
    modifies buf
    ensures Begins(buf, done + piece)
  {
    for i := 0 to |piece|
      invariant Begins(buf, done + piece[..i])
    {
      buf[j + i] := piece[i];
      assert done + piece[..i + 1] == done + piece[..i] + [piece[i]];
    }
    assert piece[..|piece|] == piece;
  }

  lemma PrependTwice(a: Name, b: Name, m: Mangling)
    ensures Prepend(a, Prepend(b, m)) == Prepend(a + b, m)
    ensures Prepend(a, Prepend(b, m)).Ok? ==> |Prepend(a, Prepend(b, m)).text| >= |a| + |b|
  {
    if m.Ok? {
      assert a + (b + m.text) == a + b + m.text;
    }
  }

  /** One turn of the loop: what it appends, how far it reads, and the new need. */
  datatype Turn = Mixed | Turn(piece: Name, read: nat, need: int)

  function TurnOf(s: Name, hex: bool, need: int): (t: Turn)
    requires s != []
    ensures t.Turn? ==> 0 < t.read <= |s|
  {
    if !hex && Marked(s) then if |s| < 4 || need == 1 then Mixed else Turn(s[..4], 4, 0)
    else if White(s[0]) then Turn([s[0]], 1, need)
    else if !hex && need == 0 then Mixed
    else Turn(Coded(s[0]), 1, 1)
  }

  lemma MangleTurn(s: Name, hex: bool, need: int)
    requires s != []
    ensures var t := TurnOf(s, hex, need);
            Mangle(s, hex, need) == if t.Mixed? then Fail else Prepend(t.piece, Mangle(s[t.read..], hex, t.need))
  {
  }

  /** The body of the loop of mangle_string, at s = &str[i]. */
  method MangleOne(s: Name, hex: bool, need: int, buf: array<char>, j: nat, ghost done: Name)
    returns (ok: bool, read: nat, put: nat, now: int)
    requires s != [] && Begins(buf, done) && j == |done|
    modifies buf
    ensures var t := TurnOf(s, hex, need);
            ok == (t.Turn? && j + |t.piece| <= buf.Length)
    ensures var t := TurnOf(s, hex, need);
            ok ==> read == t.read && put == |t.piece| && now == t.need && Begins(buf, done + t.piece)
  {
    if !hex && |s| >= 2 && s[0] == '\\' && s[1] == 'x' {
      if |s| < 4 || need == 1 {
        return false, 0, 0, need;
      }
      if buf.Length - j < 4 {
        return false, 0, 0, need;
      }
      Put(buf, j, s[..4], done);
      return true, 4, 4, 0;
    }
    if White(s[0]) {
      if buf.Length - j < 1 {
        return false, 0, 0, need;
      }
      Put(buf, j, [s[0]], done);
      return true, 1, 1, need;
    } else {
      if !hex && need == 0 {
        return false, 0, 0, need;
      }
      if buf.Length - j < 4 {
        return false, 0, 0, need;
      }
      Put(buf, j, Coded(s[0]), done);
      return true, 1, 4, 1;
    }
  }

  /** mangle_string. */
  method MangleString(str: Name, buf: array<char>, mode: Mode) returns (r: int)
    modifies buf
    ensures str == [] ==> r == 0
    ensures str != [] && buf.Length < NAME_LEN ==> r == -1
    ensures var m := Mangle(str, mode == ModeHex, -1);
            str != [] && buf.Length >= NAME_LEN ==>
              if m.Fail? || |m.text| >= buf.Length then r == -1
              else r == (if m.need == 1 then 1 else 0) && Holds(buf, 0, m.text)
  {
    if str == [] {
      return 0;
    }
    if buf.Length < NAME_LEN {
      return -1;
    }
    hide *;
    r := MangleLoop(str, buf, mode == ModeHex);
  }

  /** What is left to do at index i, given what has been written. */
  ghost predicate Pending(str: Name, hex: bool, i: nat, need: int, done: Name) {
    i <= |str| && Mangle(str, hex, -1) == Prepend(done, Mangle(str[i..], hex, need))
  }

  lemma PendingStart(str: Name, hex: bool)
    ensures Pending(str, hex, 0, -1, [])
  {
    assert str[0..] == str;
    PrependNothing(Mangle(str, hex, -1));
  }

  lemma PendingTurn(str: Name, hex: bool, i: nat, need: int, done: Name)
    requires Pending(str, hex, i, need, done) && i < |str| && -1 <= need <= 1
    ensures var t, m := TurnOf(str[i..], hex, need), Mangle(str, hex, -1);
            if t.Mixed? then m.Fail?
            else
              && i + t.read <= |str| && -1 <= t.need <= 1
              && Pending(str, hex, i + t.read, t.need, done + t.piece)
              && (m.Ok? ==> |m.text| >= |done| + |t.piece|)
  {
    var s := str[i..];
    var t := TurnOf(s, hex, need);
    MangleTurn(s, hex, need);
    TurnNeed(s, hex, need);
    hide TurnOf, Mangle;
    if t.Turn? {
      PrependTwice(done, t.piece, Mangle(s[t.read..], hex, t.need));
      assert s[t.read..] == str[i + t.read..];
    }
  }

  lemma PendingEnd(str: Name, hex: bool, need: int, done: Name)
    requires Pending(str, hex, |str|, need, done)
    ensures Mangle(str, hex, -1) == Ok(done, need)
  {
    assert str[|str|..] == [] && done + [] == done;
  }

  method MangleLoop(str: Name, buf: array<char>, hex: bool) returns (r: int)
    requires buf.Length >= NAME_LEN
    modifies buf
    ensures var m := Mangle(str, hex, -1);
            if m.Fail? || |m.text| >= buf.Length then r == -1
            else r == (if m.need == 1 then 1 else 0) && Holds(buf, 0, m.text)
  {
    hide TurnOf, Mangle, Pending, Prepend, Begins;
    var i, j, need := 0, 0, -1;
    ghost var done: Name := [];
    PendingStart(str, hex);
    assert Begins(buf, done) by { BeginsNothing(buf); }
    while i < |str|
      invariant 0 <= i <= |str| && j == |done| && -1 <= need <= 1
      invariant Begins(buf, done) && Pending(str, hex, i, need, done)
    {
      PendingTurn(str, hex, i, need, done);
      ghost var t := TurnOf(str[i..], hex, need);
      var ok, read, put, now := MangleOne(str[i..], hex, need, buf, j, done);
      if !ok {
        return -1;
      }
      done := done + t.piece;
      i, j, need := i + read, j + put, now;
    }
    PendingEnd(str, hex, need, done);
    if buf.Length <= j {
      return -1;
    }
    Terminate(buf, j, done);
    r := if need == -1 then 0 else need;
  }

  lemma BeginsNothing(buf: array<char>)
    ensures Begins(buf, "")
  {
  }

  method Terminate(buf: array<char>, j: nat, ghost done: Name)
    requires Begins(buf, done) && j == |done| < buf.Length
    modifies buf
    ensures Holds(buf, 0, done)
  {
    buf[j] := NUL;
    assert forall k :: 0 <= k < |done| ==> done[k] != NUL;
  }

  lemma PrependNothing(m: Mangling)
    ensures Prepend([], m) == m
  {
    assert m.Ok? ==> [] + m.text == m.text;
  }

  lemma TurnNeed(s: Name, hex: bool, need: int)
    requires s != [] && -1 <= need <= 1
    ensures TurnOf(s, hex, need).Turn? ==> -1 <= TurnOf(s, hex, need).need <= 1
  {
  }

  lemma BeforeTwice(a: string, p: bool, b: string, q: bool, u: Unmangling)
    ensures Before(a, p, Before(b, q, u)) == Before(a + b, p || q, u)
  {
    if u.Done? {
      assert a + (b + u.text) == a + b + u.text;
    }
  }

  /** unmangle_string. */
  method UnmangleString(str: Name, buf: array<char>, mode: Mode) returns (r: int)
    requires Decodable(str) && |str| < buf.Length
    modifies buf
    ensures str == [] ==> r == 0
    ensures str != [] && buf.Length < NAME_LEN ==> r == -1
    ensures var u := Unmangle(str, mode != ModeNone);
            str != [] && buf.Length >= NAME_LEN ==>
              if u.Blacklisted? then r == -1 && buf[0] == NUL
              else r == (if u.applied then 1 else 0) && |u.text| <= |str| && Begins(buf, u.text) && buf[|u.text|] == NUL
  {
    if str == [] {
      return 0;
    }
    if buf.Length < NAME_LEN {
      return -1;
    }
    hide *;
    r := UnmangleLoop(str, buf, mode != ModeNone);
  }

  /** What is left to decode at index i, given what has been written. */
  ghost predicate Undecoded(str: Name, strict: bool, i: nat, applied: bool, done: string) {
    i <= |str| && Unmangle(str, strict) == Before(done, applied, Unmangle(str[i..], strict))
  }

  lemma UndecodedStart(str: Name, strict: bool)
    ensures Undecoded(str, strict, 0, false, "")
  {
    assert str[0..] == str;
    BeforeNothing(Unmangle(str, strict));
  }

  /** One turn of the loop: a refused character, a broken code, a code or a plain character. */
  lemma UndecodedTurn(str: Name, strict: bool, i: nat, applied: bool, done: string)
    requires Undecoded(str, strict, i, applied, done) && i < |str|
    ensures var s := str[i..];
            if strict && !(White(s[0]) || s[0] == '\\') then Unmangle(str, strict) == Blacklisted
            else if Marked(s) then
              if |s| < 4 || ScanHex(s[2], s[3]) < 0 then Unmangle(str, strict) == Done(done, applied)
              else Undecoded(str, strict, i + 4, true, done + [ScanHex(s[2], s[3]) as char])
            else Undecoded(str, strict, i + 1, applied, done + [s[0]])
  {
    var s := str[i..];
    if !(strict && !(White(s[0]) || s[0] == '\\')) {
      if !Marked(s) {
        BeforeTwice(done, applied, [s[0]], false, Unmangle(s[1..], strict));
        assert s[1..] == str[i + 1..];
      } else if |s| < 4 || ScanHex(s[2], s[3]) < 0 {
        assert done + [] == done;
      } else {
        BeforeTwice(done, applied, [ScanHex(s[2], s[3]) as char], true, Unmangle(s[4..], strict));
        assert s[4..] == str[i + 4..];
      }
    }
  }

  lemma UndecodedEnd(str: Name, strict: bool, applied: bool, done: string)
    requires Undecoded(str, strict, |str|, applied, done)
    ensures Unmangle(str, strict) == Done(done, applied)
  {
    assert str[|str|..] == [] && done + [] == done;
  }

  method UnmangleLoop(str: Name, buf: array<char>, strict: bool) returns (r: int)
    requires Decodable(str) && |str| < buf.Length
    modifies buf
    ensures var u := Unmangle(str, strict);
            if u.Blacklisted? then r == -1 && buf[0] == NUL
            else r == (if u.applied then 1 else 0) && |u.text| <= |str| && Begins(buf, u.text) && buf[|u.text|] == NUL
  {
    hide Unmangle, Undecoded, Before, Decodable;
    var i, j := 0, 0;
    r := 0;
    ghost var done: string := [];
    UndecodedStart(str, strict);
    while i < |str|
      invariant 0 <= i <= |str| && j == |done| <= i && (r == 0 || r == 1)
      invariant Begins(buf, done) && Undecoded(str, strict, i, r == 1, done)
    {
      UndecodedTurn(str, strict, i, r == 1, done);
      var c := str[i];
      if strict && !(White(c) || c == '\\') {
        buf[0] := NUL;
        return -1;
      }
      if c == '\\' && i + 1 < |str| && str[i + 1] == 'x' {
        if |str| - i < 4 || ScanHex(str[i + 2], str[i + 3]) < 0 {
          buf[j] := NUL;
          return;
        }
        c := ScanHex(str[i + 2], str[i + 3]) as char;
        i := i + 3;
        r := 1;
      }
      buf[j] := c;
      done := done + [c];
      i, j := i + 1, j + 1;
    }
    UndecodedEnd(str, strict, r == 1, done);
    buf[j] := NUL;
  }

  lemma BeforeNothing(u: Unmangling)
    ensures Before([], false, u) == u
  {
    assert u.Done? ==> [] + u.text == u.text;
  }
}
