/** Texts that the printer does not write: what the other forms of values, keys and paths
    are parsed to. */
module ConfigForms {
  import opened Options
  import opened CStrings
  import opened ConfigTree
  import opened ConfigLexer
  import opened ConfigParser
  import opened ConfigWriter
  import opened ConfigTokens
  import opened ConfigRoundTrip
  import opened StringQuoting

  // ---- single quotes ----

  function SingleQuotes(s: string): string { "'" + s + "'" }

  lemma {:induction false} SingleText(s: string, r: string)
    requires '\'' !in s && NUL !in s
    ensures SingleLen(s + ("'" + r)) == |s| + 1
  {
    if s == [] {
      assert s + ("'" + r) == "'" + r;
    } else {
      assert s[0] in s;
      assert (s + ("'" + r))[1..] == s[1..] + ("'" + r);
      SingleText(s[1..], r);
    }
  }

  lemma SingleToken(s: string, r: string, values: bool)
    requires '\'' !in s && NUL !in s
    ensures NextToken(SingleQuotes(s) + r, values) == Token(TokString, SingleQuotes(s), r)
  {
    var text := SingleQuotes(s) + r;
    SingleText(s, r);
    hide SingleLen, NextToken;
    assert text[1..] == s + ("'" + r);
    TokenHere(text, values);
    assert text[..|SingleQuotes(s)|] == SingleQuotes(s) && text[|SingleQuotes(s)|..] == r;
  }

  lemma QuotesOff(s: string)
    ensures |SingleQuotes(s)| >= 2 && Inner(SingleQuotes(s)) == s
  {
  }

  /** Single quotes enclose a string as it is, as a value and as a key. */
  lemma SingleQuotesAreVerbatim(s: string, r: string, key: string)
    requires '\'' !in s && NUL !in s
    ensures ParseType(NextToken(SingleQuotes(s) + r, true), key) == Ok(Str(s, Plain), NextToken(r, false))
    ensures ParseKey(NextToken(SingleQuotes(s) + r, false)) == if s == [] then Fail else Ok(s, NextToken(r, false))
  {
    hide NextToken, SingleQuotes;
    SingleToken(s, r, true);
    SingleToken(s, r, false);
    QuotesOff(s);
  }

  // ---- bare words ----

  /** The characters that end a word without quotes. */
  predicate EndsWord(c: char) {
    c == NUL || c == ' ' || 9 <= c as int <= 13 || c == '#' || c == '=' || c == '{' || c == '}'
  }

  /** A value without quotes: it does not start like another token. */
  predicate Word(w: string) {
    && w != [] && (forall c :: c in w ==> !EndsWord(c))
    && w[0] !in "[],\"'" && !('0' <= w[0] <= '9') && w[0] !in "+-."
  }

  lemma {:induction false} WordText(s: string, r: string)
    requires (forall c :: c in s ==> !EndsWord(c)) && (r == [] || EndsWord(r[0]))
    ensures IdentifierLen(s + r) == |s|
  {
    if s == [] {
      assert s + r == r;
    } else {
      assert s[0] in s;
      assert (s + r)[1..] == s[1..] + r;
      WordText(s[1..], r);
    }
  }

  lemma WordToken(w: string, r: string)
    requires Word(w) && (r == [] || EndsWord(r[0]))
    ensures NextToken(w + r, true) == Token(TokStringBare, w, r)
  {
    var text := w + r;
    assert w[0] in w && text[0] == w[0];
    WordText(w[1..], r);
    assert text[1..] == w[1..] + r;
    WordKind(text, w[0]);
    hide IdentifierLen, NextToken, Word, Classify;
    TokenHere(text, true);
    assert text[..|w|] == w && text[|w|..] == r;
  }

  lemma WordKind(text: string, c: char)
    requires text != [] && text[0] == c && !EndsWord(c) && c !in "[],\"'" && !('0' <= c <= '9') && c !in "+-."
    ensures Classify(text, true) == Kind(TokStringBare, 1 + IdentifierLen(text[1..]))
  {
    hide IdentifierLen, QuotedLen, SingleLen, NumberLen;
  }

  /** A word without quotes is a string value that goes up to white space, a comment, an
      equals sign or a brace; commas and brackets belong to it. */
  lemma BareWord(w: string, r: string, key: string)
    requires Word(w) && (r == [] || EndsWord(r[0]))
    ensures ParseType(NextToken(w + r, true), key) == Ok(Str(w, Plain), NextToken(r, false))
  {
    WordToken(w, r);
    hide NextToken, EndsWord;
  }

  lemma {:induction false} PlainEscape(s: string)
    requires '"' !in s && '\\' !in s
    ensures Escape(s) == s
  {
    if s != [] {
      assert s[0] in s;
      PlainEscape(s[1..]);
    }
  }

  /** A string that is printed without quotes is read back if it is such a word. */
  lemma UnquotedString(s: string, f: Format, r: string, key: string)
    requires f.typed && Word(s) && '"' !in s && '\\' !in s && (r == [] || EndsWord(r[0]))
    ensures ParseType(NextToken(WriteValue(Str(s, f)) + r, true), key) == Ok(Str(s, Plain), NextToken(r, false))
  {
    PlainEscape(s);
    hide Escape, NextToken, ParseType, Word, EndsWord;
    BareWord(s, r, key);
  }

  // ---- numbers ----

  const HEX := "0123456789abcdef"

  function HexText(n: nat): (s: string)
    ensures s != []
  {
    if n < 16 then [HEX[n]] else HexText(n / 16) + [HEX[n % 16]]
  }

  lemma HexDigit(d: nat)
    requires d < 16
    ensures DigitValue(HEX[d]) == d
  {
    assert d < 10 ==> HEX[d] == '0' + d as char;
    assert d >= 10 ==> HEX[d] == 'a' + (d - 10) as char;
  }

  lemma HexSnoc(s: string, d: nat)
    requires d < 16
    ensures ValueOf(s + [HEX[d]], 16) == ValueOf(s, 16) * 16 + d
  {
    HexDigit(d);
    assert (s + [HEX[d]])[..|s|] == s;
  }

  lemma {:induction false} HexValue(n: nat)
    ensures ValueOf(HexText(n), 16) == n && forall c :: c in HexText(n) ==> DigitValue(c) < 16
  {
    if n < 16 {
      HexDigit(n);
      HexSnoc([], n);
      assert [] + [HEX[n]] == [HEX[n]];
    } else {
      HexValue(n / 16);
      HexDigit(n % 16);
      HexSnoc(HexText(n / 16), n % 16);
    }
  }

  lemma {:induction false} HexRun(s: string, r: string)
    requires (forall c :: c in s ==> DigitValue(c) < 16) && (r == [] || DigitValue(r[0]) == 16)
    ensures DigitRun(s + r, 16) == |s|
  {
    if s == [] {
      assert s + r == r;
    } else {
      assert s[0] in s;
      assert (s + r)[1..] == s[1..] + r;
      HexRun(s[1..], r);
    }
  }

  lemma HexPrefix(u: string, h: string, r: string)
    requires |u| > 2 && u[0] == '0' && u[1] == 'x' && u[2..] == h + r && DigitValue(u[2]) < 16
    requires h != [] && DigitRun(h + r, 16) == |h|
    ensures Unsigned(u) == Converted(ValueOf(h, 16), 2 + |h|)
  {
    hide DigitRun, ValueOf, DigitValue;
    assert (h + r)[..|h|] == h;
  }

  lemma HexUnsigned(h: string, r: string)
    requires h != [] && (forall c :: c in h ==> DigitValue(c) < 16) && (r == [] || DigitValue(r[0]) == 16)
    ensures Unsigned("0x" + h + r) == Converted(ValueOf(h, 16), 2 + |h|)
  {
    hide DigitRun, ValueOf, DigitValue, Unsigned;
    HexRun(h, r);
    var u := "0x" + (h + r);
    assert "0x" + h + r == u;
    assert u[2..] == h + r && u[2] == h[0] && h[0] in h;
    HexPrefix(u, h, r);
  }

  /** strtoll reads hexadecimal digits behind 0x. */
  lemma HexConverts(n: nat, r: string)
    requires r == [] || DigitValue(r[0]) == 16
    ensures StrToLL("0x" + HexText(n) + r) == Converted(n, 2 + |HexText(n)|)
  {
    HexValue(n);
    hide HexText, Unsigned, ValueOf, DigitValue;
    HexUnsigned(HexText(n), r);
    assert ("0x" + HexText(n) + r)[0] == '0';
  }

  lemma ZeroToken(s: string)
    ensures NextToken("0x" + s, true) == Token(TokInt, "0", "x" + s)
  {
    var text := "0x" + s;
    assert text[1..] == "x" + s;
    assert NumberLen(text[1..], false) == Number(0, false);
    hide NextToken, NumberLen;
    TokenHere(text, true);
    assert text[..1] == "0";
  }

  lemma HexParts(h: string, r: string)
    ensures "0x" + h + r == "0x" + (h + r) && "0" + ("x" + (h + r)) == "0x" + (h + r)
  {
    assert "0x" == "0" + "x";
    Cat("0x", h, r);
    Cat("0", "x", h + r);
  }

  /** The tokenizer, though, takes only the 0 for the number, so that a hexadecimal value
      is refused, whatever it is. */
  lemma HexIsRefused(n: nat, r: string, key: string)
    requires r == [] || DigitValue(r[0]) == 16
    requires InLongLong(n) || key != "creation_time"
    ensures ParseType(NextToken("0x" + HexText(n) + r, true), key) == Fail
  {
    var s := HexText(n) + r;
    HexConverts(n, r);
    ZeroToken(s);
    hide StrToLL, HexText, NextToken, DigitValue, ParseType, InLongLong;
    HexParts(HexText(n), r);
    NumberType(Token(TokInt, "0", "x" + s), key, Converted(n, 2 + |HexText(n)|));
  }

  /** What _type makes of a number. */
  lemma NumberType(t: Token, key: string, n: Converted)
    requires t.tok == TokInt && t.lexeme != [] && StrToLL(t.lexeme + t.rest) == n
    ensures ParseType(t, key) ==
            if !InLongLong(n.value) then
              if key == "creation_time" then Ok(Int(1527120000, Plain), NextToken(t.rest, false)) else Fail
            else if n.len == 0 || n.len != |t.lexeme| then Fail
            else Ok(Int(n.value, Plain), NextToken(t.rest, false))
  {
    hide StrToLL, NextToken;
  }

  /** An integer that does not fit into 64 bits is refused, except that a creation time
      gets a fixed value. */
  lemma OutOfRange(i: int, r: string, key: string)
    requires !InLongLong(i) && Delimits(r)
    ensures ParseType(NextToken(Decimal(i) + r, true), key) ==
            if key == "creation_time" then Ok(Int(1527120000, Plain), NextToken(r, false)) else Fail
  {
    hide StrToLL, NextToken, Digits, IntegerText, ParseType, InLongLong, Delimits;
    if i < 0 {
      NegativeRoundTrip(-i, r);
    } else {
      DecimalRoundTrip(i, r);
    }
    IntegerToken(Decimal(i), r);
    NumberType(Token(TokInt, Decimal(i), r), key, Converted(i, |Decimal(i)|));
  }

  lemma PlusToken(n: nat, r: string)
    requires Delimits(r)
    ensures NextToken("+" + Digits(n, false) + r, true) == Token(TokInt, "+" + Digits(n, false), r)
  {
    var ds := Digits(n, false);
    var text := "+" + ds + r;
    assert forall c :: c in ds ==> IsDigit(c);
    NumberText(ds, r);
    hide NumberLen, Digits, NextToken;
    assert text[1..] == ds + r;
    TokenHere(text, true);
    assert text[..1 + |ds|] == "+" + ds && text[1 + |ds|..] == r;
  }

  lemma PlusConverts(ds: string, r: string, n: int)
    requires ds != [] && IsDigit(ds[0]) && StrToLL(ds + r) == Converted(n, |ds|)
    ensures StrToLL("+" + ds + r) == Converted(n, 1 + |ds|)
  {
    hide Unsigned;
    assert ("+" + ds + r)[1..] == ds + r && (ds + r)[0] == ds[0];
  }

  /** A plus sign in front of a number is read. */
  lemma PlusSign(n: nat, r: string, key: string)
    requires InLongLong(n) && Delimits(r)
    ensures ParseType(NextToken("+" + Digits(n, false) + r, true), key) == Ok(Int(n, Plain), NextToken(r, false))
  {
    var ds := Digits(n, false);
    DecimalRoundTrip(n, r);
    PlusToken(n, r);
    assert ds[0] in ds;
    hide NextToken, Digits, IntegerText, StrToLL, Delimits;
    PlusConverts(ds, r, n);
  }

  lemma {:induction false} FractionText(b: string, r: string)
    requires (forall c :: c in b ==> IsDigit(c)) && (r == [] || !IsDigit(r[0]))
    ensures NumberLen(b + r, true) == Number(|b|, true)
  {
    if b == [] {
      assert b + r == r;
    } else {
      assert b[0] in b;
      assert (b + r)[1..] == b[1..] + r;
      FractionText(b[1..], r);
    }
  }

  lemma {:induction false} PointText(a: string, b: string, r: string)
    requires (forall c :: c in a ==> IsDigit(c)) && (forall c :: c in b ==> IsDigit(c)) && (r == [] || !IsDigit(r[0]))
    ensures NumberLen(a + ("." + (b + r)), false) == Number(|a| + 1 + |b|, true)
  {
    var rest := "." + (b + r);
    if a == [] {
      assert a + rest == rest && rest[1..] == b + r;
      FractionText(b, r);
    } else {
      assert a[0] in a;
      assert (a + rest)[1..] == a[1..] + rest;
      PointText(a[1..], b, r);
    }
  }

  /** Digits with one point are one token, a float; a second point is not part of it. */
  lemma PointToken(a: string, b: string, r: string)
    requires a != [] && (forall c :: c in a ==> IsDigit(c)) && (forall c :: c in b ==> IsDigit(c))
    requires r == [] || !IsDigit(r[0])
    ensures NextToken(a + ("." + (b + r)), true) == Token(TokFloat, a + ("." + b), r)
  {
    hide NumberLen, NextToken, Classify;
    assert a[0] in a;
    var w := a + ("." + b);
    Cat(".", b, r);
    Cat(a, "." + b, r);
    PointText(a[1..], b, r);
    PointKind(a, "." + (b + r), |a| + |b|);
    WholeToken(w, r, TokFloat);
  }

  lemma PointKind(a: string, rest: string, n: nat)
    requires a != [] && IsDigit(a[0]) && NumberLen(a[1..] + rest, false) == Number(n, true)
    ensures Classify(a + rest, true) == Kind(TokFloat, 1 + n)
  {
    hide NumberLen, QuotedLen, SingleLen, IdentifierLen;
    assert (a + rest)[1..] == a[1..] + rest;
  }

  lemma WholeToken(w: string, r: string, tok: Tok)
    requires w != [] && IsDigit(w[0]) && Classify(w + r, true) == Kind(tok, |w|)
    ensures NextToken(w + r, true) == Token(tok, w, r)
  {
    hide Classify, NextToken;
    TokenHere(w + r, true);
    assert (w + r)[..|w|] == w && (w + r)[|w|..] == r;
  }

  // ---- arrays ----

  lemma CommaThenEnd(r: string)
    ensures Delimits("," + ("]" + r)) && SkipComma(NextToken("," + ("]" + r), false)) == Token(TokArrayE, "]", r)
  {
    Punctuation(',', "]" + r, false);
    Punctuation(']', r, true);
    hide NextToken;
  }

  /** A comma may stand behind the last element. */
  lemma TrailingComma(v: Value, key: string, r: string)
    requires ValueOk(v)
    ensures var t := NextToken(WriteValue(v) + ("," + ("]" + r)), true);
            (t.tok != TokEof ==> t.lexeme != []) &&
            ParseItems(t, key) == Ok([StripValue(v)], Token(TokArrayE, "]", r))
  {
    var e := "," + ("]" + r);
    hide NextToken, ParseType, WriteValue, ParseItems, Delimits, ValueOk, SkipComma;
    CommaThenEnd(r);
    TypeRoundTrip(v, key, e);
    ItemsStop(r, key);
    ConfigRoundTrip.ItemsStep(NextToken(WriteValue(v) + e, true), StripValue(v), NextToken(e, false), key);
    assert [StripValue(v)] + [] == [StripValue(v)];
  }

  // ---- paths ----

  /** A leading slash does not matter. */
  lemma LeadingSlash(p: string)
    ensures Components("/" + p) == Components(p)
  {
    TrimShrinks(p);
    TrimShrinks("/" + p);
    assert ("/" + p)[1..] == p;
  }

  /** Any number of slashes separates two keys. */
  lemma SlashSeparates(key: string, p: string)
    requires PathKey(key)
    ensures Components(key + "/" + p) == [key] + Components(p)
    ensures Components(key + "//" + p) == [key] + Components(p)
  {
    LeadingSlash(p);
    LeadingSlash("/" + p);
    Segment(key, "/" + p);
    Segment(key, "//" + p);
    hide Components;
    assert key + "/" + p == key + ("/" + p) && key + "//" + p == key + ("//" + p);
    assert "//" + p == "/" + ("/" + p);
  }

  lemma Segment(key: string, rest: string)
    requires PathKey(key) && rest != [] && rest[0] == '/'
    ensures Components(key + rest) == [key] + Components(rest)
  {
    var p := key + rest;
    SegmentOfKey(key, rest);
    TrimShrinks(p);
    assert p[0] == key[0] && key[0] in key;
    assert TrimSlashes(p) == p;
    assert p[..|key|] == key && p[|key|..] == rest;
  }

  // ---- nodes that exist already, and nodes on a path ----

  /** The line of a node with values under any key text. */
  function LeafLine(key: string, vs: seq<Value>): string
    requires vs != []
  {
    KeyText(key) + (BodyWith(Node("", vs, []), NO_REMARK, 0) + "\n")
  }

  lemma LeafBody(vs: seq<Value>, r: string)
    requires ValuesOk(vs)
    ensures EndsKey(BodyWith(Node("", vs, []), NO_REMARK, 0) + ("\n" + r))
  {
    hide ValuesOk, BodyWith;
    BodyEndsKey(Node("", vs, []), NO_REMARK, 0, "\n" + r);
  }

  /** One line sets the values of the node that its path finds or makes. */
  lemma LineIsParsed(key: string, vs: seq<Value>, kids: seq<Node>, noDup: bool, r: string)
    requires KeyOk(key) && ValuesOk(vs)
    ensures vs != []
    ensures var t := NextToken(LeafLine(key, vs) + r, false);
            var loc := FindOrMake(kids, Components(key), noDup);
            && t.tok != TokEof && t.tok != TokSectionE && t.lexeme != []
            && ParseSection(t, kids, 0, noDup) ==
               Ok(Put(loc.kids, loc.trail, At(loc.kids, loc.trail).(values := StripValues(vs))), NextToken(r, false))
  {
    hide NextToken, ParseKey, ParseBody, ParseSection, BodyWith, ValuesOk, KeyText, EndsKey, Delimits, FindOrMake,
         Components, At, Put, LeafLine, KeyOk, StripValues;
    ValuesExist(vs);
    var n, e := Node("", vs, []), "\n" + r;
    var body := BodyWith(n, NO_REMARK, 0) + e;
    var loc := FindOrMake(kids, Components(key), noDup);
    NewlineThen(r);
    LeafBody(vs, r);
    KeyRoundTrip(key, body);
    LeafRoundTrip(n, NO_REMARK, 0, At(loc.kids, loc.trail), 0, noDup, e);
    LineText(key, vs, r);
    SectionFound(NextToken(KeyText(key) + body, false), key, NextToken(body, false), kids, noDup,
                 At(loc.kids, loc.trail).(values := StripValues(vs)), NextToken(r, false));
  }

  lemma SectionFound(t: Token, key: string, n: Token, kids: seq<Node>, noDup: bool, node: Node, m: Token)
    requires t.tok != TokEof && t.lexeme != [] && ParseKey(t) == Ok(key, n)
    requires var loc := FindOrMake(kids, Components(key), noDup);
             ParseBody(n, At(loc.kids, loc.trail), 0, noDup) == Ok(node, m)
    ensures var loc := FindOrMake(kids, Components(key), noDup);
            ParseSection(t, kids, 0, noDup) == Ok(Put(loc.kids, loc.trail, node), m)
  {
    hide NextToken, ParseKey, ParseBody, FindOrMake, At, Put, Components;
  }

  lemma LineText(key: string, vs: seq<Value>, r: string)
    requires vs != []
    ensures LeafLine(key, vs) + r == KeyText(key) + (BodyWith(Node("", vs, []), NO_REMARK, 0) + ("\n" + r))
  {
    hide KeyText, BodyWith;
    var k, b := KeyText(key), BodyWith(Node("", vs, []), NO_REMARK, 0);
    Cat(k, b + "\n", r);
    Cat(b, "\n", r);
  }

  lemma NewNode(key: string, noDup: bool, vs: seq<Value>)
    requires PathKey(key)
    ensures var loc := FindOrMake([], Components(key), noDup);
            Put(loc.kids, loc.trail, At(loc.kids, loc.trail).(values := vs)) == [Node(key, vs, [])]
  {
    ComponentsOfKey(key);
  }

  lemma OldNode(key: string, noDup: bool, vs: seq<Value>, ws: seq<Value>)
    requires PathKey(key)
    ensures var loc := FindOrMake([Node(key, vs, [])], Components(key), noDup);
            Put(loc.kids, loc.trail, At(loc.kids, loc.trail).(values := ws)) ==
            if noDup then [Node(key, ws, []), Node(key, vs, [])] else [Node(key, ws, [])]
  {
    ComponentsOfKey(key);
  }

  lemma PathNode(a: string, b: string, noDup: bool, vs: seq<Value>)
    requires PathKey(a) && PathKey(b)
    ensures var loc := FindOrMake([], Components(a + "/" + b), noDup);
            Put(loc.kids, loc.trail, At(loc.kids, loc.trail).(values := vs)) == [Node(a, [], [Node(b, vs, [])])]
  {
    SlashSeparates(a, b);
    ComponentsOfKey(b);
    hide Components;
    assert [a] + [b] == [a, b];
    MadePath(a, b, noDup);
    var loc := FindOrMake([], [a, b], noDup);
    var inner := [Node(b, [], [])];
    assert [0, 0][1..] == [0];
    assert inner[0 := Node(b, vs, [])] == [Node(b, vs, [])];
    assert loc.kids[0 := Node(a, [], [Node(b, vs, [])])] == [Node(a, [], [Node(b, vs, [])])];
  }

  lemma MadePath(a: string, b: string, noDup: bool)
    ensures FindOrMake([], [a, b], noDup) == Located([Node(a, [], [Node(b, [], [])])], [0, 0])
  {
    assert [a, b][1..] == [b];
    assert FindOrMake([], [b], noDup) == Located([Node(b, [], [])], [0]);
    var list := [Node(a, [], [])];
    assert list[0 := list[0].(child := [Node(b, [], [])])] == [Node(a, [], [Node(b, [], [])])];
  }

  /** The file ends behind its last line. */
  lemma LastLine(key: string, vs: seq<Value>, kids: seq<Node>, noDup: bool)
    requires KeyOk(key) && ValuesOk(vs)
    ensures vs != []
    ensures var t := NextToken(LeafLine(key, vs), false);
            var loc := FindOrMake(kids, Components(key), noDup);
            && t.tok != TokEof && t.lexeme != []
            && ParseFile(t, kids, noDup) ==
               Some(Put(loc.kids, loc.trail, At(loc.kids, loc.trail).(values := StripValues(vs))))
  {
    hide NextToken, ParseSection, ParseFile, FindOrMake, Components, At, Put, LeafLine, ValuesOk;
    LineIsParsed(key, vs, kids, noDup, "");
    assert LeafLine(key, vs) + "" == LeafLine(key, vs);
    EndOfText(false);
    FileStep(NextToken(LeafLine(key, vs), false), kids, noDup);
    var loc := FindOrMake(kids, Components(key), noDup);
    FileStep(NextToken("", false), Put(loc.kids, loc.trail, At(loc.kids, loc.trail).(values := StripValues(vs))),
        noDup);
  }

  /** A key that comes twice: with the duplicate check the later values replace the
      earlier ones, and without it there are two nodes. */
  lemma SameKeyTwice(key: string, vs: seq<Value>, ws: seq<Value>, noDup: bool)
    requires KeyOk(key) && '/' !in key && ValuesOk(vs) && ValuesOk(ws)
    ensures vs != [] && ws != []
    ensures ParseText(LeafLine(key, vs) + LeafLine(key, ws), noDup) ==
            if noDup then Some([Node(key, StripValues(vs), []), Node(key, StripValues(ws), [])])
            else Some([Node(key, StripValues(ws), [])])
  {
    hide NextToken, ParseSection, ParseFile, FindOrMake, Components, At, Put, LeafLine, ValuesOk, StripValues;
    var a, b := Node(key, StripValues(vs), []), Node(key, StripValues(ws), []);
    LastLine(key, ws, [a], noDup);
    LineIsParsed(key, vs, [], noDup, LeafLine(key, ws));
    NewNode(key, noDup, StripValues(vs));
    OldNode(key, noDup, StripValues(vs), StripValues(ws));
    FileStep(NextToken(LeafLine(key, vs) + LeafLine(key, ws), false), [], noDup);
    Reversed(a, b);
  }

  lemma Reversed(a: Node, b: Node)
    requires a.child == [] && b.child == []
    ensures ConfigReverse([b, a]) == [a, b] && ConfigReverse([b]) == [b]
  {
    assert [b, a][1..] == [a] && [a][1..] == [] && [b][1..] == [];
    assert ReverseNode(a) == a && ReverseNode(b) == b;
  }

  /** A key with a slash is a path: it makes a section with the node inside. */
  lemma PathKeyMakesSection(a: string, b: string, vs: seq<Value>, noDup: bool)
    requires PathKey(a) && PathKey(b) && KeyOk(a + "/" + b) && ValuesOk(vs)
    ensures vs != []
    ensures ParseText(LeafLine(a + "/" + b, vs), noDup) == Some([Node(a, [], [Node(b, StripValues(vs), [])])])
  {
    hide NextToken, ParseSection, ParseFile, FindOrMake, Components, At, Put, LeafLine, ValuesOk, StripValues, KeyOk;
    LastLine(a + "/" + b, vs, [], noDup);
    PathNode(a, b, noDup, StripValues(vs));
    var inner := Node(b, StripValues(vs), []);
    OneInside(a, inner);
  }

  lemma OneInside(a: string, inner: Node)
    requires inner.child == []
    ensures ConfigReverse([Node(a, [], [inner])]) == [Node(a, [], [inner])]
  {
    Reversed(inner, inner);
    var n := Node(a, [], [inner]);
    assert [n][1..] == [];
    assert ReverseNode(n) == n;
  }

  // ---- refused texts ----

  /** A file of white space and comments has no tree. */
  lemma EmptyFile(gs: seq<Gap>, noDup: bool)
    requires GapsOk(gs)
    ensures ParseText(GapText(gs), noDup) == None
  {
    GapSkipped(gs, [], false);
    assert GapText(gs) + [] == GapText(gs);
    EndOfText(false);
    hide NextToken, GapText;
    FileStep(NextToken([], false), [], noDup);
  }

  /** A quote that begins a string at the end of the text is no value. */
  lemma LoneQuote(key: string)
    ensures ParseType(NextToken("\"", true), key) == Fail && ParseType(NextToken("'", true), key) == Fail
  {
    TokenHere("\"", true);
    TokenHere("'", true);
    assert QuotedLen("\""[1..]) == 0 && SingleLen("'"[1..]) == 0;
    hide NextToken, QuotedLen, SingleLen;
    assert |"\""[..1]| == 1 && |"'"[..1]| == 1;
  }

  /** Behind a key comes an equals sign or an opening brace; any other token is an error,
      and so is the end of the text inside a section. */
  lemma OnlyBodies(t: Token, root: Node, kids: seq<Node>, depth: nat, noDup: bool)
    requires t.tok != TokEof ==> t.lexeme != []
    ensures t.tok != TokEq && t.tok != TokSectionB ==> ParseBody(t, root, depth, noDup) == Fail
    ensures t.tok == TokEof ==> ParseSections(t, kids, depth, noDup) == Fail
  {
    hide NextToken;
  }

  // ---- the layout of a line ----

  lemma TabsAre(level: nat)
    ensures Indent(level) == seq(if level < 32 then level else 32, _ => '\t')
  {
  }

  /** A node is printed on a line of its own behind one tab for each level, up to 32. */
  lemma Layout(n: Node, level: nat)
    requires |n.values| <= 1 && (n.values != [] ==> !n.values[0].format.asArray || n.values[0].EmptyArray?)
    ensures var tabs := seq(if level < 32 then level else 32, _ => '\t');
            WriteNode(n, level) ==
            if n.values == [] then
              tabs + KeyText(n.key) + (" {\n" + WriteForest(n.child, level + 1) + tabs + "}") + "\n"
            else
              var sp := if n.values[0].format.extraSpaces then " " else "";
              tabs + KeyText(n.key) + (sp + "=" + sp + WriteValue(n.values[0])) + "\n"
  {
    TabsAre(level);
    hide Indent, KeyText, WriteForest, WriteValue;
  }
}
