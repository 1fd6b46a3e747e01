/** The tokens that printed text falls into: each piece the printer emits is read
    back as one token, whatever follows it. */
module ConfigTokens {
  import opened CStrings
  import opened ConfigTree
  import opened ConfigLexer
  import opened ConfigParser
  import opened ConfigWriter
  import opened StringQuoting

  // ---- spaces and single characters ----

  lemma {:induction false} NextTokenSpace(sp: string, s: string, values: bool)
    requires forall c :: c in sp ==> IsSpace(c)
    ensures NextToken(sp + s, values) == NextToken(s, values)
  {
    if sp == [] {
      assert sp + s == s;
    } else {
      NextTokenSpace(sp[1..], s, values);
      SpaceStep(sp + s, values);
      assert (sp + s)[1..] == sp[1..] + s;
    }
  }

  lemma SpaceStep(s: string, values: bool)
    requires s != [] && IsSpace(s[0])
    ensures NextToken(s, values) == NextToken(s[1..], values)
  {
    hide Classify;
    assert s[SpaceLen(s)..] == s[1..][SpaceLen(s[1..])..];
  }

  // ---- comments ----

  lemma {:induction false} CommentText(c: string, s: string)
    requires '\n' !in c && NUL !in c
    ensures CommentLen(c + ("\n" + s)) == |c|
  {
    if c == [] {
      assert c + ("\n" + s) == "\n" + s;
    } else {
      assert c[0] in c;
      assert (c + ("\n" + s))[1..] == c[1..] + ("\n" + s);
      CommentText(c[1..], s);
    }
  }

  lemma CommentStep(s: string, n: nat, values: bool)
    requires s != [] && s[0] == '#' && n == CommentLen(s)
    ensures NextToken(s, values) == NextToken(s[n..], values)
  {
    hide Classify, CommentLen;
    assert s[SpaceLen(s)..] == s[n..][SpaceLen(s[n..])..];
  }

  /** A comment goes to the end of its line, and the text goes on behind it. */
  lemma CommentSkipped(c: string, s: string, values: bool)
    requires '\n' !in c && NUL !in c
    ensures NextToken("#" + c + "\n" + s, values) == NextToken(s, values)
  {
    var text := "#" + c + "\n" + s;
    CommentText("#" + c, s);
    assert text == ("#" + c) + ("\n" + s);
    hide NextToken, CommentLen;
    CommentStep(text, |c| + 1, values);
    assert text[|c| + 1..] == "\n" + s;
    NextTokenSpace("\n", s, values);
  }

  /** What may stand between two tokens: a white-space character, or a comment with the
      end of its line. */
  datatype Gap = Blank(c: char) | Comment(text: string) {
    predicate Ok() {
      match this
      case Blank(c) => c == ' ' || 9 <= c as int <= 13
      case Comment(text) => '\n' !in text && NUL !in text
    }

    function Text(): string {
      match this
      case Blank(c) => [c]
      case Comment(text) => "#" + text + "\n"
    }
  }

  predicate GapsOk(gs: seq<Gap>) { forall g :: g in gs ==> g.Ok() }

  function GapText(gs: seq<Gap>): string { if gs == [] then "" else gs[0].Text() + GapText(gs[1..]) }

  /** White space and comments, in any number and order, do not change the next token. */
  lemma {:induction false} GapSkipped(gs: seq<Gap>, s: string, values: bool)
    requires GapsOk(gs)
    ensures NextToken(GapText(gs) + s, values) == NextToken(s, values)
  {
    if gs == [] {
      assert GapText(gs) + s == s;
    } else {
      assert gs[0] in gs;
      GapSkipped(gs[1..], s, values);
      var rest := GapText(gs[1..]) + s;
      assert GapText(gs) + s == gs[0].Text() + rest;
      hide NextToken, GapText;
      match gs[0] {
        case Blank(c) => NextTokenSpace([c], rest, values);
        case Comment(text) => CommentSkipped(text, rest, values);
      }
    }
  }

  /** A token that starts right here. */
  lemma TokenHere(s: string, values: bool)
    requires s != [] && !IsSpace(s[0]) && s[0] != '#'
    ensures var k := Classify(s, values); NextToken(s, values) == Token(k.tok, s[..k.len], s[k.len..])
  {
    hide Classify;
    assert SpaceLen(s) == 0 && s[0..] == s;
  }

  lemma Punctuation(c: char, r: string, values: bool)
    requires c in "{}[],="
    ensures NextToken([c] + r, values) == Token(
              if c == '{' then TokSectionB else if c == '}' then TokSectionE else if c == '[' then TokArrayB
              else if c == ']' then TokArrayE else if c == ',' then TokComma else TokEq, [c], r)
  {
    TokenHere([c] + r, values);
    assert ([c] + r)[..1] == [c] && ([c] + r)[1..] == r;
  }

  lemma EndOfText(values: bool)
    ensures NextToken([], values) == Token(TokEof, [], [])
  {
  }

  // ---- quoted strings ----

  lemma {:induction false} EscapedTextLen(s: string, r: string)
    requires NUL !in s
    ensures QuotedLen(Escape(s) + "\"" + r) == |Escape(s)| + 1
  {
    if s == [] {
      assert Escape(s) + "\"" + r == ['"'] + r;
    } else {
      var rest := Escape(s[1..]) + "\"" + r;
      EscapedTextLen(s[1..], r);
      assert s[0] in s;
      EscapedStep(s[0], rest);
      var head := if s[0] == '"' || s[0] == '\\' then ['\\', s[0]] else [s[0]];
      assert Escape(s) == head + Escape(s[1..]);
      assert Escape(s) + "\"" + r == head + rest;
    }
  }

  lemma EscapedStep(c: char, rest: string)
    requires c != NUL
    ensures QuotedLen((if c == '"' || c == '\\' then ['\\', c] else [c]) + rest)
         == (if c == '"' || c == '\\' then 2 else 1) + QuotedLen(rest)
  {
    if c == '"' || c == '\\' {
      assert (['\\', c] + rest)[2..] == rest;
    } else {
      assert ([c] + rest)[1..] == rest;
    }
  }

  function Quoted(s: string): string { "\"" + Escape(s) + "\"" }

  lemma QuotedParts(s: string, r: string)
    ensures |Quoted(s)| == |Escape(s)| + 2 && Inner(Quoted(s)) == Escape(s)
    ensures var text := Quoted(s) + r;
            text[0] == '"' && text[1..] == Escape(s) + "\"" + r && text[..|Quoted(s)|] == Quoted(s) && text[|Quoted(s)|..] == r
  {
    hide Escape;
  }

  lemma QuotedToken(s: string, r: string, values: bool)
    requires NUL !in s
    ensures NextToken(Quoted(s) + r, values) == Token(TokStringEscaped, Quoted(s), r)
    ensures |Quoted(s)| >= 2 && Unescape(Inner(Quoted(s))) == s
  {
    QuotedParts(s, r);
    EscapedTextLen(s, r);
    UnquoteUndoesQuote(s, '"', '\\');
    hide QuotedLen, Escape, NextToken, Quoted;
    TokenHere(Quoted(s) + r, values);
  }

  // ---- numbers ----

  /** What can follow a printed value. */
  predicate Delimits(r: string) {
    r != [] && (r[0] == ',' || r[0] == ']' || r[0] == '\n' || r[0] == ' ')
  }

  lemma {:induction false} NumberText(ds: string, r: string)
    requires (forall c :: c in ds ==> IsDigit(c)) && Delimits(r)
    ensures NumberLen(ds + r, false) == Number(|ds|, false)
  {
    if ds == [] {
      assert ds + r == r;
    } else {
      NumberText(ds[1..], r);
      assert ds[0] in ds;
      assert (ds + r)[1..] == ds[1..] + r;
    }
  }

  /** A sign or digit followed by digits. */
  predicate IntegerText(s: string) {
    && s != []
    && (IsDigit(s[0]) || s[0] == '-')
    && forall c :: c in s[1..] ==> IsDigit(c)
  }

  lemma IntegerToken(s: string, r: string)
    requires IntegerText(s) && Delimits(r)
    ensures NextToken(s + r, true) == Token(TokInt, s, r)
  {
    var text := s + r;
    NumberText(s[1..], r);
    hide NumberLen;
    assert text[1..] == s[1..] + r;
    TokenHere(text, true);
    assert text[..|s|] == s && text[|s|..] == r;
  }

  lemma {:induction false} RunOfDigits(ds: string, r: string, base: nat)
    requires (forall c :: c in ds ==> DigitValue(c) < base) && base <= 16 && Delimits(r)
    ensures DigitRun(ds + r, base) == |ds|
  {
    if ds == [] {
      assert ds + r == r;
    } else {
      RunOfDigits(ds[1..], r, base);
      assert ds[0] in ds;
      assert (ds + r)[1..] == ds[1..] + r;
    }
  }

  function Base(octal: bool): nat { if octal then 8 else 10 }

  lemma {:induction false} DigitsBelowBase(n: nat, octal: bool)
    ensures forall c :: c in Digits(n, octal) ==> DigitValue(c) < Base(octal)
    ensures n > 0 ==> Digits(n, octal)[0] != '0'
  {
    if n >= Base(octal) {
      DigitsBelowBase(if octal then n / 8 else n / 10, octal);
    }
  }

  lemma ValueSnoc(s: string, c: char, octal: bool)
    ensures ValueOf(s + [c], Base(octal)) ==
            (if octal then 8 * ValueOf(s, 8) else 10 * ValueOf(s, 10)) + DigitValue(c)
  {
    assert (s + [c])[..|s|] == s;
    if octal {
      assert ValueOf(s, 8) * 8 == 8 * ValueOf(s, 8);
    } else {
      assert ValueOf(s, 10) * 10 == 10 * ValueOf(s, 10);
    }
  }

  lemma DigitCharValue(d: nat)
    requires d < 10
    ensures DigitValue(DigitChar(d)) == d
  {
  }

  lemma LastDigit(n: nat, octal: bool)
    requires n >= Base(octal)
    ensures octal ==> Digits(n, octal) == Digits(n / 8, octal) + [DigitChar(n % 8)] && n / 8 < n && 8 * (n / 8) + n % 8 == n
    ensures !octal ==> Digits(n, octal) == Digits(n / 10, octal) + [DigitChar(n % 10)] && n / 10 < n && 10 * (n / 10) + n % 10 == n
  {
  }

  lemma {:induction false} DigitsValue(n: nat, octal: bool)
    ensures ValueOf(Digits(n, octal), Base(octal)) == n
  {
    if n < Base(octal) {
      DigitCharValue(n);
      ValueSnoc([], DigitChar(n), octal);
      assert [] + [DigitChar(n)] == [DigitChar(n)];
    } else {
      LastDigit(n, octal);
      hide Digits, ValueOf, DigitValue, DigitChar;
      if octal {
        DigitsValue(n / 8, octal);
        DigitCharValue(n % 8);
        ValueSnoc(Digits(n / 8, octal), DigitChar(n % 8), octal);
      } else {
        DigitsValue(n / 10, octal);
        DigitCharValue(n % 10);
        ValueSnoc(Digits(n / 10, octal), DigitChar(n % 10), octal);
      }
    }
  }

  lemma {:induction false} LeadingZero(s: string)
    ensures ValueOf("0" + s, 8) == ValueOf(s, 8)
  {
    if s == [] {
      assert "0" + s == [] + ['0'];
      ValueSnoc([], '0', true);
    } else {
      var front, last := s[..|s| - 1], s[|s| - 1];
      LeadingZero(front);
      assert "0" + s == ("0" + front) + [last];
      assert s == front + [last];
      ValueSnoc("0" + front, last, true);
      ValueSnoc(front, last, true);
    }
  }

  /** Conversion of digits of the base their first character announces. */
  lemma ConvertDigits(ds: string, r: string, octal: bool)
    requires ds != [] && (forall c :: c in ds ==> DigitValue(c) < Base(octal))
    requires (ds[0] == '0') == octal && Delimits(r)
    ensures Unsigned(ds + r) == Converted(ValueOf(ds, Base(octal)), |ds|)
  {
    RunOfDigits(ds, r, Base(octal));
    var text := ds + r;
    assert |ds| > 1 ==> text[1] == ds[1] && ds[1] in ds;
    assert text[0..] == text && text[..|ds|] == ds;
    hide ValueOf, DigitRun;
  }

  predicate IntOk(i: int, f: Format) {
    InLongLong(i) && (f.typed ==> i >= 0)
  }

  /** A printed integer is one token and converts back. */
  lemma IntegerRoundTrip(i: int, f: Format, r: string)
    requires IntOk(i, f) && Delimits(r)
    ensures IntegerText(WriteValue(Int(i, f)))
    ensures StrToLL(WriteValue(Int(i, f)) + r) == Converted(i, |WriteValue(Int(i, f))|)
  {
    hide Digits, StrToLL, IntegerText;
    if f.typed {
      assert AsUnsigned(i) == i;
      OctalRoundTrip(i, r);
    } else if i < 0 {
      NegativeRoundTrip(-i, r);
    } else {
      DecimalRoundTrip(i, r);
    }
  }

  lemma OctalRoundTrip(i: nat, r: string)
    requires Delimits(r)
    ensures var text := "0" + Digits(i, true);
            IntegerText(text) && StrToLL(text + r) == Converted(i, |text|)
  {
    var ds := Digits(i, true);
    DigitsBelowBase(i, true);
    DigitsValue(i, true);
    LeadingZero(ds);
    assert ("0" + ds)[1..] == ds;
    hide Digits, ValueOf, Unsigned;
    ConvertDigits("0" + ds, r, true);
  }

  lemma DecimalRoundTrip(i: nat, r: string)
    requires Delimits(r)
    ensures IntegerText(Digits(i, false))
    ensures StrToLL(Digits(i, false) + r) == Converted(i, |Digits(i, false)|)
  {
    if i == 0 {
      ZeroText();
      hide Digits, ValueOf, Unsigned;
      ConvertDigits("0", r, true);
    } else {
      var ds := Digits(i, false);
      DigitsBelowBase(i, false);
      DigitsValue(i, false);
      hide Digits, ValueOf, Unsigned;
      assert ds[0] in ds && forall c :: c in ds[1..] ==> c in ds;
      ConvertDigits(ds, r, false);
    }
  }

  lemma NegativeRoundTrip(n: nat, r: string)
    requires Delimits(r) && n > 0
    ensures IntegerText("-" + Digits(n, false))
    ensures StrToLL("-" + Digits(n, false) + r) == Converted(0 - n, 1 + |Digits(n, false)|)
  {
    var ds := Digits(n, false);
    DigitsBelowBase(n, false);
    DigitsValue(n, false);
    hide Digits, ValueOf, Unsigned;
    ConvertDigits(ds, r, false);
    assert ("-" + ds)[1..] == ds;
    assert ("-" + ds + r)[1..] == ds + r;
  }

  lemma ZeroText()
    ensures Digits(0, false) == "0" && ValueOf("0", 8) == 0
  {
    ValueSnoc([], '0', true);
    assert [] + ['0'] == "0";
  }

  // ---- keys ----

  /** A key that is printed as it is and read as one identifier. */
  predicate BareKey(key: string) {
    && key != []
    && key[0] !in "{}[],=\"\'"
    && forall c :: c in key ==> !EndsIdentifier(c)
  }

  /** What can follow a printed key. */
  predicate EndsKey(r: string) {
    r != [] && (r[0] == ' ' || r[0] == '=')
  }

  lemma {:induction false} IdentifierText(s: string, r: string)
    requires (forall c :: c in s ==> !EndsIdentifier(c)) && EndsKey(r)
    ensures IdentifierLen(s + r) == |s|
  {
    if s == [] {
      assert s + r == r;
    } else {
      IdentifierText(s[1..], r);
      assert s[0] in s;
      assert (s + r)[1..] == s[1..] + r;
    }
  }

  lemma BareKeyToken(key: string, r: string)
    requires BareKey(key) && EndsKey(r)
    ensures NextToken(key + r, false) == Token(TokIdentifier, key, r)
  {
    var text := key + r;
    IdentifierText(key[1..], r);
    hide IdentifierLen;
    assert key[0] in key;
    assert text[1..] == key[1..] + r;
    TokenHere(text, false);
    assert text[..|key|] == key && text[|key|..] == r;
  }

  predicate KeyOk(key: string) {
    && key != [] && NUL !in key
    && (NeedsQuotes(key) || BareKey(key))
  }

  /** A printed key is read back as the same key. */
  lemma KeyRoundTrip(key: string, r: string)
    requires KeyOk(key) && EndsKey(r)
    ensures var t := NextToken(KeyText(key) + r, false);
            (t.tok != TokEof ==> t.lexeme != []) && t.tok != TokEof && t.tok != TokSectionE
            && ParseKey(t) == Ok(key, NextToken(r, false))
  {
    hide NextToken, Unescape, Escape;
    if NeedsQuotes(key) {
      QuotedToken(key, r, false);
      assert KeyText(key) == Quoted(key);
    } else {
      BareKeyToken(key, r);
    }
  }

  // ---- exactly the keys that survive ----

  /** The text behind a key: a value or a section. */
  predicate BehindKey(r: string) {
    r != [] && (r[0] == '=' || (|r| > 1 && r[0] == ' ' && r[1] == '{'))
  }

  /** The token found for a bare key starts inside the key, or is the punctuation
      behind it. */
  lemma {:induction false} SpaceInKey(key: string, r: string)
    requires '#' !in key && BehindKey(r)
    ensures var n := SpaceLen(key + r);
            n < |key| + |r|
            && (n < |key| ==> !IsSpace(key[n]))
            && (n >= |key| ==> (key + r)[n] == '=' || (key + r)[n] == '{')
  {
    if key == [] {
      assert key + r == r;
      if r[0] == ' ' {
        assert SpaceLen(r[1..]) == 0;
      }
    } else if IsSpace(key[0]) {
      SpaceInKey(key[1..], r);
      assert (key + r)[1..] == key[1..] + r;
    } else {
      assert key[0] in key;
    }
  }

  lemma {:induction false} SingleQuoteInside(s: string)
    ensures forall i :: 0 <= i < SingleLen(s) - 1 ==> s[i] != '\''
    ensures SingleLen(s) > 0 && s[SingleLen(s) - 1] != '\'' ==> forall i :: 0 <= i < SingleLen(s) ==> s[i] != '\''
  {
    if s != [] && s[0] != NUL && s[0] != '\'' {
      SingleQuoteInside(s[1..]);
      forall i | 0 <= i < SingleLen(s)
        ensures i > 0 ==> s[i] == s[1..][i - 1]
      {
      }
    }
  }

  lemma {:induction false} IdentifierInside(s: string)
    ensures forall i :: 0 <= i < IdentifierLen(s) ==> !EndsIdentifier(s[i])
  {
    if s != [] && !EndsIdentifier(s[0]) {
      IdentifierInside(s[1..]);
      forall i | 0 <= i < IdentifierLen(s)
        ensures !EndsIdentifier(s[i])
      {
        assert i > 0 ==> s[i] == s[1..][i - 1];
      }
    }
  }

  /** A name read as an identifier is a bare key. */
  lemma IdentifierIsBare(u: string)
    requires u != [] && !IsSpace(u[0]) && u[0] != '#'
    ensures var k := Classify(u, false);
            k.tok == TokIdentifier ==> BareKey(u[..k.len])
  {
    var k := Classify(u, false);
    if k.tok == TokIdentifier {
      IdentifierInside(u[1..]);
      forall c | c in u[..k.len]
        ensures !EndsIdentifier(c)
      {
        var i :| 0 <= i < k.len && u[..k.len][i] == c;
        assert i > 0 ==> u[i] == u[1..][i - 1];
      }
    }
  }

  /** The content of a single-quoted string has no single quote. */
  lemma SingleQuoted(u: string)
    requires u != []
    ensures var k := Classify(u, false);
            k.tok == TokString && k.len >= 2 ==> '\'' !in Inner(u[..k.len])
  {
    var k := Classify(u, false);
    if k.tok == TokString && k.len >= 2 {
      SingleQuoteInside(u[1..]);
      var inner := Inner(u[..k.len]);
      forall i | 0 <= i < |inner|
        ensures inner[i] != '\''
      {
        assert inner[i] == u[1..][i];
      }
    }
  }

  /** A printed key is read back as itself exactly if the printer quotes it or it is
      a bare key; the printer does not quote every key that would need it. */
  lemma KeySurvives(key: string, r: string)
    requires key != [] && NUL !in key && BehindKey(r)
    ensures var t := NextToken(KeyText(key) + r, false);
            ParseKey(t) == Ok(key, NextToken(r, false)) <==> NeedsQuotes(key) || BareKey(key)
  {
    if NeedsQuotes(key) || BareKey(key) {
      KeyRoundTrip(key, r);
    } else {
      KeyLost(key, r);
    }
  }

  lemma KeyLost(key: string, r: string)
    requires key != [] && NUL !in key && BehindKey(r)
    requires !NeedsQuotes(key) && !BareKey(key)
    ensures ParseKey(NextToken(key + r, false)) != Ok(key, NextToken(r, false))
  {
    hide NextToken, Classify, SpaceLen, Unescape;
    var text := key + r;
    var n := SpaceLen(text);
    SpaceInKey(key, r);
    SpaceStops(text);
    TokenAt(text);
    var u := text[n..];
    IdentifierIsBare(u);
    SingleQuoted(u);
    QuoteFirst(u);
    if n < |key| {
      assert u[0] == key[n] && key[n] in key;
    }
  }

  lemma TokenAt(s: string)
    ensures var u := s[SpaceLen(s)..];
            var k := Classify(u, false);
            NextToken(s, false) == Token(k.tok, u[..k.len], u[k.len..])
  {
    hide SpaceLen, Classify;
  }

  lemma QuoteFirst(u: string)
    requires u != []
    ensures Classify(u, false).tok == TokString ==> u[0] == '\''
    ensures Classify(u, false).tok == TokStringEscaped ==> u[0] == '"'
  {
    hide QuotedLen, SingleLen, IdentifierLen;
  }

  lemma {:induction false} SpaceStops(s: string)
    ensures SpaceLen(s) < |s| ==> !IsSpace(s[SpaceLen(s)]) && s[SpaceLen(s)] != '#'
    decreases |s|
  {
    if s != [] {
      if IsSpace(s[0]) {
        SpaceStops(s[1..]);
      } else if s[0] == '#' {
        SpaceStops(s[CommentLen(s)..]);
      }
    }
  }
}
