/** The tokenizer of libdm-config.c: _eat_space and _get_token. Functions work on the
    text that is still unread; the methods run over the whole text with an index. */
module ConfigLexer {
  import opened CStrings

  datatype Tok =
    | TokInt | TokFloat
    | TokString          // single quotes
    | TokStringEscaped   // double quotes
    | TokStringBare      // no quotes
    | TokEq | TokSectionB | TokSectionE | TokArrayB | TokArrayE
    | TokIdentifier | TokComma | TokEof

  /** The token just read and the text behind it. */
  datatype Token = Token(tok: Tok, lexeme: string, rest: string) {
    ghost function Size(): nat { |lexeme| + |rest| }
  }

  predicate IsSpace(c: char) {
    c == ' ' || '\t' <= c <= '\r'
  }

  predicate IsDigit(c: char) {
    '0' <= c <= '9'
  }

  predicate EndsIdentifier(c: char) {
    c == NUL || IsSpace(c) || c == '#' || c == '=' || c == '{' || c == '}'
  }

  // ---- what is skipped and how far each kind of token reaches ----

  function CommentLen(s: string): (n: nat)
    ensures n <= |s|
  {
    if s == [] || s[0] == '\n' || s[0] == NUL then 0 else 1 + CommentLen(s[1..])
  }

  /** Length of the spaces and comments in front of the next token. */
  function SpaceLen(s: string): (n: nat)
    ensures n <= |s|
    decreases |s|
  {
    if s == [] then 0
    else if IsSpace(s[0]) then 1 + SpaceLen(s[1..])
    else if s[0] == '#' then
      var c := CommentLen(s);
      c + SpaceLen(s[c..])
    else 0
  }

  /** Length of the rest of a double-quoted string, its end quote included. */
  function QuotedLen(s: string): (n: nat)
    ensures n <= |s|
  {
    if s == [] || s[0] == NUL then 0
    else if s[0] == '"' then 1
    else if s[0] == '\\' && |s| > 1 && s[1] != NUL then 2 + QuotedLen(s[2..])
    else 1 + QuotedLen(s[1..])
  }

  function SingleLen(s: string): (n: nat)
    ensures n <= |s|
  {
    if s == [] || s[0] == NUL then 0
    else if s[0] == '\'' then 1
    else 1 + SingleLen(s[1..])
  }

  function IdentifierLen(s: string): (n: nat)
    ensures n <= |s|
  {
    if s == [] || EndsIdentifier(s[0]) then 0 else 1 + IdentifierLen(s[1..])
  }

  datatype Number = Number(len: nat, isFloat: bool)

  function NumberLen(s: string, isFloat: bool): (n: Number)
    ensures n.len <= |s|
  {
    if s == [] then Number(0, isFloat)
    else if IsDigit(s[0]) then
      var m := NumberLen(s[1..], isFloat); Number(1 + m.len, m.isFloat)
    else if s[0] == '.' && !isFloat then
      var m := NumberLen(s[1..], true); Number(1 + m.len, m.isFloat)
    else Number(0, isFloat)
  }

  predicate StartsNumber(c: char) {
    c == '.' || IsDigit(c) || c == '+' || c == '-'
  }

  datatype Kind = Kind(tok: Tok, len: nat)

  /** The token at the start of s, where no space is in front. */
  function Classify(s: string, values: bool): (k: Kind)
    ensures k.len <= |s|
    ensures k.tok != TokEof ==> k.len > 0
  {
    if s == [] || s[0] == NUL then Kind(TokEof, 0)
    else
      var c := s[0];
      if c == '{' then Kind(TokSectionB, 1)
      else if c == '}' then Kind(TokSectionE, 1)
      else if c == '[' then Kind(TokArrayB, 1)
      else if c == ']' then Kind(TokArrayE, 1)
      else if c == ',' then Kind(TokComma, 1)
      else if c == '=' then Kind(TokEq, 1)
      else if c == '"' then Kind(TokStringEscaped, 1 + QuotedLen(s[1..]))
      else if c == '\'' then Kind(TokString, 1 + SingleLen(s[1..]))
      else if StartsNumber(c) && values then
        var n := NumberLen(s[1..], c == '.');
        Kind(if n.isFloat then TokFloat else TokInt, 1 + n.len)
      else
        Kind(if values then TokStringBare else TokIdentifier, 1 + IdentifierLen(s[1..]))
  }

  /** The next token of the text s. */
  function NextToken(s: string, values: bool): (t: Token)
    ensures t.Size() <= |s|
    ensures t.tok != TokEof ==> t.lexeme != []
  {
    var u := s[SpaceLen(s)..];
    var k := Classify(u, values);
    Token(k.tok, u[..k.len], u[k.len..])
  }

  /** Whether a value, rather than an identifier, may follow a token. */
  predicate ValuesAllowed(prev: Tok) {
    prev == TokEq || prev == TokArrayB || prev == TokComma
  }

  // ---- the loops ----

  lemma Drop1(s: string, i: nat)
    requires i < |s|
    ensures s[i..][0] == s[i] && s[i..][1..] == s[i + 1..]
  {
  }

  method ScanComment(text: string, from: nat) returns (te: nat)
    requires from <= |text|
    ensures te == from + CommentLen(text[from..])
  {
    te := from;
    while te != |text| && text[te] != '\n' && text[te] != NUL
      invariant from <= te <= |text|
      invariant te + CommentLen(text[te..]) == from + CommentLen(text[from..])
    {
      Drop1(text, te);
      te := te + 1;
    }
  }

  /** The inner loop of _eat_space, which also counts lines. */
  method ScanSpaces(text: string, from: nat) returns (te: nat)
    requires from <= |text|
    ensures from <= te <= |text|
    ensures te + SpaceLen(text[te..]) == from + SpaceLen(text[from..])
    ensures from < |text| && IsSpace(text[from]) ==> te > from
    ensures te < |text| ==> !IsSpace(text[te])
  {
    te := from;
    while te != |text| && IsSpace(text[te])
      invariant from <= te <= |text|
      invariant te + SpaceLen(text[te..]) == from + SpaceLen(text[from..])
      invariant te == from || IsSpace(text[from])
    {
      Drop1(text, te);
      te := te + 1;
    }
  }

  /** _eat_space: goes over spaces and comments until neither is next. */
  method EatSpace(text: string, from: nat) returns (tb: nat)
    requires from <= |text|
    ensures tb == from + SpaceLen(text[from..]) <= |text|
  {
    tb := from;
    while tb != |text|
      invariant from <= tb <= |text|
      invariant tb + SpaceLen(text[tb..]) == from + SpaceLen(text[from..])
    {
      var te := tb;
      if !IsSpace(text[te]) {
        if text[te] != '#' {
          break;
        }
        te := ScanComment(text, te);
        Drop1(text, tb);
        assert text[tb..][te - tb..] == text[te..];
      }
      te := ScanSpaces(text, te);
      tb := te;
    }
  }

  method ScanEscaped(text: string, from: nat) returns (te: nat)
    requires from <= |text|
    ensures te == from + QuotedLen(text[from..])
  {
    te := from;
    while te != |text| && text[te] != NUL && text[te] != '"'
      invariant from <= te <= |text|
      invariant te + QuotedLen(text[te..]) == from + QuotedLen(text[from..])
    {
      Drop1(text, te);
      if text[te] == '\\' && te + 1 != |text| && text[te + 1] != NUL {
        assert text[te..][1] == text[te + 1];
        assert text[te..][2..] == text[te + 2..];
        te := te + 1;
      }
      te := te + 1;
    }
    if te != |text| && text[te] != NUL {
      te := te + 1;
    }
  }

  method ScanSingle(text: string, from: nat) returns (te: nat)
    requires from <= |text|
    ensures te == from + SingleLen(text[from..])
  {
    te := from;
    while te != |text| && text[te] != NUL && text[te] != '\''
      invariant from <= te <= |text|
      invariant te + SingleLen(text[te..]) == from + SingleLen(text[from..])
    {
      Drop1(text, te);
      te := te + 1;
    }
    if te != |text| && text[te] != NUL {
      te := te + 1;
    }
  }

  method ScanIdentifier(text: string, from: nat) returns (te: nat)
    requires from <= |text|
    ensures te == from + IdentifierLen(text[from..])
  {
    te := from;
    while te != |text| && !EndsIdentifier(text[te])
      invariant from <= te <= |text|
      invariant te + IdentifierLen(text[te..]) == from + IdentifierLen(text[from..])
    {
      Drop1(text, te);
      te := te + 1;
    }
  }

  method ScanNumber(text: string, from: nat, float: bool) returns (te: nat, isFloat: bool)
    requires from <= |text|
    ensures te == from + NumberLen(text[from..], float).len
    ensures isFloat == NumberLen(text[from..], float).isFloat
  {
    te, isFloat := from, float;
    while te != |text|
      invariant from <= te <= |text|
      invariant te + NumberLen(text[te..], isFloat).len == from + NumberLen(text[from..], float).len
      invariant NumberLen(text[te..], isFloat).isFloat == NumberLen(text[from..], float).isFloat
    {
      Drop1(text, te);
      if !IsDigit(text[te]) {
        if text[te] == '.' && !isFloat {
          isFloat := true;
          te := te + 1;
          continue;
        }
        break;
      }
      te := te + 1;
    }
  }

  /** The switch of _get_token at the first character of the token. */
  method ScanToken(text: string, tb: nat, values: bool) returns (t: Tok, te: nat)
    requires tb <= |text|
    ensures tb <= te <= |text|
    ensures Kind(t, te - tb) == Classify(text[tb..], values)
  {
    if tb == |text| || text[tb] == NUL {
      return TokEof, tb;
    }
    var c := text[tb];
    Drop1(text, tb);
    match c {
      case '{' => return TokSectionB, tb + 1;
      case '}' => return TokSectionE, tb + 1;
      case '[' => return TokArrayB, tb + 1;
      case ']' => return TokArrayE, tb + 1;
      case ',' => return TokComma, tb + 1;
      case '=' => return TokEq, tb + 1;
      case '"' =>
        te := ScanEscaped(text, tb + 1);
        return TokStringEscaped, te;
      case '\'' =>
        te := ScanSingle(text, tb + 1);
        return TokString, te;
      case _ =>
    }
    if StartsNumber(c) && values {
      var isFloat;
      te, isFloat := ScanNumber(text, tb + 1, c == '.');
      return if isFloat then TokFloat else TokInt, te;
    }
    te := ScanIdentifier(text, tb + 1);
    t := if values then TokStringBare else TokIdentifier;
  }
}
