/** The recursive-descent parser of libdm-config.c: what each production returns as a
    function of the current token, and the methods that advance the parser. */
module ConfigParser {
  import opened Options
  import opened ConfigTree
  import opened ConfigLexer
  import opened StringQuoting

  const MAX_SECTION_DEPTH := 128

  // ---- strtoll(text, &end, 0) ----

  function DigitValue(c: char): nat {
    if '0' <= c <= '9' then (c - '0') as nat
    else if 'a' <= c <= 'f' then 10 + (c - 'a') as nat
    else if 'A' <= c <= 'F' then 10 + (c - 'A') as nat
    else 16
  }

  function DigitRun(s: string, base: nat): (n: nat)
    ensures n <= |s|
  {
    if s != [] && DigitValue(s[0]) < base then 1 + DigitRun(s[1..], base) else 0
  }

  function ValueOf(s: string, base: nat): nat {
    if s == [] then 0 else ValueOf(s[..|s| - 1], base) * base + DigitValue(s[|s| - 1])
  }

  /** A converted number and how many characters it took. */
  datatype Converted = Converted(value: int, len: nat)

  /** The number without its sign: a leading 0 means octal, 0x hexadecimal. */
  function Unsigned(u: string): Converted {
    var base := if u == [] || u[0] != '0' then 10
                else if |u| > 2 && (u[1] == 'x' || u[1] == 'X') && DigitValue(u[2]) < 16 then 16
                else 8;
    var prefix := if base == 16 then 2 else 0;
    var n := DigitRun(u[prefix..], base);
    if n == 0 then Converted(0, 0) else Converted(ValueOf(u[prefix..][..n], base), prefix + n)
  }

  function StrToLL(s: string): Converted {
    if s != [] && (s[0] == '+' || s[0] == '-') then
      var u := Unsigned(s[1..]);
      if u.len == 0 then u else Converted(if s[0] == '-' then -u.value else u.value, 1 + u.len)
    else Unsigned(s)
  }

  predicate InLongLong(i: int) {
    -0x8000_0000_0000_0000 <= i < 0x8000_0000_0000_0000
  }

  // ---- the productions ----

  datatype Parse<T> = Fail | Ok(value: T, next: Token)

  function Inner(lexeme: string): string
    requires |lexeme| >= 2
  {
    lexeme[1..|lexeme| - 1]
  }

  /** _type: one value; key is the key of the node the value is for. */
  function ParseType(t: Token, key: string): (r: Parse<Value>)
    requires t.tok != TokEof ==> t.lexeme != []
    ensures r.Ok? ==> r.next == NextToken(t.rest, false) && r.next.Size() < t.Size()
  {
    var next := NextToken(t.rest, false);
    match t.tok
    case TokInt =>
      var n := StrToLL(t.lexeme + t.rest);
      if !InLongLong(n.value) then
        if key == "creation_time" then Ok(Int(1527120000, Plain), next) else Fail
      else if n.len == 0 || n.len != |t.lexeme| then Fail
      else Ok(Int(n.value, Plain), next)
    case TokString => if |t.lexeme| < 2 then Fail else Ok(Str(Inner(t.lexeme), Plain), next)
    case TokStringBare => Ok(Str(t.lexeme, Plain), next)
    case TokStringEscaped => if |t.lexeme| < 2 then Fail else Ok(Str(Unescape(Inner(t.lexeme)), Plain), next)
    case _ => Fail
  }

  function SkipComma(t: Token): (r: Token)
    requires t.tok != TokEof ==> t.lexeme != []
    ensures r.tok != TokEof ==> r.lexeme != []
    ensures r.Size() <= t.Size()
  {
    if t.tok == TokComma then NextToken(t.rest, true) else t
  }

  /** The elements of an array, up to the closing bracket. */
  function ParseItems(t: Token, key: string): (r: Parse<seq<Value>>)
    requires t.tok != TokEof ==> t.lexeme != []
    ensures r.Ok? ==> r.next.tok == TokArrayE && r.next.lexeme != [] && r.next.Size() <= t.Size()
    decreases t.Size()
  {
    if t.tok == TokArrayE then Ok([], t)
    else
      match ParseType(t, key)
      case Fail => Fail
      case Ok(v, n) =>
        match ParseItems(SkipComma(n), key)
        case Fail => Fail
        case Ok(vs, m) => Ok([v] + vs, m)
  }

  ghost function Prepend(vs: seq<Value>, r: Parse<seq<Value>>): Parse<seq<Value>> {
    if r.Fail? then Fail else Ok(vs + r.value, r.next)
  }

  lemma PrependStep(vs: seq<Value>, v: Value, r: Parse<seq<Value>>)
    ensures Prepend(vs + [v], r) == Prepend(vs, Prepend([v], r))
  {
    assert r.Ok? ==> vs + [v] + r.value == vs + ([v] + r.value);
  }

  /** _value */
  function ParseValue(t: Token, key: string): (r: Parse<seq<Value>>)
    requires t.tok != TokEof ==> t.lexeme != []
    ensures r.Ok? ==> r.value != [] && r.next.Size() < t.Size()
    ensures r.Ok? ==> (r.next.tok != TokEof ==> r.next.lexeme != [])
  {
    if t.tok == TokArrayB then
      match ParseItems(NextToken(t.rest, true), key)
      case Fail => Fail
      case Ok(vs, n) => Ok(if vs == [] then [EmptyArray(Plain)] else vs, NextToken(n.rest, false))
    else
      match ParseType(t, key)
      case Fail => Fail
      case Ok(v, n) => Ok([v], n)
  }

  /** The key at the start of _section. */
  function ParseKey(t: Token): (r: Parse<string>)
    requires t.tok != TokEof ==> t.lexeme != []
    ensures r.Ok? ==> r.value != [] && r.next == NextToken(t.rest, false) && r.next.Size() < t.Size()
  {
    var next := NextToken(t.rest, false);
    match t.tok
    case TokStringEscaped =>
      if |t.lexeme| < 2 || Unescape(Inner(t.lexeme)) == [] then Fail else Ok(Unescape(Inner(t.lexeme)), next)
    case TokString =>
      if |t.lexeme| < 2 || Inner(t.lexeme) == [] then Fail else Ok(Inner(t.lexeme), next)
    case TokIdentifier => Ok(t.lexeme, next)
    case _ => Fail
  }

  /** The part of _section behind the key: a section or values for the node root. */
  function ParseBody(t: Token, root: Node, depth: nat, noDup: bool): (r: Parse<Node>)
    requires t.tok != TokEof ==> t.lexeme != []
    ensures r.Ok? ==> r.next.Size() < t.Size()
    ensures r.Ok? ==> (r.next.tok != TokEof ==> r.next.lexeme != [])
    decreases t.Size(), 0
  {
    match t.tok
    case TokSectionB =>
      if depth >= MAX_SECTION_DEPTH then Fail
      else (match ParseSections(NextToken(t.rest, false), root.child, depth + 1, noDup)
            case Fail => Fail
            case Ok(child, m) => Ok(root.(child := child), NextToken(m.rest, false)))
    case TokEq =>
      (match ParseValue(NextToken(t.rest, true), root.key)
       case Fail => Fail
       case Ok(vs, m) => Ok(root.(values := vs), m))
    case _ => Fail
  }

  /** _section: the parent's children afterwards, the latest first. */
  function ParseSection(t: Token, kids: seq<Node>, depth: nat, noDup: bool): (r: Parse<seq<Node>>)
    requires t.tok != TokEof ==> t.lexeme != []
    ensures r.Ok? ==> r.next.Size() < t.Size()
    ensures r.Ok? ==> (r.next.tok != TokEof ==> r.next.lexeme != [])
    decreases t.Size(), 0
  {
    match ParseKey(t)
    case Fail => Fail
    case Ok(key, n) =>
      var loc := FindOrMake(kids, Components(key), noDup);
      match ParseBody(n, At(loc.kids, loc.trail), depth, noDup)
      case Fail => Fail
      case Ok(root, m) => Ok(Put(loc.kids, loc.trail, root), m)
  }

  /** The loop of _section up to the closing brace. */
  function ParseSections(t: Token, kids: seq<Node>, depth: nat, noDup: bool): (r: Parse<seq<Node>>)
    requires t.tok != TokEof ==> t.lexeme != []
    ensures r.Ok? ==> r.next.tok == TokSectionE && r.next.lexeme != [] && r.next.Size() <= t.Size()
    decreases t.Size(), 1
  {
    if t.tok == TokSectionE then Ok(kids, t)
    else
      match ParseSection(t, kids, depth, noDup)
      case Fail => Fail
      case Ok(more, n) => ParseSections(n, more, depth, noDup)
  }

  /** _file */
  function ParseFile(t: Token, kids: seq<Node>, noDup: bool): Option<seq<Node>>
    requires t.tok != TokEof ==> t.lexeme != []
    decreases t.Size()
  {
    if t.tok == TokEof then Some(kids)
    else
      match ParseSection(t, kids, 0, noDup)
      case Fail => None
      case Ok(more, n) => ParseFile(n, more, noDup)
  }

  function ReverseNode(n: Node): Node
    decreases n, 1
  {
    n.(child := ConfigReverse(n.child))
  }

  /** _config_reverse: the siblings at every level in the opposite order. */
  function ConfigReverse(ns: seq<Node>): (r: seq<Node>)
    ensures |r| == |ns|
    decreases ns, 0
  {
    if ns == [] then [] else ConfigReverse(ns[1..]) + [ReverseNode(ns[0])]
  }

  /** _do_dm_config_parse: an empty file is refused. */
  function ParseText(text: string, noDup: bool): Option<seq<Node>> {
    match ParseFile(NextToken(text, false), [], noDup)
    case None => None
    case Some(kids) => if kids == [] then None else Some(ConfigReverse(kids))
  }

  // ---- the code ----

  lemma TokenSlices(text: string, from: nat, tb: nat, te: nat, t: Tok, values: bool)
    requires from <= |text| && tb == from + SpaceLen(text[from..]) && tb <= te <= |text|
    requires Kind(t, te - tb) == Classify(text[tb..], values)
    ensures Token(t, text[tb..te], text[te..]) == NextToken(text[from..], values)
    ensures t != TokEof ==> tb < te
  {
    hide SpaceLen, Classify;
    assert text[from..][tb - from..] == text[tb..];
    assert text[tb..][..te - tb] == text[tb..te] && text[tb..][te - tb..] == text[te..];
  }

  class Parser {
    const text: string
    const noDup: bool
    var t: Tok
    var tb: nat
    var te: nat
    var depth: nat

    ghost predicate Valid()
      reads this`t, this`tb, this`te
    {
      && tb <= te <= |text|
      && (t != TokEof ==> tb < te)
    }

    ghost function Current(): Token
      requires Valid()
      reads this`t, this`tb, this`te
    {
      Token(t, text[tb..te], text[te..])
    }

    constructor (text: string, noDup: bool)
      ensures this.text == text && this.noDup == noDup && depth == 0
      ensures Valid() && te == 0
    {
      this.text, this.noDup := text, noDup;
      t, tb, te, depth := TokEof, 0, 0, 0;
    }

    /** _get_token */
    method GetToken(prev: Tok)
      requires Valid()
      modifies this`t, this`tb, this`te
      ensures Valid() && Current() == NextToken(old(text[te..]), ValuesAllowed(prev))
    {
      hide SpaceLen, Classify, NextToken;
      ghost var from := te;
      tb := EatSpace(text, te);
      t, te := ScanToken(text, tb, ValuesAllowed(prev));
      TokenSlices(text, from, tb, te, t, ValuesAllowed(prev));
    }

    /** The first token of the text. */
    method Start()
      requires Valid() && te == 0
      modifies this`t, this`tb, this`te
      ensures Valid() && Current() == NextToken(text, false)
    {
      hide NextToken;
      assert text[0..] == text;
      GetToken(TokSectionE);
    }

    /** _match_aux */
    method Match(tok: Tok) returns (ok: bool)
      requires Valid()
      modifies this`t, this`tb, this`te
      ensures ok == (old(t) == tok)
      ensures Valid()
      ensures ok ==> Current() == NextToken(old(Current()).rest, ValuesAllowed(tok))
      ensures !ok ==> Current() == old(Current())
    {
      ok := t == tok;
      if ok {
        GetToken(tok);
      }
    }

    method Type(key: string) returns (r: Option<Value>)
      requires Valid()
      modifies this`t, this`tb, this`te
      ensures Valid()
      ensures match ParseType(old(Current()), key)
              case Fail => r == None
              case Ok(v, n) => r == Some(v) && Current() == n
    {
      hide NextToken, StrToLL, Unescape;
      var lexeme := text[tb..te];
      r := None;
      match t {
        case TokInt =>
          assert text[tb..] == lexeme + text[te..];
          var n := StrToLL(text[tb..]);
          if !InLongLong(n.value) {
            if key != "creation_time" {
              return;
            }
            r := Some(Int(1527120000, Plain));
          } else if n.len == 0 || n.len != te - tb {
            return;
          } else {
            r := Some(Int(n.value, Plain));
          }
        case TokString =>
          if te - tb < 2 {
            return;
          }
          r := Some(Str(Inner(lexeme), Plain));
        case TokStringBare =>
          r := Some(Str(lexeme, Plain));
        case TokStringEscaped =>
          if te - tb < 2 {
            return;
          }
          r := Some(Str(Unescape(Inner(lexeme)), Plain));
        case _ =>
          return;
      }
      var _ := Match(t);
    }

    /** One element of an array and the comma that may follow it. */
    method Item(key: string) returns (r: Option<Value>)
      requires Valid()
      modifies this`t, this`tb, this`te
      ensures Valid()
      ensures match ParseType(old(Current()), key)
              case Fail => r == None
              case Ok(v, n) => r == Some(v) && Current() == SkipComma(n)
    {
      r := Type(key);
      if r.Some? && t == TokComma {
        var _ := Match(TokComma);
      }
    }

    /** The loop of _value over the elements of an array. */
    method Items(key: string) returns (r: Option<seq<Value>>)
      requires Valid()
      modifies this`t, this`tb, this`te
      ensures Valid()
      ensures match ParseItems(old(Current()), key)
              case Fail => r == None
              case Ok(vs, n) => r == Some(vs) && Current() == n
    {
      hide NextToken, ParseType;
      var vs := [];
      ghost var all := ParseItems(Current(), key);
      assert all.Ok? ==> [] + all.value == all.value;
      while t != TokArrayE
        invariant Valid()
        invariant Prepend(vs, ParseItems(Current(), key)) == all
        decreases Current().Size()
      {
        var v := Item(key);
        if v == None {
          return None;
        }
        PrependStep(vs, v.value, ParseItems(Current(), key));
        vs := vs + [v.value];
      }
      assert vs + [] == vs;
      return Some(vs);
    }

    /** _value */
    method Value(key: string) returns (r: Option<seq<Value>>)
      requires Valid()
      modifies this`t, this`tb, this`te
      ensures Valid()
      ensures match ParseValue(old(Current()), key)
              case Fail => r == None
              case Ok(vs, n) => r == Some(vs) && Current() == n
    {
      hide NextToken, ParseItems, ParseType;
      if t == TokArrayB {
        var _ := Match(TokArrayB);
        r := Items(key);
        if r.Some? {
          var _ := Match(TokArrayE);
          if r.value == [] {
            r := Some([EmptyArray(Plain)]);
          }
        }
      } else {
        var v := Type(key);
        r := if v.Some? then Some([v.value]) else None;
      }
    }

    method Key() returns (r: Option<string>)
      requires Valid()
      modifies this`t, this`tb, this`te
      ensures Valid()
      ensures match ParseKey(old(Current()))
              case Fail => r == None
              case Ok(key, n) => r == Some(key) && Current() == n
    {
      hide NextToken, Unescape;
      var lexeme := text[tb..te];
      var str;
      if t == TokStringEscaped {
        if te - tb < 2 {
          return None;
        }
        str := Unescape(Inner(lexeme));
        var _ := Match(TokStringEscaped);
      } else if t == TokString {
        if te - tb < 2 {
          return None;
        }
        str := Inner(lexeme);
        var _ := Match(TokString);
      } else {
        str := lexeme;
        var ok := Match(TokIdentifier);
        if !ok {
          return None;
        }
      }
      return if str == [] then None else Some(str);
    }

    /** The nodes between the braces of a section. */
    method Braces(kids: seq<Node>) returns (r: Option<seq<Node>>)
      requires Valid() && t == TokSectionB
      modifies this
      ensures Valid()
      ensures match ParseSections(NextToken(old(Current()).rest, false), kids, old(depth) + 1, noDup)
              case Fail => r == None
              case Ok(more, m) => r == Some(more) && Current() == NextToken(m.rest, false) && depth == old(depth)
      decreases Current().Size(), 0
    {
      hide NextToken, ParseSections;
      ghost var first := NextToken(Current().rest, false);
      ghost var all := ParseSections(first, kids, depth + 1, noDup);
      var _ := Match(TokSectionB);
      depth := depth + 1;
      assert Current() == first;
      assert ParseSections(Current(), kids, depth, noDup) == all;
      r := Sections(kids);
      if r == None {
        return;
      }
      depth := depth - 1;
      var _ := Match(TokSectionE);
    }

    method Body(root: Node) returns (r: Option<Node>)
      requires Valid()
      modifies this
      ensures Valid()
      ensures match ParseBody(old(Current()), root, old(depth), noDup)
              case Fail => r == None
              case Ok(n, m) => r == Some(n) && Current() == m && depth == old(depth)
      decreases Current().Size(), 1
    {
      hide NextToken, ParseSections, ParseValue;
      if t == TokSectionB {
        if depth >= MAX_SECTION_DEPTH {
          return None;
        }
        var child := Braces(root.child);
        return if child == None then None else Some(root.(child := child.value));
      }
      var ok := Match(TokEq);
      if !ok {
        return None;
      }
      var value := Value(root.key);
      return if value == None then None else Some(root.(values := value.value));
    }

    /** _section. The node found or made for the key is put back with its new value
        or its new children. */
    method Section(kids: seq<Node>) returns (r: Option<seq<Node>>)
      requires Valid()
      modifies this
      ensures Valid()
      ensures match ParseSection(old(Current()), kids, old(depth), noDup)
              case Fail => r == None
              case Ok(more, n) => r == Some(more) && Current() == n && depth == old(depth)
      decreases Current().Size(), 2
    {
      var key := Key();
      if key == None {
        return None;
      }
      var loc := FindOrMake(kids, Components(key.value), noDup);
      var root := Body(At(loc.kids, loc.trail));
      return if root == None then None else Some(Put(loc.kids, loc.trail, root.value));
    }

    /** The loop of _section over the nodes of a section. */
    method Sections(kids: seq<Node>) returns (r: Option<seq<Node>>)
      requires Valid()
      modifies this
      ensures Valid()
      ensures match ParseSections(old(Current()), kids, old(depth), noDup)
              case Fail => r == None
              case Ok(more, n) => r == Some(more) && Current() == n && depth == old(depth)
      decreases Current().Size(), 3
    {
      var list := kids;
      ghost var all := ParseSections(Current(), kids, depth, noDup);
      while t != TokSectionE
        invariant Valid() && depth == old(depth)
        invariant Current().Size() <= old(Current().Size())
        invariant ParseSections(Current(), list, depth, noDup) == all
        decreases Current().Size()
      {
        var more := Section(list);
        if more == None {
          return None;
        }
        list := more.value;
      }
      return Some(list);
    }

    /** _file */
    method File() returns (r: Option<seq<Node>>)
      requires Valid() && depth == 0
      modifies this
      ensures r == ParseFile(old(Current()), [], noDup)
    {
      var list := [];
      ghost var all := ParseFile(Current(), [], noDup);
      while t != TokEof
        invariant Valid() && depth == 0
        invariant ParseFile(Current(), list, noDup) == all
        decreases Current().Size()
      {
        var more := Section(list);
        if more == None {
          return None;
        }
        list := more.value;
      }
      return Some(list);
    }
  }

  /** dm_config_parse and dm_config_parse_without_dup_node_check */
  method ConfigParse(text: string, noDup: bool) returns (r: Option<seq<Node>>)
    ensures r == ParseText(text, noDup)
  {
    hide NextToken, ParseFile, ConfigReverse;
    var p := new Parser(text, noDup);
    p.Start();
    r := p.File();
    if r.Some? {
      r := if r.value == [] then None else Some(ConfigReverse(r.value));
    }
  }
}
