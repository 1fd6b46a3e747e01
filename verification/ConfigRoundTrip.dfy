/** Printing a configuration tree and parsing the text gives the tree back. */
module ConfigRoundTrip {
  import opened Options
  import opened CStrings
  import opened ConfigTree
  import opened ConfigLexer
  import opened ConfigParser
  import opened ConfigWriter
  import opened ConfigTokens
  import opened StringQuoting

  // ---- which trees, and what comes back ----

  predicate ValueOk(v: Value) {
    match v
    case Int(i, f) => IntOk(i, f)
    case Str(s, f) => NUL !in s && !f.typed
    case EmptyArray(_) => false
  }

  predicate ValuesOk(vs: seq<Value>) {
    || (|vs| == 1 && vs[0].EmptyArray?)
    || (vs != [] && forall v :: v in vs ==> ValueOk(v))
  }

  /** The trees the printer keeps: siblings have distinct keys that print as one key
      and are no paths, and a node is a section or has values, not both. */
  predicate NodeOk(n: Node)
    decreases n, 1
  {
    && KeyOk(n.key) && '/' !in n.key
    && (n.values == [] || (ValuesOk(n.values) && n.child == []))
    && Printable(n.child)
  }

  predicate Printable(ns: seq<Node>)
    decreases ns, 0
  {
    ns == [] || (NodeOk(ns[0]) && Printable(ns[1..]) && forall m :: m in ns[1..] ==> m.key != ns[0].key)
  }

  function Max(a: nat, b: nat): nat { if a < b then b else a }

  /** How deep sections are nested. */
  function NodeDepth(n: Node): nat
    decreases n, 1
  {
    if n.values != [] then 0 else 1 + Depth(n.child)
  }

  function Depth(ns: seq<Node>): nat
    decreases ns, 0
  {
    if ns == [] then 0 else Max(NodeDepth(ns[0]), Depth(ns[1..]))
  }

  /** Formatting flags are not part of the text. */
  function StripValue(v: Value): Value { v.(format := Plain) }

  function StripValues(vs: seq<Value>): (r: seq<Value>)
    ensures |r| == |vs|
  {
    if vs == [] then [] else [StripValue(vs[0])] + StripValues(vs[1..])
  }

  function StripNode(n: Node): Node
    decreases n, 1
  {
    Node(n.key, StripValues(n.values), Strip(n.child))
  }

  function Strip(ns: seq<Node>): (r: seq<Node>)
    ensures |r| == |ns|
    decreases ns, 0
  {
    if ns == [] then [] else [StripNode(ns[0])] + Strip(ns[1..])
  }

  // ---- remarks ----

  /** What a user may add to the printed text of a node: white space and comments in
      front of it, remarks on its children, white space and comments in front of its
      closing brace, and a comment behind it on its line. */
  datatype Remark = Remark(before: seq<Gap>, inside: seq<Remark>, close: seq<Gap>, behind: Option<string>)

  const NO_REMARK := Remark([], [], [], None)

  /** Nodes without a remark of their own have none. */
  function First(rs: seq<Remark>): Remark { if rs == [] then NO_REMARK else rs[0] }

  function Others(rs: seq<Remark>): seq<Remark> { if rs == [] then [] else rs[1..] }

  predicate RemarkOk(r: Remark)
    decreases r, 1
  {
    && GapsOk(r.before) && GapsOk(r.close) && RemarksOk(r.inside)
    && (r.behind.Some? ==> Comment(r.behind.value).Ok())
  }

  predicate RemarksOk(rs: seq<Remark>)
    decreases rs, 0
  {
    rs == [] || (RemarkOk(rs[0]) && RemarksOk(rs[1..]))
  }

  lemma RemarksSplit(rs: seq<Remark>)
    requires RemarksOk(rs)
    ensures RemarkOk(First(rs)) && RemarksOk(Others(rs))
  {
  }

  /** The printed text of a node with its remark. */
  function NodeWith(n: Node, r: Remark, level: nat): string
    decreases n, 2
  {
    GapText(r.before) + Indent(level) + KeyText(n.key) + BodyWith(n, r, level) + Behind(r) + "\n"
  }

  function Behind(r: Remark): string { if r.behind.Some? then " #" + r.behind.value else "" }

  function BodyWith(n: Node, r: Remark, level: nat): string
    decreases n, 1
  {
    if n.values == [] then
      " {\n" + ForestWith(n.child, r.inside, level + 1) + GapText(r.close) + Indent(level) + "}"
    else
      Spacing(n.values[0]) + "=" + Spacing(n.values[0]) + WriteValues(n.values)
  }

  function ForestWith(ns: seq<Node>, rs: seq<Remark>, level: nat): string
    decreases ns, 0
  {
    if ns == [] then "" else NodeWith(ns[0], First(rs), level) + ForestWith(ns[1..], Others(rs), level)
  }

  lemma {:induction false} NodePlain(n: Node, level: nat)
    ensures NodeWith(n, NO_REMARK, level) == WriteNode(n, level)
    decreases n, 1
  {
    hide Indent, KeyText, WriteValues, Spacing;
    if n.values == [] {
      ForestPlain(n.child, level + 1);
      assert WriteForest(n.child, level + 1) + "" == WriteForest(n.child, level + 1);
      assert " {\n" + WriteForest(n.child, level + 1) + "" == " {\n" + WriteForest(n.child, level + 1);
    }
    assert BodyWith(n, NO_REMARK, level) == WriteBody(n, level);
    hide BodyWith, WriteBody;
    assert "" + Indent(level) == Indent(level);
    var w := Indent(level) + KeyText(n.key) + WriteBody(n, level);
    assert w + "" == w;
  }

  /** Without remarks it is the text of the printer. */
  lemma {:induction false} ForestPlain(ns: seq<Node>, level: nat)
    ensures ForestWith(ns, [], level) == WriteForest(ns, level)
    decreases ns, 0
  {
    hide NodeWith, WriteNode;
    if ns != [] {
      NodePlain(ns[0], level);
      ForestPlain(ns[1..], level);
    }
  }

  // ---- values ----

  lemma TypeRoundTrip(v: Value, key: string, r: string)
    requires ValueOk(v) && Delimits(r)
    ensures var t := NextToken(WriteValue(v) + r, true);
            t.tok != TokEof && t.tok != TokArrayB && t.tok != TokArrayE
            && ParseType(t, key) == Ok(StripValue(v), NextToken(r, false))
  {
    match v
    case Int(i, f) =>
      hide NextToken, StrToLL, WriteValue, IntegerText, Delimits;
      IntegerRoundTrip(i, f, r);
      IntegerToken(WriteValue(v), r);
    case Str(s, f) =>
      hide NextToken, Unescape, Quoted;
      QuotedToken(s, r, true);
      QuotedText(s, f);
  }

  lemma QuotedText(s: string, f: Format)
    requires !f.typed
    ensures WriteValue(Str(s, f)) == Quoted(s)
  {
  }

  predicate AllSpace(sp: string) { sp == "" || sp == " " }

  lemma SpaceChars(sp: string)
    requires AllSpace(sp)
    ensures forall c :: c in sp ==> IsSpace(c)
  {
  }

  /** Behind the last element of an array. */
  lemma ItemsEnd(sp: string, r: string, values: bool)
    requires AllSpace(sp)
    ensures Delimits(sp + "]" + r)
    ensures NextToken(sp + "]" + r, values) == Token(TokArrayE, "]", r)
  {
    hide NextToken, IsSpace;
    SpaceChars(sp);
    NextTokenSpace(sp, "]" + r, values);
    Punctuation(']', r, values);
    Cat(sp, "]", r);
  }

  lemma ItemsStep(t: Token, v: Value, n: Token, key: string)
    requires t.tok != TokArrayE && t.tok != TokEof && t.lexeme != [] && ParseType(t, key) == Ok(v, n)
    ensures ParseItems(t, key) == Prepend([v], ParseItems(SkipComma(n), key))
  {
    hide NextToken, ParseType;
  }

  lemma ItemsStop(r: string, key: string)
    ensures ParseItems(Token(TokArrayE, "]", r), key) == Ok([], Token(TokArrayE, "]", r))
  {
  }

  lemma {:induction false} ItemsRoundTrip(vs: seq<Value>, sp: string, key: string, r: string)
    requires vs != [] && (forall v :: v in vs ==> ValueOk(v)) && AllSpace(sp)
    ensures var t := NextToken(WriteItems(vs, sp) + (sp + "]" + r), true);
            (t.tok != TokEof ==> t.lexeme != [])
            && ParseItems(t, key) == Ok(StripValues(vs), Token(TokArrayE, "]", r))
  {
    hide NextToken, WriteItems, WriteValue, ParseType, ParseItems, ValueOk, AllSpace, Delimits;
    var end := sp + "]" + r;
    ItemsEnd(sp, r, false);
    ItemsStop(r, key);
    assert vs[0] in vs;
    ValueKind(vs[0]);
    if |vs| == 1 {
      OneItem(vs, sp, end);
      TypeRoundTrip(vs[0], key, end);
      var t := NextToken(WriteValue(vs[0]) + end, true);
      ItemsStep(t, StripValue(vs[0]), NextToken(end, false), key);
      assert vs[1..] == [];
    } else {
      var more := WriteItems(vs[1..], sp) + end;
      assert vs[1] in vs;
      ValueKind(vs[1]);
      MoreItems(vs, sp, end);
      CommaThen(sp, more);
      TypeRoundTrip(vs[0], key, "," + (sp + more));
      ItemsRoundTrip(vs[1..], sp, key, r);
      ItemsStep(NextToken(WriteValue(vs[0]) + ("," + (sp + more)), true), StripValue(vs[0]),
                NextToken("," + (sp + more), false), key);
    }
  }

  lemma ValueKind(v: Value)
    requires ValueOk(v)
    ensures !v.EmptyArray?
  {
  }

  lemma CommaThen(sp: string, more: string)
    requires AllSpace(sp)
    ensures Delimits("," + (sp + more))
    ensures SkipComma(NextToken("," + (sp + more), false)) == NextToken(more, true)
  {
    hide NextToken, IsSpace;
    SpaceChars(sp);
    Punctuation(',', sp + more, false);
    NextTokenSpace(sp, more, true);
  }

  lemma OneItem(vs: seq<Value>, sp: string, end: string)
    requires |vs| == 1 && !vs[0].EmptyArray?
    ensures WriteItems(vs, sp) + end == WriteValue(vs[0]) + end
  {
    assert vs[1..] == [];
    assert WriteItems(vs, sp) == WriteValue(vs[0]) + "" + "";
  }

  lemma MoreItems(vs: seq<Value>, sp: string, end: string)
    requires |vs| > 1 && !vs[0].EmptyArray? && !vs[1].EmptyArray?
    ensures WriteItems(vs, sp) + end == WriteValue(vs[0]) + ("," + (sp + (WriteItems(vs[1..], sp) + end)))
  {
    var w, rest := WriteValue(vs[0]), WriteItems(vs[1..], sp);
    assert WriteItems(vs, sp) == w + ("," + sp) + rest;
    hide WriteItems, WriteValue;
    Cat(w + ("," + sp), rest, end);
    Cat(w, "," + sp, rest + end);
    Cat(",", sp, rest + end);
  }

  // ---- the values of a node ----

  lemma ArrayValue(t: Token, vs: seq<Value>, n: Token, key: string)
    requires t.tok == TokArrayB && t.lexeme != [] && vs != []
    requires ParseItems(NextToken(t.rest, true), key) == Ok(vs, n)
    ensures ParseValue(t, key) == Ok(vs, NextToken(n.rest, false))
  {
    hide NextToken, ParseItems;
  }

  lemma SingleValue(t: Token, v: Value, n: Token, key: string)
    requires t.tok != TokArrayB && t.tok != TokEof && t.lexeme != []
    requires ParseType(t, key) == Ok(v, n)
    ensures ParseValue(t, key) == Ok([v], n)
  {
    hide NextToken, ParseType;
  }

  /** The values of a node, from the bracket or the single value on. */
  lemma ValuesRoundTrip(vs: seq<Value>, key: string, r: string)
    requires ValuesOk(vs) && Delimits(r)
    ensures var t := NextToken(WriteValues(vs) + r, true);
            (t.tok != TokEof ==> t.lexeme != [])
            && ParseValue(t, key) == Ok(StripValues(vs), NextToken(r, false))
  {
    hide NextToken, ParseItems, ParseType, ParseValue, WriteItems, WriteValue, ValueOk, Delimits;
    var sp := Spacing(vs[0]);
    assert vs[0] in vs;
    if ValueOk(vs[0]) {
      ValueKind(vs[0]);
    }
    if vs[0].EmptyArray? {
      EmptyArrayRoundTrip(vs[0], key, r);
      SingleList(vs);
    } else if |vs| > 1 || vs[0].format.asArray {
      ArrayRoundTrip(vs, key, r);
    } else {
      SingleList(vs);
      TypeRoundTrip(vs[0], key, r);
      SingleValue(NextToken(WriteValue(vs[0]) + r, true), StripValue(vs[0]), NextToken(r, false), key);
    }
  }

  lemma SingleList(vs: seq<Value>)
    requires |vs| == 1
    ensures StripValues(vs) == [StripValue(vs[0])]
  {
    assert vs[1..] == [];
  }

  lemma ArrayRoundTrip(vs: seq<Value>, key: string, r: string)
    requires vs != [] && (forall v :: v in vs ==> ValueOk(v)) && (|vs| > 1 || vs[0].format.asArray)
    ensures var t := NextToken(WriteValues(vs) + r, true);
            (t.tok != TokEof ==> t.lexeme != [])
            && ParseValue(t, key) == Ok(StripValues(vs), NextToken(r, false))
  {
    hide NextToken, ParseItems, ParseValue, WriteItems, WriteValues, ValueOk, IsSpace;
    var sp := Spacing(vs[0]);
    var items := WriteItems(vs, sp) + (sp + "]" + r);
    assert vs[0] in vs;
    ValueKind(vs[0]);
    ArrayText(vs, r);
    ItemsRoundTrip(vs, sp, key, r);
    Punctuation('[', sp + items, true);
    SpaceChars(sp);
    NextTokenSpace(sp, items, true);
    ArrayValue(Token(TokArrayB, "[", sp + items), StripValues(vs), Token(TokArrayE, "]", r), key);
  }

  lemma ArrayText(vs: seq<Value>, r: string)
    requires vs != [] && !vs[0].EmptyArray? && (|vs| > 1 || vs[0].format.asArray)
    ensures var sp := Spacing(vs[0]);
            WriteValues(vs) + r == "[" + (sp + (WriteItems(vs, sp) + (sp + "]" + r)))
  {
    hide WriteItems, WriteValue, Spacing;
    var sp := Spacing(vs[0]);
    if |vs| == 1 {
      OneItem(vs, sp, sp + "]" + r);
    }
    var w := if |vs| == 1 then WriteValue(vs[0]) else WriteItems(vs, sp);
    Bracketed(sp, w, r);
  }

  lemma Bracketed(sp: string, w: string, r: string)
    ensures "[" + sp + w + sp + "]" + r == "[" + (sp + (w + (sp + "]" + r)))
  {
    Cat("[" + sp + w, sp, "]");
    Cat("[" + sp + w, sp + "]", r);
    Cat("[" + sp, w, sp + "]" + r);
    Cat("[", sp, w + (sp + "]" + r));
  }

  lemma EmptyArrayRoundTrip(v: Value, key: string, r: string)
    requires v.EmptyArray?
    ensures var t := NextToken(WriteValue(v) + r, true);
            (t.tok != TokEof ==> t.lexeme != [])
            && ParseValue(t, key) == Ok([EmptyArray(Plain)], NextToken(r, false))
  {
    hide NextToken, ParseItems, ParseType;
    var sp := Spacing(v);
    ItemsEnd(sp, r, true);
    ItemsStop(r, key);
    Punctuation('[', sp + "]" + r, true);
    assert WriteValue(v) == "[" + sp + "]";
    Cat("[", sp, "]");
    Cat("[", sp + "]", r);
  }

  // ---- nodes ----

  /** What the parser has made of a printed node: the last child comes first. */
  function Parsed(n: Node): Node { ReverseNode(StripNode(n)) }

  predicate Fresh(key: string, kids: seq<Node>) {
    forall k :: k in kids ==> k.key != key
  }

  lemma FreshNode(kids: seq<Node>, key: string, noDup: bool, root: Node)
    requires PathKey(key) && Fresh(key, kids)
    ensures var loc := FindOrMake(kids, Components(key), noDup);
            At(loc.kids, loc.trail) == Node(key, [], [])
            && Put(loc.kids, loc.trail, root) == [root] + kids
  {
    ComponentsOfKey(key);
    assert FindKey(kids, key) == |kids|;
  }

  lemma IndentSpace(level: nat)
    ensures forall c :: c in Indent(level) ==> IsSpace(c)
  {
  }

  function Attached(b: Parse<Node>, kids: seq<Node>): Parse<seq<Node>> {
    if b.Fail? then Fail else Ok([b.value] + kids, b.next)
  }

  lemma SectionStep(t: Token, key: string, n: Token, kids: seq<Node>, depth: nat, noDup: bool)
    requires t.tok != TokEof && t.lexeme != [] && ParseKey(t) == Ok(key, n)
    requires PathKey(key) && Fresh(key, kids)
    ensures ParseSection(t, kids, depth, noDup) == Attached(ParseBody(n, Node(key, [], []), depth, noDup), kids)
  {
    hide NextToken, ParseKey, ParseBody, FindOrMake, At, Put, Components, Fresh;
    if ParseBody(n, Node(key, [], []), depth, noDup).Ok? {
      FreshNode(kids, key, noDup, ParseBody(n, Node(key, [], []), depth, noDup).value);
    } else {
      FreshNode(kids, key, noDup, Node(key, [], []));
    }
  }

  lemma NodeText(n: Node, m: Remark, level: nat, r: string)
    ensures NodeWith(n, m, level) + r ==
            GapText(m.before) + (Indent(level) + (KeyText(n.key) + (BodyWith(n, m, level) + LineEnd(m, r))))
  {
    hide BodyWith, Indent, KeyText, GapText, Behind;
    var g, i, k, b, c := GapText(m.before), Indent(level), KeyText(n.key), BodyWith(n, m, level), Behind(m);
    Cat(g + i + k + b + c, "\n", r);
    Cat(g + i + k + b, c, "\n" + r);
    Cat(g + i + k, b, c + ("\n" + r));
    Cat(g + i, k, b + (c + ("\n" + r)));
    Cat(g, i, k + (b + (c + ("\n" + r))));
  }

  /** The text behind a node. */
  function LineEnd(m: Remark, r: string): string { Behind(m) + ("\n" + r) }

  lemma LineEnds(m: Remark, r: string)
    requires RemarkOk(m)
    ensures Delimits(LineEnd(m, r)) && NextToken(LineEnd(m, r), false) == NextToken(r, false)
  {
    hide NextToken;
    NewlineThen(r);
    if m.behind.Some? {
      var c := m.behind.value;
      CommentSkipped(c, r, false);
      NextTokenSpace(" ", "#" + c + "\n" + r, false);
      BehindText(c, r);
    } else {
      assert "" + ("\n" + r) == "\n" + r;
    }
  }

  lemma BehindText(c: string, r: string)
    ensures " #" + c + ("\n" + r) == " " + ("#" + c + "\n" + r)
  {
    assert " #" == " " + "#";
    Cat(" ", "#", c);
    Cat(" ", "#" + c, "\n" + r);
    Cat("#" + c, "\n", r);
  }

  lemma SectionText(n: Node, m: Remark, level: nat, r: string)
    requires n.values == []
    ensures BodyWith(n, m, level) + r ==
            " {" + ("\n" + (ForestWith(n.child, m.inside, level + 1) + (GapText(m.close) + (Indent(level) + ("}" + r)))))
  {
    hide ForestWith, Indent, GapText;
    var f, c, i := ForestWith(n.child, m.inside, level + 1), GapText(m.close), Indent(level);
    assert " {\n" == " {" + "\n";
    Cat(" {\n" + f + c + i, "}", r);
    Cat(" {\n" + f + c, i, "}" + r);
    Cat(" {\n" + f, c, i + ("}" + r));
    Cat(" {\n", f, c + (i + ("}" + r)));
    Cat(" {", "\n", f + (c + (i + ("}" + r))));
  }

  lemma LeafText(n: Node, m: Remark, level: nat, r: string)
    requires n.values != []
    ensures var sp := Spacing(n.values[0]);
            BodyWith(n, m, level) + r == sp + ("=" + (sp + (WriteValues(n.values) + r)))
  {
    hide WriteValues, Spacing;
    var sp, w := Spacing(n.values[0]), WriteValues(n.values);
    Cat(sp + "=" + sp, w, r);
    Cat(sp + "=", sp, w + r);
    Cat(sp, "=", sp + (w + r));
  }

  lemma BodyEndsKey(n: Node, m: Remark, level: nat, r: string)
    requires n.values == [] || ValuesOk(n.values)
    ensures EndsKey(BodyWith(n, m, level) + r)
  {
    hide ForestWith, WriteValues, Indent, ValuesOk, GapText;
    if n.values == [] {
      SectionText(n, m, level, r);
    } else {
      LeafText(n, m, level, r);
    }
  }

  lemma SpaceThen(sp: string, c: char, r: string, values: bool)
    requires AllSpace(sp) && c in "{}[],="
    ensures NextToken(sp + ([c] + r), values) == NextToken([c] + r, values)
  {
    hide NextToken, IsSpace;
    SpaceChars(sp);
    NextTokenSpace(sp, [c] + r, values);
  }

  lemma NewlineThen(r: string)
    ensures NextToken("\n" + r, false) == NextToken(r, false)
    ensures Delimits("\n" + r)
  {
    NextTokenSpace("\n", r, false);
  }

  lemma BracesEnd(gs: seq<Gap>, level: nat, r: string)
    requires GapsOk(gs)
    ensures NextToken(GapText(gs) + (Indent(level) + ("}" + r)), false) == Token(TokSectionE, "}", r)
  {
    hide NextToken, Indent, IsSpace, GapText;
    GapSkipped(gs, Indent(level) + ("}" + r), false);
    IndentSpace(level);
    NextTokenSpace(Indent(level), "}" + r, false);
    Punctuation('}', r, false);
  }

  lemma BodyOfLeaf(root: Node, t: Token, vs: seq<Value>, n: Token, depth: nat, noDup: bool)
    requires t.tok == TokEq && t.lexeme != [] && ParseValue(NextToken(t.rest, true), root.key) == Ok(vs, n)
    ensures ParseBody(t, root, depth, noDup) == Ok(Node(root.key, vs, root.child), n)
  {
    hide NextToken, ParseValue, ParseSections;
  }

  /** The values of a node, read for any node that takes them. */
  lemma LeafRoundTrip(n: Node, m: Remark, level: nat, root: Node, depth: nat, noDup: bool, e: string)
    requires ValuesOk(n.values) && Delimits(e)
    ensures var t := NextToken(BodyWith(n, m, level) + e, false);
            (t.tok != TokEof ==> t.lexeme != [])
            && ParseBody(t, root, depth, noDup)
               == Ok(Node(root.key, StripValues(n.values), root.child), NextToken(e, false))
  {
    hide NextToken, ParseBody, ParseValue, BodyWith, WriteValues, ValueOk, IsSpace, Delimits, ValuesOk;
    ValuesExist(n.values);
    var sp := Spacing(n.values[0]);
    var text := WriteValues(n.values) + e;
    LeafText(n, m, level, e);
    SpaceThen(sp, '=', sp + text, false);
    Punctuation('=', sp + text, false);
    SpaceChars(sp);
    NextTokenSpace(sp, text, true);
    ValuesRoundTrip(n.values, root.key, e);
    BodyOfLeaf(root, Token(TokEq, "=", sp + text), StripValues(n.values), NextToken(e, false), depth, noDup);
  }

  lemma ValuesExist(vs: seq<Value>)
    requires ValuesOk(vs)
    ensures vs != []
  {
  }

  lemma BodyOfSection(root: Node, t: Token, depth: nat, noDup: bool)
    requires t.tok == TokSectionB && t.lexeme != []
    ensures ParseBody(t, root, depth, noDup) ==
            if depth >= MAX_SECTION_DEPTH then Fail
            else match ParseSections(NextToken(t.rest, false), root.child, depth + 1, noDup)
                 case Fail => Fail
                 case Ok(child, m) => Ok(Node(root.key, root.values, child), NextToken(m.rest, false))
  {
    hide NextToken, ParseSections;
  }

  /** The body of a printed node, read for the node just made for its key; e is the text
      behind it. */
  lemma {:induction false} BodyRoundTrip(n: Node, m: Remark, level: nat, depth: nat, noDup: bool, e: string)
    requires NodeOk(n) && RemarkOk(m) && depth <= MAX_SECTION_DEPTH && Delimits(e)
    ensures var t := NextToken(BodyWith(n, m, level) + e, false);
            (t.tok != TokEof ==> t.lexeme != [])
            && ParseBody(t, Node(n.key, [], []), depth, noDup)
               == if depth + NodeDepth(n) <= MAX_SECTION_DEPTH then Ok(Parsed(n), NextToken(e, false)) else Fail
    decreases n, 1
  {
    hide NextToken, ParseBody, ParseSections, BodyWith, ForestWith, ValuesOk, Printable, KeyOk, Indent, GapText, Delimits,
         RemarksOk;
    ParsedNode(n);
    if n.values != [] {
      LeafRoundTrip(n, m, level, Node(n.key, [], []), depth, noDup, e);
      LeafDepth(n);
    } else {
      var end := GapText(m.close) + (Indent(level) + ("}" + e));
      var text := ForestWith(n.child, m.inside, level + 1) + end;
      SectionText(n, m, level, e);
      SectionStart(text);
      NewlineThen(text);
      BracesEnd(m.close, level, e);
      BodyOfSection(Node(n.key, [], []), Token(TokSectionB, "{", "\n" + text), depth, noDup);
      if depth < MAX_SECTION_DEPTH {
        ForestRoundTrip(n.child, m.inside, level + 1, [], depth + 1, noDup, end, e);
        assert ConfigReverse(Strip(n.child)) + [] == ConfigReverse(Strip(n.child));
      }
    }
  }

  lemma ParsedNode(n: Node)
    ensures Parsed(n) == Node(n.key, StripValues(n.values), ConfigReverse(Strip(n.child)))
    ensures n.child == [] ==> Parsed(n) == Node(n.key, StripValues(n.values), [])
    ensures n.values == [] ==> Parsed(n) == Node(n.key, [], ConfigReverse(Strip(n.child)))
  {
  }

  lemma LeafDepth(n: Node)
    requires n.values != []
    ensures NodeDepth(n) == 0
  {
  }

  lemma SectionStart(text: string)
    ensures NextToken(" {" + ("\n" + text), false) == Token(TokSectionB, "{", "\n" + text)
  {
    SpaceThen(" ", '{', "\n" + text, false);
    Punctuation('{', "\n" + text, false);
    hide NextToken;
    assert " {" + ("\n" + text) == " " + ("{" + ("\n" + text));
  }

  lemma NodeRoundTrip(n: Node, m: Remark, level: nat, kids: seq<Node>, depth: nat, noDup: bool, r: string)
    requires NodeOk(n) && RemarkOk(m) && Fresh(n.key, kids) && depth <= MAX_SECTION_DEPTH
    ensures var t := NextToken(NodeWith(n, m, level) + r, false);
            t.tok != TokEof && t.tok != TokSectionE && t.lexeme != []
            && ParseSection(t, kids, depth, noDup)
               == if depth + NodeDepth(n) <= MAX_SECTION_DEPTH then Ok([Parsed(n)] + kids, NextToken(r, false)) else Fail
    decreases n, 2
  {
    hide NextToken, ParseKey, ParseBody, ParseSection, NodeWith, BodyWith, ValuesOk, Printable, Fresh, KeyText,
         EndsKey, Indent, IsSpace, GapText, LineEnd, Delimits, RemarksOk;
    var e := LineEnd(m, r);
    var body := BodyWith(n, m, level) + e;
    LineEnds(m, r);
    BodyEndsKey(n, m, level, e);
    KeyRoundTrip(n.key, body);
    NodeText(n, m, level, r);
    GapSkipped(m.before, Indent(level) + (KeyText(n.key) + body), false);
    IndentSpace(level);
    NextTokenSpace(Indent(level), KeyText(n.key) + body, false);
    BodyRoundTrip(n, m, level, depth, noDup, e);
    SectionStep(NextToken(KeyText(n.key) + body, false), n.key, NextToken(body, false), kids, depth, noDup);
  }

  lemma SectionsStep(t: Token, kids: seq<Node>, depth: nat, noDup: bool)
    requires t.tok != TokEof && t.lexeme != []
    ensures t.tok == TokSectionE ==> ParseSections(t, kids, depth, noDup) == Ok(kids, t)
    ensures t.tok != TokSectionE ==>
              ParseSections(t, kids, depth, noDup) == match ParseSection(t, kids, depth, noDup)
                                                      case Fail => Fail
                                                      case Ok(more, n) => ParseSections(n, more, depth, noDup)
  {
    hide NextToken, ParseSection;
  }

  /** Nothing in kids has the key of a node to come. */
  predicate AllFresh(ns: seq<Node>, kids: seq<Node>) {
    forall n :: n in ns ==> Fresh(n.key, kids)
  }

  lemma FreshStep(ns: seq<Node>, kids: seq<Node>)
    requires ns != [] && Printable(ns) && AllFresh(ns, kids)
    ensures NodeOk(ns[0]) && Printable(ns[1..])
    ensures Fresh(ns[0].key, kids) && AllFresh(ns[1..], [Parsed(ns[0])] + kids)
  {
    assert ns[0] in ns;
    forall n | n in ns[1..]
      ensures Fresh(n.key, [Parsed(ns[0])] + kids)
    {
      assert n in ns;
    }
  }

  lemma ParsedForest(ns: seq<Node>, kids: seq<Node>)
    requires ns != []
    ensures ConfigReverse(Strip(ns[1..])) + ([Parsed(ns[0])] + kids) == ConfigReverse(Strip(ns)) + kids
  {
    hide ConfigReverse, StripNode, ReverseNode;
    var s := Strip(ns);
    assert s[1..] == Strip(ns[1..]) && s[0] == StripNode(ns[0]);
    ReverseCons(s);
    hide Strip;
    CatNodes(ConfigReverse(s[1..]), [Parsed(ns[0])], kids);
  }

  lemma CatNodes(a: seq<Node>, b: seq<Node>, c: seq<Node>)
    ensures a + b + c == a + (b + c)
  {
  }

  lemma DepthCons(ns: seq<Node>)
    requires ns != []
    ensures Depth(ns) == Max(NodeDepth(ns[0]), Depth(ns[1..]))
  {
    hide NodeDepth;
  }

  lemma ReverseCons(s: seq<Node>)
    requires s != []
    ensures ConfigReverse(s) == ConfigReverse(s[1..]) + [ReverseNode(s[0])]
  {
    hide ReverseNode;
  }

  lemma ForestText(ns: seq<Node>, ms: seq<Remark>, level: nat, end: string)
    requires ns != []
    ensures ForestWith(ns, ms, level) + end ==
            NodeWith(ns[0], First(ms), level) + (ForestWith(ns[1..], Others(ms), level) + end)
  {
    hide NodeWith;
    Cat(NodeWith(ns[0], First(ms), level), ForestWith(ns[1..], Others(ms), level), end);
  }

  /** The nodes of a section up to its closing brace. */
  lemma {:induction false} ForestRoundTrip(ns: seq<Node>, ms: seq<Remark>, level: nat, kids: seq<Node>, depth: nat,
                                           noDup: bool, end: string, r: string)
    requires Printable(ns) && RemarksOk(ms) && AllFresh(ns, kids)
    requires NextToken(end, false) == Token(TokSectionE, "}", r) && depth <= MAX_SECTION_DEPTH
    ensures var t := NextToken(ForestWith(ns, ms, level) + end, false);
            (t.tok != TokEof ==> t.lexeme != [])
            && ParseSections(t, kids, depth, noDup)
               == if depth + Depth(ns) <= MAX_SECTION_DEPTH
                  then Ok(ConfigReverse(Strip(ns)) + kids, Token(TokSectionE, "}", r)) else Fail
    decreases ns, 0
  {
    hide NextToken, ParseSection, ParseSections, ForestWith, NodeWith, Printable, NodeOk, ConfigReverse, Strip,
         NodeDepth, AllFresh, Fresh, Parsed, RemarksOk, RemarkOk, First, Others;
    if ns == [] {
      EmptyForest(ms, level, end, kids);
      SectionsStep(NextToken(end, false), kids, depth, noDup);
    } else {
      var m, rest := First(ms), ForestWith(ns[1..], Others(ms), level) + end;
      var more := [Parsed(ns[0])] + kids;
      RemarksSplit(ms);
      FreshStep(ns, kids);
      ForestText(ns, ms, level, end);
      ParsedForest(ns, kids);
      DepthCons(ns);
      NodeRoundTrip(ns[0], m, level, kids, depth, noDup, rest);
      SectionsStep(NextToken(NodeWith(ns[0], m, level) + rest, false), kids, depth, noDup);
      if depth + NodeDepth(ns[0]) <= MAX_SECTION_DEPTH {
        ForestRoundTrip(ns[1..], Others(ms), level, more, depth, noDup, end, r);
      }
    }
  }

  lemma EmptyForest(ms: seq<Remark>, level: nat, end: string, kids: seq<Node>)
    ensures ForestWith([], ms, level) + end == end
    ensures ConfigReverse(Strip([])) + kids == kids && Depth([]) == 0
  {
  }

  lemma FileStep(t: Token, kids: seq<Node>, noDup: bool)
    requires t.tok != TokEof ==> t.lexeme != []
    ensures t.tok == TokEof ==> ParseFile(t, kids, noDup) == Some(kids)
    ensures t.tok != TokEof ==>
              ParseFile(t, kids, noDup) == match ParseSection(t, kids, 0, noDup)
                                           case Fail => None
                                           case Ok(more, n) => ParseFile(n, more, noDup)
  {
    hide NextToken, ParseSection;
  }

  lemma {:induction false} FileRoundTrip(ns: seq<Node>, ms: seq<Remark>, end: string, kids: seq<Node>, noDup: bool)
    requires Printable(ns) && RemarksOk(ms) && AllFresh(ns, kids) && NextToken(end, false) == Token(TokEof, [], [])
    ensures var t := NextToken(ForestWith(ns, ms, 0) + end, false);
            (t.tok != TokEof ==> t.lexeme != [])
            && ParseFile(t, kids, noDup)
               == if Depth(ns) <= MAX_SECTION_DEPTH then Some(ConfigReverse(Strip(ns)) + kids) else None
  {
    hide NextToken, ParseSection, ParseFile, ForestWith, NodeWith, Printable, NodeOk, ConfigReverse, Strip,
         NodeDepth, AllFresh, Fresh, Parsed, RemarksOk, RemarkOk, First, Others;
    if ns == [] {
      EmptyForest(ms, 0, end, kids);
      FileStep(NextToken(end, false), kids, noDup);
    } else {
      var m, rest := First(ms), ForestWith(ns[1..], Others(ms), 0) + end;
      RemarksSplit(ms);
      FreshStep(ns, kids);
      ParsedForest(ns, kids);
      DepthCons(ns);
      ForestText(ns, ms, 0, end);
      NodeRoundTrip(ns[0], m, 0, kids, 0, noDup, rest);
      FileStep(NextToken(NodeWith(ns[0], m, 0) + rest, false), kids, noDup);
      if NodeDepth(ns[0]) <= MAX_SECTION_DEPTH {
        FileRoundTrip(ns[1..], Others(ms), end, [Parsed(ns[0])] + kids, noDup);
      }
    }
  }

  // ---- reversal ----

  lemma {:induction false} ReverseAppend(a: seq<Node>, b: seq<Node>)
    ensures ConfigReverse(a + b) == ConfigReverse(b) + ConfigReverse(a)
  {
    if a == [] {
      assert a + b == b;
    } else {
      ReverseAppend(a[1..], b);
      ReverseCons(a);
      ReverseCons(a + b);
      assert (a + b)[1..] == a[1..] + b;
      hide ConfigReverse, ReverseNode;
      CatNodes(ConfigReverse(b), ConfigReverse(a[1..]), [ReverseNode(a[0])]);
    }
  }

  lemma {:induction false} ReverseNodeTwice(n: Node)
    ensures ReverseNode(ReverseNode(n)) == n
    decreases n, 1
  {
    ReverseTwice(n.child);
  }

  /** _config_reverse is its own inverse, at every level. */
  lemma {:induction false} ReverseTwice(ns: seq<Node>)
    ensures ConfigReverse(ConfigReverse(ns)) == ns
    decreases ns, 0
  {
    if ns != [] {
      ReverseNodeTwice(ns[0]);
      ReverseTwice(ns[1..]);
      var last := [ReverseNode(ns[0])];
      ReverseAppend(ConfigReverse(ns[1..]), last);
      assert last[1..] == [];
      assert ConfigReverse(last) == [ns[0]];
    }
  }

  // ---- the theorem ----

  /** Parsing the printed text of a non-empty printable tree, with any white space and
      comments in front of nodes and closing braces at every level, behind them and at the
      end, gives the same tree in the same order, with or without the duplicate check;
      only the formatting flags are gone. A tree nested deeper than the parser allows is
      refused. */
  lemma RemarksDoNotMatter(ns: seq<Node>, ms: seq<Remark>, end: seq<Gap>, noDup: bool)
    requires ns != [] && Printable(ns) && RemarksOk(ms) && GapsOk(end)
    ensures ParseText(ForestWith(ns, ms, 0) + GapText(end), noDup)
         == if Depth(ns) <= 128 then Some(Strip(ns)) else None
  {
    assert GapText(end) + [] == GapText(end);
    GapSkipped(end, [], false);
    EndOfText(false);
    hide NextToken, ParseFile, ForestWith, Printable, ConfigReverse, Strip, Depth, GapText, RemarksOk;
    FileRoundTrip(ns, ms, GapText(end), [], noDup);
    ReverseTwice(Strip(ns));
    assert ConfigReverse(Strip(ns)) + [] == ConfigReverse(Strip(ns));
  }

  /** Printing and parsing undo each other. */
  lemma ParseUndoesWrite(ns: seq<Node>, noDup: bool)
    requires ns != [] && Printable(ns)
    ensures ParseText(WriteForest(ns, 0), noDup)
         == if Depth(ns) <= 128 then Some(Strip(ns)) else None
  {
    hide NextToken, ParseText, ForestWith, WriteForest, Printable, Strip, Depth;
    ForestPlain(ns, 0);
    RemarksDoNotMatter(ns, [], [], noDup);
    assert WriteForest(ns, 0) + "" == WriteForest(ns, 0);
  }

  /** Comment lines do not change what a printed text is parsed to. */
  lemma CommentedText(ns: seq<Node>, ms: seq<Remark>, end: seq<Gap>, noDup: bool)
    requires ns != [] && Printable(ns) && RemarksOk(ms) && GapsOk(end)
    ensures ParseText(ForestWith(ns, ms, 0) + GapText(end), noDup) == ParseText(WriteForest(ns, 0), noDup)
  {
    hide ParseText, ForestWith, WriteForest, Printable, Strip, Depth, GapText, RemarksOk;
    RemarksDoNotMatter(ns, ms, end, noDup);
    ParseUndoesWrite(ns, noDup);
  }
}
