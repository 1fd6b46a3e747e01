/** Selection expressions of libdm-report.c: the parser that turns the tokens of an
    expression into a tree of n-ary nodes, and the evaluation of that tree for a row. */
module ReportSelection {
  import opened Options

  /** A comparison of a field with a value: which field it is about, and a number of
      its own. */
  datatype Item = Item(id: nat, field: nat)

  datatype Tok = TNot | TOpen | TClose | TAnd | TOr | TItem(item: Item)

  // ---- selection nodes ----

  datatype Kind = Leaf(item: Item) | All(set_: seq<Node>) | Any(set_: seq<Node>)

  /** negated is SEL_MODIFIER_NOT. */
  datatype Node = Node(kind: Kind, negated: bool)

  function Plain(k: Kind): Node { Node(k, false) }

  /** sn->type |= SEL_MODIFIER_NOT. */
  function Negate(n: Node): Node { n.(negated := true) }

  /** A row: the fields it has, and whether the value in a column satisfies an item. */
  datatype Row = Row(fields: seq<nat>, ok: (nat, nat) -> bool)

  predicate Matches(row: Row, item: Item) {
    forall k :: 0 <= k < |row.fields| && row.fields[k] == item.field ==> row.ok(item.id, k)
  }

  /** The value of a tree for a row. */
  predicate Value(n: Node, row: Row)
    decreases n
  {
    var v := match n.kind
      case Leaf(item) => Matches(row, item)
      case All(ns) => forall k :: 0 <= k < |ns| ==> Value(ns[k], row)
      case Any(ns) => exists k :: 0 <= k < |ns| && Value(ns[k], row);
    if n.negated then !v else v
  }

  /** _check_selection. */
  method CheckSelection(n: Node, row: Row) returns (r: bool)
    ensures r == Value(n, row)
    decreases n
  {
    match n.kind {
      case Leaf(item) =>
        r := true;
        for k := 0 to |row.fields|
          invariant r == forall j :: 0 <= j < k && row.fields[j] == item.field ==> row.ok(item.id, j)
        {
          if row.fields[k] != item.field {
            continue;
          }
          if !row.ok(item.id, k) {
            r := false;
          }
        }
      case Any(ns) =>
        r := false;
        for k := 0 to |ns|
          invariant !r && forall j :: 0 <= j < k ==> !Value(ns[j], row)
        {
          r := CheckSelection(ns[k], row);
          if r {
            break;
          }
        }
      case All(ns) =>
        r := true;
        for k := 0 to |ns|
          invariant r && forall j :: 0 <= j < k ==> Value(ns[j], row)
        {
          r := CheckSelection(ns[k], row);
          if !r {
            break;
          }
        }
    }
    r := if n.negated then !r else r;
  }

  // ---- the parser ----

  datatype Parsed = Fail | Parsed(node: Node, rest: seq<Tok>)

  predicate Starts(s: seq<Tok>, t: Tok) { s != [] && s[0] == t }

  /** _parse_ex. */
  function ParseEx(s: seq<Tok>): (p: Parsed)
    ensures p.Parsed? ==> |p.rest| < |s|
    decreases |s|, 0
  {
    if Starts(s, TNot) then
      if !Starts(s[1..], TOpen) then Fail
      else
        var p := ParseOr(s[2..], None);
        if p.Fail? || !Starts(p.rest, TClose) then Fail else Parsed(Negate(p.node), p.rest[1..])
    else if Starts(s, TOpen) then
      var p := ParseOr(s[1..], None);
      if p.Fail? || !Starts(p.rest, TClose) then Fail else Parsed(p.node, p.rest[1..])
    else if s != [] && s[0].TItem? then Parsed(Plain(Leaf(s[0].item)), s[1..])
    else Fail
  }

  /** The set of the node that is being filled, if there is one yet. */
  type Filling = Option<seq<Node>>

  function Add(f: Filling, n: Node): seq<Node> { if f.None? then [n] else f.value + [n] }

  /** _parse_and_ex. */
  function ParseAnd(s: seq<Tok>, f: Filling): (p: Parsed)
    ensures p.Parsed? ==> |p.rest| < |s|
    decreases |s|, 1
  {
    var p := ParseEx(s);
    if p.Fail? then Fail
    else if Starts(p.rest, TAnd) then ParseAnd(p.rest[1..], Some(Add(f, p.node)))
    else if f.None? then p
    else Parsed(Plain(All(Add(f, p.node))), p.rest)
  }

  /** _parse_or_ex. */
  function ParseOr(s: seq<Tok>, f: Filling): (p: Parsed)
    ensures p.Parsed? ==> |p.rest| < |s|
    decreases |s|, 2
  {
    var p := ParseAnd(s, None);
    if p.Fail? then Fail
    else if Starts(p.rest, TOr) then ParseOr(p.rest[1..], Some(Add(f, p.node)))
    else if f.None? then p
    else Parsed(Plain(Any(Add(f, p.node))), p.rest)
  }

  /** _report_set_selection: the root is an OR node from the start, and nothing may be
      left over. */
  function ParseSelection(s: seq<Tok>): Parsed {
    var p := ParseOr(s, Some([]));
    if p.Fail? || p.rest != [] then Fail else p
  }

  // ---- expressions ----

  datatype Prim = Test(item: Item) | Not(ex: Expr) | Par(ex: Expr)

  /** A conjunction of primaries and a disjunction of conjunctions; neither is empty. */
  datatype Conj = Conj(first: Prim, more: seq<Prim>)
  datatype Expr = Expr(first: Conj, more: seq<Conj>)

  function PrimText(p: Prim): seq<Tok>
    decreases p, 0
  {
    match p
    case Test(item) => [TItem(item)]
    case Not(e) => [TNot, TOpen] + ExprText(e) + [TClose]
    case Par(e) => [TOpen] + ExprText(e) + [TClose]
  }

  function PrimsText(ps: seq<Prim>): seq<Tok>
    decreases ps
  {
    if ps == [] then [] else [TAnd] + PrimText(ps[0]) + PrimsText(ps[1..])
  }

  function ConjText(c: Conj): seq<Tok>
    decreases c, 0
  {
    PrimText(c.first) + PrimsText(c.more)
  }

  function ConjsText(cs: seq<Conj>): seq<Tok>
    decreases cs
  {
    if cs == [] then [] else [TOr] + ConjText(cs[0]) + ConjsText(cs[1..])
  }

  function ExprText(e: Expr): seq<Tok>
    decreases e, 0
  {
    ConjText(e.first) + ConjsText(e.more)
  }

  // ---- the tree of an expression ----

  function PrimNode(p: Prim): Node
    decreases p, 0
  {
    match p
    case Test(item) => Plain(Leaf(item))
    case Not(e) => Negate(ExprNode(e))
    case Par(e) => ExprNode(e)
  }

  function PrimNodes(ps: seq<Prim>): (ns: seq<Node>)
    ensures |ns| == |ps| && forall k :: 0 <= k < |ps| ==> ns[k] == PrimNode(ps[k])
    decreases ps
  {
    if ps == [] then [] else [PrimNode(ps[0])] + PrimNodes(ps[1..])
  }

  function ConjNode(c: Conj): Node
    decreases c, 0
  {
    if c.more == [] then PrimNode(c.first) else Plain(All([PrimNode(c.first)] + PrimNodes(c.more)))
  }

  function ConjNodes(cs: seq<Conj>): (ns: seq<Node>)
    ensures |ns| == |cs| && forall k :: 0 <= k < |cs| ==> ns[k] == ConjNode(cs[k])
    decreases cs
  {
    if cs == [] then [] else [ConjNode(cs[0])] + ConjNodes(cs[1..])
  }

  function ExprNode(e: Expr): Node
    decreases e, 0
  {
    if e.more == [] then ConjNode(e.first) else Plain(Any([ConjNode(e.first)] + ConjNodes(e.more)))
  }

  // ---- the parser reads every expression ----

  lemma Cat(a: seq<Tok>, b: seq<Tok>, c: seq<Tok>)
    ensures a + b + c == a + (b + c)
  {
  }

  lemma Tail(t: Tok, s: seq<Tok>)
    ensures Starts([t] + s, t) && ([t] + s)[1..] == s
  {
  }

  lemma NotText(e: Expr, r: seq<Tok>)
    ensures var s := PrimText(Not(e)) + r;
            Starts(s, TNot) && Starts(s[1..], TOpen) && s[2..] == ExprText(e) + ([TClose] + r)
    ensures |PrimText(Not(e))| == |ExprText(e)| + 3
  {
    hide ExprText;
    var s := PrimText(Not(e)) + r;
    assert s == [TNot, TOpen] + (ExprText(e) + ([TClose] + r));
  }

  lemma ParText(e: Expr, r: seq<Tok>)
    ensures var s := PrimText(Par(e)) + r;
            Starts(s, TOpen) && s[1..] == ExprText(e) + ([TClose] + r)
    ensures |PrimText(Par(e))| == |ExprText(e)| + 2
  {
    hide ExprText;
    var s := PrimText(Par(e)) + r;
    assert s == [TOpen] + (ExprText(e) + ([TClose] + r));
  }

  /** One operand of an AND and what follows it. */
  lemma {:induction false} PrimRead(p: Prim, r: seq<Tok>)
    ensures ParseEx(PrimText(p) + r) == Parsed(PrimNode(p), r)
    decreases |PrimText(p)|, 0
  {
    match p {
      case Test(item) =>
        Tail(TItem(item), r);
      case Not(e) =>
        NotText(e, r);
        Tail(TClose, r);
        hide PrimText, ExprText, ParseOr, ExprNode;
        ExprRead(e, [TClose] + r);
      case Par(e) =>
        ParText(e, r);
        Tail(TClose, r);
        hide PrimText, ExprText, ParseOr, ExprNode;
        ExprRead(e, [TClose] + r);
    }
  }

  lemma AndStep(s: seq<Tok>, f: Filling, n: Node, rest: seq<Tok>)
    requires ParseEx(s) == Parsed(n, rest)
    ensures Starts(rest, TAnd) ==> ParseAnd(s, f) == ParseAnd(rest[1..], Some(Add(f, n)))
    ensures !Starts(rest, TAnd) ==>
              ParseAnd(s, f) == if f.None? then Parsed(n, rest) else Parsed(Plain(All(Add(f, n))), rest)
  {
    hide ParseEx;
  }

  lemma OrStep(s: seq<Tok>, f: Filling, n: Node, rest: seq<Tok>)
    requires ParseAnd(s, None) == Parsed(n, rest)
    ensures Starts(rest, TOr) ==> ParseOr(s, f) == ParseOr(rest[1..], Some(Add(f, n)))
    ensures !Starts(rest, TOr) ==>
              ParseOr(s, f) == if f.None? then Parsed(n, rest) else Parsed(Plain(Any(Add(f, n))), rest)
  {
    hide ParseAnd;
  }

  lemma AddMore<T>(a: seq<T>, bs: seq<T>)
    requires bs != []
    ensures (a + [bs[0]]) + bs[1..] == a + bs
  {
  }

  lemma NoMore(r: seq<Tok>)
    ensures PrimsText([]) + r == r && ConjsText([]) + r == r && PrimNodes([]) == [] && ConjNodes([]) == []
  {
  }

  /** The operands of an AND from p on. */
  lemma {:induction false} ConjRead(p: Prim, ps: seq<Prim>, f: Filling, r: seq<Tok>)
    requires !Starts(r, TAnd)
    ensures ParseAnd(PrimText(p) + (PrimsText(ps) + r), f) ==
            if ps == [] && f.None? then Parsed(PrimNode(p), r)
            else Parsed(Plain(All(Add(f, PrimNode(p)) + PrimNodes(ps))), r)
    decreases |PrimText(p)| + |PrimsText(ps)|, 1
  {
    hide PrimText, PrimsText, PrimNode, PrimNodes, ParseEx, ParseAnd;
    var s, rest, n := PrimText(p) + (PrimsText(ps) + r), PrimsText(ps) + r, PrimNode(p);
    PrimRead(p, rest);
    AndStep(s, f, n, rest);
    if ps == [] {
      NoMore(r);
      assert Add(f, n) + [] == Add(f, n);
    } else {
      MoreAnd(ps, r);
      ConjRead(ps[0], ps[1..], Some(Add(f, n)), r);
      FirstPrim(ps);
      AddMore(Add(f, n), PrimNodes(ps));
    }
  }

  lemma FirstPrim(ps: seq<Prim>)
    requires ps != []
    ensures PrimNodes(ps)[0] == PrimNode(ps[0]) && PrimNodes(ps)[1..] == PrimNodes(ps[1..])
  {
    hide PrimNode;
  }

  lemma FirstConj(cs: seq<Conj>)
    requires cs != []
    ensures ConjNodes(cs)[0] == ConjNode(cs[0]) && ConjNodes(cs)[1..] == ConjNodes(cs[1..])
  {
    hide ConjNode;
  }

  lemma Separated(t: Tok, a: seq<Tok>, b: seq<Tok>, r: seq<Tok>)
    ensures var s := [t] + a + b + r; Starts(s, t) && s[1..] == a + (b + r)
  {
    assert [t] + a + b + r == [t] + (a + (b + r));
  }

  lemma MoreAnd(ps: seq<Prim>, r: seq<Tok>)
    requires ps != []
    ensures Starts(PrimsText(ps) + r, TAnd)
    ensures (PrimsText(ps) + r)[1..] == PrimText(ps[0]) + (PrimsText(ps[1..]) + r)
    ensures |PrimsText(ps)| == 1 + |PrimText(ps[0])| + |PrimsText(ps[1..])|
  {
    assert PrimsText(ps) == [TAnd] + PrimText(ps[0]) + PrimsText(ps[1..]);
    hide PrimText, PrimsText;
    Separated(TAnd, PrimText(ps[0]), PrimsText(ps[1..]), r);
  }

  /** The operands of an OR from c on. */
  lemma {:induction false} DisjRead(c: Conj, cs: seq<Conj>, f: Filling, r: seq<Tok>)
    requires !Starts(r, TAnd) && !Starts(r, TOr)
    ensures ParseOr(ConjText(c) + (ConjsText(cs) + r), f) ==
            if cs == [] && f.None? then Parsed(ConjNode(c), r)
            else Parsed(Plain(Any(Add(f, ConjNode(c)) + ConjNodes(cs))), r)
    decreases |ConjText(c)| + |ConjsText(cs)|, 3
  {
    hide ConjText, ConjsText, ConjNode, ConjNodes, ParseAnd, ParseOr;
    var s, rest, n := ConjText(c) + (ConjsText(cs) + r), ConjsText(cs) + r, ConjNode(c);
    if cs == [] {
      NoMore(r);
    } else {
      MoreOr(cs, r);
    }
    ConjAlone(c, rest);
    OrStep(s, f, n, rest);
    if cs == [] {
      assert Add(f, n) + [] == Add(f, n);
    } else {
      DisjRead(cs[0], cs[1..], Some(Add(f, n)), r);
      FirstConj(cs);
      AddMore(Add(f, n), ConjNodes(cs));
    }
  }

  lemma ConjHere(c: Conj, r: seq<Tok>)
    ensures ConjText(c) + r == PrimText(c.first) + (PrimsText(c.more) + r)
    ensures |ConjText(c)| == |PrimText(c.first)| + |PrimsText(c.more)|
  {
    hide PrimText, PrimsText;
    Cat(PrimText(c.first), PrimsText(c.more), r);
  }

  lemma {:induction false} ConjAlone(c: Conj, r: seq<Tok>)
    requires !Starts(r, TAnd)
    ensures ParseAnd(ConjText(c) + r, None) == Parsed(ConjNode(c), r)
    decreases |ConjText(c)|, 2
  {
    hide PrimText, PrimsText, PrimNode, PrimNodes, ParseAnd;
    ConjHere(c, r);
    ConjRead(c.first, c.more, None, r);
  }

  lemma MoreOr(cs: seq<Conj>, r: seq<Tok>)
    requires cs != []
    ensures Starts(ConjsText(cs) + r, TOr)
    ensures (ConjsText(cs) + r)[1..] == ConjText(cs[0]) + (ConjsText(cs[1..]) + r)
    ensures |ConjsText(cs)| == 1 + |ConjText(cs[0])| + |ConjsText(cs[1..])|
  {
    assert ConjsText(cs) == [TOr] + ConjText(cs[0]) + ConjsText(cs[1..]);
    hide ConjText, ConjsText;
    Separated(TOr, ConjText(cs[0]), ConjsText(cs[1..]), r);
  }

  lemma {:induction false} ExprRead(e: Expr, r: seq<Tok>)
    requires !Starts(r, TAnd) && !Starts(r, TOr)
    ensures ParseOr(ExprText(e) + r, None) == Parsed(ExprNode(e), r)
    decreases |ExprText(e)|, 4
  {
    hide ConjText, ConjsText, ConjNode, ConjNodes, ParseOr;
    Cat(ConjText(e.first), ConjsText(e.more), r);
    DisjRead(e.first, e.more, None, r);
  }

  /** The node of a whole selection. */
  function RootNode(e: Expr): Node { Plain(Any([ConjNode(e.first)] + ConjNodes(e.more))) }

  /** Every expression is read to its end. */
  lemma SelectionIsRead(e: Expr)
    ensures ParseSelection(ExprText(e)) == Parsed(RootNode(e), [])
  {
    hide ConjText, ConjsText, ConjNode, ConjNodes, ParseOr;
    DisjRead(e.first, e.more, Some([]), []);
    assert ExprText(e) == ConjText(e.first) + (ConjsText(e.more) + []);
    assert [] + [ConjNode(e.first)] == [ConjNode(e.first)];
  }

  // ---- and nothing else ----

  /** Whatever _parse_ex accepts begins with a primary. */
  lemma {:induction false} ExIsPrim(s: seq<Tok>) returns (p: Prim)
    requires ParseEx(s).Parsed?
    ensures s == PrimText(p) + ParseEx(s).rest
    decreases |s|, 0
  {
    var rest := ParseEx(s).rest;
    if Starts(s, TNot) {
      var e := OrIsExpr(s[2..], None);
      p := Not(e);
      NotText(e, rest);
      Rejoin(s[2..], ExprText(e), ParseOr(s[2..], None).rest, TClose, rest);
      hide ParseOr, ExprText, PrimText;
      assert s == [TNot, TOpen] + s[2..];
    } else if Starts(s, TOpen) {
      var e := OrIsExpr(s[1..], None);
      p := Par(e);
      ParText(e, rest);
      Rejoin(s[1..], ExprText(e), ParseOr(s[1..], None).rest, TClose, rest);
      hide ParseOr, ExprText, PrimText;
      assert s == [TOpen] + s[1..];
    } else {
      p := Test(s[0].item);
      assert s == [s[0]] + s[1..];
    }
  }

  lemma Rejoin(s: seq<Tok>, a: seq<Tok>, b: seq<Tok>, t: Tok, rest: seq<Tok>)
    requires s == a + b && Starts(b, t) && b[1..] == rest
    ensures s == a + ([t] + rest)
  {
    assert b == [t] + rest;
  }

  lemma {:induction false} AndIsConj(s: seq<Tok>, f: Filling) returns (c: Conj)
    requires ParseAnd(s, f).Parsed?
    ensures s == ConjText(c) + ParseAnd(s, f).rest && !Starts(ParseAnd(s, f).rest, TAnd)
    decreases |s|, 1
  {
    var p := ExIsPrim(s);
    var q := ParseEx(s);
    AndStep(s, f, q.node, q.rest);
    if Starts(q.rest, TAnd) {
      var d := AndIsConj(q.rest[1..], Some(Add(f, q.node)));
      c := Conj(p, [d.first] + d.more);
      Rejoin(q.rest, [], q.rest, TAnd, q.rest[1..]);
      hide ParseEx, ParseAnd, PrimText, PrimsText;
      MorePrims(p, d, ParseAnd(s, f).rest);
    } else {
      c := Conj(p, []);
      hide ParseEx, ParseAnd, PrimText;
      NoMore(q.rest);
      ConjHere(c, q.rest);
    }
  }

  lemma MorePrims(p: Prim, d: Conj, r: seq<Tok>)
    ensures ConjText(Conj(p, [d.first] + d.more)) + r == PrimText(p) + ([TAnd] + (ConjText(d) + r))
  {
    var ps := [d.first] + d.more;
    assert ps[0] == d.first && ps[1..] == d.more;
    assert PrimsText(ps) == [TAnd] + PrimText(d.first) + PrimsText(d.more);
    hide PrimText, PrimsText;
    ConjHere(Conj(p, ps), r);
    ConjHere(d, r);
    Cat([TAnd], PrimText(d.first), PrimsText(d.more));
    Cat([TAnd], ConjText(d), r);
  }

  lemma {:induction false} OrIsExpr(s: seq<Tok>, f: Filling) returns (e: Expr)
    requires ParseOr(s, f).Parsed?
    ensures s == ExprText(e) + ParseOr(s, f).rest
    ensures !Starts(ParseOr(s, f).rest, TAnd) && !Starts(ParseOr(s, f).rest, TOr)
    decreases |s|, 2
  {
    hide ParseAnd, ParseOr, ConjText, ConjsText;
    OrHasAnd(s, f);
    var c := AndIsConj(s, None);
    var q := ParseAnd(s, None);
    OrStep(s, f, q.node, q.rest);
    if Starts(q.rest, TOr) {
      var d := OrIsExpr(q.rest[1..], Some(Add(f, q.node)));
      e := Expr(c, [d.first] + d.more);
      hide ExprText;
      assert q.rest == [TOr] + q.rest[1..];
      MoreConjs(c, d, ParseOr(s, f).rest);
    } else {
      e := Expr(c, []);
      NoMore(q.rest);
      Cat(ConjText(c), ConjsText([]), q.rest);
    }
  }

  lemma OrHasAnd(s: seq<Tok>, f: Filling)
    requires ParseOr(s, f).Parsed?
    ensures ParseAnd(s, None).Parsed?
  {
    hide ParseAnd;
  }

  lemma MoreConjs(c: Conj, d: Expr, r: seq<Tok>)
    ensures ExprText(Expr(c, [d.first] + d.more)) + r == ConjText(c) + ([TOr] + (ExprText(d) + r))
  {
    var cs := [d.first] + d.more;
    assert cs[0] == d.first && cs[1..] == d.more;
    assert ConjsText(cs) == [TOr] + ConjText(d.first) + ConjsText(d.more);
    hide ConjText, ConjsText;
    Cat([TOr], ConjText(d.first), ConjsText(d.more));
    Cat(ConjText(c), [TOr] + ExprText(d), r);
    Cat([TOr], ExprText(d), r);
  }

  /** The parser accepts exactly the expressions: anything else, such as a missing or an
      extra parenthesis or operator, is refused. */
  lemma OnlyExpressions(s: seq<Tok>)
    ensures ParseSelection(s).Parsed? <==> exists e :: s == ExprText(e)
  {
    hide ParseOr, ExprText;
    if ParseSelection(s).Parsed? {
      var e := OrIsExpr(s, Some([]));
      assert s == ExprText(e) + [];
      assert s == ExprText(e);
    }
    if e :| s == ExprText(e) {
      SelectionIsRead(e);
    }
  }

  // ---- what an expression means ----

  /** The truth value of an expression, AND binding tighter than OR. */
  predicate PrimTruth(p: Prim, row: Row)
    decreases p, 0
  {
    match p
    case Test(item) => Matches(row, item)
    case Not(e) => !ExprTruth(e, row)
    case Par(e) => ExprTruth(e, row)
  }

  predicate ConjTruth(c: Conj, row: Row)
    decreases c, 0
  {
    PrimTruth(c.first, row) && forall k :: 0 <= k < |c.more| ==> PrimTruth(c.more[k], row)
  }

  predicate ExprTruth(e: Expr, row: Row)
    decreases e, 0
  {
    ConjTruth(e.first, row) || exists k :: 0 <= k < |e.more| && ConjTruth(e.more[k], row)
  }

  /** The expression is a single primary. */
  predicate Lone(e: Expr) { e.more == [] && e.first.more == [] }

  /** The expression is a negation, whatever parentheses stand around it. */
  predicate Negated(e: Expr)
    decreases e
  {
    Lone(e) && match e.first.first
               case Test(_) => false
               case Not(_) => true
               case Par(f) => Negated(f)
  }

  // What the code computes: as above, but a negation of a negation is lost, because the
  // modifier is set and not toggled.

  predicate PrimComputed(p: Prim, row: Row)
    decreases p, 0
  {
    match p
    case Test(item) => Matches(row, item)
    case Not(e) => if Negated(e) then ExprComputed(e, row) else !ExprComputed(e, row)
    case Par(e) => ExprComputed(e, row)
  }

  predicate ConjComputed(c: Conj, row: Row)
    decreases c, 0
  {
    PrimComputed(c.first, row) && forall k :: 0 <= k < |c.more| ==> PrimComputed(c.more[k], row)
  }

  predicate ExprComputed(e: Expr, row: Row)
    decreases e, 0
  {
    ConjComputed(e.first, row) || exists k :: 0 <= k < |e.more| && ConjComputed(e.more[k], row)
  }

  lemma {:induction false} NodeNegated(e: Expr)
    ensures ExprNode(e).negated == Negated(e)
    decreases e
  {
    assert e.more == [] ==> ExprNode(e) == ConjNode(e.first);
    if Lone(e) {
      assert ExprNode(e) == PrimNode(e.first.first);
      if e.first.first.Par? {
        NodeNegated(e.first.first.ex);
      }
    }
  }

  lemma NegateValue(n: Node, row: Row)
    ensures Value(Negate(n), row) == if n.negated then Value(n, row) else !Value(n, row)
  {
  }

  lemma {:induction false} PrimIsComputed(p: Prim, row: Row)
    ensures Value(PrimNode(p), row) == PrimComputed(p, row)
    decreases p, 0
  {
    if !p.Test? {
      ExprIsComputed(p.ex, row);
      NodeNegated(p.ex);
      NegateValue(ExprNode(p.ex), row);
      hide Value, ExprNode, ExprComputed, Negated, Negate;
    }
  }

  lemma {:induction false} ConjIsComputed(c: Conj, row: Row)
    ensures Value(ConjNode(c), row) == ConjComputed(c, row)
    decreases c, 0
  {
    PrimIsComputed(c.first, row);
    forall k | 0 <= k < |c.more| ensures Value(PrimNode(c.more[k]), row) == PrimComputed(c.more[k], row) {
      PrimIsComputed(c.more[k], row);
    }
    if c.more != [] {
      AllValue(PrimNode(c.first), PrimNodes(c.more), row);
      hide Value, PrimNode, PrimComputed;
    }
  }

  lemma AllValue(n: Node, ns: seq<Node>, row: Row)
    ensures Value(Plain(All([n] + ns)), row) <==> Value(n, row) && forall k :: 0 <= k < |ns| ==> Value(ns[k], row)
  {
    var all := [n] + ns;
    assert Plain(All(all)).kind == All(all);
    assert all[0] == n && forall k :: 0 <= k < |ns| ==> all[k + 1] == ns[k];
  }

  lemma AnyValue(n: Node, ns: seq<Node>, row: Row)
    ensures Value(Plain(Any([n] + ns)), row) <==> Value(n, row) || exists k :: 0 <= k < |ns| && Value(ns[k], row)
  {
    var all := [n] + ns;
    assert Plain(Any(all)).kind == Any(all);
    assert all[0] == n && forall k :: 0 <= k < |ns| ==> all[k + 1] == ns[k];
  }

  lemma {:induction false} DisjIsComputed(e: Expr, row: Row)
    ensures Value(RootNode(e), row) == ExprComputed(e, row)
    decreases e, 0
  {
    ConjIsComputed(e.first, row);
    forall k | 0 <= k < |e.more| ensures Value(ConjNode(e.more[k]), row) == ConjComputed(e.more[k], row) {
      ConjIsComputed(e.more[k], row);
    }
    AnyValue(ConjNode(e.first), ConjNodes(e.more), row);
    hide Value, ConjNode, ConjComputed;
  }

  lemma {:induction false} ExprIsComputed(e: Expr, row: Row)
    ensures Value(ExprNode(e), row) == ExprComputed(e, row)
    decreases e, 1
  {
    DisjIsComputed(e, row);
    if e.more == [] {
      ConjIsComputed(e.first, row);
      hide Value, ConjNode, ConjComputed;
    }
  }

  /** Parsing and evaluating any expression gives the computed value. */
  lemma SelectionIsComputed(e: Expr, row: Row)
    ensures ParseSelection(ExprText(e)).Parsed? && ParseSelection(ExprText(e)).rest == []
    ensures Value(ParseSelection(ExprText(e)).node, row) == ExprComputed(e, row)
  {
    SelectionIsRead(e);
    DisjIsComputed(e, row);
  }

  // ---- when it is the truth ----

  /** The value of e under k more negations, as computed and as meant. */
  predicate Wrapped(e: Expr, k: nat, row: Row) {
    if k == 0 || Negated(e) then ExprComputed(e, row) else !ExprComputed(e, row)
  }

  predicate Meant(e: Expr, k: nat, row: Row) { if k % 2 == 0 then ExprTruth(e, row) else !ExprTruth(e, row) }

  /** The number of negations that e begins with, each wrapping the next directly. */
  function Depth(e: Expr): nat
    decreases e
  {
    if !Lone(e) then 0
    else
      match e.first.first
      case Test(_) => 0
      case Not(f) => 1 + Depth(f)
      case Par(f) => Depth(f)
  }

  /** No negations, or an odd number of them. */
  predicate Fine(n: nat) { n == 0 || n % 2 == 1 }

  /** The expression under the negations that e begins with has right operands. */
  predicate RightInside(e: Expr, row: Row)
    decreases e
  {
    if Lone(e) && !e.first.first.Test? then RightInside(e.first.first.ex, row)
    else ExprComputed(e, row) == ExprTruth(e, row)
  }

  lemma LoneValues(e: Expr, row: Row)
    requires Lone(e)
    ensures ExprComputed(e, row) == PrimComputed(e.first.first, row)
    ensures ExprTruth(e, row) == PrimTruth(e.first.first, row)
  {
  }

  /** A chain of directly nested negations is computed right, for each row, exactly if
      its length is odd: an even chain gives the opposite of the truth. */
  lemma {:induction false} ChainIsExact(e: Expr, k: nat, row: Row)
    requires RightInside(e, row)
    ensures Wrapped(e, k, row) == Meant(e, k, row) <==> Fine(k + Depth(e))
    decreases e
  {
    if Lone(e) && !e.first.first.Test? {
      LoneValues(e, row);
      var p := e.first.first;
      ChainIsExact(p.ex, if p.Not? then k + 1 else k, row);
      hide ExprComputed, ExprTruth;
    }
  }

  /** Every chain of directly nested negations in the expression, of which k surround it
      directly, has an odd length. */
  predicate OddChains(e: Expr, k: nat)
    decreases e, 1
  {
    if Lone(e) && !e.first.first.Test? then
      OddChains(e.first.first.ex, if e.first.first.Not? then k + 1 else k)
    else Fine(k) && OddConj(e.first) && forall i :: 0 <= i < |e.more| ==> OddConj(e.more[i])
  }

  predicate OddConj(c: Conj)
    decreases c, 1
  {
    OddPrim(c.first) && forall i :: 0 <= i < |c.more| ==> OddPrim(c.more[i])
  }

  predicate OddPrim(p: Prim)
    decreases p, 1
  {
    match p
    case Test(_) => true
    case Not(e) => OddChains(e, 1)
    case Par(e) => OddChains(e, 0)
  }

  lemma {:induction false} OddPrimIsRight(p: Prim, row: Row)
    requires OddPrim(p)
    ensures PrimComputed(p, row) == PrimTruth(p, row)
    decreases p, 1
  {
    if !p.Test? {
      OddIsRight(p.ex, if p.Not? then 1 else 0, row);
      hide ExprComputed, ExprTruth;
    }
  }

  lemma {:induction false} OddConjIsRight(c: Conj, row: Row)
    requires OddConj(c)
    ensures ConjComputed(c, row) == ConjTruth(c, row)
    decreases c, 1
  {
    OddPrimIsRight(c.first, row);
    forall k | 0 <= k < |c.more| ensures PrimComputed(c.more[k], row) == PrimTruth(c.more[k], row) {
      OddPrimIsRight(c.more[k], row);
    }
    hide PrimComputed, PrimTruth;
  }

  lemma {:induction false} OddOperandsAreRight(e: Expr, row: Row)
    requires OddConj(e.first) && forall i :: 0 <= i < |e.more| ==> OddConj(e.more[i])
    ensures ExprComputed(e, row) == ExprTruth(e, row)
    decreases e, 0
  {
    OddConjIsRight(e.first, row);
    forall k | 0 <= k < |e.more| ensures ConjComputed(e.more[k], row) == ConjTruth(e.more[k], row) {
      OddConjIsRight(e.more[k], row);
    }
    hide ConjComputed, ConjTruth;
  }

  lemma {:induction false} OddIsRight(e: Expr, k: nat, row: Row)
    requires OddChains(e, k)
    ensures Wrapped(e, k, row) == Meant(e, k, row)
    decreases e, 1
  {
    if Lone(e) && !e.first.first.Test? {
      LoneValues(e, row);
      var p := e.first.first;
      OddIsRight(p.ex, if p.Not? then k + 1 else k, row);
      hide ExprComputed, ExprTruth;
    } else {
      OddOperandsAreRight(e, row);
      hide ExprComputed, ExprTruth;
    }
  }

  /** Parsing and evaluating an expression whose chains of directly nested negations are
      all odd, above all one without nested negations, gives its truth value. */
  lemma SelectionIsTrue(e: Expr, row: Row)
    requires OddChains(e, 0)
    ensures ParseSelection(ExprText(e)).Parsed? && ParseSelection(ExprText(e)).rest == []
    ensures Value(ParseSelection(ExprText(e)).node, row) == ExprTruth(e, row)
  {
    hide Value, ExprComputed, ExprTruth, ParseSelection, ExprText;
    SelectionIsComputed(e, row);
    OddIsRight(e, 0, row);
  }

  lemma RightUnder(e: Expr, row: Row)
    requires RightInside(e, row) || (Lone(e) && e.first.first.Test?)
    ensures RightInside(Expr(Conj(Not(e), []), []), row)
  {
    if Lone(e) && e.first.first.Test? {
      LoneValues(e, row);
    }
  }

  /** A double negation is read as a single one: for every row the outcome is wrong. */
  lemma DoubleNegationIsWrong(item: Item, row: Row)
    ensures var inner := Expr(Conj(Test(item), []), []);
            var e := Expr(Conj(Not(Expr(Conj(Not(inner), []), [])), []), []);
            && ParseSelection(ExprText(e)).Parsed?
            && Value(ParseSelection(ExprText(e)).node, row) != ExprTruth(e, row)
  {
    var inner := Expr(Conj(Test(item), []), []);
    var once := Expr(Conj(Not(inner), []), []);
    var e := Expr(Conj(Not(once), []), []);
    SelectionIsComputed(e, row);
    RightUnder(inner, row);
    RightUnder(once, row);
    ChainIsExact(e, 0, row);
    assert Depth(inner) == 0 && Depth(once) == 1 && Depth(e) == 2;
    hide Value, ExprComputed, ExprTruth, ParseSelection, ExprText;
  }
}
