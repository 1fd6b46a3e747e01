/** Flattening a cascade of configuration trees (dm_config_flatten) and what looking
    a path up in the result gives. */
module ConfigCascade {
  import opened Options
  import opened ConfigTree

  type Path = seq<string>

  // ---- looking up ----

  /** The values found at a path; the inner list is empty where the node has none. */
  function ValuesAt(kids: seq<Node>, q: Path): Option<seq<Value>>
    requires q != []
  {
    match Lookup(kids, q)
    case None => None
    case Some(n) => Some(n.values)
  }

  /** _find_first_config_node: the first tree of the cascade that has the path. */
  function FindFirst(layers: seq<seq<Node>>, q: Path): Option<Node>
    requires q != []
  {
    if layers == [] then None
    else if Lookup(layers[0], q).Some? then Lookup(layers[0], q)
    else FindFirst(layers[1..], q)
  }

  // ---- flattening ----

  /** _override_path: the node at the path takes the values, if there are any. */
  function Override(res: seq<Node>, path: string, values: seq<Value>): seq<Node> {
    var loc := FindOrMake(res, Components(path), false);
    if values == [] then loc.kids
    else Put(loc.kids, loc.trail, At(loc.kids, loc.trail).(values := values))
  }

  /** _enumerate: the nodes without children, each at its path. */
  function Enumerate(path: string, ns: seq<Node>, res: seq<Node>): seq<Node>
    decreases ns, 0
  {
    if ns == [] then res else Enumerate(path, ns[1..], EnumerateNode(path, ns[0], res))
  }

  function EnumerateNode(path: string, n: Node, res: seq<Node>): seq<Node>
    decreases n, 1
  {
    var sub := path + "/" + n.key;
    if n.child != [] then Enumerate(sub, n.child, res) else Override(res, sub, n.values)
  }

  /** The last layer is written first, so that earlier layers override it. */
  function FlattenFrom(layers: seq<seq<Node>>): seq<Node> {
    if layers == [] then [] else Enumerate("", layers[0], FlattenFrom(layers[1..]))
  }

  class Tree {
    var root: seq<Node>

    constructor ()
      ensures root == []
    {
      root := [];
    }

    method OverridePath(path: string, values: seq<Value>)
      modifies this
      ensures root == Override(old(root), path, values)
      ensures forall p, q :: GoodPath(p) && path == JoinPath(p) && q != [] ==>
                ValuesAt(root, q) == Written(ValuesAt(old(root), q), p, values, q)
    {
      hide ValuesAt, Written, GoodPath, JoinPath;
      ghost var was := root;
      var loc := FindOrMake(root, Components(path), false);
      root := loc.kids;
      if values != [] {
        root := Put(root, loc.trail, At(root, loc.trail).(values := values));
      }
      forall p, q | GoodPath(p) && path == JoinPath(p) && q != []
        ensures ValuesAt(root, q) == Written(ValuesAt(was, q), p, values, q)
      {
        GoodOverride(was, p, values, q);
      }
    }
  }

  method EnumerateInto(path: string, ns: seq<Node>, res: Tree)
    modifies res
    ensures res.root == Enumerate(path, ns, old(res.root))
    decreases ns
  {
    var i := 0;
    ghost var goal := Enumerate(path, ns, res.root);
    assert ns[0..] == ns;
    while i < |ns|
      invariant i <= |ns|
      invariant Enumerate(path, ns[i..], res.root) == goal
    {
      assert ns[i..][0] == ns[i] && ns[i..][1..] == ns[i + 1..];
      var sub := path + "/" + ns[i].key;
      if ns[i].child != [] {
        EnumerateInto(sub, ns[i].child, res);
      } else {
        res.OverridePath(sub, ns[i].values);
      }
      i := i + 1;
    }
  }

  /** dm_config_flatten; the cascade is the sequence of its trees, first one first. */
  method Flatten(layers: seq<seq<Node>>) returns (res: Tree)
    ensures fresh(res) && res.root == FlattenFrom(layers)
  {
    res := new Tree();
    var done := |layers|;
    while done != 0
      invariant 0 <= done <= |layers|
      invariant res.root == FlattenFrom(layers[done..])
    {
      var current := 0;
      while current + 1 != done
        invariant 0 <= current < done
        decreases done - current
      {
        current := current + 1;
      }
      assert layers[current..][1..] == layers[done..];
      EnumerateInto("", layers[current], res);
      done := current;
    }
    assert layers[0..] == layers;
  }

  // ---- one override ----

  lemma FindKeyIs(kids: seq<Node>, key: string, i: nat)
    requires i <= |kids| && (i < |kids| ==> kids[i].key == key)
    requires forall j :: 0 <= j < i ==> kids[j].key != key
    ensures FindKey(kids, key) == i
  {
  }

  /** The siblings a path segment is looked for in, and where it then is. */
  ghost predicate Steps(kids: seq<Node>, key: string, list: seq<Node>, j: nat) {
    var i := FindKey(kids, key);
    if i < |kids| then list == kids && j == i
    else list == [Node(key, [], [])] + kids && j == 0
  }

  lemma FindInList(kids: seq<Node>, key: string, list: seq<Node>, j: nat, n: Node, other: string)
    requires Steps(kids, key, list, j) && n.key == key
    ensures j < |list| && list[j].key == key
    ensures other == key ==> FindKey(list[j := n], other) == j
    ensures other != key ==>
              var i, m := FindKey(kids, other), FindKey(list[j := n], other);
              && (i < |kids| <==> m < |list|)
              && (i < |kids| ==> list[j := n][m] == kids[i])
  {
    var list' := list[j := n];
    if other == key {
      FindKeyIs(list', key, j);
    } else if FindKey(kids, key) < |kids| {
      FindKeyIs(list', other, FindKey(kids, other));
    } else {
      FindKeyIs(list', other, 1 + FindKey(kids, other));
    }
  }

  lemma FindOrMakeStep(kids: seq<Node>, p: Path) returns (list: seq<Node>, j: nat)
    requires p != []
    ensures Steps(kids, p[0], list, j) && j < |list| && list[j].key == p[0]
    ensures |p| == 1 ==> FindOrMake(kids, p, false) == Located(list, [j])
    ensures |p| > 1 ==>
              var sub := FindOrMake(list[j].child, p[1..], false);
              FindOrMake(kids, p, false) == Located(list[j := list[j].(child := sub.kids)], [j] + sub.trail)
  {
    var i := FindKey(kids, p[0]);
    list := if i < |kids| then kids else [Node(p[0], [], [])] + kids;
    j := if i < |kids| then i else 0;
  }

  lemma ValuesStep(kids: seq<Node>, q: Path)
    requires q != []
    ensures var i := FindKey(kids, q[0]);
            ValuesAt(kids, q) == if i == |kids| then None
                                 else if |q| == 1 then Some(kids[i].values)
                                 else ValuesAt(kids[i].child, q[1..])
  {
    hide FindKey;
  }

  lemma NoValues(q: Path)
    requires q != []
    ensures ValuesAt([], q) == None
  {
  }

  /** Values in the siblings after node n took the place for the key. */
  lemma ListValues(kids: seq<Node>, key: string, list: seq<Node>, j: nat, n: Node, q: Path)
    requires Steps(kids, key, list, j) && n.key == key && q != []
    ensures j < |list| && list[j].key == key
    ensures q[0] != key ==> ValuesAt(list[j := n], q) == ValuesAt(kids, q)
    ensures q[0] == key ==>
              ValuesAt(list[j := n], q) == if |q| == 1 then Some(n.values) else ValuesAt(n.child, q[1..])
    ensures q[0] == key && |q| > 1 ==> ValuesAt(list[j].child, q[1..]) == ValuesAt(kids, q)
    ensures q == [key] ==>
              ValuesAt(kids, q) == (if FindKey(kids, key) < |kids| then Some(list[j].values) else None)
              && (FindKey(kids, key) == |kids| ==> list[j].values == [])
  {
    hide ValuesAt;
    FindInList(kids, key, list, j, n, q[0]);
    ValuesStep(list[j := n], q);
    ValuesStep(kids, q);
    if |q| > 1 {
      NoValues(q[1..]);
    }
  }

  /** Making a node adds the missing prefixes of its path, without values, and
      changes no value. */
  lemma {:induction false} MakeValues(kids: seq<Node>, p: Path, q: Path)
    requires p != [] && q != []
    ensures ValuesAt(FindOrMake(kids, p, false).kids, q)
         == if ValuesAt(kids, q).Some? then ValuesAt(kids, q)
            else if q <= p then Some([])
            else None
    decreases |p|
  {
    hide FindOrMake, ValuesAt, Steps;
    var list, j := FindOrMakeStep(kids, p);
    ListValues(kids, p[0], list, j, list[j], q);
    assert list[j := list[j]] == list;
    if |p| > 1 {
      ListValues(kids, p[0], list, j, list[j].(child := FindOrMake(list[j].child, p[1..], false).kids), q);
      if q[0] == p[0] && |q| > 1 {
        MakeValues(list[j].child, p[1..], q[1..]);
        PrefixTail(q, p);
      }
    }
    PrefixHead(q, p);
  }

  lemma PrefixTail(q: Path, p: Path)
    requires |q| > 1 && |p| > 1 && q[0] == p[0]
    ensures q <= p <==> q[1..] <= p[1..]
    ensures q == p <==> q[1..] == p[1..]
  {
    assert q == [q[0]] + q[1..] && p == [p[0]] + p[1..];
  }

  lemma PrefixHead(q: Path, p: Path)
    requires q != [] && p != []
    ensures q[0] != p[0] ==> !(q <= p)
    ensures |q| == 1 && q[0] == p[0] ==> q <= p && q == [p[0]]
    ensures |q| > 1 && |p| == 1 ==> !(q <= p)
  {
  }

  /** Putting values at the node changes them there and nowhere else. */
  lemma {:induction false} PutValues(kids: seq<Node>, p: Path, vs: seq<Value>, q: Path)
    requires p != [] && q != []
    ensures var loc := FindOrMake(kids, p, false);
            ValuesAt(Put(loc.kids, loc.trail, At(loc.kids, loc.trail).(values := vs)), q)
            == if q == p then Some(vs) else ValuesAt(loc.kids, q)
    decreases |p|
  {
    hide FindOrMake, ValuesAt, Steps;
    var list, j := FindOrMakeStep(kids, p);
    ListValues(kids, p[0], list, j, list[j], q);
    if |p| == 1 {
      assert list[j := list[j]] == list;
      ListValues(kids, p[0], list, j, list[j].(values := vs), q);
    } else {
      var sub := FindOrMake(list[j].child, p[1..], false);
      var n := list[j].(child := sub.kids);
      var m := PutDeep(list, j, sub.kids, sub.trail, vs);
      ListValues(kids, p[0], list, j, n, q);
      ListValues(kids, p[0], list, j, m, q);
      if q[0] == p[0] && |q| > 1 {
        PutValues(list[j].child, p[1..], vs, q[1..]);
        PrefixTail(q, p);
      }
    }
  }

  lemma PutDeep(list: seq<Node>, j: nat, kids: seq<Node>, trail: Trail, vs: seq<Value>) returns (m: Node)
    requires j < |list| && ValidTrail(kids, trail)
    ensures var n := list[j].(child := kids);
            var all := list[j := n];
            && m == n.(child := Put(kids, trail, At(kids, trail).(values := vs)))
            && ValidTrail(all, [j] + trail)
            && Put(all, [j] + trail, At(all, [j] + trail).(values := vs)) == list[j := m]
  {
    var n := list[j].(child := kids);
    m := n.(child := Put(kids, trail, At(kids, trail).(values := vs)));
    assert ([j] + trail)[1..] == trail;
    assert list[j := n][j := m] == list[j := m];
  }

  /** What one override does to every path. */
  function Written(was: Option<seq<Value>>, p: Path, vs: seq<Value>, q: Path): Option<seq<Value>> {
    if q == p && vs != [] then Some(vs)
    else if was.Some? then was
    else if q <= p then Some([])
    else None
  }

  lemma OverrideValues(res: seq<Node>, p: Path, vs: seq<Value>, q: Path)
    requires p != [] && (forall k :: k in p ==> PathKey(k)) && q != []
    ensures ValuesAt(Override(res, JoinPath(p), vs), q) == Written(ValuesAt(res, q), p, vs, q)
  {
    ComponentsOfJoin(p);
    MakeValues(res, p, q);
    PutValues(res, p, vs, q);
  }

  // ---- all the leaves of a layer ----

  datatype Leaf = Leaf(path: Path, values: seq<Value>)

  function Leaves(ns: seq<Node>, pre: Path): seq<Leaf>
    decreases ns, 0
  {
    if ns == [] then [] else LeavesOf(ns[0], pre + [ns[0].key]) + Leaves(ns[1..], pre)
  }

  function LeavesOf(n: Node, path: Path): seq<Leaf>
    decreases n, 1
  {
    if n.child != [] then Leaves(n.child, path) else [Leaf(path, n.values)]
  }

  function OverrideAll(res: seq<Node>, ls: seq<Leaf>): seq<Node>
    decreases |ls|
  {
    if ls == [] then res
    else OverrideAll(Override(res, JoinPath(ls[0].path), ls[0].values), ls[1..])
  }

  lemma {:induction false} OverrideAppend(res: seq<Node>, a: seq<Leaf>, b: seq<Leaf>)
    ensures OverrideAll(res, a + b) == OverrideAll(OverrideAll(res, a), b)
    decreases |a|
  {
    hide Override;
    if a == [] {
      assert a + b == b;
    } else {
      OverrideAppend(Override(res, JoinPath(a[0].path), a[0].values), a[1..], b);
      assert (a + b)[1..] == a[1..] + b;
    }
  }

  lemma JoinSnoc(pre: Path, key: string)
    ensures JoinPath(pre + [key]) == JoinPath(pre) + "/" + key
  {
    assert (pre + [key])[..|pre|] == pre;
  }

  /** Enumerating a layer overrides the path of each of its leaves, in order. */
  lemma {:induction false} EnumerateLeaves(pre: Path, ns: seq<Node>, res: seq<Node>)
    ensures Enumerate(JoinPath(pre), ns, res) == OverrideAll(res, Leaves(ns, pre))
    decreases ns, 0
  {
    hide JoinPath, Override;
    if ns != [] {
      var path := pre + [ns[0].key];
      EnumerateNodeLeaves(pre, ns[0], res);
      EnumerateLeaves(pre, ns[1..], EnumerateNode(JoinPath(pre), ns[0], res));
      OverrideAppend(res, LeavesOf(ns[0], path), Leaves(ns[1..], pre));
    }
  }

  lemma {:induction false} EnumerateNodeLeaves(pre: Path, n: Node, res: seq<Node>)
    ensures EnumerateNode(JoinPath(pre), n, res) == OverrideAll(res, LeavesOf(n, pre + [n.key]))
    decreases n, 1
  {
    hide JoinPath, Override;
    JoinSnoc(pre, n.key);
    if n.child != [] {
      EnumerateLeaves(pre + [n.key], n.child, res);
    } else {
      assert [Leaf(pre + [n.key], n.values)][1..] == [];
    }
  }

  // ---- the leaves and the paths of a layer ----

  /** Keys that can be addressed: not empty, no slash, and distinct among siblings. */
  predicate WellKeyed(ns: seq<Node>)
    decreases ns
  {
    ns == [] || (PathKey(ns[0].key) && WellKeyed(ns[0].child) && WellKeyed(ns[1..])
                 && forall m :: m in ns[1..] ==> m.key != ns[0].key)
  }

  predicate GoodPath(p: Path) {
    p != [] && forall k :: k in p ==> PathKey(k)
  }

  lemma GoodOverride(res: seq<Node>, p: Path, vs: seq<Value>, q: Path)
    requires GoodPath(p) && q != []
    ensures ValuesAt(Override(res, JoinPath(p), vs), q) == Written(ValuesAt(res, q), p, vs, q)
  {
    hide ValuesAt, Written, Override, JoinPath;
    OverrideValues(res, p, vs, q);
  }

  lemma {:induction false} LeafPaths(ns: seq<Node>, pre: Path, l: Leaf)
    requires WellKeyed(ns) && (forall k :: k in pre ==> PathKey(k)) && l in Leaves(ns, pre)
    ensures GoodPath(l.path) && |pre| < |l.path| && pre <= l.path
    decreases ns
  {
    if l in LeavesOf(ns[0], pre + [ns[0].key]) {
      if ns[0].child != [] {
        LeafPaths(ns[0].child, pre + [ns[0].key], l);
      }
    } else {
      LeafPaths(ns[1..], pre, l);
    }
  }

  lemma LookupStep(ns: seq<Node>, s: Path)
    requires ns != [] && s != []
    ensures Lookup(ns, s) == if ns[0].key != s[0] then Lookup(ns[1..], s)
                             else if |s| == 1 then Some(ns[0])
                             else Lookup(ns[0].child, s[1..])
  {
  }

  lemma {:induction false} LookupMissing(ns: seq<Node>, s: Path)
    requires s != [] && forall m :: m in ns ==> m.key != s[0]
    ensures Lookup(ns, s) == None
  {
    if ns != [] {
      assert ns[0] in ns;
      LookupStep(ns, s);
      LookupMissing(ns[1..], s);
    }
  }

  /** The leaf a layer has at a path, if there is one. */
  function LeafAt(ns: seq<Node>, s: Path): Option<seq<Value>>
    requires s != []
  {
    match Lookup(ns, s)
    case None => None
    case Some(n) => if n.child == [] then Some(n.values) else None
  }

  lemma SplitPath(pre: Path, key: string, s: Path)
    requires s != []
    ensures s[0] == key && |s| > 1 ==> pre + s == (pre + [key]) + s[1..]
    ensures s == [key] ==> pre + s == pre + [key]
    ensures pre + s == pre + [key] ==> s == [key]
    ensures pre + [key] <= pre + s ==> s[0] == key
  {
    assert (pre + s)[|pre|] == s[0] && (pre + s)[|pre|..] == s;
    assert pre + [key] <= pre + s ==> (pre + s)[|pre|] == (pre + [key])[|pre|];
    assert (pre + [key])[|pre|..] == [key];
  }

  /** The leaves below a prefix are exactly the leaves that looking up finds. */
  lemma {:induction false} LeavesAreLookups(ns: seq<Node>, pre: Path, s: Path, vs: seq<Value>)
    requires WellKeyed(ns) && s != [] && (forall k :: k in pre ==> PathKey(k))
    ensures Leaf(pre + s, vs) in Leaves(ns, pre) <==> LeafAt(ns, s) == Some(vs)
    decreases ns
  {
    hide Lookup;
    if ns == [] {
      LookupMissing(ns, s);
    } else {
      var key := ns[0].key;
      var path := pre + [key];
      var l := Leaf(pre + s, vs);
      LookupStep(ns, s);
      LeavesAreLookups(ns[1..], pre, s, vs);
      SplitPath(pre, key, s);
      if s[0] == key {
        LookupMissing(ns[1..], s);
        if |s| > 1 {
          if ns[0].child != [] {
            LeavesAreLookups(ns[0].child, path, s[1..], vs);
          } else {
            LookupMissing([], s[1..]);
          }
        } else if ns[0].child != [] && l in Leaves(ns[0].child, path) {
          LeafPaths(ns[0].child, path, l);
        }
      } else if l in LeavesOf(ns[0], path) && ns[0].child != [] {
        LeafPaths(ns[0].child, path, l);
      }
    }
  }

  lemma {:induction false} SomeLeaf(ns: seq<Node>, pre: Path)
    requires ns != []
    ensures Leaves(ns, pre) != []
    decreases ns
  {
    if ns[0].child != [] {
      SomeLeaf(ns[0].child, pre + [ns[0].key]);
    }
  }

  /** A leaf of the node with the key lies below the path of the node. */
  lemma LeafBelow(n: Node, path: Path) returns (l: Leaf)
    requires WellKeyed(n.child) && forall k :: k in path ==> PathKey(k)
    ensures l in LeavesOf(n, path) && path <= l.path
  {
    if n.child != [] {
      SomeLeaf(n.child, path);
      l := Leaves(n.child, path)[0];
      LeafPaths(n.child, path, l);
    } else {
      l := Leaf(path, n.values);
    }
  }

  /** A path exists in a layer exactly if it leads to or towards a leaf. */
  lemma {:induction false} PathsLeadToLeaves(ns: seq<Node>, pre: Path, s: Path)
    requires WellKeyed(ns) && s != [] && (forall k :: k in pre ==> PathKey(k))
    ensures Lookup(ns, s).Some? <==> exists l :: l in Leaves(ns, pre) && pre + s <= l.path
    decreases ns, 0
  {
    hide Lookup;
    if ns == [] {
      LookupMissing(ns, s);
    } else {
      var key := ns[0].key;
      var path := pre + [key];
      LookupStep(ns, s);
      PathsLeadToLeaves(ns[1..], pre, s);
      SplitPath(pre, key, s);
      assert forall l :: l in Leaves(ns, pre) <==> l in LeavesOf(ns[0], path) || l in Leaves(ns[1..], pre);
      if s[0] == key {
        LookupMissing(ns[1..], s);
        if |s| > 1 {
          PathsBelow(ns[0], path, s[1..]);
        } else {
          var l := LeafBelow(ns[0], path);
        }
      } else {
        ElsewherePaths(ns[0], pre, s);
      }
    }
  }

  lemma PathsBelow(n: Node, path: Path, s: Path)
    requires WellKeyed(n.child) && s != [] && (forall k :: k in path ==> PathKey(k))
    ensures Lookup(n.child, s).Some? <==> exists l :: l in LeavesOf(n, path) && path + s <= l.path
    decreases n, 1
  {
    if n.child != [] {
      PathsLeadToLeaves(n.child, path, s);
    } else {
      LookupMissing([], s);
    }
  }

  lemma ElsewherePaths(n: Node, pre: Path, s: Path)
    requires WellKeyed(n.child) && PathKey(n.key) && s != [] && s[0] != n.key
    requires forall k :: k in pre ==> PathKey(k)
    ensures !exists l :: l in LeavesOf(n, pre + [n.key]) && pre + s <= l.path
  {
    var path := pre + [n.key];
    forall l | l in LeavesOf(n, path)
      ensures !(pre + s <= l.path)
    {
      if n.child != [] {
        LeafPaths(n.child, path, l);
      }
      assert l.path[|pre|] == path[|pre|] == n.key;
      assert (pre + s)[|pre|] == s[0];
    }
  }

  // ---- writing a list of leaves ----

  function WrittenAll(was: Option<seq<Value>>, ls: seq<Leaf>, q: Path): Option<seq<Value>>
    decreases |ls|
  {
    if ls == [] then was
    else WrittenAll(Written(was, ls[0].path, ls[0].values, q), ls[1..], q)
  }

  lemma {:induction false} OverrideAllValues(res: seq<Node>, ls: seq<Leaf>, q: Path)
    requires q != [] && forall l :: l in ls ==> GoodPath(l.path)
    ensures ValuesAt(OverrideAll(res, ls), q) == WrittenAll(ValuesAt(res, q), ls, q)
    decreases |ls|
  {
    hide ValuesAt, Override, Written;
    if ls != [] {
      assert ls[0] in ls;
      OverrideValues(res, ls[0].path, ls[0].values, q);
      OverrideAllValues(Override(res, JoinPath(ls[0].path), ls[0].values), ls[1..], q);
    }
  }

  lemma {:induction false} WrittenKeeps(w: seq<Value>, ls: seq<Leaf>, q: Path)
    requires forall l :: l in ls && l.path == q ==> l.values == w || l.values == []
    ensures WrittenAll(Some(w), ls, q) == Some(w)
    decreases |ls|
  {
    if ls != [] {
      assert ls[0] in ls;
      WrittenKeeps(w, ls[1..], q);
    }
  }

  lemma {:induction false} WrittenValue(was: Option<seq<Value>>, ls: seq<Leaf>, q: Path, vs: seq<Value>)
    requires vs != [] && Leaf(q, vs) in ls && forall l :: l in ls && l.path == q ==> l.values == vs
    ensures WrittenAll(was, ls, q) == Some(vs)
    decreases |ls|
  {
    assert ls[0] in ls;
    if ls[0].path == q {
      WrittenKeeps(vs, ls[1..], q);
    } else {
      WrittenValue(Written(was, ls[0].path, ls[0].values, q), ls[1..], q, vs);
    }
  }

  lemma {:induction false} WrittenPath(was: Option<seq<Value>>, ls: seq<Leaf>, q: Path)
    requires forall l :: l in ls && l.path == q ==> l.values == []
    ensures WrittenAll(was, ls, q) ==
            if was.Some? then was else if exists l :: l in ls && q <= l.path then Some([]) else None
    decreases |ls|
  {
    if ls != [] {
      var next := Written(was, ls[0].path, ls[0].values, q);
      assert ls[0] in ls;
      WrittenPath(next, ls[1..], q);
      assert forall l :: l in ls <==> l == ls[0] || l in ls[1..];
    }
  }

  // ---- layers ----

  /** The values of the first layer that has a leaf with values at the path. */
  function FirstLeafValues(layers: seq<seq<Node>>, q: Path): seq<Value>
    requires q != []
  {
    if layers == [] then []
    else if LeafAt(layers[0], q).Some? && LeafAt(layers[0], q).value != [] then LeafAt(layers[0], q).value
    else FirstLeafValues(layers[1..], q)
  }

  predicate AllWellKeyed(layers: seq<seq<Node>>) {
    forall layer :: layer in layers ==> WellKeyed(layer)
  }

  /** What enumerating one layer into a tree leaves at each path. */
  lemma LayerValues(layer: seq<Node>, res: seq<Node>, q: Path)
    requires WellKeyed(layer) && q != []
    ensures ValuesAt(Enumerate("", layer, res), q) ==
            if LeafAt(layer, q).Some? && LeafAt(layer, q).value != [] then LeafAt(layer, q)
            else if ValuesAt(res, q).Some? then ValuesAt(res, q)
            else if Lookup(layer, q).Some? then Some([])
            else None
  {
    hide Lookup, ValuesAt, LeafAt, Enumerate, OverrideAll, Leaves, WrittenAll;
    var ls := Leaves(layer, []);
    assert JoinPath([]) == "";
    assert [] + q == q;
    EnumerateLeaves([], layer, res);
    forall l | l in ls
      ensures GoodPath(l.path)
    {
      LeafPaths(layer, [], l);
    }
    OverrideAllValues(res, ls, q);
    forall l | l in ls && l.path == q
      ensures LeafAt(layer, q) == Some(l.values)
    {
      assert l == Leaf([] + q, l.values);
      LeavesAreLookups(layer, [], q, l.values);
    }
    if LeafAt(layer, q).Some? && LeafAt(layer, q).value != [] {
      LeavesAreLookups(layer, [], q, LeafAt(layer, q).value);
      WrittenValue(ValuesAt(res, q), ls, q, LeafAt(layer, q).value);
    } else {
      WrittenPath(ValuesAt(res, q), ls, q);
      PathsLeadToLeaves(layer, [], q);
    }
  }

  /** A path exists in the flattened tree exactly if some layer of the cascade has
      it, and its values are those of the first layer with a leaf and values there. */
  lemma {:induction false} FlattenedValues(layers: seq<seq<Node>>, q: Path)
    requires AllWellKeyed(layers) && q != []
    ensures ValuesAt(FlattenFrom(layers), q)
         == if FindFirst(layers, q).Some? then Some(FirstLeafValues(layers, q)) else None
  {
    hide Lookup, ValuesAt, LeafAt, Enumerate;
    if layers == [] {
      NoValues(q);
    } else {
      assert layers[0] in layers;
      assert forall layer :: layer in layers[1..] ==> layer in layers;
      FlattenedValues(layers[1..], q);
      LayerValues(layers[0], FlattenFrom(layers[1..]), q);
      LeafIsFound(layers[0], q);
      NothingFound(layers[1..], q);
    }
  }

  lemma LeafIsFound(layer: seq<Node>, q: Path)
    requires q != []
    ensures LeafAt(layer, q).Some? ==> Lookup(layer, q).Some?
  {
  }

  lemma {:induction false} NothingFound(layers: seq<seq<Node>>, q: Path)
    requires q != []
    ensures FindFirst(layers, q) == None ==> FirstLeafValues(layers, q) == []
  {
    if layers != [] {
      NothingFound(layers[1..], q);
    }
  }

  /** Flattening preserves lookup: the same paths exist, and where the first layer
      that has the path has a leaf with values there, they are what is found. */
  lemma FlattenPreservesLookup(layers: seq<seq<Node>>, path: string)
    requires AllWellKeyed(layers)
    ensures var q := Components(path);
            var flat := Lookup(FlattenFrom(layers), q);
            var first := FindFirst(layers, q);
            && (flat.Some? <==> first.Some?)
            && (flat.Some? && first.value.child == [] && first.value.values != [] ==>
                  flat.value.values == first.value.values)
  {
    var q := Components(path);
    hide FlattenFrom, Components;
    FlattenedValues(layers, q);
    FirstLeaf(layers, q);
  }

  lemma {:induction false} FirstLeaf(layers: seq<seq<Node>>, q: Path)
    requires q != []
    ensures var first := FindFirst(layers, q);
            first.Some? && first.value.child == [] && first.value.values != [] ==>
              FirstLeafValues(layers, q) == first.value.values
  {
    hide Lookup;
    if layers != [] {
      FirstLeaf(layers[1..], q);
    }
  }

  /** The layer has a leaf with values at the path. */
  predicate HasLeafValues(layer: seq<Node>, q: Path)
    requires q != []
  {
    LeafAt(layer, q).Some? && LeafAt(layer, q).value != []
  }

  lemma {:induction false} NoLeafValues(layers: seq<seq<Node>>, q: Path)
    requires q != []
    ensures FirstLeafValues(layers, q) == [] <==> forall i :: 0 <= i < |layers| ==> !HasLeafValues(layers[i], q)
  {
    hide LeafAt;
    if layers != [] {
      NoLeafValues(layers[1..], q);
      assert forall i :: 1 <= i < |layers| ==> layers[i] == layers[1..][i - 1];
      assert (forall i :: 0 <= i < |layers| ==> !HasLeafValues(layers[i], q)) <==>
             && !HasLeafValues(layers[0], q)
             && forall i :: 0 <= i < |layers[1..]| ==> !HasLeafValues(layers[1..][i], q);
    }
  }

  /** Exactly when the flattened tree has the values that looking the path up in the
      cascade finds: they are those of a leaf; or there are none, and no layer has a leaf
      with values there; or they belong to a section, and the first leaf with values
      there has the same. */
  lemma FlattenedLookupIsExact(layers: seq<seq<Node>>, path: string)
    requires AllWellKeyed(layers) && FindFirst(layers, Components(path)).Some?
    ensures var q := Components(path);
            var flat, first := Lookup(FlattenFrom(layers), q), FindFirst(layers, q).value;
            && flat.Some?
            && (flat.value.values == first.values <==>
                if first.values == [] then forall i :: 0 <= i < |layers| ==> !HasLeafValues(layers[i], q)
                else first.child == [] || FirstLeafValues(layers, q) == first.values)
  {
    var q := Components(path);
    hide FlattenFrom, Components, HasLeafValues, FirstLeafValues;
    FlattenedValues(layers, q);
    FirstLeaf(layers, q);
    NoLeafValues(layers, q);
  }

  lemma WellKeyedOne(n: Node)
    requires PathKey(n.key) && WellKeyed(n.child)
    ensures WellKeyed([n])
  {
    assert [n][0] == n && [n][1..] == [];
  }

  /** Without the leaf, lookup is not preserved: a section in the first layer does not
      hide the value of a later one once the cascade is flattened. */
  lemma SectionDoesNotHide(v: Value, w: Value)
    ensures var first := [Node("a", [], [Node("b", [w], [])])];
            var second := [Node("a", [v], [])];
            && AllWellKeyed([first, second])
            && ValuesAt(FlattenFrom([first, second]), ["a"]) == Some([v])
            && FindFirst([first, second], ["a"]).Some?
            && FindFirst([first, second], ["a"]).value.values == []
  {
    var inner := [Node("b", [w], [])];
    var first := [Node("a", [], inner)];
    var second := [Node("a", [v], [])];
    WellKeyedOne(inner[0]);
    WellKeyedOne(first[0]);
    WellKeyedOne(second[0]);
    LookupStep(first, ["a"]);
    LookupStep(second, ["a"]);
    assert [first, second][1..] == [second] && [second][0] == second;
    FlattenedValues([first, second], ["a"]);
  }
}
