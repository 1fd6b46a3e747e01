/** The nodes of a config tree as they are linked in memory, and _config_reverse, which
    turns the lists of siblings round in place at every level. */
module ConfigLinks {
  import opened ConfigTree
  import opened ConfigParser

  class ConfigNode {
    const key: string
    const values: seq<Value>
    var sib: ConfigNode?
    var child: ConfigNode?

    constructor (key: string, values: seq<Value>)
      ensures this.key == key && this.values == values && sib == null && child == null
    {
      this.key, this.values := key, values;
      sib, child := null, null;
    }
  }

  /** A list of siblings with what hangs below each of them. */
  datatype Shape = Shape(node: ConfigNode, kids: seq<Shape>)

  ghost function Objects(sh: seq<Shape>): set<ConfigNode>
    decreases sh
  {
    if sh == [] then {} else {sh[0].node} + Objects(sh[0].kids) + Objects(sh[1..])
  }

  /** No node stands in two places. */
  ghost predicate Distinct(sh: seq<Shape>)
    decreases sh
  {
    sh == [] ||
    (var kids, rest := Objects(sh[0].kids), Objects(sh[1..]);
     && sh[0].node !in kids + rest && kids !! rest
     && Distinct(sh[0].kids) && Distinct(sh[1..]))
  }

  /** Following child and sib from head, within the nodes s, gives the shape. */
  ghost predicate Linked(head: ConfigNode?, sh: seq<Shape>, s: set<ConfigNode>)
    reads s
    decreases sh
  {
    if sh == [] then head == null
    else
      && head == sh[0].node && head in s
      && Linked(head.child, sh[0].kids, s)
      && Linked(head.sib, sh[1..], s)
  }

  /** The tree that a shape holds. */
  ghost function TreeOf(sh: seq<Shape>): seq<Node>
    decreases sh
  {
    if sh == [] then []
    else [Node(sh[0].node.key, sh[0].node.values, TreeOf(sh[0].kids))] + TreeOf(sh[1..])
  }

  ghost function Turned(sh: seq<Shape>): seq<Shape>
    decreases sh
  {
    if sh == [] then [] else Turned(sh[1..]) + [Shape(sh[0].node, Turned(sh[0].kids))]
  }

  lemma {:induction false} ObjectsAppend(a: seq<Shape>, b: seq<Shape>)
    ensures Objects(a + b) == Objects(a) + Objects(b)
    decreases a
  {
    if a == [] {
      assert a + b == b;
    } else {
      assert (a + b)[1..] == a[1..] + b && (a + b)[0] == a[0];
      ObjectsAppend(a[1..], b);
    }
  }

  lemma {:induction false} TurnedObjects(sh: seq<Shape>)
    ensures Objects(Turned(sh)) == Objects(sh)
    decreases sh
  {
    if sh != [] {
      var last := Shape(sh[0].node, Turned(sh[0].kids));
      TurnedObjects(sh[1..]);
      TurnedObjects(sh[0].kids);
      ObjectsAppend(Turned(sh[1..]), [last]);
      assert [last][0] == last && [last][1..] == [];
      assert Objects([last]) == {sh[0].node} + Objects(sh[0].kids);
    }
  }

  lemma {:induction false} TreeAppend(a: seq<Shape>, b: seq<Shape>)
    ensures TreeOf(a + b) == TreeOf(a) + TreeOf(b)
    decreases a
  {
    if a == [] {
      assert a + b == b;
    } else {
      assert (a + b)[1..] == a[1..] + b && (a + b)[0] == a[0];
      TreeAppend(a[1..], b);
    }
  }

  /** Turning a shape round reverses the tree that it holds. */
  lemma {:induction false} TurnedTree(sh: seq<Shape>)
    ensures TreeOf(Turned(sh)) == ConfigReverse(TreeOf(sh))
    decreases sh
  {
    if sh != [] {
      var last := Shape(sh[0].node, Turned(sh[0].kids));
      var n := Node(sh[0].node.key, sh[0].node.values, TreeOf(sh[0].kids));
      TurnedTree(sh[1..]);
      TurnedTree(sh[0].kids);
      TreeAppend(Turned(sh[1..]), [last]);
      assert [last][0] == last && [last][1..] == [];
      assert TreeOf([last]) == [ReverseNode(n)];
      assert TreeOf(sh)[1..] == TreeOf(sh[1..]);
    }
  }

  /** The links stay within the nodes of the shape, and within any larger set. */
  lemma {:induction false} Within(head: ConfigNode?, sh: seq<Shape>, s: set<ConfigNode>, t: set<ConfigNode>)
    requires Linked(head, sh, s) && Objects(sh) <= t
    ensures Linked(head, sh, t)
    decreases sh
  {
    if sh != [] {
      Within(head.child, sh[0].kids, s, t);
      Within(head.sib, sh[1..], s, t);
    }
  }

  /** What is known of the first of several siblings. */
  lemma FirstOf(head: ConfigNode?, sh: seq<Shape>)
    requires Linked(head, sh, Objects(sh)) && Distinct(sh) && sh != []
    ensures head == sh[0].node
    ensures Linked(head.child, sh[0].kids, Objects(sh[0].kids)) && Linked(head.sib, sh[1..], Objects(sh[1..]))
    ensures head !in Objects(sh[0].kids) && head !in Objects(sh[1..]) && Objects(sh[0].kids) !! Objects(sh[1..])
    ensures Distinct(sh[0].kids) && Distinct(sh[1..])
    ensures Objects(sh) == {sh[0].node} + Objects(sh[0].kids) + Objects(sh[1..])
  {
    Within(head.child, sh[0].kids, Objects(sh), Objects(sh[0].kids));
    Within(head.sib, sh[1..], Objects(sh), Objects(sh[1..]));
  }

  lemma Pushed(node: ConfigNode, kids: seq<Shape>, done: seq<Shape>)
    requires Linked(node.child, kids, Objects(kids)) && Linked(node.sib, done, Objects(done))
    ensures Objects([Shape(node, kids)] + done) == {node} + Objects(kids) + Objects(done)
    ensures Linked(node, [Shape(node, kids)] + done, {node} + Objects(kids) + Objects(done))
  {
    var all, s := [Shape(node, kids)] + done, {node} + Objects(kids) + Objects(done);
    assert all[0] == Shape(node, kids) && all[1..] == done;
    Within(node.child, kids, Objects(kids), s);
    Within(node.sib, done, Objects(done), s);
  }

  /** Puts one node in front of those turned already, and turns what is below it. below
      and turned are the nodes involved. */
  method TurnOne(middle: ConfigNode, right: ConfigNode?, ghost now: Shape, ghost done: seq<Shape>,
                 ghost below: set<ConfigNode>, ghost turned: set<ConfigNode>)
    requires below == Objects(now.kids) && turned == Objects(done)
    requires middle == now.node && middle !in below + turned && below !! turned
    requires Linked(middle.child, now.kids, below) && Distinct(now.kids) && Linked(right, done, turned)
    modifies {middle} + below
    ensures Linked(middle, [Shape(now.node, Turned(now.kids))] + done, {middle} + below + turned)
    decreases now
  {
    hide Linked, Objects, Distinct, Turned;
    TurnedObjects(now.kids);
    middle.sib := right;
    var kids := Reverse(middle.child, now.kids, below);
    middle.child := kids;
    Pushed(middle, Turned(now.kids), done);
  }

  lemma TurnedStep(sh: seq<Shape>, i: nat, done: seq<Shape>)
    requires i < |sh|
    ensures Turned(sh[i..]) + done == Turned(sh[i + 1..]) + ([Shape(sh[i].node, Turned(sh[i].kids))] + done)
    ensures Objects([Shape(sh[i].node, Turned(sh[i].kids))] + done) == {sh[i].node} + Objects(sh[i].kids) + Objects(done)
  {
    assert sh[i..][0] == sh[i] && sh[i..][1..] == sh[i + 1..];
    var all := [Shape(sh[i].node, Turned(sh[i].kids))] + done;
    assert all[1..] == done;
    TurnedObjects(sh[i].kids);
  }

  lemma AtEnd(head: ConfigNode?, sh: seq<Shape>, s: set<ConfigNode>)
    requires Linked(head, sh, s)
    ensures head == null <==> sh == []
    ensures sh == [] ==> Turned(sh) == []
  {
  }

  lemma NothingDone()
    ensures Linked(null, [], {}) && Objects([]) == {}
  {
  }

  /** _config_reverse on the nodes of a shape. */
  method Reverse(head: ConfigNode?, ghost sh: seq<Shape>, ghost nodes: set<ConfigNode>) returns (middle: ConfigNode?)
    requires nodes == Objects(sh) && Linked(head, sh, nodes) && Distinct(sh)
    modifies nodes
    ensures Linked(middle, Turned(sh), nodes)
    decreases sh
  {
    hide Linked, Objects, Distinct, Turned;
    var left, right: ConfigNode? := head, null;
    middle := null;
    ghost var i, done: seq<Shape> := 0, [];
    ghost var ahead, turned: set<ConfigNode> := nodes, {};
    assert sh[0..] == sh;
    NothingDone();
    assert Turned(sh) + [] == Turned(sh);
    while left != null
      invariant i <= |sh| && ahead == Objects(sh[i..]) && turned == Objects(done)
      invariant Linked(left, sh[i..], ahead) && Distinct(sh[i..])
      invariant Linked(middle, done, turned) && turned !! ahead && turned + ahead == nodes
      invariant Turned(sh[i..]) + done == Turned(sh)
      decreases |sh| - i
    {
      AtEnd(left, sh[i..], ahead);
      FirstOf(left, sh[i..]);
      assert sh[i..][0] == sh[i] && sh[i..][1..] == sh[i + 1..];
      TurnedStep(sh, i, done);
      ghost var below := Objects(sh[i].kids);
      ahead := Objects(sh[i + 1..]);
      right := middle;
      middle := left;
      left := left.sib;
      TurnOne(middle, right, sh[i], done, below, turned);
      turned := {middle} + below + turned;
      done := [Shape(sh[i].node, Turned(sh[i].kids))] + done;
      i := i + 1;
    }
    AtEnd(left, sh[i..], ahead);
    assert [] + done == done;
    Within(middle, done, turned, nodes);
  }
}
