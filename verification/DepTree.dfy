/** The dependency tree of libdm-deptree.c: devices linked by mirrored lists of what
    they use and what uses them, with a root that stands in for missing parents and
    children. A node is addressed by its device number, as in the tree's hash table. */
module DepTree {

  datatype Dev = Dev(major: nat, minor: nat)

  datatype Id = Root | Node(dev: Dev)

  /** The two lists of every node. */
  datatype Links = Links(uses: map<Id, seq<Id>>, usedBy: map<Id, seq<Id>>)

  ghost predicate NoDup<T>(s: seq<T>) {
    forall i, j :: 0 <= i < j < |s| ==> s[i] != s[j]
  }

  ghost predicate Uses(g: Links, a: Id, b: Id) {
    a in g.uses && b in g.uses[a]
  }

  ghost predicate UsedBy(g: Links, b: Id, a: Id) {
    b in g.usedBy && a in g.usedBy[b]
  }

  ghost predicate NoDuplicates(m: map<Id, seq<Id>>) {
    forall a :: a in m ==> NoDup(m[a])
  }

  /** The lists are mirror images of each other, name only nodes of the tree and have
      no duplicates. */
  ghost predicate WF(g: Links) {
    && Root in g.uses && g.uses.Keys == g.usedBy.Keys
    && (forall a, b :: Uses(g, a, b) ==> b in g.uses)
    && (forall a, b :: Uses(g, a, b) <==> UsedBy(g, b, a))
    && NoDuplicates(g.uses) && NoDuplicates(g.usedBy)
    && !Uses(g, Root, Root)
  }

  /** Root stands in exactly when there is nothing else in the list. */
  ghost predicate RootRule(list: seq<Id>) {
    Root in list <==> forall x :: x in list ==> x == Root
  }

  // ---- linking and unlinking ----

  /** _link_nodes */
  function Link(g: Links, parent: Id, child: Id): Links
    requires parent in g.uses && child in g.usedBy
  {
    if child in g.uses[parent] then g
    else Links(g.uses[parent := g.uses[parent] + [child]], g.usedBy[child := g.usedBy[child] + [parent]])
  }

  /** _unlink: the first link to the node goes. */
  function Remove(s: seq<Id>, x: Id): seq<Id> {
    if s == [] then [] else if s[0] == x then s[1..] else [s[0]] + Remove(s[1..], x)
  }

  /** _unlink_nodes */
  function Unlink(g: Links, parent: Id, child: Id): Links
    requires parent in g.uses && child in g.usedBy
  {
    if child !in g.uses[parent] then g
    else Links(g.uses[parent := Remove(g.uses[parent], child)], g.usedBy[child := Remove(g.usedBy[child], parent)])
  }

  /** dm_tree_node_num_children */
  function NumChildren(g: Links, n: Id, inverted: bool): nat
    requires Root in g.uses && n in g.uses && n in g.usedBy
  {
    if inverted then
      if n in g.uses[Root] then 0 else |g.usedBy[n]|
    else
      if Root in g.uses[n] then 0 else |g.uses[n]|
  }

  /** _link_tree_nodes, for a child other than the root. */
  function LinkTree(g: Links, parent: Id, child: Id): Links
    requires Root in g.uses && Root in g.usedBy && parent in g.uses && child in g.uses && child in g.usedBy
  {
    if parent == Root && NumChildren(g, child, true) != 0 then g
    else
      var g1 := if parent == Root then g else Unlink(g, Root, child);
      var g2 := Unlink(g1, parent, Root);
      Link(g2, parent, child)
  }

  // ---- lemmas ----

  lemma NoDupTail(s: seq<Id>)
    requires NoDup(s) && s != []
    ensures NoDup(s[1..]) && s[0] !in s[1..]
  {
    var t := s[1..];
    forall i, j | 0 <= i < j < |t|
      ensures t[i] != t[j]
    {
      assert s[i + 1] != s[j + 1];
    }
    forall j | 0 <= j < |t|
      ensures t[j] != s[0]
    {
      assert s[0] != s[j + 1];
    }
  }

  lemma {:induction false} RemoveNoDup(s: seq<Id>, x: Id)
    requires NoDup(s)
    ensures forall y :: y in Remove(s, x) <==> y in s && y != x
    ensures NoDup(Remove(s, x))
  {
    if s != [] {
      NoDupTail(s);
      RemoveNoDup(s[1..], x);
      if s[0] != x {
        ConsNoDup(s[0], Remove(s[1..], x));
      }
    }
  }

  lemma ConsNoDup(x: Id, s: seq<Id>)
    requires NoDup(s) && x !in s
    ensures NoDup([x] + s)
  {
  }

  lemma AppendNoDup(s: seq<Id>, x: Id)
    requires NoDup(s) && x !in s
    ensures NoDup(s + [x])
  {
  }

  /** What changes when a link is added or taken away. */
  ghost predicate Changed(g: Links, g': Links, parent: Id, child: Id, linked: bool) {
    && g'.uses.Keys == g.uses.Keys && g'.usedBy.Keys == g.usedBy.Keys
    && parent in g.uses && child in g.usedBy
    && (forall a :: a in g.uses && a != parent ==> g'.uses[a] == g.uses[a])
    && (forall a :: a in g.usedBy && a != child ==> g'.usedBy[a] == g.usedBy[a])
    && (forall y :: Uses(g', parent, y) <==> if y == child then linked else Uses(g, parent, y))
    && (forall y :: UsedBy(g', child, y) <==> if y == parent then linked else UsedBy(g, child, y))
    && NoDup(g'.uses[parent]) && NoDup(g'.usedBy[child])
  }

  lemma LinkChanges(g: Links, parent: Id, child: Id)
    requires WF(g) && parent in g.uses && child in g.uses
    ensures Changed(g, Link(g, parent, child), parent, child, true)
  {
    hide NoDup;
    assert Uses(g, parent, child) <==> UsedBy(g, child, parent);
    assert NoDup(g.uses[parent]) && NoDup(g.usedBy[child]);
    if child !in g.uses[parent] {
      AppendNoDup(g.uses[parent], child);
      AppendNoDup(g.usedBy[child], parent);
    }
  }

  lemma UnlinkChanges(g: Links, parent: Id, child: Id)
    requires WF(g) && parent in g.uses && child in g.uses
    ensures Changed(g, Unlink(g, parent, child), parent, child, false)
  {
    hide NoDup, Remove;
    assert Uses(g, parent, child) <==> UsedBy(g, child, parent);
    assert NoDup(g.uses[parent]) && NoDup(g.usedBy[child]);
    RemoveNoDup(g.uses[parent], child);
    RemoveNoDup(g.usedBy[child], parent);
  }

  lemma ChangedWF(g: Links, g': Links, parent: Id, child: Id, linked: bool)
    requires WF(g) && child in g.uses && Changed(g, g', parent, child, linked)
    requires !(linked && parent == Root && child == Root)
    ensures WF(g')
  {
    hide NoDup;
    forall a, b
      ensures Uses(g', a, b) ==> b in g'.uses
      ensures Uses(g', a, b) <==> UsedBy(g', b, a)
    {
      ChangedEdges(g, g', parent, child, linked, a, b);
      assert Uses(g, a, b) <==> UsedBy(g, b, a);
    }
    ChangedEdges(g, g', parent, child, linked, Root, Root);
  }

  lemma ChangedEdges(g: Links, g': Links, parent: Id, child: Id, linked: bool, a: Id, b: Id)
    requires Changed(g, g', parent, child, linked)
    ensures Uses(g', a, b) <==> if a == parent && b == child then linked else Uses(g, a, b)
    ensures UsedBy(g', b, a) <==> if a == parent && b == child then linked else UsedBy(g, b, a)
  {
  }

  /** Linking into the tree. Nothing but the lists of the parent, the child and the
      root changes, and root gives way to a real parent and a real child. */
  lemma LinkTreeEffect(g: Links, parent: Id, child: Id)
    requires WF(g) && parent in g.uses && child in g.uses && child != Root
    requires RootRule(g.usedBy[child]) || g.usedBy[child] == []
    ensures var g' := LinkTree(g, parent, child);
            && WF(g') && g'.uses.Keys == g.uses.Keys
            && (forall a :: a in g.uses && a != Root && a != parent ==> g'.uses[a] == g.uses[a])
            && (forall a :: a in g.uses && a != Root && a != child ==> g'.usedBy[a] == g.usedBy[a])
            && (parent != Root ==> forall y :: y in g'.uses[parent] <==> y == child || (y in g.uses[parent] && y != Root))
            && RootRule(g'.usedBy[child])
  {
    var g' := LinkTree(g, parent, child);
    if parent == Root && NumChildren(g, child, true) != 0 {
    } else if parent == Root {
      RootLinkEffect(g, child);
    } else {
      NodeLinkEffect(g, parent, child);
    }
  }

  lemma RootLinkEffect(g: Links, child: Id)
    requires WF(g) && child in g.uses && child != Root
    requires RootRule(g.usedBy[child]) || g.usedBy[child] == []
    requires NumChildren(g, child, true) == 0
    ensures var g' := Link(Unlink(g, Root, Root), Root, child);
            && WF(g') && g'.uses.Keys == g.uses.Keys
            && (forall a :: a in g.uses && a != Root ==> g'.uses[a] == g.uses[a])
            && (forall a :: a in g.uses && a != Root && a != child ==> g'.usedBy[a] == g.usedBy[a])
            && RootRule(g'.usedBy[child])
  {
    hide NoDup, Link, NoDuplicates;
    assert !Uses(g, Root, Root);
    assert Unlink(g, Root, Root) == g;
    LinkChanges(g, Root, child);
    ChangedWF(g, Link(g, Root, child), Root, child, true);
    assert Uses(g, Root, child) <==> UsedBy(g, child, Root);
    var g' := Link(g, Root, child);
    forall y
      ensures y in g'.usedBy[child] <==> y == Root || y in g.usedBy[child]
    {
      assert UsedBy(g', child, y) <==> if y == Root then true else UsedBy(g, child, y);
    }
    OnlyRoot(g.usedBy[child], g'.usedBy[child]);
  }

  lemma OnlyRoot(l: seq<Id>, l': seq<Id>)
    requires l == [] || (RootRule(l) && Root in l)
    requires forall y :: y in l' <==> y == Root || y in l
    ensures RootRule(l')
  {
  }

  lemma NodeLinkEffect(g: Links, parent: Id, child: Id)
    requires WF(g) && parent in g.uses && child in g.uses && child != Root && parent != Root
    ensures var g' := Link(Unlink(Unlink(g, Root, child), parent, Root), parent, child);
            && WF(g') && g'.uses.Keys == g.uses.Keys
            && (forall a :: a in g.uses && a != Root && a != parent ==> g'.uses[a] == g.uses[a])
            && (forall a :: a in g.uses && a != Root && a != child ==> g'.usedBy[a] == g.usedBy[a])
            && (forall y :: y in g'.uses[parent] <==> y == child || (y in g.uses[parent] && y != Root))
            && RootRule(g'.usedBy[child])
  {
    hide NoDup, Link, Unlink, WF;
    KeysOf(g);
    var g1 := Unlink(g, Root, child);
    UnlinkChanges(g, Root, child);
    ChangedWF(g, g1, Root, child, false);
    KeysOf(g1);
    var g2 := Unlink(g1, parent, Root);
    UnlinkChanges(g1, parent, Root);
    ChangedWF(g1, g2, parent, Root, false);
    KeysOf(g2);
    var g' := Link(g2, parent, child);
    LinkChanges(g2, parent, child);
    ChangedWF(g2, g', parent, child, true);
    ChangedEdges(g, g1, Root, child, false, Root, child);
    ChangedEdges(g1, g2, parent, Root, false, Root, child);
    ChangedEdges(g2, g', parent, child, true, Root, child);
    assert UsedBy(g', child, parent) && !UsedBy(g', child, Root);
    NoRoot(g'.usedBy[child], parent);
    forall y
      ensures y in g'.uses[parent] <==> y == child || (y in g.uses[parent] && y != Root)
    {
      assert Uses(g', parent, y) <==> y in g'.uses[parent];
      assert Uses(g2, parent, y) <==> if y == Root then false else Uses(g1, parent, y);
      assert Uses(g1, parent, y) <==> Uses(g, parent, y);
    }
  }

  lemma NoRoot(l: seq<Id>, x: Id)
    requires x in l && x != Root && Root !in l
    ensures RootRule(l)
  {
  }

  lemma KeysOf(g: Links)
    requires WF(g)
    ensures Root in g.uses && g.uses.Keys == g.usedBy.Keys
  {
  }
}
