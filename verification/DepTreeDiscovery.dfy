/** Discovery: _add_dev follows the dependencies the kernel reports and links them
    into the tree. */
module DepTreeDiscovery {
  import opened DepTree

  /** The kernel's answers: which majors belong to device-mapper, and for each mapped
      device the devices its table refers to. */
  datatype Kernel = Kernel(dmMajors: set<nat>, deps: map<Dev, seq<Dev>>)

  predicate IsDm(k: Kernel, d: Dev) {
    d.major in k.dmMajors
  }

  /** A device-mapper number without a device: the query fails. */
  predicate Missing(k: Kernel, d: Dev) {
    IsDm(k, d) && d !in k.deps
  }

  function Deps(k: Kernel, d: Dev): seq<Dev> {
    if IsDm(k, d) && d in k.deps then k.deps[d] else []
  }

  // ---- reachability ----

  ghost predicate IsPath(k: Kernel, p: seq<Dev>) {
    p != [] && forall i :: 0 <= i < |p| - 1 ==> p[i + 1] in Deps(k, p[i])
  }

  ghost predicate Connects(k: Kernel, p: seq<Dev>, a: Dev, b: Dev) {
    IsPath(k, p) && p[0] == a && p[|p| - 1] == b
  }

  ghost predicate Reaches(k: Kernel, a: Dev, b: Dev) {
    exists p :: Connects(k, p, a, b)
  }

  lemma ReachesSelf(k: Kernel, a: Dev)
    ensures Reaches(k, a, a)
  {
    assert Connects(k, [a], a, a);
  }

  lemma ReachesStep(k: Kernel, a: Dev, d: Dev, b: Dev)
    requires d in Deps(k, a) && Reaches(k, d, b)
    ensures Reaches(k, a, b)
  {
    hide Deps;
    var p :| Connects(k, p, d, b);
    var q := [a] + p;
    forall i | 0 <= i < |q| - 1
      ensures q[i + 1] in Deps(k, q[i])
    {
      assert i > 0 ==> q[i] == p[i - 1] && q[i + 1] == p[i];
    }
    assert Connects(k, q, a, b);
  }

  ghost predicate Closed(k: Kernel, t: set<Dev>) {
    forall a, d :: a in t && d in Deps(k, a) ==> d in t
  }

  lemma ClosedReach(k: Kernel, t: set<Dev>, a: Dev, b: Dev)
    requires Closed(k, t) && a in t && Reaches(k, a, b)
    ensures b in t
  {
    var p :| Connects(k, p, a, b);
    ClosedPath(k, t, p, |p| - 1);
  }

  lemma {:induction false} ClosedPath(k: Kernel, t: set<Dev>, p: seq<Dev>, n: nat)
    requires Closed(k, t) && IsPath(k, p) && p[0] in t && n < |p|
    ensures p[n] in t
  {
    hide Deps;
    if n > 0 {
      ClosedPath(k, t, p, n - 1);
      assert p[n - 1 + 1] in Deps(k, p[n - 1]);
    }
  }

  // ---- the invariant ----

  ghost function Devs(g: Links): set<Dev> {
    set i | i in g.uses && i.Node? :: i.dev
  }

  /** The children of a node are its dependencies, or root if it has none. */
  ghost predicate Finished(g: Links, k: Kernel, d: Dev)
    requires Node(d) in g.uses
  {
    && RootRule(g.uses[Node(d)])
    && forall e :: Node(e) in g.uses[Node(d)] <==> e in Deps(k, d)
  }

  /** Nodes in open are still being given their dependencies. */
  ghost predicate NodeInv(g: Links, k: Kernel, open: set<Dev>, d: Dev)
    requires Node(d) in g.uses && Node(d) in g.usedBy
  {
    && !Missing(k, d)
    && RootRule(g.usedBy[Node(d)])
    && (if d in open then Root !in g.uses[Node(d)] else Finished(g, k, d))
  }

  ghost predicate TreeInv(g: Links, k: Kernel, open: set<Dev>) {
    && WF(g)
    && forall d :: Node(d) in g.uses ==> NodeInv(g, k, open, d)
  }

  /** What adding a device below a parent does: the tree grows by devices reachable
      from it, and no other finished node changes its children. */
  ghost predicate Grown(g: Links, g': Links, k: Kernel, parent: Id, dev: Dev)
    requires parent in g.uses
  {
    && g.uses.Keys <= g'.uses.Keys && Node(dev) in g'.uses
    && (forall a :: a in g.uses && a != Root && a != parent ==> g'.uses[a] == g.uses[a])
    && (parent != Root ==>
          forall y :: y in g'.uses[parent] <==> y == Node(dev) || (y in g.uses[parent] && y != Root))
    && (forall d :: Node(d) in g'.uses && Node(d) !in g.uses ==> Reaches(k, dev, d))
  }

  function AddNode(g: Links, id: Id): Links {
    Links(g.uses[id := []], g.usedBy[id := []])
  }

  lemma AddNodeWF(g: Links, id: Id)
    requires WF(g) && id !in g.uses
    ensures WF(AddNode(g, id))
  {
    var g' := AddNode(g, id);
    assert forall a, b :: Uses(g', a, b) <==> Uses(g, a, b);
    assert forall a, b :: UsedBy(g', b, a) <==> UsedBy(g, b, a);
  }

  lemma SameNode(g: Links, g': Links, k: Kernel, open: set<Dev>, open': set<Dev>, d: Dev)
    requires Node(d) in g.uses && Node(d) in g.usedBy && Node(d) in g'.uses && Node(d) in g'.usedBy
    requires NodeInv(g, k, open, d) && (d in open <==> d in open')
    requires g'.uses[Node(d)] == g.uses[Node(d)] && RootRule(g'.usedBy[Node(d)])
    ensures NodeInv(g', k, open', d)
  {
  }

  /** Linking a device that is in the tree keeps the invariant. */
  lemma LinkKnown(g: Links, k: Kernel, open: set<Dev>, parent: Id, dev: Dev)
    requires TreeInv(g, k, open) && Node(dev) in g.uses && parent in g.uses
    requires parent == Root || parent.dev in open
    ensures var g' := LinkTree(g, parent, Node(dev));
            TreeInv(g', k, open) && Grown(g, g', k, parent, dev) && g'.uses.Keys == g.uses.Keys
  {
    hide LinkTree, RootRule, WF, Missing, Deps;
    KeysOf(g);
    assert NodeInv(g, k, open, dev);
    LinkTreeEffect(g, parent, Node(dev));
    var g' := LinkTree(g, parent, Node(dev));
    KeysOf(g');
    forall d | Node(d) in g'.uses
      ensures NodeInv(g', k, open, d)
    {
      assert NodeInv(g, k, open, d);
      if Node(d) == parent {
        OpenParent(g, g', k, open, d, dev);
      } else {
        SameNode(g, g', k, open, open, d);
      }
    }
  }

  lemma OpenParent(g: Links, g': Links, k: Kernel, open: set<Dev>, d: Dev, dev: Dev)
    requires Node(d) in g.uses && Node(d) in g.usedBy && Node(d) in g'.uses && Node(d) in g'.usedBy
    requires !Missing(k, d) && d in open && RootRule(g'.usedBy[Node(d)])
    requires forall y :: y in g'.uses[Node(d)] <==> y == Node(dev) || (y in g.uses[Node(d)] && y != Root)
    ensures NodeInv(g', k, open, d)
  {
  }

  /** Creating the node of a new device and linking it opens it. */
  lemma LinkNew(g: Links, k: Kernel, open: set<Dev>, parent: Id, dev: Dev)
    requires TreeInv(g, k, open) && Node(dev) !in g.uses && parent in g.uses && !Missing(k, dev)
    requires parent == Root || parent.dev in open
    ensures var g' := LinkTree(AddNode(g, Node(dev)), parent, Node(dev));
            && TreeInv(g', k, open + {dev}) && Grown(g, g', k, parent, dev)
            && g'.uses.Keys == g.uses.Keys + {Node(dev)} && g'.uses[Node(dev)] == []
  {
    hide LinkTree, RootRule, WF, Missing, Deps, Reaches;
    KeysOf(g);
    AddNodeWF(g, Node(dev));
    var h := AddNode(g, Node(dev));
    KeysOf(h);
    LinkTreeEffect(h, parent, Node(dev));
    var g' := LinkTree(h, parent, Node(dev));
    KeysOf(g');
    ReachesSelf(k, dev);
    forall d | Node(d) in g'.uses
      ensures NodeInv(g', k, open + {dev}, d)
    {
      if d == dev {
      } else {
        assert NodeInv(g, k, open, d);
        if Node(d) == parent {
          OpenParent(g, g', k, open + {dev}, d, dev);
        } else {
          SameNode(g, g', k, open, open + {dev}, d);
        }
      }
    }
  }

  /** A device without dependencies gets root as its child. */
  lemma LinkBottom(g: Links, k: Kernel, open: set<Dev>, dev: Dev)
    requires TreeInv(g, k, open + {dev}) && dev !in open && Node(dev) in g.uses && g.uses[Node(dev)] == []
    requires Deps(k, dev) == []
    ensures var g' := Link(g, Node(dev), Root);
            && TreeInv(g', k, open) && g'.uses.Keys == g.uses.Keys
            && forall a :: a in g.uses && a != Node(dev) ==> g'.uses[a] == g.uses[a]
  {
    hide RootRule, WF, Missing, Deps;
    KeysOf(g);
    LinkChanges(g, Node(dev), Root);
    var g' := Link(g, Node(dev), Root);
    ChangedWF(g, g', Node(dev), Root, true);
    KeysOf(g');
    forall d | Node(d) in g'.uses
      ensures NodeInv(g', k, open, d)
    {
      assert NodeInv(g, k, open + {dev}, d);
      if d == dev {
        RootAlone();
        assert g'.uses[Node(dev)] == [] + [Root] == [Root];
      } else {
        SameNode(g, g', k, open + {dev}, open, d);
      }
    }
  }

  lemma RootAlone()
    ensures RootRule([Root])
  {
  }

  /** When all its dependencies are linked, a node is finished. */
  lemma CloseNode(g: Links, k: Kernel, open: set<Dev>, dev: Dev)
    requires TreeInv(g, k, open + {dev}) && dev !in open && Node(dev) in g.uses
    requires Deps(k, dev) != []
    requires forall y :: y in g.uses[Node(dev)] <==> y.Node? && y.dev in Deps(k, dev)
    ensures TreeInv(g, k, open)
  {
    hide WF, Missing, Deps;
    KeysOf(g);
    forall d | Node(d) in g.uses
      ensures NodeInv(g, k, open, d)
    {
      assert NodeInv(g, k, open + {dev}, d);
      if d == dev {
        assert Deps(k, dev)[0] in Deps(k, dev);
        NoRoot(g.uses[Node(dev)], Node(Deps(k, dev)[0]));
      }
    }
  }

  lemma GrownBelow(g: Links, g1: Links, g2: Links, k: Kernel, parent: Id, dev: Dev, d: Dev)
    requires parent in g.uses && Grown(g, g1, k, parent, dev) && Node(dev) in g1.uses && parent != Node(dev)
    requires Node(dev) !in g.uses && Grown(g1, g2, k, Node(dev), d) && d in Deps(k, dev)
    ensures Grown(g, g2, k, parent, dev)
  {
    hide Deps, Reaches;
    forall x | Node(x) in g2.uses && Node(x) !in g.uses
      ensures Reaches(k, dev, x)
    {
      if Node(x) !in g1.uses {
        ReachesStep(k, dev, d, x);
      }
    }
  }

  // ---- the code ----

  class DmTree {
    const kernel: Kernel
    var links: Links

    /** dm_tree_create */
    constructor (kernel: Kernel)
      ensures this.kernel == kernel
      ensures TreeInv(links, kernel, {}) && Devs(links) == {}
    {
      this.kernel := kernel;
      links := Links(map[Root := []], map[Root := []]);
    }

    /** _nodes_are_linked */
    method NodesAreLinked(parent: Id, child: Id) returns (linked: bool)
      requires parent in links.uses
      ensures linked <==> child in links.uses[parent]
    {
      var list := links.uses[parent];
      for i := 0 to |list|
        invariant child !in list[..i]
      {
        if list[i] == child {
          return true;
        }
      }
      assert list[..|list|] == list;
      return false;
    }

    /** _link_nodes */
    method LinkNodes(parent: Id, child: Id)
      requires WF(links) && parent in links.uses && child in links.uses
      modifies this
      ensures links == Link(old(links), parent, child)
    {
      var linked := NodesAreLinked(parent, child);
      if linked {
        return;
      }
      links := Links(links.uses[parent := links.uses[parent] + [child]],
                     links.usedBy[child := links.usedBy[child] + [parent]]);
    }

    /** _unlink_nodes */
    method UnlinkNodes(parent: Id, child: Id)
      requires WF(links) && parent in links.uses && child in links.uses
      modifies this
      ensures links == Unlink(old(links), parent, child)
    {
      var linked := NodesAreLinked(parent, child);
      if !linked {
        return;
      }
      var down := RemoveFirst(links.uses[parent], child);
      var up := RemoveFirst(links.usedBy[child], parent);
      links := Links(links.uses[parent := down], links.usedBy[child := up]);
    }

    /** _link_tree_nodes */
    method LinkTreeNodes(parent: Id, child: Id)
      requires WF(links) && parent in links.uses && child in links.uses && child != Root
      modifies this
      ensures links == LinkTree(old(links), parent, child)
    {
      hide Link, Unlink, WF;
      KeysOf(links);
      if parent == Root {
        if NumChildren(links, child, true) != 0 {
          return;
        }
      } else {
        UnlinkWF(links, Root, child);
        UnlinkNodes(Root, child);
      }
      UnlinkWF(links, parent, Root);
      UnlinkNodes(parent, Root);
      LinkNodes(parent, child);
    }

    /** _add_dev. The nodes in open are the callers' nodes, whose dependencies are
        being added. */
    method AddDev(parent: Id, dev: Dev, ghost open: set<Dev>) returns (ok: bool)
      requires TreeInv(links, kernel, open) && parent in links.uses && open <= Devs(links)
      requires parent == Root || parent.dev in open
      modifies this
      ensures WF(links)
      ensures ok ==> TreeInv(links, kernel, open) && Grown(old(links), links, kernel, parent, dev)
      ensures !ok ==> LeadsNowhere(kernel, dev)
      ensures old(links).uses.Keys <= links.uses.Keys
      decreases kernel.deps.Keys - Devs(links), 1
    {
      hide TreeInv, WF, Grown, LinkTree, Devs, LeadsNowhere;
      var id := Node(dev);
      InvFacts(links, kernel, open);
      if id in links.uses {
        LinkKnown(links, kernel, open, parent, dev);
        LinkTreeNodes(parent, id);
        InvFacts(links, kernel, open);
        return true;
      }
      if Missing(kernel, dev) {
        MissingHere(kernel, dev);
        return false;
      }
      LinkNew(links, kernel, open, parent, dev);
      AddNodeWF(links, id);
      links := AddNode(links, id);
      LinkTreeNodes(parent, id);
      InvFacts(links, kernel, open + {dev});
      DevsOf(old(links), links, dev);
      var deps := Deps(kernel, dev);
      if deps == [] {
        LinkBottom(links, kernel, open, dev);
        GrownSameKeys(old(links), links, Link(links, id, Root), kernel, parent, dev);
        LinkNodes(id, Root);
        InvFacts(links, kernel, open);
        return true;
      }
      ok := AddDeps(parent, dev, deps, open, old(links));
    }

    /** The loop of _add_dev over the dependencies of a new node. */
    method AddDeps(ghost parent: Id, dev: Dev, deps: seq<Dev>, ghost open: set<Dev>, ghost was: Links) returns (ok: bool)
      requires deps == Deps(kernel, dev) && deps != []
      requires TreeInv(links, kernel, open + {dev}) && dev !in open && Node(dev) in links.uses
      requires open + {dev} <= Devs(links)
      requires links.uses[Node(dev)] == []
      requires parent in was.uses && Node(dev) !in was.uses && Grown(was, links, kernel, parent, dev)
      modifies this
      ensures WF(links)
      ensures ok ==> TreeInv(links, kernel, open) && Grown(was, links, kernel, parent, dev)
      ensures !ok ==> LeadsNowhere(kernel, dev)
      ensures old(links).uses.Keys <= links.uses.Keys
      decreases kernel.deps.Keys - Devs(links), 2
    {
      hide TreeInv, WF, Grown, Devs, Deps, LeadsNowhere;
      InvFacts(links, kernel, open + {dev});
      for i := 0 to |deps|
        invariant TreeInv(links, kernel, open + {dev}) && WF(links) && Node(dev) in links.uses
        invariant old(links).uses.Keys <= links.uses.Keys && Devs(old(links)) <= Devs(links)
        invariant Grown(was, links, kernel, parent, dev)
        invariant forall y :: y in links.uses[Node(dev)] <==> y.Node? && y.dev in deps[..i]
      {
        ghost var before := links;
        ok := AddDev(Node(dev), deps[i], open + {dev});
        if !ok {
          LeadsOn(kernel, dev, deps[i]);
          return false;
        }
        GrownBelow(was, before, links, kernel, parent, dev, deps[i]);
        GrownChild(before, links, kernel, dev, deps[i]);
        DevsGrow(before, links);
        assert deps[..i + 1] == deps[..i] + [deps[i]];
      }
      assert deps[..|deps|] == deps;
      CloseNode(links, kernel, open, dev);
      return true;
    }
  }

  lemma InvFacts(g: Links, k: Kernel, open: set<Dev>)
    requires TreeInv(g, k, open)
    ensures WF(g) && Root in g.uses && g.uses.Keys == g.usedBy.Keys
  {
  }

  lemma DevsOf(g: Links, g': Links, dev: Dev)
    requires g'.uses.Keys == g.uses.Keys + {Node(dev)}
    ensures Devs(g') == Devs(g) + {dev}
    ensures Node(dev) !in g.uses ==> dev !in Devs(g)
  {
    assert forall x :: x in Devs(g') <==> Node(x) in g'.uses;
    assert forall x :: x in Devs(g) <==> Node(x) in g.uses;
  }

  lemma DevsGrow(g: Links, g': Links)
    requires g.uses.Keys <= g'.uses.Keys
    ensures Devs(g) <= Devs(g')
  {
  }

  lemma GrownSameKeys(g: Links, g1: Links, g2: Links, k: Kernel, parent: Id, dev: Dev)
    requires parent in g.uses && Grown(g, g1, k, parent, dev) && Node(dev) !in g.uses
    requires g2.uses.Keys == g1.uses.Keys && forall a :: a in g1.uses && a != Node(dev) ==> g2.uses[a] == g1.uses[a]
    ensures Grown(g, g2, k, parent, dev)
  {
    hide Reaches;
  }

  lemma GrownChild(g: Links, g': Links, k: Kernel, dev: Dev, d: Dev)
    requires Node(dev) in g.uses && Grown(g, g', k, Node(dev), d) && Root !in g.uses[Node(dev)]
    ensures Node(dev) in g'.uses && g.uses.Keys <= g'.uses.Keys
    ensures forall y :: y in g'.uses[Node(dev)] <==> y == Node(d) || y in g.uses[Node(dev)]
  {
    hide Reaches;
  }

  /** A missing device is reachable from this one. */
  ghost predicate LeadsNowhere(k: Kernel, dev: Dev) {
    exists m :: Reaches(k, dev, m) && Missing(k, m)
  }

  lemma MissingHere(k: Kernel, dev: Dev)
    requires Missing(k, dev)
    ensures LeadsNowhere(k, dev)
  {
    ReachesSelf(k, dev);
  }

  lemma LeadsOn(k: Kernel, dev: Dev, d: Dev)
    requires d in Deps(k, dev) && LeadsNowhere(k, d)
    ensures LeadsNowhere(k, dev)
  {
    hide Reaches, Missing, Deps;
    var m :| Reaches(k, d, m) && Missing(k, m);
    ReachesStep(k, dev, d, m);
  }

  lemma UnlinkWF(g: Links, parent: Id, child: Id)
    requires WF(g) && parent in g.uses && child in g.uses
    ensures WF(Unlink(g, parent, child)) && Unlink(g, parent, child).uses.Keys == g.uses.Keys
  {
    hide Unlink;
    UnlinkChanges(g, parent, child);
    ChangedWF(g, Unlink(g, parent, child), parent, child, false);
  }

  method RemoveFirst(list: seq<Id>, x: Id) returns (r: seq<Id>)
    ensures r == Remove(list, x)
  {
    hide Remove;
    var i := 0;
    assert list[0..] == list && list[..0] == [] && [] + Remove(list, x) == Remove(list, x);
    while i < |list|
      invariant i <= |list|
      invariant list[..i] + Remove(list[i..], x) == Remove(list, x)
    {
      RemoveStep(list, i, x);
      if list[i] == x {
        return list[..i] + list[i + 1..];
      }
      i := i + 1;
    }
    RemoveEnd(list, x);
    return list;
  }

  lemma RemoveStep(list: seq<Id>, i: nat, x: Id)
    requires i < |list|
    ensures list[..i] + Remove(list[i..], x)
         == if list[i] == x then list[..i] + list[i + 1..] else list[..i + 1] + Remove(list[i + 1..], x)
  {
    assert list[i..][1..] == list[i + 1..];
    if list[i] != x {
      var rest := Remove(list[i + 1..], x);
      assert Remove(list[i..], x) == [list[i]] + rest;
      hide Remove;
      assert list[..i] + ([list[i]] + rest) == list[..i + 1] + rest;
    }
  }

  lemma RemoveEnd(list: seq<Id>, x: Id)
    requires list[..|list|] + Remove(list[|list|..], x) == Remove(list, x)
    ensures Remove(list, x) == list
  {
  }

  /** Reachable from one of the devices. */
  ghost predicate ReachableFrom(k: Kernel, devs: seq<Dev>, x: Dev) {
    exists i :: 0 <= i < |devs| && Reaches(k, devs[i], x)
  }

  /** Any sequence of dm_tree_add_dev calls on a new tree: if all succeed, the tree
      holds exactly the devices reachable from those added, its lists mirror each
      other without duplicates, and root is a parent or child exactly where there is no
      other. The calls all succeed exactly if nothing reachable is missing. */
  method AddDevices(kernel: Kernel, devs: seq<Dev>) returns (t: DmTree, ok: bool)
    ensures fresh(t) && t.kernel == kernel
    ensures ok ==> TreeInv(t.links, kernel, {})
    ensures ok ==> forall x :: Node(x) in t.links.uses <==> ReachableFrom(kernel, devs, x)
    ensures ok <==> forall x :: ReachableFrom(kernel, devs, x) ==> !Missing(kernel, x)
  {
    hide TreeInv, Reaches, Missing, Grown, ReachableFrom, LeadsNowhere;
    t := new DmTree(kernel);
    NoDevs(t.links);
    var i := 0;
    while i < |devs|
      invariant i <= |devs|
      invariant fresh(t) && t.kernel == kernel && TreeInv(t.links, kernel, {})
      invariant forall x :: Node(x) in t.links.uses ==> ReachableFrom(kernel, devs[..i], x)
      invariant forall d :: d in devs[..i] ==> Node(d) in t.links.uses
    {
      ghost var before := t.links;
      InvFacts(t.links, kernel, {});
      ok := t.AddDev(Root, devs[i], {});
      if !ok {
        NowhereFrom(kernel, devs, i);
        return;
      }
      GrownReachable(before, t.links, kernel, devs, i);
      i := i + 1;
    }
    ok := true;
    assert devs[..i] == devs;
    TreeIsClosed(t.links, kernel, devs);
  }

  lemma NoDevs(g: Links)
    requires Devs(g) == {}
    ensures forall x :: Node(x) !in g.uses
  {
    assert forall x :: Node(x) in g.uses ==> x in Devs(g);
  }

  lemma NowhereFrom(k: Kernel, devs: seq<Dev>, i: nat)
    requires i < |devs| && LeadsNowhere(k, devs[i])
    ensures exists x :: ReachableFrom(k, devs, x) && Missing(k, x)
  {
    hide Reaches, Missing;
    var m :| Reaches(k, devs[i], m) && Missing(k, m);
    assert ReachableFrom(k, devs, m);
  }

  lemma GrownReachable(g: Links, g': Links, k: Kernel, devs: seq<Dev>, i: nat)
    requires i < |devs| && Root in g.uses && Grown(g, g', k, Root, devs[i])
    requires forall x :: Node(x) in g.uses ==> ReachableFrom(k, devs[..i], x)
    requires forall d :: d in devs[..i] ==> Node(d) in g.uses
    ensures forall x :: Node(x) in g'.uses ==> ReachableFrom(k, devs[..i + 1], x)
    ensures forall d :: d in devs[..i + 1] ==> Node(d) in g'.uses
  {
    hide Reaches;
    var some := devs[..i + 1];
    assert some == devs[..i] + [devs[i]];
    forall x | Node(x) in g'.uses
      ensures ReachableFrom(k, some, x)
    {
      if Node(x) in g.uses {
        var j :| 0 <= j < |devs[..i]| && Reaches(k, devs[..i][j], x);
        assert Reaches(k, some[j], x);
      } else {
        assert Reaches(k, some[i], x);
      }
    }
  }

  /** A tree with no open node holds whatever is reachable from its devices, and none
      of it is missing. */
  lemma TreeIsClosed(g: Links, k: Kernel, devs: seq<Dev>)
    requires TreeInv(g, k, {}) && forall d :: d in devs ==> Node(d) in g.uses
    ensures forall x :: ReachableFrom(k, devs, x) ==> Node(x) in g.uses && !Missing(k, x)
  {
    var t := Devs(g);
    ClosedDevs(g, k);
    hide Reaches, Missing, Deps, RootRule, Closed, Finished;
    forall x | ReachableFrom(k, devs, x)
      ensures Node(x) in g.uses && !Missing(k, x)
    {
      var i :| 0 <= i < |devs| && Reaches(k, devs[i], x);
      assert Node(devs[i]) in g.uses && devs[i] in t;
      ClosedReach(k, t, devs[i], x);
      assert NodeInv(g, k, {}, x);
    }
  }

  lemma ClosedDevs(g: Links, k: Kernel)
    requires TreeInv(g, k, {})
    ensures Closed(k, Devs(g))
  {
    hide Missing, Deps, RootRule;
    forall a, d | a in Devs(g) && d in Deps(k, a)
      ensures d in Devs(g)
    {
      assert NodeInv(g, k, {}, a);
      assert Uses(g, Node(a), Node(d));
    }
  }
}
