/** Suspending and activating the devices of a dependency tree
    (dm_tree_suspend_children and dm_tree_activate_children). */
module DepTreeSuspend {
  import opened DepTree
  import Discovery = DepTreeDiscovery

  /** The tree as it stays during the operation: its links, the devices whose uuid has
      the wanted prefix, those the kernel has, and the activation priorities. The rank
      falls along every link, which is possible exactly if there is no cycle. */
  datatype Shape = Shape(links: Links, matching: set<Dev>, present: set<Dev>,
                         priority: map<Dev, nat>, ghost rank: map<Id, nat>)

  /** activation_priority; 0 unless it was set, and never above 2. */
  function Priority(t: Shape, c: Dev): nat {
    if c in t.priority then t.priority[c] else 0
  }

  ghost predicate Acyclic(t: Shape) {
    && WF(t.links)
    && t.rank.Keys == t.links.uses.Keys
    && (forall a, b :: Uses(t.links, a, b) && b != Root ==> t.rank[b] < t.rank[a])
    && (forall a :: a in t.rank ==> t.rank[a] <= t.rank[Root])
    && (forall d :: Node(d) in t.links.uses ==> RootRule(t.links.usedBy[Node(d)]) && RootRule(t.links.uses[Node(d)]))
    && (forall d :: d in t.matching ==> Node(d) in t.links.uses)
    && (forall d :: d in t.priority ==> t.priority[d] < 3)
  }

  ghost predicate Child(t: Shape, n: Id, c: Dev) {
    Uses(t.links, n, Node(c))
  }

  // ---- suspending ----

  /** _children_suspended, looking at the parents: the device hangs from the root, or
      all its parents that match are suspended. */
  ghost predicate Ready(t: Shape, s: set<Dev>, c: Dev) {
    Child(t, Root, c) || forall p :: Child(t, Node(p), c) && p in t.matching ==> p in s
  }

  /** No child of the node waits for anything. */
  ghost predicate ClosedAt(t: Shape, s: set<Dev>, n: Id) {
    forall c :: Child(t, n, c) && c in t.matching && c in t.present && Ready(t, s, c) ==> c in s
  }

  lemma StaysClosed(t: Shape, s: set<Dev>, s': set<Dev>, n: Id)
    requires s <= s' && ClosedAt(t, s, n) && forall x :: x in s' && x !in s ==> ClosedAt(t, s', Node(x))
    ensures ClosedAt(t, s', n)
  {
    forall c | Child(t, n, c) && c in t.matching && c in t.present && Ready(t, s', c)
      ensures c in s'
    {
      if !Ready(t, s, c) {
        var p :| Child(t, Node(p), c) && p in t.matching && p !in s;
        assert ClosedAt(t, s', Node(p));
      }
    }
  }

  /** A child that is ready but not suspended has a parent suspended since s0. */
  ghost predicate Covered(t: Shape, s0: set<Dev>, s: set<Dev>, c: Dev) {
    c in t.matching && c in t.present && Ready(t, s, c) && c !in s ==>
      exists p :: Child(t, Node(p), c) && p in s && p !in s0
  }

  lemma StaysCovered(t: Shape, s0: set<Dev>, s: set<Dev>, s': set<Dev>, c: Dev)
    requires s0 <= s <= s' && Covered(t, s0, s, c)
    ensures Covered(t, s0, s', c)
  {
    if c in t.matching && c in t.present && Ready(t, s', c) && c !in s' {
      if Ready(t, s, c) {
        var p :| Child(t, Node(p), c) && p in s && p !in s0;
        assert p in s';
      } else {
        var p :| Child(t, Node(p), c) && p in t.matching && p !in s;
        assert p in s' && p !in s0;
      }
    }
  }

  lemma CoveredClosed(t: Shape, s0: set<Dev>, s: set<Dev>, n: Id)
    requires forall c :: Child(t, n, c) ==> Covered(t, s0, s, c)
    requires forall x :: x in s && x !in s0 ==> ClosedAt(t, s, Node(x))
    ensures ClosedAt(t, s, n)
  {
  }

  /** A device the operation can see: it hangs from the root or from a matching one. */
  ghost predicate Visible(t: Shape, c: Dev) {
    Child(t, Root, c) || exists p :: Child(t, Node(p), c) && p in t.matching
  }

  /** The order in which devices were suspended: each one once, seen by the operation,
      and after all its matching parents. */
  ghost predicate Ordered(t: Shape, trace: seq<Dev>) {
    && NoDup(trace)
    && (forall c :: c in trace ==> c in t.matching && c in t.present && Visible(t, c))
    && forall i, p :: 0 <= i < |trace| && Child(t, Node(p), trace[i]) && p in t.matching ==> p in trace[..i]
  }

  ghost function Elements(trace: seq<Dev>): set<Dev> {
    set x | x in trace
  }

  lemma OrderedSnoc(t: Shape, trace: seq<Dev>, c: Dev)
    requires Acyclic(t) && Ordered(t, trace) && c !in Elements(trace)
    requires c in t.matching && c in t.present && Visible(t, c) && Ready(t, Elements(trace), c)
    ensures c !in trace && Ordered(t, trace + [c])
    ensures Elements(trace + [c]) == Elements(trace) + {c}
  {
    var all := trace + [c];
    forall i, p | 0 <= i < |all| && Child(t, Node(p), all[i]) && p in t.matching
      ensures p in all[..i]
    {
      if i < |trace| {
        assert all[..i] == trace[..i];
      } else {
        assert all[..i] == trace;
        OnlyRootParent(t, p, c);
      }
    }
  }

  /** A device that hangs from the root has no other parent. */
  lemma OnlyRootParent(t: Shape, p: Dev, c: Dev)
    requires Acyclic(t) && Child(t, Node(p), c)
    ensures !Child(t, Root, c)
  {
    assert UsedBy(t.links, Node(c), Node(p));
    assert Uses(t.links, Root, Node(c)) <==> UsedBy(t.links, Node(c), Root);
    assert RootRule(t.links.usedBy[Node(c)]);
  }

  /** The exact outcome of suspending: a device is suspended iff it matches, exists, can
      be seen, and all its matching parents are suspended. */
  ghost predicate Settled(t: Shape, s: set<Dev>) {
    forall c :: c in s <==>
      && c in t.matching && c in t.present && Visible(t, c)
      && forall p :: Child(t, Node(p), c) && p in t.matching ==> p in s
  }

  lemma ClosedIsSettled(t: Shape, trace: seq<Dev>)
    requires Acyclic(t) && Ordered(t, trace)
    requires ClosedAt(t, Elements(trace), Root) && forall x :: x in trace ==> ClosedAt(t, Elements(trace), Node(x))
    ensures Settled(t, Elements(trace))
  {
    var s := Elements(trace);
    forall c | c in s
      ensures c in t.matching && c in t.present && Visible(t, c)
      ensures forall p :: Child(t, Node(p), c) && p in t.matching ==> p in s
    {
      var i :| 0 <= i < |trace| && trace[i] == c;
    }
    hide Elements;
    forall c | c in t.matching && c in t.present && Visible(t, c)
               && forall p :: Child(t, Node(p), c) && p in t.matching ==> p in s
      ensures c in s
    {
      if !Child(t, Root, c) {
        var p :| Child(t, Node(p), c) && p in t.matching;
        assert ClosedAt(t, s, Node(p));
      }
    }
  }

  /** With every device matching and present, none is missed, however deep its parents
      sit. */
  lemma {:induction false} EveryDevice(t: Shape, s: set<Dev>, c: Dev)
    requires Acyclic(t) && Settled(t, s) && Node(c) in t.links.uses
    requires forall d :: Node(d) in t.links.uses ==> d in t.matching && d in t.present
    ensures c in s
    decreases t.rank[Root] - t.rank[Node(c)]
  {
    forall p | Child(t, Node(p), c)
      ensures p in s
    {
      EveryDevice(t, s, p);
    }
    SomeParent(t, c);
  }

  lemma SomeParent(t: Shape, c: Dev)
    requires Acyclic(t) && Node(c) in t.links.uses
    ensures Child(t, Root, c) || exists p :: Child(t, Node(p), c)
  {
    var l := t.links.usedBy[Node(c)];
    assert RootRule(l);
    if Root in l {
      assert UsedBy(t.links, Node(c), Root);
    } else {
      var x :| x in l && x != Root;
      assert UsedBy(t.links, Node(c), x);
      assert Uses(t.links, x, Node(c));
      assert Child(t, Node(x.dev), c);
    }
  }

  // ---- activating ----

  /** The order in which devices were resumed: each one once, and after everything it
      uses that matches and was to be resumed. */
  ghost predicate ResumeOrder(t: Shape, was: set<Dev>, resumed: seq<Dev>) {
    && NoDup(resumed)
    && (forall c :: c in resumed ==> c in t.matching && c in was)
    && forall i, d :: 0 <= i < |resumed| && Child(t, Node(resumed[i]), d) && d in t.matching && d in was ==>
         d in resumed[..i]
  }

  lemma ResumeSnoc(t: Shape, was: set<Dev>, resumed: seq<Dev>, c: Dev)
    requires ResumeOrder(t, was, resumed) && c in was && c !in Elements(resumed) && c in t.matching
    requires forall d :: Child(t, Node(c), d) && d in t.matching ==> d !in was - Elements(resumed)
    ensures ResumeOrder(t, was, resumed + [c])
    ensures Elements(resumed + [c]) == Elements(resumed) + {c}
  {
    var all := resumed + [c];
    forall i, d | 0 <= i < |all| && Child(t, Node(all[i]), d) && d in t.matching && d in was
      ensures d in all[..i]
    {
      if i < |resumed| {
        assert all[..i] == resumed[..i];
      } else {
        assert all[..i] == resumed;
      }
    }
  }

  lemma StillPending(was: set<Dev>, done: set<Dev>, s: set<Dev>, i: set<Dev>, c: Dev)
    requires s + i == was - done
    ensures (s - {c}) + (i - {c}) == was - (done + {c})
    ensures (s - {c}) + (i - {c}) <= s + i
    ensures |s - {c}| == if c in s then |s| - 1 else |s|
  {
    assert forall x :: x in s || x in i <==> x in s + i;
    if c in s {
      assert s == (s - {c}) + {c};
    } else {
      assert s - {c} == s;
    }
  }

  /** The state between two resumes. */
  ghost predicate InOrder(t: Shape, suspended: set<Dev>, kernel: set<Dev>, inactive: set<Dev>,
                          was: set<Dev>, resumed: seq<Dev>, counter: nat, base: nat) {
    && suspended == kernel
    && suspended + inactive == was - Elements(resumed)
    && ResumeOrder(t, was, resumed)
    && counter == base + |kernel|
  }

  lemma ResumedInOrder(t: Shape, s: set<Dev>, k: set<Dev>, i: set<Dev>,
                       was: set<Dev>, resumed: seq<Dev>, counter: nat, base: nat, c: Dev)
    requires InOrder(t, s, k, i, was, resumed, counter, base)
    requires c in t.matching && (c in s || c in i)
    requires forall d :: Child(t, Node(c), d) && d in t.matching ==> d !in s + i
    ensures c in s ==> counter > 0
    ensures InOrder(t, s - {c}, k - {c}, i - {c}, was, resumed + [c], if c in s then counter - 1 else counter, base)
    ensures (s - {c}) + (i - {c}) <= s + i
  {
    hide ResumeOrder, Elements;
    assert c in s + i;
    ResumeSnoc(t, was, resumed, c);
    StillPending(was, Elements(resumed), s, i, c);
  }

  /** Going down from a node through matching devices. */
  ghost predicate Descends(t: Shape, n: Id, p: seq<Dev>)
    decreases |p|
  {
    p == [] || (Child(t, n, p[0]) && p[0] in t.matching && Descends(t, Node(p[0]), p[1..]))
  }

  ghost predicate Below(t: Shape, n: Id, d: Dev) {
    exists p :: p != [] && Descends(t, n, p) && p[|p| - 1] == d
  }

  /** Whatever lies below a node is a matching child of it or lies below one. */
  lemma BelowStep(t: Shape, n: Id)
    ensures forall d :: Below(t, n, d) ==>
              exists c :: Child(t, n, c) && c in t.matching && (d == c || Below(t, Node(c), d))
  {
    forall d | Below(t, n, d)
      ensures exists c :: Child(t, n, c) && c in t.matching && (d == c || Below(t, Node(c), d))
    {
      var p :| p != [] && Descends(t, n, p) && p[|p| - 1] == d;
      if |p| > 1 {
        var q := p[1..];
        assert Descends(t, Node(p[0]), q) && q[|q| - 1] == d;
      }
    }
  }

  lemma BelowChildren(t: Shape)
    ensures forall n, d :: Child(t, n, d) && d in t.matching ==> Below(t, n, d)
  {
    forall n, d | Child(t, n, d) && d in t.matching
      ensures Below(t, n, d)
    {
      var p := [d];
      assert p[1..] == [] && Descends(t, Node(d), []);
      assert Descends(t, n, p) && p[|p| - 1] == d;
    }
  }

  lemma BelowChild(t: Shape, n: Id, c: Dev)
    requires Child(t, n, c) && c in t.matching
    ensures forall d :: Below(t, Node(c), d) ==> Below(t, n, d)
  {
    forall d | Below(t, Node(c), d)
      ensures Below(t, n, d)
    {
      var p :| p != [] && Descends(t, Node(c), p) && p[|p| - 1] == d;
      var q := [c] + p;
      assert q[1..] == p && q[|q| - 1] == d;
    }
  }

  lemma NothingBelow(t: Shape, c: Dev)
    requires Acyclic(t) && Node(c) in t.links.uses && NumChildren(t.links, Node(c), false) == 0
    ensures forall d :: !Below(t, Node(c), d)
  {
    assert RootRule(t.links.uses[Node(c)]);
    assert forall d :: !Child(t, Node(c), d);
    BelowStep(t, Node(c));
  }

  // ---- the order of priorities ----

  /** The devices of a list that match, are pending and have the given priority. */
  ghost function LevelOf(t: Shape, list: seq<Id>, pending: set<Dev>, priority: nat): seq<Dev> {
    if list == [] then []
    else
      var n := |list| - 1;
      LevelOf(t, list[..n], pending, priority) +
      if list[n].Node? && list[n].dev in t.matching && list[n].dev in pending && Priority(t, list[n].dev) == priority
      then [list[n].dev] else []
  }

  /** One priority after the other, from 0 on. */
  ghost function Levels(t: Shape, list: seq<Id>, pending: set<Dev>, k: nat): seq<Dev> {
    if k == 0 then [] else Levels(t, list, pending, k - 1) + LevelOf(t, list, pending, k - 1)
  }

  lemma {:induction false} LevelHas(t: Shape, list: seq<Id>, pending: set<Dev>, priority: nat)
    ensures forall c :: c in LevelOf(t, list, pending, priority) <==>
              Node(c) in list && c in t.matching && c in pending && Priority(t, c) == priority
  {
    hide Priority;
    if list != [] {
      LevelHas(t, list[..|list| - 1], pending, priority);
    }
  }

  lemma {:induction false} LevelsHave(t: Shape, list: seq<Id>, pending: set<Dev>, k: nat)
    ensures forall c :: c in Levels(t, list, pending, k) <==>
              Node(c) in list && c in t.matching && c in pending && Priority(t, c) < k
  {
    hide LevelOf, Priority;
    if k > 0 {
      LevelsHave(t, list, pending, k - 1);
      LevelHas(t, list, pending, k - 1);
    }
  }

  lemma {:induction false} SameLevel(t: Shape, list: seq<Id>, a: set<Dev>, b: set<Dev>, priority: nat)
    requires forall c :: Priority(t, c) == priority ==> (c in a <==> c in b)
    ensures LevelOf(t, list, a, priority) == LevelOf(t, list, b, priority)
  {
    if list != [] {
      SameLevel(t, list[..|list| - 1], a, b, priority);
    }
  }

  lemma ListOf(t: Shape, n: Id)
    requires Acyclic(t) && n in t.links.uses
    ensures NoDup(t.links.uses[n])
  {
  }

  /** Nothing below the children of n is pending. */
  ghost predicate ChildrenFree(t: Shape, n: Id, pending: set<Dev>) {
    forall c, d :: Child(t, n, c) && c in t.matching && Child(t, Node(c), d) && d in t.matching ==> d !in pending
  }

  lemma StillFree(t: Shape, n: Id, pending: set<Dev>, left: set<Dev>)
    requires ChildrenFree(t, n, pending) && left <= pending
    ensures ChildrenFree(t, n, left)
  {
  }

  lemma ChildFree(t: Shape, n: Id, pending: set<Dev>, c: Dev)
    requires ChildrenFree(t, n, pending) && Child(t, n, c) && c in t.matching
    ensures forall d :: Child(t, Node(c), d) && d in t.matching ==> d !in pending
  {
  }

  /** Behind before, exactly one level of the list has been resumed, and the devices in
      left are still pending. */
  ghost predicate OneLevel(t: Shape, list: seq<Id>, pending: set<Dev>, priority: nat,
                           before: seq<Dev>, resumed: seq<Dev>, left: set<Dev>) {
    var level := LevelOf(t, list, pending, priority);
    resumed == before + level && left == pending - Elements(level)
  }

  /** Behind before, the levels below k have been resumed. */
  ghost predicate LevelsBelow(t: Shape, list: seq<Id>, pending: set<Dev>, k: nat,
                              before: seq<Dev>, resumed: seq<Dev>, left: set<Dev>) {
    var levels := Levels(t, list, pending, k);
    resumed == before + levels && left == pending - Elements(levels)
  }

  lemma NoLevel(t: Shape, list: seq<Id>, pending: set<Dev>, priority: nat, before: seq<Dev>)
    ensures OneLevel(t, [], pending, priority, before, before, pending)
    ensures LevelsBelow(t, list, pending, 0, before, before, pending)
  {
    assert before + [] == before;
  }

  /** One more device of the list. */
  lemma LevelStep(t: Shape, list: seq<Id>, i: nat, pending: set<Dev>, priority: nat,
                  before: seq<Dev>, resumed: seq<Dev>, left: set<Dev>)
    requires NoDup(list) && i < |list| && list[i].Node?
    requires OneLevel(t, list[..i], pending, priority, before, resumed, left)
    ensures var c := list[i].dev;
            var mine := c in t.matching && Priority(t, c) == priority;
            OneLevel(t, list[..i + 1], pending, priority, before,
                     resumed + (if mine && c in left then [c] else []), left - (if mine then {c} else {}))
  {
    assert list[..i + 1][..i] == list[..i] && list[..i + 1][i] == list[i];
    LevelHas(t, list[..i], pending, priority);
    var c := list[i].dev;
    var level := LevelOf(t, list[..i], pending, priority);
    hide LevelOf, Priority;
    assert c in left <==> c in pending;
    CatDevs(before, level, if c in t.matching && Priority(t, c) == priority && c in left then [c] else []);
  }

  /** One more level. */
  lemma LevelsStep(t: Shape, list: seq<Id>, pending: set<Dev>, k: nat, before: seq<Dev>,
                   resumed: seq<Dev>, left: set<Dev>, resumed': seq<Dev>, left': set<Dev>)
    requires LevelsBelow(t, list, pending, k, before, resumed, left)
    requires OneLevel(t, list, left, k, resumed, resumed', left')
    ensures LevelsBelow(t, list, pending, k + 1, before, resumed', left')
  {
    LevelsHave(t, list, pending, k);
    SameLevel(t, list, left, pending, k);
    hide LevelOf, Priority;
    CatDevs(before, Levels(t, list, pending, k), LevelOf(t, list, pending, k));
  }

  lemma LevelsEnd(t: Shape, list: seq<Id>, pending: set<Dev>, k: nat, before: seq<Dev>,
                  resumed: seq<Dev>, left: set<Dev>)
    requires LevelsBelow(t, list, pending, k, before, resumed, left) && k <= 3
    requires forall c :: Node(c) in list ==> Priority(t, c) < k
    ensures LevelsBelow(t, list, pending, 3, before, resumed, left)
  {
    hide Priority;
    NoMoreLevels(t, list, pending, k, 3);
  }

  /** Behind the highest priority no level adds anything. */
  lemma {:induction false} NoMoreLevels(t: Shape, list: seq<Id>, pending: set<Dev>, k: nat, m: nat)
    requires k <= m && forall c :: Node(c) in list ==> Priority(t, c) < k
    ensures Levels(t, list, pending, m) == Levels(t, list, pending, k)
    decreases m
  {
    hide LevelOf, Priority;
    if k < m {
      NoMoreLevels(t, list, pending, k, m - 1);
      EmptyLevel(t, list, pending, m - 1);
    }
  }

  lemma {:induction false} EmptyLevel(t: Shape, list: seq<Id>, pending: set<Dev>, k: nat)
    requires forall c :: Node(c) in list ==> Priority(t, c) != k
    ensures LevelOf(t, list, pending, k) == []
  {
    if list != [] {
      assert list[|list| - 1].Node? ==> list[|list| - 1] == Node(list[|list| - 1].dev);
      EmptyLevel(t, list[..|list| - 1], pending, k);
    }
  }

  ghost predicate Rising(t: Shape, s: seq<Dev>) {
    forall i, j :: 0 <= i < j < |s| ==> Priority(t, s[i]) <= Priority(t, s[j])
  }

  lemma {:induction false} LevelsRise(t: Shape, list: seq<Id>, pending: set<Dev>, k: nat)
    ensures Rising(t, Levels(t, list, pending, k))
  {
    hide LevelOf, Priority;
    if k > 0 {
      LevelsRise(t, list, pending, k - 1);
      LevelsHave(t, list, pending, k - 1);
      LevelHas(t, list, pending, k - 1);
      var a, b := Levels(t, list, pending, k - 1), LevelOf(t, list, pending, k - 1);
      forall i, j | 0 <= i < j < |a + b| ensures Priority(t, (a + b)[i]) <= Priority(t, (a + b)[j]) {
        assert (a + b)[i] in if i < |a| then a else b;
        assert (a + b)[j] in if j < |a| then a else b;
      }
    }
  }

  lemma CatDevs(a: seq<Dev>, b: seq<Dev>, c: seq<Dev>)
    ensures a + b + c == a + (b + c)
  {
  }

  lemma PendingIs(t: Shape, suspended: set<Dev>, kernel: set<Dev>, inactive: set<Dev>,
                  was: set<Dev>, resumed: seq<Dev>, counter: nat, base: nat)
    requires InOrder(t, suspended, kernel, inactive, was, resumed, counter, base)
    ensures suspended + inactive == was - Elements(resumed)
  {
  }

  /** The only parent of c is n. */
  ghost predicate OnlyParent(t: Shape, n: Id, c: Dev) {
    Child(t, n, c) && forall m :: Child(t, m, c) ==> m == n
  }

  /** Of two devices with the same only parent, the one with the lower priority was
      resumed first. */
  ghost predicate Ranked(t: Shape, resumed: seq<Dev>) {
    forall n, i, j :: 0 <= i < j < |resumed| && OnlyParent(t, n, resumed[i]) && OnlyParent(t, n, resumed[j]) ==>
      Priority(t, resumed[i]) <= Priority(t, resumed[j])
  }

  /** The devices at the top of the tree are resumed by rising priority. */
  lemma TopIsRanked(t: Shape, resumed: seq<Dev>, i: nat, j: nat)
    requires Acyclic(t) && Ranked(t, resumed) && i < j < |resumed|
    requires Child(t, Root, resumed[i]) && Child(t, Root, resumed[j])
    ensures Priority(t, resumed[i]) <= Priority(t, resumed[j])
  {
    hide Priority;
    forall c, m | Child(t, Root, c) && Child(t, m, c) ensures m == Root {
      if m != Root {
        OnlyRootParent(t, m.dev, c);
      }
    }
    assert OnlyParent(t, Root, resumed[i]) && OnlyParent(t, Root, resumed[j]);
  }

  /** A node with such a child among the resumed devices has no child left to resume. */
  ghost predicate Through(t: Shape, resumed: seq<Dev>, pending: set<Dev>) {
    forall n, d, c :: d in resumed && OnlyParent(t, n, d) && Child(t, n, c) && c in t.matching ==> c !in pending
  }

  /** The children of n have been resumed in one go. */
  lemma RankedOn(t: Shape, n: Id, before: seq<Dev>, level: seq<Dev>, pending: set<Dev>, left: set<Dev>)
    requires Ranked(t, before) && Through(t, before, pending) && left <= pending && Rising(t, level)
    requires forall c :: c in level ==> Child(t, n, c) && c in t.matching && c in pending
    requires forall c :: Child(t, n, c) && c in t.matching ==> c !in left
    ensures Ranked(t, before + level) && Through(t, before + level, left)
  {
    hide Child, Priority;
    var all := before + level;
    assert forall i :: 0 <= i < |before| ==> all[i] in before;
    forall m, i, j | 0 <= i < j < |all| && OnlyParent(t, m, all[i]) && OnlyParent(t, m, all[j])
      ensures Priority(t, all[i]) <= Priority(t, all[j])
    {
      if j >= |before| {
        assert all[j] == level[j - |before|] && all[j] in level;
        assert m == n;
      }
    }
    forall m, d, c | d in all && OnlyParent(t, m, d) && Child(t, m, c) && c in t.matching
      ensures c !in left
    {
      assert d in level ==> m == n;
    }
  }

  /** When all levels are through, exactly the matching children are not pending. */
  lemma AfterLevels(t: Shape, n: Id, before: seq<Dev>, resumed: seq<Dev>, pending: set<Dev>, left: set<Dev>)
    requires Acyclic(t) && n in t.links.uses && Ranked(t, before) && Through(t, before, pending)
    requires LevelsBelow(t, t.links.uses[n], pending, 3, before, resumed, left)
    ensures before <= resumed && resumed[|before|..] == Levels(t, t.links.uses[n], pending, 3)
    ensures Rising(t, resumed[|before|..])
    ensures Ranked(t, resumed) && Through(t, resumed, left)
    ensures forall c :: Child(t, n, c) && c in t.matching ==> c !in left
    ensures forall d :: d in pending && d !in left ==> Child(t, n, d) && d in t.matching
  {
    PrioritiesOf(t);
    LevelsHave(t, t.links.uses[n], pending, 3);
    LevelsRise(t, t.links.uses[n], pending, 3);
    var level := Levels(t, t.links.uses[n], pending, 3);
    hide Levels, Acyclic, Priority, Ranked, Through, Rising;
    RankedOn(t, n, before, level, pending, left);
  }

  lemma PrioritiesOf(t: Shape)
    requires Acyclic(t)
    ensures forall c :: Priority(t, c) < 3
  {
  }

  // ---- the code ----

  class LiveTree {
    const t: Shape
    var suspended: set<Dev>    // cached info.suspended of the nodes
    var kernel: set<Dev>       // what the kernel has suspended
    var local: set<Dev>        // suspended_locally
    var counter: nat           // the global counter of suspended devices
    var inactive: set<Dev>     // cached info.inactive_table of the nodes
    ghost var trace: seq<Dev>  // the suspend ioctls so far
    ghost var was: set<Dev>    // what there was to resume when activation began
    ghost var resumed: seq<Dev> // the resume ioctls since
    ghost const base: nat

    ghost predicate Valid()
      reads this
    {
      && Acyclic(t)
      && suspended == kernel == local == Elements(trace)
      && Ordered(t, trace)
      && counter == base + |kernel|
    }

    constructor (t: Shape, inactive: set<Dev>, counter: nat)
      requires Acyclic(t)
      ensures this.t == t && Valid() && trace == [] && base == counter == this.counter
      ensures this.inactive == inactive
    {
      this.t, this.inactive := t, inactive;
      suspended, kernel, local := {}, {}, {};
      this.counter, trace, base := counter, [], counter;
      was, resumed := {}, [];
    }

    /** _children_suspended with inverted set: the loop over the parents. */
    method ParentsSuspended(c: Dev) returns (ready: bool)
      requires Valid() && Node(c) in t.links.uses
      ensures ready <==> Ready(t, suspended, c)
    {
      hide Elements, Ordered, Acyclic, WF;
      RanksOf(t);
      ParentsListed(t, c);
      if Node(c) in t.links.uses[Root] {
        return true;
      }
      var list := t.links.usedBy[Node(c)];
      for i := 0 to |list|
        invariant forall p :: Node(p) in list[..i] && p in t.matching ==> p in suspended
      {
        if list[i].Node? && list[i].dev in t.matching && list[i].dev !in suspended {
          assert Child(t, Node(list[i].dev), c);
          return false;
        }
      }
      assert list[..|list|] == list;
      return true;
    }

    /** One child in the first loop of dm_tree_suspend_children. */
    method SuspendChild(n: Id, c: Dev) returns (ok: bool)
      requires Valid() && Child(t, n, c) && (n == Root || n.dev in t.matching)
      modifies this`suspended, this`kernel, this`local, this`counter, this`trace
      ensures Valid() && ok
      ensures trace == old(trace) ||
              (trace == old(trace) + [c] && c !in old(trace) && c in t.matching)
      ensures Covered(t, Elements(trace), Elements(trace), c)
    {
      hide Acyclic, Ordered, Elements, Ready;
      InTree(t, n, c);
      if c !in t.matching {
        return true;
      }
      var ready := ParentsSuspended(c);
      if !ready {
        return true;
      }
      if c !in t.present || c in kernel {
        return true;
      }
      if c in local {
        return false;  // resumed by someone else meanwhile
      }
      SeenFrom(t, n, c);
      OrderedSnoc(t, trace, c);
      kernel := kernel + {c};
      counter := counter + 1;
      suspended := suspended + {c};
      local := local + {c};
      trace := trace + [c];
      return true;
    }

    /** The first loop of dm_tree_suspend_children: the nodes at this level. */
    method SuspendLevel(n: Id) returns (ok: bool)
      requires Valid() && n in t.links.uses && (n == Root || n.dev in t.matching)
      requires Root !in t.links.uses[n]
      modifies this`suspended, this`kernel, this`local, this`counter, this`trace
      ensures Valid() && ok && old(trace) <= trace
      ensures forall x :: x in trace && x !in old(trace) ==> Child(t, n, x) && x in t.matching
      ensures forall c :: Child(t, n, c) ==> Covered(t, Elements(old(trace)), Elements(trace), c)
    {
      hide Covered, Acyclic, Ordered, Elements;
      var list := t.links.uses[n];
      for i := 0 to |list|
        invariant Valid() && old(trace) <= trace
        invariant forall x :: x in trace && x !in old(trace) ==> Child(t, n, x) && x in t.matching
        invariant forall c :: Node(c) in list[..i] ==> Covered(t, Elements(old(trace)), Elements(trace), c)
      {
        assert list[i] in list;
        var c := list[i].dev;
        ghost var before := trace;
        assert Child(t, n, c);
        ok := SuspendChild(n, c);
        CoveredFrom(t, old(trace), trace, c);
        forall d | Node(d) in list[..i]
          ensures Covered(t, Elements(old(trace)), Elements(trace), d)
        {
          StaysCoveredBy(t, old(trace), before, trace, d);
        }
        assert list[..i + 1] == list[..i] + [list[i]];
      }
      assert list[..|list|] == list;
      return true;
    }

    /** dm_tree_suspend_children. Afterwards no child of the node waits, nor any child of
        a device suspended on the way. */
    method SuspendChildren(n: Id) returns (ok: bool)
      requires Valid() && n in t.links.uses && (n == Root || n.dev in t.matching)
      requires Root !in t.links.uses[n]
      modifies this`suspended, this`kernel, this`local, this`counter, this`trace
      ensures Valid() && ok && old(trace) <= trace
      ensures ClosedAt(t, Elements(trace), n)
      ensures forall x :: x in trace && x !in old(trace) ==> ClosedAt(t, Elements(trace), Node(x))
      decreases if n in t.rank then t.rank[n] else 0
    {
      hide Covered, Acyclic, Ordered, ClosedAt, Elements;
      RanksOf(t);
      ok := SuspendLevel(n);
      var list := t.links.uses[n];
      assert list[0..] == list;
      var i := 0;
      while i < |list|
        invariant i <= |list|
        invariant Valid() && old(trace) <= trace
        invariant forall c :: Child(t, n, c) ==> Covered(t, Elements(old(trace)), Elements(trace), c)
        invariant forall x :: x in trace && x !in old(trace) ==>
                    ClosedAt(t, Elements(trace), Node(x)) || Node(x) in list[i..]
      {
        assert list[i] in list;
        var c := list[i].dev;
        assert Child(t, n, c);
        ghost var before := trace;
        InTree(t, n, c);
        if c in t.matching {
          if NumChildren(t.links, Node(c), false) != 0 {
            ok := SuspendChildren(Node(c));
          } else {
            NoChildren(t, Elements(trace), c);
          }
        }
        TraceMatches(t, trace);
        StepOver(t, old(trace), before, trace, n, list, i);
        i := i + 1;
      }
      AllClosed(t, old(trace), trace, n);
      return true;
    }

    /** Devices that are suspended or have a table to switch to. */
    ghost function Pending(): set<Dev>
      reads this
    {
      suspended + inactive
    }

    ghost predicate Activating()
      reads this
    {
      Acyclic(t) && InOrder(t, suspended, kernel, inactive, was, resumed, counter, base)
    }

    /** Between two nodes the priorities have been kept. */
    ghost predicate Staged()
      reads this
    {
      Ranked(t, resumed) && Through(t, resumed, Pending())
    }

    /** Nothing is resumed yet. */
    ghost method BeginActivation()
      requires Valid()
      modifies this`was, this`resumed
      ensures Activating() && Staged() && was == Pending() && resumed == []
    {
      was, resumed := Pending(), [];
      NothingDone();
    }

    /** One child in the loop of dm_tree_activate_children over a priority. */
    method ResumeChild(c: Dev)
      requires Activating() && Node(c) in t.links.uses
      requires forall d :: Child(t, Node(c), d) && d in t.matching ==> d !in Pending()
      modifies this`suspended, this`kernel, this`local, this`counter, this`inactive, this`resumed
      ensures Activating() && Pending() <= old(Pending()) && kernel <= old(kernel)
      ensures c in t.matching ==> c !in Pending()
      ensures Pending() == old(Pending()) - (if c in t.matching then {c} else {})
      ensures resumed == old(resumed) + if c in t.matching && c in old(Pending()) then [c] else []
    {
      hide Acyclic, InOrder;
      if c !in t.matching {
        return;
      }
      if c !in inactive && c !in suspended {
        return;
      }
      ResumedInOrder(t, suspended, kernel, inactive, was, resumed, counter, base, c);
      if c in suspended {
        DecSuspended();
      }
      kernel, suspended := kernel - {c}, suspended - {c};
      inactive, local := inactive - {c}, local - {c};
      resumed := resumed + [c];
    }

    /** dec_suspended */
    method DecSuspended()
      modifies this`counter
      ensures old(counter) > 0 ==> counter == old(counter) - 1
      ensures old(counter) == 0 ==> counter == 0
    {
      if counter != 0 {
        counter := counter - 1;
      }
    }

    /** The child at index i of the list, if it is its turn. */
    method ResumeTurn(n: Id, i: nat, priority: nat, ghost pending: set<Dev>, ghost before: seq<Dev>)
      requires Activating() && n in t.links.uses && Root !in t.links.uses[n] && i < |t.links.uses[n]|
      requires ChildrenFree(t, n, Pending())
      requires OneLevel(t, t.links.uses[n][..i], pending, priority, before, resumed, Pending())
      modifies this`suspended, this`kernel, this`local, this`counter, this`inactive, this`resumed
      ensures Activating() && Pending() <= old(Pending()) && kernel <= old(kernel)
      ensures OneLevel(t, t.links.uses[n][..i + 1], pending, priority, before, resumed, Pending())
    {
      ListOf(t, n);
      hide Acyclic, InOrder, Priority, OneLevel, NoDup, ChildrenFree;
      var list := t.links.uses[n];
      assert list[i] in list;
      var c := list[i].dev;
      assert Child(t, n, c);
      InTree(t, n, c);
      LevelStep(t, list, i, pending, priority, before, resumed, Pending());
      assert resumed + [] == resumed && Pending() - {} == Pending();
      if Priority(t, c) == priority && c in t.matching {
        ChildFree(t, n, Pending(), c);
        ResumeChild(c);
      }
    }

    /** The children of one priority. The result is not 0 exactly if a child has a
        higher one. */
    method ActivateLevel(n: Id, priority: nat) returns (next: nat)
      requires Activating() && n in t.links.uses && Root !in t.links.uses[n]
      requires ChildrenFree(t, n, Pending())
      modifies this`suspended, this`kernel, this`local, this`counter, this`inactive, this`resumed
      ensures Activating() && Pending() <= old(Pending()) && kernel <= old(kernel)
      ensures OneLevel(t, t.links.uses[n], old(Pending()), priority, old(resumed), resumed, Pending())
      ensures next == 0 <==> forall c :: Child(t, n, c) ==> Priority(t, c) <= priority
    {
      hide Acyclic, InOrder, Priority, OneLevel, ChildrenFree;
      next := 0;
      var list := t.links.uses[n];
      NoLevel(t, list, Pending(), priority, resumed);
      for i := 0 to |list|
        invariant Activating() && Pending() <= old(Pending()) && kernel <= old(kernel)
        invariant OneLevel(t, list[..i], old(Pending()), priority, old(resumed), resumed, Pending())
        invariant next == 0 <==> forall c :: Node(c) in list[..i] ==> Priority(t, c) <= priority
      {
        assert list[i] in list;
        var c := list[i].dev;
        StillFree(t, n, old(Pending()), Pending());
        if priority != Priority(t, c) && next < Priority(t, c) && Priority(t, c) > priority {
          next := Priority(t, c);
        }
        ResumeTurn(n, i, priority, old(Pending()), old(resumed));
        assert list[..i + 1] == list[..i] + [list[i]];
      }
      assert list[..|list|] == list;
    }

    /** dm_tree_activate_children: everything below the node is resumed, each device
        after what it uses. */
    method ActivateChildren(n: Id) returns (ghost from: nat)
      requires Activating() && Staged() && n in t.links.uses && Root !in t.links.uses[n]
      modifies this`suspended, this`kernel, this`local, this`counter, this`inactive, this`resumed
      ensures Activating() && Staged() && Pending() <= old(Pending()) && kernel <= old(kernel)
      ensures forall d :: Below(t, n, d) ==> d !in Pending()
      ensures forall d :: d in old(Pending()) && d !in Pending() ==> Below(t, n, d)
      ensures |old(resumed)| <= from <= |resumed| && old(resumed) <= resumed
      ensures resumed[from..] == Levels(t, t.links.uses[n], was - Elements(resumed[..from]), 3)
      ensures Rising(t, resumed[from..])
      decreases if n in t.rank then t.rank[n] else 0
    {
      hide Acyclic, InOrder, Priority, Below, Levels, LevelsBelow, Elements, Ranked, Through, Rising;
      RanksOf(t);
      var list := t.links.uses[n];
      for i := 0 to |list|
        invariant Activating() && Staged() && Pending() <= old(Pending()) && kernel <= old(kernel)
        invariant old(resumed) <= resumed
        invariant forall c, d :: Node(c) in list[..i] && c in t.matching && Below(t, Node(c), d) ==> d !in Pending()
        invariant forall d :: d in old(Pending()) && d !in Pending() ==> Below(t, n, d)
      {
        assert list[i] in list;
        var c := list[i].dev;
        assert Child(t, n, c);
        if c in t.matching {
          if NumChildren(t.links, Node(c), false) != 0 {
            ghost var _ := ActivateChildren(Node(c));
            BelowChild(t, n, c);
          } else {
            NothingBelow(t, c);
          }
        }
        assert list[..i + 1] == list[..i] + [list[i]];
      }
      assert list[..|list|] == list;
      assert forall c :: Child(t, n, c) <==> Node(c) in list;
      BelowChildren(t);
      from := |resumed|;
      ghost var before, pending := resumed, Pending();
      PendingIs(t, suspended, kernel, inactive, was, resumed, counter, base);
      ActivateLevels(n);
      AfterLevels(t, n, before, resumed, pending, Pending());
      assert resumed[..from] == before;
      BelowStep(t, n);
    }

    /** The loop of dm_tree_activate_children over the priorities. */
    method ActivateLevels(n: Id)
      requires Activating() && n in t.links.uses && Root !in t.links.uses[n]
      requires ChildrenFree(t, n, Pending())
      modifies this`suspended, this`kernel, this`local, this`counter, this`inactive, this`resumed
      ensures Activating() && Pending() <= old(Pending()) && kernel <= old(kernel)
      ensures LevelsBelow(t, t.links.uses[n], old(Pending()), 3, old(resumed), resumed, Pending())
    {
      hide Acyclic, InOrder, Priority, OneLevel, LevelsBelow, ChildrenFree;
      var list := t.links.uses[n];
      assert forall c :: Child(t, n, c) <==> Node(c) in list;
      NoLevel(t, list, Pending(), 0, resumed);
      var priority := 0;
      while priority < 3
        invariant priority <= 3
        invariant Activating() && Pending() <= old(Pending()) && kernel <= old(kernel)
        invariant LevelsBelow(t, list, old(Pending()), priority, old(resumed), resumed, Pending())
      {
        ghost var before, left := resumed, Pending();
        StillFree(t, n, old(Pending()), left);
        var next := ActivateLevel(n, priority);
        LevelsStep(t, list, old(Pending()), priority, old(resumed), before, left, resumed, Pending());
        if next == 0 {
          LevelsEnd(t, list, old(Pending()), priority + 1, old(resumed), resumed, Pending());
          break;
        }
        priority := priority + 1;
      }
    }

    /** dm_tree_activate_children from the root, after suspending from the root. */
    method ActivateAll()
      requires Valid() && Settled(t, kernel)
      modifies this`suspended, this`kernel, this`local, this`counter, this`inactive, this`was, this`resumed
      ensures kernel == {} && suspended == {} && counter == base
      ensures was == Elements(trace) + old(inactive) && ResumeOrder(t, was, resumed)
      ensures forall c :: c in trace ==> c in resumed
      ensures forall c :: c in resumed <==> c in was && Below(t, Root, c)
      ensures Ranked(t, resumed)
    {
      hide Settled, Ordered, Below, Acyclic, ResumeOrder, Elements;
      BeginActivation();
      RootHasNoRoot(t);
      ghost var _ := ActivateChildren(Root);
      forall c | c in old(kernel)
        ensures c !in Pending()
      {
        SuspendedIsBelow(t, old(kernel), c);
      }
      NoneLeft(old(kernel), kernel, was, Pending(), trace, resumed);
      assert forall c :: c in resumed <==> c in was && c !in Pending() by { ResumedIs(t, was, resumed, Pending()); }
    }
  }

  lemma RanksOf(t: Shape)
    requires Acyclic(t)
    ensures t.rank.Keys == t.links.uses.Keys == t.links.usedBy.Keys && Root in t.rank
    ensures forall a :: a in t.rank ==> t.rank[a] <= t.rank[Root]
    ensures forall d :: d in t.matching ==> Node(d) in t.rank
    ensures forall n, c :: Child(t, n, c) ==> n in t.rank && Node(c) in t.rank && t.rank[Node(c)] < t.rank[n]
  {
  }

  lemma NoneLeft(s: set<Dev>, now: set<Dev>, was: set<Dev>, pending: set<Dev>, trace: seq<Dev>, resumed: seq<Dev>)
    requires s <= was && s == Elements(trace) && pending == was - Elements(resumed) && now <= pending && now <= s
    requires forall c :: c in s ==> c !in pending
    ensures now == {} && forall c :: c in trace ==> c in resumed
  {
    assert forall c :: c in trace ==> c in s;
  }

  lemma ResumedIs(t: Shape, was: set<Dev>, resumed: seq<Dev>, pending: set<Dev>)
    requires ResumeOrder(t, was, resumed) && pending == was - Elements(resumed)
    ensures forall c :: c in resumed <==> c in was && c !in pending
  {
  }

  lemma ParentsListed(t: Shape, c: Dev)
    requires Acyclic(t) && Node(c) in t.links.usedBy
    ensures forall p :: Child(t, Node(p), c) <==> Node(p) in t.links.usedBy[Node(c)]
  {
    forall p
      ensures Child(t, Node(p), c) <==> Node(p) in t.links.usedBy[Node(c)]
    {
      assert Uses(t.links, Node(p), Node(c)) <==> UsedBy(t.links, Node(c), Node(p));
    }
  }

  lemma TraceMatches(t: Shape, trace: seq<Dev>)
    requires Ordered(t, trace)
    ensures forall x :: x in trace ==> x in t.matching
  {
  }

  lemma CoveredFrom(t: Shape, s0: seq<Dev>, s: seq<Dev>, c: Dev)
    requires Covered(t, Elements(s), Elements(s), c)
    ensures Covered(t, Elements(s0), Elements(s), c)
  {
  }

  lemma ElementsGrow(a: seq<Dev>, b: seq<Dev>)
    requires a <= b
    ensures Elements(a) <= Elements(b)
  {
    assert forall x :: x in a ==> x in b;
  }

  lemma StaysCoveredBy(t: Shape, s0: seq<Dev>, s: seq<Dev>, s': seq<Dev>, c: Dev)
    requires s0 <= s <= s' && Covered(t, Elements(s0), Elements(s), c)
    ensures Covered(t, Elements(s0), Elements(s'), c)
  {
    ElementsGrow(s0, s);
    ElementsGrow(s, s');
    StaysCovered(t, Elements(s0), Elements(s), Elements(s'), c);
  }

  /** A node without children, or with only the root below it. */
  lemma NoChildren(t: Shape, s: set<Dev>, c: Dev)
    requires Acyclic(t) && Node(c) in t.links.uses && NumChildren(t.links, Node(c), false) == 0
    ensures ClosedAt(t, s, Node(c))
  {
    var list := t.links.uses[Node(c)];
    assert RootRule(list);
    assert forall d :: !Child(t, Node(c), d);
  }

  /** The second loop has dealt with the child at index i. */
  lemma StepOver(t: Shape, s0: seq<Dev>, s: seq<Dev>, s': seq<Dev>, n: Id, list: seq<Id>, i: nat)
    requires Acyclic(t) && s0 <= s <= s' && i < |list| && list[i].Node?
    requires forall x :: x in s' && x !in s0 ==> x in t.matching
    requires forall c :: Child(t, n, c) ==> Covered(t, Elements(s0), Elements(s), c)
    requires forall x :: x in s && x !in s0 ==> ClosedAt(t, Elements(s), Node(x)) || Node(x) in list[i..]
    requires forall x :: x in s' && x !in s ==> ClosedAt(t, Elements(s'), Node(x))
    requires list[i].dev in t.matching ==> ClosedAt(t, Elements(s'), list[i])
    ensures forall c :: Child(t, n, c) ==> Covered(t, Elements(s0), Elements(s'), c)
    ensures forall x :: x in s' && x !in s0 ==> ClosedAt(t, Elements(s'), Node(x)) || Node(x) in list[i + 1..]
  {
    hide Covered, Acyclic, ClosedAt;
    forall c | Child(t, n, c)
      ensures Covered(t, Elements(s0), Elements(s'), c)
    {
      StaysCoveredBy(t, s0, s, s', c);
    }
    ElementsGrow(s, s');
    assert list[i..] == [list[i]] + list[i + 1..];
    forall x | x in s' && x !in s0
      ensures ClosedAt(t, Elements(s'), Node(x)) || Node(x) in list[i + 1..]
    {
      if x in s && ClosedAt(t, Elements(s), Node(x)) {
        StaysClosed(t, Elements(s), Elements(s'), Node(x));
      }
    }
  }

  lemma AllClosed(t: Shape, s0: seq<Dev>, s: seq<Dev>, n: Id)
    requires forall c :: Child(t, n, c) ==> Covered(t, Elements(s0), Elements(s), c)
    requires forall x :: x in s && x !in s0 ==> ClosedAt(t, Elements(s), Node(x))
    ensures ClosedAt(t, Elements(s), n)
  {
    hide Covered, ClosedAt;
    CoveredClosed(t, Elements(s0), Elements(s), n);
  }

  lemma InTree(t: Shape, n: Id, c: Dev)
    requires Acyclic(t) && Child(t, n, c)
    ensures Node(c) in t.links.uses
  {
  }

  lemma SeenFrom(t: Shape, n: Id, c: Dev)
    requires Child(t, n, c) && (n == Root || n.dev in t.matching)
    ensures Visible(t, c)
  {
    assert n != Root ==> Child(t, Node(n.dev), c);
  }

  // ---- whole runs ----

  lemma NothingDone()
    ensures Elements([]) == {}
  {
  }

  /** Suspending from the root of a tree with nothing suspended. The devices suspended
      are exactly the solution of Settled; each was suspended once, after its matching
      parents, and the global counter has gone up by their number. */
  method SuspendAll(t: Shape, inactive: set<Dev>, counter: nat) returns (live: LiveTree)
    requires Acyclic(t)
    ensures fresh(live) && live.t == t && live.Valid() && live.inactive == inactive && live.base == counter
    ensures Settled(t, live.kernel)
    ensures (forall d :: Node(d) in t.links.uses ==> d in t.matching && d in t.present) ==>
              forall d :: Node(d) in t.links.uses ==> d in live.kernel
  {
    hide Settled, ClosedAt, Ordered;
    live := new LiveTree(t, inactive, counter);
    RootHasNoRoot(t);
    var ok := live.SuspendChildren(Root);
    ClosedIsSettled(t, live.trace);
    if forall d :: Node(d) in t.links.uses ==> d in t.matching && d in t.present {
      forall d | Node(d) in t.links.uses
        ensures d in live.kernel
      {
        EveryDevice(t, live.kernel, d);
      }
    }
  }

  lemma RootHasNoRoot(t: Shape)
    requires Acyclic(t)
    ensures Root in t.links.uses && Root !in t.links.uses[Root]
  {
    assert !Uses(t.links, Root, Root);
  }

  lemma {:induction false} DescendsOn(t: Shape, n: Id, p: seq<Dev>, c: Dev)
    requires Descends(t, n, p) && c in t.matching
    requires Child(t, if p == [] then n else Node(p[|p| - 1]), c)
    ensures Descends(t, n, p + [c])
    decreases |p|
  {
    var q := p + [c];
    if p == [] {
      assert q[1..] == [];
      assert Descends(t, Node(c), []);
    } else {
      assert q[1..] == p[1..] + [c];
      DescendsOn(t, Node(p[0]), p[1..], c);
    }
  }

  lemma BelowOn(t: Shape, n: Id, p: Dev, c: Dev)
    requires Below(t, n, p) && Child(t, Node(p), c) && c in t.matching
    ensures Below(t, n, c)
  {
    hide Descends;
    var path :| path != [] && Descends(t, n, path) && path[|path| - 1] == p;
    DescendsOn(t, n, path, c);
    var q := path + [c];
    assert q[|q| - 1] == c;
  }

  /** Whatever suspending reaches, activating reaches. */
  lemma {:induction false} SuspendedIsBelow(t: Shape, s: set<Dev>, c: Dev)
    requires Acyclic(t) && Settled(t, s) && c in s
    ensures Below(t, Root, c)
    decreases if Root in t.rank && Node(c) in t.rank then t.rank[Root] - t.rank[Node(c)] else 0
  {
    hide Acyclic, Below;
    RanksOf(t);
    assert c in t.matching && Visible(t, c);
    if Child(t, Root, c) {
      BelowChildren(t);
    } else {
      var p :| Child(t, Node(p), c) && p in t.matching;
      assert p in s;
      SuspendedIsBelow(t, s, p);
      BelowOn(t, Root, p, c);
    }
  }

  /** Suspending and then activating from the root leaves nothing suspended, resumes each
      device once and after everything it uses, and restores the counter. */
  method SuspendThenActivate(t: Shape, inactive: set<Dev>, counter: nat) returns (live: LiveTree)
    requires Acyclic(t)
    ensures live.kernel == {} && live.suspended == {} && live.counter == counter
    ensures live.was == Elements(live.trace) + inactive && ResumeOrder(t, live.was, live.resumed)
    ensures Settled(t, Elements(live.trace)) && Ordered(t, live.trace)
    ensures forall c :: c in live.trace ==> c in live.resumed
    ensures forall c :: c in live.resumed <==> c in live.was && Below(t, Root, c)
    ensures Ranked(t, live.resumed)
  {
    hide Settled, Ordered, Acyclic, ResumeOrder, Below, Elements, Ranked;
    live := SuspendAll(t, inactive, counter);
    live.ActivateAll();
  }

  /** A discovered tree qualifies whenever the kernel's dependency relation has no cycle,
      that is, if some height falls along it. */
  lemma DiscoveredTree(t: Shape, k: Discovery.Kernel, height: Dev -> nat)
    requires Discovery.TreeInv(t.links, k, {})
    requires forall a, d :: d in Discovery.Deps(k, a) ==> height(d) < height(a)
    requires t.rank.Keys == t.links.uses.Keys
    requires forall d :: Node(d) in t.rank ==> t.rank[Node(d)] == height(d) && height(d) < t.rank[Root]
    requires forall d :: d in t.matching ==> Node(d) in t.links.uses
    requires forall d :: d in t.priority ==> t.priority[d] < 3
    ensures Acyclic(t)
  {
    hide RootRule;
    forall a, b | Uses(t.links, a, b) && b != Root
      ensures t.rank[b] < t.rank[a]
    {
      assert b == Node(b.dev) && b in t.links.uses;
      if a != Root {
        assert a == Node(a.dev);
        assert Discovery.NodeInv(t.links, k, {}, a.dev);
        assert b.dev in Discovery.Deps(k, a.dev);
      }
    }
    forall d | Node(d) in t.links.uses
      ensures RootRule(t.links.usedBy[Node(d)]) && RootRule(t.links.uses[Node(d)])
    {
      assert Discovery.NodeInv(t.links, k, {}, d);
    }
    forall a | a in t.rank
      ensures t.rank[a] <= t.rank[Root]
    {
      assert a != Root ==> a == Node(a.dev);
    }
  }
}
