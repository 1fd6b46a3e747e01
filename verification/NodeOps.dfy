/** The queue of device-node operations in libdm-common.c: requests are stacked, cancel
    one another with the help of a counter for each type, and are carried out together
    by update_devs. */
module NodeOps {

  datatype Kind = Add | Del | Rename | ReadAhead

  function Index(k: Kind): (i: nat)
    ensures i < 4
  {
    match k case Add => 0 case Del => 1 case Rename => 2 case ReadAhead => 3
  }

  /** name is the node's name, the new one for a rename; rely says that udev is trusted
      to carry the operation out. */
  datatype Op = Op(kind: Kind, name: string, from: string, dev: nat, rely: bool)

  /** The block device nodes of the device directory. */
  type Nodes = map<string, nat>

  /** _do_node_op on the names: a rename unlinks its target first and ignores a missing
      source; read-ahead settings do not touch the directory. */
  function Do(fs: Nodes, op: Op): Nodes {
    match op.kind
    case Add => fs[op.name := op.dev]
    case Del => fs - {op.name}
    case Rename =>
      var fs := fs - {op.name};
      if op.from in fs then (fs - {op.from})[op.name := fs[op.from]] else fs
    case ReadAhead => fs
  }

  /** Carrying out operations one after another. */
  function Flush(fs: Nodes, ops: seq<Op>): Nodes
    decreases |ops|
  {
    if ops == [] then fs else Flush(if ops[0].rely then fs else Do(fs, ops[0]), ops[1..])
  }

  // ---- cancelling ----

  function Without(q: seq<Op>, i: nat): seq<Op>
    requires i < |q|
  {
    q[..i] + q[i + 1..]
  }

  predicate HasOther(q: seq<Op>, k: Kind) {
    exists i :: 0 <= i < |q| && q[i].kind != k
  }

  /** The loop for a delete request, from the i-th operation on. */
  function DropForDel(q: seq<Op>, i: nat, name: string): seq<Op>
    requires i <= |q|
    decreases |q| - i
  {
    if i == |q| then q
    else if q[i].name == name then
      if HasOther(Without(q, i), Del) then DropForDel(Without(q, i), i, name) else Without(q, i)
    else DropForDel(q, i + 1, name)
  }

  /** The loop for an add request: the first delete of the same name goes. */
  function DropFirstDel(q: seq<Op>, i: nat, name: string): seq<Op>
    requires i <= |q|
    decreases |q| - i
  {
    if i == |q| then q
    else if q[i].kind == Del && q[i].name == name then Without(q, i)
    else DropFirstDel(q, i + 1, name)
  }

  /** The loop for a rename request: everything on the old name goes. */
  function DropAll(q: seq<Op>, i: nat, name: string): seq<Op>
    requires i <= |q|
    decreases |q| - i
  {
    if i == |q| then q
    else if q[i].name == name then DropAll(Without(q, i), i, name)
    else DropAll(q, i + 1, name)
  }

  function Cancelled(q: seq<Op>, op: Op): seq<Op> {
    match op.kind
    case Add => DropFirstDel(q, 0, op.name)
    case Del => if HasOther(q, Del) then DropForDel(q, 0, op.name) else q
    case Rename => DropAll(q, 0, op.from)
    case ReadAhead => q
  }

  /** udev does not process read-ahead. */
  function Entry(op: Op): Op { if op.kind == ReadAhead then op.(rely := false) else op }

  /** _stack_node_op. */
  function Stacked(q: seq<Op>, op: Op): seq<Op> { Cancelled(q, op) + [Entry(op)] }

  /** The queue after a run of requests. */
  function Queue(rs: seq<Op>): seq<Op> {
    if rs == [] then [] else Stacked(Queue(rs[..|rs| - 1]), rs[|rs| - 1])
  }

  // ---- counting ----

  function CountOf(q: seq<Op>, k: Kind): nat {
    if q == [] then 0 else CountOf(q[..|q| - 1], k) + if q[|q| - 1].kind == k then 1 else 0
  }

  lemma {:induction false} CountAppend(a: seq<Op>, b: seq<Op>, k: Kind)
    ensures CountOf(a + b, k) == CountOf(a, k) + CountOf(b, k)
  {
    if b == [] {
      assert a + b == a;
    } else {
      assert (a + b)[..|a + b| - 1] == a + b[..|b| - 1];
      CountAppend(a, b[..|b| - 1], k);
    }
  }

  lemma CountWithout(q: seq<Op>, i: nat, k: Kind)
    requires i < |q|
    ensures CountOf(q, k) == CountOf(Without(q, i), k) + if q[i].kind == k then 1 else 0
  {
    CountAppend(q[..i], q[i + 1..], k);
    CountAppend(q[..i], [q[i]], k);
    CountAppend(q[..i] + [q[i]], q[i + 1..], k);
    assert q == q[..i] + [q[i]] + q[i + 1..];
    assert [q[i]][..0] == [];
  }

  lemma {:induction false} CountZero(q: seq<Op>, k: Kind)
    ensures CountOf(q, k) == 0 <==> forall i :: 0 <= i < |q| ==> q[i].kind != k
  {
    if q != [] {
      CountZero(q[..|q| - 1], k);
    }
  }

  lemma NoOther(q: seq<Op>, kind: Kind)
    requires forall k: Kind :: k != kind ==> CountOf(q, k) == 0
    ensures !HasOther(q, kind)
  {
    forall i | 0 <= i < |q| ensures q[i].kind == kind {
      CountZero(q, q[i].kind);
    }
  }

  // ---- the queue of a thread ----

  class NodeQueue {
    var ops: seq<Op>
    const count: array<int>

    constructor ()
      ensures Valid() && ops == [] && fresh(count)
    {
      ops := [];
      count := new int[4](_ => 0);
    }

    /** Every counter is the number of queued operations of its type. */
    ghost predicate Valid()
      reads this, count
    {
      count.Length == 4 && forall k: Kind :: count[Index(k)] == CountOf(ops, k)
    }

    /** _del_node_op. */
    method DelNodeOp(i: nat)
      requires Valid() && i < |ops|
      modifies this, count
      ensures Valid() && ops == Without(old(ops), i)
    {
      forall k: Kind ensures CountOf(ops, k) == CountOf(Without(ops, i), k) + if ops[i].kind == k then 1 else 0 {
        CountWithout(ops, i, k);
      }
      var t := Index(ops[i].kind);
      count[t] := count[t] - 1;
      ops := Without(ops, i);
    }

    /** _other_node_ops. */
    method OtherNodeOps(kind: Kind) returns (r: bool)
      requires Valid()
      ensures r == HasOther(ops, kind)
    {
      for i := 0 to 4
        invariant forall k: Kind :: Index(k) < i && k != kind ==> CountOf(ops, k) == 0
      {
        if Index(kind) != i && count[i] != 0 {
          ghost var k := if i == 0 then Add else if i == 1 then Del else if i == 2 then Rename else ReadAhead;
          CountZero(ops, k);
          return true;
        }
      }
      NoOther(ops, kind);
      return false;
    }

    /** Deleting a node drops what is queued on its name, while anything but deletes is left. */
    method UnstackForDel(name: string)
      requires Valid() && HasOther(ops, Del)
      modifies this, count
      ensures Valid() && ops == DropForDel(old(ops), 0, name)
    {
      var i := 0;
      while i < |ops|
        invariant Valid() && i <= |ops|
        invariant DropForDel(ops, i, name) == DropForDel(old(ops), 0, name)
        decreases |ops| - i
      {
        if ops[i].name == name {
          DelNodeOp(i);
          var more := OtherNodeOps(Del);
          if !more {
            return;
          }
        } else {
          i := i + 1;
        }
      }
    }

    /** Adding a node drops one queued delete of its name. */
    method UnstackForAdd(name: string)
      requires Valid()
      modifies this, count
      ensures Valid() && ops == DropFirstDel(old(ops), 0, name)
    {
      var i := 0;
      while i < |ops|
        invariant ops == old(ops) && Valid() && i <= |ops|
        invariant DropFirstDel(ops, i, name) == DropFirstDel(old(ops), 0, name)
      {
        if ops[i].kind == Del && ops[i].name == name {
          DelNodeOp(i);
          return;
        }
        i := i + 1;
      }
    }

    /** Renaming a node drops what is queued on its old name. */
    method UnstackForRename(name: string)
      requires Valid()
      modifies this, count
      ensures Valid() && ops == DropAll(old(ops), 0, name)
    {
      var i := 0;
      while i < |ops|
        invariant Valid() && i <= |ops|
        invariant DropAll(ops, i, name) == DropAll(old(ops), 0, name)
        decreases |ops| - i
      {
        if ops[i].name == name {
          DelNodeOp(i);
        } else {
          i := i + 1;
        }
      }
    }

    /** _stack_node_op. */
    method StackNodeOp(op: Op)
      requires Valid()
      modifies this, count
      ensures Valid() && ops == Stacked(old(ops), op)
      ensures ops != [] && ops[|ops| - 1] == op.(rely := op.rely && op.kind != ReadAhead)
    {
      var entry := op;
      if op.kind == Del {
        var others := OtherNodeOps(Del);
        if others {
          UnstackForDel(op.name);
        }
      } else if op.kind == Add {
        if count[Index(Del)] != 0 {
          UnstackForAdd(op.name);
        } else {
          CountZero(ops, Del);
          NoDelToDrop(ops, 0, op.name);
        }
      } else if op.kind == Rename {
        UnstackForRename(op.from);
      } else {
        entry := op.(rely := false);
      }
      Push(entry);
    }

    method Push(entry: Op)
      requires Valid()
      modifies this, count
      ensures Valid() && ops == old(ops) + [entry]
    {
      forall k: Kind ensures CountOf(ops + [entry], k) == CountOf(ops, k) + if entry.kind == k then 1 else 0 {
        assert (ops + [entry])[..|ops|] == ops;
      }
      var t := Index(entry.kind);
      count[t] := count[t] + 1;
      ops := ops + [entry];
    }

    /** _pop_node_ops. */
    method PopNodeOps(nodes: Nodes) returns (fs: Nodes)
      requires Valid()
      modifies this, count
      ensures Valid() && ops == []
      ensures fs == Flush(nodes, old(ops))
    {
      fs := nodes;
      while ops != []
        invariant Valid()
        invariant Flush(fs, ops) == Flush(nodes, old(ops))
        decreases |ops|
      {
        if !ops[0].rely {
          fs := Do(fs, ops[0]);
        }
        assert Without(ops, 0) == ops[1..];
        DelNodeOp(0);
      }
    }
  }

  lemma {:induction false} NoDelToDrop(q: seq<Op>, i: nat, name: string)
    requires i <= |q| && forall j :: 0 <= j < |q| ==> !(q[j].kind == Del && q[j].name == name)
    ensures DropFirstDel(q, i, name) == q
    decreases |q| - i
  {
    if i < |q| {
      NoDelToDrop(q, i + 1, name);
    }
  }

  // ---- what every reachable queue satisfies ----

  /** Nothing but deletes of the same name precedes a delete, and nothing on its old
      name precedes a rename. */
  ghost predicate Ordered(q: seq<Op>) {
    forall i, j :: 0 <= i < j < |q| ==>
      && (q[j].kind == Del && q[i].name == q[j].name ==> q[i].kind == Del)
      && (q[j].kind == Rename ==> q[i].name != q[j].from)
  }

  lemma WithoutOrdered(q: seq<Op>, i: nat)
    requires Ordered(q) && i < |q|
    ensures Ordered(Without(q, i))
  {
    var r := Without(q, i);
    assert forall k :: 0 <= k < |r| ==> r[k] == q[if k < i then k else k + 1];
  }

  lemma {:induction false} DropForDelOrdered(q: seq<Op>, i: nat, name: string)
    requires i <= |q| && Ordered(q) && HasOther(q, Del)
    requires forall k :: 0 <= k < i ==> q[k].name != name
    ensures var r := DropForDel(q, i, name);
            Ordered(r) && forall k :: 0 <= k < |r| && r[k].name == name ==> r[k].kind == Del
    decreases |q| - i
  {
    if i < |q| {
      if q[i].name == name {
        WithoutOrdered(q, i);
        hide Ordered;
        if HasOther(Without(q, i), Del) {
          DropForDelOrdered(Without(q, i), i, name);
        }
      } else {
        hide Ordered;
        DropForDelOrdered(q, i + 1, name);
      }
    }
  }

  lemma {:induction false} DropFirstDelOrdered(q: seq<Op>, i: nat, name: string)
    requires i <= |q| && Ordered(q)
    ensures Ordered(DropFirstDel(q, i, name))
    decreases |q| - i
  {
    hide Ordered;
    if i < |q| {
      if q[i].kind == Del && q[i].name == name {
        WithoutOrdered(q, i);
      } else {
        DropFirstDelOrdered(q, i + 1, name);
      }
    }
  }

  lemma {:induction false} DropAllOrdered(q: seq<Op>, i: nat, name: string)
    requires i <= |q| && Ordered(q)
    requires forall k :: 0 <= k < i ==> q[k].name != name
    ensures var r := DropAll(q, i, name); Ordered(r) && forall k :: 0 <= k < |r| ==> r[k].name != name
    decreases |q| - i
  {
    if i < |q| {
      if q[i].name == name {
        WithoutOrdered(q, i);
        hide Ordered;
        DropAllOrdered(Without(q, i), i, name);
      } else {
        hide Ordered;
        DropAllOrdered(q, i + 1, name);
      }
    }
  }

  /** Stacking any operation keeps the order. */
  lemma StackedOrdered(q: seq<Op>, op: Op)
    requires Ordered(q)
    ensures Ordered(Stacked(q, op))
  {
    var r := Cancelled(q, op);
    hide DropForDel, DropFirstDel, DropAll;
    match op.kind {
      case Add => DropFirstDelOrdered(q, 0, op.name);
      case Del => if HasOther(q, Del) { DropForDelOrdered(q, 0, op.name); }
      case Rename => DropAllOrdered(q, 0, op.from);
      case ReadAhead =>
    }
    assert forall k :: 0 <= k < |r| ==> Stacked(q, op)[k] == r[k];
  }

  /** The order holds of every queue that requests can build. */
  lemma {:induction false} QueueOrdered(rs: seq<Op>)
    ensures Ordered(Queue(rs))
  {
    if rs != [] {
      QueueOrdered(rs[..|rs| - 1]);
      StackedOrdered(Queue(rs[..|rs| - 1]), rs[|rs| - 1]);
    }
  }

  // ---- where the content of a node comes from ----

  /** What a node is after some operations, in terms of the directory before them: it is
      missing, was made, or is what was there under a name. */
  datatype Content = Missing | Made(dev: nat) | Was(name: string)

  /** Read backwards: each operation decides the nodes that it names. */
  function Origin(ops: seq<Op>, y: string): Content
    decreases |ops|
  {
    if ops == [] then Was(y)
    else
      var front, op := ops[..|ops| - 1], ops[|ops| - 1];
      match op.kind
      case Add => if y == op.name then Made(op.dev) else Origin(front, y)
      case Del => if y == op.name then Missing else Origin(front, y)
      case Rename =>
        if y == op.from then Missing
        else if y == op.name then Origin(front, op.from)
        else Origin(front, y)
      case ReadAhead => Origin(front, y)
  }

  /** The node under a name. */
  function At(fs: Nodes, y: string): Content { if y in fs then Made(fs[y]) else Missing }

  function Resolved(fs: Nodes, c: Content): Content { if c.Was? then At(fs, c.name) else c }

  predicate Direct(ops: seq<Op>) { forall i :: 0 <= i < |ops| ==> !ops[i].rely }

  lemma {:induction false} FlushAppend(fs: Nodes, a: seq<Op>, b: seq<Op>)
    ensures Flush(fs, a + b) == Flush(Flush(fs, a), b)
    decreases |a|
  {
    if a == [] {
      assert a + b == b;
    } else {
      assert (a + b)[1..] == a[1..] + b;
      FlushAppend(if a[0].rely then fs else Do(fs, a[0]), a[1..], b);
    }
  }

  lemma FlushOne(fs: Nodes, op: Op)
    ensures Flush(fs, [op]) == if op.rely then fs else Do(fs, op)
  {
  }

  lemma FlushSnoc(fs: Nodes, ops: seq<Op>, op: Op)
    requires !op.rely
    ensures Flush(fs, ops + [op]) == Do(Flush(fs, ops), op)
  {
    FlushAppend(fs, ops, [op]);
    FlushOne(Flush(fs, ops), op);
  }

  /** What one operation makes of the node y. */
  lemma DoAt(fs: Nodes, op: Op, y: string)
    ensures At(Do(fs, op), y) ==
            match op.kind
            case Add => if y == op.name then Made(op.dev) else At(fs, y)
            case Del => if y == op.name then Missing else At(fs, y)
            case Rename => if y == op.from then Missing else if y == op.name then At(fs, op.from) else At(fs, y)
            case ReadAhead => At(fs, y)
  {
  }

  /** The origins tell what a flush leaves. */
  lemma {:induction false} FlushOrigin(fs: Nodes, ops: seq<Op>, y: string)
    requires Direct(ops)
    ensures At(Flush(fs, ops), y) == Resolved(fs, Origin(ops, y))
    decreases |ops|
  {
    if ops != [] {
      hide Flush, Do;
      var front, op := ops[..|ops| - 1], ops[|ops| - 1];
      assert ops == front + [op];
      FlushSnoc(fs, front, op);
      DoAt(Flush(fs, front), op, y);
      FlushOrigin(fs, front, y);
      FlushOrigin(fs, front, op.from);
    } else {
      assert Flush(fs, ops) == fs;
    }
  }

  lemma SameNodes(f: Nodes, g: Nodes)
    requires forall y :: At(f, y) == At(g, y)
    ensures f == g
  {
    forall y ensures y in f <==> y in g {
      assert At(f, y) == At(g, y);
    }
    forall y | y in f ensures f[y] == g[y] {
      assert At(f, y) == At(g, y);
    }
  }

  /** Two different origins are told apart by some directory. */
  lemma ToldApart(c: Content, d: Content) returns (fs: Nodes)
    requires c != d
    ensures Resolved(fs, c) != Resolved(fs, d)
  {
    var other := if c.Made? then c.dev + 1 else if d.Made? then d.dev + 1 else 0;
    fs := if c.Was? then map[c.name := other] else if d.Was? then map[d.name := other] else map[];
  }

  lemma OriginsDiffer(a: seq<Op>, b: seq<Op>, y: string) returns (fs: Nodes)
    requires Direct(a) && Direct(b) && Origin(a, y) != Origin(b, y)
    ensures Flush(fs, a) != Flush(fs, b)
  {
    hide Flush, Origin;
    fs := ToldApart(Origin(a, y), Origin(b, y));
    FlushOrigin(fs, a, y);
    FlushOrigin(fs, b, y);
  }

  /** Two runs of operations leave the same directory, whatever it held before, exactly
      if every node has the same origin. */
  lemma SameOrigins(a: seq<Op>, b: seq<Op>)
    requires Direct(a) && Direct(b)
    ensures (forall fs :: Flush(fs, a) == Flush(fs, b)) <==> forall y :: Origin(a, y) == Origin(b, y)
  {
    hide Flush, Origin;
    if forall y :: Origin(a, y) == Origin(b, y) {
      forall fs ensures Flush(fs, a) == Flush(fs, b) {
        forall y ensures At(Flush(fs, a), y) == At(Flush(fs, b), y) {
          FlushOrigin(fs, a, y);
          FlushOrigin(fs, b, y);
        }
        SameNodes(Flush(fs, a), Flush(fs, b));
      }
    } else {
      var y :| Origin(a, y) != Origin(b, y);
      var fs := OriginsDiffer(a, b, y);
    }
  }

  // ---- when a request may be stacked ----

  /** A queued rename takes the node y away. */
  predicate Moved(q: seq<Op>, y: string) {
    exists i :: 0 <= i < |q| && q[i].kind == Rename && q[i].from == y && q[i].name != y
  }

  /** The nodes that are left behind when the operations on x are dropped from the queue:
      a dropped rename leaves its source, unless that had been moved before; a queued
      operation that is kept replaces such a node, removes it or moves it on. */
  function LeftBehind(q: seq<Op>, x: string): set<string>
    decreases |q|
  {
    if q == [] then {}
    else
      var front, op := q[..|q| - 1], q[|q| - 1];
      var left := LeftBehind(front, x);
      if op.kind == ReadAhead then left
      else if op.name == x then
        if op.kind == Rename && op.from != x && !Moved(front, op.from) then left + {op.from} else left
      else if op.kind == Rename && op.from in left && op.from != op.name then left - {op.from} + {op.name}
      else left - {op.name}
  }

  /** The operations on x can be dropped without changing what x is in the end: there are
      none, or x is moved away before them and they leave no node there. */
  predicate SourceStays(q: seq<Op>, x: string)
    decreases |q|
  {
    q == [] ||
    var front, op := q[..|q| - 1], q[|q| - 1];
    if op.name != x || op.kind == ReadAhead then SourceStays(front, x)
    else Moved(front, x) && (op.kind == Del || (op.kind == Rename && (op.from == x || Moved(front, op.from))))
  }

  /** A delete must leave nothing behind, and a rename nothing but what it replaces; the
      node that a rename moves must be the one it would have moved at once. */
  predicate Exact(q: seq<Op>, op: Op) {
    match op.kind
    case Del => LeftBehind(q, op.name) == {}
    case Rename => LeftBehind(q, op.from) <= {op.name} && (op.name == op.from || SourceStays(q, op.from))
    case Add => true
    case ReadAhead => true
  }

  /** The operations on other names. */
  function Kept(q: seq<Op>, x: string): seq<Op>
    decreases |q|
  {
    if q == [] then []
    else
      var front, op := q[..|q| - 1], q[|q| - 1];
      if op.name == x then Kept(front, x) else Kept(front, x) + [op]
  }

  predicate NotNamed(q: seq<Op>, y: string) { forall i :: 0 <= i < |q| ==> q[i].name != y }

  lemma {:induction false} KeptNotNamed(q: seq<Op>, x: string)
    ensures NotNamed(Kept(q, x), x)
    decreases |q|
  {
    if q != [] {
      KeptNotNamed(q[..|q| - 1], x);
    }
  }

  lemma {:induction false} NotNamedKept(q: seq<Op>, x: string)
    requires NotNamed(q, x)
    ensures Kept(q, x) == q && SourceStays(q, x)
    decreases |q|
  {
    if q != [] {
      NotNamedKept(q[..|q| - 1], x);
    }
  }

  lemma MovedSnoc(front: seq<Op>, op: Op, y: string)
    ensures Moved(front + [op], y) == (Moved(front, y) || (op.kind == Rename && op.from == y && op.name != y))
  {
    var q := front + [op];
    assert q[|front|] == op && forall i :: 0 <= i < |front| ==> q[i] == front[i];
  }

  /** A node that no operation names is where it was or has been moved away. */
  lemma {:induction false} NotNamedOrigin(q: seq<Op>, y: string)
    requires NotNamed(q, y)
    ensures Origin(q, y) == if Moved(q, y) then Missing else Was(y)
    decreases |q|
  {
    if q != [] {
      var front, op := q[..|q| - 1], q[|q| - 1];
      assert q == front + [op];
      NotNamedOrigin(front, y);
      MovedSnoc(front, op, y);
    }
  }

  lemma {:induction false} MovedKept(q: seq<Op>, x: string)
    ensures Moved(Kept(q, x), x) == Moved(q, x)
    decreases |q|
  {
    if q != [] {
      var front, op := q[..|q| - 1], q[|q| - 1];
      assert q == front + [op];
      MovedKept(front, x);
      MovedSnoc(front, op, x);
      MovedSnoc(Kept(front, x), op, x);
    }
  }

  lemma OrderedFront(front: seq<Op>, op: Op)
    requires Ordered(front + [op])
    ensures Ordered(front) && (op.kind == Rename ==> NotNamed(front, op.from))
  {
    var q := front + [op];
    assert q[|front|] == op && forall i :: 0 <= i < |front| ==> q[i] == front[i];
  }

  lemma OriginSnoc(front: seq<Op>, op: Op, y: string)
    ensures Origin(front + [op], y) ==
            match op.kind
            case Add => if y == op.name then Made(op.dev) else Origin(front, y)
            case Del => if y == op.name then Missing else Origin(front, y)
            case Rename =>
              if y == op.from then Missing else if y == op.name then Origin(front, op.from) else Origin(front, y)
            case ReadAhead => Origin(front, y)
  {
    assert (front + [op])[..|front|] == front;
  }

  /** What dropping the operations on x does to the node y. */
  ghost predicate Tracked(q: seq<Op>, x: string, y: string) {
    if y in LeftBehind(q, x) then Origin(q, y) == Missing && Origin(Kept(q, x), y).Was?
    else Origin(q, y) == Origin(Kept(q, x), y)
  }

  lemma LeftSnoc(front: seq<Op>, op: Op, x: string)
    ensures LeftBehind(front + [op], x) ==
            var left := LeftBehind(front, x);
            if op.kind == ReadAhead then left
            else if op.name == x then
              if op.kind == Rename && op.from != x && !Moved(front, op.from) then left + {op.from} else left
            else if op.kind == Rename && op.from in left && op.from != op.name then left - {op.from} + {op.name}
            else left - {op.name}
    ensures Kept(front + [op], x) == if op.name == x then Kept(front, x) else Kept(front, x) + [op]
  {
    assert (front + [op])[..|front|] == front;
  }

  /** Only operations on x are dropped, so that x itself is never counted as left. */
  lemma {:induction false} NotLeft(q: seq<Op>, x: string)
    ensures x !in LeftBehind(q, x)
    decreases |q|
  {
    if q != [] {
      NotLeft(q[..|q| - 1], x);
    }
  }

  /** A rename from x finds the same node with and without the operations on x. */
  lemma SourceOfKept(front: seq<Op>, op: Op, x: string)
    requires Ordered(front + [op]) && op.kind == Rename && op.from == x
    ensures Origin(front, x) == Origin(Kept(front, x), x)
  {
    OrderedFront(front, op);
    NotNamedKept(front, x);
  }

  lemma TrackedDropped(front: seq<Op>, op: Op, x: string, y: string)
    requires Ordered(front + [op]) && y != x && op.name == x && Tracked(front, x, y)
    ensures Tracked(front + [op], x, y)
  {
    LeftSnoc(front, op, x);
    OriginSnoc(front, op, y);
    OrderedFront(front, op);
    hide LeftBehind, Kept, Origin, Ordered, Moved;
    if op.kind == Rename {
      NotNamedOrigin(front, op.from);
    }
  }

  lemma TrackedKept(front: seq<Op>, op: Op, x: string, y: string)
    requires Ordered(front + [op]) && y != x && op.name != x && Tracked(front, x, y)
    requires op.from != x ==> Tracked(front, x, op.from)
    ensures Tracked(front + [op], x, y)
  {
    LeftSnoc(front, op, x);
    OriginSnoc(front, op, y);
    OriginSnoc(Kept(front, x), op, y);
    NotLeft(front, x);
    if op.kind == Rename && op.from == x {
      SourceOfKept(front, op, x);
    }
    hide LeftBehind, Kept, Origin, Ordered, Moved;
  }

  /** Dropping the operations on x changes exactly the nodes that are left behind, and
      there the flush of all operations has nothing. */
  lemma {:induction false} KeptOrigin(q: seq<Op>, x: string, y: string)
    requires Ordered(q) && y != x
    ensures Tracked(q, x, y)
    decreases |q|
  {
    if q != [] {
      var front, op := q[..|q| - 1], q[|q| - 1];
      assert q == front + [op];
      OrderedFront(front, op);
      hide Ordered, Tracked;
      KeptOrigin(front, x, y);
      if op.name == x {
        TrackedDropped(front, op, x, y);
      } else {
        if op.from != x {
          KeptOrigin(front, x, op.from);
        }
        TrackedKept(front, op, x, y);
      }
    }
  }

  lemma SourceStaysSnoc(front: seq<Op>, op: Op, x: string)
    ensures SourceStays(front + [op], x) ==
            if op.name != x || op.kind == ReadAhead then SourceStays(front, x)
            else Moved(front, x) && (op.kind == Del || (op.kind == Rename && (op.from == x || Moved(front, op.from))))
  {
    assert (front + [op])[..|front|] == front;
  }

  lemma KeptSource(q: seq<Op>, x: string)
    ensures Origin(Kept(q, x), x) == if Moved(q, x) then Missing else Was(x)
  {
    KeptNotNamed(q, x);
    NotNamedOrigin(Kept(q, x), x);
    MovedKept(q, x);
  }

  /** The node x itself stays what it was exactly under this condition. */
  lemma {:induction false} SourceOrigin(q: seq<Op>, x: string)
    requires Ordered(q)
    ensures Origin(q, x) == Origin(Kept(q, x), x) <==> SourceStays(q, x)
    decreases |q|
  {
    KeptSource(q, x);
    if q != [] {
      var front, op := q[..|q| - 1], q[|q| - 1];
      assert q == front + [op];
      OrderedFront(front, op);
      KeptSource(front, x);
      SourceOrigin(front, x);
      SourceStaysSnoc(front, op, x);
      OriginSnoc(front, op, x);
      MovedSnoc(front, op, x);
      if op.kind == Rename {
        NotNamedOrigin(front, op.from);
        if op.from == x {
          NotNamedKept(front, x);
        }
      }
      hide Origin, Kept, Ordered, Moved, SourceStays;
    }
  }

  // ---- cancelling drops the operations on a name ----

  lemma {:induction false} KeptWithout(q: seq<Op>, i: nat, x: string)
    requires i < |q| && q[i].name == x
    ensures Kept(Without(q, i), x) == Kept(q, x)
    decreases |q|
  {
    var n := |q| - 1;
    if i < n {
      KeptWithout(q[..n], i, x);
      assert Without(q, i)[..n - 1] == Without(q[..n], i);
    } else {
      assert Without(q, i) == q[..n];
    }
  }

  lemma {:induction false} DropAllKept(q: seq<Op>, i: nat, x: string)
    requires i <= |q|
    ensures Kept(DropAll(q, i, x), x) == Kept(q, x)
    decreases |q| - i
  {
    hide Kept;
    if i < |q| {
      if q[i].name == x {
        KeptWithout(q, i, x);
        DropAllKept(Without(q, i), i, x);
      } else {
        DropAllKept(q, i + 1, x);
      }
    }
  }

  lemma {:induction false} DropForDelKept(q: seq<Op>, i: nat, x: string)
    requires i <= |q|
    ensures Kept(DropForDel(q, i, x), x) == Kept(q, x)
    decreases |q| - i
  {
    hide Kept;
    if i < |q| {
      if q[i].name == x {
        KeptWithout(q, i, x);
        if HasOther(Without(q, i), Del) {
          DropForDelKept(Without(q, i), i, x);
        }
      } else {
        DropForDelKept(q, i + 1, x);
      }
    }
  }

  /** Without renames to x nothing is left behind. */
  lemma {:induction false} NothingLeft(q: seq<Op>, x: string)
    requires forall i :: 0 <= i < |q| && q[i].name == x ==> q[i].kind != Rename
    ensures LeftBehind(q, x) == {}
    decreases |q|
  {
    if q != [] {
      NothingLeft(q[..|q| - 1], x);
    }
  }

  /** Leaving out an operation that is no rename only matters for its own name. */
  lemma {:induction false} WithoutOrigin(q: seq<Op>, i: nat, y: string)
    requires i < |q| && Ordered(q) && q[i].kind != Rename && y != q[i].name
    ensures Origin(Without(q, i), y) == Origin(q, y)
    decreases |q|
  {
    var n := |q| - 1;
    var front, op := q[..n], q[n];
    assert q == front + [op];
    OriginSnoc(front, op, y);
    if i < n {
      OrderedFront(front, op);
      assert Without(q, i) == Without(front, i) + [op];
      OriginSnoc(Without(front, i), op, y);
      assert op.kind == Rename ==> front[i].name != op.from;
      hide Origin, Ordered;
      WithoutOrigin(front, i, y);
      if op.kind == Rename {
        WithoutOrigin(front, i, op.from);
      }
    } else {
      assert Without(q, i) == front;
    }
  }

  lemma {:induction false} DropFirstDelOrigin(q: seq<Op>, i: nat, x: string, y: string)
    requires i <= |q| && Ordered(q) && y != x
    ensures Origin(DropFirstDel(q, i, x), y) == Origin(q, y)
    decreases |q| - i
  {
    hide Origin, Ordered;
    if i < |q| {
      if q[i].kind == Del && q[i].name == x {
        WithoutOrigin(q, i, y);
      } else {
        DropFirstDelOrigin(q, i + 1, x, y);
      }
    }
  }

  /** After the cancelling for a delete of x every other node is what it is without the
      operations on x. */
  lemma DelCancelled(q: seq<Op>, op: Op, y: string)
    requires Ordered(q) && op.kind == Del && y != op.name
    ensures Origin(Cancelled(q, op), y) == Origin(Kept(q, op.name), y)
  {
    var x, r := op.name, Cancelled(q, op);
    if HasOther(q, Del) {
      DropForDelOrdered(q, 0, x);
      DropForDelKept(q, 0, x);
    }
    hide Ordered, DropForDel, Kept, LeftBehind, Origin;
    NothingLeft(r, x);
    KeptOrigin(r, x, y);
  }

  lemma RenameCancelled(q: seq<Op>, op: Op)
    requires Ordered(q) && op.kind == Rename
    ensures Cancelled(q, op) == Kept(q, op.from)
  {
    hide Ordered, DropAll, Kept;
    DropAllOrdered(q, 0, op.from);
    DropAllKept(q, 0, op.from);
    NotNamedKept(Cancelled(q, op), op.from);
  }

  // ---- exactly what cancelling leaves ----

  lemma {:induction false} DropForDelIs(q: seq<Op>, i: nat, x: string)
    requires i <= |q| && Ordered(q) && HasOther(q, Del) && NotNamed(q[..i], x)
    ensures NotNamed(DropForDel(q, i, x), x)
    decreases |q| - i
  {
    if i == |q| {
      assert q[..i] == q;
    } else if q[i].name == x {
      var r := Without(q, i);
      assert forall k :: 0 <= k < |r| ==> r[k] == q[if k < i then k else k + 1];
      if HasOther(r, Del) {
        WithoutOrdered(q, i);
        assert r[..i] == q[..i];
        DropForDelIs(r, i, x);
      } else {
        OnlyDeletes(q, i, x);
      }
    } else {
      assert q[..i + 1] == q[..i] + [q[i]];
      DropForDelIs(q, i + 1, x);
    }
  }

  lemma OthersAreDeletes(q: seq<Op>, i: nat, j: nat)
    requires i < |q| && j < |q| && j != i && !HasOther(Without(q, i), Del)
    ensures q[j].kind == Del
  {
    assert Without(q, i)[if j < i then j else j - 1] == q[j];
  }

  /** Once only deletes are left, none is on the name. */
  lemma OnlyDeletes(q: seq<Op>, i: nat, x: string)
    requires i < |q| && Ordered(q) && HasOther(q, Del) && NotNamed(q[..i], x) && q[i].name == x
    requires !HasOther(Without(q, i), Del)
    ensures NotNamed(Without(q, i), x)
  {
    var r := Without(q, i);
    var other :| 0 <= other < |q| && q[other].kind != Del;
    if other != i {
      OthersAreDeletes(q, i, other);
    }
    forall k | 0 <= k < |r| ensures r[k].name != x {
      if k < i {
        assert r[k] == q[..i][k];
      } else {
        assert r[k] == q[k + 1];
        OthersAreDeletes(q, i, k + 1);
      }
    }
  }

  lemma {:induction false} FirstDelIs(q: seq<Op>, i: nat, k: nat, x: string)
    requires i <= k < |q| && q[k].kind == Del && q[k].name == x
    requires forall j :: i <= j < k ==> !(q[j].kind == Del && q[j].name == x)
    ensures DropFirstDel(q, i, x) == Without(q, k)
    decreases k - i
  {
    if i < k {
      FirstDelIs(q, i + 1, k, x);
    }
  }

  /** The queue behind the cancelling: an add has taken away the first delete of its name,
      a delete, unless only deletes were queued, all operations on its name, and a rename
      all operations on its old name. */
  lemma CancelledIs(q: seq<Op>, op: Op)
    requires Ordered(q)
    ensures op.kind == ReadAhead ==> Cancelled(q, op) == q
    ensures op.kind == Rename ==> Cancelled(q, op) == Kept(q, op.from)
    ensures op.kind == Del ==> Cancelled(q, op) == if HasOther(q, Del) then Kept(q, op.name) else q
    ensures op.kind == Add ==>
              forall k :: 0 <= k < |q| && q[k].kind == Del && q[k].name == op.name &&
                          (forall j :: 0 <= j < k ==> !(q[j].kind == Del && q[j].name == op.name)) ==>
                            Cancelled(q, op) == Without(q, k)
    ensures op.kind == Add && (forall k :: 0 <= k < |q| ==> !(q[k].kind == Del && q[k].name == op.name)) ==>
              Cancelled(q, op) == q
  {
    match op.kind {
      case ReadAhead =>
      case Rename => RenameCancelled(q, op);
      case Del =>
        if HasOther(q, Del) {
          hide Kept, Ordered;
          DropForDelIs(q, 0, op.name);
          DropForDelKept(q, 0, op.name);
          NotNamedKept(Cancelled(q, op), op.name);
        }
      case Add =>
        hide Ordered, DropFirstDel;
        forall k | 0 <= k < |q| && q[k].kind == Del && q[k].name == op.name &&
                   (forall j :: 0 <= j < k ==> !(q[j].kind == Del && q[j].name == op.name))
          ensures Cancelled(q, op) == Without(q, k)
        {
          FirstDelIs(q, 0, k, op.name);
        }
        if forall k :: 0 <= k < |q| ==> !(q[k].kind == Del && q[k].name == op.name) {
          NoDelToDrop(q, 0, op.name);
        }
    }
  }

  lemma {:induction false} DropForDelFrom(q: seq<Op>, i: nat, x: string)
    requires i <= |q|
    ensures forall op :: op in DropForDel(q, i, x) ==> op in q
    decreases |q| - i
  {
    if i < |q| {
      if q[i].name == x {
        DropForDelFrom(Without(q, i), i, x);
      } else {
        DropForDelFrom(q, i + 1, x);
      }
    }
  }

  lemma {:induction false} DropFirstDelFrom(q: seq<Op>, i: nat, x: string)
    requires i <= |q|
    ensures forall op :: op in DropFirstDel(q, i, x) ==> op in q
    decreases |q| - i
  {
    if i < |q| && !(q[i].kind == Del && q[i].name == x) {
      DropFirstDelFrom(q, i + 1, x);
    }
  }

  lemma {:induction false} DropAllFrom(q: seq<Op>, i: nat, x: string)
    requires i <= |q|
    ensures forall op :: op in DropAll(q, i, x) ==> op in q
    decreases |q| - i
  {
    if i < |q| {
      if q[i].name == x {
        DropAllFrom(Without(q, i), i, x);
      } else {
        DropAllFrom(q, i + 1, x);
      }
    }
  }

  /** Cancelling adds nothing. */
  lemma CancelledFrom(q: seq<Op>, op: Op)
    ensures forall o :: o in Cancelled(q, op) ==> o in q
  {
    DropForDelFrom(q, 0, op.name);
    DropFirstDelFrom(q, 0, op.name);
    DropAllFrom(q, 0, op.from);
  }

  lemma StackedDirect(q: seq<Op>, op: Op)
    requires Direct(q) && !op.rely
    ensures Direct(Stacked(q, op)) && Stacked(q, op) == Cancelled(q, op) + [op] && Direct(q + [op])
  {
    CancelledFrom(q, op);
    hide Cancelled;
    forall i | 0 <= i < |Cancelled(q, op)| ensures !Cancelled(q, op)[i].rely {
      assert Cancelled(q, op)[i] in q;
    }
  }

  // ---- a request is stacked without changing the outcome ----

  /** Stacking the request or carrying it out at once makes the node y the same. */
  ghost predicate Same(q: seq<Op>, op: Op, y: string) {
    Origin(Cancelled(q, op) + [op], y) == Origin(q + [op], y)
  }

  lemma SameForAdd(q: seq<Op>, op: Op, y: string)
    requires Ordered(q) && (op.kind == Add || op.kind == ReadAhead)
    ensures Same(q, op, y)
  {
    OriginSnoc(q, op, y);
    OriginSnoc(Cancelled(q, op), op, y);
    hide Origin, Ordered, DropFirstDel;
    if op.kind == Add && y != op.name {
      DropFirstDelOrigin(q, 0, op.name, y);
    }
  }

  lemma SameForDel(q: seq<Op>, op: Op, y: string)
    requires Ordered(q) && op.kind == Del
    ensures Same(q, op, y) <==> y !in LeftBehind(q, op.name)
  {
    OriginSnoc(q, op, y);
    OriginSnoc(Cancelled(q, op), op, y);
    NotLeft(q, op.name);
    hide Origin, Ordered, LeftBehind, Cancelled;
    if y != op.name {
      DelCancelled(q, op, y);
      KeptOrigin(q, op.name, y);
    }
  }

  lemma SameForRename(q: seq<Op>, op: Op, y: string)
    requires Ordered(q) && op.kind == Rename
    ensures Same(q, op, y) <==>
            if y == op.from then true
            else if y == op.name then SourceStays(q, op.from)
            else y !in LeftBehind(q, op.from)
  {
    OriginSnoc(q, op, y);
    OriginSnoc(Cancelled(q, op), op, y);
    RenameCancelled(q, op);
    hide Origin, Ordered, LeftBehind, Cancelled, SourceStays, Kept;
    if y == op.name {
      SourceOrigin(q, op.from);
    } else if y != op.from {
      KeptOrigin(q, op.from, y);
    }
  }

  lemma ExactOrigins(q: seq<Op>, op: Op)
    requires Ordered(q)
    ensures (forall y :: Same(q, op, y)) <==> Exact(q, op)
  {
    hide Same, Ordered, LeftBehind, SourceStays;
    match op.kind {
      case Del =>
        forall y ensures Same(q, op, y) <==> y !in LeftBehind(q, op.name) { SameForDel(q, op, y); }
      case Rename =>
        forall y ensures Same(q, op, y) <==>
                         if y == op.from then true
                         else if y == op.name then SourceStays(q, op.from)
                         else y !in LeftBehind(q, op.from)
        {
          SameForRename(q, op, y);
        }
        NotLeft(q, op.from);
        assert Same(q, op, op.name) <==> op.name == op.from || SourceStays(q, op.from);
      case Add => forall y ensures Same(q, op, y) { SameForAdd(q, op, y); }
      case ReadAhead => forall y ensures Same(q, op, y) { SameForAdd(q, op, y); }
    }
  }

  /** Stacking a request on a queue and flushing leaves the same directory as flushing
      the queue and carrying the request out, whatever the directory held, exactly if the
      request is exact on that queue. */
  lemma StackedIsExact(q: seq<Op>, op: Op)
    requires Ordered(q) && Direct(q) && !op.rely
    ensures (forall fs :: Flush(fs, Stacked(q, op)) == Do(Flush(fs, q), op)) <==> Exact(q, op)
  {
    StackedDirect(q, op);
    hide Flush, Ordered, Do, Cancelled, Exact, Origin, Stacked;
    ExactOrigins(q, op);
    if Exact(q, op) {
      SameOrigins(Stacked(q, op), q + [op]);
      assert forall y :: Same(q, op, y) ==> Origin(Stacked(q, op), y) == Origin(q + [op], y);
      forall fs ensures Flush(fs, Stacked(q, op)) == Do(Flush(fs, q), op) {
        FlushSnoc(fs, q, op);
      }
    } else {
      var y :| !Same(q, op, y);
      var fs := OriginsDiffer(Stacked(q, op), q + [op], y);
      FlushSnoc(fs, q, op);
    }
  }

  lemma ExactStacked(fs: Nodes, q: seq<Op>, op: Op)
    requires Ordered(q) && Direct(q) && !op.rely && Exact(q, op)
    ensures Flush(fs, Stacked(q, op)) == Do(Flush(fs, q), op)
  {
    hide *;
    StackedIsExact(q, op);
  }

  // ---- runs of requests ----

  /** Requests that are exact when made and do not rely on udev. */
  ghost predicate ExactRun(rs: seq<Op>) {
    Direct(rs) && forall i :: 0 <= i < |rs| ==> Exact(Queue(rs[..i]), rs[i])
  }

  lemma ExactFront(front: seq<Op>, op: Op)
    requires ExactRun(front + [op])
    ensures ExactRun(front) && Exact(Queue(front), op) && !op.rely
  {
    hide Exact, Queue;
    var rs := front + [op];
    assert rs[..|front|] == front && rs[|front|] == op;
    forall i | 0 <= i < |front| ensures !front[i].rely && Exact(Queue(front[..i]), front[i]) {
      assert front[..i] == rs[..i] && front[i] == rs[i];
    }
  }

  lemma QueueSnoc(front: seq<Op>, op: Op)
    ensures Queue(front + [op]) == Stacked(Queue(front), op)
  {
    assert (front + [op])[..|front|] == front;
  }

  lemma {:induction false} QueueDirect(rs: seq<Op>)
    requires Direct(rs)
    ensures Direct(Queue(rs))
  {
    if rs != [] {
      QueueDirect(rs[..|rs| - 1]);
      StackedDirect(Queue(rs[..|rs| - 1]), rs[|rs| - 1]);
    }
  }

  lemma ExactIsDirect(rs: seq<Op>)
    requires ExactRun(rs)
    ensures Direct(Queue(rs))
  {
    QueueDirect(rs);
  }

  /** Flushing the queue leaves the directory as if every request had been carried out
      at once. */
  lemma {:induction false} FlushIsDirect(fs: Nodes, rs: seq<Op>)
    requires ExactRun(rs)
    ensures Flush(fs, Queue(rs)) == Flush(fs, rs)
  {
    hide *;
    if rs == [] {
      NoRequests();
    } else {
      var front, op := rs[..|rs| - 1], rs[|rs| - 1];
      assert rs == front + [op];
      ExactFront(front, op);
      FlushIsDirect(fs, front);
      QueueOrdered(front);
      ExactIsDirect(front);
      QueueSnoc(front, op);
      ExactStacked(fs, Queue(front), op);
      FlushSnoc(fs, front, op);
    }
  }

  lemma {:induction false} NoRenames(rs: seq<Op>)
    requires forall i :: 0 <= i < |rs| ==> rs[i].kind != Rename
    ensures forall k :: 0 <= k < |Queue(rs)| ==> Queue(rs)[k].kind != Rename
  {
    if rs != [] {
      var q, op := Queue(rs[..|rs| - 1]), rs[|rs| - 1];
      NoRenames(rs[..|rs| - 1]);
      CancelledFrom(q, op);
      hide Cancelled;
      forall k | 0 <= k < |Cancelled(q, op)| ensures Cancelled(q, op)[k].kind != Rename {
        assert Cancelled(q, op)[k] in q;
      }
    }
  }

  /** Every run of add, remove and read-ahead requests is exact. */
  lemma WithoutRenames(fs: Nodes, rs: seq<Op>)
    requires forall i :: 0 <= i < |rs| ==> rs[i].kind != Rename && !rs[i].rely
    ensures Flush(fs, Queue(rs)) == Flush(fs, rs)
  {
    hide Queue, Flush;
    forall i | 0 <= i < |rs| ensures Exact(Queue(rs[..i]), rs[i]) {
      NoRenames(rs[..i]);
      NothingLeft(Queue(rs[..i]), rs[i].name);
    }
    FlushIsDirect(fs, rs);
  }

  /** The names that occur in some operations. */
  function Names(ops: seq<Op>): set<string> {
    (set op | op in ops :: op.name) + (set op | op in ops :: op.from)
  }

  lemma {:induction false} UnnamedOrigin(ops: seq<Op>, y: string)
    requires y !in Names(ops)
    ensures Origin(ops, y) == Was(y)
    decreases |ops|
  {
    if ops != [] {
      var front, op := ops[..|ops| - 1], ops[|ops| - 1];
      assert op in ops && op.name in Names(ops) && op.from in Names(ops);
      assert forall o :: o in front ==> o in ops;
      UnnamedOrigin(front, y);
    }
  }

  lemma {:induction false} QueueFrom(rs: seq<Op>)
    requires Direct(rs)
    ensures forall o :: o in Queue(rs) ==> o in rs
  {
    if rs != [] {
      var front, op := rs[..|rs| - 1], rs[|rs| - 1];
      QueueFrom(front);
      CancelledFrom(Queue(front), op);
      hide Cancelled;
      assert rs == front + [op] && Entry(op) == op;
    }
  }

  /** For a whole run the outcome is the same exactly if each node that the requests name
      has the same origin in the queue and in the requests. */
  lemma RunIsExact(rs: seq<Op>)
    requires Direct(rs)
    ensures (forall fs :: Flush(fs, Queue(rs)) == Flush(fs, rs)) <==>
            forall y :: y in Names(rs) ==> Origin(Queue(rs), y) == Origin(rs, y)
  {
    QueueDirect(rs);
    QueueFrom(rs);
    assert Names(Queue(rs)) <= Names(rs);
    hide Queue, Flush, Origin;
    SameOrigins(Queue(rs), rs);
    forall y | y !in Names(rs) ensures Origin(Queue(rs), y) == Origin(rs, y) {
      UnnamedOrigin(Queue(rs), y);
      UnnamedOrigin(rs, y);
    }
  }

  /** Two requests that are not exact, for any two names: a rename drops the queued add of
      its source, and a delete of its target drops the rename, which leaves the source
      behind. */
  lemma RenamesDiffer(a: string, b: string, dev: nat)
    requires a != b
    ensures var add, rename := Op(Add, a, "", dev, false), Op(Rename, b, a, 0, false);
            !Exact([add], rename) && b in Flush(map[], [add, rename]) && b !in Flush(map[], Queue([add, rename]))
    ensures var rename, del := Op(Rename, b, a, 0, false), Op(Del, b, "", 0, false);
            !Exact([rename], del) &&
            a !in Flush(map[a := dev], [rename, del]) && a in Flush(map[a := dev], Queue([rename, del]))
  {
    var add, rename, del := Op(Add, a, "", dev, false), Op(Rename, b, a, 0, false), Op(Del, b, "", 0, false);
    hide Queue, Flush, Exact;
    NotExact(add, rename);
    NotExact(rename, del);
    TwoRequests(map[], add, rename);
    TwoRequests(map[a := dev], rename, del);
  }

  lemma NotExact(first: Op, second: Op)
    requires (first.kind == Add && second.kind == Rename && second.from == first.name && second.name != first.name) ||
             (first.kind == Rename && second.kind == Del && second.name == first.name && first.from != first.name)
    ensures !Exact([first], second)
  {
    assert [] + [first] == [first];
    SourceStaysSnoc([], first, first.name);
    LeftSnoc([], first, first.name);
    hide SourceStays, LeftBehind;
  }

  lemma DropsOne(op: Op)
    ensures DropAll([op], 0, op.name) == []
    ensures op.kind != Del ==> HasOther([op], Del) && DropForDel([op], 0, op.name) == []
    ensures DropFirstDel([], 0, op.name) == [] && DropAll([], 0, op.from) == []
  {
    assert Without([op], 0) == [];
    assert [op][0] == op;
  }

  /** A request that cancels the only queued one. */
  lemma TwoRequests(fs: Nodes, first: Op, second: Op)
    requires !first.rely && !second.rely && first.kind in {Add, Rename}
    requires (second.kind == Rename && second.from == first.name) || (second.kind == Del && second.name == first.name)
    ensures Flush(fs, [first, second]) == Do(Do(fs, first), second)
    ensures Flush(fs, Queue([first, second])) == Do(fs, second)
  {
    hide Queue, Flush, DropForDel, DropFirstDel, DropAll, HasOther, Do;
    assert [first, second] == [first] + [second] && [first] == [] + [first];
    assert Queue([]) == [] by { NoRequests(); }
    QueueSnoc([], first);
    QueueSnoc([first], second);
    DropsOne(first);
    FlushAppend(fs, [first], [second]);
    FlushOne(fs, first);
    FlushOne(Do(fs, first), second);
    FlushOne(fs, second);
    assert [] + [second] == [second];
  }

  lemma NoRequests()
    ensures Queue([]) == []
  {
  }
}
