/** The thin-pool transaction protocol of libdm-deptree.c: messages are queued for a
    new transaction id, sent one by one, and closed by raising the id. The process can
    be killed between any two messages and started again. */
module ThinPool {

  const U64: nat := 0x1_0000_0000_0000_0000
  const U32: nat := 0x1_0000_0000
  const MAX_DEVICE_ID: nat := 0xFF_FFFF

  datatype Message =
    | CreateSnap(device: nat, origin: nat)
    | CreateThin(device: nat)
    | Delete(device: nat)
    | SetTransactionId(current: nat, next: nat)

  /** What the pool in the kernel shows in its status line, and the devices it holds. */
  datatype Pool = Pool(devices: set<nat>, tid: nat, failed: bool, readOnly: bool, needsCheck: bool)

  datatype Segment = Segment(tid: nat, messages: seq<Message>)

  function Next(tid: nat): nat { (tid + 1) % U64 }

  // ---- one message ----

  datatype Delivery = Delivery(pool: Pool, ok: bool)

  /** The kernel's answer to a message. The errors a message expects, an existing device
      for create_thin and a missing one for delete, count as success. */
  function Deliver(p: Pool, m: Message): Delivery {
    match m
    case CreateThin(d) => Delivery(p.(devices := p.devices + {d}), true)
    case Delete(d) => Delivery(p.(devices := p.devices - {d}), true)
    case CreateSnap(d, o) =>
      if d in p.devices || o !in p.devices then Delivery(p, false)
      else Delivery(p.(devices := p.devices + {d}), true)
    case SetTransactionId(c, n) =>
      if p.tid == c then Delivery(p.(tid := n), true) else Delivery(p, false)
  }

  /** The loop over the messages: it stops at the first one that fails. */
  function DeliverAll(p: Pool, ms: seq<Message>): Delivery
    decreases |ms|
  {
    if ms == [] then Delivery(p, true)
    else
      var r := Deliver(p, ms[0]);
      if !r.ok then r else DeliverAll(r.pool, ms[1..])
  }

  datatype Sent = Sent(pool: Pool, ok: bool, tried: bool)

  predicate Usable(p: Pool) {
    !p.failed && !p.readOnly && !p.needsCheck
  }

  /** The segment's id is the successor, in 64 bits, of the pool's. */
  predicate OneBehind(p: Pool, seg: Segment) {
    p.tid != seg.tid && seg.tid == (p.tid + 1) % 0x1_0000_0000_0000_0000
  }

  /** The segment's id is neither the pool's nor the one behind it. */
  predicate OutOfStep(p: Pool, seg: Segment) { p.tid != seg.tid && !OneBehind(p, seg) }

  /** Whether a run gets as far as sending. */
  predicate Sends(p: Pool, seg: Segment, send: bool) {
    p.tid != seg.tid && Next(p.tid) == seg.tid && seg.messages != [] && send && Usable(p)
  }

  /** _thin_pool_node_send_messages, run to its end. */
  function Send(p: Pool, seg: Segment, send: bool): Sent {
    if Sends(p, seg, send) then
      var r := DeliverAll(p, seg.messages);
      Sent(r.pool, r.ok, true)
    else
      Sent(p, p.tid == seg.tid || (Next(p.tid) == seg.tid && (seg.messages == [] || !send)), false)
  }

  /** The pool after a run that was killed with k messages sent. */
  function Cut(p: Pool, seg: Segment, k: nat): Pool {
    if Sends(p, seg, true) then DeliverAll(p, seg.messages[..if k < |seg.messages| then k else |seg.messages|]).pool else p
  }

  function Cuts(p: Pool, seg: Segment, ks: seq<nat>): Pool
    decreases |ks|
  {
    if ks == [] then p else Cuts(Cut(p, seg, ks[0]), seg, ks[1..])
  }

  // ---- queueing ----

  /** A device id after the cut to 32 bits fits the 24 bits of the pool; a snapshot is
      not its own origin; a new transaction id is the segment's and the next one. */
  predicate Accepts(kind: Message, id1: nat, id2: nat, tid: nat) {
    match kind
    case CreateThin(_) => id1 % 0x1_0000_0000 <= 0xFF_FFFF
    case Delete(_) => id1 % 0x1_0000_0000 <= 0xFF_FFFF
    case CreateSnap(_, _) => id1 != id2 && id1 % 0x1_0000_0000 <= 0xFF_FFFF && id2 % 0x1_0000_0000 <= 0xFF_FFFF
    case SetTransactionId(_, _) => id2 == tid == (id1 + 1) % 0x1_0000_0000_0000_0000
  }

  class PoolNode {
    var seg: Segment
    var sendMessages: nat   // 0 nothing, 1 check the id, 2 there are messages

    constructor (tid: nat)
      ensures seg == Segment(tid, []) && sendMessages == (if tid != 0 then 1 else 0)
    {
      seg := Segment(tid, []);
      sendMessages := if tid != 0 then 1 else 0;
    }

    /** dm_tree_node_add_thin_pool_message for the kind of message given; device ids
        are cut to 32 bits before they are checked. */
    method AddMessage(kind: Message, id1: nat, id2: nat) returns (ok: bool)
      requires id1 < U64 && id2 < U64
      modifies this
      ensures ok <==> Accepts(kind, id1, id2, old(seg).tid)
      ensures !ok ==> seg == old(seg) && sendMessages == old(sendMessages)
      ensures ok ==> |seg.messages| == |old(seg).messages| + 1 && seg.messages[..|old(seg).messages|] == old(seg).messages
      ensures ok ==> seg.tid == old(seg).tid && sendMessages == 2
      ensures ok ==>
                match seg.messages[|old(seg).messages|]
                case CreateThin(d) => kind.CreateThin? && d == id1 % U32
                case Delete(d) => kind.Delete? && d == id1 % U32
                case CreateSnap(d, o) => kind.CreateSnap? && d == id1 % U32 && o == id2 % U32
                case SetTransactionId(c, n) => kind.SetTransactionId? && c == id1 && n == id2
    {
      var m;
      match kind {
        case CreateSnap(_, _) =>
          if id1 == id2 || id1 % U32 > MAX_DEVICE_ID || id2 % U32 > MAX_DEVICE_ID {
            return false;
          }
          m := CreateSnap(id1 % U32, id2 % U32);
        case CreateThin(_) =>
          if id1 % U32 > MAX_DEVICE_ID {
            return false;
          }
          m := CreateThin(id1 % U32);
        case Delete(_) =>
          if id1 % U32 > MAX_DEVICE_ID {
            return false;
          }
          m := Delete(id1 % U32);
        case SetTransactionId(_, _) =>
          if Next(id1) != id2 || id2 != seg.tid {
            return false;
          }
          m := SetTransactionId(id1, id2);
      }
      seg := seg.(messages := seg.messages + [m]);
      sendMessages := 2;
      return true;
    }
  }

  /** The pool as the process sees it through ioctls. */
  class PoolDevice {
    var pool: Pool

    constructor (pool: Pool)
      ensures this.pool == pool
    {
      this.pool := pool;
    }

    method Message(m: Message) returns (ok: bool)
      modifies this
      ensures Delivery(pool, ok) == Deliver(old(pool), m)
      ensures ok <==> match m
                      case CreateThin(_) => true
                      case Delete(_) => true
                      case CreateSnap(d, o) => d !in old(pool).devices && o in old(pool).devices
                      case SetTransactionId(c, _) => old(pool).tid == c
      ensures !ok ==> pool == old(pool)
      ensures ok && m.SetTransactionId? ==> pool == old(pool).(tid := m.next)
      ensures ok && !m.SetTransactionId? ==>
                && (m.device in pool.devices <==> !m.Delete?)
                && pool == old(pool).(devices := pool.devices)
                && forall d :: d != m.device ==> (d in pool.devices <==> d in old(pool).devices)
    {
      var r := Deliver(pool, m);
      pool := r.pool;
      return r.ok;
    }
  }

  datatype Outcome = Done(ok: bool) | Killed

  /** _thin_pool_node_send_messages. The process may die when it is about to send message
      number budget. The flag of the node is cleared when there is nothing left to do. */
  method SendMessages(node: PoolNode, dev: PoolDevice, send: bool, budget: nat) returns (r: Outcome)
    modifies node`sendMessages, dev
    ensures r.Done? ==> dev.pool == Send(old(dev.pool), node.seg, send).pool
                        && r.ok == Send(old(dev.pool), node.seg, send).ok
    ensures r.Killed? ==> dev.pool == Cut(old(dev.pool), node.seg, budget)
    ensures r.Killed? <==>
            && Sends(old(dev.pool), node.seg, send) && budget < |node.seg.messages|
            && DeliverAll(old(dev.pool), node.seg.messages[..budget]).ok
    ensures OutOfStep(old(dev.pool), node.seg) ==> r == Done(false) && dev.pool == old(dev.pool)
    ensures OneBehind(old(dev.pool), node.seg) && node.seg.messages != [] && send &&
            (old(dev.pool).failed || old(dev.pool).readOnly || old(dev.pool).needsCheck) ==>
              r == Done(false) && dev.pool == old(dev.pool)
    ensures old(dev.pool).tid == node.seg.tid ||
            (OneBehind(old(dev.pool), node.seg) && (node.seg.messages == [] || !send)) ==>
              r == Done(true) && dev.pool == old(dev.pool)
    ensures OneBehind(old(dev.pool), node.seg) && node.seg.messages != [] && send && r.Done? &&
            !old(dev.pool).failed && !old(dev.pool).readOnly && !old(dev.pool).needsCheck ==>
              Delivery(dev.pool, r.ok) == DeliverAll(old(dev.pool), node.seg.messages)
    ensures node.sendMessages == 0 || node.sendMessages == old(node.sendMessages)
    ensures r == Done(true) && dev.pool.tid == node.seg.tid ==> node.sendMessages == 0
  {
    var seg := node.seg;
    var tid := dev.pool.tid;
    if tid == seg.tid {
      node.sendMessages := 0;
      return Done(true);
    }
    if Next(tid) != seg.tid {
      return Done(false);
    }
    if seg.messages == [] || !send {
      return Done(true);
    }
    if dev.pool.failed || dev.pool.readOnly || dev.pool.needsCheck {
      return Done(false);
    }
    r := SendLoop(dev, seg.messages, budget);
    if r == Done(true) {
      node.sendMessages := 0;
    }
  }

  method SendLoop(dev: PoolDevice, ms: seq<Message>, budget: nat) returns (r: Outcome)
    modifies dev
    ensures r.Done? ==> Delivery(dev.pool, r.ok) == DeliverAll(old(dev.pool), ms)
    ensures r.Killed? ==> budget < |ms| && dev.pool == DeliverAll(old(dev.pool), ms[..budget]).pool
    ensures r.Killed? <==> budget < |ms| && DeliverAll(old(dev.pool), ms[..budget]).ok
  {
    hide Deliver;
    var i := 0;
    ghost var was := dev.pool;
    assert ms[0..] == ms && ms[..0] == [];
    while i < |ms|
      invariant i <= |ms| && i <= budget
      invariant DeliverAll(dev.pool, ms[i..]) == DeliverAll(was, ms)
      invariant DeliverAll(was, ms[..i]) == Delivery(dev.pool, true)
    {
      if i == budget {
        return Killed;
      }
      assert ms[i..][1..] == ms[i + 1..];
      DeliverSnoc(was, ms, i);
      DeliveredId(dev.pool, ms[i]);
      var ok := dev.Message(ms[i]);
      if !ok {
        FailureStays(was, ms, i + 1, budget);
        return Done(false);
      }
      if ms[i].SetTransactionId? && dev.pool.tid != ms[i].next {
        return Done(false);  // the kernel did not take the new id
      }
      i := i + 1;
    }
    return Done(true);
  }

  lemma DeliveredId(p: Pool, m: Message)
    ensures m.SetTransactionId? && Deliver(p, m).ok ==> Deliver(p, m).pool.tid == m.next
  {
  }

  lemma {:induction false} DeliverSnoc(p: Pool, ms: seq<Message>, i: nat)
    requires i < |ms|
    ensures var r := DeliverAll(p, ms[..i]);
            DeliverAll(p, ms[..i + 1]) == if r.ok then Deliver(r.pool, ms[i]) else r
    decreases i
  {
    hide Deliver;
    if i == 0 {
      assert ms[..1][1..] == [];
    } else {
      assert ms[..i + 1][1..] == ms[1..][..i];
      assert ms[..i][1..] == ms[1..][..i - 1];
      DeliverSnoc(Deliver(p, ms[0]).pool, ms[1..], i - 1);
    }
  }

  lemma {:induction false} FailureStays(p: Pool, ms: seq<Message>, i: nat, k: nat)
    requires i <= |ms| && i <= k && !DeliverAll(p, ms[..i]).ok
    ensures k < |ms| ==> !DeliverAll(p, ms[..k]).ok
    decreases k
  {
    if i < k < |ms| {
      FailureStays(p, ms, i, k - 1);
      DeliverSnoc(p, ms, k - 1);
    }
  }

  // ---- what a list of messages does to the devices ----

  /** The last word of a list about a device: created, deleted, or nothing. */
  datatype Word = Silent | Created | Deleted

  function WordOf(m: Message, d: nat): Word {
    match m
    case CreateThin(x) => if x == d then Created else Silent
    case CreateSnap(x, _) => if x == d then Created else Silent
    case Delete(x) => if x == d then Deleted else Silent
    case SetTransactionId(_, _) => Silent
  }

  function LastWord(ms: seq<Message>, d: nat): Word {
    if ms == [] then Silent
    else
      var w := WordOf(ms[|ms| - 1], d);
      if w != Silent then w else LastWord(ms[..|ms| - 1], d)
  }

  predicate Holds(w: Word, before: bool) {
    if w == Silent then before else w == Created
  }

  predicate NoIds(ms: seq<Message>) {
    forall m :: m in ms ==> !m.SetTransactionId?
  }

  /** Messages that all succeed leave exactly the devices their last words say. */
  lemma {:induction false} DevicesAfter(p: Pool, ms: seq<Message>, k: nat)
    requires NoIds(ms) && k <= |ms| && DeliverAll(p, ms[..k]).ok
    ensures var q := DeliverAll(p, ms[..k]).pool;
            && q == p.(devices := q.devices)
            && forall d :: d in q.devices <==> Holds(LastWord(ms[..k], d), d in p.devices)
  {
    if k > 0 {
      DeliverSnoc(p, ms, k - 1);
      DevicesAfter(p, ms, k - 1);
      hide DeliverAll;
      assert ms[k - 1] in ms;
      assert ms[..k][..k - 1] == ms[..k - 1] && ms[..k][k - 1] == ms[k - 1];
    }
  }

  /** If the whole list succeeds, so does every part in front. */
  lemma {:induction false} PrefixOk(p: Pool, ms: seq<Message>, k: nat)
    requires k <= |ms| && DeliverAll(p, ms).ok
    ensures DeliverAll(p, ms[..k]).ok
    ensures k < |ms| ==> Deliver(DeliverAll(p, ms[..k]).pool, ms[k]).ok
    decreases |ms| - k
  {
    if k == |ms| {
      assert ms[..k] == ms;
    } else {
      PrefixOk(p, ms, k + 1);
      DeliverSnoc(p, ms, k);
    }
  }

  lemma {:induction false} AllOk(p: Pool, ms: seq<Message>, k: nat)
    requires k <= |ms| && DeliverAll(p, ms[..k]).ok
    requires forall i :: k <= i < |ms| ==>
               (DeliverAll(p, ms[..i]).ok ==> Deliver(DeliverAll(p, ms[..i]).pool, ms[i]).ok)
    ensures DeliverAll(p, ms).ok
    decreases |ms| - k
  {
    if k == |ms| {
      assert ms[..k] == ms;
    } else {
      DeliverSnoc(p, ms, k);
      AllOk(p, ms, k + 1);
    }
  }

  lemma {:induction false} SilentList(ms: seq<Message>, d: nat)
    ensures LastWord(ms, d) == Silent <==> forall m :: m in ms ==> WordOf(m, d) == Silent
    decreases |ms|
  {
    if ms != [] {
      var n := |ms| - 1;
      SilentList(ms[..n], d);
      assert ms == ms[..n] + [ms[n]];
    }
  }

  // ---- interrupted runs ----

  /** Which message lists can be sent again after any interruption: a snapshot is only
      taken of an id that the list has just deleted, and its origin is either created by
      the list before or never deleted later. */
  predicate Recoverable(ms: seq<Message>) {
    forall k :: 0 <= k < |ms| && ms[k].CreateSnap? ==> SnapOk(ms, k)
  }

  predicate SnapOk(ms: seq<Message>, k: nat)
    requires k < |ms| && ms[k].CreateSnap?
  {
    && LastWord(ms[..k], ms[k].device) == Deleted
    && (LastWord(ms[..k], ms[k].origin) != Silent || Delete(ms[k].origin) !in ms[k..])
  }

  /** The pool q can come from p by parts of the list: it differs only in devices the
      list speaks of, and has every device of p that the list never deletes. */
  ghost predicate Similar(p: Pool, q: Pool, ms: seq<Message>) {
    && q == p.(devices := q.devices)
    && (forall d :: LastWord(ms, d) == Silent ==> (d in q.devices <==> d in p.devices))
    && (forall d :: d in p.devices && Delete(d) !in ms ==> d in q.devices)
  }

  lemma SimilarAfter(p: Pool, q: Pool, ms: seq<Message>, k: nat)
    requires NoIds(ms) && Similar(p, q, ms) && k <= |ms| && DeliverAll(q, ms[..k]).ok
    ensures Similar(p, DeliverAll(q, ms[..k]).pool, ms)
  {
    DevicesAfter(q, ms, k);
    hide DeliverAll, LastWord;
    var r := DeliverAll(q, ms[..k]).pool;
    forall d
      ensures LastWord(ms, d) == Silent ==> (d in r.devices <==> d in p.devices)
      ensures d in p.devices && Delete(d) !in ms ==> d in r.devices
    {
      SilentList(ms, d);
      SilentList(ms[..k], d);
      NeverDeleted(ms, k, d);
    }
  }

  lemma {:induction false} NeverDeleted(ms: seq<Message>, k: nat, d: nat)
    requires k <= |ms|
    ensures LastWord(ms[..k], d) == Deleted ==> Delete(d) in ms[..k]
    ensures Delete(d) in ms[..k] ==> Delete(d) in ms
  {
    if k > 0 {
      NeverDeleted(ms, k - 1, d);
      assert ms[..k][..k - 1] == ms[..k - 1];
      assert ms[..k] == ms[..k - 1] + [ms[k - 1]];
    }
  }

  /** A snapshot that worked the first time works again. */
  lemma SnapAgain(p: Pool, q: Pool, ms: seq<Message>, k: nat)
    requires NoIds(ms) && Similar(p, q, ms) && DeliverAll(p, ms).ok
    requires k < |ms| && ms[k].CreateSnap? && SnapOk(ms, k) && DeliverAll(q, ms[..k]).ok
    ensures Deliver(DeliverAll(q, ms[..k]).pool, ms[k]).ok
  {
    hide DeliverAll, LastWord;
    PrefixOk(p, ms, k);
    DevicesAfter(p, ms, k);
    DevicesAfter(q, ms, k);
    var o := ms[k].origin;
    if LastWord(ms[..k], o) == Silent {
      SilentList(ms[..k], o);
      assert Delete(o) !in ms[..k] by {
        assert WordOf(Delete(o), o) == Deleted;
      }
      assert ms == ms[..k] + ms[k..];
    }
  }

  /** Sending the whole list again, from any such pool, ends where the first complete run
      would have. */
  lemma Rerun(p: Pool, q: Pool, ms: seq<Message>)
    requires NoIds(ms) && Similar(p, q, ms) && DeliverAll(p, ms).ok && Recoverable(ms)
    ensures DeliverAll(q, ms) == DeliverAll(p, ms)
  {
    hide LastWord, SnapOk;
    assert ms[..0] == [];
    forall i | 0 <= i < |ms| && DeliverAll(q, ms[..i]).ok
      ensures Deliver(DeliverAll(q, ms[..i]).pool, ms[i]).ok
    {
      assert ms[i] in ms;
      if ms[i].CreateSnap? {
        SnapAgain(p, q, ms, i);
      }
    }
    AllOk(q, ms, 0);
    hide DeliverAll;
    assert ms[..|ms|] == ms;
    DevicesAfter(p, ms, |ms|);
    DevicesAfter(q, ms, |ms|);
    assert forall d :: d in DeliverAll(q, ms).pool.devices <==> d in DeliverAll(p, ms).pool.devices;
  }

  // ---- a transaction ----

  function Body(seg: Segment): seq<Message>
    requires seg.messages != []
  {
    seg.messages[..|seg.messages| - 1]
  }

  /** A pool one behind, and messages closed by raising its id. */
  predicate Plan(p: Pool, seg: Segment) {
    && p.tid < U64 && Next(p.tid) == seg.tid && Usable(p)
    && seg.messages != [] && NoIds(Body(seg))
    && seg.messages[|seg.messages| - 1] == SetTransactionId(p.tid, seg.tid)
  }

  lemma SendsInPlan(p: Pool, q: Pool, seg: Segment)
    requires Plan(p, seg) && q.tid == p.tid && Usable(q)
    ensures Sends(q, seg, true)
  {
  }

  /** Sending everything is sending the body and then taking the new id. */
  lemma PlanEnd(p: Pool, q: Pool, seg: Segment)
    requires Plan(p, seg) && q.tid == p.tid && Usable(q)
    ensures var b := DeliverAll(q, Body(seg));
            && (b.ok ==> DeliverAll(q, seg.messages) == Delivery(b.pool.(tid := seg.tid), true))
            && (!b.ok ==> !DeliverAll(q, seg.messages).ok)
            && Send(q, seg, true).ok == b.ok
            && (b.ok ==> Send(q, seg, true).pool == b.pool.(tid := seg.tid))
  {
    var n := |seg.messages| - 1;
    DeliverSnoc(q, seg.messages, n);
    assert seg.messages[..n + 1] == seg.messages;
    SendsInPlan(p, q, seg);
    if DeliverAll(q, Body(seg)).ok {
      assert Body(seg)[..n] == Body(seg);
      DevicesAfter(q, Body(seg), n);
    }
    hide DeliverAll;
  }

  /** Where interrupted runs can leave the pool. */
  ghost predicate Reached(p: Pool, q: Pool, seg: Segment)
    requires Plan(p, seg)
  {
    Similar(p, q, Body(seg)) || q == Send(p, seg, true).pool
  }

  lemma CutReached(p: Pool, q: Pool, seg: Segment, k: nat)
    requires Plan(p, seg) && Send(p, seg, true).ok && Recoverable(Body(seg)) && Reached(p, q, seg)
    ensures Reached(p, Cut(q, seg, k), seg)
  {
    hide DeliverAll, Recoverable, LastWord;
    PlanEnd(p, p, seg);
    if Similar(p, q, Body(seg)) {
      SendsInPlan(p, q, seg);
      Rerun(p, q, Body(seg));
      PlanEnd(p, q, seg);
      if k < |seg.messages| {
        assert seg.messages[..k] == Body(seg)[..k];
        PrefixOk(q, Body(seg), k);
        SimilarAfter(p, q, Body(seg), k);
      } else {
        assert seg.messages[..|seg.messages|] == seg.messages;
      }
    } else {
      assert q.tid == seg.tid;
    }
  }

  lemma {:induction false} CutsReached(p: Pool, q: Pool, seg: Segment, ks: seq<nat>)
    requires Plan(p, seg) && Send(p, seg, true).ok && Recoverable(Body(seg)) && Reached(p, q, seg)
    ensures Reached(p, Cuts(q, seg, ks), seg)
    decreases |ks|
  {
    hide Cut, Recoverable, Reached, Send;
    if ks != [] {
      CutReached(p, q, seg, ks[0]);
      CutsReached(p, Cut(q, seg, ks[0]), seg, ks[1..]);
    }
  }

  /** After any number of interrupted runs, a complete one leaves the pool as a single
      uninterrupted run does: with the same devices, and the id raised by one. Every
      later run sends nothing. */
  lemma CrashSafe(p: Pool, seg: Segment, ks: seq<nat>)
    requires Plan(p, seg) && Send(p, seg, true).ok && Recoverable(Body(seg))
    ensures var end := Send(p, seg, true).pool;
            && Send(Cuts(p, seg, ks), seg, true).ok && Send(Cuts(p, seg, ks), seg, true).pool == end
            && end.tid == Next(p.tid)
            && Send(end, seg, true) == Sent(end, true, false)
  {
    hide DeliverAll, Recoverable, LastWord, Cuts;
    CutsReached(p, p, seg, ks);
    PlanEnd(p, p, seg);
    var q := Cuts(p, seg, ks);
    if Similar(p, q, Body(seg)) {
      Rerun(p, q, Body(seg));
      PlanEnd(p, q, seg);
    }
  }

  predicate NoSnaps(ms: seq<Message>) {
    forall m :: m in ms ==> !m.CreateSnap?
  }

  /** Lists of create_thin and delete messages always succeed and are recoverable. */
  lemma WithoutSnapshots(p: Pool, seg: Segment)
    requires Plan(p, seg) && NoSnaps(Body(seg))
    ensures Send(p, seg, true).ok && Recoverable(Body(seg))
  {
    var ms := Body(seg);
    PlanEnd(p, p, seg);
    assert ms[..0] == [];
    forall i | 0 <= i < |ms| && DeliverAll(p, ms[..i]).ok
      ensures Deliver(DeliverAll(p, ms[..i]).pool, ms[i]).ok
    {
      assert ms[i] in ms;
    }
    AllOk(p, ms, 0);
    assert forall k :: 0 <= k < |ms| ==> ms[k] in ms;
  }

  /** Otherwise some interruption makes the transaction impossible to finish: a kill just
      after the snapshot, or just after its origin was deleted. */
  lemma NotCrashSafe(p: Pool, seg: Segment) returns (cut: nat)
    requires Plan(p, seg) && Send(p, seg, true).ok && !Recoverable(Body(seg))
    ensures !Send(Cut(p, seg, cut), seg, true).ok
  {
    hide DeliverAll, Recoverable;
    var ms := Body(seg);
    PlanEnd(p, p, seg);
    cut := BadCut(p, ms);
    DevicesAfter(p, ms, cut);
    assert seg.messages[..cut] == ms[..cut];
    SendsInPlan(p, p, seg);
    PlanEnd(p, DeliverAll(p, ms[..cut]).pool, seg);
  }

  lemma BadCut(p: Pool, ms: seq<Message>) returns (cut: nat)
    requires NoIds(ms) && DeliverAll(p, ms).ok && !Recoverable(ms)
    ensures cut <= |ms| && DeliverAll(p, ms[..cut]).ok && !DeliverAll(DeliverAll(p, ms[..cut]).pool, ms).ok
  {
    hide DeliverAll, LastWord, NoIds;
    var k :| 0 <= k < |ms| && ms[k].CreateSnap? && !SnapOk(ms, k);
    FirstTime(p, ms, k);
    if LastWord(ms[..k], ms[k].device) != Deleted {
      cut := k + 1;
      StaysAfter(p, ms, k, cut, ms[k].device);
    } else {
      var o := ms[k].origin;
      var i :| 0 <= i < |ms[k..]| && ms[k..][i] == Delete(o);
      cut := k + i + 1;
      GoneAfter(p, ms, k + i, o);
    }
    SnapFails(DeliverAll(p, ms[..cut]).pool, ms, k);
  }

  lemma FirstTime(p: Pool, ms: seq<Message>, k: nat)
    requires NoIds(ms) && DeliverAll(p, ms).ok && k < |ms| && ms[k].CreateSnap?
    ensures LastWord(ms[..k], ms[k].device) != Created && LastWord(ms[..k], ms[k].origin) != Deleted
  {
    hide DeliverAll, LastWord, NoIds;
    PrefixOk(p, ms, k);
    DevicesAfter(p, ms, k);
  }

  lemma StaysAfter(p: Pool, ms: seq<Message>, k: nat, cut: nat, d: nat)
    requires NoIds(ms) && DeliverAll(p, ms).ok && k < |ms| && ms[k].CreateSnap? && ms[k].device == d && cut == k + 1
    ensures DeliverAll(p, ms[..cut]).ok && d in DeliverAll(p, ms[..cut]).pool.devices
  {
    PrefixOk(p, ms, cut);
    PrefixOk(p, ms, k);
    DeliverSnoc(p, ms, k);
  }

  lemma GoneAfter(p: Pool, ms: seq<Message>, j: nat, o: nat)
    requires NoIds(ms) && DeliverAll(p, ms).ok && j < |ms| && ms[j] == Delete(o)
    ensures DeliverAll(p, ms[..j + 1]).ok && o !in DeliverAll(p, ms[..j + 1]).pool.devices
  {
    PrefixOk(p, ms, j + 1);
    PrefixOk(p, ms, j);
    DeliverSnoc(p, ms, j);
  }

  lemma SnapFails(q: Pool, ms: seq<Message>, k: nat)
    requires NoIds(ms) && k < |ms| && ms[k].CreateSnap?
    requires (LastWord(ms[..k], ms[k].device) == Silent && ms[k].device in q.devices)
          || (LastWord(ms[..k], ms[k].origin) == Silent && ms[k].origin !in q.devices)
    ensures !DeliverAll(q, ms).ok
  {
    if DeliverAll(q, ms).ok {
      PrefixOk(q, ms, k);
      DevicesAfter(q, ms, k);
    }
  }

  /** The transaction survives every interruption exactly if its messages are
      recoverable. */
  lemma CrashSafeIff(p: Pool, seg: Segment)
    requires Plan(p, seg) && Send(p, seg, true).ok
    ensures (forall ks :: Send(Cuts(p, seg, ks), seg, true).ok) <==> Recoverable(Body(seg))
  {
    hide Recoverable, Send, Cuts;
    if Recoverable(Body(seg)) {
      forall ks
        ensures Send(Cuts(p, seg, ks), seg, true).ok
      {
        CrashSafe(p, seg, ks);
      }
    } else {
      var cut := NotCrashSafe(p, seg);
      OneCut(p, seg, cut);
    }
  }

  lemma OneCut(p: Pool, seg: Segment, k: nat)
    ensures Cuts(p, seg, [k]) == Cut(p, seg, k)
  {
    assert [k][1..] == [];
    assert Cuts(Cut(p, seg, k), seg, []) == Cut(p, seg, k);
  }
}
