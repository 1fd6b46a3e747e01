/** The cursor of libdm-stats.c: walking the areas, regions and groups of a listing. */
module StatsWalk {
  import opened StatsTable

  const NOT_PRESENT: nat := 0xFFFF_FFFF_FFFF_FFFF
  const WALK_REGION: nat := 0x2_0000_0000_0000
  const WALK_GROUP: nat := 0x4_0000_0000_0000

  datatype Flags = Flags(area: bool, region: bool, group: bool, skip: bool) {
    predicate Ended() { !area && !region && !group }
  }

  datatype Cursor = Cursor(flags: Flags, r: nat, a: nat, g: nat)

  /** What a cursor can stand on. */
  datatype Object = Nothing | Area(region: nat, area: nat) | WholeRegion(region: nat) | WholeGroup(group: nat)

  /** 64-bit increment. */
  function Inc(x: nat): nat {
    if x == NOT_PRESENT then 0 else x + 1
  }

  // ---- the table as the walk sees it ----

  predicate Present(t: Table, i: nat) {
    i < |t.regions| && t.regions[i].Region?
  }

  predicate GroupPresent(t: Table, g: nat) {
    g < |t.groups| && t.groups[g].Group?
  }

  predicate Grouped(t: Table, i: nat) {
    Present(t, i) && t.regions[i].group.Some?
  }

  /** _nr_areas, with its 64-bit sum. */
  function NrAreas(len: nat, step: nat): nat {
    if len == 0 || step == 0 then 1 else ((len + step - 1) % U64) / step
  }

  function Areas(t: Table, i: nat): nat
    requires Present(t, i)
  {
    NrAreas(t.regions[i].len, t.regions[i].step)
  }

  /** The areas a walk visits in a region: at least its first one. */
  function Count(t: Table, i: nat): nat
    requires Present(t, i)
  {
    if Areas(t, i) == 0 then 1 else Areas(t, i)
  }

  /** A region that the walk does not skip. */
  predicate Wanted(t: Table, f: Flags, i: nat) {
    Present(t, i) && !(f.skip && !f.area && Areas(t, i) < 2)
  }

  /** Area numbers stay below the bit that marks a whole region. */
  ghost predicate Unmarked(t: Table) {
    forall i :: Present(t, i) ==> Areas(t, i) <= WALK_REGION
  }

  function NextWanted(t: Table, f: Flags, i: nat): (j: nat)
    ensures i <= |t.regions| ==> i <= j <= |t.regions|
    ensures j < |t.regions| ==> Wanted(t, f, j)
    ensures forall k :: i <= k < j ==> !Wanted(t, f, k)
    decreases |t.regions| - i
  {
    if i >= |t.regions| then |t.regions| else if Wanted(t, f, i) then i else NextWanted(t, f, i + 1)
  }

  function NextGroup(t: Table, g: nat): (h: nat)
    ensures g <= |t.groups| ==> g <= h <= |t.groups|
    ensures h < |t.groups| ==> GroupPresent(t, h)
    ensures forall k :: g <= k < h ==> !GroupPresent(t, k)
    decreases |t.groups| - g
  {
    if g >= |t.groups| then |t.groups| else if GroupPresent(t, g) then g else NextGroup(t, g + 1)
  }

  // ---- the code ----

  /** _stats_walk_next_present */
  method NextPresent(t: Table, c: Cursor) returns (n: Cursor)
    requires Listed(t) && (c.r == NOT_PRESENT || (c.r < |t.regions| && Present(t, c.r)))
    ensures n == if c.r != NOT_PRESENT && c.flags.area && Inc(c.a) < Areas(t, c.r) then c.(a := Inc(c.a))
                 else c.(r := NextWanted(t, c.flags, Inc(c.r)),
                         a := if c.r != NOT_PRESENT && c.flags.area then 0 else c.a)
  {
    hide NrAreas;
    n := c;
    if n.r != NOT_PRESENT && n.flags.area {
      n := n.(a := Inc(n.a));
      if n.a < Areas(t, n.r) {
        return;
      }
      n := n.(a := 0);
    }
    n := n.(r := Inc(n.r));
    ghost var first := n.r;
    while n.r < |t.regions|
      invariant n == c.(r := n.r, a := n.a) && (n.a == if c.r != NOT_PRESENT && c.flags.area then 0 else c.a)
      invariant first <= n.r <= |t.regions|
      invariant NextWanted(t, c.flags, n.r) == NextWanted(t, c.flags, first)
    {
      if !Present(t, n.r) || (n.flags.skip && !n.flags.area && Areas(t, n.r) < 2) {
        n := n.(r := Inc(n.r));
        continue;
      }
      break;
    }
  }

  /** The number of areas has 64 bits. */
  lemma FewAreas(t: Table, i: nat)
    requires Present(t, i)
    ensures Areas(t, i) <= NOT_PRESENT
  {
    var len, step := t.regions[i].len, t.regions[i].step;
    if len != 0 && step != 0 {
      Quotient((len + step - 1) % U64, step);
    }
  }

  lemma Quotient(x: nat, y: nat)
    requires y > 0
    ensures x / y <= x
  {
    var q := x / y;
    assert x == q * y + x % y;
    Product(q, y);
  }

  lemma {:induction false} Product(q: nat, y: nat)
    requires y > 0
    ensures q <= q * y
    decreases y
  {
    if y > 1 {
      Product(q, y - 1);
      assert q * y == q * (y - 1) + q;
    }
  }

  /** _stats_walk_next */
  method Next(t: Table, c: Cursor) returns (n: Cursor)
    requires Listed(t) && OnObject(t, c)
    ensures n == NextOf(t, c)
  {
    hide NrAreas, NextWanted;
    if c.flags.area {
      FewAreas(t, c.r);
      n := NextPresent(t, c);
    } else if c.flags.region {
      n := NextPresent(t, c.(a := WALK_REGION));
    } else {
      n := c.(r := WALK_GROUP, a := WALK_GROUP, g := Inc(c.g));
      while !GroupPresent(t, n.g) && n.g < |t.regions|
        invariant n == c.(r := WALK_GROUP, a := WALK_GROUP, g := n.g)
        invariant c.g < n.g <= |t.groups| && NextGroup(t, n.g) == NextGroup(t, c.g + 1)
        decreases |t.regions| - n.g
      {
        n := n.(g := Inc(n.g));
      }
    }
  }

  /** _group_walk_start: to the first region that is in a group. */
  method GroupStart(t: Table, c: Cursor) returns (n: Cursor)
    requires Listed(t) && c.flags == Flags(false, false, c.flags.group, c.flags.skip)
    ensures n.flags == c.flags.(group := c.flags.group && NextGroup(t, 0) < |t.groups|)
    ensures n.flags.group ==> n == Cursor(n.flags, WALK_GROUP, WALK_GROUP, NextGroup(t, 0))
  {
    n := c;
    if !c.flags.group {
      return;
    }
    n := n.(r := WALK_GROUP, a := WALK_GROUP, g := 0);
    while n.g < |t.regions|
      invariant n == Cursor(c.flags, WALK_GROUP, WALK_GROUP, n.g) && n.g <= |t.regions|
      invariant forall k :: 0 <= k < n.g ==> !Grouped(t, k)
    {
      if Grouped(t, n.g) {
        break;
      }
      n := n.(g := Inc(n.g));
    }
    FirstGrouped(t, n.g);
    if n.g >= |t.regions| {
      n := n.(flags := n.flags.(group := false));
    }
  }

  /** The first grouped region leads the first group. */
  lemma FirstGrouped(t: Table, i: nat)
    requires Listed(t) && i <= |t.regions|
    requires forall k :: 0 <= k < i ==> !Grouped(t, k)
    requires i < |t.regions| ==> Grouped(t, i)
    ensures NextGroup(t, 0) == i
  {
    var h := NextGroup(t, 0);
    if h < |t.groups| {
      LeaderIsGrouped(t, h);
    }
    if i < |t.regions| {
      assert GroupOk(t, i);
      var g := t.regions[i].group.value;
      assert MembersOk(t, g);
      LeaderIsGrouped(t, g);
      assert GroupPresent(t, i);
    }
  }

  lemma LeaderIsGrouped(t: Table, g: nat)
    requires Listed(t) && GroupPresent(t, g)
    ensures Grouped(t, g)
  {
    assert MembersOk(t, g);
    assert GroupOk(t, g);
  }

  /** _stats_walk_any_unskipped */
  method AnyUnskipped(t: Table, c: Cursor) returns (any: bool)
    ensures any <==> NextWanted(t, c.flags, c.r) < |t.regions|
  {
    if c.r >= |t.regions| {
      return false;
    }
    var i := c.r;
    while i < |t.regions|
      invariant c.r <= i <= |t.regions| && NextWanted(t, c.flags, i) == NextWanted(t, c.flags, c.r)
    {
      if Present(t, i) && !(c.flags.skip && !c.flags.area && Areas(t, i) < 2) {
        return true;
      }
      i := i + 1;
    }
    return false;
  }

  // ---- where a walk stands and what is left of it ----

  /** The cursor is on something to visit. */
  ghost predicate OnObject(t: Table, c: Cursor) {
    if c.flags.area then Present(t, c.r) && c.a < Count(t, c.r)
    else if c.flags.region then Wanted(t, c.flags, c.r) && c.a == WALK_REGION
    else c.flags.group && GroupPresent(t, c.g) && c.r == c.a == WALK_GROUP
  }

  /** The cursor is on something to visit, or at the end of the current kind of object. */
  ghost predicate Placed(t: Table, c: Cursor) {
    && (c.flags.area || c.flags.region ==> c.r <= |t.regions| && (c.r < |t.regions| ==> OnObject(t, c)))
    && (!c.flags.area && !c.flags.region && c.flags.group ==>
          c.g <= |t.groups| && c.r == c.a == WALK_GROUP && (c.g < |t.groups| ==> OnObject(t, c)))
  }

  ghost function NextOf(t: Table, c: Cursor): Cursor
    requires OnObject(t, c)
  {
    if c.flags.area then
      if c.a + 1 < Areas(t, c.r) then c.(a := c.a + 1)
      else c.(r := NextWanted(t, c.flags, c.r + 1), a := 0)
    else if c.flags.region then c.(r := NextWanted(t, c.flags, c.r + 1))
    else c.(g := NextGroup(t, c.g + 1))
  }

  /** dm_stats_object_type with the object it names. */
  function Current(t: Table, c: Cursor): Object {
    if c.r == NOT_PRESENT then Nothing
    else if (c.r / WALK_GROUP) % 2 == 1 then
      (if GroupPresent(t, c.g) then WholeGroup(c.g) else Nothing)
    else if c.r >= |t.regions| then Nothing
    else if (c.a / WALK_REGION) % 2 == 1 then WholeRegion(c.r)
    else Area(c.r, c.a)
  }

  function AreasOf(t: Table, i: nat, a: nat): seq<Object>
    requires Present(t, i)
    decreases Count(t, i) - a
  {
    if a >= Count(t, i) then [] else [Area(i, a)] + AreasOf(t, i, a + 1)
  }

  /** All areas of the regions from i on, in lexicographic order. */
  function AreasFrom(t: Table, i: nat): seq<Object>
    decreases |t.regions| - i
  {
    if i >= |t.regions| then []
    else (if Present(t, i) then AreasOf(t, i, 0) else []) + AreasFrom(t, i + 1)
  }

  /** The regions from i on that are not skipped, ascending. */
  function RegionsFrom(t: Table, f: Flags, i: nat): seq<Object>
    decreases |t.regions| - i
  {
    if i >= |t.regions| then []
    else (if Wanted(t, f, i) then [WholeRegion(i)] else []) + RegionsFrom(t, f, i + 1)
  }

  /** The groups from g on, ascending. */
  function GroupsFrom(t: Table, g: nat): seq<Object>
    decreases |t.groups| - g
  {
    if g >= |t.groups| then []
    else (if GroupPresent(t, g) then [WholeGroup(g)] else []) + GroupsFrom(t, g + 1)
  }

  /** Everything a walk with these flags is to visit. */
  function Expected(t: Table, f: Flags): seq<Object> {
    (if f.area then AreasFrom(t, 0) else [])
    + (if f.region then RegionsFrom(t, f.(area := false), 0) else [])
    + (if f.group then GroupsFrom(t, 0) else [])
  }

  /** The areas left from the cursor on. */
  ghost function AreasLeft(t: Table, r: nat, a: nat): seq<Object>
    requires r < |t.regions| ==> Present(t, r)
  {
    if r < |t.regions| then AreasOf(t, r, a) + AreasFrom(t, r + 1) else []
  }

  /** What is left to visit. */
  ghost function Rest(t: Table, c: Cursor): seq<Object>
    requires Placed(t, c)
  {
    if c.flags.area then AreasLeft(t, c.r, c.a) + Expected(t, c.flags.(area := false))
    else if c.flags.region then
      RegionsFrom(t, c.flags, c.r) + Expected(t, c.flags.(region := false))
    else if c.flags.group then GroupsFrom(t, c.g)
    else []
  }

  // ---- the end of a kind of object ----

  lemma {:induction false} SkipToWanted(t: Table, f: Flags, i: nat)
    requires i <= |t.regions|
    ensures RegionsFrom(t, f, i) == RegionsFrom(t, f, NextWanted(t, f, i))
    decreases |t.regions| - i
  {
    hide Wanted;
    if i < |t.regions| && !Wanted(t, f, i) {
      SkipToWanted(t, f, i + 1);
    }
  }

  lemma {:induction false} SkipToPresent(t: Table, f: Flags, i: nat)
    requires i <= |t.regions| && f.area
    ensures AreasFrom(t, i) == AreasFrom(t, NextWanted(t, f, i))
    decreases |t.regions| - i
  {
    hide AreasOf;
    if i < |t.regions| && !Wanted(t, f, i) {
      SkipToPresent(t, f, i + 1);
    }
  }

  lemma {:induction false} SkipToGroup(t: Table, g: nat)
    requires g <= |t.groups|
    ensures GroupsFrom(t, g) == GroupsFrom(t, NextGroup(t, g))
    decreases |t.groups| - g
  {
    if g < |t.groups| && !GroupPresent(t, g) {
      SkipToGroup(t, g + 1);
    }
  }

  lemma NoMoreGroups(t: Table)
    ensures NextGroup(t, 0) >= |t.groups| ==> GroupsFrom(t, 0) == []
  {
    SkipToGroup(t, 0);
  }

  lemma NoMoreRegions(t: Table, f: Flags)
    ensures NextWanted(t, f, 0) >= |t.regions| ==> RegionsFrom(t, f, 0) == []
  {
    SkipToWanted(t, f, 0);
  }

  // ---- starting, ending, moving on ----

  /** _stats_walk_start */
  method Start(t: Table, flags: Flags) returns (c: Cursor)
    requires Listed(t)
    ensures Placed(t, c) && Rest(t, c) == Expected(t, flags)
    ensures c.flags == flags || (!flags.area && !flags.region && c.flags == flags.(group := false))
  {
    hide Wanted, Listed, NrAreas, AreasOf, AreasFrom, RegionsFrom, GroupsFrom;
    c := Cursor(flags, NOT_PRESENT, 0, NOT_PRESENT);
    if !flags.area && !flags.region {
      c := GroupStart(t, c);
      NoMoreGroups(t);
      SkipToGroup(t, 0);
      return;
    }
    if !flags.area {
      c := c.(a := WALK_REGION);
    }
    c := NextPresent(t, c);
    StartPlaced(t, c, flags);
  }

  lemma StartPlaced(t: Table, c: Cursor, f: Flags)
    requires Listed(t) && (f.area || f.region)
    requires c == Cursor(f, NextWanted(t, f, 0), if f.area then 0 else WALK_REGION, NOT_PRESENT)
    ensures Placed(t, c) && Rest(t, c) == Expected(t, f)
  {
    hide NrAreas, AreasOf, NextWanted, Areas, Listed, AreasFrom, RegionsFrom, GroupsFrom;
    if f.area {
      SkipToPresent(t, f, 0);
      AreasAt(t, c.r);
    } else {
      SkipToWanted(t, f, 0);
      assert f.(area := false) == f;
    }
  }

  /** _stats_walk_end_areas, once the areas are through. */
  method EndAreas(t: Table, c: Cursor) returns (n: Cursor)
    requires Listed(t) && c.flags.area && c.r == |t.regions|
    ensures Placed(t, n) && Rest(t, n) == Expected(t, c.flags.(area := false))
    ensures !n.flags.Ended() ==> OnObject(t, n)
    ensures n.flags.Ended() ==> Expected(t, c.flags.(area := false)) == []
  {
    hide Wanted, Listed, NrAreas, AreasOf, AreasFrom, RegionsFrom, GroupsFrom, NextWanted, NextGroup;
    var f := c.flags.(area := false);
    n := c.(flags := f);
    Sizes(t);
    SkipToGroup(t, 0);
    NoMoreGroups(t);
    if f.region {
      n := n.(a := WALK_REGION, r := NOT_PRESENT);
      n := NextPresent(t, n);
      NoMoreRegions(t, f);
      var any := AnyUnskipped(t, n);
      FoundOrNot(t, f, 0);
      if any {
        RegionsPlaced(t, n, f);
        return;
      }
      n := n.(flags := n.flags.(region := false));
      if !n.flags.group {
        n := n.(r := |t.regions| - 1);
      }
    }
    if n.flags.group {
      n := GroupStart(t, n);
    }
    AfterRegions(t, n, f);
  }

  lemma Sizes(t: Table)
    requires Listed(t)
    ensures 0 < |t.regions| == |t.groups| <= INT_MAX + 1
  {
  }

  lemma FoundOrNot(t: Table, f: Flags, i: nat)
    requires i <= |t.regions|
    ensures var j := NextWanted(t, f, i); NextWanted(t, f, j) == j
  {
  }

  lemma RegionsPlaced(t: Table, n: Cursor, f: Flags)
    requires Listed(t) && !f.area && f.region && n.flags == f && n.a == WALK_REGION
    requires n.r == NextWanted(t, f, 0) < |t.regions|
    ensures Placed(t, n) && OnObject(t, n) && Rest(t, n) == Expected(t, f)
  {
    hide NrAreas, AreasOf, AreasFrom, GroupsFrom, RegionsFrom, NextWanted, Listed;
    SkipToWanted(t, f, 0);
    assert f.(area := false) == f;
  }

  /** Behind the regions come the groups, if there are any. */
  lemma AfterRegions(t: Table, n: Cursor, f: Flags)
    requires |t.regions| == |t.groups| && !f.area && (f.region ==> RegionsFrom(t, f, 0) == [])
    requires n.flags == Flags(false, false, f.group && NextGroup(t, 0) < |t.groups|, f.skip)
    requires n.flags.group ==> n.r == n.a == WALK_GROUP && n.g == NextGroup(t, 0)
    ensures Placed(t, n) && Rest(t, n) == Expected(t, f)
    ensures !n.flags.Ended() ==> OnObject(t, n)
    ensures n.flags.Ended() ==> Expected(t, f) == []
  {
    hide RegionsFrom, GroupsFrom, AreasFrom, AreasOf;
    SkipToGroup(t, 0);
    NoMoreGroups(t);
    assert f.(area := false) == f;
  }

  /** _stats_walk_end: reports the end exactly when nothing is left, and otherwise stands
      on the next object, having gone on to the next kind if need be. */
  method End(t: Table, c: Cursor) returns (done: bool, n: Cursor)
    requires Listed(t) && Placed(t, c)
    ensures done ==> Rest(t, c) == []
    ensures !done ==> Placed(t, n) && OnObject(t, n) && Rest(t, n) == Rest(t, c)
  {
    hide Wanted, Listed, NrAreas, AreasOf, AreasFrom, RegionsFrom, GroupsFrom, NextWanted, NextGroup;
    n := c;
    Sizes(t);
    if c.flags.area {
      var any := AnyUnskipped(t, c);
      PlacedFound(t, c);
      if !any {
        n := EndAreas(t, c);
      }
    } else if c.flags.region {
      var any := AnyUnskipped(t, c);
      PlacedFound(t, c);
      if !any {
        RegionsThrough(t, c);
        n := GroupStart(t, c.(flags := c.flags.(region := false)));
        AfterRegions(t, n, c.flags.(region := false));
      }
    } else if c.flags.group {
      if c.g >= |t.regions| {
        n := n.(flags := n.flags.(group := false));
        GroupsThrough(t, c);
      }
    }
    done := n.flags.Ended();
  }

  lemma PlacedFound(t: Table, c: Cursor)
    requires Listed(t) && Placed(t, c) && (c.flags.area || c.flags.region)
    ensures NextWanted(t, c.flags, c.r) < |t.regions| <==> c.r < |t.regions|
    ensures |t.regions| == |t.groups|
    ensures c.flags.area && c.r == |t.regions| ==> Rest(t, c) == Expected(t, c.flags.(area := false))
  {
    hide NrAreas, AreasOf, AreasFrom, RegionsFrom, GroupsFrom;
  }

  lemma RegionsThrough(t: Table, c: Cursor)
    requires Placed(t, c) && !c.flags.area && c.flags.region && c.r == |t.regions|
    ensures Rest(t, c) == Expected(t, c.flags.(region := false))
  {
    hide NrAreas, AreasOf, AreasFrom, GroupsFrom;
  }

  lemma GroupsThrough(t: Table, c: Cursor)
    requires Listed(t) && Placed(t, c) && !c.flags.area && !c.flags.region && c.flags.group && c.g >= |t.regions|
    ensures Rest(t, c) == []
  {
  }

  /** The object under the cursor. */
  ghost function Under(c: Cursor): Object {
    if c.flags.area then Area(c.r, c.a) else if c.flags.region then WholeRegion(c.r) else WholeGroup(c.g)
  }

  /** What dm_stats_object_type makes of an object: an area number with the bit of a
      whole region is taken for the region. */
  function Reported(o: Object): Object {
    if o.Area? && (o.area / WALK_REGION) % 2 == 1 then WholeRegion(o.region) else o
  }

  /** Moving on leaves exactly what was behind the object under the cursor. */
  lemma NextRest(t: Table, c: Cursor)
    requires Listed(t) && OnObject(t, c) && Placed(t, c)
    ensures Placed(t, NextOf(t, c))
    ensures Rest(t, c) == [Under(c)] + Rest(t, NextOf(t, c))
    ensures Current(t, c) == Reported(Under(c))
  {
    hide NrAreas;
    if c.flags.area {
      AreaNext(t, c);
    } else if c.flags.region {
      RegionNext(t, c);
    } else {
      GroupNext(t, c);
    }
  }

  lemma CurrentArea(t: Table, c: Cursor)
    requires Listed(t) && OnObject(t, c) && c.flags.area
    ensures Current(t, c) == Reported(Area(c.r, c.a))
  {
    hide NrAreas;
    SmallNumbers(c.r, c.a);
  }

  lemma AreaPlaced(t: Table, c: Cursor)
    requires Listed(t) && OnObject(t, c) && c.flags.area
    ensures Placed(t, NextOf(t, c))
  {
    hide NrAreas;
  }

  lemma AreaNext(t: Table, c: Cursor)
    requires Listed(t) && OnObject(t, c) && Placed(t, c) && c.flags.area
    ensures Placed(t, NextOf(t, c))
    ensures Rest(t, c) == [Area(c.r, c.a)] + Rest(t, NextOf(t, c)) && Current(t, c) == Reported(Area(c.r, c.a))
  {
    hide NextOf, OnObject, Current, AreasLeft, Expected, Listed, Reported;
    CurrentArea(t, c);
    AreaPlaced(t, c);
    AreasLeftNext(t, c);
    var n := NextOf(t, c);
    CatObjects([Area(c.r, c.a)], AreasLeft(t, n.r, n.a), Expected(t, c.flags.(area := false)));
  }

  lemma AreasLeftNext(t: Table, c: Cursor)
    requires Listed(t) && OnObject(t, c) && c.flags.area
    ensures var n := NextOf(t, c);
            && n.flags == c.flags && (n.r < |t.regions| ==> Present(t, n.r))
            && AreasLeft(t, c.r, c.a) == [Area(c.r, c.a)] + AreasLeft(t, n.r, n.a)
  {
    hide NrAreas, AreasFrom, NextWanted, Listed;
    assert AreasOf(t, c.r, c.a) == [Area(c.r, c.a)] + AreasOf(t, c.r, c.a + 1);
    if c.a + 1 < Areas(t, c.r) {
      CatObjects([Area(c.r, c.a)], AreasOf(t, c.r, c.a + 1), AreasFrom(t, c.r + 1));
    } else {
      LastArea(t, c.r, c.a);
      SkipToPresent(t, c.flags, c.r + 1);
      AreasAt(t, NextWanted(t, c.flags, c.r + 1));
    }
  }

  lemma AreasAt(t: Table, j: nat)
    ensures j < |t.regions| && Present(t, j) ==> AreasFrom(t, j) == AreasOf(t, j, 0) + AreasFrom(t, j + 1)
    ensures j >= |t.regions| ==> AreasFrom(t, j) == []
  {
    hide AreasOf;
  }

  lemma LastArea(t: Table, i: nat, a: nat)
    requires Present(t, i) && a < Count(t, i) && a + 1 >= Areas(t, i)
    ensures AreasOf(t, i, a + 1) == []
  {
  }

  lemma CatObjects(a: seq<Object>, b: seq<Object>, c: seq<Object>)
    ensures a + b + c == a + (b + c)
  {
  }

  /** Region and area numbers have neither of the two marker bits. */
  lemma SmallNumbers(r: nat, a: nat)
    ensures r <= INT_MAX ==> (r / WALK_GROUP) % 2 == 0
    ensures a < WALK_REGION ==> (a / WALK_REGION) % 2 == 0
    ensures (WALK_GROUP / WALK_GROUP) % 2 == 1 && (WALK_REGION / WALK_REGION) % 2 == 1
  {
  }

  lemma RegionNext(t: Table, c: Cursor)
    requires Listed(t) && OnObject(t, c) && Placed(t, c) && !c.flags.area && c.flags.region
    ensures Placed(t, NextOf(t, c))
    ensures Rest(t, c) == [WholeRegion(c.r)] + Rest(t, NextOf(t, c)) && Current(t, c) == WholeRegion(c.r)
  {
    hide NrAreas;
    SmallNumbers(c.r, 0);
    SkipToWanted(t, c.flags, c.r + 1);
    var later := Expected(t, c.flags.(region := false));
    assert RegionsFrom(t, c.flags, c.r) == [WholeRegion(c.r)] + RegionsFrom(t, c.flags, c.r + 1);
    hide RegionsFrom, Expected, NextWanted;
    CatObjects([WholeRegion(c.r)], RegionsFrom(t, c.flags, c.r + 1), later);
  }

  lemma GroupNext(t: Table, c: Cursor)
    requires Listed(t) && OnObject(t, c) && Placed(t, c) && !c.flags.area && !c.flags.region
    ensures Placed(t, NextOf(t, c))
    ensures Rest(t, c) == [WholeGroup(c.g)] + Rest(t, NextOf(t, c)) && Current(t, c) == WholeGroup(c.g)
  {
    hide NrAreas, NextGroup, Listed, Listed;
    SmallNumbers(0, 0);
    assert GroupsFrom(t, c.g) == [WholeGroup(c.g)] + GroupsFrom(t, c.g + 1);
    hide GroupsFrom;
    SkipToGroup(t, c.g + 1);
  }

  // ---- what is expected, said without recursion ----

  /** Areas before regions before groups, each kind in ascending order. */
  predicate Before(x: Object, y: Object) {
    match x
    case Nothing => false
    case Area(r, a) => !y.Nothing? && (y.Area? ==> r < y.region || (r == y.region && a < y.area))
    case WholeRegion(r) => (y.WholeRegion? && r < y.region) || y.WholeGroup?
    case WholeGroup(g) => y.WholeGroup? && g < y.group
  }

  ghost predicate Sorted(s: seq<Object>) {
    forall i, j :: 0 <= i < j < |s| ==> Before(s[i], s[j])
  }

  lemma SortedCat(a: seq<Object>, b: seq<Object>)
    requires Sorted(a) && Sorted(b) && forall x, y :: x in a && y in b ==> Before(x, y)
    ensures Sorted(a + b)
  {
    hide Before;
    forall i, j | 0 <= i < j < |a + b|
      ensures Before((a + b)[i], (a + b)[j])
    {
      if j >= |a| && i < |a| {
        assert a[i] in a && b[j - |a|] in b;
      } else if i >= |a| {
        assert (a + b)[i] == b[i - |a|] && (a + b)[j] == b[j - |a|];
      }
    }
  }

  lemma {:induction false} AreasOfSorted(t: Table, i: nat, a: nat)
    requires Present(t, i)
    ensures Sorted(AreasOf(t, i, a))
    ensures forall o :: o in AreasOf(t, i, a) <==> o.Area? && o.region == i && a <= o.area < Count(t, i)
    decreases Count(t, i) - a
  {
    hide NrAreas;
    if a < Count(t, i) {
      AreasOfSorted(t, i, a + 1);
      SortedCat([Area(i, a)], AreasOf(t, i, a + 1));
    }
  }

  lemma {:induction false} AreasFromSorted(t: Table, i: nat)
    ensures Sorted(AreasFrom(t, i))
    ensures forall o :: o in AreasFrom(t, i) <==>
              o.Area? && i <= o.region && Present(t, o.region) && o.area < Count(t, o.region)
    decreases |t.regions| - i
  {
    hide NrAreas, AreasOf;
    if i < |t.regions| {
      AreasFromSorted(t, i + 1);
      if Present(t, i) {
        AreasOfSorted(t, i, 0);
        SortedCat(AreasOf(t, i, 0), AreasFrom(t, i + 1));
      }
    }
  }

  lemma {:induction false} RegionsFromHas(t: Table, f: Flags, i: nat, o: Object)
    ensures o in RegionsFrom(t, f, i) <==> o.WholeRegion? && i <= o.region && Wanted(t, f, o.region)
    decreases |t.regions| - i
  {
    hide NrAreas;
    if i < |t.regions| {
      RegionsFromHas(t, f, i + 1, o);
    }
  }

  lemma {:induction false} RegionsFromSorted(t: Table, f: Flags, i: nat)
    ensures Sorted(RegionsFrom(t, f, i))
    decreases |t.regions| - i
  {
    hide Wanted;
    if i < |t.regions| {
      RegionsFromSorted(t, f, i + 1);
      if Wanted(t, f, i) {
        forall y | y in RegionsFrom(t, f, i + 1) ensures Before(WholeRegion(i), y) {
          RegionsFromHas(t, f, i + 1, y);
        }
        SortedCat([WholeRegion(i)], RegionsFrom(t, f, i + 1));
      }
    }
  }

  lemma {:induction false} GroupsFromSorted(t: Table, g: nat)
    ensures Sorted(GroupsFrom(t, g))
    ensures forall o :: o in GroupsFrom(t, g) <==> o.WholeGroup? && g <= o.group && GroupPresent(t, o.group)
    decreases |t.groups| - g
  {
    if g < |t.groups| {
      GroupsFromSorted(t, g + 1);
      if GroupPresent(t, g) {
        SortedCat([WholeGroup(g)], GroupsFrom(t, g + 1));
      }
    }
  }

  /** A walk is in ascending order, so nothing comes twice, and has exactly the objects
      its flags ask for. */
  lemma ExpectedObjects(t: Table, f: Flags)
    ensures Sorted(Expected(t, f))
    ensures forall o :: o in Expected(t, f) <==>
              match o
              case Nothing => false
              case Area(r, a) => f.area && Present(t, r) && a < Count(t, r)
              case WholeRegion(r) => f.region && Present(t, r) && !(f.skip && Areas(t, r) < 2)
              case WholeGroup(g) => f.group && GroupPresent(t, g)
  {
    hide NrAreas, AreasFrom, RegionsFrom, GroupsFrom;
    AreasFromSorted(t, 0);
    RegionsFromSorted(t, f.(area := false), 0);
    forall o ensures o in RegionsFrom(t, f.(area := false), 0) <==>
                     o.WholeRegion? && Wanted(t, f.(area := false), o.region) {
      RegionsFromHas(t, f.(area := false), 0, o);
    }
    GroupsFromSorted(t, 0);
    var a := if f.area then AreasFrom(t, 0) else [];
    var b := if f.region then RegionsFrom(t, f.(area := false), 0) else [];
    var c := if f.group then GroupsFrom(t, 0) else [];
    SortedCat(a, b);
    SortedCat(a + b, c);
  }

  // ---- the areas of a region ----

  /** The length and step of a region describe areas: both are set and their sum does not
      leave 64 bits. */
  predicate Divided(len: nat, step: nat) {
    0 < len && 0 < step && len + step - 1 < 0x1_0000_0000_0000_0000
  }

  lemma Multiple(a: nat, b: nat, y: nat)
    requires a <= b
    ensures a * y <= b * y
  {
    assert b * y - a * y == (b - a) * y;
  }

  /** Rounding up: q is the quotient of x + y - 1 by y. */
  lemma RoundedUp(x: nat, y: nat, q: nat)
    requires 0 < x && 0 < y && q == (x + y - 1) / y
    ensures q > 0 && (q - 1) * y < x <= q * y
  {
    var z := x + y - 1;
    assert z == q * y + z % y;
    assert (q - 1) * y == q * y - y;
  }

  /** The number of areas is the smallest that covers the region. Without a length or a
      step there is one, and none is counted if the sum wraps round. */
  lemma AreasAreEnough(len: nat, step: nat)
    requires len < 0x1_0000_0000_0000_0000 && step < 0x1_0000_0000_0000_0000
    ensures Divided(len, step) ==>
              var n := NrAreas(len, step); n > 0 && (n - 1) * step < len <= n * step
    ensures len == 0 || step == 0 ==> NrAreas(len, step) == 1
    ensures len > 0 && step > 0 && !Divided(len, step) ==> NrAreas(len, step) == 0
  {
    if Divided(len, step) {
      RoundedUp(len, step, NrAreas(len, step));
    } else if len > 0 && step > 0 {
      var z := len + step - 1;
      assert z % U64 == z - U64 < step;
    }
  }

  lemma BelowCount(len: nat, step: nat, n: nat, a: nat)
    requires step > 0 && n > 0 && (n - 1) * step < len <= n * step
    ensures a < n <==> a * step < len
  {
    if a < n {
      Multiple(a, n - 1, step);
    } else {
      Multiple(n, a, step);
    }
  }

  /** A walk over areas visits exactly the areas that begin inside a region, or only the
      first one where the length and step do not describe areas. */
  lemma VisitedAreas(t: Table, f: Flags, r: nat, a: nat)
    requires f.area && Present(t, r)
    requires t.regions[r].len < 0x1_0000_0000_0000_0000 && t.regions[r].step < 0x1_0000_0000_0000_0000
    ensures var len, step := t.regions[r].len, t.regions[r].step;
            Area(r, a) in Expected(t, f) <==> if Divided(len, step) then a * step < len else a == 0
  {
    hide Expected, NrAreas;
    ExpectedObjects(t, f);
    var len, step := t.regions[r].len, t.regions[r].step;
    AreasAreEnough(len, step);
    if Divided(len, step) {
      BelowCount(len, step, NrAreas(len, step), a);
    }
  }

  lemma InOneArea(x: nat, y: nat, a: nat)
    requires y > 0
    ensures a * y <= x < a * y + y <==> a == x / y
  {
    var q := x / y;
    assert x == q * y + x % y;
    if a < q {
      Multiple(a + 1, q, y);
      assert (a + 1) * y == a * y + y;
    } else if a > q {
      Multiple(q + 1, a, y);
      assert (q + 1) * y == q * y + y;
    }
  }

  /** Every sector of such a region lies in exactly one of the areas that are visited. */
  lemma SectorsAreCovered(t: Table, f: Flags, r: nat, x: nat)
    requires f.area && Present(t, r) && Divided(t.regions[r].len, t.regions[r].step) && x < t.regions[r].len
    ensures var step := t.regions[r].step;
            && Area(r, x / step) in Expected(t, f)
            && forall a: nat :: a * step <= x < a * step + step <==> a == x / step
  {
    hide Expected;
    var len, step := t.regions[r].len, t.regions[r].step;
    forall a: nat ensures a * step <= x < a * step + step <==> a == x / step {
      InOneArea(x, step, a);
    }
    VisitedAreas(t, f, r, x / step);
  }

  /** A region counts as having several areas exactly if it is longer than its step. */
  lemma SeveralAreas(len: nat, step: nat)
    requires len < 0x1_0000_0000_0000_0000 && step < 0x1_0000_0000_0000_0000
    ensures NrAreas(len, step) < 2 <==> !(Divided(len, step) && len > step)
  {
    hide NrAreas;
    AreasAreEnough(len, step);
    if Divided(len, step) {
      BelowCount(len, step, NrAreas(len, step), 1);
    }
  }

  // ---- whole walks ----

  function Reports(s: seq<Object>): seq<Object> { seq(|s|, i requires 0 <= i < |s| => Reported(s[i])) }

  lemma NoReports()
    ensures Reports([]) == []
  {
  }

  lemma ReportsSnoc(s: seq<Object>, o: Object)
    ensures Reports(s + [o]) == Reports(s) + [Reported(o)]
  {
  }

  /** What is reported is what is visited, exactly if no areas are walked or all their
      numbers are below the bit of a whole region. */
  lemma ReportsAreExact(t: Table, f: Flags)
    ensures Reports(Expected(t, f)) == Expected(t, f) <==> (f.area ==> Unmarked(t))
  {
    hide NrAreas, Expected;
    ExpectedObjects(t, f);
    var s := Expected(t, f);
    if f.area ==> Unmarked(t) {
      forall i | 0 <= i < |s| ensures Reported(s[i]) == s[i] {
        assert s[i] in s;
        if s[i].Area? {
          SmallNumbers(0, s[i].area);
        }
      }
    } else {
      var r :| Present(t, r) && Areas(t, r) > WALK_REGION;
      var o := Area(r, WALK_REGION);
      assert o in s;
      var i :| 0 <= i < |s| && s[i] == o;
      SmallNumbers(0, 0);
      assert Reports(s)[i] == Reported(o);
    }
  }

  class Handle {
    const t: Table
    var walkFlags: Flags
    var cursor: Cursor

    constructor (t: Table, flags: Flags)
      ensures this.t == t && walkFlags == flags
    {
      this.t, walkFlags := t, flags;
      cursor := Cursor(flags, 0, 0, 0);
    }

    /** The loop of dm_stats_foreach_region and its kin: start, and while not at the end,
        visit and move on. It visits every area of every present region in lexicographic
        order, then every region that is not skipped, then every group, each once. */
    method Walk() returns (visited: seq<Object>)
      requires Listed(t)
      modifies this`cursor
      ensures visited == Reports(Expected(t, walkFlags))
      ensures visited == Expected(t, walkFlags) <==> (walkFlags.area ==> Unmarked(t))
    {
      hide Listed, OnObject, Placed, Rest, Expected, NextOf, Current, Reports, Reported, Unmarked, Under;
      ReportsAreExact(t, walkFlags);
      visited := [];
      cursor := Start(t, walkFlags);
      ghost var all, under := Expected(t, walkFlags), [];
      assert [] + all == all;
      NoReports();
      while true
        invariant Placed(t, cursor) && under + Rest(t, cursor) == all && visited == Reports(under)
        decreases |Rest(t, cursor)|
      {
        var done, c := End(t, cursor);
        if done {
          cursor := c.(flags := walkFlags);
          assert under + [] == under;
          return;
        }
        cursor := c;
        NextRest(t, cursor);
        CatObjects(under, [Under(cursor)], Rest(t, NextOf(t, cursor)));
        ReportsSnoc(under, Under(cursor));
        under := under + [Under(cursor)];
        visited := visited + [Current(t, cursor)];
        cursor := Next(t, cursor);
      }
    }
  }
}
