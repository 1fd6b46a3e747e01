/** The region and group tables of libdm-stats.c and the two passes that build them
    from a @stats_list response. */
module StatsTable {
  import opened Options

  const U64: nat := 0x1_0000_0000_0000_0000
  const INT_MAX: nat := 0x7FFF_FFFF

  /** A row of the region table; absent rows fill the gaps between region ids. */
  datatype Region = Absent | Region(len: nat, step: nat, group: Option<nat>)

  /** A row of the group table: the members, or no group. */
  datatype Group = NoGroup | Group(members: set<nat>)

  datatype Table = Table(regions: seq<Region>, groups: seq<Group>)

  /** One line of the response. The members are those of a group descriptor in the
      line's aux_data, if it has one. */
  datatype ListRow = ListRow(id: nat, len: nat, step: nat, members: Option<set<nat>>)

  // ---- the response ----

  predicate Ascending(rows: seq<ListRow>) {
    forall i, j :: 0 <= i < j < |rows| ==> rows[i].id < rows[j].id
  }

  predicate GoodIds(rows: seq<ListRow>) {
    rows != [] && Ascending(rows) && forall i :: 0 <= i < |rows| ==> rows[i].id <= INT_MAX
  }

  /** _stats_scan_list_response_ids: the highest region id, if the ids are in order. */
  method ScanIds(rows: seq<ListRow>) returns (r: Option<nat>)
    ensures r.Some? <==> GoodIds(rows)
    ensures r.Some? ==> r.value == rows[|rows| - 1].id
  {
    var last := 0;
    for i := 0 to |rows|
      invariant forall j :: 0 <= j < i ==> rows[j].id <= INT_MAX && rows[j].id <= last
      invariant forall j, k :: 0 <= j < k < i ==> rows[j].id < rows[k].id
      invariant i > 0 ==> last == rows[i - 1].id
    {
      var id := rows[i].id;
      if id > INT_MAX {
        return None;
      }
      if i > 0 && id <= last {
        return None;
      }
      last := id;
    }
    if |rows| == 0 {
      return None;
    }
    return Some(last);
  }

  ghost predicate HasRow(rows: seq<ListRow>, id: nat) {
    exists i :: 0 <= i < |rows| && rows[i].id == id
  }

  /** A descriptor counts only in the row of its smallest member. */
  predicate Leads(row: ListRow) {
    && row.members.Some? && row.id in row.members.value
    && forall m :: m in row.members.value ==> row.id <= m
  }

  function GroupOf(row: ListRow): Group {
    if Leads(row) then Group(row.members.value) else NoGroup
  }

  /** The group that a listing has at the id of a row: the members that have rows. */
  ghost function ListedGroup(rows: seq<ListRow>, row: ListRow): Group {
    if row.members.Some? && row.id in row.members.value && forall m :: m in row.members.value ==> row.id <= m then
      Group(set m | m in row.members.value && HasRow(rows, m))
    else NoGroup
  }

  // ---- what listing builds ----

  /** The tables agree with the rows; groups still name regions that may not exist and
      no region has been told its group. */
  ghost predicate Loaded(t: Table, rows: seq<ListRow>) {
    && |t.regions| == |t.groups|
    && (forall i :: 0 <= i < |rows| ==>
          && rows[i].id < |t.regions|
          && t.regions[rows[i].id] == Region(rows[i].len, rows[i].step, None)
          && t.groups[rows[i].id] == GroupOf(rows[i]))
    && (forall id :: 0 <= id < |t.regions| && !HasRow(rows, id) ==> t.regions[id] == Absent && t.groups[id] == NoGroup)
  }

  /** The invariant of a listing: a group's id is its smallest member and a region of
      the group, members exist, and a region belongs to the last group that names it. */
  ghost predicate Listed(t: Table) {
    && |t.regions| == |t.groups| > 0 && |t.regions| <= INT_MAX + 1
    && (forall g :: 0 <= g < |t.groups| && t.groups[g].Group? ==> MembersOk(t, g))
    && (forall i :: 0 <= i < |t.regions| && t.regions[i].Region? ==> GroupOk(t, i))
  }

  ghost predicate MembersOk(t: Table, g: nat)
    requires g < |t.groups| && t.groups[g].Group?
  {
    && g in t.groups[g].members
    && forall m :: m in t.groups[g].members ==> g <= m < |t.regions| && t.regions[m].Region?
  }

  ghost predicate GroupOk(t: Table, i: nat)
    requires i < |t.regions| == |t.groups| && t.regions[i].Region?
  {
    match t.regions[i].group
    case None => forall g :: 0 <= g < |t.groups| && t.groups[g].Group? ==> i !in t.groups[g].members
    case Some(h) =>
      && h < |t.groups| && t.groups[h].Group? && i in t.groups[h].members
      && forall g :: 0 <= g < |t.groups| && t.groups[g].Group? && i in t.groups[g].members ==> g <= h
  }

  // ---- the code ----

  class Stats {
    var t: Table

    constructor (entries: nat)
      ensures t == Table(seq(entries, _ => Absent), seq(entries, _ => NoGroup))
    {
      t := Table(seq(entries, _ => Absent), seq(entries, _ => NoGroup));
    }

    /** _stats_load_list_rows */
    method LoadRows(rows: seq<ListRow>)
      requires GoodIds(rows) && |t.regions| == |t.groups| == rows[|rows| - 1].id + 1
      requires forall i :: 0 <= i < |t.regions| ==> t.regions[i] == Absent && t.groups[i] == NoGroup
      modifies this
      ensures Loaded(t, rows) && |t.regions| == old(|t.regions|)
    {
      for n := 0 to |rows|
        invariant |t.regions| == |t.groups| == old(|t.regions|)
        invariant Loaded(t, rows[..n])
      {
        var row := rows[n];
        assert row.id <= rows[|rows| - 1].id;
        LoadStep(t, rows, n);
        t := Table(t.regions[row.id := Region(row.len, row.step, None)], t.groups[row.id := GroupOf(row)]);
      }
      assert rows[..|rows|] == rows;
    }

    /** _check_group_regions_present for every group: members that do not exist go. */
    method CheckMembers()
      requires |t.regions| == |t.groups|
      modifies this
      ensures t.regions == old(t.regions) && |t.groups| == |t.regions|
      ensures forall g :: 0 <= g < |t.groups| ==>
                t.groups[g] == Checked(old(t.groups)[g], t.regions)
    {
      for g := 0 to |t.groups|
        invariant t.regions == old(t.regions) && |t.groups| == |t.regions|
        invariant forall k :: 0 <= k < g ==> t.groups[k] == Checked(old(t.groups)[k], t.regions)
        invariant forall k :: g <= k < |t.groups| ==> t.groups[k] == old(t.groups)[k]
      {
        if t.groups[g].Group? {
          t := t.(groups := t.groups[g := Checked(t.groups[g], t.regions)]);
        }
      }
    }

    /** _stats_update_groups: every group tells its members, in ascending order of the
        group ids. */
    method UpdateGroups()
      requires Ungrouped(t)
      modifies this
      ensures t.groups == old(t.groups) && |t.regions| == |old(t.regions)|
      ensures forall i :: 0 <= i < |t.regions| ==> t.regions[i] == WithGroup(old(t), i, |t.groups|)
    {
      hide WithGroup, LastGroup;
      ghost var was := t;
      NoGroupsYet(was);
      for g := 0 to |t.groups|
        invariant t.groups == was.groups && |t.regions| == |was.regions|
        invariant forall i :: 0 <= i < |t.regions| ==> t.regions[i] == WithGroup(was, i, g)
      {
        if t.groups[g].Group? {
          TellMembers(g, was);
        } else {
          NoGroupHere(was, g);
        }
      }
    }

    /** The inner loop of _stats_update_groups over the members of one group. */
    method TellMembers(g: nat, ghost was: Table)
      requires Ungrouped(was) && t.groups == was.groups && |t.regions| == |was.regions|
      requires g < |t.groups| && t.groups[g].Group?
      requires forall i :: 0 <= i < |t.regions| ==> t.regions[i] == WithGroup(was, i, g)
      modifies this
      ensures t.groups == was.groups && |t.regions| == |was.regions|
      ensures forall i :: 0 <= i < |t.regions| ==> t.regions[i] == WithGroup(was, i, g + 1)
    {
      var members := t.groups[g].members;
      for i := 0 to |t.regions|
        invariant t.groups == was.groups && |t.regions| == |was.regions|
        invariant forall k :: 0 <= k < i ==> t.regions[k] == WithGroup(was, k, g + 1)
        invariant forall k :: i <= k < |t.regions| ==> t.regions[k] == WithGroup(was, k, g)
      {
        if i in members {
          // the finalize pass has cleared the members that are not present
          t := t.(regions := t.regions[i := t.regions[i].(group := Some(g))]);
        }
      }
    }
  }

  lemma LoadStep(t: Table, rows: seq<ListRow>, n: nat)
    requires GoodIds(rows) && n < |rows| && Loaded(t, rows[..n]) && rows[n].id < |t.regions|
    ensures var row := rows[n];
            Loaded(Table(t.regions[row.id := Region(row.len, row.step, None)], t.groups[row.id := GroupOf(row)]), rows[..n + 1])
  {
    hide GroupOf;
    var row := rows[n];
    var some := rows[..n + 1];
    var t' := Table(t.regions[row.id := Region(row.len, row.step, None)], t.groups[row.id := GroupOf(row)]);
    forall i | 0 <= i < |some|
      ensures some[i].id < |t'.regions| && t'.regions[some[i].id] == Region(some[i].len, some[i].step, None)
      ensures t'.groups[some[i].id] == GroupOf(some[i])
    {
      if i < n {
        assert some[i] == rows[..n][i] && rows[i].id < rows[n].id;
      }
    }
    forall id | 0 <= id < |t'.regions| && !HasRow(some, id)
      ensures t'.regions[id] == Absent && t'.groups[id] == NoGroup
    {
      assert id != row.id by {
        assert some[n] == row;
      }
      MoreRows(rows, n, id);
    }
  }

  lemma MoreRows(rows: seq<ListRow>, n: nat, id: nat)
    requires n < |rows|
    ensures HasRow(rows[..n], id) ==> HasRow(rows[..n + 1], id)
  {
    assert forall i :: 0 <= i < n ==> rows[..n][i] == rows[..n + 1][i];
  }

  function Checked(g: Group, regions: seq<Region>): Group {
    if g.NoGroup? then g else Group(set m | m in g.members && m < |regions| && regions[m].Region?)
  }

  /** No region has a group yet, and groups name only regions that exist. */
  ghost predicate Ungrouped(t: Table) {
    && |t.regions| == |t.groups|
    && (forall i :: 0 <= i < |t.regions| && t.regions[i].Region? ==> t.regions[i].group == None)
    && forall g, m :: 0 <= g < |t.groups| && t.groups[g].Group? && m in t.groups[g].members ==>
         m < |t.regions| && t.regions[m].Region?
  }

  /** The last of the first n groups that names region i. */
  ghost function LastGroup(groups: seq<Group>, i: nat, n: nat): Option<nat>
    requires n <= |groups|
  {
    if n == 0 then None
    else if groups[n - 1].Group? && i in groups[n - 1].members then Some(n - 1)
    else LastGroup(groups, i, n - 1)
  }

  ghost function WithGroup(t: Table, i: nat, n: nat): Region
    requires i < |t.regions| && n <= |t.groups|
  {
    if t.regions[i].Absent? then Absent else t.regions[i].(group := LastGroup(t.groups, i, n))
  }

  lemma NoGroupsYet(t: Table)
    requires Ungrouped(t)
    ensures forall i :: 0 <= i < |t.regions| ==> t.regions[i] == WithGroup(t, i, 0)
  {
  }

  lemma NoGroupHere(t: Table, g: nat)
    requires g < |t.groups| && t.groups[g].NoGroup?
    ensures forall i :: 0 <= i < |t.regions| ==> WithGroup(t, i, g + 1) == WithGroup(t, i, g)
  {
  }

  lemma {:induction false} LastGroupIs(groups: seq<Group>, i: nat, n: nat)
    requires n <= |groups|
    ensures match LastGroup(groups, i, n)
            case None => forall g :: 0 <= g < n && groups[g].Group? ==> i !in groups[g].members
            case Some(h) =>
              && h < n && groups[h].Group? && i in groups[h].members
              && forall g :: 0 <= g < n && groups[g].Group? && i in groups[g].members ==> g <= h
  {
    if n > 0 {
      LastGroupIs(groups, i, n - 1);
    }
  }

  /** The finished tables satisfy the invariant of a listing. */
  lemma FinishedIsListed(loaded: Table, checked: Table, t: Table, rows: seq<ListRow>)
    requires GoodIds(rows) && Loaded(loaded, rows) && |loaded.regions| == rows[|rows| - 1].id + 1
    requires checked.regions == loaded.regions && |checked.groups| == |loaded.groups|
    requires forall g :: 0 <= g < |checked.groups| ==> checked.groups[g] == Checked(loaded.groups[g], loaded.regions)
    requires t.groups == checked.groups && |t.regions| == |checked.regions|
    requires forall i :: 0 <= i < |t.regions| ==> t.regions[i] == WithGroup(checked, i, |checked.groups|)
    ensures Listed(t)
    ensures forall id :: 0 <= id < |t.regions| ==> (t.regions[id].Region? <==> HasRow(rows, id))
    ensures forall i :: 0 <= i < |rows| ==>
              && rows[i].id < |t.regions| == |t.groups| && t.regions[rows[i].id].Region?
              && t.regions[rows[i].id].len == rows[i].len && t.regions[rows[i].id].step == rows[i].step
  {
    hide LastGroup;
    forall g | 0 <= g < |t.groups| && t.groups[g].Group?
      ensures MembersOk(t, g)
    {
      assert HasRow(rows, g);
      var i :| 0 <= i < |rows| && rows[i].id == g;
    }
    forall i | 0 <= i < |t.regions| && t.regions[i].Region?
      ensures GroupOk(t, i)
    {
      LastGroupIs(t.groups, i, |t.groups|);
    }
    forall i | 0 <= i < |rows|
      ensures t.regions[rows[i].id].Region?
    {
      assert loaded.regions[rows[i].id].Region?;
    }
    forall id | 0 <= id < |t.regions| && t.regions[id].Region?
      ensures HasRow(rows, id)
    {
    }
  }

  /** The groups are those of the rows that lead one, each with the members that have
      rows themselves. */
  lemma FinishedGroups(loaded: Table, groups: seq<Group>, rows: seq<ListRow>)
    requires Loaded(loaded, rows) && |groups| == |loaded.groups|
    requires forall g :: 0 <= g < |groups| ==> groups[g] == Checked(loaded.groups[g], loaded.regions)
    ensures forall i :: 0 <= i < |rows| ==> rows[i].id < |groups| && groups[rows[i].id] == ListedGroup(rows, rows[i])
    ensures forall id :: 0 <= id < |groups| && !HasRow(rows, id) ==> groups[id] == NoGroup
  {
    hide ListedGroup, GroupOf;
    forall i | 0 <= i < |rows|
      ensures rows[i].id < |groups| && groups[rows[i].id] == ListedGroup(rows, rows[i])
    {
      KeptMembers(loaded, rows, rows[i]);
    }
  }

  /** The members that are cleared are those without a row. */
  lemma KeptMembers(loaded: Table, rows: seq<ListRow>, row: ListRow)
    requires Loaded(loaded, rows)
    ensures Checked(GroupOf(row), loaded.regions) == ListedGroup(rows, row)
  {
    forall m: nat ensures m < |loaded.regions| && loaded.regions[m].Region? <==> HasRow(rows, m) {
      if HasRow(rows, m) {
        var i :| 0 <= i < |rows| && rows[i].id == m;
        assert loaded.regions[rows[i].id].Region?;
      }
    }
  }

  lemma CheckedIsUngrouped(loaded: Table, checked: Table, rows: seq<ListRow>)
    requires Loaded(loaded, rows)
    requires checked.regions == loaded.regions && |checked.groups| == |loaded.groups|
    requires forall g :: 0 <= g < |checked.groups| ==> checked.groups[g] == Checked(loaded.groups[g], loaded.regions)
    ensures Ungrouped(checked)
  {
    forall i | 0 <= i < |checked.regions| && checked.regions[i].Region?
      ensures checked.regions[i].group == None
    {
      assert HasRow(rows, i);
      var k :| 0 <= k < |rows| && rows[k].id == i;
    }
  }

  /** _stats_parse_list: an empty response leaves no tables; another one fails exactly if
      the ids are not in order or too large, and otherwise builds a listing. */
  method ParseList(rows: seq<ListRow>) returns (r: Option<Table>)
    ensures r.Some? <==> rows == [] || GoodIds(rows)
    ensures rows == [] ==> r == Some(Table([], []))
    ensures r.Some? && rows != [] ==> Listed(r.value) && |r.value.regions| == rows[|rows| - 1].id + 1
    ensures r.Some? ==> forall id :: 0 <= id < |r.value.regions| ==> (r.value.regions[id].Region? <==> HasRow(rows, id))
    ensures r.Some? ==> forall i :: 0 <= i < |rows| ==>
              && rows[i].id < |r.value.regions| == |r.value.groups| && r.value.regions[rows[i].id].Region?
              && r.value.regions[rows[i].id].len == rows[i].len && r.value.regions[rows[i].id].step == rows[i].step
    ensures r.Some? ==> forall i :: 0 <= i < |rows| ==> r.value.groups[rows[i].id] == ListedGroup(rows, rows[i])
    ensures r.Some? ==> forall id :: 0 <= id < |r.value.groups| && !HasRow(rows, id) ==> r.value.groups[id] == NoGroup
  {
    if rows == [] {
      return Some(Table([], []));
    }
    hide Loaded, WithGroup, Checked, Listed, Ungrouped, Leads, GoodIds, ListedGroup, HasRow;
    var max := ScanIds(rows);
    if max == None {
      return None;
    }
    IdsExist(rows);
    var s := new Stats(max.value + 1);
    s.LoadRows(rows);
    ghost var loaded := s.t;
    LoadedSizes(loaded, rows);
    s.CheckMembers();
    ghost var checked := s.t;
    CheckedIsUngrouped(loaded, checked, rows);
    s.UpdateGroups();
    FinishedIsListed(loaded, checked, s.t, rows);
    FinishedGroups(loaded, s.t.groups, rows);
    return Some(s.t);
  }

  lemma IdsExist(rows: seq<ListRow>)
    requires GoodIds(rows)
    ensures rows != []
  {
  }

  lemma LoadedSizes(t: Table, rows: seq<ListRow>)
    requires Loaded(t, rows)
    ensures |t.regions| == |t.groups|
  {
  }
}
