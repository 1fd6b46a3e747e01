/** The group descriptor in the aux_data of a region: what _stats_set_aux sends for a
    group, and how _parse_aux_data_group takes it apart again. */
module StatsDescriptor {
  import opened Options
  import opened CStrings
  import opened ConfigWriter
  import opened StatsGroupTag
  import opened BitsetList

  // ---- searching ----

  /** strchr from index i on; the length of the text if there is none. */
  function FindChar(text: string, c: char, i: nat): (k: nat)
    requires i <= |text|
    ensures i <= k <= |text| && (k < |text| ==> text[k] == c)
    ensures forall j :: i <= j < k ==> text[j] != c
    decreases |text| - i
  {
    if i == |text| || text[i] == c then i else FindChar(text, c, i + 1)
  }

  predicate TagAt(text: string, k: nat) { k + |GROUP_TAG| <= |text| && text[k..k + |GROUP_TAG|] == GROUP_TAG }

  /** strstr for the tag from index i on. */
  function FindTag(text: string, i: nat): (k: nat)
    requires i <= |text|
    ensures i <= k <= |text| && (k < |text| ==> TagAt(text, k))
    ensures forall j :: i <= j < k ==> !TagAt(text, j)
    decreases |text| - i
  {
    if i == |text| || TagAt(text, i) then i else FindTag(text, i + 1)
  }

  lemma {:induction false} FoundChar(text: string, c: char, i: nat, k: nat)
    requires i <= k < |text| && text[k] == c && forall j :: i <= j < k ==> text[j] != c
    ensures FindChar(text, c, i) == k
    decreases k - i
  {
    if i < k {
      FoundChar(text, c, i + 1, k);
    }
  }

  // ---- the parser ----

  /** The smallest listed bit, or -1. */
  function First(rs: seq<Range>): (k: int)
    ensures k >= -1 && (k == -1 <==> rs == [])
    ensures k >= 0 ==> exists i :: 0 <= i < |rs| && rs[i].lo == k
    ensures forall i :: 0 <= i < |rs| ==> k <= rs[i].lo
  {
    if rs == [] then -1
    else
      var k, r := First(rs[..|rs| - 1]), rs[|rs| - 1];
      assert rs == rs[..|rs| - 1] + [r];
      if k < 0 || r.lo < k then r.lo else k
  }

  datatype Aux = NoGroup | BadGroup | Described(alias: Option<string>, members: seq<Range>, user: string)

  /** The alias begins one behind the tag. The terminator that ends it is written just in
      front of the colon, so that it only takes effect if the alias is that long. */
  function AliasOf(text: string, tag: nat, colon: nat, end: nat): string
    requires tag + |GROUP_TAG| <= colon < end <= |text|
  {
    if tag + |GROUP_TAG| + 1 < colon then text[tag + |GROUP_TAG| + 1..colon - 1]
    else text[tag + |GROUP_TAG| + 1..end]
  }

  function NonEmpty(s: string): Option<string> { if s == [] then None else Some(s) }

  /** A single hyphen stands for no user data. */
  function UserOf(s: string): string { if s == "-" then "" else s }

  /** The colon lies behind the tag, which has none. */
  lemma ColonBehindTag(text: string, tag: nat)
    requires TagAt(text, tag)
    ensures tag + |GROUP_TAG| <= FindChar(text, ':', tag)
  {
    var n := |GROUP_TAG|;
    assert forall j :: 0 <= j < n ==> text[tag + j] == text[tag..tag + n][j] && GROUP_TAG[j] != ':';
  }

  /** The descriptor between the positions that the searches find. */
  function AuxAt(text: string, tag: nat, colon: nat, end: nat, region: nat): (a: Aux)
    requires tag + |GROUP_TAG| <= colon < end <= |text|
    ensures !a.NoGroup?
  {
    var list := ListOf(text[colon + 1..end]);
    if list.None? || First(list.value) != region then BadGroup
    else
      Described(NonEmpty(AliasOf(text, tag, colon, end)), list.value,
                UserOf(if end < |text| then text[end + 1..] else ""))
  }

  /** _parse_aux_data_group for the region with the given id. */
  function ParseAux(text: string, region: nat): Aux {
    var tag := FindTag(text, 0);
    if tag == |text| then NoGroup
    else
      var colon := FindChar(text, ':', tag);
      ColonBehindTag(text, tag);
      if colon == |text| then BadGroup
      else AuxAt(text, tag, colon, FindChar(text, '#', colon + 1), region)
  }

  // ---- what is sent ----

  /** No user data is sent as a single hyphen. */
  function Wire(user: string): string { if user == "" then "-" else user }

  /** _stats_set_aux for a region that leads a group. */
  function Sent(bits: Bits, alias: Option<string>, user: string): string {
    TagText(bits, alias) + "#" + Wire(user)
  }

  /** A text in the form of a descriptor: pre ends at the first colon, list at the first
      separator behind it. */
  function Shape(pre: string, list: string, rest: string): string { pre + ":" + list + "#" + rest }

  lemma ShapeParts(pre: string, list: string, rest: string)
    ensures var t, colon := Shape(pre, list, rest), |pre|;
            var end := colon + 1 + |list|;
            && end < |t| && t[..colon] == pre && t[colon] == ':' && t[colon + 1..end] == list
            && t[end] == '#' && t[end + 1..] == rest
            && (forall j :: 0 <= j < colon ==> t[j] == pre[j])
            && (forall j :: colon + 1 <= j < end ==> t[j] == list[j - (colon + 1)])
  {
  }

  lemma ShapeIsFound(pre: string, list: string, rest: string)
    requires GROUP_TAG <= pre && ':' !in pre && '#' !in list
    ensures var t, colon := Shape(pre, list, rest), |pre|;
            && FindTag(t, 0) == 0 && FindChar(t, ':', 0) == colon
            && FindChar(t, '#', colon + 1) == colon + 1 + |list|
  {
    var t, colon := Shape(pre, list, rest), |pre|;
    ShapeParts(pre, list, rest);
    hide FindChar, FindTag;
    assert TagAt(t, 0);
    FoundChar(t, ':', 0, colon);
    FoundChar(t, '#', colon + 1, colon + 1 + |list|);
    TagFirst(t);
  }

  lemma TagFirst(t: string)
    requires TagAt(t, 0)
    ensures FindTag(t, 0) == 0
  {
  }

  /** What the parser makes of a text of that form. */
  lemma ShapeIsParsed(pre: string, list: string, rest: string, region: nat)
    requires GROUP_TAG <= pre && ':' !in pre && '#' !in list
    ensures var alias := if |GROUP_TAG| + 1 < |pre| then pre[|GROUP_TAG| + 1..|pre| - 1]
                         else Shape(pre, list, rest)[|GROUP_TAG| + 1..|pre| + 1 + |list|];
            ParseAux(Shape(pre, list, rest), region) ==
            if ListOf(list).None? || First(ListOf(list).value) != region then BadGroup
            else Described(NonEmpty(alias), ListOf(list).value, UserOf(rest))
  {
    hide FindTag, FindChar, ListOf, First, Shape, AuxAt;
    var t := Shape(pre, list, rest);
    ShapeIsFound(pre, list, rest);
    ShapeParts(pre, list, rest);
    assert ParseAux(t, region) == AuxAt(t, 0, |pre|, |pre| + 1 + |list|, region);
    ShapeAux(pre, list, rest, region);
  }

  lemma ShapeAux(pre: string, list: string, rest: string, region: nat)
    requires |GROUP_TAG| <= |pre|
    ensures var t := Shape(pre, list, rest);
            var colon, end := |pre|, |pre| + 1 + |list|;
            var alias := if |GROUP_TAG| + 1 < colon then pre[|GROUP_TAG| + 1..colon - 1] else t[|GROUP_TAG| + 1..end];
            && end < |t|
            && AuxAt(t, 0, colon, end, region) ==
               if ListOf(list).None? || First(ListOf(list).value) != region then BadGroup
               else Described(NonEmpty(alias), ListOf(list).value, UserOf(rest))
  {
    hide ListOf, First, Shape;
    ShapeParts(pre, list, rest);
    var t := Shape(pre, list, rest);
    assert |GROUP_TAG| + 1 < |pre| ==> t[|GROUP_TAG| + 1..|pre| - 1] == pre[|GROUP_TAG| + 1..|pre| - 1];
  }

  // ---- when a descriptor survives ----

  lemma {:induction false} ListChars(rs: seq<Range>)
    ensures '#' !in ListText(rs)
    decreases |rs|
  {
    if rs != [] {
      RangeChars(rs[0]);
      ListTextCons(rs);
      hide RangeText, ListText;
      if |rs| > 1 {
        ListChars(rs[1..]);
      }
    }
  }

  lemma RangeChars(r: Range)
    ensures '#' !in RangeText(r)
  {
    assert forall c :: c in Digits(r.lo, false) ==> c != '#';
    assert forall c :: c in Digits(r.hi, false) ==> c != '#';
    hide Digits;
  }

  /** The first set bit is the smallest listed one. */
  lemma FirstMember(bits: Bits)
    ensures First(Ranges(bits)) == NextBit(bits, 0)
  {
    var rs := Ranges(bits);
    NextRange(bits, 0);
    RangesExact(bits);
    hide RangesFrom, NextBit, First, Covered, RunEnd;
    if rs != [] {
      var i :| 0 <= i < |rs| && rs[i].lo == First(rs);
      assert i > 0 ==> rs[0].hi + 1 < rs[i].lo;
    }
  }

  lemma QuotedShape(list: string, a: string, wire: string)
    ensures var pre := GROUP_TAG + "\"" + a + "\"";
            && GROUP_TAG <= pre && |GROUP_TAG| + 1 < |pre| && pre[|GROUP_TAG| + 1..|pre| - 1] == a
            && (':' !in a ==> ':' !in pre)
            && GROUP_TAG + AliasText(Some(a)) + list + "#" + wire == Shape(pre, list, wire)
  {
    var pre := GROUP_TAG + "\"" + a + "\"";
    assert pre[..|GROUP_TAG|] == GROUP_TAG;
    assert GROUP_TAG + ("\"" + a + "\"" + ":") + list + "#" + wire == pre + ":" + list + "#" + wire;
  }

  /** An alias without a colon is read back, unless it is empty. */
  lemma QuotedAlias(bits: Bits, a: string, user: string, region: nat)
    requires Ranges(bits) != [] && region == NextBit(bits, 0) && ':' !in a
    ensures ParseAux(Sent(bits, Some(a), user), region) ==
            Described(NonEmpty(a), Ranges(bits), if user == "-" then "" else user)
  {
    hide Ranges, ListText, ParseAux, ListOf, First, AliasText, Shape, NextBit;
    var list, pre := ListText(Ranges(bits)), GROUP_TAG + "\"" + a + "\"";
    ListReadsBack(bits);
    FirstMember(bits);
    ListChars(Ranges(bits));
    QuotedShape(list, a, Wire(user));
    ShapeIsParsed(pre, list, Wire(user), region);
  }

  /** Without an alias the member list is taken for one. */
  lemma MissingAlias(bits: Bits, user: string, region: nat)
    requires Ranges(bits) != [] && region == NextBit(bits, 0)
    ensures var r := ParseAux(Sent(bits, None, user), region);
            r.Described? && r.alias == Some(ListText(Ranges(bits)))
  {
    hide Ranges, ListText, ParseAux, ListOf, First, NextBit;
    var list := ListText(Ranges(bits));
    ListReadsBack(bits);
    FirstMember(bits);
    ListChars(Ranges(bits));
    ListRoomExact(Ranges(bits));
    NoAliasShape(list, Wire(user));
    hide Shape, AliasText;
    ShapeIsParsed(GROUP_TAG, list, Wire(user), region);
  }

  lemma NoAliasShape(list: string, wire: string)
    ensures var t := Shape(GROUP_TAG, list, wire);
            && ':' !in GROUP_TAG
            && GROUP_TAG + AliasText(None) + list + "#" + wire == t
            && |GROUP_TAG| + 1 + |list| <= |t| && t[|GROUP_TAG| + 1..|GROUP_TAG| + 1 + |list|] == list
  {
    assert GROUP_TAG + ("" + ":") == GROUP_TAG + ":";
    ShapeParts(GROUP_TAG, list, wire);
  }

  lemma ColonShape(list: string, a: string, wire: string, k: nat, e: nat)
    requires k < |a| && a[k] == ':' && (forall j :: 0 <= j < k ==> a[j] != ':')
    requires var rest := a[k + 1..] + "\":" + list + "#" + wire; e < |rest| && rest[e] == '#'
    ensures var rest, pre := a[k + 1..] + "\":" + list + "#" + wire, GROUP_TAG + "\"" + a[..k];
            && GROUP_TAG <= pre && ':' !in pre
            && GROUP_TAG + AliasText(Some(a)) + list + "#" + wire == Shape(pre, rest[..e], rest[e + 1..])
  {
    var rest, pre := a[k + 1..] + "\":" + list + "#" + wire, GROUP_TAG + "\"" + a[..k];
    assert pre[..|GROUP_TAG|] == GROUP_TAG;
    assert a == a[..k] + ":" + a[k + 1..];
    assert rest == rest[..e] + "#" + rest[e + 1..];
    assert GROUP_TAG + ("\"" + a + "\"" + ":") + list + "#" + wire == pre + ":" + rest;
  }

  /** The end of the member list that the parser sees behind a colon in the alias. */
  lemma SeparatorBehind(list: string, a: string, wire: string, k: nat) returns (e: nat)
    requires k < |a|
    ensures var rest := a[k + 1..] + "\":" + list + "#" + wire;
            e < |rest| && rest[e] == '#' && '#' !in rest[..e] && e != |a[k + 1..]|
  {
    var rest := a[k + 1..] + "\":" + list + "#" + wire;
    var m := |a[k + 1..]| + 2 + |list|;
    assert rest[m] == '#' && rest[|a[k + 1..]|] == '"';
    e := FindChar(rest, '#', 0);
  }

  /** An alias with a colon is never read back. */
  lemma AliasWithColon(bits: Bits, a: string, user: string, region: nat)
    requires ':' in a
    ensures var r := ParseAux(Sent(bits, Some(a), user), region);
            r.Described? ==> r.alias != Some(a)
  {
    var k := FindChar(a, ':', 0);
    var list, wire := ListText(Ranges(bits)), Wire(user);
    hide Ranges, ListText, ParseAux, ListOf, First, AliasText, Shape, FindChar;
    var rest, pre := a[k + 1..] + "\":" + list + "#" + wire, GROUP_TAG + "\"" + a[..k];
    var e := SeparatorBehind(list, a, wire, k);
    ColonShape(list, a, wire, k, e);
    ShapeIsParsed(pre, rest[..e], rest[e + 1..], region);
    ShapeParts(pre, rest[..e], rest[e + 1..]);
    if k == 0 {
      var t := Shape(pre, rest[..e], rest[e + 1..]);
      assert |t[|GROUP_TAG| + 1..|pre| + 1 + e]| == 1 + e;
    }
  }

  /** A group's descriptor is read back, with members, alias and user data, exactly if it
      has an alias without a colon and the user data is not a single hyphen. */
  lemma DescriptorSurvives(bits: Bits, alias: Option<string>, user: string, region: nat)
    requires Ranges(bits) != [] && region == NextBit(bits, 0)
    ensures ParseAux(Sent(bits, alias, user), region) == Described(alias, Ranges(bits), user) <==>
            alias.Some? && alias.value != [] && ':' !in alias.value && user != "-"
  {
    hide Ranges, ListText, ParseAux, Sent, NextBit;
    if alias.None? {
      MissingAlias(bits, user, region);
    } else if ':' in alias.value {
      AliasWithColon(bits, alias.value, user, region);
    } else {
      QuotedAlias(bits, alias.value, user, region);
    }
  }

  // ---- the code ----

  method StrChr(buf: array<char>, c: char, i: nat, ghost text: string) returns (k: nat)
    requires Holds(buf, 0, text) && i <= |text| && c != NUL
    ensures k == FindChar(text, c, i)
  {
    k := i;
    while buf[k] != NUL && buf[k] != c
      invariant i <= k <= |text| && FindChar(text, c, i) == FindChar(text, c, k)
      decreases |text| - k
    {
      assert k < |text|;
      k := k + 1;
    }
  }

  method StrStrTag(buf: array<char>, ghost text: string) returns (k: nat)
    requires Holds(buf, 0, text)
    ensures k == FindTag(text, 0)
  {
    k := 0;
    while buf[k] != NUL
      invariant k <= |text| && FindTag(text, 0) == FindTag(text, k)
      decreases |text| - k
    {
      var same := SameTag(buf, k, text);
      if same {
        return;
      }
      k := k + 1;
    }
  }

  method SameTag(buf: array<char>, k: nat, ghost text: string) returns (same: bool)
    requires Holds(buf, 0, text) && k <= |text|
    ensures same == TagAt(text, k)
  {
    var i := 0;
    while i < |GROUP_TAG| && buf[k + i] == GROUP_TAG[i]
      invariant i <= |GROUP_TAG| && k + i <= |text|
      invariant forall j :: 0 <= j < i ==> text[k + j] == GROUP_TAG[j]
    {
      assert GROUP_TAG[i] != NUL;
      i := i + 1;
    }
    same := i == |GROUP_TAG|;
    if same {
      assert text[k..k + |GROUP_TAG|] == GROUP_TAG;
    } else if k + |GROUP_TAG| <= |text| {
      assert text[k..k + |GROUP_TAG|][i] == text[k + i] != GROUP_TAG[i];
    }
  }

  /** The C string that begins at index i. */
  function StringAt(b: seq<char>, i: nat): string
    decreases |b| - i
  {
    if i >= |b| || b[i] == NUL then [] else [b[i]] + StringAt(b, i + 1)
  }

  lemma {:induction false} StringUpTo(b: seq<char>, i: nat, k: nat)
    requires i <= k < |b| && b[k] == NUL && forall j :: i <= j < k ==> b[j] != NUL
    ensures StringAt(b, i) == b[i..k]
    decreases k - i
  {
    if i < k {
      StringUpTo(b, i + 1, k);
      assert b[i..k] == [b[i]] + b[i + 1..k];
    }
  }

  method FirstSet(mask: array<bool>) returns (k: int)
    ensures -1 <= k < mask.Length && (k >= 0 ==> mask[k])
    ensures forall i :: 0 <= i < (if k < 0 then mask.Length else k) ==> !mask[i]
  {
    for i := 0 to mask.Length
      invariant forall j :: 0 <= j < i ==> !mask[j]
    {
      if mask[i] {
        return i;
      }
    }
    return -1;
  }

  /** The first bit of the mask is the smallest listed one. */
  lemma FirstOfMask(mask: seq<bool>, rs: seq<Range>, k: int)
    requires InMask(rs, |mask|) && (forall i :: 0 <= i < |rs| ==> rs[i].lo <= rs[i].hi)
    requires forall x :: 0 <= x < |mask| ==> mask[x] == Covered(rs, x)
    requires -1 <= k < |mask| && (k >= 0 ==> mask[k])
    requires forall i :: 0 <= i < (if k < 0 then |mask| else k) ==> !mask[i]
    ensures First(rs) == k
  {
    hide First;
    var f := First(rs);
    if rs != [] {
      var i :| 0 <= i < |rs| && rs[i].lo == f;
      assert rs[i].Has(f);
      assert Covered(rs, f) && mask[f];
    }
    if k >= 0 {
      assert Covered(rs, k);
      var i :| 0 <= i < |rs| && rs[i].Has(k);
    }
  }

  /** The parser's own ranges are not empty. */
  lemma {:induction false} ListedRanges(text: string, i: nat, c: char, acc: seq<Range>)
    requires i <= |text| && forall k :: 0 <= k < |acc| ==> acc[k].lo <= acc[k].hi
    ensures var l := ListFrom(text, i, c, acc);
            l.Some? ==> forall k :: 0 <= k < |l.value| ==> l.value[k].lo <= l.value[k].hi
    decreases |text| - i
  {
    var o := ScanFrom(text, i, c, NEW_VALUE);
    hide ScanFrom;
    if o.Ended? && !Malformed(o.st) && o.next < |text| && o.last == ',' {
      ListedRanges(text, o.next, o.last, Extended(acc, o.st));
    }
  }

  /** A descriptor is followed by the separator, and its list can be read. */
  ghost predicate Complete(text: string) {
    var tag := FindTag(text, 0);
    tag < |text| ==>
      var colon := FindChar(text, ':', tag);
      colon < |text| ==>
        var end := FindChar(text, '#', colon + 1);
        end < |text| && Readable(text[colon + 1..end])
  }

  /** The list of members and the group id that it must have. */
  method ParseMembers(list: string, region: nat) returns (mask: array?<bool>)
    requires Readable(list)
    ensures mask == null <==> ListOf(list).None? || First(ListOf(list).value) != region
    ensures mask != null ==> fresh(mask) && forall x :: 0 <= x < mask.Length ==> mask[x] == Covered(ListOf(list).value, x)
  {
    mask := ParseBitList(list, 0);
    if mask == null {
      return;
    }
    var id := FirstSet(mask);
    ghost var rs := ListOf(list).value;
    MaskBitsBound(rs);
    ListedRanges(list, 0, NUL, []);
    hide ListOf, First, MaskBits, Covered;
    FirstOfMask(mask[..], rs, id);
    if id != region {
      mask := null;
    }
  }

  /** Takes the descriptor apart at the positions found; terminators are written in front
      of the colon and over the separator. */
  method TakeApart(buf: array<char>, ghost text: string, tag: nat, colon: nat, end: nat, region: nat)
    returns (mask: array?<bool>, alias: Option<string>, user: string)
    requires Holds(buf, 0, text) && tag + |GROUP_TAG| <= colon < end < |text|
    requires Readable(text[colon + 1..end])
    modifies buf
    ensures var d := AuxAt(text, tag, colon, end, region);
            && (mask != null <==> d.Described?)
            && (mask != null ==> alias == d.alias && user == d.user)
            && (mask != null ==> forall x :: 0 <= x < mask.Length ==> mask[x] == Covered(d.members, x))
  {
    hide ListOf, First, Covered, Readable, StringAt, AliasOf;
    var list := buf[colon + 1..end];
    assert list == text[colon + 1..end];
    var rest := StringAt(buf[..], end + 1);
    RestOfText(buf, text, end + 1);
    Terminated(buf, text, tag, colon, end);
    ghost var was := buf[..];
    buf[colon - 1] := NUL;
    buf[end] := NUL;
    assert buf[..] == was[colon - 1 := NUL][end := NUL];
    mask := ParseMembers(list, region);
    var a := StringAt(buf[..], tag + |GROUP_TAG| + 1);
    alias := if a == [] then None else Some(a);
    user := if rest == "-" then "" else rest;
  }

  /** _parse_aux_data_group, in the buffer that holds the aux_data. */
  method ParseAuxDataGroup(buf: array<char>, ghost text: string, region: nat)
    returns (found: bool, mask: array?<bool>, alias: Option<string>, user: string)
    requires Holds(buf, 0, text) && Complete(text)
    modifies buf
    ensures found <==> !ParseAux(text, region).NoGroup?
    ensures mask != null <==> ParseAux(text, region).Described?
    ensures mask != null ==>
              var d := ParseAux(text, region);
              && alias == d.alias && user == d.user
              && forall x :: 0 <= x < mask.Length ==> mask[x] == Covered(d.members, x)
  {
    hide FindTag, FindChar, Covered, Readable, AuxAt;
    found, mask, alias, user := false, null, None, "";
    var tag := StrStrTag(buf, text);
    InText(buf, text, tag);
    if buf[tag] == NUL {
      return;
    }
    found := true;
    var colon := StrChr(buf, ':', tag, text);
    ColonBehindTag(text, tag);
    InText(buf, text, colon);
    if buf[colon] == NUL {
      return;
    }
    var end := StrChr(buf, '#', colon + 1, text);
    mask, alias, user := TakeApart(buf, text, tag, colon, end, region);
  }

  lemma InText(buf: array<char>, text: string, k: nat)
    requires Holds(buf, 0, text) && k <= |text|
    ensures buf[k] == NUL <==> k == |text|
  {
    assert k < |text| ==> buf[k] == text[k] && text[k] in text;
  }

  lemma RestOfText(buf: array<char>, text: string, i: nat)
    requires Holds(buf, 0, text) && i <= |text|
    ensures StringAt(buf[..], i) == text[i..]
  {
    assert forall j :: i <= j < |text| ==> buf[..][j] == text[j] && text[j] in text;
    StringUpTo(buf[..], i, |text|);
    assert buf[..][i..|text|] == text[i..];
  }

  lemma Terminated(buf: array<char>, text: string, tag: nat, colon: nat, end: nat)
    requires Holds(buf, 0, text) && tag + |GROUP_TAG| <= colon < end < |text|
    ensures StringAt(buf[..][colon - 1 := NUL][end := NUL], tag + |GROUP_TAG| + 1) == AliasOf(text, tag, colon, end)
  {
    var b, i := buf[..][colon - 1 := NUL][end := NUL], tag + |GROUP_TAG| + 1;
    var k := if i < colon then colon - 1 else end;
    assert forall j :: i <= j < k ==> b[j] == text[j] && text[j] in text;
    StringUpTo(b, i, k);
    assert b[i..k] == text[i..k];
  }
}
