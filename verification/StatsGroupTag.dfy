/** The member list of a stats group: a bitset printed as a list of ranges, the
    prediction of its length, and the list parser that reads it back. */
module StatsGroupTag {
  import opened Options
  import opened CStrings
  import opened ConfigWriter

  const GROUP_TAG := "DMS_GROUP="

  /** One bit per region id. Region ids are ints in the source. */
  type Bits = s: seq<bool> | |s| < 0x8000_0000

  // ---- the bitset and its runs ----

  /** The first set bit from index from on, or -1. */
  function NextBit(bits: Bits, from: nat): (i: int)
    ensures -1 <= i < |bits|
    ensures i >= 0 ==> from <= i && bits[i]
    ensures forall k :: from <= k < (if i < 0 then |bits| else i) ==> !bits[k]
    decreases |bits| - from
  {
    if from >= |bits| then -1 else if bits[from] then from else NextBit(bits, from + 1)
  }

  /** The last set bit below index to, or -1. */
  function LastBit(bits: Bits, to: nat): (i: int)
    requires to <= |bits|
    ensures -1 <= i < to
    ensures i >= 0 ==> bits[i]
    ensures forall k :: i < k < to ==> !bits[k]
  {
    if to == 0 then -1 else if bits[to - 1] then to - 1 else LastBit(bits, to - 1)
  }

  /** The last bit of the run of set bits that begins at i. */
  function RunEnd(bits: Bits, i: nat): (j: nat)
    requires i < |bits| && bits[i]
    ensures i <= j < |bits|
    ensures forall k :: i <= k <= j ==> bits[k]
    ensures j + 1 < |bits| ==> !bits[j + 1]
    decreases |bits| - i
  {
    if i + 1 < |bits| && bits[i + 1] then RunEnd(bits, i + 1) else i
  }

  datatype Range = Range(lo: nat, hi: nat) {
    predicate Has(i: nat) { lo <= i <= hi }
  }

  /** The runs of set bits from index from on, as the printing loop meets them. */
  function RangesFrom(bits: Bits, from: nat): seq<Range>
    decreases |bits| - from
  {
    var i := NextBit(bits, from);
    if i < 0 then []
    else var j := RunEnd(bits, i); [Range(i, j)] + RangesFrom(bits, j + 2)
  }

  function Ranges(bits: Bits): seq<Range> { RangesFrom(bits, 0) }

  ghost predicate Covered(rs: seq<Range>, i: nat) {
    exists k :: 0 <= k < |rs| && rs[k].Has(i)
  }

  /** Ranges that are ascending, disjoint and cannot be joined with a neighbour. */
  ghost predicate Separate(rs: seq<Range>) {
    && (forall k :: 0 <= k < |rs| ==> rs[k].lo <= rs[k].hi)
    && (forall k, m :: 0 <= k < m < |rs| ==> rs[k].hi + 1 < rs[m].lo)
  }

  /** One turn of the loops over ranges. */
  lemma NextRange(bits: Bits, from: nat)
    ensures NextBit(bits, from) < 0 ==> RangesFrom(bits, from) == []
    ensures var i := NextBit(bits, from);
            i >= 0 ==> RangesFrom(bits, from) == [Range(i, RunEnd(bits, i))] + RangesFrom(bits, RunEnd(bits, i) + 2)
  {
  }

  lemma {:induction false} RangesFromSeparate(bits: Bits, from: nat)
    ensures var rs := RangesFrom(bits, from);
            && Separate(rs)
            && forall k :: 0 <= k < |rs| ==> from <= rs[k].lo && rs[k].hi < |bits|
    decreases |bits| - from
  {
    hide Separate, RangesFrom, NextBit, RunEnd;
    NextRange(bits, from);
    var i := NextBit(bits, from);
    if i < 0 {
      NoneSeparate();
    } else {
      var j := RunEnd(bits, i);
      RangesFromSeparate(bits, j + 2);
      SeparateCons(Range(i, j), RangesFrom(bits, j + 2));
    }
  }

  lemma NoneSeparate()
    ensures Separate([])
  {
  }

  lemma SeparateCons(r: Range, rs: seq<Range>)
    requires Separate(rs) && r.lo <= r.hi
    requires forall k :: 0 <= k < |rs| ==> r.hi + 1 < rs[k].lo
    ensures Separate([r] + rs)
  {
    var all := [r] + rs;
    forall k, m | 0 <= k < m < |all| ensures all[k].hi + 1 < all[m].lo {
      assert all[m] == rs[m - 1];
      if k > 0 {
        assert all[k] == rs[k - 1];
      }
    }
  }

  lemma {:induction false} RangesFromCover(bits: Bits, from: nat, x: nat)
    ensures Covered(RangesFrom(bits, from), x) <==> from <= x < |bits| && bits[x]
    decreases |bits| - from
  {
    hide Covered, RangesFrom, NextBit, RunEnd;
    NextRange(bits, from);
    var i := NextBit(bits, from);
    if i < 0 {
      NoneCovered(x);
    } else {
      var j := RunEnd(bits, i);
      RangesFromCover(bits, j + 2, x);
      ConsCovered(Range(i, j), RangesFrom(bits, j + 2), x);
    }
  }

  lemma NoneCovered(x: nat)
    ensures !Covered([], x)
  {
  }

  lemma ConsCovered(r: Range, rs: seq<Range>, x: nat)
    ensures Covered([r] + rs, x) <==> r.Has(x) || Covered(rs, x)
  {
    var all := [r] + rs;
    assert all[0] == r;
    if Covered(rs, x) {
      var k :| 0 <= k < |rs| && rs[k].Has(x);
      assert all[k + 1].Has(x);
    }
  }

  /** The printed ranges are maximal, disjoint, ascending, and cover precisely the
      set bits. */
  lemma RangesExact(bits: Bits)
    ensures Separate(Ranges(bits))
    ensures forall k :: 0 <= k < |Ranges(bits)| ==> Ranges(bits)[k].hi < |bits|
    ensures forall i: nat :: Covered(Ranges(bits), i) <==> i < |bits| && bits[i]
  {
    RangesFromSeparate(bits, 0);
    forall i: nat ensures Covered(Ranges(bits), i) <==> i < |bits| && bits[i] {
      RangesFromCover(bits, 0, i);
    }
  }

  // ---- the text and its length ----

  function RangeText(r: Range): (s: string)
    ensures s != []
  {
    if r.lo == r.hi then Digits(r.lo, false)
    else Digits(r.lo, false) + "-" + Digits(r.hi, false)
  }

  /** The ranges separated by commas. */
  function ListText(rs: seq<Range>): string {
    if rs == [] then []
    else if |rs| == 1 then RangeText(rs[0])
    else RangeText(rs[0]) + "," + ListText(rs[1..])
  }

  function Pow10(e: nat): nat { if e == 0 then 1 else 10 * Pow10(e - 1) }

  /** The integer part of the decimal logarithm. */
  function Log10(n: nat): (e: nat)
    requires n > 0
    ensures Pow10(e) <= n < Pow10(e + 1)
  {
    if n < 10 then 0 else 1 + Log10(n / 10)
  }

  lemma {:induction false} DigitCount(n: nat)
    ensures |Digits(n, false)| == if n == 0 then 1 else 1 + Log10(n)
  {
    if n >= 10 {
      DigitCount(n / 10);
    }
  }

  /** The ranges' own length plus one byte for each: a comma or the final NUL. */
  function ListRoom(rs: seq<Range>): nat {
    if rs == [] then 0 else |RangeText(rs[0])| + 1 + ListRoom(rs[1..])
  }

  /** The predicted length is the text's length plus one. */
  lemma {:induction false} ListRoomExact(rs: seq<Range>)
    ensures ListRoom(rs) == if rs == [] then 0 else |ListText(rs)| + 1
    ensures rs == [] <==> ListText(rs) == []
  {
    if |rs| > 1 {
      ListRoomExact(rs[1..]);
    }
  }

  /** The do-while loop that runs to the end of a range; next is one past it. */
  method RangeEnd(bits: Bits, i: nat) returns (next: nat)
    requires i < |bits| && bits[i]
    ensures next == RunEnd(bits, i) + 1
  {
    var j: int := i;
    next := j + 1;
    j := NextBit(bits, j + 1);
    while j == next
      invariant i < next <= |bits| && bits[next - 1]
      invariant RunEnd(bits, i) == RunEnd(bits, next - 1)
      invariant j == NextBit(bits, next)
      decreases |bits| - next
    {
      next := j + 1;
      j := NextBit(bits, j + 1);
    }
  }

  method IdLength(i: nat) returns (n: nat)
    ensures n == |Digits(i, false)|
  {
    DigitCount(i);
    if i != 0 {
      n := 1 + Log10(i);
    } else {
      n := 1;
    }
  }

  /** Every piece of the list, its comma included, is shorter than size. */
  predicate Fits(rs: seq<Range>, size: nat) {
    rs == [] || (|RangeText(rs[0])| + (if |rs| > 1 then 1 else 0) < size && Fits(rs[1..], size))
  }

  /** A buffer of the predicted length is large enough for each piece. */
  lemma {:induction false} RoomFits(rs: seq<Range>, size: nat)
    requires ListRoom(rs) <= size
    ensures Fits(rs, size)
  {
    if rs != [] {
      ListRoomExact(rs);
      RoomFits(rs[1..], size);
    }
  }

  lemma ConsList(r: Range, rest: seq<Range>, size: nat)
    ensures ListRoom([r] + rest) == |RangeText(r)| + 1 + ListRoom(rest)
    ensures ListText([r] + rest) == RangeText(r) + (if rest == [] then "" else ",") + ListText(rest)
    ensures Fits([r] + rest, size) ==
            (|RangeText(r)| + (if rest == [] then 0 else 1) < size && Fits(rest, size))
  {
    hide RangeText;
    assert ([r] + rest)[1..] == rest;
  }

  /** _stats_group_tag_len. */
  method TagLen(bits: Bits) returns (buflen: nat)
    ensures buflen == if Ranges(bits) == [] then 0 else |ListText(Ranges(bits))| + 1
  {
    hide NextBit, RunEnd, RangesFrom, ListRoom, ListText, Digits, Fits;
    buflen := 0;
    var i := NextBit(bits, 0);
    ghost var from := 0;
    while i >= 0
      invariant -1 <= i < |bits| && i == NextBit(bits, from)
      invariant buflen + ListRoom(RangesFrom(bits, from)) == ListRoom(Ranges(bits))
      decreases |bits| - from
    {
      NextRange(bits, from);
      ConsList(Range(i, RunEnd(bits, i)), RangesFrom(bits, RunEnd(bits, i) + 2), 0);
      var n := IdLength(i);
      buflen := buflen + n;
      var next := RangeEnd(bits, i);
      var j := next - 1;
      if i != j {
        n := IdLength(j);
        buflen := buflen + n + 1;
      }
      buflen := buflen + 1;
      i := NextBit(bits, next + 1);
      from := next + 1;
    }
    NextRange(bits, from);
    ListRoomExact([]);
    ListRoomExact(Ranges(bits));
  }

  /** dm_snprintf of a text: -1 when it does not fit into size bytes with its NUL. */
  method Snprintf(buf: array<char>, at: nat, size: nat, text: string) returns (r: int)
    requires IsText(text)
    requires at + (if |text| < size then |text| + 1 else size) <= buf.Length
    modifies buf
    ensures r == if |text| < size then |text| else -1
    ensures |text| < size ==> Holds(buf, at, text)
    ensures forall k :: 0 <= k < at ==> buf[k] == old(buf[k])
    ensures forall k :: at + |text| < k < buf.Length ==> buf[k] == old(buf[k])
  {
    var n := if |text| < size then |text| else if size == 0 then 0 else size - 1;
    for i := 0 to n
      invariant forall k :: 0 <= k < at ==> buf[k] == old(buf[k])
      invariant forall k :: at <= k < at + i ==> buf[k] == text[k - at]
      invariant forall k :: at + i <= k < buf.Length ==> buf[k] == old(buf[k])
    {
      buf[at + i] := text[i];
    }
    if size > 0 {
      buf[at + n] := NUL;
    }
    r := if |text| < size then |text| else -1;
  }

  lemma {:induction false} LastRange(bits: Bits, from: nat)
    ensures var rs := RangesFrom(bits, from);
            rs != [] ==> rs[|rs| - 1].hi == LastBit(bits, |bits|)
    decreases |bits| - from
  {
    hide RangesFrom, NextBit, RunEnd, LastBit;
    NextRange(bits, from);
    var i := NextBit(bits, from);
    if i >= 0 {
      var j := RunEnd(bits, i);
      NextRange(bits, j + 2);
      LastRange(bits, j + 2);
      if RangesFrom(bits, j + 2) == [] {
        IsLast(bits, j);
      }
    }
  }

  lemma IsLast(bits: Bits, j: nat)
    requires j < |bits| && bits[j] && forall k :: j < k < |bits| ==> !bits[k]
    ensures LastBit(bits, |bits|) == j
  {
    hide LastBit;
    var l := LastBit(bits, |bits|);
    assert l >= 0 ==> bits[l];
  }

  lemma {:induction false} NumeralIsText(n: nat)
    ensures IsText(Digits(n, false))
  {
    assert forall c :: c in Digits(n, false) ==> c != NUL;
  }

  lemma RangeIsText(r: Range)
    ensures IsText(RangeText(r))
  {
    hide Digits;
    NumeralIsText(r.lo);
    NumeralIsText(r.hi);
  }

  /** Only the last range ends at the last set bit. */
  lemma CommaRule(bits: Bits, from: nat)
    ensures var i := NextBit(bits, from);
            i >= 0 ==> (RunEnd(bits, i) == LastBit(bits, |bits|) <==> RangesFrom(bits, RunEnd(bits, i) + 2) == [])
  {
    hide RangesFrom, NextBit, RunEnd, LastBit;
    NextRange(bits, from);
    var i := NextBit(bits, from);
    if i >= 0 {
      LastRange(bits, from);
      NextRange(bits, RunEnd(bits, i) + 2);
    }
  }

  /** The text written so far, terminated unless nothing has been written. */
  ghost predicate Written(buf: array<char>, at: nat, text: string)
    reads buf
  {
    if text == [] then at <= buf.Length else Holds(buf, at, text)
  }

  lemma NothingWritten(buf: array<char>, at: nat)
    requires at <= buf.Length
    ensures Written(buf, at, "")
  {
  }

  lemma WrittenHolds(buf: array<char>, at: nat, text: string)
    requires Written(buf, at, text)
    ensures text != [] ==> Holds(buf, at, text)
  {
  }

  lemma Rejoin(a: string, b: string, c: string)
    ensures a + (b + c) == (a + b) + c
  {
  }

  /** Prints one piece behind the text written so far. */
  method PutPiece(buf: array<char>, at: nat, used: nat, size: nat, piece: string, ghost text: string)
    returns (r: int)
    requires Written(buf, at, text) && used == |text|
    requires IsText(piece) && piece != [] && at + used + |piece| < buf.Length
    modifies buf
    ensures r == if |piece| < size then |piece| else -1
    ensures r >= 0 ==> Written(buf, at, text + piece)
    ensures forall k :: 0 <= k < at ==> buf[k] == old(buf[k])
    ensures forall k :: at + used + |piece| < k < buf.Length ==> buf[k] == old(buf[k])
  {
    r := Snprintf(buf, at + used, size, piece);
    assert r >= 0 ==> forall k :: at <= k < at + |text + piece| ==>
      buf[k] == if k < at + used then text[k - at] else piece[k - (at + used)];
  }

  /** _stats_group_tag_fill. The bound handed to each dm_snprintf call is the whole
      buflen although part of it is used already; a buffer of the predicted length is
      never overrun all the same. */
  method TagFill(bits: Bits, buf: array<char>, at: nat, buflen: nat) returns (used: nat)
    requires at + ListRoom(Ranges(bits)) <= buf.Length
    modifies buf
    ensures used == if Fits(Ranges(bits), buflen) then |ListText(Ranges(bits))| else 0
    ensures used > 0 ==> Holds(buf, at, ListText(Ranges(bits)))
    ensures forall k :: 0 <= k < at ==> buf[k] == old(buf[k])
    ensures forall k :: at + ListRoom(Ranges(bits)) <= k < buf.Length ==> buf[k] == old(buf[k])
  {
    hide NextBit, LastBit, RunEnd, RangesFrom, ListRoom, ListText, RangeText, Digits, Fits, Written;
    used := 0;
    var last := LastBit(bits, |bits|);
    var i := NextBit(bits, 0);
    ghost var from := 0;
    ghost var text := "";
    ListRoomExact(Ranges(bits));
    assert Written(buf, at, text) by { NothingWritten(buf, at); }
    while i >= 0
      invariant -1 <= i < |bits| && i == NextBit(bits, from)
      invariant used == |text| && Written(buf, at, text)
      invariant text + ListText(RangesFrom(bits, from)) == ListText(Ranges(bits))
      invariant Fits(RangesFrom(bits, from), buflen) == Fits(Ranges(bits), buflen)
      invariant forall k :: 0 <= k < at ==> buf[k] == old(buf[k])
      invariant forall k :: at + ListRoom(Ranges(bits)) <= k < buf.Length ==> buf[k] == old(buf[k])
      decreases |bits| - from
    {
      NextRange(bits, from);
      CommaRule(bits, from);
      ConsList(Range(i, RunEnd(bits, i)), RangesFrom(bits, RunEnd(bits, i) + 2), buflen);
      var next := RangeEnd(bits, i);
      var j := next - 1;
      var piece := RangeText(Range(i, j)) + if j == last then "" else ",";
      RangeIsText(Range(i, j));
      var r := PutPiece(buf, at, used, buflen, piece, text);
      if r < 0 {
        return 0;
      }
      Rejoin(text, piece, ListText(RangesFrom(bits, next + 1)));
      text := text + piece;
      i := NextBit(bits, next + 1);
      used := used + r;
      from := next + 1;
    }
    NextRange(bits, from);
    ListRoomExact([]);
    RoomFits([], buflen);
    WrittenHolds(buf, at, text);
  }

  // ---- the whole descriptor ----

  function AliasText(alias: Option<string>): string {
    (if alias.Some? then "\"" + alias.value + "\"" else "") + ":"
  }

  function TagText(bits: Bits, alias: Option<string>): string {
    GROUP_TAG + AliasText(alias) + ListText(Ranges(bits))
  }

  lemma HeadIsText(alias: Option<string>)
    requires alias.Some? ==> IsText(alias.value)
    ensures IsText(GROUP_TAG) && IsText(AliasText(alias)) && AliasText(alias) != []
    ensures |AliasText(alias)| == 1 + if alias.Some? then |alias.value| + 2 else 0
  {
  }

  /** The tag and the alias at the start of the buffer. */
  method PutHead(buf: array<char>, alias: Option<string>, buflen: nat)
    requires alias.Some? ==> IsText(alias.value)
    requires |GROUP_TAG| + |AliasText(alias)| < buf.Length && |AliasText(alias)| < buflen
    modifies buf
    ensures Holds(buf, 0, GROUP_TAG + AliasText(alias))
  {
    HeadIsText(alias);
    hide AliasText;
    var r := Snprintf(buf, 0, |GROUP_TAG| + 1, GROUP_TAG);
    r := PutPiece(buf, 0, |GROUP_TAG|, buflen, AliasText(alias), GROUP_TAG);
  }

  lemma HoldsBehind(buf: array<char>, head: string, list: string)
    requires IsText(head) && |head| <= buf.Length && (forall k :: 0 <= k < |head| ==> buf[k] == head[k])
    requires Holds(buf, |head|, list)
    ensures Holds(buf, 0, head + list)
  {
  }

  /** _build_group_tag: the buffer is allocated at its exact size. */
  method BuildGroupTag(bits: Bits, alias: Option<string>) returns (aux: array?<char>)
    requires alias.Some? ==> IsText(alias.value)
    ensures aux == null <==> Ranges(bits) == []
    ensures aux != null ==> fresh(aux) && aux.Length == |TagText(bits, alias)| + 1
    ensures aux != null ==> Holds(aux, 0, TagText(bits, alias))
  {
    hide Ranges, ListText, ListRoom, Fits, AliasText;
    HeadIsText(alias);
    var rs := Ranges(bits);
    ListRoomExact(rs);
    var buflen := TagLen(bits);
    if buflen == 0 {
      return null;
    }
    RoomFits(rs, buflen);
    buflen := buflen + |GROUP_TAG|;
    buflen := buflen + 1 + if alias.Some? then |alias.value| + 2 else 0;
    var buf := new char[buflen];
    buflen := buflen - |GROUP_TAG|;
    PutHead(buf, alias, buflen);
    var at := |GROUP_TAG| + |AliasText(alias)|;
    buflen := buflen - |AliasText(alias)|;
    var used := TagFill(bits, buf, at, buflen);
    HoldsBehind(buf, GROUP_TAG + AliasText(alias), ListText(rs));
    aux := buf;
  }
}
