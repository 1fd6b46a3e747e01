/** dm_bitset_parse_list: the parser of range lists, which reads back the member list
    that a group descriptor carries. */
module BitsetList {
  import opened Options
  import opened CStrings
  import opened ConfigLexer
  import opened ConfigWriter
  import opened ConfigParser
  import opened ConfigTokens
  import opened StatsGroupTag

  const UINT_RANGE := 0x1_0000_0000

  /** The variables of the inner loop; digits says that this value has had a digit. */
  datatype Scan = Scan(a: nat, b: nat, atStart: bool, inRange: bool, digits: bool)

  const NEW_VALUE := Scan(0, 0, true, false, false)

  function PutDigit(st: Scan, c: char): Scan
    requires IsDigit(c)
  {
    var b := (st.b * 10 + (c - '0') as nat) % UINT_RANGE;
    Scan(if st.inRange then st.a else b, b, false, st.inRange, true)
  }

  datatype Outcome = Bad | Ended(st: Scan, next: nat, last: char)

  /** One value or range from index i on; c is the character before it. */
  function ScanFrom(text: string, i: nat, c: char, st: Scan): (o: Outcome)
    requires i <= |text|
    ensures o.Ended? ==> i <= o.next <= |text| && (i < |text| ==> i < o.next)
    decreases |text| - i
  {
    if i == |text| then Ended(st, i, c)
    else if IsSpace(text[i]) then ScanFrom(text, i + 1, text[i], st)
    else if text[i] == NUL || text[i] == ',' then Ended(st, i + 1, text[i])
    else if st.digits && IsSpace(c) then Bad
    else if text[i] == '-' then
      if st.atStart || st.inRange then Bad
      else ScanFrom(text, i + 1, text[i], st.(b := 0, inRange := true, atStart := true))
    else if !IsDigit(text[i]) then Bad
    else ScanFrom(text, i + 1, text[i], PutDigit(st, text[i]))
  }

  predicate Malformed(st: Scan) {
    st.digits && ((st.atStart && st.inRange) || st.a > st.b)
  }

  function Extended(acc: seq<Range>, st: Scan): seq<Range> {
    if st.digits then acc + [Range(st.a, st.b)] else acc
  }

  /** The ranges listed from index i on, behind those of acc. */
  function ListFrom(text: string, i: nat, c: char, acc: seq<Range>): Option<seq<Range>>
    requires i <= |text|
    decreases |text| - i
  {
    match ScanFrom(text, i, c, NEW_VALUE)
    case Bad => None
    case Ended(st, next, last) =>
      if Malformed(st) then None
      else if next < |text| && last == ',' then ListFrom(text, next, last, Extended(acc, st))
      else Some(Extended(acc, st))
  }

  function ListOf(text: string): Option<seq<Range>> { ListFrom(text, 0, NUL, []) }

  // ---- the scanning methods ----

  /** The inner loop: reads one value or range. */
  method ScanValue(text: string, start: nat, before: char) returns (o: Outcome)
    requires start <= |text|
    ensures o == ScanFrom(text, start, before, NEW_VALUE)
  {
    var atStart, inRange, digits := true, false, false;
    var a: nat, b: nat := 0, 0;
    var i, c := start, before;
    while i < |text|
      invariant start <= i <= |text|
      invariant ScanFrom(text, i, c, Scan(a, b, atStart, inRange, digits)) ==
                ScanFrom(text, start, before, NEW_VALUE)
    {
      var oldC := c;
      c := text[i];
      i := i + 1;
      if IsSpace(c) {
        continue;
      }
      if c == NUL || c == ',' {
        return Ended(Scan(a, b, atStart, inRange, digits), i, c);
      }
      if digits && IsSpace(oldC) {
        return Bad;
      }
      if c == '-' {
        if atStart || inRange {
          return Bad;
        }
        b, inRange, atStart := 0, true, true;
        continue;
      }
      if !IsDigit(c) {
        return Bad;
      }
      b := (b * 10 + (c - '0') as nat) % UINT_RANGE;
      if !inRange {
        a := b;
      }
      atStart, digits := false, true;
    }
    o := Ended(Scan(a, b, atStart, inRange, digits), i, c);
  }

  /** One more than the largest listed bit. */
  function MaskBits(rs: seq<Range>): nat {
    if rs == [] then 0
    else var n, r := MaskBits(rs[..|rs| - 1]), rs[|rs| - 1]; if r.hi >= n then r.hi + 1 else n
  }

  ghost predicate InMask(rs: seq<Range>, n: nat) {
    forall k :: 0 <= k < |rs| ==> rs[k].hi < n
  }

  lemma {:induction false} MaskBitsBound(rs: seq<Range>)
    ensures InMask(rs, MaskBits(rs))
  {
    if rs != [] {
      MaskBitsBound(rs[..|rs| - 1]);
    }
  }

  /** Sets the bits of one range. */
  method SetRange(mask: array<bool>, lo: nat, hi: nat)
    requires lo <= hi < mask.Length
    modifies mask
    ensures forall x :: 0 <= x < mask.Length ==> mask[x] == (old(mask[x]) || lo <= x <= hi)
  {
    var a := lo;
    while a <= hi
      invariant lo <= a <= hi + 1
      invariant forall x :: 0 <= x < mask.Length ==> mask[x] == (old(mask[x]) || lo <= x < a)
    {
      mask[a] := true;
      a := a + 1;
    }
  }

  /** What a pass with a mask has set so far. */
  ghost predicate Marked(mask: seq<bool>, was: seq<bool>, rs: seq<Range>) {
    |mask| == |was| && forall x :: 0 <= x < |mask| ==> mask[x] == (was[x] || Covered(rs, x))
  }

  lemma {:induction false} SnocCovered(rs: seq<Range>, r: Range, x: nat)
    ensures Covered(rs + [r], x) <==> Covered(rs, x) || r.Has(x)
  {
    var all := rs + [r];
    assert all[|rs|] == r;
    if Covered(rs, x) {
      var k :| 0 <= k < |rs| && rs[k].Has(x);
      assert all[k].Has(x);
    }
  }

  lemma MarkedSnoc(now: seq<bool>, mask: seq<bool>, was: seq<bool>, rs: seq<Range>, r: Range)
    requires Marked(mask, was, rs) && |now| == |mask|
    requires forall x :: 0 <= x < |mask| ==> now[x] == (mask[x] || r.lo <= x <= r.hi)
    ensures Marked(now, was, rs + [r])
  {
    hide Covered;
    forall x | 0 <= x < |now| ensures now[x] == (was[x] || Covered(rs + [r], x)) {
      SnocCovered(rs, r, x);
    }
  }

  lemma {:induction false} ListGrows(text: string, i: nat, c: char, acc: seq<Range>)
    requires i <= |text|
    ensures ListFrom(text, i, c, acc).Some? ==> acc <= ListFrom(text, i, c, acc).value
    decreases |text| - i
  {
    var o := ScanFrom(text, i, c, NEW_VALUE);
    hide ScanFrom;
    if o.Ended? && !Malformed(o.st) && o.next < |text| && o.last == ',' {
      ListGrows(text, o.next, o.last, Extended(acc, o.st));
    }
  }

  /** No listed value is UINT_MAX, whose successor wraps round to zero. */
  ghost predicate Readable(text: string) {
    ListOf(text).Some? ==> InMask(ListOf(text).value, UINT_RANGE - 1)
  }

  lemma ListStep(text: string, i: nat, c: char, acc: seq<Range>)
    requires i <= |text|
    ensures var o := ScanFrom(text, i, c, NEW_VALUE);
            ListFrom(text, i, c, acc) ==
            (if o.Bad? || Malformed(o.st) then None
             else if o.next < |text| && o.last == ',' then ListFrom(text, o.next, o.last, Extended(acc, o.st))
             else Some(Extended(acc, o.st)))
    ensures var o, l := ScanFrom(text, i, c, NEW_VALUE), ListFrom(text, i, c, acc);
            l.Some? ==> o.Ended? && Extended(acc, o.st) <= l.value
  {
    var o := ScanFrom(text, i, c, NEW_VALUE);
    hide ScanFrom;
    if o.Ended? && !Malformed(o.st) && o.next < |text| && o.last == ',' {
      ListGrows(text, o.next, o.last, Extended(acc, o.st));
    }
  }

  /** The mask size after one more value. */
  lemma MaskBitsSnoc(rs: seq<Range>, r: Range)
    ensures MaskBits(rs + [r]) == if r.hi >= MaskBits(rs) then r.hi + 1 else MaskBits(rs)
  {
    assert (rs + [r])[..|rs|] == rs;
  }

  lemma LastInMask(rs: seq<Range>, r: Range, all: seq<Range>, n: nat)
    requires rs + [r] <= all && InMask(all, n)
    ensures r.hi < n
  {
    assert all[|rs|] == (rs + [r])[|rs|] == r;
  }

  /** One scan of the list: without a mask it checks and measures, with one it sets bits. */
  method ScanList(text: string, mask: array?<bool>) returns (ok: bool, nmaskbits: nat)
    requires Readable(text)
    requires mask != null ==> ListOf(text).Some? && InMask(ListOf(text).value, mask.Length)
    modifies if mask == null then {} else {mask}
    ensures ok == ListOf(text).Some?
    ensures ok ==> nmaskbits == MaskBits(ListOf(text).value)
    ensures ok && mask != null ==> Marked(mask[..], old(mask[..]), ListOf(text).value)
  {
    hide ScanFrom, ListFrom, MaskBits, InMask, Marked, Covered;
    var i, c, more := 0, NUL, true;
    ghost var done: seq<Range> := [];
    nmaskbits := 0;
    Nothing(if mask == null then [] else mask[..]);
    while more
      invariant i <= |text|
      invariant ListOf(text) == if more then ListFrom(text, i, c, done) else Some(done)
      invariant nmaskbits == MaskBits(done)
      invariant mask != null ==> Marked(mask[..], old(mask[..]), done)
      decreases more, |text| - i
    {
      ListStep(text, i, c, done);
      var o := ScanValue(text, i, c);
      if o.Bad? {
        return false, 0;
      }
      var st := o.st;
      i, c := o.next, o.last;
      more := i < |text| && c == ',';
      if !st.digits {
        continue;
      }
      if (st.atStart && st.inRange) || !(st.a <= st.b) {
        return false, 0;
      }
      ghost var r := Range(st.a, st.b);
      MaskBitsSnoc(done, r);
      if st.b >= nmaskbits {
        nmaskbits := st.b + 1;
      }
      if mask != null {
        ghost var before := mask[..];
        LastInMask(done, r, ListOf(text).value, mask.Length);
        SetRange(mask, st.a, st.b);
        MarkedSnoc(mask[..], before, old(mask[..]), done, r);
      }
      done := done + [r];
    }
    ok := true;
  }

  lemma Nothing(mask: seq<bool>)
    ensures MaskBits([]) == 0 && Marked(mask, mask, [])
  {
  }

  /** dm_bitset_parse_list: both scans and the mask made between them. */
  method ParseBitList(text: string, minBits: nat) returns (mask: array?<bool>)
    requires Readable(text)
    ensures mask == null <==> ListOf(text).None?
    ensures mask != null ==>
              var rs := ListOf(text).value;
              && fresh(mask)
              && mask.Length == (if MaskBits(rs) < minBits then minBits else MaskBits(rs))
              && forall x :: 0 <= x < mask.Length ==> mask[x] == Covered(rs, x)
  {
    hide ListOf, MaskBits, Covered;
    var ok, nmaskbits := ScanList(text, null);
    if !ok {
      return null;
    }
    MaskBitsBound(ListOf(text).value);
    if nmaskbits < minBits {
      nmaskbits := minBits;
    }
    mask := new bool[nmaskbits](_ => false);
    ok, nmaskbits := ScanList(text, mask);
  }

  // ---- the list that a group descriptor carries ----

  lemma {:induction false} ValuePrefix(s: string, k: nat)
    requires k <= |s|
    ensures ValueOf(s[..k], 10) <= ValueOf(s, 10)
  {
    if k < |s| {
      ValuePrefix(s[..|s| - 1], k);
      assert s[..|s| - 1][..k] == s[..k];
      var v := ValueOf(s[..|s| - 1], 10);
      assert v * 10 >= v;
    } else {
      assert s[..k] == s;
    }
  }

  /** The state after the number v has been read into st. */
  function WithNumber(st: Scan, v: nat): Scan {
    Scan(if st.inRange then st.a else v, v, false, st.inRange, true)
  }

  lemma DigitStep(ds: string, k: nat)
    requires k < |ds| && IsDigit(ds[k])
    ensures ValueOf(ds[..k + 1], 10) == 10 * ValueOf(ds[..k], 10) + (ds[k] - '0') as nat
  {
    assert ds[..k + 1] == ds[..k] + [ds[k]];
    ValueSnoc(ds[..k], ds[k], false);
  }

  /** The text has s at index i. */
  ghost predicate At(text: string, i: nat, s: string) {
    i + |s| <= |text| && forall k :: 0 <= k < |s| ==> text[i + k] == s[k]
  }

  lemma AtParts(text: string, i: nat, a: string, b: string)
    requires At(text, i, a + b)
    ensures At(text, i, a) && At(text, i + |a|, b)
  {
    assert forall k :: 0 <= k < |a| ==> (a + b)[k] == a[k];
    assert forall k :: 0 <= k < |b| ==> (a + b)[|a| + k] == b[k] && i + |a| + k == i + (|a| + k);
    assert forall k :: 0 <= k < |b| ==> text[i + |a| + k] == b[k];
  }

  lemma OneDigit(text: string, i: nat, c: char, st: Scan, v: nat)
    requires i < |text| && IsDigit(text[i]) && !IsSpace(c) && st.b == v
    requires 10 * v + (text[i] - '0') as nat < UINT_RANGE
    ensures ScanFrom(text, i, c, st) ==
            ScanFrom(text, i + 1, text[i], WithNumber(st, 10 * v + (text[i] - '0') as nat))
  {
  }

  /** Reading the digits from the k-th on, when those before have been read. */
  lemma {:induction false} ScanDigits(text: string, i: nat, ds: string, k: nat, st: Scan)
    requires At(text, i, ds) && 0 < k <= |ds|
    requires forall c :: c in ds ==> IsDigit(c)
    requires ValueOf(ds, 10) < UINT_RANGE
    ensures ScanFrom(text, i + k, ds[k - 1], WithNumber(st, ValueOf(ds[..k], 10))) ==
            ScanFrom(text, i + |ds|, ds[|ds| - 1], WithNumber(st, ValueOf(ds, 10)))
    decreases |ds| - k
  {
    hide ValueOf, ScanFrom;
    if k == |ds| {
      assert ds[..k] == ds;
    } else {
      assert ds[k] in ds && ds[k - 1] in ds && text[i + k] == ds[k];
      DigitStep(ds, k);
      ValuePrefix(ds, k + 1);
      var v := ValueOf(ds[..k], 10);
      OneDigit(text, i + k, ds[k - 1], WithNumber(st, v), v);
      ScanDigits(text, i, ds, k + 1, st);
    }
  }

  /** A number is read whole. */
  lemma ScanNumber(text: string, i: nat, v: nat, c: char, st: Scan)
    requires v < UINT_RANGE && st.b == 0 && !IsSpace(c)
    requires At(text, i, Digits(v, false))
    ensures var ds := Digits(v, false);
            var last := ds[|ds| - 1];
            && !IsSpace(last)
            && ScanFrom(text, i, c, st) == ScanFrom(text, i + |ds|, last, WithNumber(st, v))
  {
    hide Digits, ScanFrom, ValueOf;
    var ds := Digits(v, false);
    DigitsValue(v, false);
    assert forall c :: c in ds ==> IsDigit(c);
    assert text[i + 0] == ds[0] && ds[0] in ds && ds[|ds| - 1] in ds;
    FirstDigit(ds);
    ValuePrefix(ds, 1);
    OneDigit(text, i, c, st, 0);
    ScanDigits(text, i, ds, 1, st);
  }

  lemma FirstDigit(ds: string)
    requires ds != [] && IsDigit(ds[0])
    ensures ValueOf(ds[..1], 10) == (ds[0] - '0') as nat
  {
    DigitStep(ds, 0);
    assert ds[..0] == [];
  }

  /** The state in which a printed range leaves the scan. */
  function RangeState(r: Range): Scan {
    if r.lo == r.hi then Scan(r.lo, r.lo, false, false, true) else Scan(r.lo, r.hi, false, true, true)
  }

  lemma Dash(text: string, i: nat, c: char, st: Scan)
    requires i < |text| && text[i] == '-' && !IsSpace(c) && !st.atStart && !st.inRange
    ensures ScanFrom(text, i, c, st) == ScanFrom(text, i + 1, '-', st.(b := 0, inRange := true, atStart := true))
  {
  }

  /** A printed range is read whole. */
  lemma ScanRange(text: string, i: nat, r: Range, c: char) returns (last: char)
    requires r.lo < UINT_RANGE && r.hi < UINT_RANGE && !IsSpace(c)
    requires At(text, i, RangeText(r))
    ensures !IsSpace(last)
    ensures ScanFrom(text, i, c, NEW_VALUE) == ScanFrom(text, i + |RangeText(r)|, last, RangeState(r))
  {
    hide Digits, ScanFrom, At;
    var lo, hi := Digits(r.lo, false), Digits(r.hi, false);
    if r.lo == r.hi {
      ScanNumber(text, i, r.lo, c, NEW_VALUE);
      last := lo[|lo| - 1];
    } else {
      AtParts(text, i, lo + "-", hi);
      AtParts(text, i, lo, "-");
      ScanNumber(text, i, r.lo, c, NEW_VALUE);
      AtDash(text, i + |lo|);
      Dash(text, i + |lo|, lo[|lo| - 1], WithNumber(NEW_VALUE, r.lo));
      ScanNumber(text, i + |lo| + 1, r.hi, '-', Scan(r.lo, 0, true, true, true));
      last := hi[|hi| - 1];
    }
  }

  lemma AtDash(text: string, i: nat)
    requires At(text, i, "-")
    ensures i < |text| && text[i] == '-'
  {
    assert text[i + 0] == "-"[0];
  }

  /** The scan of one value stops at a comma or at the end. */
  lemma Stops(text: string, i: nat, c: char, st: Scan)
    requires i <= |text| && (i < |text| ==> text[i] == ',')
    ensures ScanFrom(text, i, c, st) == if i < |text| then Ended(st, i + 1, ',') else Ended(st, i, c)
  {
  }

  lemma ListTextCons(rs: seq<Range>)
    requires rs != []
    ensures |rs| == 1 ==> ListText(rs) == RangeText(rs[0])
    ensures |rs| > 1 ==> ListText(rs) == RangeText(rs[0]) + ("," + ListText(rs[1..])) && ListText(rs[1..]) != []
  {
    if |rs| > 1 {
      ListRoomExact(rs[1..]);
      hide RangeText;
    }
  }

  lemma AtComma(text: string, i: nat, rest: string)
    requires At(text, i, "," + rest)
    ensures i < |text| && text[i] == ',' && At(text, i + 1, rest)
  {
    AtParts(text, i, ",", rest);
    assert text[i + 0] == (",")[0];
  }

  /** The printed list is read back as the ranges it was printed from. */
  lemma {:induction false} ReadList(text: string, i: nat, c: char, rs: seq<Range>, acc: seq<Range>)
    requires At(text, i, ListText(rs)) && i + |ListText(rs)| == |text| && rs != [] && !IsSpace(c)
    requires forall k :: 0 <= k < |rs| ==> rs[k].lo <= rs[k].hi < UINT_RANGE
    ensures ListFrom(text, i, c, acc) == Some(acc + rs)
    decreases |rs|
  {
    hide RangeText, ListText, At, ScanFrom, ListFrom;
    var r := rs[0];
    var n := i + |RangeText(r)|;
    ListTextCons(rs);
    ListStep(text, i, c, acc);
    if |rs| == 1 {
      var last := ScanRange(text, i, r, c);
      Stops(text, n, last, RangeState(r));
      assert rs == [r];
    } else {
      var rest := rs[1..];
      AtParts(text, i, RangeText(r), "," + ListText(rest));
      var last := ScanRange(text, i, r, c);
      AtComma(text, n, ListText(rest));
      Stops(text, n, last, RangeState(r));
      ReadList(text, n + 1, ',', rest, acc + [r]);
      assert acc + [r] + rest == acc + rs;
    }
  }

  // ---- what is refused ----

  /** A range that ends before it starts is refused. */
  lemma ReversedRange(r: Range)
    requires r.hi < r.lo < UINT_RANGE
    ensures ListOf(RangeText(r)) == None
  {
    var text := RangeText(r);
    hide RangeText, ScanFrom, ListFrom;
    var last := ScanRange(text, 0, r, NUL);
    Stops(text, |text|, last, RangeState(r));
    ListStep(text, 0, NUL, []);
  }

  predicate ListChar(c: char) { '0' <= c <= '9' || c == ' ' || 9 <= c as int <= 13 || c == ',' || c == '-' }

  lemma {:induction false} ScannedChars(text: string, i: nat, c: char, st: Scan)
    requires i <= |text| && NUL !in text && ScanFrom(text, i, c, st).Ended?
    ensures var o := ScanFrom(text, i, c, st);
            && (forall k :: i <= k < o.next ==> ListChar(text[k]))
            && (o.next < |text| ==> o.last == ',')
    decreases |text| - i
  {
    if i < |text| {
      assert text[i] in text;
      if IsSpace(text[i]) {
        ScannedChars(text, i + 1, text[i], st);
      } else if text[i] != ',' {
        ScannedChars(text, i + 1, text[i],
                     if text[i] == '-' then st.(b := 0, inRange := true, atStart := true) else PutDigit(st, text[i]));
      }
    }
  }

  lemma {:induction false} ListedChars(text: string, i: nat, c: char, acc: seq<Range>)
    requires i <= |text| && NUL !in text && ListFrom(text, i, c, acc).Some?
    ensures forall k :: i <= k < |text| ==> ListChar(text[k])
    decreases |text| - i
  {
    var o := ScanFrom(text, i, c, NEW_VALUE);
    ScannedChars(text, i, c, NEW_VALUE);
    hide ScanFrom, ListChar;
    if o.next < |text| {
      ListedChars(text, o.next, o.last, Extended(acc, o.st));
    }
  }

  /** A list with any character but digits, blanks, commas and dashes is refused. */
  lemma OnlyListCharacters(text: string)
    requires NUL !in text && ListOf(text).Some?
    ensures forall c :: c in text ==> ListChar(c)
  {
    ListedChars(text, 0, NUL, []);
  }

  lemma {:induction false} MaskBitsLast(rs: seq<Range>)
    requires Separate(rs) && rs != []
    ensures MaskBits(rs) == rs[|rs| - 1].hi + 1
  {
    if |rs| > 1 {
      MaskBitsLast(rs[..|rs| - 1]);
    }
  }

  lemma EmptyReadsBack(bits: Bits)
    requires Ranges(bits) == []
    ensures ListOf("") == Some([]) && LastBit(bits, |bits|) == -1
  {
    hide LastBit;
    NextRange(bits, 0);
  }

  lemma SomeReadBack(bits: Bits)
    requires Ranges(bits) != []
    ensures ListOf(ListText(Ranges(bits))) == Some(Ranges(bits))
    ensures MaskBits(Ranges(bits)) == LastBit(bits, |bits|) + 1
  {
    hide RangesFrom, ListText, ListFrom, LastBit, Covered, MaskBits;
    var rs := Ranges(bits);
    RangesExact(bits);
    LastRange(bits, 0);
    MaskBitsLast(rs);
    ReadList(ListText(rs), 0, NUL, rs, []);
    assert [] + rs == rs;
  }

  /** The member list of a descriptor denotes exactly the group's bitset: it parses,
      the ranges read back cover the set bits and no others, and the mask made for
      them ends at the last set bit. */
  lemma ListReadsBack(bits: Bits)
    ensures var rs := Ranges(bits);
            && ListOf(ListText(rs)) == Some(rs)
            && Readable(ListText(rs))
            && MaskBits(rs) == LastBit(bits, |bits|) + 1
    ensures forall x: nat :: Covered(Ranges(bits), x) <==> x < |bits| && bits[x]
  {
    hide Ranges, ListOf, ListText, Covered, LastBit;
    RangesExact(bits);
    ListRoomExact(Ranges(bits));
    if Ranges(bits) == [] {
      EmptyReadsBack(bits);
    } else {
      SomeReadBack(bits);
    }
  }
}
