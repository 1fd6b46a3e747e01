/** Reading table lines back: from the words alone, as a target takes them, every setting
    is found again with its own value. */
module LineReading {
  import opened Options
  import opened ConfigWriter
  import opened ConfigParser
  import opened ConfigTokens
  import opened PopCount
  import opened TableLines
  import opened FeatureLines

  // ---- a reader of flags and named values ----

  /** The words that stand alone, and the order in which names have to come. */
  datatype Grammar = Grammar(flags: set<string>, order: seq<string>)

  /** What has been read: flags, names with their values, the place of the last name in
      the order, and whether no name came too late. */
  datatype Settings = Malformed | Settings(flags: set<string>, pairs: set<(string, string)>, last: nat, sorted: bool)

  const NOTHING := Settings({}, {}, 0, true)

  /** The place of a name in the order. */
  function Rank(order: seq<string>, name: string): nat {
    if order == [] || order[0] == name then 0 else 1 + Rank(order[1..], name)
  }

  /** The reading with a flag or a value more. */
  function Taken(s: Settings, g: Grammar, name: string, value: Option<string>): Settings
    requires s.Settings?
  {
    var k := Rank(g.order, name);
    Settings(if value.None? then s.flags + {name} else s.flags,
             if value.Some? then s.pairs + {(name, value.value)} else s.pairs, k, s.sorted && s.last <= k)
  }

  function ReadWords(ws: Words, g: Grammar, s: Settings): Settings
    decreases |ws|
  {
    if ws == [] || s.Malformed? then s
    else if ws[0] in g.flags then ReadWords(ws[1..], g, Taken(s, g, ws[0], None))
    else if |ws| == 1 then Malformed
    else ReadWords(ws[2..], g, Taken(s, g, ws[0], Some(ws[1])))
  }

  lemma {:induction false} ReadCat(a: Words, b: Words, g: Grammar, s: Settings)
    requires ReadWords(a, g, s).Settings?
    ensures ReadWords(a + b, g, s) == ReadWords(b, g, ReadWords(a, g, s))
    decreases |a|
  {
    if a == [] {
      assert a + b == b;
    } else if a[0] in g.flags {
      assert (a + b)[1..] == a[1..] + b;
      ReadCat(a[1..], b, g, Taken(s, g, a[0], None));
    } else {
      assert |a| > 1;
      assert (a + b)[2..] == a[2..] + b && (a + b)[1] == a[1];
      ReadCat(a[2..], b, g, Taken(s, g, a[0], Some(a[1])));
    }
  }

  // ---- lists of settings ----

  /** A setting of a line: a flag, or a name with any number of values. */
  datatype Setting = Switch(given: bool, name: string) | Named(name: string, values: seq<string>)

  function ValueWords(name: string, values: seq<string>): Words {
    if values == [] then [] else ValueWords(name, values[..|values| - 1]) + [name, values[|values| - 1]]
  }

  function WordsOf(x: Setting): Words {
    match x
    case Switch(given, name) => WordIf(given, name)
    case Named(name, values) => ValueWords(name, values)
  }

  function AllWords(xs: seq<Setting>): Words {
    if xs == [] then [] else AllWords(xs[..|xs| - 1]) + WordsOf(xs[|xs| - 1])
  }

  function FlagsOf(xs: seq<Setting>): set<string> {
    set x | x in xs && x.Switch? && x.given :: x.name
  }

  function PairsOf(xs: seq<Setting>): set<(string, string)> {
    set x, v | x in xs && x.Named? && v in x.values :: (x.name, v)
  }

  /** A flag is a word that stands alone, and a name is none. */
  predicate Readable(xs: seq<Setting>, g: Grammar) {
    forall x :: x in xs ==> (x.Switch? <==> x.name in g.flags)
  }

  lemma {:induction false} ReadValues(name: string, values: seq<string>, g: Grammar, s: Settings)
    requires s.Settings? && name !in g.flags
    ensures var r := ReadWords(ValueWords(name, values), g, s);
            var k := Rank(g.order, name);
            r == if values == [] then s
                 else s.(pairs := s.pairs + (set v | v in values :: (name, v)), last := k, sorted := s.sorted
                     && s.last <= k)
  {
    if values != [] {
      var n := |values| - 1;
      var front, last := values[..n], values[n];
      ReadValues(name, front, g, s);
      var r := ReadWords(ValueWords(name, front), g, s);
      ReadCat(ValueWords(name, front), [name, last], g, s);
      OnePair(name, last, g, r);
      hide ReadWords, Rank;
      assert values == front + [last];
    }
  }

  lemma OnePair(name: string, v: string, g: Grammar, s: Settings)
    requires s.Settings? && name !in g.flags
    ensures ReadWords([name, v], g, s) == Taken(s, g, name, Some(v))
  {
    assert [name, v][2..] == [];
  }

  lemma OneFlag(name: string, g: Grammar, s: Settings)
    requires s.Settings? && name in g.flags
    ensures ReadWords([name], g, s) == Taken(s, g, name, None)
  {
    assert [name][1..] == [];
  }

  /** One more setting is read with its flag or its values. */
  lemma ReadSetting(x: Setting, g: Grammar, s: Settings)
    requires s.Settings? && (x.Switch? <==> x.name in g.flags)
    ensures var r := ReadWords(WordsOf(x), g, s);
            var k := Rank(g.order, x.name);
            && r.Settings?
            && r.flags == s.flags + FlagsOf([x]) && r.pairs == s.pairs + PairsOf([x])
            && (r.last == s.last || r.last == k) && (s.last <= k ==> r.sorted == s.sorted)
  {
    match x {
      case Switch(given, name) =>
        if given {
          OneFlag(name, g, s);
        }
      case Named(name, values) => ReadValues(name, values, g, s);
    }
    hide ReadWords, ValueWords, Rank;
    assert forall y :: y in [x] <==> y == x;
  }

  /** Any list of settings is read back exactly. */
  lemma {:induction false} ReadSettings(xs: seq<Setting>, g: Grammar)
    requires Readable(xs, g)
    ensures var r := ReadWords(AllWords(xs), g, NOTHING);
            r.Settings? && r.flags == FlagsOf(xs) && r.pairs == PairsOf(xs)
  {
    if xs != [] {
      var front, x := xs[..|xs| - 1], xs[|xs| - 1];
      assert xs == front + [x];
      ReadSettings(front, g);
      var r := ReadWords(AllWords(front), g, NOTHING);
      ReadCat(AllWords(front), WordsOf(x), g, NOTHING);
      ReadSetting(x, g, r);
      hide ReadWords, AllWords, WordsOf;
      SettingsSnoc(front, x);
    }
  }

  lemma SettingsSnoc(front: seq<Setting>, x: Setting)
    ensures FlagsOf(front + [x]) == FlagsOf(front) + FlagsOf([x])
    ensures PairsOf(front + [x]) == PairsOf(front) + PairsOf([x])
  {
    assert forall y :: y in front + [x] <==> y in front || y in [x];
  }

  // ---- the order ----

  predicate Distinct(order: seq<string>) {
    forall i, j :: 0 <= i < j < |order| ==> order[i] != order[j]
  }

  lemma {:induction false} RankAt(order: seq<string>, i: nat)
    requires Distinct(order) && i < |order|
    ensures Rank(order, order[i]) == i
    decreases i
  {
    if i > 0 {
      assert order[0] != order[i];
      RankAt(order[1..], i - 1);
    }
  }

  /** The settings are those of the order, one for each name. */
  predicate Follows(xs: seq<Setting>, order: seq<string>) {
    |xs| == |order| && forall i :: 0 <= i < |xs| ==> xs[i].name == order[i]
  }

  lemma AllWordsSnoc(front: seq<Setting>, x: Setting)
    ensures AllWords(front + [x]) == AllWords(front) + WordsOf(x)
  {
    assert (front + [x])[..|front|] == front;
  }

  lemma ReadNext(front: seq<Setting>, x: Setting, g: Grammar)
    requires (x.Switch? <==> x.name in g.flags) && ReadWords(AllWords(front), g, NOTHING).Settings?
    ensures var s, r := ReadWords(AllWords(front), g, NOTHING), ReadWords(AllWords(front + [x]), g, NOTHING);
            var k := Rank(g.order, x.name);
            r.Settings? && (r.last == s.last || r.last == k) && (s.last <= k ==> r.sorted == s.sorted)
  {
    hide *;
    AllWordsSnoc(front, x);
    ReadCat(AllWords(front), WordsOf(x), g, NOTHING);
    ReadSetting(x, g, ReadWords(AllWords(front), g, NOTHING));
  }

  lemma ReadNone(g: Grammar)
    ensures ReadWords(AllWords([]), g, NOTHING) == NOTHING
  {
  }

  lemma {:induction false} ReadInOrder(xs: seq<Setting>, g: Grammar, n: nat)
    requires Readable(xs, g) && Distinct(g.order) && Follows(xs, g.order) && n <= |xs|
    ensures var r := ReadWords(AllWords(xs[..n]), g, NOTHING);
            r.Settings? && r.sorted && r.last <= n && (n > 0 ==> r.last < n)
  {
    hide ReadWords, AllWords, Rank, Distinct;
    if n == 0 {
      ReadNone(g);
      assert xs[..0] == [];
    } else {
      ReadInOrder(xs, g, n - 1);
      var front, x := xs[..n - 1], xs[n - 1];
      assert xs[..n] == front + [x];
      assert x in xs;
      ReadNext(front, x, g);
      RankAt(g.order, n - 1);
    }
  }

  // ---- raid ----

  /** The optional arguments of a raid set. */
  datatype Key =
    | NoSync | Sync | Rebuild | MinRate | MaxRate | WriteMostly
    | WriteBehind | RegionSize | Copies | DeltaDisks | DataOffset

  const RAID_FLAGS := {"nosync", "sync"}

  /** The order of the kernel's documentation, and the one that versions 1.9 and 1.10 of
      the target need. */
  const DOCUMENTED: seq<Key> := [NoSync, Sync, Rebuild, MinRate, MaxRate, WriteMostly,
                                 WriteBehind, RegionSize, Copies, DeltaDisks, DataOffset]

  const ODD: seq<Key> := [Copies, NoSync, Sync, RegionSize, DataOffset, DeltaDisks,
                          Rebuild, WriteMostly, WriteBehind, MaxRate, MinRate]

  function NameOf(k: Key): string {
    match k
    case NoSync => "nosync"
    case Sync => "sync"
    case Rebuild => "rebuild"
    case MinRate => "min_recovery_rate"
    case MaxRate => "max_recovery_rate"
    case WriteMostly => "write_mostly"
    case WriteBehind => "max_write_behind"
    case RegionSize => "region_size"
    case Copies => "raid10_copies"
    case DeltaDisks => "delta_disks"
    case DataOffset => "data_offset"
  }

  function NamesOf(keys: seq<Key>): seq<string> { seq(|keys|, i requires 0 <= i < |keys| => NameOf(keys[i])) }

  function OrderOf(documented: bool): Grammar {
    Grammar(RAID_FLAGS, NamesOf(if documented then DOCUMENTED else ODD))
  }

  lemma DifferentNames(a: Key, b: Key)
    requires a != b
    ensures NameOf(a) != NameOf(b)
  {
    assert "min_recovery_rate"[1] != "max_recovery_rate"[1];
    assert "region_size"[0] != "delta_disks"[0] && "region_size"[0] != "data_offset"[0];
    assert "data_offset"[1] != "delta_disks"[1];
  }

  lemma DistinctNames(documented: bool)
    ensures Distinct(OrderOf(documented).order)
  {
    hide NameOf;
    var keys := if documented then DOCUMENTED else ODD;
    forall i, j | 0 <= i < j < |keys| ensures NameOf(keys[i]) != NameOf(keys[j]) {
      DifferentNames(keys[i], keys[j]);
    }
  }

  lemma FlagNames(k: Key)
    ensures NameOf(k) in RAID_FLAGS <==> k.NoSync? || k.Sync?
  {
    hide NameOf;
    assert NameOf(NoSync) == "nosync" && NameOf(Sync) == "sync" by { TwoNames(); }
    if !k.NoSync? && !k.Sync? {
      DifferentNames(k, NoSync);
      DifferentNames(k, Sync);
    }
  }

  lemma TwoNames()
    ensures NameOf(NoSync) == "nosync" && NameOf(Sync) == "sync"
  {
  }

  function NumberIf(b: bool, name: string, n: int): Setting { Named(name, if b then [Decimal(n)] else []) }

  /** The numbers of the set bits below n. */
  function BitNumbers(bits: Bitmap, n: nat): seq<string>
    requires n <= BITMAP_BITS
  {
    if n == 0 then [] else BitNumbers(bits, n - 1) + if Has(bits, n - 1) then [Decimal(n - 1)] else []
  }

  lemma {:induction false} BitNumbersHave(bits: Bitmap, n: nat, v: string)
    requires n <= BITMAP_BITS
    ensures v in BitNumbers(bits, n) <==> exists i :: 0 <= i < n && Has(bits, i) && v == Decimal(i)
  {
    hide Has, Decimal;
    if n > 0 {
      BitNumbersHave(bits, n - 1, v);
    }
  }

  lemma {:induction false} BitWordsAre(name: string, bits: Bitmap, n: nat)
    requires n <= BITMAP_BITS
    ensures BitWords(name, bits, n) == ValueWords(name, BitNumbers(bits, n))
  {
    hide Has, Decimal;
    if n > 0 {
      BitWordsAre(name, bits, n - 1);
      var front := BitNumbers(bits, n - 1);
      if Has(bits, n - 1) {
        assert (front + [Decimal(n - 1)])[..|front|] == front;
      } else {
        assert front + [] == front;
      }
    }
  }

  lemma NumIfIs(b: bool, name: string, n: int)
    ensures NumIf(b, name, n) == WordsOf(NumberIf(b, name, n))
  {
    hide Decimal;
    assert ValueWords(name, []) == [];
    assert [Decimal(n)][..0] == [];
  }

  /** What a raid set asks for, in the terms of a reader. */
  function RaidSetting(r: Raid, k: Key): Setting
    requires r.Pairs() <= BITMAP_BITS
  {
    var name := NameOf(k);
    match k
    case NoSync => Switch(r.nosync, name)
    case Sync => Switch(!r.nosync && r.forceSync, name)
    case Rebuild => Named(name, BitNumbers(r.rebuilds, r.Pairs()))
    case WriteMostly => Named(name, BitNumbers(r.writeMostly, r.Pairs()))
    case MinRate => NumberIf(r.minRate != 0, name, r.minRate)
    case MaxRate => NumberIf(r.maxRate != 0, name, r.maxRate)
    case WriteBehind => NumberIf(r.writeBehind != 0, name, r.writeBehind)
    case RegionSize => NumberIf(r.regionSize != 0, name, r.regionSize)
    case Copies => NumberIf(r.dataCopies > 1 && r.raid10, name, r.dataCopies)
    case DeltaDisks => NumberIf(r.deltaDisks != 0, name, r.deltaDisks)
    case DataOffset => NumberIf(r.dataOffset != 0, name, if r.dataOffset == 1 then 0 else r.dataOffset)
  }

  function RaidSettings(r: Raid, keys: seq<Key>): (xs: seq<Setting>)
    requires r.Pairs() <= BITMAP_BITS
  {
    seq(|keys|, i requires 0 <= i < |keys| => RaidSetting(r, keys[i]))
  }

  /** What the emitter prints for an argument. */
  function Printed(r: Raid, k: Key): Words
    requires r.Pairs() <= BITMAP_BITS
  {
    match k
    case NoSync => WordIf(r.nosync, "nosync")
    case Sync => WordIf(!r.nosync && r.forceSync, "sync")
    case Rebuild => BitWords("rebuild", r.rebuilds, r.Pairs())
    case WriteMostly => BitWords("write_mostly", r.writeMostly, r.Pairs())
    case MinRate => NumIf(r.minRate != 0, "min_recovery_rate", r.minRate)
    case MaxRate => NumIf(r.maxRate != 0, "max_recovery_rate", r.maxRate)
    case WriteBehind => NumIf(r.writeBehind != 0, "max_write_behind", r.writeBehind)
    case RegionSize => NumIf(r.regionSize != 0, "region_size", r.regionSize)
    case Copies => CopiesWords(r)
    case DeltaDisks => NumIf(r.deltaDisks != 0, "delta_disks", r.deltaDisks)
    case DataOffset => OffsetWords(r)
  }

  lemma PrintedIs(r: Raid, k: Key)
    requires r.Pairs() <= BITMAP_BITS
    ensures Printed(r, k) == WordsOf(RaidSetting(r, k))
  {
    hide WordIf, NumIf, Decimal, ValueWords, BitWords, BitNumbers, NumberIf;
    match k {
      case NoSync =>
      case Sync =>
      case Rebuild => BitWordsAre("rebuild", r.rebuilds, r.Pairs());
      case WriteMostly => BitWordsAre("write_mostly", r.writeMostly, r.Pairs());
      case MinRate => NumIfIs(r.minRate != 0, "min_recovery_rate", r.minRate);
      case MaxRate => NumIfIs(r.maxRate != 0, "max_recovery_rate", r.maxRate);
      case WriteBehind => NumIfIs(r.writeBehind != 0, "max_write_behind", r.writeBehind);
      case RegionSize => NumIfIs(r.regionSize != 0, "region_size", r.regionSize);
      case Copies => NumIfIs(r.dataCopies > 1 && r.raid10, "raid10_copies", r.dataCopies);
      case DeltaDisks => NumIfIs(r.deltaDisks != 0, "delta_disks", r.deltaDisks);
      case DataOffset => NumIfIs(r.dataOffset != 0, "data_offset", if r.dataOffset == 1 then 0 else r.dataOffset);
    }
  }

  /** The stripe size and the arguments of a list of keys. */
  function RaidLine(r: Raid, keys: seq<Key>): Words
    requires r.Pairs() <= BITMAP_BITS
  {
    if keys == [] then [Decimal(r.stripeSize)]
    else RaidLine(r, keys[..|keys| - 1]) + Printed(r, keys[|keys| - 1])
  }

  lemma RaidLineSnoc(r: Raid, keys: seq<Key>, k: Key)
    requires r.Pairs() <= BITMAP_BITS
    ensures RaidLine(r, keys + [k]) == RaidLine(r, keys) + Printed(r, k)
  {
    assert (keys + [k])[..|keys|] == keys;
  }

  lemma {:induction false} RaidLineIs(r: Raid, keys: seq<Key>)
    requires r.Pairs() <= BITMAP_BITS
    ensures RaidLine(r, keys) == [Decimal(r.stripeSize)] + AllWords(RaidSettings(r, keys))
  {
    hide Printed, WordsOf, RaidSetting, Decimal;
    if keys != [] {
      var front, k := keys[..|keys| - 1], keys[|keys| - 1];
      RaidLineIs(r, front);
      PrintedIs(r, k);
      assert RaidSettings(r, keys) == RaidSettings(r, front) + [RaidSetting(r, k)];
      AllWordsSnoc(RaidSettings(r, front), RaidSetting(r, k));
    }
  }

  lemma SyncIs(r: Raid)
    requires r.Pairs() <= BITMAP_BITS
    ensures SyncWords(r.nosync, r.forceSync) == Printed(r, NoSync) + Printed(r, Sync)
  {
  }

  lemma CatWords(a: Words, b: Words, c: Words)
    ensures a + b + c == a + (b + c)
  {
  }

  lemma EmptyLine(r: Raid)
    requires r.Pairs() <= BITMAP_BITS
    ensures RaidLine(r, []) == [Decimal(r.stripeSize)]
  {
  }

  lemma DocumentedIs(r: Raid)
    requires r.Pairs() <= BITMAP_BITS
    ensures DocumentedArgs(r) == RaidLine(r, DOCUMENTED)
  {
    hide RaidLine, NumIf, BitWords, SyncWords, OffsetWords, CopiesWords, WordIf, Decimal;
    var keys: seq<Key> := [];
    EmptyLine(r);
    SyncIs(r);
    RaidLineSnoc(r, keys, NoSync);
    keys := keys + [NoSync];
    RaidLineSnoc(r, keys, Sync);
    keys := keys + [Sync];
    CatWords([Decimal(r.stripeSize)], Printed(r, NoSync), Printed(r, Sync));
    RaidLineSnoc(r, keys, Rebuild);
    keys := keys + [Rebuild];
    RaidLineSnoc(r, keys, MinRate);
    keys := keys + [MinRate];
    RaidLineSnoc(r, keys, MaxRate);
    keys := keys + [MaxRate];
    RaidLineSnoc(r, keys, WriteMostly);
    keys := keys + [WriteMostly];
    RaidLineSnoc(r, keys, WriteBehind);
    keys := keys + [WriteBehind];
    RaidLineSnoc(r, keys, RegionSize);
    keys := keys + [RegionSize];
    RaidLineSnoc(r, keys, Copies);
    keys := keys + [Copies];
    RaidLineSnoc(r, keys, DeltaDisks);
    keys := keys + [DeltaDisks];
    RaidLineSnoc(r, keys, DataOffset);
    keys := keys + [DataOffset];
    assert keys == DOCUMENTED;
  }

  lemma OddIs(r: Raid)
    requires r.Pairs() <= BITMAP_BITS
    ensures OddArgs(r) == RaidLine(r, ODD)
  {
    hide RaidLine, NumIf, BitWords, SyncWords, OffsetWords, CopiesWords, WordIf, Decimal;
    var keys: seq<Key> := [];
    EmptyLine(r);
    SyncIs(r);
    RaidLineSnoc(r, keys, Copies);
    keys := keys + [Copies];
    RaidLineSnoc(r, keys, NoSync);
    keys := keys + [NoSync];
    RaidLineSnoc(r, keys, Sync);
    keys := keys + [Sync];
    CatWords([Decimal(r.stripeSize)] + CopiesWords(r), Printed(r, NoSync), Printed(r, Sync));
    RaidLineSnoc(r, keys, RegionSize);
    keys := keys + [RegionSize];
    RaidLineSnoc(r, keys, DataOffset);
    keys := keys + [DataOffset];
    RaidLineSnoc(r, keys, DeltaDisks);
    keys := keys + [DeltaDisks];
    RaidLineSnoc(r, keys, Rebuild);
    keys := keys + [Rebuild];
    RaidLineSnoc(r, keys, WriteMostly);
    keys := keys + [WriteMostly];
    RaidLineSnoc(r, keys, WriteBehind);
    keys := keys + [WriteBehind];
    RaidLineSnoc(r, keys, MaxRate);
    keys := keys + [MaxRate];
    RaidLineSnoc(r, keys, MinRate);
    keys := keys + [MinRate];
    assert keys == ODD;
  }

  // ---- what a raid line says ----

  /** A raid set asks for a named argument with the value v. */
  ghost predicate Asked(r: Raid, k: Key, v: string)
    requires r.Pairs() <= BITMAP_BITS
  {
    match k
    case NoSync => false
    case Sync => false
    case Rebuild => exists i :: 0 <= i < r.Pairs() && Has(r.rebuilds, i) && v == Decimal(i)
    case WriteMostly => exists i :: 0 <= i < r.Pairs() && Has(r.writeMostly, i) && v == Decimal(i)
    case MinRate => r.minRate != 0 && v == Decimal(r.minRate)
    case MaxRate => r.maxRate != 0 && v == Decimal(r.maxRate)
    case WriteBehind => r.writeBehind != 0 && v == Decimal(r.writeBehind)
    case RegionSize => r.regionSize != 0 && v == Decimal(r.regionSize)
    case Copies => r.dataCopies > 1 && r.raid10 && v == Decimal(r.dataCopies)
    case DeltaDisks => r.deltaDisks != 0 && v == Decimal(r.deltaDisks)
    case DataOffset => r.dataOffset != 0 && v == Decimal(if r.dataOffset == 1 then 0 else r.dataOffset)
  }

  lemma AskedIs(r: Raid, k: Key, v: string)
    requires r.Pairs() <= BITMAP_BITS
    ensures Asked(r, k, v) <==> RaidSetting(r, k).Named? && v in RaidSetting(r, k).values
    ensures RaidSetting(r, k).name == NameOf(k) && (RaidSetting(r, k).Switch? <==> k.NoSync? || k.Sync?)
  {
    hide Has, Decimal, NameOf, BitNumbers;
    BitNumbersHave(r.rebuilds, r.Pairs(), v);
    BitNumbersHave(r.writeMostly, r.Pairs(), v);
  }

  lemma AllKeys(documented: bool, k: Key)
    ensures k in if documented then DOCUMENTED else ODD
  {
    var keys := if documented then DOCUMENTED else ODD;
    var i := if documented then
               match k case NoSync => 0 case Sync => 1 case Rebuild => 2 case MinRate => 3 case MaxRate => 4
                       case WriteMostly => 5 case WriteBehind => 6 case RegionSize => 7 case Copies => 8
                       case DeltaDisks => 9 case DataOffset => 10
             else
               match k case Copies => 0 case NoSync => 1 case Sync => 2 case RegionSize => 3 case DataOffset => 4
                       case DeltaDisks => 5 case Rebuild => 6 case WriteMostly => 7 case WriteBehind => 8
                       case MaxRate => 9 case MinRate => 10;
    assert keys[i] == k;
  }

  /** The settings of a raid set, read by name. */
  lemma RaidPairs(r: Raid, documented: bool, xs: seq<Setting>)
    requires r.Pairs() <= BITMAP_BITS && xs == RaidSettings(r, if documented then DOCUMENTED else ODD)
    ensures forall k, v :: (NameOf(k), v) in PairsOf(xs) <==> Asked(r, k, v)
    ensures forall p :: p in PairsOf(xs) ==> exists k :: p.0 == NameOf(k)
    ensures FlagsOf(xs) == if r.nosync then {"nosync"} else if r.forceSync then {"sync"} else {}
  {
    hide NameOf, RaidSetting, Asked;
    var keys := if documented then DOCUMENTED else ODD;
    forall x | x in xs ensures exists k :: x == RaidSetting(r, k) {
      var i :| 0 <= i < |keys| && x == RaidSetting(r, keys[i]);
    }
    forall k ensures RaidSetting(r, k) in xs && RaidSetting(r, k).name == NameOf(k) {
      AllKeys(documented, k);
      var i :| 0 <= i < |keys| && keys[i] == k;
      assert xs[i] == RaidSetting(r, k);
      AskedIs(r, k, "");
    }
    forall k, v ensures (NameOf(k), v) in PairsOf(xs) <==> Asked(r, k, v) {
      PairOf(r, xs, k, v);
    }
    RaidFlags(r, xs);
  }

  lemma PairOf(r: Raid, xs: seq<Setting>, k: Key, v: string)
    requires r.Pairs() <= BITMAP_BITS
    requires forall x :: x in xs ==> exists k :: x == RaidSetting(r, k)
    requires RaidSetting(r, k) in xs
    ensures (NameOf(k), v) in PairsOf(xs) <==> Asked(r, k, v)
  {
    hide NameOf, RaidSetting, Asked;
    AskedIs(r, k, v);
    if (NameOf(k), v) in PairsOf(xs) {
      var x :| x in xs && x.Named? && v in x.values && x.name == NameOf(k);
      var l :| x == RaidSetting(r, l);
      AskedIs(r, l, v);
      if l != k {
        DifferentNames(l, k);
      }
    }
  }

  lemma RaidFlags(r: Raid, xs: seq<Setting>)
    requires r.Pairs() <= BITMAP_BITS
    requires forall x :: x in xs ==> exists k :: x == RaidSetting(r, k)
    requires RaidSetting(r, NoSync) in xs && RaidSetting(r, Sync) in xs
    ensures FlagsOf(xs) == if r.nosync then {"nosync"} else if r.forceSync then {"sync"} else {}
  {
    assert RaidSetting(r, NoSync) == Switch(r.nosync, "nosync");
    assert RaidSetting(r, Sync) == Switch(!r.nosync && r.forceSync, "sync");
    hide RaidSetting, NameOf;
    forall x | x in xs && x.Switch? ensures x == RaidSetting(r, NoSync) || x == RaidSetting(r, Sync) {
      var k :| x == RaidSetting(r, k);
      AskedIs(r, k, "");
    }
  }

  lemma RaidReadable(r: Raid, documented: bool)
    requires r.Pairs() <= BITMAP_BITS
    ensures var g := OrderOf(documented);
            var xs := RaidSettings(r, if documented then DOCUMENTED else ODD);
            Readable(xs, g) && Follows(xs, g.order) && Distinct(g.order)
  {
    hide RaidSetting, NameOf, Distinct;
    var g := OrderOf(documented);
    var keys := if documented then DOCUMENTED else ODD;
    var xs := RaidSettings(r, keys);
    DistinctNames(documented);
    forall i | 0 <= i < |xs| ensures xs[i].name == g.order[i] && (xs[i].Switch? <==> xs[i].name in g.flags) {
      AskedIs(r, keys[i], "");
      FlagNames(keys[i]);
    }
  }

  /** The arguments of a raid line, read back by a target: the stripe size comes first;
      behind it, in the order of its version, come exactly the settings of the set, each
      with its own value. */
  lemma RaidReadsBack(r: Raid, documented: bool)
    requires r.Pairs() <= BITMAP_BITS
    ensures var args := RaidArgs(r, documented);
            && args != [] && args[0] == Decimal(r.stripeSize)
            && var s := ReadWords(args[1..], OrderOf(documented), NOTHING);
               && s.Settings? && s.sorted
               && s.flags == (if r.nosync then {"nosync"} else if r.forceSync then {"sync"} else {})
               && (forall k, v :: (NameOf(k), v) in s.pairs <==> Asked(r, k, v))
               && (forall p :: p in s.pairs ==> exists k :: p.0 == NameOf(k))
  {
    var keys := if documented then DOCUMENTED else ODD;
    var args, xs, g := RaidArgs(r, documented), RaidSettings(r, keys), OrderOf(documented);
    DocumentedIs(r);
    OddIs(r);
    RaidLineIs(r, keys);
    RaidReadable(r, documented);
    RaidPairs(r, documented, xs);
    hide ReadWords, AllWords, RaidSettings, DocumentedArgs, OddArgs, RaidLine, Asked, NameOf, Decimal, OrderOf,
        PairsOf, FlagsOf;
    assert args[1..] == AllWords(xs);
    ReadSettings(xs, g);
    ReadInOrder(xs, g, |xs|);
    assert xs[..|xs|] == xs;
  }

  /** Both orders tell the target the same. */
  lemma OrdersAgree(r: Raid)
    requires r.Pairs() <= BITMAP_BITS
    ensures var a := ReadWords(RaidArgs(r, true)[1..], OrderOf(true), NOTHING);
            var b := ReadWords(RaidArgs(r, false)[1..], OrderOf(false), NOTHING);
            a.Settings? && b.Settings? && a.flags == b.flags && a.pairs == b.pairs
  {
    RaidReadsBack(r, true);
    RaidReadsBack(r, false);
    hide ReadWords, RaidArgs, Asked, NameOf, OrderOf;
  }

  /** The number that a word denotes. */
  function NumberOf(w: string): int { if w != [] && w[0] == '-' then 0 - ValueOf(w[1..], 10) else ValueOf(w, 10) }

  /** The words for numbers denote them. */
  lemma DecimalReadsBack(n: int)
    ensures NumberOf(Decimal(n)) == n
  {
    hide ValueOf;
    var ds := Digits(if n < 0 then -n else n, false);
    DigitsValue(if n < 0 then -n else n, false);
    assert ds[0] in ds;
    hide Digits;
    assert n < 0 ==> Decimal(n)[1..] == ds;
  }

  // ---- mirror ----

  const LOG_WORDS := Grammar({"nosync", "sync", "block_on_error"}, [])

  /** The setting says that a flag is given. */
  predicate Gives(x: Setting, flag: string) { x.Switch? && x.given && x.name == flag }

  /** The setting gives a name a value. */
  predicate Says(x: Setting, name: string, v: string) { x.Named? && x.name == name && v in x.values }

  lemma ThreeWords(a: Setting, b: Setting, c: Setting)
    ensures AllWords([a, b, c]) == [] + WordsOf(a) + WordsOf(b) + WordsOf(c)
  {
    hide WordsOf;
    var xs: seq<Setting> := [];
    assert AllWords(xs) == [];
    AllWordsSnoc(xs, a);
    xs := xs + [a];
    AllWordsSnoc(xs, b);
    xs := xs + [b];
    AllWordsSnoc(xs, c);
    xs := xs + [c];
    hide AllWords;
    assert xs == [a, b, c];
  }

  lemma FiveWords(a: Setting, b: Setting, c: Setting, d: Setting, e: Setting)
    ensures AllWords([a, b, c, d, e]) == [] + WordsOf(a) + WordsOf(b) + WordsOf(c) + WordsOf(d) + WordsOf(e)
  {
    hide WordsOf;
    var xs: seq<Setting> := [];
    assert AllWords(xs) == [];
    AllWordsSnoc(xs, a);
    xs := xs + [a];
    AllWordsSnoc(xs, b);
    xs := xs + [b];
    AllWordsSnoc(xs, c);
    xs := xs + [c];
    AllWordsSnoc(xs, d);
    xs := xs + [d];
    AllWordsSnoc(xs, e);
    xs := xs + [e];
    hide AllWords;
    assert xs == [a, b, c, d, e];
  }

  lemma SevenWords(a: Setting, b: Setting, c: Setting, d: Setting, e: Setting, f: Setting, g: Setting)
    ensures AllWords([a, b, c, d, e, f, g]) == [] + WordsOf(a) + WordsOf(b) + WordsOf(c) + WordsOf(d)
        + WordsOf(e) + WordsOf(f) + WordsOf(g)
  {
    hide WordsOf;
    var xs: seq<Setting> := [];
    assert AllWords(xs) == [];
    AllWordsSnoc(xs, a);
    xs := xs + [a];
    AllWordsSnoc(xs, b);
    xs := xs + [b];
    AllWordsSnoc(xs, c);
    xs := xs + [c];
    AllWordsSnoc(xs, d);
    xs := xs + [d];
    AllWordsSnoc(xs, e);
    xs := xs + [e];
    AllWordsSnoc(xs, f);
    xs := xs + [f];
    AllWordsSnoc(xs, g);
    xs := xs + [g];
    hide AllWords;
    assert xs == [a, b, c, d, e, f, g];
  }

  /** The arguments of a mirror log: the log device if there is one, the region size, and
      the flags that are set. */
  lemma LogReadsBack(m: Mirror, modern: bool)
    ensures var args := LogArgs(m, modern);
            var k := if m.log.Some? then 1 else 0;
            && |args| > k && (m.log.Some? ==> args[0] == m.log.value) && args[k] == Decimal(m.regionSize)
            && var s := ReadWords(args[k + 1..], LOG_WORDS, NOTHING);
               && s.Settings? && s.pairs == {}
               && s.flags == (if Bit(m.flags, 0) == 1 then {"nosync"} else if Bit(m.flags,
                   1) == 1 then {"sync"} else {})
                           + (if Bit(m.flags, 2) == 1 && !modern then {"block_on_error"} else {})
  {
    var nosync, sync, block := Bit(m.flags, 0) == 1, Bit(m.flags, 1) == 1, Bit(m.flags, 2) == 1;
    var a, b, c := Switch(nosync, "nosync"), Switch(!nosync && sync, "sync"), Switch(block && !modern,
        "block_on_error");
    var xs := [a, b, c];
    LogSettings(nosync, sync, block && !modern);
    LogTail(m, modern);
    hide ReadWords, LogArgs, Bit, Decimal, SyncWords, WordIf, AllWords, FlagsOf, PairsOf, Readable;
    ReadSettings(xs, LOG_WORDS);
  }

  lemma LogSettings(nosync: bool, sync: bool, block: bool)
    ensures var xs := [Switch(nosync, "nosync"), Switch(!nosync && sync, "sync"), Switch(block, "block_on_error")];
            && Readable(xs, LOG_WORDS) && PairsOf(xs) == {}
            && AllWords(xs) == SyncWords(nosync, sync) + WordIf(block, "block_on_error")
            && FlagsOf(xs) == (if nosync then {"nosync"} else if sync then {"sync"} else {})
                            + (if block then {"block_on_error"} else {})
  {
    var a, b, c := Switch(nosync, "nosync"), Switch(!nosync && sync, "sync"), Switch(block, "block_on_error");
    ThreeWords(a, b, c);
    assert [] + WordsOf(a) + WordsOf(b) + WordsOf(c) == SyncWords(nosync, sync) + WordIf(block, "block_on_error");
    hide AllWords, WordsOf, SyncWords, WordIf;
    assert forall x :: x in [a, b, c] <==> x == a || x == b || x == c;
  }

  lemma LogTail(m: Mirror, modern: bool)
    ensures var args := LogArgs(m, modern);
            var k := if m.log.Some? then 1 else 0;
            && |args| > k && (m.log.Some? ==> args[0] == m.log.value) && args[k] == Decimal(m.regionSize)
            && args[k + 1..] == SyncWords(Bit(m.flags, 0) == 1, Bit(m.flags, 1) == 1)
                                + WordIf(Bit(m.flags, 2) == 1 && !modern, "block_on_error")
  {
    hide Bit, Decimal, SyncWords, WordIf;
    var tail := SyncWords(Flag(m.flags, NOSYNC), Flag(m.flags, FORCESYNC));
    var last := WordIf(Flag(m.flags, BLOCK_ON_ERROR) && !modern, "block_on_error");
    var head := (if m.log.Some? then [m.log.value] else []) + [Decimal(m.regionSize)];
    CatWords(head, tail, last);
    assert (head + (tail + last))[|head|..] == tail + last;
  }

  /** Each area of a mirror is at its place, the device in front of its offset. */
  lemma {:induction false} MirrorAreaAt(areas: seq<(string, nat)>, i: nat)
    requires i < |areas|
    ensures MirrorAreas(areas)[2 * i] == areas[i].0 && MirrorAreas(areas)[2 * i + 1] == Decimal(areas[i].1)
  {
    hide Decimal;
    var n := |areas| - 1;
    if i < n {
      MirrorAreaAt(areas[..n], i);
    }
  }

  // ---- cache ----

  const NO_FLAGS := Grammar({}, [])

  function SetIf(name: string, v: Option<nat>): Setting { NumberIf(v.Some?, name, if v.Some? then v.value else 0) }

  function CacheSettings(ss: seq<(string, Option<nat>)>): seq<Setting> {
    seq(|ss|, i requires 0 <= i < |ss| => SetIf(ss[i].0, ss[i].1))
  }

  lemma {:induction false} LiveSettingsAre(ss: seq<(string, Option<nat>)>)
    ensures LiveSettings(ss) == AllWords(CacheSettings(ss))
  {
    hide NumIf, WordsOf, NumberIf;
    if ss != [] {
      var front, last := ss[..|ss| - 1], ss[|ss| - 1];
      LiveSettingsAre(front);
      assert CacheSettings(ss) == CacheSettings(front) + [SetIf(last.0, last.1)];
      AllWordsSnoc(CacheSettings(front), SetIf(last.0, last.1));
      NumIfIs(last.1.Some?, last.0, if last.1.Some? then last.1.value else 0);
    }
  }

  /** The policy arguments of a cache: the threshold unless it is the default, and every
      setting that has a value. */
  lemma PolicyReadsBack(c: Cache)
    ensures var s := ReadWords(PolicyArgs(c), NO_FLAGS, NOTHING);
            && s.Settings? && s.flags == {}
            && forall name, v :: (name, v) in s.pairs <==> PolicyPair(c, name, v)
  {
    var first := NumberIf(c.threshold != 2048, "migration_threshold", c.threshold);
    var xs := [first] + CacheSettings(c.settings);
    PolicyIs(c);
    hide ReadWords, AllWords, Decimal, LiveSettings, PolicyArgs, PairsOf, FlagsOf, NumberIf, CacheSettings;
    NoSwitches(xs);
    ReadSettings(xs, NO_FLAGS);
    forall name, v ensures (name, v) in PairsOf(xs) <==> PolicyPair(c, name, v) {
      PolicyPairs(c, name, v);
    }
  }

  /** A cache asks for a policy argument with the value v. */
  ghost predicate PolicyPair(c: Cache, name: string, v: string) {
    || (name == "migration_threshold" && c.threshold != 2048 && v == Decimal(c.threshold))
    || exists i :: 0 <= i < |c.settings| && c.settings[i].0 == name && c.settings[i].1.Some? &&
                   v == Decimal(c.settings[i].1.value)
  }

  lemma PolicyIs(c: Cache)
    ensures var xs := [NumberIf(c.threshold != 2048, "migration_threshold", c.threshold)] + CacheSettings(c.settings);
            PolicyArgs(c) == AllWords(xs) && forall x :: x in xs ==> x.Named?
  {
    var first := NumberIf(c.threshold != 2048, "migration_threshold", c.threshold);
    LiveSettingsAre(c.settings);
    NumIfIs(c.threshold != 2048, "migration_threshold", c.threshold);
    OneWord(first);
    hide AllWords, WordsOf, NumIf, LiveSettings, Decimal;
    AllWordsCat([first], CacheSettings(c.settings));
  }

  lemma OneWord(x: Setting)
    ensures AllWords([x]) == WordsOf(x)
  {
    hide WordsOf;
    assert [x][..0] == [];
    assert AllWords([]) == [];
  }

  lemma PolicyPairs(c: Cache, name: string, v: string)
    ensures var xs := [NumberIf(c.threshold != 2048, "migration_threshold", c.threshold)] + CacheSettings(c.settings);
            (name, v) in PairsOf(xs) <==> PolicyPair(c, name, v)
  {
    hide Decimal;
    var first := NumberIf(c.threshold != 2048, "migration_threshold", c.threshold);
    var more := CacheSettings(c.settings);
    var xs := [first] + more;
    assert forall x :: x in xs <==> x == first || x in more;
    assert forall i :: 0 <= i < |more| ==> more[i] in more && more[i] == SetIf(c.settings[i].0, c.settings[i].1);
  }

  lemma {:induction false} AllWordsCat(a: seq<Setting>, b: seq<Setting>)
    ensures AllWords(a + b) == AllWords(a) + AllWords(b)
    decreases |b|
  {
    hide WordsOf;
    if b == [] {
      assert a + b == a;
    } else {
      var front, last := b[..|b| - 1], b[|b| - 1];
      AllWordsCat(a, front);
      assert a + b == (a + front) + [last];
      AllWordsSnoc(a + front, last);
      CatWords(AllWords(a), AllWords(front), WordsOf(last));
    }
  }

  lemma NoSwitches(xs: seq<Setting>)
    requires forall x :: x in xs ==> x.Named?
    ensures Readable(xs, NO_FLAGS) && FlagsOf(xs) == {}
  {
  }

  // ---- writecache ----

  const WRITECACHE_WORDS := Grammar({"fua", "nofua", "cleaner", "metadata_only"}, [])

  lemma SetWordsIs(name: string, v: Option<nat>)
    ensures SetWords(name, v) == WordsOf(SetIf(name, v))
  {
    hide NumIf, WordsOf, NumberIf;
    NumIfIs(v.Some?, name, if v.Some? then v.value else 0);
  }

  lemma SwitchIs(b: bool, name: string)
    ensures WordIf(b, name) == WordsOf(Switch(b, name))
  {
  }

  function KeySetting(w: Writecache): Setting {
    if w.key.Some? then Named(w.key.value.0, [w.key.value.1]) else Named("", [])
  }

  lemma KeyIs(w: Writecache)
    ensures KeyWords(w.key) == WordsOf(KeySetting(w))
  {
    if w.key.Some? {
      assert ValueWords(w.key.value.0, []) == [];
      assert [w.key.value.1][..0] == [];
    }
  }

  function WatermarkSettings(w: Writecache): seq<Setting> {
    [SetIf("high_watermark", w.high),
     SetIf("low_watermark", w.low),
     SetIf("writeback_jobs", w.jobs),
     SetIf("autocommit_blocks", w.blocks),
     SetIf("autocommit_time", w.time)]
  }

  function FlushSettings(w: Writecache): seq<Setting> {
    [Switch(w.fua, "fua"),
     Switch(w.nofua, "nofua"),
     Switch(w.cleanerSet && w.cleaner, "cleaner"),
     SetIf("max_age", w.maxAge),
     Switch(w.metadataOnly, "metadata_only"),
     SetIf("pause_writeback", w.pause), KeySetting(w)]
  }

  lemma WatermarksAre(w: Writecache)
    ensures WatermarkArgs(w) == AllWords(WatermarkSettings(w))
  {
    SetWordsIs("high_watermark", w.high);
    SetWordsIs("low_watermark", w.low);
    SetWordsIs("writeback_jobs", w.jobs);
    SetWordsIs("autocommit_blocks", w.blocks);
    SetWordsIs("autocommit_time", w.time);
    hide WordsOf, SetWords, SetIf, AllWords;
    FiveWords(SetIf("high_watermark", w.high), SetIf("low_watermark", w.low), SetIf("writeback_jobs", w.jobs),
        SetIf("autocommit_blocks", w.blocks), SetIf("autocommit_time", w.time));
    assert [] + SetWords("high_watermark", w.high) == SetWords("high_watermark", w.high);
  }

  lemma FlushIs(w: Writecache)
    ensures FlushArgs(w) == AllWords(FlushSettings(w))
  {
    SwitchIs(w.fua, "fua");
    SwitchIs(w.nofua, "nofua");
    SwitchIs(w.cleanerSet && w.cleaner, "cleaner");
    SetWordsIs("max_age", w.maxAge);
    SwitchIs(w.metadataOnly, "metadata_only");
    SetWordsIs("pause_writeback", w.pause);
    KeyIs(w);
    hide WordsOf, SetWords, SetIf, AllWords, WordIf, KeyWords, KeySetting;
    SevenWords(Switch(w.fua, "fua"), Switch(w.nofua, "nofua"), Switch(w.cleanerSet && w.cleaner, "cleaner"),
        SetIf("max_age", w.maxAge), Switch(w.metadataOnly, "metadata_only"), SetIf("pause_writeback", w.pause),
            KeySetting(w));
    assert [] + WordIf(w.fua, "fua") == WordIf(w.fua, "fua");
  }

  lemma SettingsCat(a: seq<Setting>, b: seq<Setting>)
    ensures FlagsOf(a + b) == FlagsOf(a) + FlagsOf(b) && PairsOf(a + b) == PairsOf(a) + PairsOf(b)
  {
    assert forall y :: y in a + b <==> y in a || y in b;
  }

  lemma InFive(a: Setting, b: Setting, c: Setting, d: Setting, e: Setting)
    ensures forall x :: x in [a, b, c, d, e] <==> x == a || x == b || x == c || x == d || x == e
  {
  }

  lemma InSeven(a: Setting, b: Setting, c: Setting, d: Setting, e: Setting, f: Setting, g: Setting)
    ensures forall x :: x in [a, b, c, d, e, f, g] <==>
              x == a || x == b || x == c || x == d || x == e || x == f || x == g
  {
  }

  /** A setting that is read back under its name. */
  predicate Fits(x: Setting) { x.Switch? <==> x.name in WRITECACHE_WORDS.flags }

  lemma SetIfFits(name: string, v: Option<nat>)
    requires name !in WRITECACHE_WORDS.flags
    ensures Fits(SetIf(name, v)) && forall f :: !Gives(SetIf(name, v), f)
    ensures forall n, x :: Says(SetIf(name, v), n, x) <==> n == name && v.Some? && x == Decimal(v.value)
  {
    hide Decimal;
  }

  lemma WatermarkNames()
    ensures var flags := WRITECACHE_WORDS.flags;
            && "high_watermark" !in flags
            && "low_watermark" !in flags
            && "writeback_jobs" !in flags
            && "autocommit_blocks" !in flags
            && "autocommit_time" !in flags
            && "max_age" !in flags
            && "pause_writeback" !in flags
            && "" !in flags
  {
    assert "low_watermark"[0] != "metadata_only"[0] && "max_age"[0] != "cleaner"[0];
  }

  /** A writecache asks for a setting with the value v. */
  ghost predicate WatermarkPair(w: Writecache, name: string, v: string) {
    || (name == "high_watermark" && w.high.Some? && v == Decimal(w.high.value))
    || (name == "low_watermark" && w.low.Some? && v == Decimal(w.low.value))
    || (name == "writeback_jobs" && w.jobs.Some? && v == Decimal(w.jobs.value))
    || (name == "autocommit_blocks" && w.blocks.Some? && v == Decimal(w.blocks.value))
    || (name == "autocommit_time" && w.time.Some? && v == Decimal(w.time.value))
  }

  ghost predicate FlushPair(w: Writecache, name: string, v: string) {
    || (name == "max_age" && w.maxAge.Some? && v == Decimal(w.maxAge.value))
    || (name == "pause_writeback" && w.pause.Some? && v == Decimal(w.pause.value))
    || (w.key.Some? && name == w.key.value.0 && v == w.key.value.1)
  }

  lemma WatermarkParts(w: Writecache)
    ensures var xs := WatermarkSettings(w);
            && (forall x :: x in xs ==> Fits(x)) && FlagsOf(xs) == {}
            && forall name, v :: (name, v) in PairsOf(xs) <==> WatermarkPair(w, name, v)
  {
    WatermarkNames();
    SetIfFits("high_watermark", w.high);
    SetIfFits("low_watermark", w.low);
    SetIfFits("writeback_jobs", w.jobs);
    SetIfFits("autocommit_blocks", w.blocks);
    SetIfFits("autocommit_time", w.time);
    InFive(SetIf("high_watermark", w.high), SetIf("low_watermark", w.low), SetIf("writeback_jobs", w.jobs),
        SetIf("autocommit_blocks", w.blocks), SetIf("autocommit_time", w.time));
    hide SetIf, Fits, Decimal, WatermarkSettings;
    var xs := WatermarkSettings(w);
    assert xs == [SetIf("high_watermark", w.high), SetIf("low_watermark", w.low), SetIf("writeback_jobs", w.jobs),
        SetIf("autocommit_blocks", w.blocks), SetIf("autocommit_time", w.time)] by { WatermarksList(w); }
    forall name, v ensures (name, v) in PairsOf(xs) <==> exists x :: x in xs && Says(x, name, v) {
    }
  }

  lemma WatermarksList(w: Writecache)
    ensures WatermarkSettings(w) == [SetIf("high_watermark", w.high), SetIf("low_watermark", w.low),
        SetIf("writeback_jobs", w.jobs), SetIf("autocommit_blocks", w.blocks), SetIf("autocommit_time", w.time)]
  {
  }

  lemma KeyFits(w: Writecache)
    requires w.key.Some? ==> w.key.value.0 !in WRITECACHE_WORDS.flags
    ensures Fits(KeySetting(w)) && forall f :: !Gives(KeySetting(w), f)
    ensures forall n, x :: Says(KeySetting(w), n, x) <==> w.key.Some? && n == w.key.value.0 && x == w.key.value.1
  {
    WatermarkNames();
  }

  lemma SwitchFits(b: bool, name: string)
    requires name in WRITECACHE_WORDS.flags
    ensures Fits(Switch(b, name)) && forall n, x :: !Says(Switch(b, name), n, x)
    ensures forall f :: Gives(Switch(b, name), f) <==> b && f == name
  {
  }

  /** A writecache asks for a flag. */
  predicate FlushFlag(w: Writecache, f: string) {
    (w.fua && f == "fua") || (w.nofua && f == "nofua") || (w.cleanerSet && w.cleaner && f == "cleaner")
        || (w.metadataOnly && f == "metadata_only")
  }

  lemma FlushList(w: Writecache)
    ensures FlushSettings(w) == [Switch(w.fua, "fua"), Switch(w.nofua, "nofua"), Switch(w.cleanerSet && w.cleaner,
        "cleaner"), SetIf("max_age", w.maxAge), Switch(w.metadataOnly, "metadata_only"), SetIf("pause_writeback",
            w.pause), KeySetting(w)]
  {
  }

  lemma FlushParts(w: Writecache)
    requires w.key.Some? ==> w.key.value.0 !in WRITECACHE_WORDS.flags
    ensures var xs := FlushSettings(w);
            && (forall x :: x in xs ==> Fits(x)) && (forall f :: f in FlagsOf(xs) <==> FlushFlag(w, f))
            && forall name, v :: (name, v) in PairsOf(xs) <==> FlushPair(w, name, v)
  {
    WatermarkNames();
    SwitchFits(w.fua, "fua");
    SwitchFits(w.nofua, "nofua");
    SwitchFits(w.cleanerSet && w.cleaner, "cleaner");
    SetIfFits("max_age", w.maxAge);
    SwitchFits(w.metadataOnly, "metadata_only");
    SetIfFits("pause_writeback", w.pause);
    KeyFits(w);
    InSeven(Switch(w.fua, "fua"), Switch(w.nofua, "nofua"), Switch(w.cleanerSet && w.cleaner, "cleaner"),
        SetIf("max_age", w.maxAge), Switch(w.metadataOnly, "metadata_only"), SetIf("pause_writeback", w.pause),
            KeySetting(w));
    FlushList(w);
    hide SetIf, Fits, Decimal, KeySetting, FlushSettings;
    var xs := FlushSettings(w);
    forall name, v ensures (name, v) in PairsOf(xs) <==> exists x :: x in xs && Says(x, name, v) {
    }
    forall f ensures f in FlagsOf(xs) <==> exists x :: x in xs && Gives(x, f) {
    }
  }

  /** The settings of a writecache, read back from its line: every flag, and every value
      under its own name, provided that the free setting is not named like a flag. */
  lemma WritecacheReadsBack(w: Writecache)
    requires w.key.Some? ==> w.key.value.0 !in WRITECACHE_WORDS.flags
    ensures var s := ReadWords(WatermarkArgs(w) + FlushArgs(w), WRITECACHE_WORDS, NOTHING);
            && s.Settings?
            && (forall f :: f in s.flags <==> FlushFlag(w, f))
            && forall name, v :: (name, v) in s.pairs <==> WatermarkPair(w, name, v) || FlushPair(w, name, v)
  {
    WatermarksAre(w);
    FlushIs(w);
    WatermarkParts(w);
    FlushParts(w);
    var a, b := WatermarkSettings(w), FlushSettings(w);
    hide ReadWords, AllWords, FlagsOf, PairsOf, WatermarkSettings, FlushSettings, WatermarkPair, FlushPair, FlushFlag,
         WatermarkArgs, FlushArgs;
    AllWordsCat(a, b);
    SettingsCat(a, b);
    assert Readable(a + b, WRITECACHE_WORDS);
    ReadSettings(a + b, WRITECACHE_WORDS);
  }

  // ---- integrity and thin-pool ----

  lemma InThree(a: string, b: string, c: string, w: string)
    ensures w in [a, b, c] <==> w == a || w == b || w == c
  {
  }

  /** The options of an integrity device are exactly these words. */
  lemma IntegrityReadsBack(s: Integrity, w: string)
    ensures w in IntegrityArgs(s) <==>
            || w == "fix_padding" || w == "block_size:" + Decimal(s.blockSize) || w == "internal_hash:" + s.hash
            || (s.meta.Some? && w == "meta_device:" + s.meta.value)
            || (s.recalculate && w == "recalculate")
            || (s.journal.Some? && w == "journal_sectors" + ":" + Decimal(s.journal.value))
            || (s.interleave.Some? && w == "interleave_sectors" + ":" + Decimal(s.interleave.value))
            || (s.buffer.Some? && w == "buffer_sectors" + ":" + Decimal(s.buffer.value))
            || (s.watermark.Some? && w == "journal_watermark" + ":" + Decimal(s.watermark.value))
            || (s.commit.Some? && w == "commit_time" + ":" + Decimal(s.commit.value))
            || (s.bitmapFlush.Some? && w == "bitmap_flush_interval" + ":" + Decimal(s.bitmapFlush.value))
            || (s.perBit.Some? && w == "sectors_per_bit" + ":" + Decimal(s.perBit.value))
            || (s.discardsSet && s.discards && w == "allow_discards")
  {
    hide Decimal;
    InThree("fix_padding", "block_size:" + Decimal(s.blockSize), "internal_hash:" + s.hash, w);
  }

  /** The features of a thin pool are exactly these words. */
  lemma PoolReadsBack(t: PoolLine, w: string)
    ensures w in PoolFeatures(t) <==>
            || (t.skipZeroing && w == "skip_block_zeroing") || (t.ignoreDiscard && w == "ignore_discard")
            || (t.noPassdown && w == "no_discard_passdown") || (t.errorIfFull && w == "error_if_no_space")
            || (t.readOnly && w == "read_only")
  {
  }
}
