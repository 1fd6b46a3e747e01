/** Table lines of libdm-deptree.c that announce a number of arguments before printing
    them. A line is a sequence of words. */
module TableLines {
  import opened Options
  import opened ConfigWriter
  import opened PopCount

  type Words = seq<string>

  function OneIf(b: bool): nat { if b then 1 else 0 }

  function TwoIf(b: bool): nat { if b then 2 else 0 }

  /** A word, or nothing. */
  function WordIf(b: bool, w: string): (ws: Words)
    ensures |ws| == OneIf(b)
  {
    if b then [w] else []
  }

  /** A name and a number, or nothing. */
  function NumIf(b: bool, name: string, n: int): (ws: Words)
    ensures |ws| == TwoIf(b)
  {
    if b then [name, Decimal(n)] else []
  }

  // ---- raid bitmaps ----

  const BITMAP_SIZE := 4
  const BITMAP_BITS := 256

  /** The rebuilds and writemostly arrays: each 64-bit element as its low and its high half. */
  type Bitmap = b: seq<bv32> | |b| == 2 * BITMAP_SIZE witness [0, 0, 0, 0, 0, 0, 0, 0]

  predicate Has(bits: Bitmap, i: nat)
    requires i < BITMAP_BITS
  {
    Bit(bits[i / 32], i % 32) == 1
  }

  /** How many of the first n bits of a bitmap are set. */
  function CountTo(bits: Bitmap, n: nat): nat
    requires n <= BITMAP_BITS
  {
    if n == 0 then 0 else CountTo(bits, n - 1) + if Has(bits, n - 1) then 1 else 0
  }

  lemma {:induction false} CountHalf(bits: Bitmap, j: nat, n: nat)
    requires j < 2 * BITMAP_SIZE && n <= 32
    ensures CountTo(bits, 32 * j + n) == CountTo(bits, 32 * j) + Weight(bits[j], 0, n)
  {
    hide Bit;
    if n > 0 {
      CountHalf(bits, j, n - 1);
      WeightSplit(bits[j], 0, n - 1, 1);
      assert (32 * j + n - 1) / 32 == j && (32 * j + n - 1) % 32 == n - 1;
    }
  }

  /** hweight32 of one half counts its bits. */
  lemma HalfCounts(bits: Bitmap, j: nat)
    requires j < 2 * BITMAP_SIZE
    ensures CountTo(bits, 32 * (j + 1)) == CountTo(bits, 32 * j) + ToNat(HWeight32(bits[j]))
  {
    hide *;
    HWeightCounts(bits[j]);
    CountHalf(bits, j, 32);
  }

  /** _get_params_count: two words for every set bit. */
  method GetParamsCount(bits: Bitmap) returns (r: nat)
    ensures r == 2 * CountTo(bits, BITMAP_BITS)
  {
    hide HWeight32, ToNat, CountTo;
    r := 0;
    var i := BITMAP_SIZE;
    ghost var all := CountTo(bits, BITMAP_BITS);
    while i > 0
      invariant 0 <= i <= BITMAP_SIZE
      invariant r + 2 * CountTo(bits, 64 * i) == 2 * all
    {
      i := i - 1;
      HalfCounts(bits, 2 * i);
      HalfCounts(bits, 2 * i + 1);
      r := r + 2 * ToNat(HWeight32(bits[2 * i]));
      r := r + 2 * ToNat(HWeight32(bits[2 * i + 1]));
    }
    NoneCounted(bits);
  }

  lemma NoneCounted(bits: Bitmap)
    ensures CountTo(bits, 0) == 0
  {
  }

  /** No bit is set from n on exactly if the first n bits are all. */
  lemma {:induction false} CountsAll(bits: Bitmap, n: nat, m: nat)
    requires n <= m <= BITMAP_BITS
    ensures CountTo(bits, n) <= CountTo(bits, m)
    ensures CountTo(bits, n) == CountTo(bits, m) <==> forall i :: n <= i < m ==> !Has(bits, i)
    decreases m - n
  {
    hide Has;
    if n < m {
      CountsAll(bits, n, m - 1);
    }
  }

  // ---- raid ----

  datatype Raid = Raid(target: string, raid10: bool, stripeSize: nat, nosync: bool, forceSync: bool,
                       dataOffset: int, deltaDisks: int, regionSize: nat, writeBehind: nat,
                       minRate: nat, maxRate: nat, dataCopies: nat,
                       rebuilds: Bitmap, writeMostly: Bitmap, areas: seq<Option<string>>)
  {
    /** The number of metadata and data device pairs. */
    function Pairs(): nat { |areas| / 2 }
  }

  /** The words for the set bits of a bitmap below n. */
  function BitWords(name: string, bits: Bitmap, n: nat): Words
    requires n <= BITMAP_BITS
  {
    if n == 0 then [] else BitWords(name, bits, n - 1) + NumIf(Has(bits, n - 1), name, n - 1)
  }

  function SyncWords(nosync: bool, forceSync: bool): (ws: Words)
    ensures |ws| == OneIf(nosync || forceSync)
  {
    if nosync then ["nosync"] else WordIf(forceSync, "sync")
  }

  function OffsetWords(r: Raid): (ws: Words)
    ensures |ws| == TwoIf(r.dataOffset != 0)
  {
    NumIf(r.dataOffset != 0, "data_offset", if r.dataOffset == 1 then 0 else r.dataOffset)
  }

  function CopiesWords(r: Raid): (ws: Words)
    ensures |ws| == TwoIf(r.dataCopies > 1 && r.raid10)
  {
    NumIf(r.dataCopies > 1 && r.raid10, "raid10_copies", r.dataCopies)
  }

  /** The arguments in the order of the kernel's documentation. */
  function DocumentedArgs(r: Raid): Words
    requires r.Pairs() <= BITMAP_BITS
  {
    [Decimal(r.stripeSize)]
    + SyncWords(r.nosync, r.forceSync)
    + BitWords("rebuild", r.rebuilds, r.Pairs())
    + NumIf(r.minRate != 0, "min_recovery_rate", r.minRate)
    + NumIf(r.maxRate != 0, "max_recovery_rate", r.maxRate)
    + BitWords("write_mostly", r.writeMostly, r.Pairs())
    + NumIf(r.writeBehind != 0, "max_write_behind", r.writeBehind)
    + NumIf(r.regionSize != 0, "region_size", r.regionSize)
    + CopiesWords(r)
    + NumIf(r.deltaDisks != 0, "delta_disks", r.deltaDisks)
    + OffsetWords(r)
  }

  /** The arguments in the order that targets 1.9 and 1.10 take. */
  function OddArgs(r: Raid): Words
    requires r.Pairs() <= BITMAP_BITS
  {
    [Decimal(r.stripeSize)]
    + CopiesWords(r)
    + SyncWords(r.nosync, r.forceSync)
    + NumIf(r.regionSize != 0, "region_size", r.regionSize)
    + OffsetWords(r)
    + NumIf(r.deltaDisks != 0, "delta_disks", r.deltaDisks)
    + BitWords("rebuild", r.rebuilds, r.Pairs())
    + BitWords("write_mostly", r.writeMostly, r.Pairs())
    + NumIf(r.writeBehind != 0, "max_write_behind", r.writeBehind)
    + NumIf(r.maxRate != 0, "max_recovery_rate", r.maxRate)
    + NumIf(r.minRate != 0, "min_recovery_rate", r.minRate)
  }

  function RaidArgs(r: Raid, documented: bool): Words
    requires r.Pairs() <= BITMAP_BITS
  {
    if documented then DocumentedArgs(r) else OddArgs(r)
  }

  /** The announced number of arguments. */
  function RaidCount(r: Raid): nat {
    1 + OneIf(r.nosync || r.forceSync)
    + TwoIf(r.dataOffset != 0) + TwoIf(r.deltaDisks != 0) + TwoIf(r.regionSize != 0) + TwoIf(r.writeBehind != 0)
    + TwoIf(r.minRate != 0) + TwoIf(r.maxRate != 0) + TwoIf(r.dataCopies > 1)
    + 2 * CountTo(r.rebuilds, BITMAP_BITS) + 2 * CountTo(r.writeMostly, BITMAP_BITS)
  }

  lemma {:induction false} BitWordsSize(name: string, bits: Bitmap, n: nat)
    requires n <= BITMAP_BITS
    ensures |BitWords(name, bits, n)| == 2 * CountTo(bits, n)
  {
    hide Has;
    if n > 0 {
      BitWordsSize(name, bits, n - 1);
    }
  }

  /** No bit is set for a device that the set does not have. */
  ghost predicate Within(bits: Bitmap, n: nat)
    requires n <= BITMAP_BITS
  {
    forall i :: n <= i < BITMAP_BITS ==> !Has(bits, i)
  }

  ghost predicate Counted(r: Raid)
    requires r.Pairs() <= BITMAP_BITS
  {
    && Within(r.rebuilds, r.Pairs())
    && Within(r.writeMostly, r.Pairs())
    && (r.dataCopies > 1 ==> r.raid10)
  }

  /** In both orders the announced number is the number of words that follow, exactly
      if no bitmap has a bit for a missing device and copies are asked of raid10 only. */
  lemma RaidCountIsExact(r: Raid, documented: bool)
    requires r.Pairs() <= BITMAP_BITS
    ensures |RaidArgs(r, documented)| == RaidCount(r) <==> Counted(r)
  {
    hide CountTo, BitWords, Has, Decimal, NumIf, SyncWords, OffsetWords, CopiesWords;
    BitWordsSize("rebuild", r.rebuilds, r.Pairs());
    BitWordsSize("write_mostly", r.writeMostly, r.Pairs());
    CountsAll(r.rebuilds, r.Pairs(), BITMAP_BITS);
    CountsAll(r.writeMostly, r.Pairs(), BITMAP_BITS);
  }

  // ---- the emitters ----

  /** Appends a word if it is called for. */
  method PutWord(line: Words, b: bool, w: string) returns (r: Words)
    ensures r == line + WordIf(b, w)
  {
    if b {
      r := line + [w];
    } else {
      r := line;
      assert line + [] == line;
    }
  }

  /** Appends a name and a number if they are called for. */
  method PutNum(line: Words, b: bool, name: string, n: int) returns (r: Words)
    ensures r == line + NumIf(b, name, n)
  {
    if b {
      r := line + [name, Decimal(n)];
    } else {
      r := line;
      assert line + [] == line;
    }
  }

  method PutSync(line: Words, nosync: bool, forceSync: bool) returns (r: Words)
    ensures r == line + SyncWords(nosync, forceSync)
  {
    if nosync {
      r := line + ["nosync"];
    } else {
      r := PutWord(line, forceSync, "sync");
    }
  }

  /** The loop over the devices of a set for one bitmap. */
  method PutBits(line: Words, name: string, bits: Bitmap, n: nat) returns (r: Words)
    requires n <= BITMAP_BITS
    ensures r == line + BitWords(name, bits, n)
  {
    hide Has, NumIf;
    r := line;
    for i := 0 to n
      invariant r == line + BitWords(name, bits, i)
    {
      ghost var was := r;
      r := PutNum(r, Has(bits, i), name, i);
      assert line + BitWords(name, bits, i + 1) == was + NumIf(Has(bits, i), name, i);
    }
  }

  /** A missing device of a raid set is a dash. */
  function AreaWord(a: Option<string>): string { if a.None? then "-" else a.value }

  method RaidAreas(areas: seq<Option<string>>) returns (r: Words)
    ensures |r| == |areas| && forall i :: 0 <= i < |r| ==> r[i] == AreaWord(areas[i])
  {
    r := [];
    for i := 0 to |areas|
      invariant |r| == i && forall k :: 0 <= k < i ==> r[k] == AreaWord(areas[k])
    {
      if areas[i].None? {
        r := r + ["-"];
      } else {
        r := r + [areas[i].value];
      }
    }
  }

  method PutCopies(line: Words, r: Raid) returns (out: Words)
    ensures out == line + CopiesWords(r)
  {
    out := PutNum(line, r.dataCopies > 1 && r.raid10, "raid10_copies", r.dataCopies);
  }

  /** The kernel needs a zero for the offset that stands for an adjustment. */
  method PutOffset(line: Words, r: Raid) returns (out: Words)
    ensures out == line + OffsetWords(r)
  {
    out := PutNum(line, r.dataOffset != 0, "data_offset", if r.dataOffset == 1 then 0 else r.dataOffset);
  }

  method PutDocumented(r: Raid) returns (args: Words)
    requires r.Pairs() <= BITMAP_BITS
    ensures args == DocumentedArgs(r)
    ensures |args| == RaidCount(r) <==> Counted(r)
  {
    RaidCountIsExact(r, true);
    hide RaidCount, Counted, NumIf, BitWords, SyncWords, Decimal, CopiesWords, OffsetWords;
    args := [Decimal(r.stripeSize)];
    args := PutSync(args, r.nosync, r.forceSync);
    args := PutBits(args, "rebuild", r.rebuilds, r.Pairs());
    args := PutNum(args, r.minRate != 0, "min_recovery_rate", r.minRate);
    args := PutNum(args, r.maxRate != 0, "max_recovery_rate", r.maxRate);
    args := PutBits(args, "write_mostly", r.writeMostly, r.Pairs());
    args := PutNum(args, r.writeBehind != 0, "max_write_behind", r.writeBehind);
    args := PutNum(args, r.regionSize != 0, "region_size", r.regionSize);
    args := PutCopies(args, r);
    args := PutNum(args, r.deltaDisks != 0, "delta_disks", r.deltaDisks);
    args := PutOffset(args, r);
  }

  method PutOdd(r: Raid) returns (args: Words)
    requires r.Pairs() <= BITMAP_BITS
    ensures args == OddArgs(r)
    ensures |args| == RaidCount(r) <==> Counted(r)
  {
    RaidCountIsExact(r, false);
    hide RaidCount, Counted, NumIf, BitWords, SyncWords, Decimal, CopiesWords, OffsetWords;
    args := [Decimal(r.stripeSize)];
    args := PutCopies(args, r);
    args := PutSync(args, r.nosync, r.forceSync);
    args := PutNum(args, r.regionSize != 0, "region_size", r.regionSize);
    args := PutOffset(args, r);
    args := PutNum(args, r.deltaDisks != 0, "delta_disks", r.deltaDisks);
    args := PutBits(args, "rebuild", r.rebuilds, r.Pairs());
    args := PutBits(args, "write_mostly", r.writeMostly, r.Pairs());
    args := PutNum(args, r.writeBehind != 0, "max_write_behind", r.writeBehind);
    args := PutNum(args, r.maxRate != 0, "max_recovery_rate", r.maxRate);
    args := PutNum(args, r.minRate != 0, "min_recovery_rate", r.minRate);
  }

  method RaidCounted(r: Raid) returns (count: nat)
    ensures count == RaidCount(r)
  {
    hide CountTo;
    count := 1;
    if r.nosync || r.forceSync {
      count := count + 1;
    }
    count := count + TwoIf(r.dataOffset != 0) + TwoIf(r.deltaDisks != 0) + TwoIf(r.regionSize != 0)
      + TwoIf(r.writeBehind != 0) + TwoIf(r.minRate != 0) + TwoIf(r.maxRate != 0) + TwoIf(r.dataCopies > 1);
    var n := GetParamsCount(r.rebuilds);
    count := count + n;
    n := GetParamsCount(r.writeMostly);
    count := count + n;
  }

  /** The version of the raid target decides about the order. */
  predicate Documented(maj: nat, min: nat) { maj > 1 || (maj == 1 && (min < 9 || min >= 11)) }

  /** _raid_emit_segment_line. */
  method EmitRaid(r: Raid, maj: nat, min: nat) returns (line: Option<Words>)
    requires r.Pairs() <= BITMAP_BITS
    ensures line.None? <==> |r.areas| % 2 == 1
    ensures line.Some? ==>
              var args := RaidArgs(r, maj > 1 || (maj == 1 && min != 9 && min != 10));
              && |line.value| == 3 + |args| + |r.areas|
              && line.value[..2 + |args|] == [r.target, Decimal(RaidCount(r))] + args
              && line.value[2 + |args|] == Decimal(r.Pairs())
              && (|args| == RaidCount(r) <==> Counted(r))
              && forall i :: 0 <= i < |r.areas| ==> line.value[3 + |args| + i] == AreaWord(r.areas[i])
  {
    if |r.areas| % 2 == 1 {
      return None;
    }
    hide DocumentedArgs, OddArgs, RaidCount, Decimal, AreaWord, Counted;
    var count := RaidCounted(r);
    var args;
    if Documented(maj, min) {
      args := PutDocumented(r);
    } else {
      args := PutOdd(r);
    }
    var areas := RaidAreas(r.areas);
    line := Some([r.target, Decimal(count)] + args + [Decimal(r.Pairs())] + areas);
  }

  // ---- mirror ----

  predicate Flag(w: bv32, k: nat)
    requires k < 32
  {
    Bit(w, k) == 1
  }

  const NOSYNC := 0
  const FORCESYNC := 1
  const BLOCK_ON_ERROR := 2
  const CORELOG := 3

  datatype Mirror = Mirror(flags: bv32, log: Option<string>, regionSize: nat, count: nat,
                           areas: seq<(string, nat)>)

  /** The arguments of the log; kernels from 2.6.22 on take error handling as a feature. */
  function LogArgs(m: Mirror, modern: bool): Words {
    (if m.log.Some? then [m.log.value] else [])
    + [Decimal(m.regionSize)]
    + SyncWords(Flag(m.flags, NOSYNC), Flag(m.flags, FORCESYNC))
    + WordIf(Flag(m.flags, BLOCK_ON_ERROR) && !modern, "block_on_error")
  }

  function LogCount(m: Mirror, modern: bool): int {
    1 + ToNat(HWeight32(m.flags)) - OneIf(Flag(m.flags, BLOCK_ON_ERROR) && modern)
    - OneIf(Flag(m.flags, CORELOG)) + OneIf(m.log.Some?)
  }

  lemma {:induction false} NoWeight(w: bv32, k: nat, n: nat)
    requires k + n <= 32
    ensures Weight(w, k, n) == 0 <==> forall i :: k <= i < k + n ==> !Flag(w, i)
    decreases n
  {
    hide Bit;
    if n > 0 {
      NoWeight(w, k + 1, n - 1);
      assert Weight(w, k, n) == OneIf(Flag(w, k)) + Weight(w, k + 1, n - 1);
    }
  }

  lemma FourFlags(w: bv32)
    ensures Weight(w, 0, 4) == OneIf(Flag(w, 0)) + OneIf(Flag(w, 1)) + OneIf(Flag(w, 2)) + OneIf(Flag(w, 3))
  {
    hide Bit;
    assert Weight(w, 3, 1) == OneIf(Flag(w, 3));
    assert Weight(w, 2, 2) == OneIf(Flag(w, 2)) + Weight(w, 3, 1);
    assert Weight(w, 1, 3) == OneIf(Flag(w, 1)) + Weight(w, 2, 2);
  }

  /** The announced number of log arguments is the number of words that follow, exactly
      if not both sync flags are given and no flag is set that a mirror does not know. */
  lemma LogCountIsExact(m: Mirror, modern: bool)
    ensures |LogArgs(m, modern)| == LogCount(m, modern) <==>
            && !(Flag(m.flags, NOSYNC) && Flag(m.flags, FORCESYNC))
            && forall i :: 4 <= i < 32 ==> !Flag(m.flags, i)
  {
    hide Weight, HWeight32, ToNat, Flag, SyncWords, WordIf, Decimal;
    HWeightCounts(m.flags);
    WeightSplit(m.flags, 0, 4, 28);
    FourFlags(m.flags);
    NoWeight(m.flags, 4, 28);
  }

  method LogCounted(m: Mirror, handleErrors: bool) returns (count: int)
    ensures count == 1 + ToNat(HWeight32(m.flags)) - OneIf(handleErrors) - OneIf(Flag(m.flags, CORELOG)) + OneIf(m.log.Some?)
  {
    hide Flag, HWeight32, ToNat;
    count := 1;
    count := count + ToNat(HWeight32(m.flags));
    if handleErrors {
      count := count - 1;
    }
    if Flag(m.flags, CORELOG) {
      count := count - 1;
    }
    if m.log.Some? {
      count := count + 1;
    }
  }

  /** Each area of a mirror is a device and an offset. */
  function MirrorAreas(areas: seq<(string, nat)>): (ws: Words)
    ensures |ws| == 2 * |areas|
  {
    if areas == [] then []
    else
      var (dev, offset), n := areas[|areas| - 1], |areas| - 1;
      MirrorAreas(areas[..n]) + [dev, Decimal(offset)]
  }

  method PutAreas(areas: seq<(string, nat)>) returns (r: Words)
    ensures r == MirrorAreas(areas)
  {
    hide Decimal;
    r := [];
    assert areas[..0] == [];
    for i := 0 to |areas|
      invariant r == MirrorAreas(areas[..i])
    {
      assert areas[..i + 1][..i] == areas[..i];
      r := r + [areas[i].0, Decimal(areas[i].1)];
    }
    assert areas[..|areas|] == areas;
  }

  /** _mirror_emit_segment_line. */
  method EmitMirror(m: Mirror, modern: bool) returns (line: Words)
    ensures line ==
            [if m.log.Some? then "disk" else "core", Decimal(LogCount(m, modern))] + LogArgs(m, modern)
            + [Decimal(m.count)] + MirrorAreas(m.areas)
            + (if Flag(m.flags, BLOCK_ON_ERROR) && modern then ["1", "handle_errors"] else [])
  {
    hide Flag, SyncWords, WordIf, HWeight32, ToNat, Decimal, MirrorAreas;
    var handleErrors, blockOnError := false, false;
    if Flag(m.flags, BLOCK_ON_ERROR) {
      if modern {
        handleErrors := true;
      } else {
        blockOnError := true;
      }
    }
    var count := LogCounted(m, handleErrors);
    var args := if m.log.Some? then [m.log.value] else [];
    args := args + [Decimal(m.regionSize)];
    args := PutSync(args, Flag(m.flags, NOSYNC), Flag(m.flags, FORCESYNC));
    args := PutWord(args, blockOnError, "block_on_error");
    var areas := PutAreas(m.areas);
    line := [if m.log.Some? then "disk" else "core", Decimal(count)] + args + [Decimal(m.count)] + areas;
    if handleErrors {
      line := line + ["1", "handle_errors"];
    } else {
      assert line + [] == line;
    }
  }
}

/** Table lines with a list of optional features or settings: cache, writecache,
    integrity and thin-pool. */
module FeatureLines {
  import opened Options
  import opened ConfigWriter
  import opened TableLines

  // ---- cache ----

  datatype Cache = Cache(metadata: string, data: string, origin: string, blockSize: nat,
                         metadata2: bool, passthrough: bool, writeback: bool,
                         policy: Option<string>, policyArgc: nat, threshold: nat,
                         settings: seq<(string, Option<nat>)>)

  const DEFAULT_THRESHOLD := 2048

  /** The settings that have not been deleted. */
  function LiveSettings(ss: seq<(string, Option<nat>)>): Words {
    if ss == [] then []
    else
      var (key, v), n := ss[|ss| - 1], |ss| - 1;
      LiveSettings(ss[..n]) + NumIf(v.Some?, key, if v.Some? then v.value else 0)
  }

  function LiveCount(ss: seq<(string, Option<nat>)>): nat {
    if ss == [] then 0 else LiveCount(ss[..|ss| - 1]) + OneIf(ss[|ss| - 1].1.Some?)
  }

  lemma {:induction false} LiveSettingsSize(ss: seq<(string, Option<nat>)>)
    ensures |LiveSettings(ss)| == 2 * LiveCount(ss)
  {
    hide NumIf;
    if ss != [] {
      LiveSettingsSize(ss[..|ss| - 1]);
    }
  }

  function PolicyArgs(c: Cache): Words {
    NumIf(c.threshold != DEFAULT_THRESHOLD, "migration_threshold", c.threshold) + LiveSettings(c.settings)
  }

  function PolicyCount(c: Cache): nat { (c.policyArgc + OneIf(c.threshold != DEFAULT_THRESHOLD)) * 2 }

  /** The announced number of policy arguments is the number of words that follow, exactly
      if policy_argc counts the settings that are left. */
  lemma PolicyCountIsExact(c: Cache)
    ensures |PolicyArgs(c)| == PolicyCount(c) <==> c.policyArgc == LiveCount(c.settings)
  {
    hide NumIf, LiveSettings, LiveCount;
    LiveSettingsSize(c.settings);
  }

  /** _cache_emit_segment_line: the number of features is always right. */
  method EmitCache(c: Cache) returns (line: Words, features: nat)
    ensures |line| == 7 + features + |PolicyArgs(c)|
    ensures line[..5] == [c.metadata, c.data, c.origin, Decimal(c.blockSize), Decimal(features)]
    ensures line[5..5 + features] ==
            (if c.metadata2 then ["metadata2"] else [])
            + [if c.passthrough then "passthrough" else if c.writeback then "writeback" else "writethrough"]
    ensures line[5 + features] == if c.policy.Some? then c.policy.value else "default"
    ensures line[6 + features] == Decimal(PolicyCount(c))
    ensures line[7 + features..] == PolicyArgs(c)
  {
    hide Decimal, LiveSettings;
    var head := [c.metadata, c.data, c.origin];
    head := head + [Decimal(c.blockSize)];
    features := 1;
    if c.metadata2 {
      features := features + 1;
    }
    head := head + [Decimal(features)];
    var names := PutWord([], c.metadata2, "metadata2");
    names := names + [if c.passthrough then "passthrough" else if c.writeback then "writeback" else "writethrough"];
    assert names == (if c.metadata2 then ["metadata2"] else [])
                    + [if c.passthrough then "passthrough" else if c.writeback then "writeback" else "writethrough"];
    var count := (c.policyArgc + (if c.threshold != DEFAULT_THRESHOLD then 1 else 0)) * 2;
    var args := PutPolicy(c);
    hide *;
    line := Joined(head, names, if c.policy.Some? then c.policy.value else "default", Decimal(count), args);
  }

  method PutPolicy(c: Cache) returns (args: Words)
    ensures args == PolicyArgs(c)
  {
    hide Decimal, NumIf;
    var first := PutNum([], c.threshold != DEFAULT_THRESHOLD, "migration_threshold", c.threshold);
    args := first;
    assert c.settings[..0] == [];
    for i := 0 to |c.settings|
      invariant args == first + LiveSettings(c.settings[..i])
    {
      assert c.settings[..i + 1][..i] == c.settings[..i];
      var (key, v) := c.settings[i];
      ghost var was := LiveSettings(c.settings[..i]);
      args := PutNum(args, v.Some?, key, if v.Some? then v.value else 0);
      assert first + was + NumIf(v.Some?, key, if v.Some? then v.value else 0)
          == first + (was + NumIf(v.Some?, key, if v.Some? then v.value else 0));
    }
    assert c.settings[..|c.settings|] == c.settings;
    assert first == NumIf(c.threshold != DEFAULT_THRESHOLD, "migration_threshold", c.threshold);
  }

  method Joined(head: Words, names: Words, policy: string, count: string, args: Words) returns (line: Words)
    requires |head| == 5
    ensures |line| == 7 + |names| + |args|
    ensures line[..5] == head && line[5..5 + |names|] == names
    ensures line[5 + |names|] == policy && line[6 + |names|] == count && line[7 + |names|..] == args
  {
    line := head + names + [policy] + [count] + args;
  }

  // ---- writecache ----

  datatype Writecache = Writecache(pmem: bool, origin: string, cache: string, blockSize: nat,
                                   high: Option<nat>, low: Option<nat>, jobs: Option<nat>,
                                   blocks: Option<nat>, time: Option<nat>, fua: bool, nofua: bool,
                                   cleanerSet: bool, cleaner: bool, maxAge: Option<nat>,
                                   metadataOnly: bool, pause: Option<nat>, key: Option<(string, string)>)

  function SetWords(name: string, v: Option<nat>): (ws: Words)
    ensures |ws| == TwoIf(v.Some?)
  {
    NumIf(v.Some?, name, if v.Some? then v.value else 0)
  }

  function KeyWords(key: Option<(string, string)>): (ws: Words)
    ensures |ws| == TwoIf(key.Some?)
  {
    if key.Some? then [key.value.0, key.value.1] else []
  }

  function WatermarkArgs(w: Writecache): Words {
    SetWords("high_watermark", w.high) + SetWords("low_watermark", w.low) + SetWords("writeback_jobs", w.jobs)
    + SetWords("autocommit_blocks", w.blocks) + SetWords("autocommit_time", w.time)
  }

  function FlushArgs(w: Writecache): Words {
    WordIf(w.fua, "fua") + WordIf(w.nofua, "nofua") + WordIf(w.cleanerSet && w.cleaner, "cleaner")
    + SetWords("max_age", w.maxAge) + WordIf(w.metadataOnly, "metadata_only")
    + SetWords("pause_writeback", w.pause) + KeyWords(w.key)
  }

  method PutSet(line: Words, name: string, v: Option<nat>) returns (r: Words)
    ensures r == line + SetWords(name, v)
  {
    r := PutNum(line, v.Some?, name, if v.Some? then v.value else 0);
  }

  method PutWatermarks(w: Writecache) returns (args: Words)
    ensures args == WatermarkArgs(w)
  {
    hide SetWords;
    args := PutSet([], "high_watermark", w.high);
    assert args == SetWords("high_watermark", w.high);
    args := PutSet(args, "low_watermark", w.low);
    args := PutSet(args, "writeback_jobs", w.jobs);
    args := PutSet(args, "autocommit_blocks", w.blocks);
    args := PutSet(args, "autocommit_time", w.time);
  }

  method PutFlush(w: Writecache) returns (args: Words)
    ensures args == FlushArgs(w)
  {
    hide SetWords, WordIf;
    args := PutWord([], w.fua, "fua");
    assert args == WordIf(w.fua, "fua");
    args := PutWord(args, w.nofua, "nofua");
    args := PutWord(args, w.cleanerSet && w.cleaner, "cleaner");
    args := PutSet(args, "max_age", w.maxAge);
    args := PutWord(args, w.metadataOnly, "metadata_only");
    args := PutSet(args, "pause_writeback", w.pause);
    if w.key.Some? {
      args := args + [w.key.value.0, w.key.value.1];
    } else {
      assert args + [] == args;
    }
  }

  function WritecacheCount(w: Writecache): nat {
    TwoIf(w.high.Some?) + TwoIf(w.low.Some?) + TwoIf(w.jobs.Some?) + TwoIf(w.blocks.Some?) + TwoIf(w.time.Some?)
    + OneIf(w.fua) + OneIf(w.nofua) + OneIf(w.cleanerSet && w.cleaner) + TwoIf(w.maxAge.Some?)
    + OneIf(w.metadataOnly) + TwoIf(w.pause.Some?) + TwoIf(w.key.Some?)
  }

  lemma WritecacheCountIsExact(w: Writecache)
    ensures |WatermarkArgs(w)| + |FlushArgs(w)| == WritecacheCount(w)
  {
    hide SetWords, WordIf, KeyWords;
  }

  method WritecacheCounted(w: Writecache) returns (count: nat)
    ensures count == WritecacheCount(w)
  {
    hide OneIf, TwoIf;
    count := 0;
    count := count + TwoIf(w.high.Some?);
    count := count + TwoIf(w.low.Some?);
    count := count + TwoIf(w.jobs.Some?);
    count := count + TwoIf(w.blocks.Some?);
    count := count + TwoIf(w.time.Some?);
    count := count + OneIf(w.fua);
    count := count + OneIf(w.nofua);
    count := count + OneIf(w.cleanerSet && w.cleaner);
    count := count + TwoIf(w.maxAge.Some?);
    count := count + OneIf(w.metadataOnly);
    count := count + TwoIf(w.pause.Some?);
    count := count + TwoIf(w.key.Some?);
  }

  /** _writecache_emit_segment_line: the announced number is always right. */
  method EmitWritecache(w: Writecache) returns (line: Words)
    ensures |line| >= 5 && line[4] == Decimal(|line| - 5)
    ensures line[..4] == [if w.pmem then "p" else "s", w.origin, w.cache,
                          Decimal(if w.blockSize == 0 then 4096 else w.blockSize)]
    ensures line[5..] == WatermarkArgs(w) + FlushArgs(w)
  {
    hide WatermarkArgs, FlushArgs, WritecacheCount, Decimal;
    WritecacheCountIsExact(w);
    var count := WritecacheCounted(w);
    var blockSize := w.blockSize;
    if blockSize == 0 {
      blockSize := 4096;
    }
    var first := PutWatermarks(w);
    var rest := PutFlush(w);
    line := [if w.pmem then "p" else "s", w.origin, w.cache, Decimal(blockSize), Decimal(count)] + (first + rest);
  }

  // ---- integrity ----

  datatype Integrity = Integrity(origin: string, meta: Option<string>, tagSize: nat, mode: string,
                                 blockSize: nat, hash: string, recalculate: bool,
                                 journal: Option<nat>, interleave: Option<nat>, buffer: Option<nat>,
                                 watermark: Option<nat>, commit: Option<nat>, bitmapFlush: Option<nat>,
                                 perBit: Option<nat>, discardsSet: bool, discards: bool)

  /** An option and its value are one word here. */
  function PairWord(name: string, v: Option<nat>): (ws: Words)
    ensures |ws| == OneIf(v.Some?)
  {
    if v.Some? then [name + ":" + Decimal(v.value)] else []
  }

  function MetaWord(meta: Option<string>): (ws: Words)
    ensures |ws| == OneIf(meta.Some?)
  {
    if meta.Some? then ["meta_device:" + meta.value] else []
  }

  function IntegrityArgs(s: Integrity): Words {
    ["fix_padding", "block_size:" + Decimal(s.blockSize), "internal_hash:" + s.hash]
    + MetaWord(s.meta) + WordIf(s.recalculate, "recalculate")
    + PairWord("journal_sectors", s.journal) + PairWord("interleave_sectors", s.interleave)
    + PairWord("buffer_sectors", s.buffer) + PairWord("journal_watermark", s.watermark)
    + PairWord("commit_time", s.commit) + PairWord("bitmap_flush_interval", s.bitmapFlush)
    + PairWord("sectors_per_bit", s.perBit) + WordIf(s.discardsSet && s.discards, "allow_discards")
  }

  method PutPair(line: Words, name: string, v: Option<nat>) returns (r: Words)
    ensures r == line + PairWord(name, v)
  {
    if v.Some? {
      r := line + [name + ":" + Decimal(v.value)];
    } else {
      r := line;
      assert line + [] == line;
    }
  }

  function IntegrityCount(s: Integrity): nat {
    3 + OneIf(s.meta.Some?) + OneIf(s.recalculate) + OneIf(s.journal.Some?) + OneIf(s.interleave.Some?)
    + OneIf(s.buffer.Some?) + OneIf(s.watermark.Some?) + OneIf(s.commit.Some?) + OneIf(s.bitmapFlush.Some?)
    + OneIf(s.perBit.Some?) + OneIf(s.discardsSet && s.discards)
  }

  lemma IntegrityCountIsExact(s: Integrity)
    ensures |IntegrityArgs(s)| == IntegrityCount(s)
  {
    hide PairWord, MetaWord, WordIf, Decimal;
  }

  method IntegrityCounted(s: Integrity) returns (count: nat)
    ensures count == IntegrityCount(s)
  {
    hide OneIf;
    count := 3;
    count := count + OneIf(s.meta.Some?);
    count := count + OneIf(s.recalculate);
    count := count + OneIf(s.journal.Some?);
    count := count + OneIf(s.interleave.Some?);
    count := count + OneIf(s.buffer.Some?);
    count := count + OneIf(s.watermark.Some?);
    count := count + OneIf(s.commit.Some?);
    count := count + OneIf(s.bitmapFlush.Some?);
    count := count + OneIf(s.perBit.Some?);
    count := count + OneIf(s.discardsSet && s.discards);
  }

  method PutIntegrity(s: Integrity) returns (args: Words)
    ensures args == IntegrityArgs(s)
  {
    hide PairWord, WordIf, Decimal;
    args := ["fix_padding", "block_size:" + Decimal(s.blockSize), "internal_hash:" + s.hash];
    if s.meta.Some? {
      args := args + ["meta_device:" + s.meta.value];
    } else {
      assert args + [] == args;
    }
    args := PutWord(args, s.recalculate, "recalculate");
    args := PutPair(args, "journal_sectors", s.journal);
    args := PutPair(args, "interleave_sectors", s.interleave);
    args := PutPair(args, "buffer_sectors", s.buffer);
    args := PutPair(args, "journal_watermark", s.watermark);
    args := PutPair(args, "commit_time", s.commit);
    args := PutPair(args, "bitmap_flush_interval", s.bitmapFlush);
    args := PutPair(args, "sectors_per_bit", s.perBit);
    args := PutWord(args, s.discardsSet && s.discards, "allow_discards");
  }

  /** _integrity_emit_segment_line: the announced number is always right. */
  method EmitIntegrity(s: Integrity) returns (line: Words)
    ensures |line| >= 5 && line[4] == Decimal(|line| - 5)
    ensures line[..4] == [s.origin, "0", Decimal(s.tagSize), s.mode]
    ensures line[5..] == IntegrityArgs(s)
  {
    hide IntegrityArgs, IntegrityCount, Decimal;
    IntegrityCountIsExact(s);
    var count := IntegrityCounted(s);
    var args := PutIntegrity(s);
    line := [s.origin, "0", Decimal(s.tagSize), s.mode, Decimal(count)] + args;
  }

  // ---- thin-pool ----

  datatype PoolLine = PoolLine(metadata: string, pool: string, blockSize: nat, lowWater: nat,
                               skipZeroing: bool, ignoreDiscard: bool, noPassdown: bool,
                               errorIfFull: bool, readOnly: bool)

  function PoolFeatures(t: PoolLine): Words {
    WordIf(t.skipZeroing, "skip_block_zeroing") + WordIf(t.ignoreDiscard, "ignore_discard")
    + WordIf(t.noPassdown, "no_discard_passdown") + WordIf(t.errorIfFull, "error_if_no_space")
    + WordIf(t.readOnly, "read_only")
  }

  /** _thin_pool_emit_segment_line: the announced number is always right. */
  method EmitThinPool(t: PoolLine) returns (line: Words)
    ensures |line| >= 5 && line[4] == Decimal(|line| - 5)
    ensures line[..4] == [t.metadata, t.pool, Decimal(t.blockSize), Decimal(t.lowWater)]
    ensures line[5..] == PoolFeatures(t)
  {
    hide WordIf, Decimal;
    var features := (if t.errorIfFull then 1 else 0) + (if t.readOnly then 1 else 0)
      + (if t.ignoreDiscard then 1 else 0) + (if t.noPassdown then 1 else 0) + (if t.skipZeroing then 1 else 0);
    line := [t.metadata, t.pool, Decimal(t.blockSize), Decimal(t.lowWater), Decimal(features)];
    var args := PutWord([], t.skipZeroing, "skip_block_zeroing");
    assert args == WordIf(t.skipZeroing, "skip_block_zeroing");
    args := PutWord(args, t.ignoreDiscard, "ignore_discard");
    args := PutWord(args, t.noPassdown, "no_discard_passdown");
    args := PutWord(args, t.errorIfFull, "error_if_no_space");
    args := PutWord(args, t.readOnly, "read_only");
    line := line + args;
  }
}
