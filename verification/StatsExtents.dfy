/** File extents: _stats_map_extents joins the extents that FIEMAP returns batch by
    batch into the physically contiguous extents of a file. */
module StatsExtents {
  const WORD := 0x1_0000_0000_0000_0000
  const SECTOR := 512

  /** One FIEMAP extent; unmapped stands for the UNKNOWN and DELALLOC flags. */
  datatype Extent = Extent(logical: nat, physical: nat, length: nat, last: bool, unmapped: bool) {
    function End(): nat { (physical + length) % WORD }
  }

  const NO_EXTENT := Extent(0, 0, 0, false, false)

  /** An entry of the extent table, in sectors. */
  datatype Record = Record(id: nat, start: nat, len: nat)

  function RecordOf(id: nat, e: Extent): Record { Record(id, e.physical / SECTOR, e.length / SECTOR) }

  // ---- the reference: merging in one pass over the allocated extents ----

  function Allocated(es: seq<Extent>): seq<Extent> {
    if es == [] then []
    else var e := es[|es| - 1]; Allocated(es[..|es| - 1]) + if e.unmapped then [] else [e]
  }

  datatype Piece = Piece(start: nat, len: nat)

  /** The pieces of es with one more extent, which joins the last piece if it follows
      the last extent without a gap. */
  function Attached(es: seq<Extent>, ps: seq<Piece>, e: Extent): (r: seq<Piece>)
    requires es == [] <==> ps == []
    ensures r != []
  {
    if es != [] && es[|es| - 1].physical + es[|es| - 1].length == e.physical then
      ps[..|ps| - 1] + [Piece(ps[|ps| - 1].start, ps[|ps| - 1].len + e.length)]
    else ps + [Piece(e.physical, e.length)]
  }

  /** Contiguous neighbours joined, in order. */
  function Merged(es: seq<Extent>): (ps: seq<Piece>)
    ensures es == [] <==> ps == []
  {
    if es == [] then [] else Attached(es[..|es| - 1], Merged(es[..|es| - 1]), es[|es| - 1])
  }

  /** The byte addresses of a stretch. */
  function Bytes(start: nat, len: nat): seq<nat> { seq(len, i requires 0 <= i < len => start + i) }

  function ExtentBytes(es: seq<Extent>): seq<nat> {
    if es == [] then []
    else ExtentBytes(es[..|es| - 1]) + Bytes(es[|es| - 1].physical, es[|es| - 1].length)
  }

  function PieceBytes(ps: seq<Piece>): seq<nat> {
    if ps == [] then []
    else PieceBytes(ps[..|ps| - 1]) + Bytes(ps[|ps| - 1].start, ps[|ps| - 1].len)
  }

  lemma BytesJoin(start: nat, a: nat, b: nat)
    ensures Bytes(start, a + b) == Bytes(start, a) + Bytes(start + a, b)
  {
  }

  lemma PieceBytesSnoc(ps: seq<Piece>, p: Piece)
    ensures PieceBytes(ps + [p]) == PieceBytes(ps) + Bytes(p.start, p.len)
  {
    assert (ps + [p])[..|ps|] == ps;
  }

  /** The last piece ends where the last extent ends. */
  lemma {:induction false} MergedEnd(es: seq<Extent>)
    requires es != []
    ensures var ps, e := Merged(es), es[|es| - 1];
            ps[|ps| - 1].start + ps[|ps| - 1].len == e.physical + e.length
  {
    if |es| > 1 {
      MergedEnd(es[..|es| - 1]);
    }
  }

  /** What one more extent does to the merged pieces. */
  lemma MergedSnoc(es: seq<Extent>, e: Extent)
    ensures Merged(es + [e]) == Attached(es, Merged(es), e)
  {
    hide Attached;
    assert (es + [e])[..|es|] == es;
  }

  lemma JoinBytes(qs: seq<Piece>, p: Piece, e: Extent)
    requires p.start + p.len == e.physical
    ensures PieceBytes(qs + [Piece(p.start, p.len + e.length)]) ==
            PieceBytes(qs + [p]) + Bytes(e.physical, e.length)
  {
    hide Bytes, PieceBytes;
    PieceBytesSnoc(qs, p);
    PieceBytesSnoc(qs, Piece(p.start, p.len + e.length));
    BytesJoin(p.start, p.len, e.length);
    Regroup(PieceBytes(qs), Bytes(p.start, p.len), Bytes(e.physical, e.length));
  }

  lemma MergedBytesSnoc(front: seq<Extent>, e: Extent)
    ensures PieceBytes(Merged(front + [e])) == PieceBytes(Merged(front)) + Bytes(e.physical, e.length)
  {
    hide Merged, Bytes, PieceBytes;
    var ps := Merged(front);
    MergedSnoc(front, e);
    if front != [] && front[|front| - 1].physical + front[|front| - 1].length == e.physical {
      MergedEnd(front);
      var qs, p := ps[..|ps| - 1], ps[|ps| - 1];
      assert ps == qs + [p];
      JoinBytes(qs, p, e);
    } else {
      PieceBytesSnoc(ps, Piece(e.physical, e.length));
    }
  }

  /** Merging keeps every byte address, in order: nothing is lost, added or moved. */
  lemma {:induction false} MergedBytes(es: seq<Extent>)
    ensures PieceBytes(Merged(es)) == ExtentBytes(es)
  {
    if es != [] {
      var e, front := es[|es| - 1], es[..|es| - 1];
      assert es == front + [e];
      MergedBytes(front);
      MergedBytesSnoc(front, e);
      hide Merged, PieceBytes, Bytes;
    }
  }

  lemma Regroup(a: seq<nat>, b: seq<nat>, c: seq<nat>)
    ensures a + (b + c) == (a + b) + c
  {
  }

  /** Neighbouring pieces are never physically adjacent. */
  ghost predicate Apart(ps: seq<Piece>) {
    forall k :: 0 < k < |ps| ==> ps[k - 1].start + ps[k - 1].len != ps[k].start
  }

  lemma {:induction false} MergedApart(es: seq<Extent>)
    ensures Apart(Merged(es))
  {
    if es != [] {
      MergedApart(es[..|es| - 1]);
      if |es| > 1 {
        MergedEnd(es[..|es| - 1]);
      }
    }
  }

  // ---- the code ----

  /** fm_last, fm_pending, the table grown so far and the end-of-file flag. */
  datatype State = State(last: Extent, pending: Extent, table: seq<Record>, eof: bool)

  const START := State(NO_EXTENT, NO_EXTENT, [], false)

  function Flush(s: State): State {
    s.(table := s.table + [RecordOf(|s.table|, s.pending)])
  }

  function Step(s: State, e: Extent): State {
    var s := s.(eof := s.eof || e.last);
    if e.unmapped then s
    else if s.pending.length != 0 && e.logical != 0 && e.physical != s.last.End() then
      Flush(s).(pending := e, last := e)
    else if s.pending.length == 0 || e.logical == 0 then s.(pending := e, last := e)
    else s.(pending := s.pending.(length := (s.pending.length + e.length) % WORD), last := e)
  }

  function Steps(s: State, es: seq<Extent>): State {
    if es == [] then s else Step(Steps(s, es[..|es| - 1]), es[|es| - 1])
  }

  /** One call of _stats_map_extents. */
  function Batch(s: State, es: seq<Extent>): State {
    if es == [] then s
    else
      var t := Steps(s, es);
      if t.eof || es[|es| - 1].logical == 0 then Flush(t) else t
  }

  /** The caller's loop: until end of file or an empty answer. */
  function Run(s: State, batches: seq<seq<Extent>>): State
    decreases |batches|
  {
    if s.eof || batches == [] || batches[0] == [] then s else Run(Batch(s, batches[0]), batches[1..])
  }

  lemma TableGrows(s: State, e: Extent)
    ensures |s.table| <= |Step(s, e).table|
  {
  }

  class Mapper {
    var last: Extent
    var pending: Extent
    var table: seq<Record>
    var eof: bool

    constructor ()
      ensures Value() == START
    {
      last, pending, table, eof := NO_EXTENT, NO_EXTENT, [], false;
    }

    function Value(): State
      reads this
    {
      State(last, pending, table, eof)
    }

    /** One turn of the loop over a batch. */
    method Take(e: Extent)
      modifies this
      ensures Value() == Step(old(Value()), e)
    {
      var expected := last.End();
      if e.last {
        eof := true;
      }
      if e.unmapped {
        return;
      }
      if pending.length != 0 && e.logical != 0 && e.physical != expected {
        table := table + [RecordOf(|table|, pending)];
        pending := e;
      } else if pending.length == 0 || e.logical == 0 {
        pending := e;
      } else {
        pending := pending.(length := (pending.length + e.length) % WORD);
      }
      last := e;
    }

    /** _stats_map_extents. */
    method MapExtents(es: seq<Extent>) returns (found: nat)
      modifies this
      ensures Value() == Batch(old(Value()), es)
      ensures found == |table| - |old(table)|
    {
      if es == [] {
        return 0;
      }
      hide Step;
      var nextExtent := |table|;
      for i := 0 to |es|
        invariant Value() == Steps(old(Value()), es[..i])
        invariant |table| >= |old(table)|
      {
        assert es[..i + 1][..i] == es[..i];
        TableGrows(Value(), es[i]);
        Take(es[i]);
      }
      assert es[..|es|] == es;
      if eof || es[|es| - 1].logical == 0 {
        table := table + [RecordOf(|table|, pending)];
      }
      found := |table| - nextExtent;
    }

    /** The loop of _stats_get_extents_for_file over the answers of the ioctl; no
        extents at all is an error. */
    method MapFile(batches: seq<seq<Extent>>) returns (count: nat)
      requires Value() == START
      modifies this
      ensures Value() == Run(START, batches)
      ensures count == |table|
    {
      count := 0;
      var i := 0;
      while i < |batches| && !eof
        invariant i <= |batches|
        invariant Run(Value(), batches[i..]) == Run(START, batches)
        invariant count == |table|
      {
        if batches[i] == [] {
          break;
        }
        assert batches[i..][1..] == batches[i + 1..];
        var found := MapExtents(batches[i]);
        count := count + found;
        i := i + 1;
      }
    }
  }

  // ---- the batches do not matter ----

  function Concat(batches: seq<seq<Extent>>): seq<Extent>
    decreases |batches|
  {
    if batches == [] then [] else batches[0] + Concat(batches[1..])
  }

  /** What FIEMAP promises: logical offsets grow, no extent is empty or runs past the
      end of the address space. */
  ghost predicate WellFormed(es: seq<Extent>) {
    && (forall i :: 0 <= i < |es| ==> 0 < es[i].length && es[i].physical + es[i].length < WORD)
    && (forall i, j :: 0 <= i < j < |es| ==> es[i].logical < es[j].logical)
  }

  /** Only the final extent carries the LAST flag. */
  ghost predicate LastMarked(es: seq<Extent>) {
    es != [] && forall i :: 0 <= i < |es| ==> (es[i].last <==> i == |es| - 1)
  }

  function Records(ps: seq<Piece>): seq<Record> {
    seq(|ps|, i requires 0 <= i < |ps| => Record(i, ps[i].start / SECTOR, ps[i].len / SECTOR))
  }

  /** The state after the allocated extents a: all merged pieces but the last are in
      the table and the last is pending. */
  ghost predicate Tracks(s: State, a: seq<Extent>) {
    if a == [] then s.last == NO_EXTENT && s.pending == NO_EXTENT && s.table == []
    else
      var ps := Merged(a);
      var p := ps[|ps| - 1];
      && s.last == a[|a| - 1]
      && s.pending.physical == p.start && s.pending.length == p.len > 0
      && p.start + p.len < WORD
      && s.table == Records(ps[..|ps| - 1])
  }

  lemma RecordsSnoc(ps: seq<Piece>)
    requires ps != []
    ensures Records(ps) == Records(ps[..|ps| - 1]) +
                           [Record(|ps| - 1, ps[|ps| - 1].start / SECTOR, ps[|ps| - 1].len / SECTOR)]
    ensures Records([]) == [] && |Records(ps)| == |ps|
  {
  }

  lemma StepTracks(s: State, a: seq<Extent>, e: Extent)
    requires Tracks(s, a) && !e.unmapped && (a != [] ==> e.logical != 0)
    requires 0 < e.length && e.physical + e.length < WORD
    ensures Tracks(Step(s, e), a + [e])
  {
    hide Merged, Records;
    MergedSnoc(a, e);
    RecordsSnoc([Piece(e.physical, e.length)]);
    if a == [] {
      assert Merged(a + [e])[..0] == [];
    } else {
      var ps := Merged(a);
      MergedEnd(a);
      RecordsSnoc(ps);
      assert (ps + [Piece(e.physical, e.length)])[..|ps|] == ps;
      assert (ps[..|ps| - 1] + [Piece(ps[|ps| - 1].start, ps[|ps| - 1].len + e.length)])[..|ps| - 1] == ps[..|ps| - 1];
    }
  }

  /** However many extents have been taken, the state tracks the allocated ones. */
  lemma {:induction false} StepsTrack(es: seq<Extent>)
    requires WellFormed(es)
    ensures Tracks(Steps(START, es), Allocated(es))
  {
    if es != [] {
      var n := |es| - 1;
      hide Step, Tracks, Merged;
      StepsTrack(es[..n]);
      var s, a, e := Steps(START, es[..n]), Allocated(es[..n]), es[n];
      if e.unmapped {
        SkipTracks(s, a, e);
        assert a + [] == a;
      } else {
        assert a != [] ==> e.logical != 0;
        StepTracks(s, a, e);
      }
    } else {
      NothingTracked();
    }
  }

  lemma NothingTracked()
    ensures Tracks(START, [])
  {
  }

  lemma SkipTracks(s: State, a: seq<Extent>, e: Extent)
    requires Tracks(s, a) && e.unmapped
    ensures Tracks(Step(s, e), a)
  {
  }

  lemma {:induction false} StepsAppend(s: State, a: seq<Extent>, b: seq<Extent>)
    ensures Steps(s, a + b) == Steps(Steps(s, a), b)
  {
    hide Step;
    if b == [] {
      assert a + b == a;
    } else {
      var m := |b| - 1;
      StepsAppend(s, a, b[..m]);
      assert (a + b)[..|a| + m] == a + b[..m];
    }
  }

  lemma {:induction false} StepsEof(s: State, es: seq<Extent>)
    ensures Steps(s, es).eof <==> s.eof || exists i :: 0 <= i < |es| && es[i].last
  {
    if es != [] {
      StepsEof(s, es[..|es| - 1]);
    }
  }

  /** Batches that are not empty, of which none but the last ends at logical offset 0. */
  ghost predicate Plain(batches: seq<seq<Extent>>) {
    && (forall i :: 0 <= i < |batches| ==> batches[i] != [])
    && (forall i :: 0 <= i < |batches| - 1 ==> batches[i][|batches[i]| - 1].logical != 0)
  }

  lemma TailMarked(b: seq<Extent>, rest: seq<Extent>)
    requires LastMarked(b + rest) && rest != []
    ensures LastMarked(rest) && forall i :: 0 <= i < |b| ==> !b[i].last
  {
    assert forall i :: 0 <= i < |b| ==> (b + rest)[i] == b[i];
    assert forall i :: 0 <= i < |rest| ==> (b + rest)[|b| + i] == rest[i];
  }

  lemma {:induction false} ConcatNotEmpty(batches: seq<seq<Extent>>)
    requires batches != [] && batches[0] != []
    ensures Concat(batches) != []
  {
  }

  /** A run over plain batches is one pass over all extents and a final flush. */
  lemma {:induction false} RunIsOnePass(s: State, batches: seq<seq<Extent>>)
    requires batches != [] && Plain(batches) && LastMarked(Concat(batches)) && !s.eof
    ensures Run(s, batches) == Flush(Steps(s, Concat(batches)))
    decreases |batches|
  {
    hide Step, Flush, Steps, LastMarked;
    var b, rest := batches[0], batches[1..];
    StepsEof(s, b);
    if rest == [] {
      assert Concat(batches) == b;
      LastIsMarked(b);
    } else {
      ConcatNotEmpty(rest);
      TailMarked(b, Concat(rest));
      StepsAppend(s, b, Concat(rest));
      RunIsOnePass(Steps(s, b), rest);
    }
  }

  lemma LastIsMarked(b: seq<Extent>)
    requires LastMarked(b)
    ensures b != [] && b[|b| - 1].last
  {
  }

  predicate Whole(p: Piece) { p.start % SECTOR == 0 && p.len % SECTOR == 0 }

  lemma WholeRecord(ps: seq<Piece>, k: nat)
    requires k < |ps|
    ensures Piece(SECTOR * Records(ps)[k].start, SECTOR * Records(ps)[k].len) == ps[k] <==> Whole(ps[k])
  {
  }

  lemma AttachedWhole(es: seq<Extent>, ps: seq<Piece>, e: Extent)
    requires es == [] <==> ps == []
    requires forall k :: 0 <= k < |ps| ==> Whole(ps[k])
    requires Whole(Piece(e.physical, e.length))
    ensures forall k :: 0 <= k < |Attached(es, ps, e)| ==> Whole(Attached(es, ps, e)[k])
  {
  }

  lemma {:induction false} MergedWhole(es: seq<Extent>)
    requires forall i :: 0 <= i < |es| ==> es[i].physical % SECTOR == 0 && es[i].length % SECTOR == 0
    ensures forall k :: 0 <= k < |Merged(es)| ==> Whole(Merged(es)[k])
  {
    if es != [] {
      var front, e := es[..|es| - 1], es[|es| - 1];
      MergedWhole(front);
      hide Attached;
      AttachedWhole(front, Merged(front), e);
    }
  }

  /** With extents on sector boundaries the division by the sector size loses nothing. */
  lemma RecordsLoseNothing(es: seq<Extent>)
    requires forall i :: 0 <= i < |es| ==> es[i].physical % 512 == 0 && es[i].length % 512 == 0
    ensures var ps, rs := Merged(es), Records(Merged(es));
            forall k :: 0 <= k < |ps| ==> Piece(512 * rs[k].start, 512 * rs[k].len) == ps[k]
  {
    MergedWhole(es);
    hide Merged, Whole;
    forall k | 0 <= k < |Merged(es)|
      ensures Piece(SECTOR * Records(Merged(es))[k].start, SECTOR * Records(Merged(es))[k].len) == Merged(es)[k]
    {
      WholeRecord(Merged(es), k);
    }
  }

  /** A first batch that is a single extent at logical offset 0, with more to come. */
  predicate CutAfterFirst(batches: seq<seq<Extent>>) {
    |batches| > 1 && |batches[0]| == 1 && batches[0][0].logical == 0
  }

  /** The answers of the ioctl for one file. */
  ghost predicate Answers(batches: seq<seq<Extent>>) {
    && batches != []
    && (forall i :: 0 <= i < |batches| ==> batches[i] != [])
    && WellFormed(Concat(batches))
    && LastMarked(Concat(batches))
  }

  lemma TailFormed(b: seq<Extent>, rest: seq<Extent>)
    requires WellFormed(b + rest)
    ensures WellFormed(rest)
    ensures b != [] ==> forall i :: 0 <= i < |rest| ==> rest[i].logical > 0
    ensures forall i :: 0 <= i < |b| ==> i == 0 || b[i].logical > 0
  {
    assert forall i :: 0 <= i < |b| ==> (b + rest)[i] == b[i];
    assert forall i :: 0 <= i < |rest| ==> (b + rest)[|b| + i] == rest[i];
    if b != [] {
      forall i | 0 <= i < |rest| ensures rest[i].logical > 0 {
        assert (b + rest)[0].logical < (b + rest)[|b| + i].logical;
      }
      assert forall i :: 0 < i < |b| ==> (b + rest)[0].logical < (b + rest)[i].logical;
    }
  }

  /** Behind the first extent no batch can end at logical offset 0. */
  lemma {:induction false} LaterArePlain(batches: seq<seq<Extent>>)
    requires forall i :: 0 <= i < |batches| ==> batches[i] != []
    requires forall i :: 0 <= i < |Concat(batches)| ==> Concat(batches)[i].logical > 0
    ensures Plain(batches)
    decreases |batches|
  {
    if batches != [] {
      var b, rest := batches[0], Concat(batches[1..]);
      var all := Concat(batches);
      assert all == b + rest;
      hide Concat;
      assert forall i :: 0 <= i < |b| ==> all[i] == b[i] && b[i].logical > 0;
      assert forall i :: 0 <= i < |rest| ==> all[|b| + i] == rest[i];
      LaterArePlain(batches[1..]);
      forall i | 0 <= i < |batches| - 1 ensures batches[i][|batches[i]| - 1].logical != 0 {
        if i > 0 {
          assert batches[i] == batches[1..][i - 1];
        }
      }
    }
  }

  lemma PlainUnlessCut(batches: seq<seq<Extent>>)
    requires Answers(batches)
    ensures Plain(batches[1..])
    ensures !CutAfterFirst(batches) ==> Plain(batches)
  {
    hide WellFormed, LastMarked;
    var b, rest := batches[0], batches[1..];
    TailFormed(b, Concat(rest));
    LaterArePlain(rest);
    if !CutAfterFirst(batches) {
      forall i | 0 <= i < |batches| - 1 ensures batches[i][|batches[i]| - 1].logical != 0 {
        if i > 0 {
          assert batches[i] == rest[i - 1];
        }
      }
    }
  }

  /** The same state but for what the table holds. */
  predicate Alike(s: State, t: State) {
    s.last == t.last && s.pending == t.pending && s.eof == t.eof
  }

  lemma {:induction false} TablesGrowAlike(s: State, t: State, es: seq<Extent>)
    requires Alike(s, t)
    ensures Alike(Steps(s, es), Steps(t, es))
    ensures |Steps(s, es).table| - |s.table| == |Steps(t, es).table| - |t.table|
  {
    if es != [] {
      TablesGrowAlike(s, t, es[..|es| - 1]);
    }
  }

  /** The final flush completes the merged list, if there is anything to merge. */
  lemma FlushCompletes(es: seq<Extent>)
    requires WellFormed(es)
    ensures var a, t := Allocated(es), Flush(Steps(START, es)).table;
            if a == [] then |t| == 1 else t == Records(Merged(a))
  {
    hide Steps, Merged, Records, Allocated;
    StepsTrack(es);
    var a := Allocated(es);
    if a != [] {
      RecordsSnoc(Merged(a));
    }
  }

  /** A cut after the first extent leaves one record too many. */
  lemma CutAddsOne(batches: seq<seq<Extent>>)
    requires Answers(batches) && CutAfterFirst(batches)
    ensures |Run(START, batches).table| == |Flush(Steps(START, Concat(batches))).table| + 1
  {
    hide Step, Steps, WellFormed, LastMarked, Flush;
    var b, rest := batches[0], batches[1..];
    PlainUnlessCut(batches);
    ConcatNotEmpty(rest);
    TailMarked(b, Concat(rest));
    StepsEof(START, b);
    var t := Steps(START, b);
    FlushAdds(t);
    assert Run(START, batches) == Run(Flush(t), rest);
    RunIsOnePass(Flush(t), rest);
    StepsAppend(START, b, Concat(rest));
    TablesGrowAlike(t, Flush(t), Concat(rest));
    FlushAdds(Steps(t, Concat(rest)));
    FlushAdds(Steps(Flush(t), Concat(rest)));
  }

  lemma FlushAdds(s: State)
    ensures |Flush(s).table| == |s.table| + 1 && Alike(Flush(s), s)
  {
  }

  /** The extent table does not depend on how the extents are cut into batches: it is
      the in-order merge of the allocated extents, exactly unless nothing is allocated
      or the first batch is a lone extent at logical offset 0. */
  lemma BatchesDoNotMatter(batches: seq<seq<Extent>>)
    requires Answers(batches)
    ensures var a := Allocated(Concat(batches));
            Run(START, batches).table == Records(Merged(a)) <==> a != [] && !CutAfterFirst(batches)
  {
    var es := Concat(batches);
    FlushCompletes(es);
    PlainUnlessCut(batches);
    hide Steps, Merged, Records, Allocated, Concat, Run, Flush, Plain, WellFormed, LastMarked;
    RecordsSize(Merged(Allocated(es)));
    if CutAfterFirst(batches) {
      CutAddsOne(batches);
    } else {
      RunIsOnePass(START, batches);
    }
  }

  lemma RecordsSize(ps: seq<Piece>)
    ensures |Records(ps)| == |ps|
  {
  }
}
