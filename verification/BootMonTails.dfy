/**
 What the block tails of a file's extent hold after a flush, told from its buffer and
 flash before it: the description written last, the final one, and in every other tail
 data, zeros where descriptions were erased, or what was there.
 */
module BootMonTails {
  import opened Bytes
  import opened Options
  import opened ByteStore
  import opened BootMonImage
  import opened BootMonVolume
  import opened BootMonAllocation
  import opened BootMonFlush
  import opened BootMonMount

  // ---------- One byte, whatever descriptions passed over it ----------

  /** A description was put on byte `k` after the byte was last written. */
  ghost predicate DescribedOver(g: Geometry, oldSize: nat, rs: seq<Region>, k: nat)
    requires g.blockSize > 0
  {
    exists t :: 0 <= t < |rs| && LastRegion(rs, k) <= t && Appends(rs[t], oldSize) && InTail(g, rs[t].End(), k)
  }

  /**
   Byte `k` of the file's blocks, not in the tail described last: zero where a description
   was erased, else the byte written last, else what was there.
   */
  ghost function LeftByte(g: Geometry, m: seq<byte>, start: nat, f: File, rs: seq<Region>, k: nat): byte
    requires g.blockSize > 0 && start + k < |m|
  {
    var j := LastRegion(rs, k);
    if DescribedOver(g, f.DataSize(), rs, k) then 0
    else if j >= 0 then rs[j].data[k - rs[j].offset]
    else if LastAppend(rs, f.DataSize()) >= 0 && Erases(f.hwAddress, start + k) then 0
    else m[start + k]
  }

  /** Byte `k` is in the tail of the region described last. */
  predicate InLastTail(g: Geometry, oldSize: nat, rs: seq<Region>, k: nat)
    requires g.blockSize > 0
  {
    var j := LastAppend(rs, oldSize);
    j >= 0 && InTail(g, rs[j].End(), k)
  }

  lemma {:induction false} DescribedSnoc(g: Geometry, oldSize: nat, rs: seq<Region>, k: nat)
    requires g.blockSize > 0 && rs != [] && !RegionCovers(rs[|rs| - 1], k)
    requires !(Appends(rs[|rs| - 1], oldSize) && InTail(g, rs[|rs| - 1].End(), k))
    ensures DescribedOver(g, oldSize, rs, k) == DescribedOver(g, oldSize, rs[..|rs| - 1], k)
  {
    var front := rs[..|rs| - 1];
    if DescribedOver(g, oldSize, rs, k) {
      var t :| 0 <= t < |rs| && LastRegion(rs, k) <= t && Appends(rs[t], oldSize) && InTail(g, rs[t].End(), k);
      assert front[t] == rs[t];
    }
    if DescribedOver(g, oldSize, front, k) {
      var t :| 0 <= t < |front| && LastRegion(front, k) <= t && Appends(front[t], oldSize) && InTail(g, front[t].End(), k);
      assert rs[t] == front[t];
    }
  }

  lemma {:induction false} LastAppendSnoc(rs: seq<Region>, oldSize: nat)
    requires rs != []
    ensures var n := |rs| - 1;
            LastAppend(rs, oldSize) == if Appends(rs[n], oldSize) then n else LastAppend(rs[..n], oldSize)
  {
  }

  /** Byte `k` written by the last region, outside the tail described last. */
  lemma {:induction false} CoveredLast(g: Geometry, oldSize: nat, rs: seq<Region>, k: nat)
    requires g.blockSize > 0 && rs != [] && RegionCovers(rs[|rs| - 1], k)
    requires !(Appends(rs[|rs| - 1], oldSize) && InTail(g, rs[|rs| - 1].End(), k))
    ensures LastRegion(rs, k) == |rs| - 1 && !DescribedOver(g, oldSize, rs, k)
  {
  }

  /** An append erases the description before it; the byte stays zero. */
  lemma {:induction false} ErasedLeft(c: Context, m: seq<byte>, f: File, rs: seq<Region>, s: Stage, k: nat)
    requires c.geometry.Valid() && TailClear(c, f) && rs != [] && c.start + k < |m|
    requires StageFits(c, f, rs, |rs| - 1, s) && s.Append? && Erases(s.erased, c.start + k)
    requires !RegionCovers(rs[|rs| - 1], k)
    ensures LeftByte(c.geometry, m, c.start, f, rs, k) == 0
  {
    var n := |rs| - 1;
    var t := LastAppend(rs[..n], c.oldSize);
    if t >= 0 {
      TailBehindData(c.geometry, rs[t].End());
    }
    CoversBehind(rs[..n], c.oldSize, k);
    if t >= 0 {
      assert InTail(c.geometry, rs[t].End(), k);
      assert DescribedOver(c.geometry, c.oldSize, rs, k);
    } else {
      LastAppendSnoc(rs, c.oldSize);
      assert LastRegion(rs, k) == -1;
    }
  }

  /** A region that neither writes, describes nor erases byte `k` leaves it alone. */
  lemma {:induction false} MissedLeft(c: Context, m: seq<byte>, f: File, rs: seq<Region>, s: Stage, k: nat)
    requires c.geometry.Valid() && c.oldSize == f.DataSize() && rs != [] && c.start + k < |m|
    requires StageFits(c, f, rs, |rs| - 1, s) && (s.Append? ==> !Erases(s.erased, c.start + k))
    requires !RegionCovers(rs[|rs| - 1], k) && !InLastTail(c.geometry, c.oldSize, rs, k)
    ensures !InLastTail(c.geometry, c.oldSize, rs[..|rs| - 1], k)
    ensures LeftByte(c.geometry, m, c.start, f, rs, k) == LeftByte(c.geometry, m, c.start, f, rs[..|rs| - 1], k)
  {
    var n := |rs| - 1;
    LastAppendSnoc(rs, c.oldSize);
    DescribedSnoc(c.geometry, c.oldSize, rs, k);
    var t := LastAppend(rs[..n], c.oldSize);
    if t >= 0 {
      TailBehindData(c.geometry, rs[t].End());
    }
  }

  lemma {:induction false} StageLeaves(c: Context, m: seq<byte>, f: File, rs: seq<Region>, s: Stage, x: byte, k: nat)
    requires c.geometry.Valid() && TailClear(c, f) && rs != [] && c.start + k < |m|
    requires StageFits(c, f, rs, |rs| - 1, s) && !InLastTail(c.geometry, c.oldSize, rs, k)
    requires !InLastTail(c.geometry, c.oldSize, rs[..|rs| - 1], k) ==> x == LeftByte(c.geometry, m, c.start, f, rs[..|rs| - 1], k)
    ensures StageByte(s, x, c.start + k) == LeftByte(c.geometry, m, c.start, f, rs, k)
  {
    hide LeftByte, DescribedOver, InTail;
    var n := |rs| - 1;
    var r := rs[n];
    LastAppendSnoc(rs, c.oldSize);
    StageMissesTail(c, f, rs, s, k);
    if RegionCovers(r, k) {
      CoveredLast(c.geometry, c.oldSize, rs, k);
      CoveredLeft(c.geometry, m, c.start, f, rs, k);
    } else if s.Append? && Erases(s.erased, c.start + k) {
      ErasedLeft(c, m, f, rs, s, k);
    } else {
      MissedLeft(c, m, f, rs, s, k);
    }
  }

  lemma {:induction false} CoveredLeft(g: Geometry, m: seq<byte>, start: nat, f: File, rs: seq<Region>, k: nat)
    requires g.blockSize > 0 && start + k < |m| && !DescribedOver(g, f.DataSize(), rs, k) && LastRegion(rs, k) >= 0
    ensures var j := LastRegion(rs, k); LeftByte(g, m, start, f, rs, k) == rs[j].data[k - rs[j].offset]
  {
  }

  lemma {:induction false} StageMissesTail(c: Context, f: File, rs: seq<Region>, s: Stage, k: nat)
    requires c.geometry.blockSize > 0 && rs != []
    requires StageFits(c, f, rs, |rs| - 1, s) && !InLastTail(c.geometry, c.oldSize, rs, k)
    ensures s.Append? ==> Appends(rs[|rs| - 1], c.oldSize) && !s.description.Covers(c.start + k)
    ensures !(Appends(rs[|rs| - 1], c.oldSize) && InTail(c.geometry, rs[|rs| - 1].End(), k))
  {
    LastAppendSnoc(rs, c.oldSize);
  }

  /** Outside the tail described last, every byte ends up as told. */
  lemma {:induction false} LeftByStages(c: Context, f: File, rs: seq<Region>, ss: seq<Stage>, m: seq<byte>, k: nat)
    requires c.geometry.Valid() && TailClear(c, f) && Staged(c, f, rs, ss) && c.start + k < |m|
    requires !InLastTail(c.geometry, c.oldSize, rs, k)
    ensures StagesByte(ss, m[c.start + k], c.start + k) == LeftByte(c.geometry, m, c.start, f, rs, k)
    decreases |rs|
  {
    hide TailClear, StageFits, StageByte, InLastTail;
    if rs != [] {
      hide LeftByte;
      var n := |rs| - 1;
      StagedPrefix(c, f, rs, ss);
      if !InLastTail(c.geometry, c.oldSize, rs[..n], k) {
        LeftByStages(c, f, rs[..n], ss[..n], m, k);
      }
      StageLeaves(c, m, f, rs, ss[n], StagesByte(ss[..n], m[c.start + k], c.start + k), k);
    }
  }

  // ---------- Block tails after a flush ----------

  /** The last block of the file once its flush has succeeded. */
  function FinalEnd(g: Geometry, f: File, b: nat): nat
    requires g.blockSize > 0 && f.info.Some?
  {
    if Rewrites(f) then b + g.BlocksFor(f.info.value.size) - 1 else f.hw.blockEnd
  }

  /**
   The block that ends in the file's description when all regions have been flushed: where
   the last appended one put it, or the old one; for a new file with neither, the final one.
   */
  function DescribedEnd(g: Geometry, f: File, b: nat): nat
    requires g.blockSize > 0 && f.info.Some?
  {
    var j := LastAppend(f.regions, f.DataSize());
    if j >= 0 then b + g.BlocksFor(f.regions[j].End()) - 1
    else if f.OnDisk() then f.hw.blockEnd
    else FinalEnd(g, f, b)
  }

  /** Block `lba` is one that the flush of file `f` may write to: its extent from `b` on, or the block of its old description. */
  predicate Reached(g: Geometry, f: File, b: nat, lba: nat)
    requires g.blockSize > 0 && f.info.Some?
  {
    b <= lba < b + g.BlocksFor(f.info.value.size) || (f.OnDisk() && lba == f.hw.blockEnd)
  }

  /** Offset in the file's blocks of the tail of block `lba`. */
  function TailStart(g: Geometry, b: nat, lba: nat): (k: nat)
    requires g.Valid() && b <= lba
    ensures b * g.blockSize + k + DESCRIPTION_SIZE == (lba + 1) * g.blockSize
  {
    MulMonotone(b + 1, lba + 1, g.blockSize);
    SumTimes(b, 1, g.blockSize);
    (lba + 1) * g.blockSize - b * g.blockSize - DESCRIPTION_SIZE
  }

  /** What is left in the tail of block `lba`. */
  ghost function LeftTail(g: Geometry, m: seq<byte>, f: File, b: nat, lba: nat): (s: seq<byte>)
    requires g.Valid() && |m| == g.Size() && b <= lba < g.blocks
    ensures |s| == DESCRIPTION_SIZE
  {
    BlockInside(g, lba);
    SumTimes(lba, 1, g.blockSize);
    seq<byte>(DESCRIPTION_SIZE, x requires 0 <= x < DESCRIPTION_SIZE =>
      LeftByte(g, m, b * g.blockSize, f, f.regions, TailStart(g, b, lba) + x))
  }

  /** Data, zeros and old contents make the tail of block `lba` look like a description. */
  ghost predicate Impostor(g: Geometry, m: seq<byte>, f: File, b: nat, lba: nat)
    requires g.Valid() && |m| == g.Size() && b <= lba < g.blocks
  {
    IsImage(Decode(LeftTail(g, m, f, b, lba)), lba)
  }

  /** No tail that the flush reaches is an impostor. */
  ghost predicate NoImpostor(g: Geometry, m: seq<byte>, f: File, b: nat)
    requires g.Valid() && |m| == g.Size() && f.info.Some?
  {
    forall lba :: b <= lba < g.blocks && Reached(g, f, b, lba) && lba != DescribedEnd(g, f, b) ==> !Impostor(g, m, f, b, lba)
  }

  /** Tails of different blocks have no byte in common. */
  lemma {:induction false} TailsApart(g: Geometry, b: nat, lba: nat, dataSize: nat, x: nat)
    requires g.Valid() && b <= lba && x < DESCRIPTION_SIZE && lba != b + g.BlocksFor(dataSize) - 1
    ensures !InTail(g, dataSize, TailStart(g, b, lba) + x)
  {
    var n := g.BlocksFor(dataSize);
    SumTimes(b, n, g.blockSize);
    SumTimes(lba, 1, g.blockSize);
    if lba < b + n {
      MulMonotone(lba + 2, b + n, g.blockSize);
      SumTimes(lba, 2, g.blockSize);
    } else {
      MulMonotone(b + n + 1, lba + 1, g.blockSize);
      SumTimes(b + n, 1, g.blockSize);
    }
  }

  lemma {:induction false} TailsOfBlocksApart(g: Geometry, x: word, y: word)
    requires g.Valid() && x < y < g.blocks
    ensures TailAddress(g, x) + DESCRIPTION_SIZE <= TailAddress(g, y)
  {
    TailInside(g, x);
    TailInside(g, y);
    MulMonotone(x + 1, y, g.blockSize);
    SumTimes(y, 1, g.blockSize);
  }

  lemma {:induction false} NotInLastTail(g: Geometry, f: File, b: nat, lba: nat, x: nat)
    requires g.Valid() && f.info.Some? && b <= lba && x < DESCRIPTION_SIZE && lba != DescribedEnd(g, f, b)
    ensures !InLastTail(g, f.DataSize(), f.regions, TailStart(g, b, lba) + x)
  {
    hide InTail;
    var j := LastAppend(f.regions, f.DataSize());
    if j >= 0 {
      TailsApart(g, b, lba, f.regions[j].End(), x);
    }
  }

  lemma {:induction false} NotInFinalTail(g: Geometry, f: File, b: nat, lba: nat, x: nat)
    requires g.Valid() && f.info.Some? && b <= lba && x < DESCRIPTION_SIZE && lba != FinalEnd(g, f, b)
    ensures Rewrites(f) ==> !InTail(g, f.info.value.size, TailStart(g, b, lba) + x)
  {
    hide InTail, Rewrites;
    if Rewrites(f) {
      TailsApart(g, b, lba, f.info.value.size, x);
    }
  }

  /** Outside its own tail, the final description changes nothing. */
  lemma {:induction false} FinishLeaves(c: Context, f: File, b: nat, m: seq<byte>, k: nat)
    requires Flushed(c, f, b, m) && c.oldSize == f.DataSize() && c.name == f.info.value.name && c.start + k < |m|
    requires Rewrites(f) ==> !InTail(c.geometry, f.info.value.size, k)
    ensures var p := RegionsPlan(c, f); p.status == Success && AllFit(Writes(p.actions), |m|)
    ensures After(m, FlushPlan(c, f))[c.start + k] == After(m, RegionsPlan(c, f))[c.start + k]
  {
    hide InTail, Rewrites, RegionsPlan, Describe, Encode, NameOf, Rooted, TailClear;
    FlushedGeometry(c, f, b, m);
    var p, n := RegionsPlan(c, f), f.info.value.size;
    var q := PlanDescription(c, p, n);
    assert FlushPlan(c, f).actions == p.actions + FlushPlan(c, f).actions[|p.actions|..];
    PrefixFits(p.actions, FlushPlan(c, f).actions[|p.actions|..], |m|);
    if FlushPlan(c, f) != p {
      RewritesFinally(c, f, b);
      AfterSnoc(m, p.actions, Action(Write(q.hwAddress, Encode(q.hw)), q.hw, q.hwAddress));
      FinalAddress(c, p, b, n);
      DescriptionMisses(c, q.hwAddress, q.hw, n, k);
    }
  }

  lemma {:induction false} FinalAddress(c: Context, p: Plan, b: nat, n: nat)
    requires Rooted(c, b, n)
    ensures PlanDescription(c, p, n).hwAddress == c.start + TailOffset(c.geometry, n)
  {
    PlanDescriptionDescribes(c, p, b, n);
    TailIsAtOffset(c, b, PlanDescription(c, p, n).hw, n);
  }

  lemma {:induction false} DescriptionMisses(c: Context, at: nat, hw: Description, n: nat, k: nat)
    requires c.geometry.blockSize > 0 && at == c.start + TailOffset(c.geometry, n) && !InTail(c.geometry, n, k)
    ensures !Write(at, Encode(hw)).Covers(c.start + k)
  {
  }

  /** If the final description is written, the flush rewrites the record. */
  lemma {:induction false} RewritesFinally(c: Context, f: File, b: nat)
    requires f.info.Some? && RegionsWithin(f) && Rooted(c, b, f.info.value.size)
    requires c.oldSize == f.DataSize() && c.name == f.info.value.name
    requires RegionsPlan(c, f).status == Success && FlushPlan(c, f) != RegionsPlan(c, f)
    ensures Rewrites(f)
  {
    RegionsFinalRecord(c, f, f.regions, b, f.info.value.size);
  }

  /** The tail of a block, other than the one described last and the final one, is what is left there. */
  lemma {:induction false} FlushedTail(c: Context, f: File, b: nat, m: seq<byte>, lba: nat)
    requires Flushed(c, f, b, m) && c.oldSize == f.DataSize() && c.name == f.info.value.name && |m| == c.geometry.Size()
    requires b <= lba < c.geometry.blocks && lba != FinalEnd(c.geometry, f, b) && lba != DescribedEnd(c.geometry, f, b)
    ensures ImageAt(c.geometry, After(m, FlushPlan(c, f)), lba) == Impostor(c.geometry, m, f, b, lba)
  {
    hide FinalEnd, DescribedEnd, LeftTail, InLastTail, IsImage, Decode, FlushPlan, RegionsPlan, Flushed, TailStart;
    FlushedGeometry(c, f, b, m);
    var g, m' := c.geometry, After(m, FlushPlan(c, f));
    var at := TailOf(g, lba);
    BlockInside(g, lba);
    SumTimes(lba, 1, g.blockSize);
    assert at == c.start + TailStart(g, b, lba);
    forall x | 0 <= x < DESCRIPTION_SIZE
      ensures m'[at..at + DESCRIPTION_SIZE][x] == LeftTail(g, m, f, b, lba)[x]
    {
      FlushedTailByte(c, f, b, m, lba, x);
    }
    assert m'[at..at + DESCRIPTION_SIZE] == LeftTail(g, m, f, b, lba);
  }

  lemma {:induction false} FlushedGeometry(c: Context, f: File, b: nat, m: seq<byte>)
    requires Flushed(c, f, b, m)
    ensures c.geometry.Valid() && c.start == b * c.geometry.blockSize && IsName(c.name) && f.info.Some?
    ensures AllFit(Writes(FlushPlan(c, f).actions), |m|)
  {
  }

  lemma {:induction false} FlushedTailByte(c: Context, f: File, b: nat, m: seq<byte>, lba: nat, x: nat)
    requires Flushed(c, f, b, m) && c.oldSize == f.DataSize() && c.name == f.info.value.name && |m| == c.geometry.Size()
    requires b <= lba < c.geometry.blocks && lba != FinalEnd(c.geometry, f, b) && lba != DescribedEnd(c.geometry, f, b)
    requires x < DESCRIPTION_SIZE && c.start + TailStart(c.geometry, b, lba) + x < |m|
    ensures After(m, FlushPlan(c, f))[c.start + TailStart(c.geometry, b, lba) + x] == LeftTail(c.geometry, m, f, b, lba)[x]
  {
    hide FinalEnd, DescribedEnd, LeftByte, InLastTail, FlushPlan, RegionsPlan, InTail, Rewrites, TailStart;
    var k := TailStart(c.geometry, b, lba) + x;
    FinishSucceeds(c, f, b, m);
    StagesAreStaged(c, f, b, f.info.value.size, f.regions);
    NotInFinalTail(c.geometry, f, b, lba, x);
    FinishLeaves(c, f, b, m, k);
    NotInLastTail(c.geometry, f, b, lba, x);
    PlanBytes(c, f, m, c.start + k);
    LeftByStages(c, f, f.regions, Stages(c, f, f.regions), m, k);
  }

  lemma {:induction false} FinishSucceeds(c: Context, f: File, b: nat, m: seq<byte>)
    requires Flushed(c, f, b, m)
    ensures PlanRegions(c, StartPlan(f), f.regions).status == Success
    ensures forall r :: r in f.regions ==> r.End() <= f.info.value.size
  {
  }

  lemma {:induction false} PlanBytes(c: Context, f: File, m: seq<byte>, a: nat)
    requires c.geometry.blockSize > 0 && IsName(c.name) && a < |m|
    requires RegionsPlan(c, f).status == Success && AllFit(Writes(RegionsPlan(c, f).actions), |m|)
    ensures After(m, RegionsPlan(c, f))[a] == StagesByte(Stages(c, f, f.regions), m[a], a)
  {
    BytesOfStages(c, f, f.regions, m, a);
  }

  // ---------- The description left behind ----------

  /** With an appended region, the record describes the last one. */
  lemma {:induction false} LastDescribed(c: Context, f: File, rs: seq<Region>, b: nat, reach: nat)
    requires Rooted(c, b, reach)
    requires forall r :: r in rs ==> r.End() <= reach
    ensures var p, j := PlanRegions(c, StartPlan(f), rs), LastAppend(rs, c.oldSize);
            p.status == Success && j >= 0 ==>
              && Described(c.geometry, p.hw, p.hwAddress, b) && p.hw.regions[0].size == rs[j].End()
              && FooterMatches(p.hw) && WithChecksum(p.hw) == p.hw
    ensures var p, j := PlanRegions(c, StartPlan(f), rs), LastAppend(rs, c.oldSize);
            p.status == Success && j < 0 ==> p.hw == f.hw && p.hwAddress == f.hwAddress
  {
    hide Described, FooterMatches, Describe, WithChecksum, HasSpace;
    if rs != [] {
      var n := |rs| - 1;
      var p, r := PlanRegions(c, StartPlan(f), rs[..n]), rs[n];
      LastDescribed(c, f, rs[..n], b, reach);
      LastAppendSnoc(rs, c.oldSize);
      if Appends(r, c.oldSize) {
        var q := AppendBase(c, p, r);
        PlanDescriptionDescribes(c, q, b, r.End());
        DescribeIsImage(q.hw, c.name, r.End(), c.start, c.geometry.blockSize);
      }
    }
  }

  /** When all regions have been flushed, the record is the one in flash, in the block described last. */
  lemma {:induction false} DescribedOnFlash(c: Context, f: File, b: nat, m: seq<byte>)
    requires Flushed(c, f, b, m) && c.oldSize == f.DataSize() && |m| == c.geometry.Size()
    requires DescribedEnd(c.geometry, f, b) < c.geometry.blocks
    requires LastAppend(f.regions, f.DataSize()) >= 0 || f.OnDisk()
    requires if f.OnDisk() then RecordOk(c.geometry, f) && OnFlash(m, f) else f.hwAddress == 0
    ensures var p := RegionsPlan(c, f); p.status == Success && AllFit(Writes(p.actions), |m|)
    ensures var p := RegionsPlan(c, f);
            var f' := f.(hw := p.hw, hwAddress := p.hwAddress);
            p.hw.blockEnd == DescribedEnd(c.geometry, f, b) && RecordOk(c.geometry, f') && OnFlash(After(m, p), f')
  {
    hide FooterMatches, WithChecksum, RecordOk, NameOf, HoldsAt;
    var g, p, n := c.geometry, RegionsPlan(c, f), f.info.value.size;
    assert FlushPlan(c, f).actions == p.actions + FlushPlan(c, f).actions[|p.actions|..];
    PrefixFits(p.actions, FlushPlan(c, f).actions[|p.actions|..], |m|);
    LastDescribed(c, f, f.regions, b, n);
    var f' := f.(hw := p.hw, hwAddress := p.hwAddress);
    if f.OnDisk() {
      AddressPositive(g, f);
    }
    RegionsHold(c, f, b, n, f.regions, m);
    if LastAppend(f.regions, f.DataSize()) >= 0 {
      DescribedIsRecordOk(g, f', b);
    }
    AddressPositive(g, f');
  }

  /**
   A final description in another block leaves the one before it in flash, whichever it
   was: it is not erased.
   */
  lemma {:induction false} DescriptionLeft(c: Context, f: File, b: nat, m: seq<byte>)
    requires Flushed(c, f, b, m) && c.oldSize == f.DataSize() && c.name == f.info.value.name && |m| == c.geometry.Size()
    requires b <= DescribedEnd(c.geometry, f, b) < c.geometry.blocks && DescribedEnd(c.geometry, f, b) != FinalEnd(c.geometry, f, b)
    requires if f.OnDisk() then RecordOk(c.geometry, f) && OnFlash(m, f) else f.hwAddress == 0
    ensures ImageAt(c.geometry, After(m, FlushPlan(c, f)), DescribedEnd(c.geometry, f, b))
  {
    hide RecordOk, OnFlash, ImageAt, FlushPlan, RegionsPlan, TailStart, Rewrites;
    FlushedGeometry(c, f, b, m);
    var g, lba := c.geometry, DescribedEnd(c.geometry, f, b);
    SomethingDescribed(g, f, b);
    DescribedOnFlash(c, f, b, m);
    var p := RegionsPlan(c, f);
    var f', m', before := f.(hw := p.hw, hwAddress := p.hwAddress), After(m, FlushPlan(c, f)), After(m, p);
    AddressOfRecord(g, f');
    BlockInside(g, lba);
    SumTimes(lba, 1, g.blockSize);
    assert p.hwAddress == c.start + TailStart(g, b, lba);
    forall a | p.hwAddress <= a < p.hwAddress + DESCRIPTION_SIZE
      ensures m'[a] == before[a]
    {
      NotInFinalTail(g, f, b, lba, a - p.hwAddress);
      FinishLeaves(c, f, b, m, a - c.start);
    }
    SameTailOnFlash(before, m', f');
    OnFlashIsImage(g, m', f');
  }

  lemma {:induction false} SomethingDescribed(g: Geometry, f: File, b: nat)
    requires g.blockSize > 0 && f.info.Some? && DescribedEnd(g, f, b) != FinalEnd(g, f, b)
    ensures LastAppend(f.regions, f.DataSize()) >= 0 || f.OnDisk()
  {
  }

  lemma {:induction false} AddressOfRecord(g: Geometry, f: File)
    requires g.Valid() && RecordOk(g, f)
    ensures f.hwAddress == (f.hw.blockEnd + 1) * g.blockSize - DESCRIPTION_SIZE
  {
  }
}
