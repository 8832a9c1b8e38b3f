/**
 Descriptions in flash: a successful flush leaves the file's own description in place
 and every other file's untouched, and mounting finds exactly the descriptions that
 are there.
 */
module BootMonMount {
  import opened Bytes
  import opened Options
  import opened ByteStore
  import opened BootMonImage
  import opened BootMonVolume
  import opened BootMonAllocation
  import opened BootMonFlush

  // ---------- Where a flush writes ----------

  /** A write inside blocks `b ..` up to `reach` bytes of data, or the erasure of the old description. */
  predicate Confined(c: Context, oldTail: nat, reach: nat, w: Write)
    requires c.geometry.blockSize > 0
  {
    || (c.start <= w.addr && w.addr + |w.data| <= c.start + TailOffset(c.geometry, reach) + DESCRIPTION_SIZE)
    || (w.addr == oldTail && oldTail != 0 && |w.data| == DESCRIPTION_SIZE)
  }

  predicate AllConfined(c: Context, oldTail: nat, reach: nat, actions: seq<Action>)
    requires c.geometry.blockSize > 0
  {
    forall a | a in actions :: Confined(c, oldTail, reach, a.write)
  }

  lemma {:induction false} TailMonotone(g: Geometry, a: nat, b: nat)
    requires g.Valid() && a <= b
    ensures TailOffset(g, a) <= TailOffset(g, b)
  {
    BlocksForMonotone(g, a, b);
    MulMonotone(g.BlocksFor(a), g.BlocksFor(b), g.blockSize);
  }

  lemma {:induction false} DescriptionConfined(c: Context, p: Plan, oldTail: nat, b: nat, dataSize: nat, reach: nat)
    requires Rooted(c, b, reach) && dataSize <= reach
    requires AllConfined(c, oldTail, reach, p.actions)
    ensures AllConfined(c, oldTail, reach, PlanDescription(c, p, dataSize).actions)
    ensures PlanDescription(c, p, dataSize).hwAddress == c.start + TailOffset(c.geometry, dataSize)
    ensures c.start < PlanDescription(c, p, dataSize).hwAddress
  {
    var q := PlanDescription(c, p, dataSize);
    PlanDescriptionDescribes(c, p, b, dataSize);
    TailIsAtOffset(c, b, q.hw, dataSize);
    TailBehindData(c.geometry, dataSize);
    TailMonotone(c.geometry, dataSize, reach);
  }

  lemma {:induction false} RegionsConfined(c: Context, f: File, b: nat, reach: nat, rs: seq<Region>)
    requires Rooted(c, b, reach)
    requires forall r :: r in rs ==> r.End() <= reach
    ensures AllConfined(c, f.hwAddress, reach, PlanRegions(c, StartPlan(f), rs).actions)
    ensures var p := PlanRegions(c, StartPlan(f), rs);
            p.hwAddress == f.hwAddress || (c.start < p.hwAddress <= c.start + TailOffset(c.geometry, reach))
  {
    if rs != [] {
      var n := |rs| - 1;
      var p, r := PlanRegions(c, StartPlan(f), rs[..n]), rs[n];
      RegionsConfined(c, f, b, reach, rs[..n]);
      TailBehindData(c.geometry, reach);
      if p.status == Success && Appends(r, c.oldSize) && HasSpace(c, p.hw, r.End()) {
        TailMonotone(c.geometry, r.End(), reach);
        DescriptionConfined(c, AppendBase(c, p, r), f.hwAddress, b, r.End(), reach);
      }
    }
  }

  lemma {:induction false} FlushConfined(c: Context, f: File, b: nat)
    requires f.info.Some?
    requires Rooted(c, b, Reach(f.info.value.size, f.regions))
    ensures AllConfined(c, f.hwAddress, Reach(f.info.value.size, f.regions), FlushPlan(c, f).actions)
  {
    var reach := Reach(f.info.value.size, f.regions);
    RegionsConfined(c, f, b, reach, f.regions);
    DescriptionConfined(c, RegionsPlan(c, f), f.hwAddress, b, f.info.value.size, reach);
  }

  /** Any execution of confined writes, complete or broken off, leaves all other bytes alone. */
  lemma {:induction false} ExecutedConfined(c: Context, oldTail: nat, reach: nat, actions: seq<Action>, done: nat, m: seq<byte>, m': seq<byte>, a: nat)
    requires c.geometry.blockSize > 0
    requires AllConfined(c, oldTail, reach, actions) && Executed(actions, done, m, m') && a < |m|
    requires a < c.start || c.start + TailOffset(c.geometry, reach) + DESCRIPTION_SIZE <= a
    requires !Erases(oldTail, a)
    ensures m'[a] == m[a]
  {
    forall x | x in actions
      ensures !x.write.Covers(a)
    {
      assert Confined(c, oldTail, reach, x.write);
    }
    var ws := Writes(actions[..done]);
    forall w | w in ws
      ensures !w.Covers(a)
    {
      var i :| 0 <= i < |ws| && ws[i] == w;
      assert actions[i] in actions;
    }
    Untouched(m, ws, a);
  }

  // ---------- The description in place ----------

  predicate HoldsAt(m: seq<byte>, at: nat, d: Description)
  {
    at + DESCRIPTION_SIZE <= |m| && m[at..at + DESCRIPTION_SIZE] == Encode(d)
  }

  lemma {:induction false} ApplyOneBelow(m: seq<byte>, w: Write, at: nat, n: nat)
    requires w.Fits(|m|) && w.addr + |w.data| <= at && at + n <= |m|
    ensures ApplyOne(m, w)[at..at + n] == m[at..at + n]
  {
  }

  lemma {:induction false} ApplyOneSlice(m: seq<byte>, w: Write)
    requires w.Fits(|m|)
    ensures ApplyOne(m, w)[w.addr..w.addr + |w.data|] == w.data
  {
  }

  lemma {:induction false} PlanDescriptionHolds(c: Context, p: Plan, dataSize: nat, m: seq<byte>)
    requires c.geometry.blockSize > 0 && IsName(c.name)
    requires AllFit(Writes(PlanDescription(c, p, dataSize).actions), |m|)
    ensures var q := PlanDescription(c, p, dataSize); HoldsAt(After(m, q), q.hwAddress, q.hw)
  {
    var q := PlanDescription(c, p, dataSize);
    var a := Action(Write(q.hwAddress, Encode(q.hw)), q.hw, q.hwAddress);
    AfterSnoc(m, p.actions, a);
    ApplyOneSlice(After(m, p), a.write);
  }

  lemma {:induction false} EditBelowHolds(c: Context, p: Plan, r: Region, m: seq<byte>)
    requires c.geometry.blockSize > 0 && IsName(c.name)
    requires p.status == Success && r.data != [] && r.End() < c.oldSize
    requires AllFit(Writes(PlanRegion(c, p, r).actions), |m|) && AllFit(Writes(p.actions), |m|)
    requires c.start + c.oldSize <= p.hwAddress && HoldsAt(After(m, p), p.hwAddress, p.hw)
    ensures HoldsAt(After(m, PlanRegion(c, p, r)), p.hwAddress, p.hw)
  {
    hide Encode, IsName, Apply, ApplyOne, PlanDescription, AppendBase;
    var w := Write(c.start + r.offset, r.data);
    AfterSnoc(m, p.actions, Action(w, p.hw, p.hwAddress));
    ApplyOneBelow(After(m, p), w, p.hwAddress, DESCRIPTION_SIZE);
  }

  /** During a successful flush the description recorded last is the one in flash. */
  lemma {:induction false} RegionsHold(c: Context, f: File, b: nat, reach: nat, rs: seq<Region>, m: seq<byte>)
    requires Rooted(c, b, reach) && TailClear(c, f)
    requires forall r :: r in rs ==> r.End() <= reach
    requires var p := PlanRegions(c, StartPlan(f), rs); p.status == Success && AllFit(Writes(p.actions), |m|)
    requires f.hwAddress != 0 ==> HoldsAt(m, f.hwAddress, f.hw)
    ensures var p := PlanRegions(c, StartPlan(f), rs);
            p.hwAddress != 0 ==> c.start + c.oldSize <= p.hwAddress && HoldsAt(After(m, p), p.hwAddress, p.hw)
  {
    hide HoldsAt, TailAddress, HasSpace;
    if rs != [] {
      var n := |rs| - 1;
      var p, q, r := PlanRegions(c, StartPlan(f), rs[..n]), PlanRegions(c, StartPlan(f), rs), rs[n];
      assert q.actions == p.actions + q.actions[|p.actions|..];
      PrefixFits(p.actions, q.actions[|p.actions|..], |m|);
      RegionsHold(c, f, b, reach, rs[..n], m);
      if Appends(r, c.oldSize) {
        var base := AppendBase(c, p, r);
        PlanDescriptionHolds(c, base, r.End(), m);
        PlanDescriptionDescribes(c, base, b, r.End());
        TailIsAtOffset(c, b, q.hw, r.End());
        TailBehindData(c.geometry, r.End());
      } else if r.data != [] && p.hwAddress != 0 {
        EditBelowHolds(c, p, r, m);
      }
    }
  }

  lemma {:induction false} FlushHolds(c: Context, f: File, b: nat, m: seq<byte>)
    requires Flushed(c, f, b, m)
    requires f.hwAddress != 0 ==> HoldsAt(m, f.hwAddress, f.hw)
    ensures var p := FlushPlan(c, f); p.hwAddress != 0 ==> HoldsAt(After(m, p), p.hwAddress, p.hw)
  {
    var p, q := RegionsPlan(c, f), FlushPlan(c, f);
    assert q.actions == p.actions + q.actions[|p.actions|..];
    PrefixFits(p.actions, q.actions[|p.actions|..], |m|);
    RegionsHold(c, f, b, f.info.value.size, f.regions, m);
    if q == PlanDescription(c, p, f.info.value.size) {
      PlanDescriptionHolds(c, p, f.info.value.size, m);
    }
  }

  // ---------- Flash agrees with the file records ----------

  /** The file's description is in flash, is recognised there, and survives rechecking. */
  predicate OnFlash(m: seq<byte>, f: File)
  {
    HoldsAt(m, f.hwAddress, f.hw) && FooterMatches(f.hw) && WithChecksum(f.hw) == f.hw
  }

  ghost predicate FlashMatches(s: State)
  {
    forall i :: 0 <= i < |s.files| && s.files[i].OnDisk() ==> OnFlash(s.media, s.files[i])
  }

  /** The record at the end of a successful flush is one just written, or the one from before. */
  lemma {:induction false} RegionsRecognised(c: Context, f: File, rs: seq<Region>)
    requires c.geometry.blockSize > 0 && IsName(c.name)
    ensures var hw := PlanRegions(c, StartPlan(f), rs).hw;
            hw == f.hw || (FooterMatches(hw) && WithChecksum(hw) == hw)
  {
    if rs != [] {
      var n := |rs| - 1;
      var p, r := PlanRegions(c, StartPlan(f), rs[..n]), rs[n];
      RegionsRecognised(c, f, rs[..n]);
      DescribeIsImage(p.hw, c.name, r.End(), c.start, c.geometry.blockSize);
    }
  }

  lemma {:induction false} FlushRecognised(c: Context, f: File)
    requires c.geometry.blockSize > 0 && IsName(c.name) && f.info.Some?
    ensures var hw := FlushPlan(c, f).hw;
            hw == f.hw || (FooterMatches(hw) && WithChecksum(hw) == hw)
  {
    RegionsRecognised(c, f, f.regions);
    DescribeIsImage(RegionsPlan(c, f).hw, c.name, f.info.value.size, c.start, c.geometry.blockSize);
  }

  /** In a placed list, the description of another file on disk is outside what the flush may write. */
  lemma {:induction false} OtherTailOutside(c: Context, files: seq<File>, i: nat, x: nat, b: nat, n: nat, a: nat)
    requires c.geometry.Valid() && c.start == b * c.geometry.blockSize
    requires Allocated(c.geometry, files) && i < |files| && x < |files| && x != i && files[x].OnDisk()
    requires files[i].OnDisk() ==> b == files[i].hw.blockStart
    requires Slot(c.geometry, files, i, b, c.geometry.BlocksFor(n))
    requires files[x].hw.blockStart * c.geometry.blockSize <= a < (files[x].hw.blockEnd + 1) * c.geometry.blockSize
    ensures a < c.start || c.start + TailOffset(c.geometry, n) + DESCRIPTION_SIZE <= a
    ensures !Erases(files[i].hwAddress, a)
  {
    var g := c.geometry;
    SumTimes(b, g.BlocksFor(n), g.blockSize);
    if x < i {
      MulMonotone(files[x].hw.blockEnd + 1, b, g.blockSize);
    } else {
      MulMonotone(b + g.BlocksFor(n), files[x].hw.blockStart, g.blockSize);
    }
    if files[i].OnDisk() {
      var e := files[i].hw.blockEnd;
      TailInside(g, e);
      SumTimes(e, 1, g.blockSize);
      MulMonotone(files[i].hw.blockStart, e, g.blockSize);
      if x < i {
        MulMonotone(files[x].hw.blockEnd + 1, files[i].hw.blockStart, g.blockSize);
      } else {
        MulMonotone(e + 1, files[x].hw.blockStart, g.blockSize);
      }
    }
  }

  /** The blocks of file `x` are untouched. */
  predicate SameBlocks(g: Geometry, m: seq<byte>, m': seq<byte>, f: File)
  {
    |m'| == |m| &&
    forall a :: f.hw.blockStart * g.blockSize <= a < (f.hw.blockEnd + 1) * g.blockSize && 0 <= a < |m| ==> m'[a] == m[a]
  }

  lemma {:induction false} SameBlocksOnFlash(g: Geometry, m: seq<byte>, m': seq<byte>, f: File)
    requires g.Valid() && RecordOk(g, f) && |m| == g.Size() && SameBlocks(g, m, m', f) && OnFlash(m, f)
    ensures OnFlash(m', f)
  {
    TailInside(g, f.hw.blockEnd);
    MulMonotone(f.hw.blockStart, f.hw.blockEnd, g.blockSize);
    SameTailOnFlash(m, m', f);
  }

  /** Confined writes leave the blocks of another file on disk as they were. */
  lemma {:induction false} ConfinedSpares(c: Context, files: seq<File>, i: nat, x: nat, b: nat, reach: nat,
                       actions: seq<Action>, done: nat, m: seq<byte>, m': seq<byte>)
    requires c.geometry.Valid() && c.start == b * c.geometry.blockSize
    requires Allocated(c.geometry, files) && i < |files| && x < |files| && x != i && files[x].OnDisk()
    requires files[i].OnDisk() ==> b == files[i].hw.blockStart
    requires Slot(c.geometry, files, i, b, c.geometry.BlocksFor(reach))
    requires AllConfined(c, files[i].hwAddress, reach, actions) && Executed(actions, done, m, m')
    ensures SameBlocks(c.geometry, m, m', files[x])
  {
    forall a | files[x].hw.blockStart * c.geometry.blockSize <= a < (files[x].hw.blockEnd + 1) * c.geometry.blockSize && 0 <= a < |m|
      ensures m'[a] == m[a]
    {
      OtherTailOutside(c, files, i, x, b, reach, a);
      ExecutedConfined(c, files[i].hwAddress, reach, actions, done, m, m', a);
    }
  }

  /**
   Whatever the outcome, a flush with room for everything its buffer reaches leaves
   every block of every other file on disk as it was.
   */
  lemma {:induction false} FlushSparesOthers(s: State, i: nat, status: Status, s': State, j: nat, done: nat, x: nat)
    requires Flushable(s, i) && Allocated(s.geometry, s.files)
    requires FlushStep(s, i, status, s', j, done)
    requires s.files[i].info.Some? ==>
      RoomFor(s.geometry, s.files, i, Reach(s.files[i].info.value.size, s.files[i].regions))
    requires j < |s'.files| && x < |s'.files| && x != j && s'.files[x].OnDisk()
    ensures SameBlocks(s.geometry, s.media, s'.media, s'.files[x])
  {
    var g, f := s.geometry, s.files[i];
    if f.info.Some? && f.mode == ReadWrite && Place(g, s.files, i).Placed? {
      PlaceKeepsLayout(g, s.files, i);
      PlaceRooted(g, s.files, i);
      var Placed(files, index, start) := Place(g, s.files, i);
      var b, c := start / g.blockSize, ContextFor(g, files, index, start);
      var reach := Reach(f.info.value.size, f.regions);
      BlocksForBounds(g, reach);
      MulMonotone(g.BlocksFor(reach), g.blocks, g.blockSize);
      FlushConfined(c, f, b);
      PlaceStart(g, s.files, i);
      ConfinedSpares(c, files, index, x, b, reach, FlushPlan(c, f).actions, done, s.media, s'.media);
    }
  }

  /** The first block of the file, once placed, and the blocks its flush may reach. */
  predicate InExtent(g: Geometry, files: seq<File>, i: nat, a: nat)
    requires g.Valid() && i < |files| && files[i].info.Some? && Place(g, files, i).Placed?
  {
    var b := Place(g, files, i).start / g.blockSize;
    b * g.blockSize <= a < (b + g.BlocksFor(Reach(files[i].info.value.size, files[i].regions))) * g.blockSize
  }

  lemma {:induction false} SameSize(s: State, i: nat, status: Status, s': State, j: nat, done: nat)
    requires Flushable(s, i) && FlushStep(s, i, status, s', j, done)
    ensures |s'.media| == |s.media|
  {
    hide FlushPlan, RegionsPlan, Place;
  }

  /**
   Whatever its outcome, a flush changes nothing outside the blocks that its buffer
   reaches from the file's start, but for the file's own old description.
   */
  lemma {:induction false} FlushStaysInside(s: State, i: nat, status: Status, s': State, j: nat, done: nat, a: nat)
    requires Flushable(s, i) && Allocated(s.geometry, s.files) && a < |s.media|
    requires FlushStep(s, i, status, s', j, done)
    requires s.files[i].info.Some? && Reach(s.files[i].info.value.size, s.files[i].regions) + DESCRIPTION_SIZE < TWO_TO_THE_32
    requires Place(s.geometry, s.files, i).Placed? ==> !InExtent(s.geometry, s.files, i, a)
    requires !Erases(s.files[i].hwAddress, a)
    ensures |s'.media| == |s.media| && s'.media[a] == s.media[a]
  {
    hide FlushPlan, RegionsPlan, Allocated, Place, Executed, AllConfined, Reach;
    var g, f := s.geometry, s.files[i];
    SameSize(s, i, status, s', j, done);
    if f.mode == ReadWrite && Place(g, s.files, i).Placed? {
      PlaceRooted(g, s.files, i);
      var Placed(files, index, start) := Place(g, s.files, i);
      var b, c := start / g.blockSize, ContextFor(g, files, index, start);
      var reach := Reach(f.info.value.size, f.regions);
      SumTimes(b, g.BlocksFor(reach), g.blockSize);
      FlushConfined(c, f, b);
      ExecutedConfined(c, f.hwAddress, reach, FlushPlan(c, f).actions, done, s.media, s'.media, a);
    }
  }

  lemma {:induction false} PlaceStart(g: Geometry, files: seq<File>, i: nat)
    requires g.Valid() && i < |files| && files[i].info.Some?
    ensures var p := Place(g, files, i);
            p.Placed? && files[i].OnDisk() ==> p.start / g.blockSize == files[i].hw.blockStart
  {
    if files[i].OnDisk() {
      DivisionUnique(files[i].hw.blockStart * g.blockSize, files[i].hw.blockStart, 0, g.blockSize);
    }
  }

  /** In a volume with the layout, a placed file's old data is inside the media and its old description behind it. */
  lemma {:induction false} LayoutTailClear(g: Geometry, files: seq<File>, i: nat)
    requires g.Valid() && Allocated(g, files) && i < |files| && files[i].info.Some?
    requires Place(g, files, i).Placed?
    ensures var p := Place(g, files, i);
            var c := ContextFor(g, p.files, p.index, p.start);
            TailClear(c, files[i]) && c.start + c.oldSize <= g.Size()
  {
    var f, p := files[i], Place(g, files, i);
    PlaceRooted(g, files, i);
    if f.OnDisk() {
      TailInside(g, f.hw.blockEnd);
      SumTimes(f.hw.blockStart, f.hw.blockEnd - f.hw.blockStart + 1, g.blockSize);
    } else {
      BlockInside(g, p.start / g.blockSize);
    }
  }

  lemma {:induction false} CompletedIsAfter(p: Plan, done: nat, m: seq<byte>, m': seq<byte>)
    requires Executed(p.actions, done, m, m') && done == |p.actions|
    ensures AllFit(Writes(p.actions), |m|) && m' == After(m, p)
  {
    assert p.actions[..done] == p.actions;
  }

  /** The premises under which a flush that reports success is the flush the data theorems speak about. */
  lemma {:induction false} SuccessIsFlushed(s: State, i: nat, s': State, j: nat, done: nat) returns (c: Context, b: nat)
    requires Flushable(s, i) && Allocated(s.geometry, s.files)
    requires FlushStep(s, i, Success, s', j, done)
    requires RegionsWithin(s.files[i]) && s.files[i].info.value.size + DESCRIPTION_SIZE < TWO_TO_THE_32
    ensures c.geometry == s.geometry && c.oldSize == s.files[i].DataSize() && c.name == s.files[i].info.value.name
    ensures Flushed(c, s.files[i], b, s.media)
    ensures s'.media == After(s.media, FlushPlan(c, s.files[i]))
    ensures j < |s'.files| && s'.files[j].hw == FlushPlan(c, s.files[i]).hw && s'.files[j].hwAddress == FlushPlan(c, s.files[i]).hwAddress
    ensures var p := Place(s.geometry, s.files, i);
            p.Placed? && p.start == c.start && b == p.start / s.geometry.blockSize
    ensures s'.files[j] == s.files[i].(hw := s'.files[j].hw, hwAddress := s'.files[j].hwAddress, regions := [])
  {
    var g, f := s.geometry, s.files[i];
    PlaceRooted(g, s.files, i);
    PlaceKeepsLayout(g, s.files, i);
    var Placed(files, index, start) := Place(g, s.files, i);
    c, b := ContextFor(g, files, index, start), start / g.blockSize;
    LayoutTailClear(g, s.files, i);
    CompletedIsAfter(FlushPlan(c, f), done, s.media, s'.media);
  }

  /** A file on disk has its description at a positive address. */
  lemma {:induction false} AddressPositive(g: Geometry, f: File)
    requires g.Valid() && RecordOk(g, f)
    ensures f.hwAddress > 0
  {
    MulMonotone(1, f.hw.blockEnd + 1, g.blockSize);
  }

  /** A record with address 0 after a flush is the unwritten one. */
  lemma {:induction false} FlushAddress(c: Context, f: File, b: nat)
    requires f.info.Some? && RegionsWithin(f) && Rooted(c, b, f.info.value.size)
    requires c.oldSize == f.DataSize() && c.name == f.info.value.name
    ensures var p := FlushPlan(c, f);
            p.status == Success && p.hwAddress == 0 ==> p.hw == f.hw && f.hwAddress == 0
  {
    var p := FlushPlan(c, f);
    FinalRecord(c, f, b);
    if p.status == Success && Rewrites(f) {
      TailIsAtOffset(c, b, p.hw, f.info.value.size);
      TailBehindData(c.geometry, f.info.value.size);
    }
  }

  /** The flushed file's own record agrees with flash. */
  lemma {:induction false} FlushKeepsOwn(s: State, i: nat, s': State, j: nat, done: nat)
    requires Flushable(s, i) && Allocated(s.geometry, s.files) && FlashMatches(s)
    requires FlushStep(s, i, Success, s', j, done)
    requires RegionsWithin(s.files[i]) && s.files[i].info.value.size + DESCRIPTION_SIZE < TWO_TO_THE_32
    ensures j < |s'.files| && (s'.files[j].OnDisk() ==> OnFlash(s'.media, s'.files[j]))
  {
    var f := s.files[i];
    var c, b := SuccessIsFlushed(s, i, s', j, done);
    FlushAddress(c, f, b);
    FlushRecognised(c, f);
    if f.OnDisk() {
      AddressPositive(s.geometry, f);
      assert OnFlash(s.media, f);
    }
    FlushHolds(c, f, b, s.media);
  }

  lemma {:induction false} FlushKeepsOther(s: State, i: nat, s': State, j: nat, done: nat, x: nat)
    requires Flushable(s, i) && Allocated(s.geometry, s.files) && FlashMatches(s)
    requires FlushStep(s, i, Success, s', j, done) && Allocated(s'.geometry, s'.files)
    requires RegionsWithin(s.files[i]) && RoomFor(s.geometry, s.files, i, s.files[i].info.value.size)
    requires j < |s'.files| && x < |s'.files| && x != j && s'.files[x].OnDisk()
    ensures OnFlash(s'.media, s'.files[x])
  {
    PlacedFromList(s.geometry, s.files, i, x);
    FlushSparesOthers(s, i, Success, s', j, done, x);
    SameBlocksOnFlash(s.geometry, s.media, s'.media, s'.files[x]);
  }

  /** A successful flush with room keeps flash and file records in agreement. */
  lemma {:induction false} FlushKeepsFlash(s: State, i: nat, s': State, j: nat, done: nat)
    requires Flushable(s, i) && Allocated(s.geometry, s.files) && FlashMatches(s)
    requires FlushStep(s, i, Success, s', j, done)
    requires RegionsWithin(s.files[i]) && RoomFor(s.geometry, s.files, i, s.files[i].info.value.size)
    ensures Allocated(s'.geometry, s'.files) && FlashMatches(s')
  {
    PlaceRooted(s.geometry, s.files, i);
    RoomIsUntruncated(s.geometry, s.files, i, s.files[i].info.value.size);
    FlushKeepsLayoutExactly(s, i, s', j, done);
    FlushKeepsOwn(s, i, s', j, done);
    forall x | 0 <= x < |s'.files| && x != j && s'.files[x].OnDisk()
      ensures OnFlash(s'.media, s'.files[x])
    {
      FlushKeepsOther(s, i, s', j, done, x);
    }
  }

  lemma {:induction false} RoomIsUntruncated(g: Geometry, files: seq<File>, i: nat, size: nat)
    requires g.Valid() && i < |files| && files[i].info.Some?
    requires RoomFor(g, files, i, size) && Place(g, files, i).Placed?
    requires Place(g, files, i).start / g.blockSize >= 0
    ensures size + DESCRIPTION_SIZE < TWO_TO_THE_32
  {
    BlocksForBounds(g, size);
    MulMonotone(g.BlocksFor(size), g.blocks, g.blockSize);
  }

  /** Every entry of the placed list was in the list before. */
  lemma {:induction false} PlacedFromList(g: Geometry, files: seq<File>, i: nat, x: nat)
    requires i < |files| && files[i].info.Some? && Place(g, files, i).Placed? && x < |files|
    ensures exists y :: 0 <= y < |files| && Place(g, files, i).files[x] == files[y]
  {
    if !files[i].OnDisk() {
      var need := files[i].info.value.size + DESCRIPTION_SIZE;
      match FindFrom(g, files, 0, 0, need)
      case Before(k, start) => RelinkIsOrigin(files, i, k, x);
      case _ =>
    }
  }

  // ---------- The mount scan ----------

  /** Byte offset of the last 136 bytes of a block. */
  function TailOf(g: Geometry, lba: nat): nat
    requires g.Valid()
  {
    MulMonotone(1, lba + 1, g.blockSize);
    (lba + 1) * g.blockSize - DESCRIPTION_SIZE
  }

  /** What the tail of a block decodes to. */
  function Candidate(g: Geometry, m: seq<byte>, lba: nat): Description
    requires g.Valid() && |m| == g.Size() && lba < g.blocks
  {
    BlockInside(g, lba);
    Decode(m[TailOf(g, lba)..TailOf(g, lba) + DESCRIPTION_SIZE])
  }

  predicate ImageAt(g: Geometry, m: seq<byte>, lba: nat)
    requires g.Valid() && |m| == g.Size() && lba < g.blocks
  {
    IsImage(Candidate(g, m, lba), lba)
  }

  /** The record of a file found by the scan, or of a closed file with nothing buffered. */
  function MountedFile(hw: Description, hwAddress: nat): File
  {
    NEW_FILE.(hw := hw, hwAddress := hwAddress)
  }

  function FoundAt(g: Geometry, m: seq<byte>, lba: nat): File
    requires g.Valid() && |m| == g.Size() && lba < g.blocks
  {
    MountedFile(WithChecksum(Candidate(g, m, lba)), TailOf(g, lba))
  }

  /** The file records that mounting creates for blocks `lba` on, in list order. */
  function Scan(g: Geometry, m: seq<byte>, lba: nat): seq<File>
    requires g.Valid() && |m| == g.Size() && lba <= g.blocks
    decreases g.blocks - lba
  {
    if lba == g.blocks then []
    else if ImageAt(g, m, lba) then [FoundAt(g, m, lba)] + Scan(g, m, lba + 1)
    else Scan(g, m, lba + 1)
  }

  /** A record that some recognised tail gives rise to. */
  predicate Found(g: Geometry, m: seq<byte>, f: File)
    requires g.Valid() && |m| == g.Size()
  {
    f.hw.blockEnd < g.blocks && ImageAt(g, m, f.hw.blockEnd) && f == FoundAt(g, m, f.hw.blockEnd)
  }

  lemma {:induction false} FoundAtIsFound(g: Geometry, m: seq<byte>, lba: nat)
    requires g.Valid() && |m| == g.Size() && lba < g.blocks && ImageAt(g, m, lba)
    ensures FoundAt(g, m, lba).hw.blockEnd == lba && Found(g, m, FoundAt(g, m, lba))
  {
  }

  /** Records of recognised tails of blocks `lba` on, each once, in ascending order. */
  ghost predicate Ascending(g: Geometry, m: seq<byte>, lba: nat, fs: seq<File>)
    requires g.Valid() && |m| == g.Size()
  {
    && (forall f :: f in fs ==> Found(g, m, f) && lba <= f.hw.blockEnd)
    && (forall x, y :: 0 <= x < y < |fs| ==> fs[x].hw.blockEnd < fs[y].hw.blockEnd)
  }

  lemma {:induction false} AscendingCons(g: Geometry, m: seq<byte>, f: File, fs: seq<File>)
    requires g.Valid() && |m| == g.Size()
    requires Found(g, m, f) && Ascending(g, m, f.hw.blockEnd + 1, fs)
    ensures Ascending(g, m, f.hw.blockEnd, [f] + fs)
  {
    hide Found;
  }

  /** The scan lists recognised tails only, each once, in ascending order. */
  lemma {:induction false} ScanIsSound(g: Geometry, m: seq<byte>, lba: nat)
    requires g.Valid() && |m| == g.Size() && lba <= g.blocks
    ensures Ascending(g, m, lba, Scan(g, m, lba))
    decreases g.blocks - lba
  {
    hide Found, ImageAt, FoundAt;
    if lba < g.blocks {
      ScanIsSound(g, m, lba + 1);
      if ImageAt(g, m, lba) {
        FoundAtIsFound(g, m, lba);
        AscendingCons(g, m, FoundAt(g, m, lba), Scan(g, m, lba + 1));
      }
    }
  }

  /** The scan misses no recognised tail. */
  lemma {:induction false} ScanIsComplete(g: Geometry, m: seq<byte>, lba: nat, b: nat)
    requires g.Valid() && |m| == g.Size() && lba <= b < g.blocks && ImageAt(g, m, b)
    ensures FoundAt(g, m, b) in Scan(g, m, lba)
    decreases g.blocks - lba
  {
    hide Candidate, ImageAt, TailOf, WithChecksum;
    if lba < b {
      ScanIsComplete(g, m, lba + 1, b);
    }
  }

  // ---------- Remounting ----------

  /** The records a remount should rebuild: the files on disk from index `k` on, closed. */
  function OnDiskView(files: seq<File>, k: nat): seq<File>
    requires k <= |files|
    decreases |files| - k
  {
    if k == |files| then []
    else if files[k].OnDisk() then [MountedFile(files[k].hw, files[k].hwAddress)] + OnDiskView(files, k + 1)
    else OnDiskView(files, k + 1)
  }

  /** The only recognised tails are the last blocks of files on disk. */
  ghost predicate CleanTails(s: State)
    requires s.geometry.Valid() && |s.media| == s.geometry.Size()
  {
    forall lba :: 0 <= lba < s.geometry.blocks && ImageAt(s.geometry, s.media, lba) ==>
      exists i :: 0 <= i < |s.files| && s.files[i].OnDisk() && s.files[i].hw.blockEnd == lba
  }

  lemma {:induction false} DecodesAs(s: seq<byte>, d: Description)
    requires s == Encode(d)
    ensures Decode(s) == d
  {
    CodecInverse(d, s);
  }

  lemma {:induction false} OnFlashIsImage(g: Geometry, m: seq<byte>, f: File)
    requires g.Valid() && |m| == g.Size() && RecordOk(g, f) && OnFlash(m, f)
    ensures ImageAt(g, m, f.hw.blockEnd)
    ensures FoundAt(g, m, f.hw.blockEnd) == MountedFile(f.hw, f.hwAddress)
  {
    hide Encode, Decode, WithChecksum;
    DecodesAs(m[f.hwAddress..f.hwAddress + DESCRIPTION_SIZE], f.hw);
  }

  lemma {:induction false} NoneOnDisk(files: seq<File>, k: nat)
    requires k <= |files| && forall i :: k <= i < |files| ==> !files[i].OnDisk()
    ensures OnDiskView(files, k) == []
    decreases |files| - k
  {
    if k < |files| {
      NoneOnDisk(files, k + 1);
    }
  }

  /** Entries before index `k` end before block `lba`, the others do not. */
  ghost predicate SplitAt(files: seq<File>, lba: nat, k: nat)
  {
    && k <= |files|
    && (forall i :: 0 <= i < k && files[i].OnDisk() ==> files[i].hw.blockEnd < lba)
    && (forall i :: k <= i < |files| && files[i].OnDisk() ==> lba <= files[i].hw.blockEnd)
  }

  lemma {:induction false} SplitBetween(s: State, lba: nat, k: nat)
    requires s.geometry.Valid() && |s.media| == s.geometry.Size()
    requires Allocated(s.geometry, s.files) && CleanTails(s) && SplitAt(s.files, lba, k) && lba < s.geometry.blocks
    requires k == |s.files| || (s.files[k].OnDisk() && s.files[k].hw.blockEnd != lba)
    ensures SplitAt(s.files, lba + 1, k) && !ImageAt(s.geometry, s.media, lba)
  {
  }

  lemma {:induction false} SplitBehind(s: State, lba: nat, k: nat)
    requires Allocated(s.geometry, s.files) && SplitAt(s.files, lba, k)
    requires k < |s.files| && s.files[k].OnDisk() && s.files[k].hw.blockEnd == lba
    ensures SplitAt(s.files, lba + 1, k + 1)
  {
    assert RecordOk(s.geometry, s.files[k]);
    forall i | k < i < |s.files| && s.files[i].OnDisk()
      ensures lba + 1 <= s.files[i].hw.blockEnd
    {
      assert RecordOk(s.geometry, s.files[i]);
    }
  }

  /** The scan from block `lba` rebuilds the list from index `k`, when the list is split there. */
  lemma {:induction false} ScanRebuilds(s: State, lba: nat, k: nat)
    requires s.geometry.Valid() && |s.media| == s.geometry.Size()
    requires Allocated(s.geometry, s.files) && FlashMatches(s) && CleanTails(s)
    requires lba <= s.geometry.blocks && SplitAt(s.files, lba, k)
    ensures Scan(s.geometry, s.media, lba) == OnDiskView(s.files, k)
    decreases s.geometry.blocks - lba, |s.files| - k
  {
    hide Candidate, ImageAt, TailOf, WithChecksum, Encode, OnFlash, FoundAt;
    if lba == s.geometry.blocks {
      NoneOnDisk(s.files, k);
    } else if k < |s.files| && !s.files[k].OnDisk() {
      ScanRebuilds(s, lba, k + 1);
    } else if k < |s.files| && s.files[k].hw.blockEnd == lba {
      OnFlashIsImage(s.geometry, s.media, s.files[k]);
      SplitBehind(s, lba, k);
      ScanRebuilds(s, lba + 1, k + 1);
    } else {
      SplitBetween(s, lba, k);
      ScanRebuilds(s, lba + 1, k);
    }
  }

  lemma {:induction false} ViewMembers(files: seq<File>, k: nat, f: File)
    requires k <= |files| && f in OnDiskView(files, k)
    ensures exists i :: k <= i < |files| && files[i].OnDisk() && files[i].hw == f.hw
    decreases |files| - k
  {
    if !(files[k].OnDisk() && f == MountedFile(files[k].hw, files[k].hwAddress)) {
      ViewMembers(files, k + 1, f);
    }
  }

  /**
   Remount round trip: with the layout intact and flash in agreement, mounting
   rebuilds exactly the files on disk - descriptions, names, ranges, sizes, order -
   if and only if no other block ends in a recognised description.
   */
  lemma {:induction false} RemountExactly(s: State)
    requires s.geometry.Valid() && |s.media| == s.geometry.Size()
    requires Allocated(s.geometry, s.files) && FlashMatches(s)
    ensures Scan(s.geometry, s.media, 0) == OnDiskView(s.files, 0) <==> CleanTails(s)
  {
    if CleanTails(s) {
      ScanRebuilds(s, 0, 0);
    }
    if Scan(s.geometry, s.media, 0) == OnDiskView(s.files, 0) {
      forall lba | 0 <= lba < s.geometry.blocks && ImageAt(s.geometry, s.media, lba)
        ensures exists i :: 0 <= i < |s.files| && s.files[i].OnDisk() && s.files[i].hw.blockEnd == lba
      {
        ScanIsComplete(s.geometry, s.media, 0, lba);
        FoundAtIsFound(s.geometry, s.media, lba);
        ViewMembers(s.files, 0, FoundAt(s.geometry, s.media, lba));
      }
    }
  }

  lemma {:induction false} SameTailOnFlash(m: seq<byte>, m': seq<byte>, f: File)
    requires OnFlash(m, f) && |m'| == |m|
    requires forall a :: f.hwAddress <= a < f.hwAddress + DESCRIPTION_SIZE ==> m'[a] == m[a]
    ensures OnFlash(m', f)
  {
    assert m'[f.hwAddress..f.hwAddress + DESCRIPTION_SIZE] == m[f.hwAddress..f.hwAddress + DESCRIPTION_SIZE];
  }
}
