/**
 What it takes for a flush to have room: the condition of BootMonAllocation spelled
 out for new and for existing files, the cases in which the code's own checks are
 enough, and small volumes on which they are not.
 */
module BootMonRoom {
  import opened Bytes
  import opened Options
  import opened ByteStore
  import opened BootMonImage
  import opened BootMonVolume
  import opened BootMonAllocation
  import opened BootMonFlush
  import opened BootMonMount

  /** The data and its description fill their last block to the byte, so one block too many is assigned. */
  predicate FillsBlocks(g: Geometry, dataSize: nat)
    requires g.blockSize > 0
  {
    (dataSize + DESCRIPTION_SIZE) % g.blockSize == 0
  }

  lemma {:induction false} DifferenceTimes(a: int, b: int, c: int)
    ensures (a - b) * c == a * c - b * c
  {
  }

  /** Between block boundaries `b` and `e`, data that fits also fits rounded up, unless it fills the gap exactly. */
  lemma {:induction false} RoundedFits(g: Geometry, b: nat, e: nat, dataSize: nat)
    requires g.Valid()
    requires b * g.blockSize + dataSize + DESCRIPTION_SIZE <= e * g.blockSize
    ensures b + g.BlocksFor(dataSize) <= e <==> b * g.blockSize + dataSize + DESCRIPTION_SIZE < e * g.blockSize
    ensures !FillsBlocks(g, dataSize) ==> b + g.BlocksFor(dataSize) <= e
  {
    var n := g.BlocksFor(dataSize);
    BlocksForBounds(g, dataSize);
    SumTimes(b, n, g.blockSize);
    SumTimes(b, n - 1, g.blockSize);
    if b + n <= e {
      MulMonotone(b + n, e, g.blockSize);
    }
    if b * g.blockSize + dataSize + DESCRIPTION_SIZE < e * g.blockSize {
      MulStrict(b + n - 1, e, g.blockSize);
    } else {
      DifferenceTimes(e, b, g.blockSize);
      DivisionUnique(dataSize + DESCRIPTION_SIZE, e - b, 0, g.blockSize);
    }
  }

  // ---------- New files ----------

  /** Some file on disk is listed behind entry `i`. */
  ghost predicate OnDiskBehind(files: seq<File>, i: nat)
  {
    exists j :: i < j < |files| && files[j].OnDisk()
  }

  ghost predicate HasRoomAt(g: Geometry, files: seq<File>, i: nat, p: Placement, need: nat)
  {
    match p
    case Before(k, start) => k < |files| && start + need < files[k].hw.blockStart * g.blockSize
    case AtEnd(start) => start + need < g.Size() && !OnDiskBehind(files, i)
    case NoSpace => true
  }

  /**
   A new file that found a gap between files has room unless it fills the gap to the
   byte; one put behind the last file on disk also needs that no file on disk is
   listed behind it.
   */
  lemma {:induction false} RoomForNewFile(g: Geometry, files: seq<File>, i: nat)
    requires g.Valid() && Allocated(g, files) && i < |files| && files[i].info.Some? && !files[i].OnDisk()
    ensures var need := files[i].info.value.size + DESCRIPTION_SIZE;
            RoomFor(g, files, i, files[i].info.value.size) <==> HasRoomAt(g, files, i, FindFrom(g, files, 0, 0, need), need)
  {
    var need := files[i].info.value.size + DESCRIPTION_SIZE;
    FindSpaceIsFirstFit(g, files, need);
    PlaceRooted(g, files, i);
    match FindFrom(g, files, 0, 0, need)
    case Before(k, start) => RoomBefore(g, files, i, k, start, start / g.blockSize);
    case AtEnd(start) => RoomAtEnd(g, files, i, start, start / g.blockSize);
    case NoSpace =>
  }

  lemma {:induction false} EndsBefore(g: Geometry, f: File, b: nat)
    requires g.Valid() && (f.hw.blockEnd + 1) * g.blockSize <= b * g.blockSize
    ensures f.hw.blockEnd < b
  {
    SumTimes(f.hw.blockEnd, 1, g.blockSize);
    MulStrict(f.hw.blockEnd, b, g.blockSize);
  }

  lemma {:induction false} RoomBefore(g: Geometry, files: seq<File>, i: nat, k: nat, start: nat, b: nat)
    requires g.Valid() && Allocated(g, files) && i < |files| && files[i].info.Some? && !files[i].OnDisk()
    requires FindFrom(g, files, 0, 0, files[i].info.value.size + DESCRIPTION_SIZE) == Before(k, start)
    requires FirstFit(g, files, Before(k, start), files[i].info.value.size + DESCRIPTION_SIZE)
    requires start / g.blockSize == b && start == b * g.blockSize
    ensures RoomFor(g, files, i, files[i].info.value.size) <==>
              start + files[i].info.value.size + DESCRIPTION_SIZE < files[k].hw.blockStart * g.blockSize
  {
    hide FindFrom, Allocated, Slot, RoomFor, Relink;
    var n, fs, j := files[i].info.value.size, Relink(files, i, k), RelinkedIndex(i, k);
    PlacedBefore(g, files, i, k, start, n);
    EarlierEnd(g, files, i, k, start, n + DESCRIPTION_SIZE, b);
    RelinkIsOrigin(files, i, k, j + 1);
    RelinkKeepsLayout(g, files, i, k);
    SlotBefore(g, fs, j, b, g.BlocksFor(n));
    RoundedFits(g, b, files[k].hw.blockStart, n);
  }

  lemma {:induction false} PlacedBefore(g: Geometry, files: seq<File>, i: nat, k: nat, start: nat, size: nat)
    requires g.Valid() && i < |files| && files[i].info.Some? && !files[i].OnDisk()
    requires FindFrom(g, files, 0, 0, files[i].info.value.size + DESCRIPTION_SIZE) == Before(k, start)
    ensures i != k && k < |files|
    ensures RoomFor(g, files, i, size) ==
            Slot(g, Relink(files, i, k), RelinkedIndex(i, k), start / g.blockSize, g.BlocksFor(size))
  {
    hide Slot;
  }

  /** The files on disk listed before the place found end below it. */
  lemma {:induction false} EarlierEnd(g: Geometry, files: seq<File>, i: nat, k: nat, start: nat, need: nat, b: nat)
    requires g.Valid() && i < |files| && i != k
    requires FirstFit(g, files, Before(k, start), need)
    requires start / g.blockSize == b && start == b * g.blockSize
    ensures var fs := Relink(files, i, k);
            forall x :: 0 <= x < RelinkedIndex(i, k) && fs[x].OnDisk() ==> fs[x].hw.blockEnd < b
  {
    var fs := Relink(files, i, k);
    forall x | 0 <= x < RelinkedIndex(i, k) && fs[x].OnDisk()
      ensures fs[x].hw.blockEnd < b
    {
      RelinkedBefore(files, i, k, x);
      EndsBefore(g, fs[x], b);
    }
  }

  lemma {:induction false} RelinkedBefore(files: seq<File>, i: nat, k: nat, x: nat)
    requires i < |files| && k < |files| && i != k && x < RelinkedIndex(i, k)
    ensures exists y :: 0 <= y < k && Relink(files, i, k)[x] == files[y]
  {
    RelinkIsOrigin(files, i, k, x);
  }

  /** A slot in front of a file on disk only has to end where that file starts. */
  lemma {:induction false} SlotBefore(g: Geometry, files: seq<File>, i: nat, b: nat, n: nat)
    requires Allocated(g, files) && i + 1 < |files| && files[i + 1].OnDisk()
    requires forall x :: 0 <= x < i && files[x].OnDisk() ==> files[x].hw.blockEnd < b
    ensures Slot(g, files, i, b, n) <==> b + n <= files[i + 1].hw.blockStart
  {
  }

  lemma {:induction false} RoomAtEnd(g: Geometry, files: seq<File>, i: nat, start: nat, b: nat)
    requires g.Valid() && Allocated(g, files) && i < |files| && files[i].info.Some? && !files[i].OnDisk()
    requires FindFrom(g, files, 0, 0, files[i].info.value.size + DESCRIPTION_SIZE) == AtEnd(start)
    requires FirstFit(g, files, AtEnd(start), files[i].info.value.size + DESCRIPTION_SIZE)
    requires start / g.blockSize == b && start == b * g.blockSize
    ensures RoomFor(g, files, i, files[i].info.value.size) <==>
              start + files[i].info.value.size + DESCRIPTION_SIZE < g.Size() && !OnDiskBehind(files, i)
  {
    var n := files[i].info.value.size;
    RoundedFits(g, b, g.blocks, n);
    BlocksForBounds(g, n);
    forall x | 0 <= x < |files| && files[x].OnDisk()
      ensures files[x].hw.blockEnd < b
    {
      EndsBefore(g, files[x], b);
    }
  }

  // ---------- Existing files ----------

  /** An existing file has room if its rounded extent ends before the next file on disk, and inside the media. */
  lemma {:induction false} RoomForOldFile(g: Geometry, files: seq<File>, i: nat, size: nat)
    requires g.Valid() && Allocated(g, files) && i < |files| && files[i].info.Some? && files[i].OnDisk()
    ensures var e := files[i].hw.blockStart + g.BlocksFor(size);
            RoomFor(g, files, i, size) <==>
              e <= g.blocks && forall j :: i < j < |files| && files[j].OnDisk() ==> e <= files[j].hw.blockStart
  {
    PlaceStart(g, files, i);
  }

  // ---------- When the code's own checks are enough ----------

  /** Block `e` is where the code thinks file `i` has to stop growing. */
  predicate Bounded(c: Context, b: nat, e: nat)
  {
    c.geometry.Valid() && b < e <= c.geometry.blocks && c.start == b * c.geometry.blockSize && c.limit == e * c.geometry.blockSize
  }

  lemma {:induction false} SpaceBounds(c: Context, hw: Description, b: nat, e: nat, dataSize: nat)
    requires Bounded(c, b, e) && HasSpace(c, hw, dataSize)
    requires PhysicalSize(c.geometry, hw) <= (e - b) * c.geometry.blockSize
    requires !FillsBlocks(c.geometry, dataSize)
    ensures b + c.geometry.BlocksFor(dataSize) <= e
  {
    var g := c.geometry;
    DifferenceTimes(e, b, g.blockSize);
    MulMonotone(e, g.blocks, g.blockSize);
    MulMonotone(b, e, g.blockSize);
    RoundedFits(g, b, e, dataSize);
  }

  lemma {:induction false} PhysicalSizeIs(g: Geometry, hw: Description, n: nat)
    requires hw.regionCount != 0 && hw.blockEnd - hw.blockStart + 1 == n && 1 <= n < TWO_TO_THE_32
    ensures PhysicalSize(g, hw) == ToWord(n * g.blockSize) <= n * g.blockSize
  {
    hide ToWord;
    WordIsItself(n - 1);
    WordIsItself(n);
    WordAtMost(n * g.blockSize);
  }

  lemma {:induction false} WordAtMost(n: nat)
    ensures ToWord(n) <= n
  {
  }

  /** The physical size of a file on disk is that of its blocks, unless it fills media of 4 GiB: then it is zero. */
  lemma {:induction false} PhysicalSizeExactly(g: Geometry, f: File)
    requires g.Valid() && f.OnDisk() && RecordOk(g, f)
    ensures PhysicalSize(g, f.hw) == (f.hw.blockEnd - f.hw.blockStart + 1) * g.blockSize
            <==> f.hw.blockEnd - f.hw.blockStart + 1 < g.blocks || g.Size() < TWO_TO_THE_32
  {
    hide PhysicalSize, ToWord;
    var n := f.hw.blockEnd - f.hw.blockStart + 1;
    BlockInside(g, f.hw.blockEnd);
    PhysicalSizeIs(g, f.hw, n);
    MulMonotone(n, g.blocks, g.blockSize);
    WordIsItself(n * g.blockSize);
    if n < g.blocks {
      MulMonotone(n + 1, g.blocks, g.blockSize);
      SumTimes(n, 1, g.blockSize);
    }
  }

  lemma {:induction false} WordIsItself(n: nat)
    ensures ToWord(n) == n <==> n < TWO_TO_THE_32
  {
  }

  lemma {:induction false} DescribedPhysicalSize(g: Geometry, hw: Description, hwAddress: nat, b: nat, e: nat)
    requires g.Valid() && Described(g, hw, hwAddress, b) && b + g.BlocksFor(hw.regions[0].size) <= e <= g.blocks
    ensures PhysicalSize(g, hw) <= (e - b) * g.blockSize
  {
    var n := g.BlocksFor(hw.regions[0].size);
    BlocksForBounds(g, hw.regions[0].size);
    BlockInside(g, b + n - 1);
    PhysicalSizeIs(g, hw, n);
    MulMonotone(n, e - b, g.blockSize);
  }

  lemma {:induction false} AppendsBounded(c: Context, f: File, b: nat, e: nat, reach: nat, rs: seq<Region>)
    requires Rooted(c, b, reach) && Bounded(c, b, e)
    requires forall r :: r in rs ==> r.End() <= reach
    requires forall r :: r in rs && Appends(r, c.oldSize) ==> !FillsBlocks(c.geometry, r.End())
    requires PhysicalSize(c.geometry, f.hw) <= (e - b) * c.geometry.blockSize
    ensures var p := PlanRegions(c, StartPlan(f), rs);
            p.status == Success ==>
              && PhysicalSize(c.geometry, p.hw) <= (e - b) * c.geometry.blockSize
              && forall r :: r in rs && Appends(r, c.oldSize) ==> b + c.geometry.BlocksFor(r.End()) <= e
  {
    hide PhysicalSize, Described;
    if rs != [] {
      var n := |rs| - 1;
      var p, r := PlanRegions(c, StartPlan(f), rs[..n]), rs[n];
      AppendsBounded(c, f, b, e, reach, rs[..n]);
      assert forall x :: x in rs <==> x in rs[..n] || x == r;
      if p.status == Success && Appends(r, c.oldSize) && HasSpace(c, p.hw, r.End()) {
        SpaceBounds(c, p.hw, b, e, r.End());
        var q := PlanDescription(c, AppendBase(c, p, r), r.End());
        PlanDescriptionDescribes(c, AppendBase(c, p, r), b, r.End());
        DescribedPhysicalSize(c.geometry, q.hw, q.hwAddress, b, e);
      }
    }
  }

  /** The list neighbour of file `i` is the next file on disk, or there is none. */
  predicate NeighbourOnDisk(files: seq<File>, i: nat)
    requires i < |files|
  {
    i + 1 == |files| || files[i + 1].OnDisk()
  }

  /** The size is the end of a region that is appended, or not larger than before. */
  ghost predicate SizeCovered(f: File)
    requires f.info.Some?
  {
    f.info.value.size <= f.DataSize() || exists r :: r in f.regions && Appends(r, f.DataSize()) && r.End() == f.info.value.size
  }

  function LimitBlock(g: Geometry, files: seq<File>, i: nat): nat
    requires i < |files|
  {
    if i + 1 < |files| then files[i + 1].hw.blockStart else g.blocks
  }

  lemma {:induction false} RecordPhysicalSize(g: Geometry, f: File, e: nat)
    requires g.Valid() && f.OnDisk() && RecordOk(g, f) && f.hw.blockEnd < e <= g.blocks
    ensures PhysicalSize(g, f.hw) <= (e - f.hw.blockStart) * g.blockSize
    ensures f.DataSize() + DESCRIPTION_SIZE <= (e - f.hw.blockStart) * g.blockSize
  {
    var n := f.hw.blockEnd - f.hw.blockStart + 1;
    BlockInside(g, f.hw.blockEnd);
    PhysicalSizeIs(g, f.hw, n);
    MulMonotone(n, e - f.hw.blockStart, g.blockSize);
  }

  /**
   The code's own space checks are enough for an existing file whose list neighbour
   is on disk, whose size some region accounts for, and none of whose sizes fills a
   whole number of blocks.
   */
  lemma {:induction false} OwnChecksSuffice(g: Geometry, files: seq<File>, i: nat)
    requires g.Valid() && Allocated(g, files) && i < |files| && files[i].OnDisk()
    requires files[i].info.Some? && IsName(files[i].info.value.name)
    requires RegionsWithin(files[i]) && files[i].info.value.size + DESCRIPTION_SIZE < TWO_TO_THE_32
    requires NeighbourOnDisk(files, i) && SizeCovered(files[i])
    requires !FillsBlocks(g, files[i].info.value.size)
    requires forall r :: r in files[i].regions && Appends(r, files[i].DataSize()) ==> !FillsBlocks(g, r.End())
    requires FlushPlan(ContextFor(g, files, i, files[i].hw.blockStart * g.blockSize), files[i]).status == Success
    ensures RoomFor(g, files, i, files[i].info.value.size)
  {
    hide FlushPlan, RegionsPlan, PlanRegions, FillsBlocks;
    var f := files[i];
    var b, e, c := f.hw.blockStart, LimitBlock(g, files, i), ContextFor(g, files, i, f.hw.blockStart * g.blockSize);
    var n := f.info.value.size;
    RecordPhysicalSize(g, f, e);
    FlushSuccessHasRegions(c, f);
    AppendsBounded(c, f, b, e, n, f.regions);
    if n <= f.DataSize() {
      DifferenceTimes(e, b, g.blockSize);
      RoundedFits(g, b, e, n);
    }
    RoomForOldFile(g, files, i, n);
  }

  lemma {:induction false} FlushSuccessHasRegions(c: Context, f: File)
    requires c.geometry.blockSize > 0 && IsName(c.name) && f.info.Some?
    ensures FlushPlan(c, f).status == Success ==> PlanRegions(c, StartPlan(f), f.regions).status == Success
  {
  }

  // ---------- Where they are not ----------

  /** Data that fills the gap to the next file to the byte passes the check, yet its rounded extent runs into that file. */
  lemma {:induction false} ExactFillOverruns(g: Geometry, files: seq<File>, i: nat, dataSize: nat)
    requires g.Valid() && Allocated(g, files) && i + 1 < |files| && files[i].OnDisk() && files[i + 1].OnDisk()
    requires files[i].info.Some?
    requires files[i].hw.blockStart * g.blockSize + dataSize + DESCRIPTION_SIZE == files[i + 1].hw.blockStart * g.blockSize
    ensures HasSpace(ContextFor(g, files, i, files[i].hw.blockStart * g.blockSize), files[i].hw, dataSize)
    ensures !RoomFor(g, files, i, dataSize)
  {
    BlockInside(g, files[i + 1].hw.blockStart);
    RoundedFits(g, files[i].hw.blockStart, files[i + 1].hw.blockStart, dataSize);
    RoomForOldFile(g, files, i, dataSize);
  }

  /** Next to a list neighbour that was never flushed, a file off block 0 may grow without limit, one at block 0 not at all. */
  lemma {:induction false} UnflushedNeighbour(g: Geometry, files: seq<File>, i: nat, dataSize: nat)
    requires g.Valid() && Allocated(g, files) && i + 1 < |files| && files[i].OnDisk() && !files[i + 1].OnDisk()
    requires files[i].info.Some?
    requires PhysicalSize(g, files[i].hw) < dataSize + DESCRIPTION_SIZE <= TWO_TO_THE_32
    ensures HasSpace(ContextFor(g, files, i, files[i].hw.blockStart * g.blockSize), files[i].hw, dataSize)
            <==> files[i].hw.blockStart > 0
  {
    hide PhysicalSize;
    var b := files[i].hw.blockStart;
    BlockInside(g, b);
    assert GrowLimit(g, files, i) == 0;
    if b > 0 {
      MulMonotone(1, b, g.blockSize);
    }
    BelowZero(b * g.blockSize);
  }

  lemma {:induction false} BelowZero(start: nat)
    requires start <= TWO_TO_THE_32
    ensures Sub64(0, start) == if start == 0 then 0 else TWO_TO_THE_64 - start
  {
  }

  /** A file whose only buffered write is an empty one, past the data it has. */
  predicate EmptyWriteAt(f: File, size: nat)
  {
    f.info.Some? && f.info.value.size == size && f.regions == [Region(size, [])]
  }

  /** Whatever the size, such a flush checks no space. */
  lemma {:induction false} EmptyWriteUnchecked(c: Context, f: File, size: nat)
    requires c.geometry.blockSize > 0 && IsName(c.name) && EmptyWriteAt(f, size)
    ensures RegionsPlan(c, f) == StartPlan(f) && FlushPlan(c, f).status == Success
  {
    hide Describe, Encode, TailAddress;
    var r := Region(size, []);
    assert [r][..0] == [];
    assert PlanRegion(c, StartPlan(f), r) == StartPlan(f);
    assert PlanRegions(c, StartPlan(f), [r]) == PlanRegion(c, PlanRegions(c, StartPlan(f), []), r);
  }

  /** With a size that reaches the next file on disk it breaks the layout, and reports success. */
  lemma {:induction false} EmptyWriteOverlaps(s: State, i: nat, s': State, j: nat, done: nat, size: nat)
    requires Flushable(s, i) && Allocated(s.geometry, s.files) && FlushStep(s, i, Success, s', j, done)
    requires EmptyWriteAt(s.files[i], size) && size + DESCRIPTION_SIZE < TWO_TO_THE_32
    requires s.files[i].OnDisk() && i + 1 < |s.files| && s.files[i + 1].OnDisk()
    requires s.files[i].DataSize() < size
    requires (s.files[i + 1].hw.blockStart - s.files[i].hw.blockStart) * s.geometry.blockSize <= size + DESCRIPTION_SIZE
    ensures !RoomFor(s.geometry, s.files, i, size) && !Allocated(s'.geometry, s'.files)
  {
    hide FlushStep, Allocated, RoomFor;
    var g, b, e := s.geometry, s.files[i].hw.blockStart, s.files[i + 1].hw.blockStart;
    RoomForOldFile(g, s.files, i, size);
    DifferenceTimes(e, b, g.blockSize);
    FlushKeepsLayoutExactly(s, i, s', j, done);
  }

  /**
   A second new file flushed to the end of the media stays at the head of the list;
   the next new file is then placed on top of the file at block 0.
   */
  lemma {:induction false} HeadInsertionOverlaps(g: Geometry, files: seq<File>, f': File, next: File, need: nat)
    requires g.Valid() && Allocated(g, files) && |files| > 1 && !files[0].OnDisk()
    requires files[1].OnDisk() && files[1].hw.blockStart == 0
    requires f'.OnDisk() && f'.hw.blockStart > 0 && !next.OnDisk()
    requires 0 < need <= f'.hw.blockStart * g.blockSize <= g.Size()
    ensures var list := [next] + files[0 := f'];
            FindFrom(g, list, 0, 0, need) == Before(1, 0) && !IsFree(g, list, 0, need)
  {
    var list := [next] + files[0 := f'];
    assert list[0] == next && list[1] == f' && list[2] == files[1];
    assert FindFrom(g, list, 0, 0, need) == FindFrom(g, list, 1, 0, need);
    BlockInside(g, files[1].hw.blockEnd);
  }
}
