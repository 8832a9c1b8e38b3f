/**
 The flush with its space checks repaired - a NOT-AS-WRITTEN variant of the code. Four
 repairs: the space looked for is that of the whole buffer in whole blocks; a file put
 behind the last one is linked there; an existing file grows up to the next file that
 is on disk; the check comes before any write. With them every run keeps the layout.
 */
module BootMonRepair {
  import opened Bytes
  import opened Options
  import opened ByteStore
  import opened BootMonImage
  import opened BootMonVolume
  import opened BootMonAllocation
  import opened BootMonRoom
  import opened BootMonMount
  import opened BootMonBuffer
  import opened BootMonOperations
  import opened BootMonRuns

  /** The first block of the next file on disk behind entry `k`, or the end of the media. */
  function NextBlock(g: Geometry, files: seq<File>, k: nat): nat
    requires k < |files|
    decreases |files| - k
  {
    if k + 1 == |files| then g.blocks
    else if files[k + 1].OnDisk() then files[k + 1].hw.blockStart
    else NextBlock(g, files, k + 1)
  }

  lemma {:induction false} NextBlockBounds(g: Geometry, files: seq<File>, k: nat, j: nat)
    requires Allocated(g, files) && k < j < |files| && files[j].OnDisk()
    ensures NextBlock(g, files, k) <= files[j].hw.blockStart
    decreases j - k
  {
    if files[k + 1].OnDisk() {
      assert RecordOk(g, files[k + 1]);
    } else {
      NextBlockBounds(g, files, k + 1, j);
    }
  }

  lemma {:induction false} NextBlockInside(g: Geometry, files: seq<File>, k: nat)
    requires Allocated(g, files) && k < |files|
    ensures NextBlock(g, files, k) <= g.blocks
    decreases |files| - k
  {
    if k + 1 < |files| {
      if files[k + 1].OnDisk() {
        assert RecordOk(g, files[k + 1]);
      } else {
        NextBlockInside(g, files, k + 1);
      }
    }
  }

  /** Unlinking entry `i` and linking it at the tail. */
  function RelinkAtTail<T>(s: seq<T>, i: nat): (r: seq<T>)
    requires i < |s|
    ensures |r| == |s|
  {
    Removed(s, i) + [s[i]]
  }

  /** The blocks the file needs for everything in its buffer. */
  function Extent(g: Geometry, f: File): nat
    requires g.blockSize > 0 && f.info.Some?
  {
    g.BlocksFor(Reach(f.info.value.size, f.regions))
  }

  function RepairedPlace(g: Geometry, files: seq<File>, i: nat): (p: Placed)
    requires g.Valid() && i < |files| && files[i].info.Some?
    ensures p.Placed? ==> |p.files| == |files| && p.index < |files| && p.files[p.index] == files[i]
  {
    var n := Extent(g, files[i]);
    BlocksForBounds(g, Reach(files[i].info.value.size, files[i].regions));
    if files[i].OnDisk() then
      if files[i].hw.blockStart + n <= NextBlock(g, files, i) then Placed(files, i, files[i].hw.blockStart * g.blockSize) else Unplaced
    else
      match FindFrom(g, files, 0, 0, n * g.blockSize)
      case Before(k, start) => Placed(Relink(files, i, k), RelinkedIndex(i, k), start)
      case AtEnd(start) => Placed(RelinkAtTail(files, i), |files| - 1, start)
      case NoSpace => Unplaced
  }

  lemma {:induction false} MulCancel(a: int, b: int, c: nat)
    requires c > 0 && a * c <= b * c
    ensures a <= b
  {
    if b < a {
      MulMonotone(b + 1, a, c);
      SumTimes(b, 1, c);
    }
  }

  lemma {:induction false} GapInBlocks(g: Geometry, start: nat, n: nat, e: nat)
    requires g.Valid() && start % g.blockSize == 0 && start + n * g.blockSize <= e * g.blockSize
    ensures start / g.blockSize >= 0 && start == start / g.blockSize * g.blockSize
    ensures start / g.blockSize + n <= e
  {
    DivNonNegative(start, g.blockSize);
    var b := start / g.blockSize;
    SumTimes(b, n, g.blockSize);
    MulCancel(b + n, e, g.blockSize);
  }

  lemma {:induction false} TailLayout(g: Geometry, files: seq<File>, i: nat)
    requires Allocated(g, files) && i < |files| && !files[i].OnDisk()
    ensures Allocated(g, RelinkAtTail(files, i))
  {
    var r := RelinkAtTail(files, i);
    assert forall x :: 0 <= x < |r| ==> r[x] == files[if x == |r| - 1 then i else if x < i then x else x + 1];
  }

  lemma {:induction false} RoomInFront(g: Geometry, files: seq<File>, i: nat, k: nat, start: nat, n: nat)
    requires g.Valid() && Allocated(g, files) && i < |files| && !files[i].OnDisk() && i != k
    requires FirstFit(g, files, Before(k, start), n * g.blockSize) && n * g.blockSize >= 0
    ensures var fs, j := Relink(files, i, k), RelinkedIndex(i, k);
            && start / g.blockSize >= 0 && start == start / g.blockSize * g.blockSize
            && Allocated(g, fs) && Slot(g, fs, j, start / g.blockSize, n)
  {
    var fs, j := Relink(files, i, k), RelinkedIndex(i, k);
    GapInBlocks(g, start, n, files[k].hw.blockStart);
    EarlierEnd(g, files, i, k, start, n * g.blockSize, start / g.blockSize);
    RelinkKeepsLayout(g, files, i, k);
    RelinkIsOrigin(files, i, k, j + 1);
    SlotBefore(g, fs, j, start / g.blockSize, n);
  }

  lemma {:induction false} RoomAtTail(g: Geometry, files: seq<File>, i: nat, start: nat, n: nat)
    requires g.Valid() && Allocated(g, files) && i < |files| && !files[i].OnDisk()
    requires FirstFit(g, files, AtEnd(start), n * g.blockSize) && n * g.blockSize >= 0
    ensures var fs := RelinkAtTail(files, i);
            && start / g.blockSize >= 0 && start == start / g.blockSize * g.blockSize
            && Allocated(g, fs) && Slot(g, fs, |fs| - 1, start / g.blockSize, n)
  {
    var fs, b := RelinkAtTail(files, i), start / g.blockSize;
    GapInBlocks(g, start, n, g.blocks);
    TailLayout(g, files, i);
    forall x | 0 <= x < |fs| - 1 && fs[x].OnDisk()
      ensures fs[x].hw.blockEnd < b
    {
      EndsBefore(g, files[if x < i then x else x + 1], b);
    }
  }

  /** Whatever the repaired placement answers has room for the whole buffer. */
  lemma {:induction false} RepairedPlaceHasRoom(g: Geometry, files: seq<File>, i: nat)
    requires g.Valid() && Allocated(g, files) && i < |files| && files[i].info.Some?
    ensures var p, n := RepairedPlace(g, files, i), Extent(g, files[i]);
            p.Placed? ==>
              && p.start / g.blockSize >= 0 && p.start == p.start / g.blockSize * g.blockSize
              && Allocated(g, p.files) && Slot(g, p.files, p.index, p.start / g.blockSize, n)
  {
    hide FindFrom, Allocated, Reach, Relink, RelinkAtTail;
    var n := Extent(g, files[i]);
    BlocksForBounds(g, Reach(files[i].info.value.size, files[i].regions));
    MulMonotone(1, n, g.blockSize);
    if files[i].OnDisk() {
      RoomBehind(g, files, i, n);
    } else {
      FindSpaceIsFirstFit(g, files, n * g.blockSize);
      match FindFrom(g, files, 0, 0, n * g.blockSize)
      case Before(k, start) => RoomInFront(g, files, i, k, start, n);
      case AtEnd(start) => RoomAtTail(g, files, i, start, n);
      case NoSpace =>
    }
  }

  lemma {:induction false} RoomBehind(g: Geometry, files: seq<File>, i: nat, n: nat)
    requires g.Valid() && Allocated(g, files) && i < |files| && files[i].OnDisk()
    ensures var b := files[i].hw.blockStart;
            && b * g.blockSize / g.blockSize == b
            && (b + n <= NextBlock(g, files, i) ==> Slot(g, files, i, b, n))
  {
    DivisionUnique(files[i].hw.blockStart * g.blockSize, files[i].hw.blockStart, 0, g.blockSize);
    NextBlockInside(g, files, i);
    forall j | i < j < |files| && files[j].OnDisk()
      ensures NextBlock(g, files, i) <= files[j].hw.blockStart
    {
      NextBlockBounds(g, files, i, j);
    }
  }

  /** The context of a repaired flush: the file may use the extent it was checked for. */
  function RepairedContext(g: Geometry, f: File, start: nat): Context
    requires g.blockSize > 0 && f.info.Some?
  {
    Context(g, f.info.value.name, start, f.DataSize(), start + Extent(g, f) * g.blockSize)
  }

  /** The outcomes of the repaired flush. */
  ghost predicate RepairedFlushStep(s: State, i: nat, status: Status, s': State, j: nat, done: nat)
    requires Flushable(s, i)
  {
    var f := s.files[i];
    s'.geometry == s.geometry
    && if f.info.None? then status == InvalidParameter && s' == s && j == i
       else if f.mode == ReadOnly then status == AccessDenied && s' == s && j == i
       else
         match RepairedPlace(s.geometry, s.files, i)
         case Unplaced => status == VolumeFull && s' == s && j == i
         case Placed(files, index, start) =>
           var c := RepairedContext(s.geometry, f, start);
           var p := FlushPlan(c, f);
           && j == index
           && Executed(p.actions, done, s.media, s'.media)
           && status == (if done == |p.actions| then p.status else DeviceError)
           && s'.files == files[index := RecordAfter(f, RegionsPlan(c, f), p, done)]
  }

  lemma {:induction false} AllRegionsFit(c: Context, f: File, rs: seq<Region>, reach: nat)
    requires c.geometry.blockSize > 0 && IsName(c.name)
    requires forall r :: r in rs ==> r.End() <= reach
    requires reach + DESCRIPTION_SIZE <= Sub64(c.limit, c.start)
    ensures PlanRegions(c, StartPlan(f), rs).status == Success
  {
    hide Describe, EraseActions, PhysicalSize;
    if rs != [] {
      var n := |rs| - 1;
      assert rs[n] in rs;
      AllRegionsFit(c, f, rs[..n], reach);
    }
  }

  lemma {:induction false} LimitIsExtent(g: Geometry, f: File, start: nat)
    requires g.Valid() && f.info.Some? && start + Extent(g, f) * g.blockSize <= g.Size()
    ensures var c, reach := RepairedContext(g, f, start), Reach(f.info.value.size, f.regions);
            reach + DESCRIPTION_SIZE < TWO_TO_THE_32 && reach + DESCRIPTION_SIZE <= Sub64(c.limit, c.start)
  {
    BlocksForBounds(g, Reach(f.info.value.size, f.regions));
  }

  /** A repaired flush never runs out of space half-way: it is refused before the first write, or succeeds unless the disk fails. */
  lemma {:induction false} FullBeforeWriting(s: State, i: nat, s': State, j: nat, done: nat)
    requires Flushable(s, i) && Allocated(s.geometry, s.files)
    requires RepairedFlushStep(s, i, VolumeFull, s', j, done)
    ensures s' == s
  {
    hide Executed, FlushPlan, RecordAfter, RepairedPlace;
    var g, f := s.geometry, s.files[i];
    if f.info.Some? && f.mode == ReadWrite && RepairedPlace(g, s.files, i).Placed? {
      var p := RepairedPlace(g, s.files, i);
      RepairedRooted(g, s.files, i);
      var reach := Reach(f.info.value.size, f.regions);
      var c := RepairedContext(g, f, p.start);
      AllRegionsFit(c, f, f.regions, reach);
      FinishSucceeds(c, f);
      assert false;
    }
  }

  lemma {:induction false} FinishSucceeds(c: Context, f: File)
    requires c.geometry.blockSize > 0 && IsName(c.name) && f.info.Some? && RegionsPlan(c, f).status == Success
    ensures FlushPlan(c, f).status == Success
  {
  }

  lemma {:induction false} RepairedRooted(g: Geometry, files: seq<File>, i: nat)
    requires g.Valid() && Allocated(g, files) && i < |files| && files[i].info.Some? && IsName(files[i].info.value.name)
    requires RepairedPlace(g, files, i).Placed?
    ensures var p, f := RepairedPlace(g, files, i), files[i];
            var b, reach := p.start / g.blockSize, Reach(f.info.value.size, f.regions);
            && b >= 0 && Rooted(RepairedContext(g, f, p.start), b, reach)
            && reach + DESCRIPTION_SIZE <= Sub64(RepairedContext(g, f, p.start).limit, p.start)
            && Allocated(g, p.files) && Slot(g, p.files, p.index, b, g.BlocksFor(reach))
  {
    hide FindFrom, Allocated, Reach, RepairedPlace;
    var p, f := RepairedPlace(g, files, i), files[i];
    RepairedPlaceHasRoom(g, files, i);
    var b, n := p.start / g.blockSize, Extent(g, f);
    BlocksForBounds(g, Reach(f.info.value.size, f.regions));
    SumTimes(b, n, g.blockSize);
    MulMonotone(b + n, g.blocks, g.blockSize);
    LimitIsExtent(g, f, p.start);
  }

  /** Every outcome of a repaired flush keeps the layout, with no condition on the call. */
  lemma {:induction false} RepairedFlushKeepsLayout(s: State, i: nat, status: Status, s': State, j: nat, done: nat)
    requires Flushable(s, i) && Allocated(s.geometry, s.files)
    requires RepairedFlushStep(s, i, status, s', j, done)
    ensures Allocated(s'.geometry, s'.files)
  {
    hide Executed, RepairedPlace, Allocated, Slot, FlushPlan, RegionsPlan;
    var g, f := s.geometry, s.files[i];
    if f.info.Some? && f.mode == ReadWrite && RepairedPlace(g, s.files, i).Placed? {
      var p := RepairedPlace(g, s.files, i);
      RepairedRooted(g, s.files, i);
      var b, c, reach := p.start / g.blockSize, RepairedContext(g, f, p.start), Reach(f.info.value.size, f.regions);
      FlushPlanTracked(c, f, b);
      ExecutedBound(s, i, status, s', j, done);
      var f' := s'.files[j];
      RecordTracked(c, f, b, reach, done, f');
      if f'.hw == f.hw && f'.hwAddress == f.hwAddress {
        SameRecord(g, p.files, p.index, f');
      } else {
        BlocksForMonotone(g, f'.DataSize(), reach);
        ReplaceRecord(g, p.files, p.index, f', b, g.BlocksFor(reach));
      }
    }
  }

  lemma {:induction false} ExecutedBound(s: State, i: nat, status: Status, s': State, j: nat, done: nat)
    requires Flushable(s, i) && RepairedFlushStep(s, i, status, s', j, done)
    requires s.files[i].info.Some? && s.files[i].mode == ReadWrite && RepairedPlace(s.geometry, s.files, i).Placed?
    ensures var c := RepairedContext(s.geometry, s.files[i], RepairedPlace(s.geometry, s.files, i).start);
            done <= |FlushPlan(c, s.files[i]).actions|
  {
    hide FlushPlan, RegionsPlan, RepairedPlace;
  }

  /** The record the flush leaves is the old one, or was written for a size within reach. */
  lemma {:induction false} RecordTracked(c: Context, f: File, b: nat, reach: nat, done: nat, f': File)
    requires c.geometry.Valid() && IsName(c.name) && f.info.Some?
    requires PlanTracked(c.geometry, f, FlushPlan(c, f), b, reach) && done <= |FlushPlan(c, f).actions|
    requires f' == RecordAfter(f, RegionsPlan(c, f), FlushPlan(c, f), done)
    ensures Tracked(c.geometry, f, f'.hw, f'.hwAddress, b, reach)
  {
    hide FlushPlan, RegionsPlan;
  }

  // ---------- Repaired runs ----------

  /** A call of the repaired driver: flushes, and the flushes inside reads and closes, are repaired ones. */
  ghost predicate RepairedNext(s: State, op: Op, o: Outcome, status: Status, s': State)
    requires Callable(s, op)
  {
    match op
    case Flush(i) => RepairedFlushStep(s, i, status, s', o.index, o.done)
    case Close(i) =>
      if s.files[i].info.None? then status == InvalidParameter && s' == s
      else status == Success && exists t: State :: RepairedFlushStep(s, i, o.flushed, t, o.index, o.done) && ClosedIn(t, o.index, s')
    case ReadFrom(i, n) =>
      if s.files[i].info.None? then status == InvalidParameter && s' == s
      else
        exists t: State, ok: bool, data: seq<byte> ::
          RepairedFlushStep(s, i, o.flushed, t, o.index, o.done) && ReadAfter(t, o.index, n, ok, status, data, s')
    case _ => Next(s, op, o, status, s')
  }

  lemma {:induction false} RepairedFlushStaysSound(s: State, i: nat, status: Status, s': State, j: nat, done: nat)
    requires Sound(s) && Flushable(s, i) && RepairedFlushStep(s, i, status, s', j, done)
    ensures Sound(s')
  {
    RepairedFlushKeepsLayout(s, i, status, s', j, done);
    hide RepairedFlushStep, Allocated;
    RepairedListNames(s, i, status, s', j, done);
  }

  lemma {:induction false} RepairedListNames(s: State, i: nat, status: Status, s': State, j: nat, done: nat)
    requires Flushable(s, i) && NamesFit(s.files) && RepairedFlushStep(s, i, status, s', j, done)
    ensures NamesFit(s'.files) && s'.geometry == s.geometry && |s'.media| == |s.media|
  {
    hide FlushPlan, RegionsPlan, FindFrom, NextBlock, Extent;
    if s.files[i].info.Some? && s.files[i].mode == ReadWrite && RepairedPlace(s.geometry, s.files, i).Placed? {
      var placed := RepairedPlace(s.geometry, s.files, i);
      PlacedNames(s.geometry, s.files, i);
      assert forall x :: 0 <= x < |s'.files| && x != j ==> s'.files[x] == placed.files[x];
      assert s'.files[j].info == s.files[i].info;
    }
  }

  lemma {:induction false} PlacedNames(g: Geometry, files: seq<File>, i: nat)
    requires g.Valid() && i < |files| && files[i].info.Some? && NamesFit(files) && RepairedPlace(g, files, i).Placed?
    ensures NamesFit(RepairedPlace(g, files, i).files)
  {
    hide FindFrom, NextBlock, Extent;
    var p := RepairedPlace(g, files, i);
    forall x | 0 <= x < |p.files| && p.files[x].info.Some?
      ensures IsName(p.files[x].info.value.name)
    {
      FromList(g, files, i, x);
      var y :| 0 <= y < |files| && p.files[x] == files[y];
    }
  }

  lemma {:induction false} FromList(g: Geometry, files: seq<File>, i: nat, x: nat)
    requires g.Valid() && i < |files| && files[i].info.Some? && RepairedPlace(g, files, i).Placed? && x < |files|
    ensures exists y :: 0 <= y < |files| && RepairedPlace(g, files, i).files[x] == files[y]
  {
    hide NextBlock, Reach;
    if !files[i].OnDisk() {
      BlocksForBounds(g, Reach(files[i].info.value.size, files[i].regions));
      match FindFrom(g, files, 0, 0, Extent(g, files[i]) * g.blockSize)
      case Before(k, start) => RelinkIsOrigin(files, i, k, x);
      case AtEnd(start) =>
        assert RelinkAtTail(files, i)[x] == files[if x == |files| - 1 then i else if x < i then x else x + 1];
      case _ =>
    }
  }

  lemma {:induction false} RepairedStepStaysSound(s: State, step: Step, s': State)
    requires Sound(s) && Callable(s, step.op) && (step.op.Mount? ==> TailsDisjoint(s.geometry, s.media))
    requires RepairedNext(s, step.op, step.outcome, step.status, s')
    ensures Sound(s')
  {
    hide Sound, RepairedFlushStep, TailsDisjoint, RoomToFlush;
    var o := step.outcome;
    match step.op
    case Flush(i) => RepairedFlushStaysSound(s, i, step.status, s', o.index, o.done);
    case Close(i) =>
      if s.files[i].info.Some? {
        var t :| RepairedFlushStep(s, i, o.flushed, t, o.index, o.done) && ClosedIn(t, o.index, s');
        RepairedFlushStaysSound(s, i, o.flushed, t, o.index, o.done);
        RecordStaysSound(t, o.index, s'.files[o.index]);
      }
    case ReadFrom(i, n) =>
      if s.files[i].info.Some? {
        var t, ok, data :|
          RepairedFlushStep(s, i, o.flushed, t, o.index, o.done) && ReadAfter(t, o.index, n, ok, step.status, data, s');
        RepairedFlushStaysSound(s, i, o.flushed, t, o.index, o.done);
        SoundName(t, o.index);
        RecordStaysSound(t, o.index, s'.files[o.index]);
      }
    case _ => StepStaysSound(s, step, s');
  }

  lemma {:induction false} SoundName(s: State, i: nat)
    requires Sound(s) && i < |s.files| && s.files[i].info.Some?
    ensures IsName(s.files[i].info.value.name)
  {
  }

  /** A run of the repaired driver. */
  ghost predicate RepairedTaken(trace: seq<State>, steps: seq<Step>, k: nat)
    requires |trace| == |steps| + 1 && k < |steps|
  {
    && Callable(trace[k], steps[k].op)
    && RepairedNext(trace[k], steps[k].op, steps[k].outcome, steps[k].status, trace[k + 1])
    && (steps[k].op.Mount? ==> TailsDisjoint(trace[k].geometry, trace[k].media))
  }

  /**
   With the repairs, every run of calls from a sound state, in any order and with a
   disk that may fail at any write, keeps the layout; only a mount needs a mountable
   medium.
   */
  lemma {:induction false} RepairedRunsStaySound(trace: seq<State>, steps: seq<Step>, k: nat)
    requires |trace| == |steps| + 1 && k < |trace| && Sound(trace[0])
    requires forall x :: 0 <= x < k ==> RepairedTaken(trace, steps, x)
    ensures Sound(trace[k])
  {
    hide Sound, RepairedNext, Callable, TailsDisjoint;
    if k > 0 {
      RepairedRunsStaySound(trace, steps, k - 1);
      assert RepairedTaken(trace, steps, k - 1);
      RepairedStepStaysSound(trace[k - 1], steps[k - 1], trace[k]);
    }
  }
}
