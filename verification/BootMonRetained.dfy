/**
 What a flush retains that does not succeed: whatever its outcome, and whichever write
 the disk fails at, buffer over flash still shows the plain file, so that a later flush
 can finish the work.
 */
module BootMonRetained {
  import opened Bytes
  import opened Options
  import opened ByteStore
  import opened BootMonImage
  import opened BootMonVolume
  import opened BootMonAllocation
  import opened BootMonFlush
  import opened BootMonMount
  import opened BootMonBuffer

  // ---------- Old data that is nowhere in the buffer ----------

  /** No write of the plan covers the address. */
  predicate AllMiss(actions: seq<Action>, a: nat)
  {
    forall x | x in actions :: !x.write.Covers(a)
  }

  lemma {:induction false} MissOne(actions: seq<Action>, x: Action, a: nat)
    requires AllMiss(actions, a) && !x.write.Covers(a)
    ensures AllMiss(actions + [x], a)
  {
  }

  /** Old data is missed by the erasure, the data and the description of an appended region that is not written over it. */
  lemma {:induction false} AppendMisses(c: Context, p: Plan, r: Region, b: nat, k: nat)
    requires Rooted(c, b, r.End()) && AllMiss(p.actions, c.start + k) && !Erases(p.hwAddress, c.start + k)
    requires !RegionCovers(r, k) && !InTail(c.geometry, r.End(), k)
    ensures var q := PlanDescription(c, AppendBase(c, p, r), r.End());
            AllMiss(q.actions, c.start + k) && !Erases(q.hwAddress, c.start + k)
  {
    hide Describe, Encode, AllMiss, InTail;
    var base := AppendBase(c, p, r);
    var q := PlanDescription(c, base, r.End());
    PlanDescriptionDescribes(c, base, b, r.End());
    TailIsAtOffset(c, b, q.hw, r.End());
    var erased := p.actions + EraseActions(p);
    assert AllMiss(erased, c.start + k) by {
      if p.hwAddress != 0 {
        MissOne(p.actions, EraseActions(p)[0], c.start + k);
      } else {
        assert erased == p.actions;
      }
    }
    var data := Action(Write(c.start + r.offset, r.data), p.hw, p.hwAddress);
    MissOne(erased, data, c.start + k);
    var tail := Action(Write(q.hwAddress, Encode(q.hw)), q.hw, q.hwAddress);
    TailMisses(c, q.hwAddress, q.hw, r.End(), k);
    MissOne(base.actions, tail, c.start + k);
  }

  lemma {:induction false} TailMisses(c: Context, at: nat, hw: Description, n: nat, k: nat)
    requires c.geometry.blockSize > 0 && at == c.start + TailOffset(c.geometry, n) && !InTail(c.geometry, n, k)
    ensures !Write(at, Encode(hw)).Covers(c.start + k) && !Erases(at, c.start + k)
  {
  }

  lemma {:induction false} RegionsMiss(c: Context, f: File, b: nat, reach: nat, rs: seq<Region>, k: nat)
    requires Rooted(c, b, reach) && TailClear(c, f) && k < c.oldSize
    requires forall r :: r in rs ==> r.End() <= reach
    requires LastRegion(rs, k) == -1 && !Clobbered(c.geometry, c.oldSize, rs, k)
    ensures var p := PlanRegions(c, StartPlan(f), rs);
            AllMiss(p.actions, c.start + k) && !Erases(p.hwAddress, c.start + k)
  {
    hide InTail, PlanDescription, AppendBase, HasSpace, AllMiss;
    if rs == [] {
      NothingMisses(c.start + k);
    } else {
      var n := |rs| - 1;
      var p, r := PlanRegions(c, StartPlan(f), rs[..n]), rs[n];
      ClobberedExtends(c.geometry, c.oldSize, rs, k);
      RegionsMiss(c, f, b, reach, rs[..n], k);
      if Appends(r, c.oldSize) {
        assert !InTail(c.geometry, r.End(), k);
        AppendMisses(c, p, r, b, k);
      } else {
        MissOne(p.actions, Action(Write(c.start + r.offset, r.data), p.hw, p.hwAddress), c.start + k);
      }
    }
  }

  lemma {:induction false} NothingMisses(a: nat)
    ensures AllMiss([], a)
  {
  }

  lemma {:induction false} FlushMisses(c: Context, f: File, b: nat, k: nat)
    requires f.info.Some? && RegionsWithin(f) && Rooted(c, b, f.info.value.size) && TailClear(c, f)
    requires k < c.oldSize && k < f.info.value.size
    requires LastRegion(f.regions, k) == -1 && !Clobbered(c.geometry, c.oldSize, f.regions, k)
    ensures AllMiss(FlushPlan(c, f).actions, c.start + k)
  {
    hide AllMiss, InTail, Describe, Encode, NameOf, Clobbered;
    var n := f.info.value.size;
    var p := RegionsPlan(c, f);
    RegionsMiss(c, f, b, n, f.regions, k);
    if FlushPlan(c, f) != p {
      var q := PlanDescription(c, p, n);
      PlanDescriptionDescribes(c, p, b, n);
      TailIsAtOffset(c, b, q.hw, n);
      BehindAll(c.geometry, n, k);
      TailMisses(c, q.hwAddress, q.hw, n, k);
      MissOne(p.actions, Action(Write(q.hwAddress, Encode(q.hw)), q.hw, q.hwAddress), c.start + k);
    }
  }

  lemma {:induction false} BehindAll(g: Geometry, n: nat, k: nat)
    requires g.Valid() && k < n
    ensures !InTail(g, n, k)
  {
    TailBehindData(g, n);
  }

  lemma {:induction false} MissedByte(actions: seq<Action>, done: nat, m: seq<byte>, m': seq<byte>, a: nat)
    requires Executed(actions, done, m, m') && AllMiss(actions, a) && a < |m|
    ensures m'[a] == m[a]
  {
    var ws := Writes(actions[..done]);
    forall w | w in ws
      ensures !w.Covers(a)
    {
      var i :| 0 <= i < |ws| && ws[i] == w;
      assert actions[i] in actions;
    }
    Untouched(m, ws, a);
  }

  // ---------- The record meanwhile ----------

  /** The old record, or one for no less than the old data. */
  predicate NoLess(c: Context, f: File, hw: Description, hwAddress: nat, b: nat)
    requires c.geometry.blockSize > 0
  {
    || (hw == f.hw && hwAddress == f.hwAddress)
    || (Described(c.geometry, hw, hwAddress, b) && c.oldSize <= hw.regions[0].size)
  }

  predicate AllNoLess(c: Context, f: File, p: Plan, b: nat)
    requires c.geometry.blockSize > 0
  {
    && NoLess(c, f, p.hw, p.hwAddress, b)
    && forall a | a in p.actions :: NoLess(c, f, a.hw, a.hwAddress, b)
  }

  lemma {:induction false} RegionsNoLess(c: Context, f: File, b: nat, reach: nat, rs: seq<Region>)
    requires Rooted(c, b, reach)
    requires forall r :: r in rs ==> r.End() <= reach
    ensures AllNoLess(c, f, PlanRegions(c, StartPlan(f), rs), b)
  {
    hide Described, Describe, HasSpace, NoLess, PlanDescription, AppendBase;
    if rs == [] {
      StartNoLess(c, f, b);
    } else {
      var n := |rs| - 1;
      var p, r := PlanRegions(c, StartPlan(f), rs[..n]), rs[n];
      RegionsNoLess(c, f, b, reach, rs[..n]);
      if p.status == Success && Appends(r, c.oldSize) {
        AppendNoLess(c, f, p, r, b);
      }
    }
  }

  lemma {:induction false} StartNoLess(c: Context, f: File, b: nat)
    requires c.geometry.blockSize > 0
    ensures AllNoLess(c, f, StartPlan(f), b)
  {
  }

  lemma {:induction false} AppendNoLess(c: Context, f: File, p: Plan, r: Region, b: nat)
    requires Rooted(c, b, r.End()) && AllNoLess(c, f, p, b) && c.oldSize <= r.End()
    ensures AllNoLess(c, f, PlanDescription(c, AppendBase(c, p, r), r.End()), b)
  {
    hide Described, Describe;
    PlanDescriptionDescribes(c, AppendBase(c, p, r), b, r.End());
  }

  // ---------- Buffer kept ----------

  /** With the buffer kept, new old contents show the same file if the record gives at least the old data. */
  lemma {:induction false} KeptRefines(g: Geometry, m: seq<byte>, f: File, p: PlainFile, m': seq<byte>, f': File)
    requires Refines(g, m, f, p) && f' == f.(hw := f'.hw, hwAddress := f'.hwAddress) && DataInside(g, m', f')
    requires f.OnDisk() ==> f'.OnDisk() && f'.hw.blockStart == f.hw.blockStart && f.DataSize() <= f'.DataSize()
    requires !f.OnDisk() ==> f.DataSize() == 0
    requires forall k :: 0 <= k < f.DataSize() && k < |p.bytes| && LastRegion(f.regions, k) == -1 && StartOf(g, f) + k < |m'| ==>
               m'[StartOf(g, f) + k] == m[StartOf(g, f) + k]
    ensures Refines(g, m', f', p)
  {
  }

  /** The writes of a flush with room are inside the media. */
  lemma {:induction false} FlushFits(c: Context, f: File, b: nat)
    requires f.info.Some? && RegionsWithin(f) && Rooted(c, b, f.info.value.size)
    requires b + c.geometry.BlocksFor(f.info.value.size) <= c.geometry.blocks
    requires if f.OnDisk() then RecordOk(c.geometry, f) else f.hwAddress == 0
    ensures AllFit(Writes(FlushPlan(c, f).actions), c.geometry.Size())
  {
    hide FlushPlan, Reach;
    var g, n := c.geometry, f.info.value.size;
    FlushConfined(c, f, b) by { WithinIsReach(f); }
    WithinIsReach(f);
    SumTimes(b, g.BlocksFor(n), g.blockSize);
    MulMonotone(b + g.BlocksFor(n), g.blocks, g.blockSize);
    if f.OnDisk() {
      RecordInside(g, f);
      MulMonotone(f.hw.blockEnd + 1, g.blocks, g.blockSize);
    }
    var p := FlushPlan(c, f);
    forall w | w in Writes(p.actions)
      ensures w.Fits(g.Size())
    {
      var x :| 0 <= x < |p.actions| && p.actions[x].write == w;
      assert p.actions[x] in p.actions;
    }
  }

  lemma {:induction false} WithinIsReach(f: File)
    requires f.info.Some? && RegionsWithin(f)
    ensures Reach(f.info.value.size, f.regions) == f.info.value.size
  {
  }

  // ---------- Only the final description broke ----------

  /** All regions have been flushed: the file's bytes are in flash, whatever the final description left. */
  lemma {:induction false} DescriptionBroke(c: Context, f: File, b: nat, m: seq<byte>, m': seq<byte>, k: nat)
    requires Flushed(c, f, b, m) && NothingClobbered(c, f, m) && k < f.info.value.size && c.start + k < |m|
    requires RegionsPlan(c, f).status == Success && |RegionsPlan(c, f).actions| < |FlushPlan(c, f).actions|
    requires Executed(FlushPlan(c, f).actions, |RegionsPlan(c, f).actions|, m, m')
    requires Expected(m, c.start, c.oldSize, f.regions, k).Some?
    ensures m'[c.start + k] == Expected(m, c.start, c.oldSize, f.regions, k).value
  {
    hide Clobbered, Expected, Describe, Encode, TailClear, RegionsPlan, NothingClobbered, NameOf;
    var p, n := RegionsPlan(c, f), f.info.value.size;
    var q := PlanDescription(c, p, n);
    assert FlushPlan(c, f) == q;
    assert q.actions[..|p.actions|] == p.actions;
    PlanDescriptionDescribes(c, p, b, n);
    TailIsAtOffset(c, b, q.hw, n);
    BehindAll(c.geometry, n, k);
    TailMisses(c, q.hwAddress, q.hw, n, k);
    assert q.actions[|p.actions|].write == Write(q.hwAddress, Encode(q.hw));
    FinishByte(c, f, b, m, k);
    UnclobberedIsFaithful(c, f, b, m);
  }

  // ---------- Whatever the outcome ----------

  /** The extent of a placed flush with room: where it starts, and that its writes are inside the media. */
  ghost predicate Extent(s: State, i: nat, c: Context, b: nat)
    requires Flushable(s, i) && s.files[i].info.Some?
  {
    var g, f := s.geometry, s.files[i];
    && c.geometry == g && c.oldSize == f.DataSize() && c.name == f.info.value.name
    && RegionsWithin(f) && Rooted(c, b, f.info.value.size) && TailClear(c, f) && c.start + c.oldSize <= |s.media|
    && b + g.BlocksFor(f.info.value.size) <= g.blocks && c.start + f.info.value.size <= |s.media|
    && (if f.OnDisk() then RecordOk(g, f) && f.hw.blockStart == b else f.hwAddress == 0 && f.hw == NO_DESCRIPTION)
    && AllFit(Writes(FlushPlan(c, f).actions), |s.media|)
  }

  lemma {:induction false} PlacedExtent(s: State, i: nat) returns (c: Context, b: nat)
    requires Flushable(s, i) && Allocated(s.geometry, s.files) && s.files[i].info.Some?
    requires Place(s.geometry, s.files, i).Placed? && RegionsWithin(s.files[i])
    requires RoomFor(s.geometry, s.files, i, s.files[i].info.value.size)
    ensures var p := Place(s.geometry, s.files, i);
            c == ContextFor(s.geometry, p.files, p.index, p.start) && b == p.start / s.geometry.blockSize
    ensures Extent(s, i, c, b)
  {
    hide FlushPlan, Allocated, RegionsWithin, TailClear;
    var g, f := s.geometry, s.files[i];
    var p := Place(g, s.files, i);
    PlaceRooted(g, s.files, i);
    c, b := ContextFor(g, p.files, p.index, p.start), p.start / g.blockSize;
    RoomIsUntruncated(g, s.files, i, f.info.value.size);
    LayoutTailClear(g, s.files, i);
    PlaceStart(g, s.files, i);
    RecordFacts(g, s.files, i);
    BlocksForBounds(g, f.info.value.size);
    SumTimes(b, g.BlocksFor(f.info.value.size), g.blockSize);
    MulMonotone(b + g.BlocksFor(f.info.value.size), g.blocks, g.blockSize);
    FlushFits(c, f, b);
  }

  lemma {:induction false} RecordFacts(g: Geometry, files: seq<File>, i: nat)
    requires Allocated(g, files) && i < |files|
    ensures if files[i].OnDisk() then RecordOk(g, files[i]) else files[i].hwAddress == 0 && files[i].hw == NO_DESCRIPTION
  {
  }

  /** The record a flush leaves while the buffer is kept. */
  lemma {:induction false} KeptRecord(s: State, i: nat, c: Context, b: nat, done: nat)
    requires Flushable(s, i) && s.files[i].info.Some? && Extent(s, i, c, b)
    requires done <= |FlushPlan(c, s.files[i]).actions|
    requires !(RegionsPlan(c, s.files[i]).status == Success && |RegionsPlan(c, s.files[i]).actions| <= done)
    ensures var f' := RecordAfter(s.files[i], RegionsPlan(c, s.files[i]), FlushPlan(c, s.files[i]), done);
            f'.regions == s.files[i].regions && NoLess(c, s.files[i], f'.hw, f'.hwAddress, b)
  {
    hide NoLess, Rooted, TailClear, RecordOk, PlanDescription;
    var f := s.files[i];
    var replay, p := RegionsPlan(c, f), FlushPlan(c, f);
    RegionsNoLess(c, f, b, f.info.value.size, f.regions);
    if done < |replay.actions| {
      assert p.actions[done] == replay.actions[done] by { PlanPrefix(c, f, done); }
      assert replay.actions[done] in replay.actions;
    } else {
      assert p == replay;
    }
  }

  lemma {:induction false} PlanPrefix(c: Context, f: File, x: nat)
    requires c.geometry.blockSize > 0 && IsName(c.name) && f.info.Some? && x < |RegionsPlan(c, f).actions|
    ensures x < |FlushPlan(c, f).actions| && FlushPlan(c, f).actions[x] == RegionsPlan(c, f).actions[x]
  {
    hide RegionsPlan, Describe, Encode;
  }

  /** With the buffer kept, the file is shown as before. */
  lemma {:induction false} KeptShows(s: State, i: nat, c: Context, b: nat, done: nat, m': seq<byte>, f': File, p: PlainFile)
    requires Flushable(s, i) && s.files[i].info.Some? && Extent(s, i, c, b) && Refines(s.geometry, s.media, s.files[i], p)
    requires forall k: nat :: k < |p.bytes| ==> !Clobbered(s.geometry, s.files[i].DataSize(), s.files[i].regions, k)
    requires Executed(FlushPlan(c, s.files[i]).actions, done, s.media, m')
    requires f' == s.files[i].(hw := f'.hw, hwAddress := f'.hwAddress) && NoLess(c, s.files[i], f'.hw, f'.hwAddress, b)
    requires DataInside(s.geometry, m', f')
    ensures Refines(s.geometry, m', f', p)
  {
    hide FlushPlan, Clobbered, AllMiss, Executed, Refines, TailClear, RegionsWithin;
    var g, f := s.geometry, s.files[i];
    RefinedSize(g, s.media, f, p);
    forall k | 0 <= k < f.DataSize() && k < |p.bytes| && LastRegion(f.regions, k) == -1 && StartOf(g, f) + k < |m'|
      ensures m'[StartOf(g, f) + k] == s.media[StartOf(g, f) + k]
    {
      FlushMisses(c, f, b, k);
      ExecutedLength(FlushPlan(c, f).actions, done, s.media, m');
      MissedByte(FlushPlan(c, f).actions, done, s.media, m', c.start + k);
    }
    KeptRefines(g, s.media, f, p, m', f');
  }

  lemma {:induction false} RefinedSize(g: Geometry, m: seq<byte>, f: File, p: PlainFile)
    requires Refines(g, m, f, p)
    ensures f.info.Some? && f.info.value.size == |p.bytes|
  {
  }

  lemma {:induction false} ExecutedLength(actions: seq<Action>, done: nat, m: seq<byte>, m': seq<byte>)
    requires Executed(actions, done, m, m')
    ensures |m'| == |m|
  {
  }

  /** With all regions flushed and the final description broken, flash alone shows it. */
  lemma {:induction false} BrokenShows(s: State, i: nat, c: Context, b: nat, m': seq<byte>, f': File, p: PlainFile)
    requires Flushable(s, i) && s.files[i].info.Some? && Extent(s, i, c, b) && Refines(s.geometry, s.media, s.files[i], p)
    requires forall k: nat :: k < |p.bytes| ==> !Clobbered(s.geometry, s.files[i].DataSize(), s.files[i].regions, k)
    requires var replay := RegionsPlan(c, s.files[i]);
             && replay.status == Success && |replay.actions| < |FlushPlan(c, s.files[i]).actions|
             && Executed(FlushPlan(c, s.files[i]).actions, |replay.actions|, s.media, m')
             && f' == RecordAfter(s.files[i], replay, FlushPlan(c, s.files[i]), |replay.actions|)
    requires DataInside(s.geometry, m', f')
    ensures Refines(s.geometry, m', f', p)
  {
    hide RegionsPlan, Clobbered, Executed, TailClear, Describe, Encode, NameOf, RecordOk;
    var g, f, n := s.geometry, s.files[i], s.files[i].info.value.size;
    var q := PlanDescription(c, RegionsPlan(c, f), n);
    assert FlushPlan(c, f) == q;
    PlanDescriptionDescribes(c, RegionsPlan(c, f), b, n);
    forall k | 0 <= k < |p.bytes| && p.bytes[k].Some?
      ensures Expected(m', StartOf(g, f'), f'.DataSize(), [], k) == p.bytes[k]
    {
      ExpectedFromStart(g, s.media, c, f, k);
      assert Expected(s.media, c.start, c.oldSize, f.regions, k) == p.bytes[k];
      DescriptionBroke(c, f, b, s.media, m', k);
    }
  }

  /**
   Whatever the outcome of a flush with room that puts no description on data - success,
   no space, or a disk that fails at any write - buffer over flash shows the plain file.
   */
  lemma {:induction false} FlushAlwaysRefines(s: State, i: nat, status: Status, s': State, j: nat, done: nat, p: PlainFile)
    requires Flushable(s, i) && Allocated(s.geometry, s.files) && FlushStep(s, i, status, s', j, done)
    requires Refines(s.geometry, s.media, s.files[i], p)
    requires RoomFor(s.geometry, s.files, i, Reach(s.files[i].info.value.size, s.files[i].regions))
    requires forall k: nat :: k < |p.bytes| ==> !Clobbered(s.geometry, s.files[i].DataSize(), s.files[i].regions, k)
    ensures j < |s'.files| && Refines(s'.geometry, s'.media, s'.files[j], p)
  {
    hide Clobbered, Allocated, RoomFor, FlushPlan, RegionsPlan, Executed, Place, Refines, Extent;
    var g, f := s.geometry, s.files[i];
    RefinedSize(g, s.media, f, p);
    RefinedWithin(g, s.media, f, p);
    if f.mode == ReadWrite && Place(g, s.files, i).Placed? {
      var c, b := PlacedExtent(s, i);
      PlacedShows(s, i, status, s', j, done, c, b, p);
    }
  }

  lemma {:induction false} RefinedWithin(g: Geometry, m: seq<byte>, f: File, p: PlainFile)
    requires Refines(g, m, f, p)
    ensures RegionsWithin(f) && Reach(f.info.value.size, f.regions) == f.info.value.size
  {
  }

  lemma {:induction false} PlacedShows(s: State, i: nat, status: Status, s': State, j: nat, done: nat, c: Context, b: nat, p: PlainFile)
    requires Flushable(s, i) && Allocated(s.geometry, s.files) && FlushStep(s, i, status, s', j, done)
    requires Refines(s.geometry, s.media, s.files[i], p) && s.files[i].mode == ReadWrite
    requires RoomFor(s.geometry, s.files, i, Reach(s.files[i].info.value.size, s.files[i].regions))
    requires forall k: nat :: k < |p.bytes| ==> !Clobbered(s.geometry, s.files[i].DataSize(), s.files[i].regions, k)
    requires Extent(s, i, c, b)
    requires var q := Place(s.geometry, s.files, i); q.Placed? && c == ContextFor(s.geometry, q.files, q.index, q.start)
    ensures j < |s'.files| && Refines(s'.geometry, s'.media, s'.files[j], p)
  {
    hide Clobbered, Allocated, RoomFor, FlushPlan, RegionsPlan, Executed, Place, Refines, ContextFor, FlushStep, Extent, NoLess;
    RefinedSize(s.geometry, s.media, s.files[i], p);
    ExtentRoot(s, i, c, b);
    var g, f := s.geometry, s.files[i];
    var replay, plan := RegionsPlan(c, f), FlushPlan(c, f);
    FlushWithRoomKeepsLayout(s, i, status, s', j, done);
    FlushedAt(s, i, status, s', j, done, c);
    var f' := s'.files[j];
    ExecutedLength(plan.actions, done, s.media, s'.media);
    InsideMedia(g, s'.media, s'.files, j);
    if !(replay.status == Success && |replay.actions| <= done) {
      KeptRecord(s, i, c, b, done);
      KeptShows(s, i, c, b, done, s'.media, f', p);
    } else if done < |plan.actions| {
      FinalOnly(c, f, done);
      BrokenShows(s, i, c, b, s'.media, f', p);
    } else {
      AllFlushed(s, i, status, s', j, done, c, p);
    }
  }

  lemma {:induction false} ExtentRoot(s: State, i: nat, c: Context, b: nat)
    requires Flushable(s, i) && s.files[i].info.Some? && Extent(s, i, c, b)
    ensures c.geometry == s.geometry && c.geometry.blockSize > 0 && IsName(c.name)
    ensures s.files[i].info.value.size + DESCRIPTION_SIZE < TWO_TO_THE_32
  {
  }

  lemma {:induction false} FlushedAt(s: State, i: nat, status: Status, s': State, j: nat, done: nat, c: Context)
    requires Flushable(s, i) && FlushStep(s, i, status, s', j, done) && s.files[i].info.Some? && s.files[i].mode == ReadWrite
    requires var q := Place(s.geometry, s.files, i); q.Placed? && c == ContextFor(s.geometry, q.files, q.index, q.start)
    requires c.geometry.blockSize > 0 && IsName(c.name)
    ensures s'.geometry == s.geometry && j < |s'.files| && Executed(FlushPlan(c, s.files[i]).actions, done, s.media, s'.media)
    ensures done <= |FlushPlan(c, s.files[i]).actions|
    ensures s'.files[j] == RecordAfter(s.files[i], RegionsPlan(c, s.files[i]), FlushPlan(c, s.files[i]), done)
    ensures status == if done == |FlushPlan(c, s.files[i]).actions| then FlushPlan(c, s.files[i]).status else DeviceError
  {
    hide FlushPlan, RegionsPlan, Place, ContextFor;
  }

  lemma {:induction false} InsideMedia(g: Geometry, m: seq<byte>, files: seq<File>, j: nat)
    requires g.Valid() && |m| == g.Size() && Allocated(g, files) && j < |files|
    ensures DataInside(g, m, files[j])
  {
    if files[j].OnDisk() {
      RecordInside(g, files[j]);
    }
  }

  lemma {:induction false} FinalOnly(c: Context, f: File, done: nat)
    requires c.geometry.blockSize > 0 && IsName(c.name) && f.info.Some?
    requires |RegionsPlan(c, f).actions| <= done < |FlushPlan(c, f).actions|
    ensures done == |RegionsPlan(c, f).actions|
  {
    hide RegionsPlan, Describe, Encode, NameOf;
  }

  lemma {:induction false} AllFlushed(s: State, i: nat, status: Status, s': State, j: nat, done: nat, c: Context, p: PlainFile)
    requires Flushable(s, i) && Allocated(s.geometry, s.files) && FlushStep(s, i, status, s', j, done)
    requires Refines(s.geometry, s.media, s.files[i], p) && s.files[i].mode == ReadWrite
    requires s.files[i].info.value.size + DESCRIPTION_SIZE < TWO_TO_THE_32 && c.geometry.blockSize > 0 && IsName(c.name)
    requires forall k: nat :: k < |p.bytes| ==> !Clobbered(s.geometry, s.files[i].DataSize(), s.files[i].regions, k)
    requires Allocated(s'.geometry, s'.files)
    requires var q := Place(s.geometry, s.files, i); q.Placed? && c == ContextFor(s.geometry, q.files, q.index, q.start)
    requires RegionsPlan(c, s.files[i]).status == Success && done == |FlushPlan(c, s.files[i]).actions|
    ensures j < |s'.files| && Refines(s'.geometry, s'.media, s'.files[j], p)
  {
    hide Clobbered, RegionsPlan, FlushPlan, Executed, Place, Refines, FlushStep, Allocated, ContextFor;
    var g, f := s.geometry, s.files[i];
    RefinedSize(g, s.media, f, p);
    FlushedAt(s, i, status, s', j, done, c);
    StillSuccess(c, f);
    assert status == Success;
    RefinedWithin(g, s.media, f, p);
    FlushRefines(s, i, s', j, done, p);
    var c', b := FlushedRecord(s, i, s', j, done);
    RecordFacts(s'.geometry, s'.files, j);
    if !s'.files[j].OnDisk() {
      EmptyRefines(g, s'.media, f, s'.files[j], s.media, p);
    }
  }

  lemma {:induction false} StillSuccess(c: Context, f: File)
    requires c.geometry.blockSize > 0 && IsName(c.name) && f.info.Some? && RegionsPlan(c, f).status == Success
    ensures FlushPlan(c, f).status == Success
  {
    hide RegionsPlan, Describe, Encode, NameOf;
  }

  lemma {:induction false} EmptyRefines(g: Geometry, m': seq<byte>, f: File, f': File, m: seq<byte>, p: PlainFile)
    requires Refines(g, m, f, p) && f' == f.(hw := f'.hw, hwAddress := f'.hwAddress, regions := [])
    requires f'.hw == NO_DESCRIPTION && f.info.value.size == 0
    ensures Refines(g, m', f', p)
  {
  }
}
