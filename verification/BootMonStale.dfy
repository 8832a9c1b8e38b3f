/**
 One flush and the next mount: a successful flush keeps the volume remountable exactly
 when it leaves no stale description behind, which can be told before it.
 */
module BootMonStale {
  import opened Bytes
  import opened Options
  import opened ByteStore
  import opened BootMonImage
  import opened BootMonVolume
  import opened BootMonAllocation
  import opened BootMonFlush
  import opened BootMonMount
  import opened BootMonTails
  import opened BootMonBuffer
  import opened BootMonOperations
  import opened BootMonRuns
  import opened BootMonNames
  import opened BootMonDurability

  // ---------- One flush ----------

  /** No reached block ends in a recognised description, but for the file's own. */
  ghost predicate OnlyOwnTail(g: Geometry, m: seq<byte>, f: File, b: nat, own: nat)
    requires g.Valid() && |m| == g.Size() && f.info.Some?
  {
    forall lba :: 0 <= lba < g.blocks && Reached(g, f, b, lba) && ImageAt(g, m, lba) ==> lba == own
  }

  lemma {:induction false} UnreachedTail(s: State, i: nat, s': State, j: nat, done: nat, lba: nat)
    requires Flushable(s, i) && Allocated(s.geometry, s.files) && FlushStep(s, i, Success, s', j, done)
    requires RegionsWithin(s.files[i]) && RoomFor(s.geometry, s.files, i, s.files[i].info.value.size)
    requires lba < s.geometry.blocks && |s'.media| == |s.media| && s.files[i].info.Some?
    requires Place(s.geometry, s.files, i).Placed? && Place(s.geometry, s.files, i).start / s.geometry.blockSize >= 0
    requires !Reached(s.geometry, s.files[i], Place(s.geometry, s.files, i).start / s.geometry.blockSize, lba)
    ensures ImageAt(s.geometry, s'.media, lba) == ImageAt(s.geometry, s.media, lba)
  {
    hide ImageAt, RoomFor, RegionsWithin, Flushed, FlushStep, Allocated, Executed;
    var g, f := s.geometry, s.files[i];
    var at := TailOf(g, lba);
    BlockInside(g, lba);
    forall a | at <= a < at + DESCRIPTION_SIZE
      ensures s'.media[a] == s.media[a]
    {
      UnreachedByte(s, i, s', j, done, lba, a);
    }
    SameTailSameImage(g, s.media, s'.media, lba);
  }

  lemma {:induction false} SameTailSameImage(g: Geometry, m: seq<byte>, m': seq<byte>, lba: nat)
    requires g.Valid() && |m| == g.Size() == |m'| && lba < g.blocks
    requires TailOf(g, lba) + DESCRIPTION_SIZE <= |m|
    requires forall a :: TailOf(g, lba) <= a < TailOf(g, lba) + DESCRIPTION_SIZE ==> m'[a] == m[a]
    ensures ImageAt(g, m', lba) == ImageAt(g, m, lba)
  {
    var at := TailOf(g, lba);
    assert m'[at..at + DESCRIPTION_SIZE] == m[at..at + DESCRIPTION_SIZE];
  }

  /** A flush with no region beyond the file's size reaches exactly that size. */
  lemma {:induction false} WithinReach(f: File)
    requires f.info.Some? && RegionsWithin(f)
    ensures Reach(f.info.value.size, f.regions) == f.info.value.size
  {
  }

  lemma {:induction false} UnreachedByte(s: State, i: nat, s': State, j: nat, done: nat, lba: nat, a: nat)
    requires Flushable(s, i) && Allocated(s.geometry, s.files) && FlushStep(s, i, Success, s', j, done)
    requires RegionsWithin(s.files[i]) && RoomFor(s.geometry, s.files, i, s.files[i].info.value.size)
    requires lba < s.geometry.blocks && a < |s.media| == |s'.media|
    requires Place(s.geometry, s.files, i).Placed? && Place(s.geometry, s.files, i).start / s.geometry.blockSize >= 0
    requires !Reached(s.geometry, s.files[i], Place(s.geometry, s.files, i).start / s.geometry.blockSize, lba)
    requires TailOf(s.geometry, lba) <= a < TailOf(s.geometry, lba) + DESCRIPTION_SIZE
    ensures s'.media[a] == s.media[a]
  {
    var g, f := s.geometry, s.files[i];
    var p := Place(g, s.files, i);
    var b, c := p.start / g.blockSize, ContextFor(g, p.files, p.index, p.start);
    PlaceRooted(g, s.files, i);
    RoomIsUntruncated(g, s.files, i, f.info.value.size);
    WithinReach(f);
    FlushConfined(c, f, b);
    OutsideExtent(g, f, b, lba, a);
    ExecutedConfined(c, f.hwAddress, f.info.value.size, FlushPlan(c, f).actions, done, s.media, s'.media, a);
  }

  lemma {:induction false} OutsideExtent(g: Geometry, f: File, b: nat, lba: nat, a: nat)
    requires g.Valid() && f.info.Some? && lba < g.blocks && !Reached(g, f, b, lba)
    requires f.OnDisk() ==> RecordOk(g, f)
    requires !f.OnDisk() ==> f.hwAddress == 0
    requires TailOf(g, lba) <= a < TailOf(g, lba) + DESCRIPTION_SIZE
    ensures a < b * g.blockSize || b * g.blockSize + TailOffset(g, f.info.value.size) + DESCRIPTION_SIZE <= a
    ensures !Erases(f.hwAddress, a)
  {
    var n := g.BlocksFor(f.info.value.size);
    SumTimes(b, n, g.blockSize);
    SumTimes(lba, 1, g.blockSize);
    if lba < b {
      MulMonotone(lba + 1, b, g.blockSize);
    } else {
      MulMonotone(b + n, lba, g.blockSize);
    }
    if f.OnDisk() {
      var e := f.hw.blockEnd;
      SumTimes(e, 1, g.blockSize);
      if lba < e {
        MulMonotone(lba + 1, e, g.blockSize);
      } else {
        MulMonotone(e + 1, lba, g.blockSize);
      }
    }
  }

  /** In a placed list no other file on disk ends in a reached block. */
  lemma {:induction false} OthersEndElsewhere(g: Geometry, files: seq<File>, i: nat, x: nat)
    requires g.Valid() && Allocated(g, files) && i < |files| && files[i].info.Some? && Place(g, files, i).Placed?
    requires RoomFor(g, files, i, files[i].info.value.size) && Place(g, files, i).start / g.blockSize >= 0
    requires var p := Place(g, files, i); x < |p.files| && x != p.index && p.files[x].OnDisk()
    ensures var p := Place(g, files, i); !Reached(g, files[i], p.start / g.blockSize, p.files[x].hw.blockEnd)
  {
    var p := Place(g, files, i);
    PlaceKeepsLayout(g, files, i);
    PlaceStart(g, files, i);
    assert RecordOk(g, p.files[x]);
    assert Slot(g, p.files, p.index, p.start / g.blockSize, g.BlocksFor(files[i].info.value.size));
    if files[i].OnDisk() {
      assert RecordOk(g, files[i]);
    }
  }

  /** A recognised tail with its owner in the list. */
  ghost predicate Owned(files: seq<File>, lba: nat)
  {
    exists x :: 0 <= x < |files| && files[x].OnDisk() && files[x].hw.blockEnd == lba
  }

  /** What the flush's owner of `lba` was before it, if the block is not reached. */
  lemma {:induction false} OwnersSurvive(s: State, i: nat, s': State, j: nat, done: nat, lba: nat)
    requires Flushable(s, i) && FlushStep(s, i, Success, s', j, done)
    requires Owned(s.files, lba) && s.files[i].info.Some?
    requires !(s.files[i].OnDisk() && lba == s.files[i].hw.blockEnd)
    ensures Owned(s'.files, lba)
  {
    hide FlushStep;
    FlushOwnChange(s, i, Success, s', j, done);
    var x :| 0 <= x < |s.files| && s.files[x].OnDisk() && s.files[x].hw.blockEnd == lba;
    assert Elsewhere(s'.files, j, s.files[x]);
  }

  /** After a successful flush with room, the reached blocks decide whether tails are still clean. */
  lemma {:induction false} ReachedTailsDecide(s: State, i: nat, s': State, j: nat, done: nat)
    requires Flushable(s, i) && Allocated(s.geometry, s.files) && FlashMatches(s) && CleanTails(s)
    requires FlushStep(s, i, Success, s', j, done)
    requires RegionsWithin(s.files[i]) && RoomFor(s.geometry, s.files, i, s.files[i].info.value.size)
    requires s.files[i].info.value.name != []
    ensures s'.geometry == s.geometry && |s'.media| == |s.media| && j < |s'.files|
    ensures Place(s.geometry, s.files, i).Placed? && Place(s.geometry, s.files, i).start / s.geometry.blockSize >= 0
    ensures CleanTails(s') <==>
            OnlyOwnTail(s.geometry, s'.media, s.files[i], Place(s.geometry, s.files, i).start / s.geometry.blockSize, s'.files[j].hw.blockEnd)
  {
    hide FlushStep, RoomFor, RegionsWithin, ImageAt, OnFlash, Allocated, Reached;
    var g, f := s.geometry, s.files[i];
    SuccessIsPlaced(s, i, s', j, done);
    FlushKeepsFlash(s, i, s', j, done);
    FlushedIsOnDisk(s, i, s', j, done);
    FlushOwnChange(s, i, Success, s', j, done);
    var p := Place(g, s.files, i);
    var b, own := p.start / g.blockSize, s'.files[j].hw.blockEnd;
    if OnlyOwnTail(g, s'.media, f, b, own) {
      forall lba | 0 <= lba < g.blocks && ImageAt(g, s'.media, lba)
        ensures Owned(s'.files, lba)
      {
        if !Reached(g, f, b, lba) {
          UnreachedTail(s, i, s', j, done, lba);
          assert Owned(s.files, lba);
          UnreachedNotOld(g, f, b, lba);
          OwnersSurvive(s, i, s', j, done, lba);
        }
      }
    }
    if CleanTails(s') {
      forall lba | 0 <= lba < g.blocks && Reached(g, f, b, lba) && ImageAt(g, s'.media, lba)
        ensures lba == own
      {
        var x :| 0 <= x < |s'.files| && s'.files[x].OnDisk() && s'.files[x].hw.blockEnd == lba;
        if x != j {
          OthersEndElsewhere(g, s.files, i, x);
        }
      }
    }
  }

  /** The file's record is in flash at block `b`, or there is none; its rounded-up extent from `b` on is inside the media. */
  ghost predicate Placeable(g: Geometry, m: seq<byte>, f: File, b: nat)
    requires g.Valid() && f.info.Some?
  {
    && RegionsWithin(f) && b + g.BlocksFor(f.info.value.size) <= g.blocks
    && if f.OnDisk() then RecordOk(g, f) && OnFlash(m, f) && f.hw.blockStart == b else f.hwAddress == 0
  }

  /** The block described last is a reached one. */
  lemma {:induction false} EndsReached(g: Geometry, m: seq<byte>, f: File, b: nat)
    requires g.Valid() && f.info.Some? && Placeable(g, m, f, b) && (f.OnDisk() || Rewrites(f))
    ensures FinalEnd(g, f, b) < g.blocks && b <= DescribedEnd(g, f, b) < g.blocks && Reached(g, f, b, DescribedEnd(g, f, b))
  {
    hide Rewrites, OnFlash;
    var j := LastAppend(f.regions, f.DataSize());
    BlocksForBounds(g, f.info.value.size);
    if j >= 0 {
      assert f.regions[j] in f.regions;
      BlocksForBounds(g, f.regions[j].End());
      BlocksForMonotone(g, f.regions[j].End(), f.info.value.size);
    }
  }

  /** What a successful flush of a file with room is about. */
  lemma {:induction false} FlushedExtent(s: State, i: nat, s': State, j: nat, done: nat) returns (c: Context, b: nat)
    requires Flushable(s, i) && Allocated(s.geometry, s.files) && FlashMatches(s)
    requires FlushStep(s, i, Success, s', j, done)
    requires RegionsWithin(s.files[i]) && RoomFor(s.geometry, s.files, i, s.files[i].info.value.size)
    ensures Place(s.geometry, s.files, i).Placed? && Place(s.geometry, s.files, i).start / s.geometry.blockSize == b
    ensures c.geometry == s.geometry && c.oldSize == s.files[i].DataSize() && c.name == s.files[i].info.value.name
    ensures Flushed(c, s.files[i], b, s.media) && s'.media == After(s.media, FlushPlan(c, s.files[i]))
    ensures Placeable(s.geometry, s.media, s.files[i], b)
    ensures j < |s'.files| && s'.files[j].hw.blockEnd == FinalEnd(s.geometry, s.files[i], b)
  {
    hide FlushStep, RegionsWithin, OnFlash, FlushPlan, Rewrites, Flushed, RecordOk, Place;
    var g, f := s.geometry, s.files[i];
    SuccessIsPlaced(s, i, s', j, done);
    PlaceRooted(g, s.files, i);
    RoomIsUntruncated(g, s.files, i, f.info.value.size);
    c, b := SuccessIsFlushed(s, i, s', j, done);
    PlaceStart(g, s.files, i);
    FlushedFinalEnd(c, f, b, s.media);
  }

  lemma {:induction false} FlushedFinalEnd(c: Context, f: File, b: nat, m: seq<byte>)
    requires Flushed(c, f, b, m) && c.oldSize == f.DataSize() && c.name == f.info.value.name
    ensures FlushPlan(c, f).hw.blockEnd == FinalEnd(c.geometry, f, b)
  {
    FinalRecord(c, f, b);
  }

  lemma {:induction false} UnreachedNotOld(g: Geometry, f: File, b: nat, lba: nat)
    requires g.blockSize > 0 && f.info.Some? && !Reached(g, f, b, lba)
    ensures !(f.OnDisk() && lba == f.hw.blockEnd)
  {
  }

  /**
   A successful flush of a named file with room keeps the volume remountable if and only
   if the description written before the final one - that of the last appended region,
   or the old one - ends in the same block, and no other tail of the extent is made to
   look like a description by data, zeros and old contents.
   */
  lemma {:induction false} FlushKeepsTailsExactly(s: State, i: nat, s': State, j: nat, done: nat)
    requires Flushable(s, i) && Allocated(s.geometry, s.files) && FlashMatches(s) && CleanTails(s)
    requires FlushStep(s, i, Success, s', j, done)
    requires RegionsWithin(s.files[i]) && RoomFor(s.geometry, s.files, i, s.files[i].info.value.size)
    requires s.files[i].info.value.name != []
    ensures s'.geometry == s.geometry && |s'.media| == |s.media|
    ensures Place(s.geometry, s.files, i).Placed? && Place(s.geometry, s.files, i).start / s.geometry.blockSize >= 0
    ensures var f, b := s.files[i], Place(s.geometry, s.files, i).start / s.geometry.blockSize;
            CleanTails(s') <==>
              DescribedEnd(s.geometry, f, b) == FinalEnd(s.geometry, f, b) && NoImpostor(s.geometry, s.media, f, b)
  {
    hide FlushStep, RoomFor, RegionsWithin, Allocated, CleanTails, FlashMatches, Place, Flushed, FlushPlan, OnlyOwnTail, Placeable;
    ReachedTailsDecide(s, i, s', j, done);
    SuccessIsPlaced(s, i, s', j, done);
    var c, b := FlushedExtent(s, i, s', j, done);
    NamedIsRewritten(s, i, b);
    TailsOfExtent(c, s.files[i], b, s.media);
  }

  lemma {:induction false} NamedIsRewritten(s: State, i: nat, b: nat)
    requires Flushable(s, i) && Allocated(s.geometry, s.files) && s.files[i].info.Some? && s.files[i].info.value.name != []
    ensures s.files[i].OnDisk() || Rewrites(s.files[i])
  {
    assert NO_DESCRIPTION.filename[0] == 0;
  }

  /** The reached tails after the plan, told from before it. */
  lemma {:induction false} TailsOfExtent(c: Context, f: File, b: nat, m: seq<byte>)
    requires Flushed(c, f, b, m) && c.oldSize == f.DataSize() && c.name == f.info.value.name && |m| == c.geometry.Size()
    requires Placeable(c.geometry, m, f, b) && (f.OnDisk() || Rewrites(f))
    ensures OnlyOwnTail(c.geometry, After(m, FlushPlan(c, f)), f, b, FinalEnd(c.geometry, f, b)) <==>
            DescribedEnd(c.geometry, f, b) == FinalEnd(c.geometry, f, b) && NoImpostor(c.geometry, m, f, b)
  {
    hide Flushed, ImageAt, Impostor, DescribedEnd, FinalEnd, Rewrites, FlushPlan, OnFlash, RecordOk, RegionsWithin;
    FlushedGeometry(c, f, b, m);
    var g, m', last, own := c.geometry, After(m, FlushPlan(c, f)), DescribedEnd(c.geometry, f, b), FinalEnd(c.geometry, f, b);
    EndsReached(g, m, f, b);
    if last != own {
      DescriptionLeft(c, f, b, m);
    } else {
      forall lba | b <= lba < g.blocks && lba != own
        ensures ImageAt(g, m', lba) == Impostor(g, m, f, b, lba)
      {
        FlushedTail(c, f, b, m, lba);
      }
      ReachedFrom(g, m, f, b);
    }
  }

  lemma {:induction false} ReachedFrom(g: Geometry, m: seq<byte>, f: File, b: nat)
    requires g.Valid() && f.info.Some? && Placeable(g, m, f, b)
    ensures forall lba :: 0 <= lba && Reached(g, f, b, lba) ==> b <= lba
  {
  }

  /**
   The other way round: whenever those two blocks differ - after a shrink, or after
   rewriting the head of a longer file - the description left behind keeps the next
   mount from rebuilding the list.
   */
  lemma {:induction false} DescriptionLeftBehind(s: State, i: nat, s': State, j: nat, done: nat)
    requires Flushable(s, i) && Allocated(s.geometry, s.files) && FlashMatches(s)
    requires FlushStep(s, i, Success, s', j, done)
    requires RegionsWithin(s.files[i]) && RoomFor(s.geometry, s.files, i, s.files[i].info.value.size)
    requires Place(s.geometry, s.files, i).Placed? && Place(s.geometry, s.files, i).start / s.geometry.blockSize >= 0
    requires var f, b := s.files[i], Place(s.geometry, s.files, i).start / s.geometry.blockSize;
             DescribedEnd(s.geometry, f, b) != FinalEnd(s.geometry, f, b)
    ensures s'.geometry == s.geometry && |s'.media| == |s.media| && Scan(s'.geometry, s'.media, 0) != OnDiskView(s'.files, 0)
  {
    hide FlushStep, RoomFor, RegionsWithin, Allocated, FlashMatches, Place, Flushed, FlushPlan, Placeable, ImageAt,
      DescribedEnd, FinalEnd, Rewrites, Scan, OnDiskView, Reached;
    var g, f := s.geometry, s.files[i];
    FlushKeepsFlash(s, i, s', j, done);
    FlushOwnChange(s, i, Success, s', j, done);
    SuccessIsPlaced(s, i, s', j, done);
    var c, b := FlushedExtent(s, i, s', j, done);
    PlaceableRecord(g, s.media, f, b);
    SomethingRewritten(g, f, b);
    EndsReached(g, s.media, f, b);
    DescriptionLeft(c, f, b, s.media);
    forall x | 0 <= x < |s'.files| && s'.files[x].OnDisk()
      ensures s'.files[x].hw.blockEnd != DescribedEnd(g, f, b)
    {
      if x != j {
        OthersEndElsewhere(g, s.files, i, x);
      }
    }
    RemountExactly(s');
  }

  lemma {:induction false} PlaceableRecord(g: Geometry, m: seq<byte>, f: File, b: nat)
    requires g.Valid() && f.info.Some? && Placeable(g, m, f, b)
    ensures if f.OnDisk() then RecordOk(g, f) && OnFlash(m, f) else f.hwAddress == 0
  {
  }

  lemma {:induction false} SomethingRewritten(g: Geometry, f: File, b: nat)
    requires g.blockSize > 0 && f.info.Some? && DescribedEnd(g, f, b) != FinalEnd(g, f, b)
    ensures f.OnDisk() || Rewrites(f)
  {
    var j := LastAppend(f.regions, f.DataSize());
    if j >= 0 {
      assert f.regions[j] in f.regions;
    }
  }

  // ---------- A buffer that loses the remount, and nothing else ----------

  /** A new file with `body` written at 900 and then `head` at the start. */
  function HeadLast(name: seq<byte>, body: seq<byte>, head: seq<byte>): File
  {
    NEW_FILE.(info := Some(Info(name, 900 + |body|)), regions := [Region(900, body), Region(0, head)], mode := ReadWrite)
  }

  lemma {:induction false} HeadLastEnds(g: Geometry, name: seq<byte>, body: seq<byte>, head: seq<byte>)
    requires g.blockSize == 256 && |body| == 100 && |head| == 10
    ensures var f := HeadLast(name, body, head); DescribedEnd(g, f, 0) == 0 && FinalEnd(g, f, 0) == 4
  {
    var f := HeadLast(name, body, head);
    assert Appends(f.regions[1], 0) && f.regions[1] in f.regions;
    assert LastAppend(f.regions, 0) == 1;
    assert Rewrites(f);
  }

  lemma {:induction false} HeadLastUnclobbered(g: Geometry, name: seq<byte>, body: seq<byte>, head: seq<byte>, k: nat)
    requires g.blockSize == 256 && |body| == 100 && |head| == 10
    ensures !Clobbered(g, 0, HeadLast(name, body, head).regions, k)
  {
    var rs := HeadLast(name, body, head).regions;
    assert TailOffset(g, 10) == 120 && TailOffset(g, 1000) == 1144;
    if InTail(g, 10, k) || InTail(g, 1000, k) {
      assert LastRegion(rs, k) == -1 by {
        assert !RegionCovers(rs[0], k) && !RegionCovers(rs[1], k);
      }
    }
  }

  /** Its flush on a blank medium of 16 blocks. */
  lemma {:induction false} HeadLastFlushes(name: seq<byte>, body: seq<byte>, head: seq<byte>) returns (s': State, done: nat)
    requires IsName(name) && name != [] && |body| == 100 && |head| == 10
    ensures var s := State(Geometry(256, 16), Zeros(4096), [HeadLast(name, body, head)]);
            Flushable(s, 0) && FlushStep(s, 0, Success, s', 0, done)
  {
    hide FlushPlan, RegionsPlan, PlanRegions, Executed, Place, ContextFor, GrowLimit, AllConfined, FlushStep;
    var g, f := Geometry(256, 16), HeadLast(name, body, head);
    var s := State(g, Zeros(4096), [f]);
    BlankPlacement(g, f);
    var c := ContextFor(g, [f], 0, 0);
    BlankContext(g, f);
    assert f.regions[0].End() == 1000 && f.regions[1].End() == 10;
    RoomyPlan(c, f, f.regions);
    PlanFinishes(c, f);
    assert Reach(1000, f.regions) == 1000;
    FlushConfined(c, f, 0);
    assert TailOffset(g, 1000) == 1144;
    ConfinedFits(c, f, 1000, 4096);
    s', done := FlushHappens(s, 0);
  }

  lemma {:induction false} BlankContext(g: Geometry, f: File)
    requires g == Geometry(256, 16) && f.hw == NO_DESCRIPTION && f.info.Some?
    ensures ContextFor(g, [f], 0, 0) == Context(g, f.info.value.name, 0, 0, 4096)
  {
  }

  lemma {:induction false} PlanFinishes(c: Context, f: File)
    requires c.geometry.blockSize > 0 && IsName(c.name) && f.info.Some? && PlanRegions(c, StartPlan(f), f.regions).status == Success
    ensures FlushPlan(c, f).status == Success
  {
    hide Describe, Encode, TailAddress;
  }

  lemma {:induction false} ConfinedFits(c: Context, f: File, reach: nat, size: nat)
    requires c.geometry.blockSize > 0 && IsName(c.name) && f.info.Some? && f.hwAddress == 0
    requires AllConfined(c, 0, reach, FlushPlan(c, f).actions) && c.start + TailOffset(c.geometry, reach) + DESCRIPTION_SIZE <= size
    ensures AllFit(Writes(FlushPlan(c, f).actions), size)
  {
    hide FlushPlan;
    var p := FlushPlan(c, f);
    forall w | w in Writes(p.actions)
      ensures w.Fits(size)
    {
      var x :| 0 <= x < |p.actions| && p.actions[x].write == w;
      assert p.actions[x] in p.actions;
    }
  }

  /** A placed flush whose writes are inside the media can happen, and ends as planned. */
  lemma {:induction false} FlushHappens(s: State, i: nat) returns (s': State, done: nat)
    requires Flushable(s, i) && s.files[i].info.Some? && s.files[i].mode == ReadWrite && Place(s.geometry, s.files, i).Placed?
    requires var p := Place(s.geometry, s.files, i);
             var plan := FlushPlan(ContextFor(s.geometry, p.files, p.index, p.start), s.files[i]);
             AllFit(Writes(plan.actions), |s.media|)
    ensures var p := Place(s.geometry, s.files, i);
            var plan := FlushPlan(ContextFor(s.geometry, p.files, p.index, p.start), s.files[i]);
            && FlushStep(s, i, plan.status, s', p.index, done) && done == |plan.actions|
            && s'.geometry == s.geometry && s'.media == After(s.media, plan) && p.index < |s'.files|
            && s'.files[p.index] == RecordAfter(s.files[i], RegionsPlan(ContextFor(s.geometry, p.files, p.index, p.start), s.files[i]), plan, done)
  {
    hide FlushPlan, RegionsPlan, Place;
    var p := Place(s.geometry, s.files, i);
    var c := ContextFor(s.geometry, p.files, p.index, p.start);
    var plan := FlushPlan(c, s.files[i]);
    done := |plan.actions|;
    assert plan.actions[..done] == plan.actions;
    s' := State(s.geometry, After(s.media, plan), p.files[p.index := RecordAfter(s.files[i], RegionsPlan(c, s.files[i]), plan, done)]);
  }

  lemma {:induction false} BlankPlacement(g: Geometry, f: File)
    requires g == Geometry(256, 16) && f.hw == NO_DESCRIPTION && f.info.Some? && f.info.value.size == 1000
    ensures Place(g, [f], 0) == Placed([f], 0, 0)
  {
    assert FindFrom(g, [f], 1, 0, 1136) == AtEnd(0);
    assert FindFrom(g, [f], 0, 0, 1136) == FindFrom(g, [f], 1, 0, 1136);
  }

  /** With room up to the limit, no region runs out of space. */
  lemma {:induction false} RoomyPlan(c: Context, f: File, rs: seq<Region>)
    requires c.geometry.blockSize > 0 && IsName(c.name) && c.start <= c.limit < TWO_TO_THE_64
    requires forall r :: r in rs ==> r.End() + DESCRIPTION_SIZE <= c.limit - c.start
    ensures PlanRegions(c, StartPlan(f), rs).status == Success
  {
    hide PhysicalSize, Describe, Encode, TailAddress, EraseActions;
    if rs != [] {
      assert rs[|rs| - 1] in rs;
      RoomyPlan(c, f, rs[..|rs| - 1]);
    }
  }

  /** Every byte is written where it belongs, and yet the next mount does not find the file as it is. */
  lemma {:induction false} HeadLastLosesRemount(name: seq<byte>, body: seq<byte>, head: seq<byte>, s': State, done: nat)
    requires IsName(name) && name != [] && |body| == 100 && |head| == 10
    requires var s := State(Geometry(256, 16), Zeros(4096), [HeadLast(name, body, head)]);
             Flushable(s, 0) && FlushStep(s, 0, Success, s', 0, done)
    ensures forall k: nat :: k < 1000 ==> !Clobbered(Geometry(256, 16), 0, HeadLast(name, body, head).regions, k)
    ensures s'.geometry == Geometry(256, 16) && |s'.media| == 4096 && Scan(s'.geometry, s'.media, 0) != OnDiskView(s'.files, 0)
  {
    hide FlushStep, Scan, OnDiskView, DescribedEnd, FinalEnd, Clobbered;
    var g, f := Geometry(256, 16), HeadLast(name, body, head);
    var s := State(g, Zeros(4096), [f]);
    BlankPlacement(g, f);
    HeadLastEnds(g, name, body, head);
    forall k: nat | k < 1000
      ensures !Clobbered(g, 0, f.regions, k)
    {
      HeadLastUnclobbered(g, name, body, head, k);
    }
    assert g.BlocksFor(1000) == 5;
    DescriptionLeftBehind(s, 0, s', 0, done);
  }

  lemma {:induction false} SuccessIsPlaced(s: State, i: nat, s': State, j: nat, done: nat)
    requires Flushable(s, i) && Allocated(s.geometry, s.files) && FlushStep(s, i, Success, s', j, done)
    ensures s.files[i].info.Some? && s.files[i].mode == ReadWrite && Place(s.geometry, s.files, i).Placed?
    ensures j == Place(s.geometry, s.files, i).index
    ensures Place(s.geometry, s.files, i).start / s.geometry.blockSize >= 0
    ensures s'.files == Place(s.geometry, s.files, i).files[j := s'.files[j]]
  {
    hide Executed, FlushPlan, RegionsPlan, Place, Allocated;
    PlaceRooted(s.geometry, s.files, i);
  }
}
