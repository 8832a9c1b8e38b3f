/**
 Allocation of blocks to files: the layout that every volume should keep, the
 first-fit search for a new file, and exactly which flushes keep the layout.
 */
module BootMonAllocation {
  import opened Bytes
  import opened Options
  import opened ByteStore
  import opened BootMonImage
  import opened BootMonVolume

  // ---------- The layout invariant ----------

  /** A file on disk lies inside the media, its data below its description, which ends its last block. */
  predicate RecordOk(g: Geometry, f: File)
  {
    && f.hw.blockStart <= f.hw.blockEnd < g.blocks
    && f.DataSize() + DESCRIPTION_SIZE <= (f.hw.blockEnd - f.hw.blockStart + 1) * g.blockSize
    && f.hwAddress == (f.hw.blockEnd + 1) * g.blockSize - DESCRIPTION_SIZE
  }

  /** Files on disk are listed in increasing, disjoint block ranges; the others hold no description yet. */
  ghost predicate Allocated(g: Geometry, files: seq<File>)
  {
    && (forall i :: 0 <= i < |files| && files[i].OnDisk() ==> RecordOk(g, files[i]))
    && (forall i :: 0 <= i < |files| && !files[i].OnDisk() ==> files[i].hw == NO_DESCRIPTION && files[i].hwAddress == 0)
    && (forall i, j :: 0 <= i < j < |files| && files[i].OnDisk() && files[j].OnDisk() ==>
          files[i].hw.blockEnd < files[j].hw.blockStart)
  }

  // ---------- Arithmetic of blocks ----------

  lemma {:induction false} MulMonotone(a: int, b: int, c: nat)
    requires a <= b
    ensures a * c <= b * c
  {
  }

  lemma {:induction false} MulStrict(a: int, b: int, c: nat)
    requires a * c < b * c
    ensures a < b
  {
    if b <= a {
      MulMonotone(b, a, c);
    }
  }

  lemma {:induction false} SumTimes(a: int, b: int, c: int)
    ensures (a + b) * c == a * c + b * c
  {
  }

  lemma {:induction false} BlocksForBounds(g: Geometry, dataSize: nat)
    requires g.Valid()
    ensures var n := g.BlocksFor(dataSize);
            && 1 <= n
            && (n - 1) * g.blockSize <= dataSize + DESCRIPTION_SIZE < n * g.blockSize
  {
    var q := (dataSize + DESCRIPTION_SIZE) / g.blockSize;
    DivNonNegative(dataSize + DESCRIPTION_SIZE, g.blockSize);
    assert dataSize + DESCRIPTION_SIZE == q * g.blockSize + (dataSize + DESCRIPTION_SIZE) % g.blockSize;
  }

  lemma {:induction false} BlocksForMonotone(g: Geometry, a: nat, b: nat)
    requires g.Valid() && a <= b
    ensures g.BlocksFor(a) <= g.BlocksFor(b)
  {
    BlocksForBounds(g, a);
    BlocksForBounds(g, b);
    MulStrict(g.BlocksFor(a) - 1, g.BlocksFor(b), g.blockSize);
  }

  /** A block inside the media has its address range inside the media. */
  lemma {:induction false} BlockInside(g: Geometry, b: nat)
    requires g.Valid() && b < g.blocks
    ensures b * g.blockSize + g.blockSize <= g.Size()
    ensures b + 1 < TWO_TO_THE_32
  {
    MulMonotone(b + 1, g.blocks, g.blockSize);
    MulMonotone(DESCRIPTION_SIZE, g.blockSize, b + 1);
  }

  // ---------- First fit ----------

  /** `need` bytes from address `a` on are inside the media and meet no file on disk. */
  ghost predicate IsFree(g: Geometry, files: seq<File>, a: nat, need: nat)
  {
    && a + need <= g.Size()
    && forall j :: 0 <= j < |files| && files[j].OnDisk() ==>
         a + need <= files[j].hw.blockStart * g.blockSize || (files[j].hw.blockEnd + 1) * g.blockSize <= a
  }

  /** What the walk knows after visiting the first `k` entries. */
  ghost predicate Searched(g: Geometry, files: seq<File>, k: nat, start: nat, need: nat)
    requires g.blockSize > 0 && k <= |files|
  {
    && start <= g.Size()
    && start % g.blockSize == 0
    && (forall j :: 0 <= j < k && files[j].OnDisk() ==> (files[j].hw.blockEnd + 1) * g.blockSize <= start)
    && (forall j :: k <= j < |files| && files[j].OnDisk() ==> start <= files[j].hw.blockStart * g.blockSize)
    && (forall a: nat :: a < start ==> !IsFree(g, files, a, need))
  }

  /** What first fit promises of each answer; `a` ranges over all addresses, block-aligned or not. */
  ghost predicate FirstFit(g: Geometry, files: seq<File>, p: Placement, need: nat)
    requires g.blockSize > 0
  {
    match p
    case Before(k, start) =>
      && k < |files| && files[k].OnDisk()
      && start % g.blockSize == 0
      && start + need <= files[k].hw.blockStart * g.blockSize
      && (forall j :: 0 <= j < k && files[j].OnDisk() ==> (files[j].hw.blockEnd + 1) * g.blockSize <= start)
      && IsFree(g, files, start, need)
      && forall a: nat :: a < start ==> !IsFree(g, files, a, need)
    case AtEnd(start) =>
      && start % g.blockSize == 0
      && (forall j :: 0 <= j < |files| && files[j].OnDisk() ==> (files[j].hw.blockEnd + 1) * g.blockSize <= start)
      && IsFree(g, files, start, need)
      && forall a: nat :: a < start ==> !IsFree(g, files, a, need)
    case NoSpace =>
      forall a: nat :: !IsFree(g, files, a, need)
  }

  lemma {:induction false} DivisionUnique(x: nat, q: int, r: int, size: nat)
    requires 0 <= r < size && x == q * size + r
    ensures x / size == q && x % size == r
  {
    var p := x / size;
    assert x == p * size + x % size;
    assert (q - p) * size == x % size - r;
    if p < q {
      MulMonotone(1, q - p, size);
    } else if q < p {
      MulMonotone(q - p, -1, size);
    }
  }

  /** Stepping over the file on disk at index `k`, whose preceding gap is too small. */
  lemma {:induction false} SearchedStep(g: Geometry, files: seq<File>, k: nat, start: nat, need: nat)
    requires g.Valid() && Allocated(g, files) && need > 0
    requires k < |files| && files[k].OnDisk() && Searched(g, files, k, start, need)
    requires files[k].hw.blockStart * g.blockSize - start < need
    ensures Searched(g, files, k + 1, (files[k].hw.blockEnd + 1) * g.blockSize, need)
  {
    var f := files[k];
    var next := (f.hw.blockEnd + 1) * g.blockSize;
    BlockInside(g, f.hw.blockEnd);
    DivisionUnique(next, f.hw.blockEnd + 1, 0, g.blockSize);
    MulMonotone(f.hw.blockStart, f.hw.blockEnd + 1, g.blockSize);
    forall j | k + 1 <= j < |files| && files[j].OnDisk()
      ensures next <= files[j].hw.blockStart * g.blockSize
    {
      MulMonotone(f.hw.blockEnd + 1, files[j].hw.blockStart, g.blockSize);
    }
    forall a: nat | a < next
      ensures !IsFree(g, files, a, need)
    {
    }
  }

  /** The gap in front of the file on disk at index `k` is large enough. */
  lemma {:induction false} SearchedBefore(g: Geometry, files: seq<File>, k: nat, start: nat, need: nat)
    requires g.Valid() && Allocated(g, files) && need > 0
    requires k < |files| && files[k].OnDisk() && Searched(g, files, k, start, need)
    requires files[k].hw.blockStart * g.blockSize - start >= need
    ensures FirstFit(g, files, Before(k, start), need)
  {
    BlockInside(g, files[k].hw.blockStart);
    forall j | k < j < |files| && files[j].OnDisk()
      ensures files[k].hw.blockStart * g.blockSize <= files[j].hw.blockStart * g.blockSize
    {
      MulMonotone(files[k].hw.blockStart, files[j].hw.blockStart, g.blockSize);
    }
  }

  lemma {:induction false} SearchedAll(g: Geometry, files: seq<File>, start: nat, need: nat)
    requires g.Valid() && need > 0 && Searched(g, files, |files|, start, need)
    ensures FirstFit(g, files, if Sub64(g.Size(), start) >= need then AtEnd(start) else NoSpace, need)
  {
  }

  /** One step of the walk over a file on disk, free of wrap-around. */
  lemma {:induction false} FindFromStep(g: Geometry, files: seq<File>, k: nat, start: nat, need: nat)
    requires g.Valid() && k < |files| && files[k].OnDisk() && RecordOk(g, files[k])
    requires start <= files[k].hw.blockStart * g.blockSize
    ensures FindFrom(g, files, k, start, need) ==
            if files[k].hw.blockStart * g.blockSize - start >= need then Before(k, start)
            else FindFrom(g, files, k + 1, (files[k].hw.blockEnd + 1) * g.blockSize, need)
  {
    BlockInside(g, files[k].hw.blockEnd);
    BlockInside(g, files[k].hw.blockStart);
    assert ToWord(files[k].hw.blockEnd + 1) == files[k].hw.blockEnd + 1;
  }

  lemma {:induction false} FindFromIsFirstFit(g: Geometry, files: seq<File>, k: nat, start: nat, need: nat)
    requires g.Valid() && Allocated(g, files) && need > 0
    requires k <= |files| && Searched(g, files, k, start, need)
    ensures FirstFit(g, files, FindFrom(g, files, k, start, need), need)
    decreases |files| - k
  {
    if k == |files| {
      SearchedAll(g, files, start, need);
    } else if !files[k].OnDisk() {
      FindFromIsFirstFit(g, files, k + 1, start, need);
    } else {
      FindFromStep(g, files, k, start, need);
      if files[k].hw.blockStart * g.blockSize - start < need {
        SearchedStep(g, files, k, start, need);
        FindFromIsFirstFit(g, files, k + 1, (files[k].hw.blockEnd + 1) * g.blockSize, need);
      } else {
        SearchedBefore(g, files, k, start, need);
      }
    }
  }

  /**
   On a volume with the intended layout, the search answers with a free
   block-aligned place, no lower address has room, and VOLUME_FULL means that no
   place anywhere has.
   */
  lemma {:induction false} FindSpaceIsFirstFit(g: Geometry, files: seq<File>, need: nat)
    requires g.Valid() && Allocated(g, files) && need > 0
    ensures FirstFit(g, files, FindFrom(g, files, 0, 0, need), need)
  {
    forall j | 0 <= j < |files| && files[j].OnDisk()
      ensures 0 <= files[j].hw.blockStart * g.blockSize
    {
      MulMonotone(0, files[j].hw.blockStart, g.blockSize);
    }
    MulMonotone(0, g.blocks, g.blockSize);
    FindFromIsFirstFit(g, files, 0, 0, need);
  }

  // ---------- What a flush does to the layout ----------

  /** Blocks `b .. b + n - 1` are inside the media, after every file on disk listed before `i`, before every later one. */
  ghost predicate Slot(g: Geometry, files: seq<File>, i: nat, b: nat, n: nat)
  {
    && b + n <= g.blocks
    && (forall j :: 0 <= j < |files| && j < i && files[j].OnDisk() ==> files[j].hw.blockEnd < b)
    && (forall j :: i < j < |files| && files[j].OnDisk() ==> b + n <= files[j].hw.blockStart)
  }

  /** A record written by WriteFileDescription for a file that starts at block `b`, nothing truncated. */
  predicate Described(g: Geometry, hw: Description, hwAddress: nat, b: nat)
    requires g.blockSize > 0
  {
    var n := g.BlocksFor(hw.regions[0].size);
    && hw.regionCount == 1
    && hw.blockStart == b
    && hw.blockEnd == b + n - 1
    && hwAddress == TailAddress(g, hw.blockEnd)
  }

  /** Either the record is still the one the flush began with, or it describes at most `reach` bytes from block `b` on. */
  predicate Tracked(g: Geometry, f: File, hw: Description, hwAddress: nat, b: nat, reach: nat)
    requires g.blockSize > 0
  {
    || (hw == f.hw && hwAddress == f.hwAddress)
    || (Described(g, hw, hwAddress, b) && hw.regions[0].size <= reach)
  }

  predicate PlanTracked(g: Geometry, f: File, p: Plan, b: nat, reach: nat)
    requires g.blockSize > 0
  {
    && Tracked(g, f, p.hw, p.hwAddress, b, reach)
    && forall a | a in p.actions :: Tracked(g, f, a.hw, a.hwAddress, b, reach)
  }

  /** The context is that of a file at block `b`, and `reach` bytes of data are within what a description can record. */
  predicate Rooted(c: Context, b: nat, reach: nat)
  {
    && c.geometry.Valid()
    && IsName(c.name)
    && b < c.geometry.blocks
    && c.start == b * c.geometry.blockSize
    && reach + DESCRIPTION_SIZE < TWO_TO_THE_32
  }

  lemma {:induction false} PlanDescriptionDescribes(c: Context, p: Plan, b: nat, dataSize: nat)
    requires Rooted(c, b, dataSize)
    ensures var q := PlanDescription(c, p, dataSize);
            && Described(c.geometry, q.hw, q.hwAddress, b)
            && q.hw.regions[0].size == dataSize
  {
    var g := c.geometry;
    BlocksForBounds(g, dataSize);
    BlockInside(g, b);
    DivisionUnique(c.start, b, 0, g.blockSize);
    RangeUntruncated(g, b, dataSize);
    DescribeRange(p.hw, c.name, dataSize, c.start, g.blockSize);
    DescribeIsImage(p.hw, c.name, dataSize, c.start, g.blockSize);
  }

  lemma {:induction false} RangeUntruncated(g: Geometry, b: nat, dataSize: nat)
    requires g.Valid() && b < g.blocks && dataSize + DESCRIPTION_SIZE < TWO_TO_THE_32
    ensures b + g.BlocksFor(dataSize) < TWO_TO_THE_32
  {
    var n := g.BlocksFor(dataSize) - 1;
    BlocksForBounds(g, dataSize);
    MulMonotone(DESCRIPTION_SIZE, g.blockSize, n);
    MulMonotone(DESCRIPTION_SIZE, g.blockSize, g.blocks);
  }

  lemma {:induction false} PlanDescriptionTracked(c: Context, f: File, p: Plan, b: nat, reach: nat, dataSize: nat)
    requires Rooted(c, b, reach) && PlanTracked(c.geometry, f, p, b, reach) && dataSize <= reach
    ensures PlanTracked(c.geometry, f, PlanDescription(c, p, dataSize), b, reach)
  {
    PlanDescriptionDescribes(c, p, b, dataSize);
  }

  lemma {:induction false} PlanRegionsTracked(c: Context, f: File, rs: seq<Region>, b: nat, reach: nat)
    requires Rooted(c, b, reach)
    requires forall r :: r in rs ==> r.End() <= reach
    ensures PlanTracked(c.geometry, f, PlanRegions(c, StartPlan(f), rs), b, reach)
  {
    if rs != [] {
      var n := |rs| - 1;
      var p0 := StartPlan(f);
      var p, r := PlanRegions(c, p0, rs[..n]), rs[n];
      PlanRegionsTracked(c, f, rs[..n], b, reach);
      if p.status == Success && Appends(r, c.oldSize) && HasSpace(c, p.hw, r.End()) {
        PlanDescriptionTracked(c, f, AppendBase(c, p, r), b, reach, r.End());
      }
    }
  }

  /** The largest data size any step of the flush can record: the file's size and the ends of its buffered regions. */
  function Reach(size: nat, rs: seq<Region>): (n: nat)
    ensures size <= n
    ensures forall r :: r in rs ==> r.End() <= n
    ensures (forall r :: r in rs ==> r.End() <= size) ==> n == size
  {
    if rs == [] then size
    else
      var m := Reach(size, rs[..|rs| - 1]);
      if rs[|rs| - 1].End() > m then rs[|rs| - 1].End() else m
  }

  lemma {:induction false} FlushPlanTracked(c: Context, f: File, b: nat)
    requires f.info.Some?
    requires Rooted(c, b, Reach(f.info.value.size, f.regions))
    ensures PlanTracked(c.geometry, f, FlushPlan(c, f), b, Reach(f.info.value.size, f.regions))
  {
    var reach := Reach(f.info.value.size, f.regions);
    PlanRegionsTracked(c, f, f.regions, b, reach);
    PlanDescriptionTracked(c, f, RegionsPlan(c, f), b, reach, f.info.value.size);
  }

  lemma {:induction false} TailInside(g: Geometry, blockEnd: word)
    requires g.Valid() && blockEnd < g.blocks
    ensures TailAddress(g, blockEnd) == (blockEnd + 1) * g.blockSize - DESCRIPTION_SIZE
    ensures blockEnd * g.blockSize <= TailAddress(g, blockEnd) <= g.Size() - DESCRIPTION_SIZE
  {
    BlockInside(g, blockEnd);
    SumTimes(blockEnd, 1, g.blockSize);
    MulMonotone(0, blockEnd, g.blockSize);
    assert ToWord(blockEnd + 1) == blockEnd + 1;
  }

  lemma {:induction false} DescribedIsRecordOk(g: Geometry, f: File, b: nat)
    requires g.Valid() && Described(g, f.hw, f.hwAddress, b) && f.hw.blockEnd < g.blocks
    ensures RecordOk(g, f)
  {
    BlocksForBounds(g, f.DataSize());
    TailInside(g, f.hw.blockEnd);
  }

  /** Replacing a record by one described inside its slot keeps the layout. */
  lemma {:induction false} ReplaceRecord(g: Geometry, files: seq<File>, i: nat, f: File, b: nat, n: nat)
    requires g.Valid() && Allocated(g, files) && i < |files|
    requires Slot(g, files, i, b, n)
    requires Described(g, f.hw, f.hwAddress, b) && g.BlocksFor(f.DataSize()) <= n
    ensures Allocated(g, files[i := f])
  {
    DescribedIsRecordOk(g, f, b);
  }

  lemma {:induction false} SameRecord(g: Geometry, files: seq<File>, i: nat, f: File)
    requires Allocated(g, files) && i < |files|
    requires f.hw == files[i].hw && f.hwAddress == files[i].hwAddress
    ensures Allocated(g, files[i := f])
  {
  }

  // ---------- Relinking ----------

  /** The index in the old list of the entry now at index `x`. */
  function Origin(i: nat, k: nat, x: nat): nat
    requires i != k
  {
    if i < k then
      if x < i || k <= x then x else if x == k - 1 then i else x + 1
    else
      if x < k || i < x then x else if x == k then i else x - 1
  }

  lemma {:induction false} RelinkIsOrigin<T>(s: seq<T>, i: nat, k: nat, x: nat)
    requires i < |s| && k < |s| && i != k && x < |s|
    ensures Origin(i, k, x) < |s| && Relink(s, i, k)[x] == s[Origin(i, k, x)]
  {
  }

  /** Moving an entry that is not on disk leaves the files on disk in the same order. */
  lemma {:induction false} RelinkKeepsLayout(g: Geometry, files: seq<File>, i: nat, k: nat)
    requires Allocated(g, files) && i < |files| && k < |files| && i != k && !files[i].OnDisk()
    ensures Allocated(g, Relink(files, i, k))
  {
    var r := Relink(files, i, k);
    forall x | 0 <= x < |r|
      ensures r[x].OnDisk() ==> RecordOk(g, r[x])
      ensures !r[x].OnDisk() ==> r[x].hw == NO_DESCRIPTION && r[x].hwAddress == 0
    {
      RelinkIsOrigin(files, i, k, x);
    }
    forall x, y | 0 <= x < y < |r| && r[x].OnDisk() && r[y].OnDisk()
      ensures r[x].hw.blockEnd < r[y].hw.blockStart
    {
      RelinkIsOrigin(files, i, k, x);
      RelinkIsOrigin(files, i, k, y);
      assert Origin(i, k, x) < Origin(i, k, y);
    }
  }

  lemma {:induction false} PlaceKeepsLayout(g: Geometry, files: seq<File>, i: nat)
    requires g.Valid() && Allocated(g, files) && i < |files| && files[i].info.Some?
    ensures var p := Place(g, files, i);
            p.Placed? ==> Allocated(g, p.files) && p.start % g.blockSize == 0
  {
    var need := files[i].info.value.size + DESCRIPTION_SIZE;
    if files[i].OnDisk() {
      DivisionUnique(files[i].hw.blockStart * g.blockSize, files[i].hw.blockStart, 0, g.blockSize);
    } else {
      FindSpaceIsFirstFit(g, files, need);
      var p := FindFrom(g, files, 0, 0, need);
      if p.Before? {
        RelinkKeepsLayout(g, files, i, p.index);
      }
    }
  }

  // ---------- Exactly which flushes keep the layout ----------

  /** The flush will write a description: the name or size differs from the one on disk, or a region reaches the old end. */
  predicate Rewrites(f: File)
    requires f.info.Some?
  {
    || NameOf(f.hw.filename) != f.info.value.name
    || f.DataSize() != f.info.value.size
    || exists r | r in f.regions :: r.data != [] && r.End() >= f.DataSize()
  }

  /** Every buffered region ends within the file's size. */
  predicate RegionsWithin(f: File)
  {
    f.info.Some? ==> forall r | r in f.regions :: r.End() <= f.info.value.size
  }

  /** The rounded-up extent of `size` bytes has room where the code is going to put the file. */
  ghost predicate RoomFor(g: Geometry, files: seq<File>, i: nat, size: nat)
    requires g.Valid() && i < |files| && files[i].info.Some?
  {
    match Place(g, files, i)
    case Unplaced => true
    case Placed(fs, j, start) => Slot(g, fs, j, start / g.blockSize, g.BlocksFor(size))
  }

  lemma {:induction false} RegionsFinalRecord(c: Context, f: File, rs: seq<Region>, b: nat, reach: nat)
    requires Rooted(c, b, reach)
    requires forall r :: r in rs ==> r.End() <= reach
    requires c.oldSize == f.DataSize()
    ensures var p := PlanRegions(c, StartPlan(f), rs);
            p.status == Success ==>
              if exists r :: r in rs && r.data != [] && r.End() >= c.oldSize
              then Described(c.geometry, p.hw, p.hwAddress, b) && NameOf(p.hw.filename) == c.name
              else p.hw == f.hw && p.hwAddress == f.hwAddress
  {
    if rs != [] {
      var n := |rs| - 1;
      var p, r := PlanRegions(c, StartPlan(f), rs[..n]), rs[n];
      RegionsFinalRecord(c, f, rs[..n], b, reach);
      assert forall x :: x in rs <==> x in rs[..n] || x == r;
      if p.status == Success && Appends(r, c.oldSize) && HasSpace(c, p.hw, r.End()) {
        var q := AppendBase(c, p, r);
        PlanDescriptionDescribes(c, q, b, r.End());
        DescribeIsImage(q.hw, c.name, r.End(), c.start, c.geometry.blockSize);
        assert r in rs;
      }
    }
  }

  lemma {:induction false} FinalRecord(c: Context, f: File, b: nat)
    requires f.info.Some? && RegionsWithin(f)
    requires Rooted(c, b, f.info.value.size)
    requires c.oldSize == f.DataSize() && c.name == f.info.value.name
    ensures var p := FlushPlan(c, f);
            p.status == Success ==>
              if Rewrites(f) then Described(c.geometry, p.hw, p.hwAddress, b) && p.hw.regions[0].size == f.info.value.size
              else p.hw == f.hw && p.hwAddress == f.hwAddress
  {
    var n := f.info.value.size;
    var p := RegionsPlan(c, f);
    RegionsFinalRecord(c, f, f.regions, b, n);
    if p.status == Success {
      PlanDescriptionDescribes(c, p, b, n);
    }
  }

  lemma {:induction false} BlockOfAddress(g: Geometry, a: nat)
    requires g.Valid() && a % g.blockSize == 0 && a < g.Size()
    ensures a / g.blockSize >= 0 && a == a / g.blockSize * g.blockSize && a / g.blockSize < g.blocks
  {
    DivNonNegative(a, g.blockSize);
    MulStrict(a / g.blockSize, g.blocks, g.blockSize);
  }

  /** A placed file starts at a block inside the media. */
  lemma {:induction false} PlaceRooted(g: Geometry, files: seq<File>, i: nat)
    requires g.Valid() && Allocated(g, files) && i < |files| && files[i].info.Some?
    ensures var p := Place(g, files, i);
            p.Placed? ==> p.start / g.blockSize >= 0 && p.start == p.start / g.blockSize * g.blockSize && p.start / g.blockSize < g.blocks
  {
    PlaceKeepsLayout(g, files, i);
    var p := Place(g, files, i);
    if p.Placed? {
      if files[i].OnDisk() {
        BlockInside(g, files[i].hw.blockStart);
      } else {
        FindSpaceIsFirstFit(g, files, files[i].info.value.size + DESCRIPTION_SIZE);
      }
      BlockOfAddress(g, p.start);
    }
  }

  lemma {:induction false} ReplaceExactly(g: Geometry, files: seq<File>, i: nat, f: File, b: nat)
    requires g.Valid() && Allocated(g, files) && i < |files|
    requires Described(g, f.hw, f.hwAddress, b)
    ensures Allocated(g, files[i := f]) <==> Slot(g, files, i, b, g.BlocksFor(f.DataSize()))
  {
    var n := g.BlocksFor(f.DataSize());
    if Slot(g, files, i, b, n) {
      ReplaceRecord(g, files, i, f, b, n);
    }
    if Allocated(g, files[i := f]) {
      var files' := files[i := f];
      assert forall j :: 0 <= j < |files| && j != i ==> files'[j] == files[j];
      assert files'[i] == f;
    }
  }

  /**
   For every volume with the intended layout: after a flush that reports success
   the layout holds if and only if the flush wrote no description or the file's
   rounded-up extent had room at the place the code chose.
   */
  lemma {:induction false} FlushKeepsLayoutExactly(s: State, i: nat, s': State, j: nat, done: nat)
    requires Flushable(s, i) && Allocated(s.geometry, s.files)
    requires FlushStep(s, i, Success, s', j, done)
    requires RegionsWithin(s.files[i]) && s.files[i].info.value.size + DESCRIPTION_SIZE < TWO_TO_THE_32
    ensures Allocated(s'.geometry, s'.files) <==>
            (Rewrites(s.files[i]) ==> RoomFor(s.geometry, s.files, i, s.files[i].info.value.size))
  {
    var g, f := s.geometry, s.files[i];
    var n := f.info.value.size;
    PlaceKeepsLayout(g, s.files, i);
    PlaceRooted(g, s.files, i);
    var Placed(files, index, start) := Place(g, s.files, i);
    var b := start / g.blockSize;
    var c := ContextFor(g, files, index, start);
    FinalRecord(c, f, b);
    var f' := s'.files[index];
    if !Rewrites(f) {
      SameRecord(g, files, index, f');
    } else {
      ReplaceExactly(g, files, index, f', b);
    }
  }

  /**
   With room for everything the buffer reaches, every outcome keeps the layout:
   success, a full volume, or a device error at any write.
   */
  lemma {:induction false} FlushWithRoomKeepsLayout(s: State, i: nat, status: Status, s': State, j: nat, done: nat)
    requires Flushable(s, i) && Allocated(s.geometry, s.files)
    requires FlushStep(s, i, status, s', j, done)
    requires s.files[i].info.Some? ==>
      RoomFor(s.geometry, s.files, i, Reach(s.files[i].info.value.size, s.files[i].regions))
    ensures Allocated(s'.geometry, s'.files)
  {
    var g, f := s.geometry, s.files[i];
    if f.info.Some? && f.mode == ReadWrite && Place(g, s.files, i).Placed? {
      PlaceKeepsLayout(g, s.files, i);
      PlaceRooted(g, s.files, i);
      var Placed(files, index, start) := Place(g, s.files, i);
      var b := start / g.blockSize;
      var c := ContextFor(g, files, index, start);
      var reach := Reach(f.info.value.size, f.regions);
      BlocksForBounds(g, reach);
      MulMonotone(g.BlocksFor(reach), g.blocks, g.blockSize);
      FlushPlanTracked(c, f, b);
      var f' := s'.files[index];
      assert Tracked(g, f, f'.hw, f'.hwAddress, b, reach);
      if f'.hw == f.hw && f'.hwAddress == f.hwAddress {
        SameRecord(g, files, index, f');
      } else {
        BlocksForMonotone(g, f'.DataSize(), reach);
        ReplaceRecord(g, files, index, f', b, g.BlocksFor(reach));
      }
    }
  }
}
