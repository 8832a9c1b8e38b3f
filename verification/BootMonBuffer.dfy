/**
 The write-back buffer of an open file: buffered regions laid over flash behave as
 one plain byte file with a position.
 */
module BootMonBuffer {
  import opened Bytes
  import opened Options
  import opened ByteStore
  import opened BootMonImage
  import opened BootMonVolume
  import opened BootMonAllocation
  import opened BootMonFlush
  import opened BootMonMount

  const END_OF_FILE: nat := 0xFFFF_FFFF_FFFF_FFFF

  // ---------- Operations on the file record ----------

  /** BootMonFsWriteFile: queue the data and move on. */
  function WriteFile(f: File, data: seq<byte>): File
    requires f.info.Some?
  {
    var position := f.position + |data|;
    f.(regions := f.regions + [Region(f.position, data)],
       position := position,
       info := Some(f.info.value.(size := if position > f.info.value.size then position else f.info.value.size)))
  }

  /** BootMonFsSetPosition: the all-ones position means the end of the file. */
  function SetPosition(f: File, position: nat): File
    requires f.info.Some?
  {
    f.(position := if position == END_OF_FILE then f.info.value.size else position)
  }

  /** A buffered region cut down to a smaller file size. */
  function TrimRegion(r: Region, size: nat): Region
    requires r.offset <= size
  {
    if r.End() <= size then r else Region(r.offset, r.data[..size - r.offset])
  }

  function TrimRegions(rs: seq<Region>, size: nat): seq<Region>
  {
    if rs == [] then []
    else
      var n := |rs| - 1;
      if rs[n].offset > size then TrimRegions(rs[..n], size) else TrimRegions(rs[..n], size) + [TrimRegion(rs[n], size)]
  }

  /** SetFileSize; the old size passes through a UINT32. */
  function SetFileSize(f: File, size: nat): File
    requires f.info.Some?
  {
    var oldSize := ToWord(f.info.value.size);
    var g := if size < oldSize then f.(regions := TrimRegions(f.regions, size))
             else if size > oldSize then SetPosition(WriteFile(SetPosition(f, oldSize), Zeros(size - oldSize)), f.position)
             else f;
    g.(info := Some(g.info.value.(size := size)))
  }

  // ---------- The plain byte file ----------

  /** The bytes of a file, as far as they are defined, and the position in it. */
  datatype PlainFile = PlainFile(bytes: seq<Option<byte>>, position: nat)

  function Padded(bytes: seq<Option<byte>>, size: nat): (r: seq<Option<byte>>)
    ensures |r| == if |bytes| >= size then |bytes| else size
  {
    if |bytes| >= size then bytes else bytes + seq(size - |bytes|, _ => None)
  }

  function PlainWrite(p: PlainFile, data: seq<byte>): PlainFile
  {
    var bytes := Padded(p.bytes, p.position + |data|);
    PlainFile(seq(|bytes|, k requires 0 <= k < |bytes| =>
                if p.position <= k < p.position + |data| then Some(data[k - p.position]) else bytes[k]),
              p.position + |data|)
  }

  function PlainSeek(p: PlainFile, position: nat): PlainFile
  {
    p.(position := if position == END_OF_FILE then |p.bytes| else position)
  }

  /** Cut off, or extended with zeros; the position stays. */
  function PlainResize(p: PlainFile, size: nat): PlainFile
  {
    p.(bytes := if size <= |p.bytes| then p.bytes[..size] else p.bytes + seq(size - |p.bytes|, _ => Some(0)))
  }

  // ---------- Refinement ----------

  function StartOf(g: Geometry, f: File): nat
  {
    if f.OnDisk() then f.hw.blockStart * g.blockSize else 0
  }

  /** The old data of the file lies inside the media. */
  predicate DataInside(g: Geometry, m: seq<byte>, f: File)
  {
    StartOf(g, f) + f.DataSize() <= |m|
  }

  /** Every defined byte of the plain file is the one that the buffer over flash shows; sizes and positions agree. */
  ghost predicate Refines(g: Geometry, m: seq<byte>, f: File, p: PlainFile)
  {
    && f.info.Some? && DataInside(g, m, f) && RegionsWithin(f)
    && f.info.value.size == |p.bytes|
    && f.position == p.position
    && forall k :: 0 <= k < |p.bytes| && p.bytes[k].Some? ==>
         Expected(m, StartOf(g, f), f.DataSize(), f.regions, k) == p.bytes[k]
  }

  /** Byte `k` of the buffer laid over `base`. */
  function Overlay(rs: seq<Region>, base: Option<byte>, k: nat): Option<byte>
  {
    if rs == [] then base
    else
      var r := rs[|rs| - 1];
      if RegionCovers(r, k) then Some(r.data[k - r.offset]) else Overlay(rs[..|rs| - 1], base, k)
  }

  function Base(m: seq<byte>, start: nat, oldSize: nat, k: nat): Option<byte>
    requires start + oldSize <= |m|
  {
    if k < oldSize then Some(m[start + k]) else None
  }

  lemma {:induction false} ExpectedIsOverlay(m: seq<byte>, start: nat, oldSize: nat, rs: seq<Region>, k: nat)
    requires start + oldSize <= |m|
    ensures Expected(m, start, oldSize, rs, k) == Overlay(rs, Base(m, start, oldSize, k), k)
  {
    if rs != [] {
      var n := |rs| - 1;
      ExpectedIsOverlay(m, start, oldSize, rs[..n], k);
      LastRegionSplit(rs, k);
    }
  }

  lemma {:induction false} LastRegionSplit(rs: seq<Region>, k: nat)
    requires rs != []
    ensures LastRegion(rs, k) == if RegionCovers(rs[|rs| - 1], k) then |rs| - 1 else LastRegion(rs[..|rs| - 1], k)
  {
  }

  lemma {:induction false} OverlaySnoc(rs: seq<Region>, r: Region, base: Option<byte>, k: nat)
    ensures Overlay(rs + [r], base, k) == if RegionCovers(r, k) then Some(r.data[k - r.offset]) else Overlay(rs, base, k)
  {
    assert (rs + [r])[..|rs|] == rs;
  }

  lemma {:induction false} ExpectedSnoc(m: seq<byte>, start: nat, oldSize: nat, rs: seq<Region>, r: Region, k: nat)
    requires start + oldSize <= |m|
    ensures Expected(m, start, oldSize, rs + [r], k) ==
            if RegionCovers(r, k) then Some(r.data[k - r.offset]) else Expected(m, start, oldSize, rs, k)
  {
    ExpectedIsOverlay(m, start, oldSize, rs, k);
    ExpectedIsOverlay(m, start, oldSize, rs + [r], k);
    OverlaySnoc(rs, r, Base(m, start, oldSize, k), k);
  }

  lemma {:induction false} WriteRefines(g: Geometry, m: seq<byte>, f: File, p: PlainFile, data: seq<byte>)
    requires Refines(g, m, f, p)
    ensures Refines(g, m, WriteFile(f, data), PlainWrite(p, data))
  {
    var f', p' := WriteFile(f, data), PlainWrite(p, data);
    forall k | 0 <= k < |p'.bytes| && p'.bytes[k].Some?
      ensures Expected(m, StartOf(g, f'), f'.DataSize(), f'.regions, k) == p'.bytes[k]
    {
      ExpectedSnoc(m, StartOf(g, f), f.DataSize(), f.regions, Region(f.position, data), k);
    }
  }

  lemma {:induction false} SeekRefines(g: Geometry, m: seq<byte>, f: File, p: PlainFile, position: nat)
    requires Refines(g, m, f, p)
    ensures Refines(g, m, SetPosition(f, position), PlainSeek(p, position))
  {
  }

  lemma {:induction false} TrimKeepsOverlay(rs: seq<Region>, size: nat, base: Option<byte>, k: nat)
    requires k < size
    ensures Overlay(TrimRegions(rs, size), base, k) == Overlay(rs, base, k)
  {
    if rs != [] {
      var n := |rs| - 1;
      TrimKeepsOverlay(rs[..n], size, base, k);
      if rs[n].offset <= size {
        OverlaySnoc(TrimRegions(rs[..n], size), TrimRegion(rs[n], size), base, k);
      }
    }
  }

  lemma {:induction false} TrimKeepsExpected(m: seq<byte>, start: nat, oldSize: nat, rs: seq<Region>, size: nat, k: nat)
    requires start + oldSize <= |m| && k < size
    ensures Expected(m, start, oldSize, TrimRegions(rs, size), k) == Expected(m, start, oldSize, rs, k)
  {
    ExpectedIsOverlay(m, start, oldSize, rs, k);
    ExpectedIsOverlay(m, start, oldSize, TrimRegions(rs, size), k);
    TrimKeepsOverlay(rs, size, Base(m, start, oldSize, k), k);
  }

  lemma {:induction false} TrimStaysWithin(rs: seq<Region>, size: nat)
    ensures forall r :: r in TrimRegions(rs, size) ==> r.End() <= size
  {
    if rs != [] {
      TrimStaysWithin(rs[..|rs| - 1], size);
    }
  }

  lemma {:induction false} ShrinkRefines(g: Geometry, m: seq<byte>, f: File, p: PlainFile, size: nat)
    requires Refines(g, m, f, p) && size < |p.bytes|
    ensures Refines(g, m, f.(regions := TrimRegions(f.regions, size), info := Some(f.info.value.(size := size))), PlainResize(p, size))
  {
    hide Expected, TrimRegions;
    TrimStaysWithin(f.regions, size);
    forall k | 0 <= k < size && p.bytes[k].Some?
      ensures Expected(m, StartOf(g, f), f.DataSize(), TrimRegions(f.regions, size), k) == p.bytes[k]
    {
      TrimKeepsExpected(m, StartOf(g, f), f.DataSize(), f.regions, size, k);
    }
  }

  lemma {:induction false} GrowRefines(g: Geometry, m: seq<byte>, f: File, p: PlainFile, size: nat)
    requires Refines(g, m, f, p) && |p.bytes| < size && |p.bytes| != END_OF_FILE && (p.position != END_OF_FILE || size == END_OF_FILE)
    ensures Refines(g, m, SetPosition(WriteFile(SetPosition(f, |p.bytes|), Zeros(size - |p.bytes|)), f.position), PlainResize(p, size))
  {
    var q, zeros := PlainSeek(p, |p.bytes|), Zeros(size - |p.bytes|);
    SeekRefines(g, m, f, p, |p.bytes|);
    WriteRefines(g, m, SetPosition(f, |p.bytes|), q, zeros);
    SeekRefines(g, m, WriteFile(SetPosition(f, |p.bytes|), zeros), PlainWrite(q, zeros), p.position);
    hide Refines;
    assert PlainSeek(PlainWrite(q, zeros), p.position) == PlainResize(p, size);
  }

  /**
   Changing the size from `current` with the position at `position`: cuts below the current size's
   32 bits always work; otherwise the file is below 4 GiB, and its position is not one
   that the seek back after a growth takes for the end of the file.
   */
  predicate ResizesWell(current: nat, position: nat, size: nat)
  {
    || size < ToWord(current)
    || (current < TWO_TO_THE_32 && (position != END_OF_FILE || size <= current || size == END_OF_FILE))
  }

  /** Resizing keeps the position, cuts or zero-extends. */
  lemma {:induction false} ResizeRefines(g: Geometry, m: seq<byte>, f: File, p: PlainFile, size: nat)
    requires Refines(g, m, f, p) && ResizesWell(|p.bytes|, p.position, size)
    ensures Refines(g, m, SetFileSize(f, size), PlainResize(p, size))
  {
    hide Refines, TrimRegions, PlainResize;
    SameSizes(g, m, f, p);
    WordOfSize(|p.bytes|);
    if size < ToWord(|p.bytes|) {
      ShrinkRefines(g, m, f, p, size);
    } else if size > |p.bytes| {
      GrowRefines(g, m, f, p, size);
      var r := SetPosition(WriteFile(SetPosition(f, |p.bytes|), Zeros(size - |p.bytes|)), f.position);
      ResizedSize(p, size);
      SameSizes(g, m, r, PlainResize(p, size));
      assert SetFileSize(f, size) == r;
    } else {
      ResizedSize(p, size);
      assert SetFileSize(f, size) == f;
    }
  }

  lemma {:induction false} WordOfSize(n: nat)
    ensures ToWord(n) <= n && (n < TWO_TO_THE_32 ==> ToWord(n) == n) && (TWO_TO_THE_32 <= n ==> ToWord(n) < n)
  {
  }

  /** A file that resizing spoils: 4 GiB or more, with its last byte buffered. */
  lemma {:induction false} LongFileSpoiled(g: Geometry, m: seq<byte>, current: nat, position: nat, size: nat) returns (f: File, p: PlainFile)
    requires TWO_TO_THE_32 <= current && ToWord(current) <= size
    ensures Refines(g, m, f, p) && |p.bytes| == current && p.position == position
    ensures !Refines(g, m, SetFileSize(f, size), PlainResize(p, size))
  {
    WordOfSize(current);
    var last := Region(current - 1, [1]);
    f := NEW_FILE.(info := Some(Info([], current)), position := position, regions := [last]);
    p := PlainFile(seq(current - 1, _ => None) + [Some(1)], position);
    ExpectedSnoc(m, 0, 0, [], last, current - 1);
    assert [] + [last] == [last];
    var f', p' := SetFileSize(f, size), PlainResize(p, size);
    if size < current {
      assert last in f'.regions;
    } else {
      var zeros := Region(ToWord(current), Zeros(size - ToWord(current)));
      assert f'.regions == [last] + [zeros];
      ExpectedSnoc(m, 0, 0, [last], zeros, current - 1);
      assert p'.bytes[current - 1] == Some(1);
    }
  }

  /** And one whose position is taken for the end of the file. */
  lemma {:induction false} SoughtFileSpoiled(g: Geometry, m: seq<byte>, current: nat, size: nat) returns (f: File, p: PlainFile)
    requires current < TWO_TO_THE_32 && current < size && size != END_OF_FILE
    ensures Refines(g, m, f, p) && |p.bytes| == current && p.position == END_OF_FILE
    ensures !Refines(g, m, SetFileSize(f, size), PlainResize(p, size))
  {
    WordOfSize(current);
    f := NEW_FILE.(info := Some(Info([], current)), position := END_OF_FILE);
    p := PlainFile(seq(current, _ => None), END_OF_FILE);
    assert SetFileSize(f, size).position == size;
  }

  /** Whatever the file holds, changing its size does what it does to a plain file exactly under that condition. */
  lemma {:induction false} ResizeRefinesExactly(g: Geometry, m: seq<byte>, current: nat, position: nat, size: nat)
    ensures (forall f: File, p: PlainFile :: Refines(g, m, f, p) && |p.bytes| == current && p.position == position ==>
               f.info.Some? && Refines(g, m, SetFileSize(f, size), PlainResize(p, size)))
            <==> ResizesWell(current, position, size)
  {
    hide Refines, PlainResize, SetFileSize;
    WordOfSize(current);
    if ResizesWell(current, position, size) {
      forall f: File, p: PlainFile | Refines(g, m, f, p) && |p.bytes| == current && p.position == position
        ensures f.info.Some? && Refines(g, m, SetFileSize(f, size), PlainResize(p, size))
      {
        SameSizes(g, m, f, p);
        ResizeRefines(g, m, f, p, size);
      }
    } else if TWO_TO_THE_32 <= current {
      var f, p := LongFileSpoiled(g, m, current, position, size);
    } else {
      var f, p := SoughtFileSpoiled(g, m, current, size);
    }
  }

  lemma {:induction false} ResizedSize(p: PlainFile, size: nat)
    ensures |PlainResize(p, size).bytes| == size
    ensures size == |p.bytes| ==> PlainResize(p, size) == p
  {
  }

  lemma {:induction false} SameSizes(g: Geometry, m: seq<byte>, f: File, p: PlainFile)
    requires Refines(g, m, f, p)
    ensures f.info.Some? && f.info.value.size == |p.bytes| && f.position == p.position
  {
  }

  /** At 4 GiB and a bit, truncating to a size between the two readings of the old size grows the buffer instead. */
  lemma {:induction false} ResizeLosesHighBits(f: File, size: nat)
    requires f.info.Some? && f.info.value.size == TWO_TO_THE_32 + 5 && size == 10
    ensures SetFileSize(f, size).regions == f.regions + [Region(5, Zeros(5))]
  {
  }

  /** Bytes expected of a file do not depend on where it starts while nothing of it is on disk. */
  lemma {:induction false} ExpectedFromStart(g: Geometry, m: seq<byte>, c: Context, f: File, k: nat)
    requires c.start + f.DataSize() <= |m| && DataInside(g, m, f)
    requires f.OnDisk() ==> c.start == StartOf(g, f)
    requires !f.OnDisk() ==> f.DataSize() == 0
    ensures Expected(m, c.start, f.DataSize(), f.regions, k) == Expected(m, StartOf(g, f), f.DataSize(), f.regions, k)
  {
  }

  /** After a successful flush the record gives the file's size, and its start is where the flush put it. */
  lemma {:induction false} FlushedRecord(s: State, i: nat, s': State, j: nat, done: nat) returns (c: Context, b: nat)
    requires Flushable(s, i) && Allocated(s.geometry, s.files)
    requires FlushStep(s, i, Success, s', j, done)
    requires RegionsWithin(s.files[i]) && s.files[i].info.value.size + DESCRIPTION_SIZE < TWO_TO_THE_32
    ensures c.geometry == s.geometry && c.oldSize == s.files[i].DataSize() && Flushed(c, s.files[i], b, s.media)
    ensures s'.media == After(s.media, FlushPlan(c, s.files[i])) && j < |s'.files|
    ensures s'.files[j] == s.files[i].(hw := s'.files[j].hw, hwAddress := s'.files[j].hwAddress, regions := [])
    ensures s'.files[j].DataSize() == s.files[i].info.value.size
    ensures s'.files[j].OnDisk() ==> StartOf(s.geometry, s'.files[j]) == c.start
    ensures s.files[i].OnDisk() ==> StartOf(s.geometry, s.files[i]) == c.start
    ensures !s.files[i].OnDisk() ==> s.files[i].DataSize() == 0
  {
    c, b := SuccessIsFlushed(s, i, s', j, done);
    FinalRecord(c, s.files[i], b);
    PlaceStart(s.geometry, s.files, i);
  }

  /**
   A flush that reports success, and lands no description on live data, leaves flash
   alone to show the plain file: nothing is buffered any more.
   */
  lemma {:induction false} FlushRefines(s: State, i: nat, s': State, j: nat, done: nat, p: PlainFile)
    requires Flushable(s, i) && Allocated(s.geometry, s.files)
    requires FlushStep(s, i, Success, s', j, done)
    requires Refines(s.geometry, s.media, s.files[i], p) && |p.bytes| + DESCRIPTION_SIZE < TWO_TO_THE_32
    requires forall k: nat :: k < |p.bytes| ==> !Clobbered(s.geometry, s.files[i].DataSize(), s.files[i].regions, k)
    requires Allocated(s'.geometry, s'.files)
    ensures j < |s'.files| && s'.files[j].regions == []
    ensures s'.files[j].OnDisk() ==> Refines(s'.geometry, s'.media, s'.files[j], p)
  {
    var g, f := s.geometry, s.files[i];
    var c, b := FlushedRecord(s, i, s', j, done);
    UnclobberedIsFaithful(c, f, b, s.media);
    if s'.files[j].OnDisk() {
      RecordInside(g, s'.files[j]);
      FaithfulRefines(g, c, f, b, s.media, s'.files[j], p);
    }
  }

  lemma {:induction false} FaithfulRefines(g: Geometry, c: Context, f: File, b: nat, m: seq<byte>, f': File, p: PlainFile)
    requires Refines(g, m, f, p) && Faithful(c, f, b, m) && c.oldSize == f.DataSize()
    requires f.OnDisk() ==> c.start == StartOf(g, f)
    requires !f.OnDisk() ==> f.DataSize() == 0
    requires f' == f.(hw := f'.hw, hwAddress := f'.hwAddress, regions := [])
    requires f'.DataSize() == f.info.value.size && StartOf(g, f') == c.start && DataInside(g, m, f')
    ensures Refines(g, After(m, FlushPlan(c, f)), f', p)
  {
    hide FlushPlan;
    var m' := After(m, FlushPlan(c, f));
    forall k | 0 <= k < |p.bytes| && p.bytes[k].Some?
      ensures Expected(m', StartOf(g, f'), f'.DataSize(), [], k) == p.bytes[k]
    {
      ExpectedFromStart(g, m, c, f, k);
      assert Expected(m, c.start, c.oldSize, f.regions, k) == p.bytes[k];
    }
  }

  lemma {:induction false} RecordInside(g: Geometry, f: File)
    requires g.Valid() && RecordOk(g, f)
    ensures f.hw.blockStart * g.blockSize + f.DataSize() + DESCRIPTION_SIZE <= g.Size()
  {
    SumTimes(f.hw.blockStart, f.hw.blockEnd - f.hw.blockStart + 1, g.blockSize);
    MulMonotone(f.hw.blockEnd + 1, g.blocks, g.blockSize);
  }

  /** Bytes read agree with the defined ones. */
  ghost predicate Shows(data: seq<byte>, bytes: seq<Option<byte>>)
  {
    |data| == |bytes| && forall k :: 0 <= k < |data| && bytes[k].Some? ==> data[k] == bytes[k].value
  }

  /** What a read after that flush returns: the plain file's bytes from the position on, up to the request or the end. */
  lemma {:induction false} ReadRefines(g: Geometry, m: seq<byte>, f: File, p: PlainFile, n: nat)
    requires Refines(g, m, f, p) && f.regions == [] && f.DataSize() == f.info.value.size
    requires p.position + n <= |p.bytes|
    ensures var at := StartOf(g, f) + f.position;
            at + n <= |m| && Shows(m[at..at + n], p.bytes[p.position..p.position + n])
  {
    var at, wanted := StartOf(g, f) + f.position, p.bytes[p.position..p.position + n];
    forall k | 0 <= k < n && wanted[k].Some?
      ensures m[at..at + n][k] == wanted[k].value
    {
      assert Expected(m, StartOf(g, f), f.DataSize(), [], p.position + k) == p.bytes[p.position + k];
    }
  }
}
