/**
 Reads ignore the status of the flush they make. When a file's bytes are read back right,
 whatever is buffered, is decided by that flush finding a place and space; what a read
 gives otherwise is not the file.
 */
module BootMonReads {
  import opened Bytes
  import opened Options
  import opened ByteStore
  import opened BootMonImage
  import opened BootMonVolume
  import opened BootMonAllocation
  import opened BootMonFlush
  import opened BootMonMount
  import opened BootMonBuffer
  import opened BootMonRetained
  import opened BootMonOperations
  import opened BootMonRuns
  import opened BootMonNames
  import opened BootMonDurability
  import opened BootMonStale
  import opened BootMonSession

  // ---------- A file that finds no place ----------

  /**
   A writable file that was never flushed and finds no place is read from block 0 of the
   media, whosever that is, and the read reports success.
   */
  lemma {:induction false} UnplacedReadsBlockZero(s: State, i: nat, n: nat, o: Outcome, status: Status, data: seq<byte>, s': State)
    requires Flushable(s, i) && s.files[i].info.Some? && s.files[i].mode == ReadWrite && s.files[i].hw == NO_DESCRIPTION
    requires Place(s.geometry, s.files, i).Unplaced? && ReadStep(s, i, n, o, status, data, s') && status == Success
    ensures o.flushed == VolumeFull
    ensures var f := s.files[i];
            f.position < f.info.value.size ==>
              f.position + ReadLength(f, n) <= |s.media| && data == s.media[f.position..f.position + ReadLength(f, n)]
  {
    hide Place;
    var t, ok :| FlushStep(s, i, o.flushed, t, o.index, o.done) && ReadAfter(t, o.index, n, ok, status, data, s');
  }

  // ---------- The same file with other contents ----------

  /** The record with other data of the same shape buffered, at some position. */
  ghost predicate Variant(f: File, v: File)
  {
    v == f.(regions := v.regions, position := v.position) && SameShape(f.regions, v.regions)
  }

  lemma {:induction false} VariantFind(g: Geometry, files: seq<File>, i: nat, v: File, k: nat, start: nat, need: nat)
    requires i < |files| && v.hw == files[i].hw && k <= |files|
    ensures FindFrom(g, files[i := v], k, start, need) == FindFrom(g, files, k, start, need)
    decreases |files| - k
  {
    if k < |files| {
      VariantFind(g, files, i, v, k + 1, start, need);
      VariantFind(g, files, i, v, k + 1, ToWord(files[k].hw.blockEnd + 1) * g.blockSize, need);
    }
  }

  lemma {:induction false} VariantRelink(files: seq<File>, i: nat, k: nat, v: File)
    requires i < |files| && k < |files| && i != k
    ensures Relink(files[i := v], i, k) == Relink(files, i, k)[RelinkedIndex(i, k) := v]
  {
  }

  /** A variant is placed where the file is. */
  lemma {:induction false} VariantPlace(g: Geometry, files: seq<File>, i: nat, v: File)
    requires i < |files| && files[i].info.Some? && Variant(files[i], v)
    ensures var p, q := Place(g, files, i), Place(g, files[i := v], i);
            && p.Placed? == q.Placed?
            && (p.Placed? ==> q == Placed(p.files[p.index := v], p.index, p.start))
    ensures var p := Place(g, files, i);
            p.Placed? ==> ContextFor(g, p.files[p.index := v], p.index, p.start) == ContextFor(g, p.files, p.index, p.start)
  {
    hide FindFrom, Relink, SameShape;
    var need := files[i].info.value.size + DESCRIPTION_SIZE;
    VariantFind(g, files, i, v, 0, 0, need);
    if !files[i].OnDisk() && FindFrom(g, files, 0, 0, need).Before? {
      VariantRelink(files, i, FindFrom(g, files, 0, 0, need).index, v);
    }
  }

  lemma {:induction false} VariantRoom(g: Geometry, files: seq<File>, i: nat, v: File, size: nat)
    requires g.Valid() && i < |files| && files[i].info.Some? && Variant(files[i], v) && RoomFor(g, files, i, size)
    ensures RoomFor(g, files[i := v], i, size)
  {
    hide Place, SameShape;
    VariantPlace(g, files, i, v);
  }

  /** Regions of the same shape end at the same offsets. */
  lemma {:induction false} VariantWithin(f: File, v: File)
    requires f.info.Some? && RegionsWithin(f) && Variant(f, v)
    ensures RegionsWithin(v)
  {
    forall r | r in v.regions
      ensures r.End() <= v.info.value.size
    {
      var x :| 0 <= x < |v.regions| && v.regions[x] == r;
      assert f.regions[x] in f.regions && f.regions[x].End() == r.End();
    }
  }

  /** What buffer over flash shows, as a plain file. */
  function PlainOf(g: Geometry, m: seq<byte>, f: File): PlainFile
    requires f.info.Some? && DataInside(g, m, f)
  {
    PlainFile(seq(f.info.value.size, k requires 0 <= k < f.info.value.size => Expected(m, StartOf(g, f), f.DataSize(), f.regions, k)),
              f.position)
  }

  lemma {:induction false} PlainOfRefines(g: Geometry, m: seq<byte>, f: File)
    requires f.info.Some? && DataInside(g, m, f) && RegionsWithin(f)
    ensures Refines(g, m, f, PlainOf(g, m, f))
  {
  }

  // ---------- Reads of a file, whatever it contains ----------

  /** A read of file `i` with variant `v` in its place on media `m`, showing the plain file `p`. */
  ghost predicate ReadOf(s: State, i: nat, m: seq<byte>, v: File, p: PlainFile, n: nat, o: Outcome, status: Status, data: seq<byte>, s': State)
    requires i < |s.files|
  {
    var t := State(s.geometry, m, s.files[i := v]);
    && |m| == |s.media| && Variant(s.files[i], v) && Flushable(t, i)
    && Refines(s.geometry, m, v, p) && ReadStep(t, i, n, o, status, data, s')
  }

  /** A read that met no disk error shows the plain file's bytes. */
  ghost predicate ShowsFile(p: PlainFile, n: nat, o: Outcome, status: Status, data: seq<byte>)
  {
    status == Success && o.flushed != DeviceError ==>
      p.position <= |p.bytes|
      && Shows(data, p.bytes[p.position..if p.position + n <= |p.bytes| then p.position + n else |p.bytes|])
  }

  /** Whatever is buffered and in flash, reads are right. */
  ghost predicate ReadsRight(s: State, i: nat)
    requires i < |s.files|
  {
    forall m: seq<byte>, v: File, p: PlainFile, n: nat, o: Outcome, status: Status, data: seq<byte>, s': State ::
      ReadOf(s, i, m, v, p, n, o, status, data, s') ==> ShowsFile(p, n, o, status, data)
  }

  /** The flush finds a place and space; without a place, nothing is buffered inside the media. */
  ghost predicate FindsSpace(s: State, i: nat)
    requires Flushable(s, i) && s.files[i].info.Some?
  {
    var f := s.files[i];
    match Place(s.geometry, s.files, i)
    case Unplaced => forall r :: r in f.regions && r.data != [] ==> |s.media| <= r.offset
    case Placed(files, index, start) => FlushPlan(ContextFor(s.geometry, files, index, start), f).status == Success
  }

  lemma {:induction false} VariantInSession(s: State, i: nat, p: PlainFile, m: seq<byte>, v: File, q: PlainFile)
    requires InSession(s, i, p) && |m| == |s.media| && Variant(s.files[i], v) && Refines(s.geometry, m, v, q)
    ensures var t := State(s.geometry, m, s.files[i := v]); InSession(t, i, q) && Flushable(t, i)
  {
    hide Refines, Allocated, SameShape;
    SessionName(s, i, p);
    RecordStaysSound(s, i, v);
  }

  lemma {:induction false} VariantFlushesWell(s: State, i: nat, p: PlainFile, m: seq<byte>, v: File, q: PlainFile)
    requires InSession(s, i, p) && Flushable(s, i) && FlushesWell(s, i, p)
    requires |m| == |s.media| && Variant(s.files[i], v) && Refines(s.geometry, m, v, q)
    ensures var t := State(s.geometry, m, s.files[i := v]); Flushable(t, i) && FlushesWell(t, i, q)
  {
    hide Refines, Allocated, Clobbered, RoomFor, SameShape, Sound;
    var g, f := s.geometry, s.files[i];
    var t := State(g, m, s.files[i := v]);
    SessionName(s, i, p);
    VariantInSession(s, i, p, m, v, q);
    RefinedSize(g, s.media, f, p);
    RefinedSize(g, m, v, q);
    RefinedWithin(g, s.media, f, p);
    RefinedWithin(g, m, v, q);
    VariantRoom(g, s.files, i, v, f.info.value.size);
    forall k: nat | k < |q.bytes|
      ensures !Clobbered(g, v.DataSize(), v.regions, k)
    {
      assert !Clobbered(g, f.DataSize(), f.regions, k);
      ShapeDecides(g, f.DataSize(), f.regions, v.regions, k);
    }
  }

  // ---------- With space, reads are right ----------

  lemma {:induction false} PlannedStatus(t: State, i: nat, status: Status, t': State, j: nat, done: nat)
    requires Flushable(t, i) && FlushStep(t, i, status, t', j, done) && t.files[i].info.Some? && t.files[i].mode == ReadWrite
    requires Place(t.geometry, t.files, i).Placed? && status != DeviceError
    ensures var q := Place(t.geometry, t.files, i);
            status == FlushPlan(ContextFor(t.geometry, q.files, q.index, q.start), t.files[i]).status
  {
    hide FlushPlan, RegionsPlan, Place, ContextFor;
  }

  lemma {:induction false} VariantStatus(c: Context, f: File, v: File)
    requires c.geometry.blockSize > 0 && IsName(c.name) && f.info.Some? && Variant(f, v)
    ensures FlushPlan(c, v).status == FlushPlan(c, f).status
  {
    hide SameShape, Describe, Encode, NameOf;
    ShapeDecidesPlan(c, f, f.regions, v.regions);
    assert StartPlan(v) == StartPlan(f);
  }

  lemma {:induction false} PlacedReadIsRight(s: State, i: nat, p: PlainFile, m: seq<byte>, v: File, q: PlainFile,
                                             n: nat, o: Outcome, status: Status, data: seq<byte>, s': State)
    requires InSession(s, i, p) && Flushable(s, i) && FlushesWell(s, i, p) && FindsSpace(s, i)
    requires Place(s.geometry, s.files, i).Placed? && ReadOf(s, i, m, v, q, n, o, status, data, s')
    requires status == Success && o.flushed != DeviceError
    ensures ShowsFile(q, n, o, status, data)
  {
    hide Refines, Allocated, Variant, FlushStep, FlushPlan, Place, ContextFor, FlushesWell, Sound;
    var t := State(s.geometry, m, s.files[i := v]);
    SessionName(s, i, p);
    VariantInSession(s, i, p, m, v, q);
    VariantFlushesWell(s, i, p, m, v, q);
    VariantKeeps(s.files[i], v);
    VariantPlace(s.geometry, s.files, i, v);
    var c := ContextFor(s.geometry, Place(s.geometry, s.files, i).files, Place(s.geometry, s.files, i).index, Place(s.geometry, s.files, i).start);
    ContextName(s.geometry, s.files, i);
    VariantStatus(c, s.files[i], v);
    var u, ok :| FlushStep(t, i, o.flushed, u, o.index, o.done) && ReadAfter(u, o.index, n, ok, status, data, s');
    PlannedStatus(t, i, o.flushed, u, o.index, o.done);
    assert o.flushed == Success;
    ReadInSession(t, i, q, n, o, status, data, s');
  }

  lemma {:induction false} VariantKeeps(f: File, v: File)
    requires Variant(f, v)
    ensures v.hw == f.hw && v.hwAddress == f.hwAddress && v.info == f.info && v.mode == f.mode
  {
  }

  lemma {:induction false} ContextName(g: Geometry, files: seq<File>, i: nat)
    requires g.Valid() && i < |files| && files[i].info.Some? && IsName(files[i].info.value.name) && Place(g, files, i).Placed?
    ensures var p := Place(g, files, i);
            var c := ContextFor(g, p.files, p.index, p.start);
            c.geometry == g && c.geometry.blockSize > 0 && IsName(c.name)
  {
    hide Place;
  }

  // ---------- Without a place ----------

  lemma {:induction false} UncoveredByEmpty(rs: seq<Region>, k: nat, limit: nat)
    requires (forall r :: r in rs && r.data != [] ==> limit <= r.offset) && k < limit
    ensures LastRegion(rs, k) == -1
  {
    if LastRegion(rs, k) >= 0 {
      CoveringHasData(rs, k);
    }
  }

  lemma {:induction false} CoveringHasData(rs: seq<Region>, k: nat)
    requires LastRegion(rs, k) >= 0
    ensures var r := rs[LastRegion(rs, k)]; r in rs && r.data != [] && r.offset <= k
  {
  }

  lemma {:induction false} RefinedByte(g: Geometry, m: seq<byte>, v: File, q: PlainFile, k: nat)
    requires Refines(g, m, v, q) && k < |q.bytes|
    ensures DataInside(g, m, v)
    ensures q.bytes[k].Some? ==> Expected(m, StartOf(g, v), v.DataSize(), v.regions, k) == q.bytes[k]
  {
  }

  lemma {:induction false} NothingDefined(g: Geometry, m: seq<byte>, f: File, v: File, q: PlainFile, k: nat)
    requires Variant(f, v) && Refines(g, m, v, q) && f.DataSize() == 0 && k < |q.bytes| && k < |m|
    requires forall r :: r in f.regions && r.data != [] ==> |m| <= r.offset
    ensures q.bytes[k].None?
  {
    ShapeDecidesLast(f.regions, v.regions, k);
    UncoveredByEmpty(f.regions, k, |m|);
    RefinedByte(g, m, v, q, k);
  }

  /** Nothing of the file is defined inside the media, so nothing can be read wrongly. */
  lemma {:induction false} UnplacedReadIsRight(s: State, i: nat, p: PlainFile, m: seq<byte>, v: File, q: PlainFile,
                                               n: nat, o: Outcome, status: Status, data: seq<byte>, s': State)
    requires InSession(s, i, p) && Flushable(s, i) && FindsSpace(s, i)
    requires Place(s.geometry, s.files, i).Unplaced? && ReadOf(s, i, m, v, q, n, o, status, data, s')
    requires status == Success && o.flushed != DeviceError
    ensures ShowsFile(q, n, o, status, data)
  {
    hide Allocated, Place, Variant, ReadStep, Refines, FlushesWell;
    var f, g := s.files[i], s.geometry;
    var t := State(g, m, s.files[i := v]);
    SessionFile(s, i, p);
    VariantKeeps(f, v);
    SameRead(g, m, v, q);
    VariantPlace(g, s.files, i, v);
    UnplacedIsNew(g, s.files, i);
    RecordFacts(g, s.files, i);
    RefinedSize(g, m, v, q);
    UnplacedReadsBlockZero(t, i, n, o, status, data, s');
    ReadLengths(t, i, n, o, status, data, s');
    var end := if q.position + n <= |q.bytes| then q.position + n else |q.bytes|;
    assert |data| == end - q.position;
    forall k | q.position <= k < end
      ensures q.bytes[k].None?
    {
      NothingDefined(g, m, f, v, q, k);
    }
  }

  lemma {:induction false} SameRead(g: Geometry, m: seq<byte>, v: File, q: PlainFile)
    requires Refines(g, m, v, q)
    ensures v.info.Some? && v.info.value.size == |q.bytes| && v.position == q.position
  {
  }

  lemma {:induction false} UnplacedIsNew(g: Geometry, files: seq<File>, i: nat)
    requires i < |files| && files[i].info.Some? && Place(g, files, i).Unplaced?
    ensures !files[i].OnDisk()
  {
  }

  /** How much a successful read without a place returns. */
  lemma {:induction false} ReadLengths(t: State, i: nat, n: nat, o: Outcome, status: Status, data: seq<byte>, s': State)
    requires Flushable(t, i) && t.files[i].info.Some? && t.files[i].mode == ReadWrite && Place(t.geometry, t.files, i).Unplaced?
    requires ReadStep(t, i, n, o, status, data, s') && status == Success
    ensures t.files[i].position <= t.files[i].info.value.size && |data| == ReadLength(t.files[i], n)
  {
    hide Place;
    var u, ok :| FlushStep(t, i, o.flushed, u, o.index, o.done) && ReadAfter(u, o.index, n, ok, status, data, s');
  }

  // ---------- A read that is wrong ----------

  /** The record with its buffered byte `k` changed to `value`, and read from there. */
  function WithByte(f: File, k: nat, value: byte): File
    requires LastRegion(f.regions, k) >= 0
  {
    var j := LastRegion(f.regions, k);
    var r := f.regions[j];
    f.(regions := f.regions[j := Region(r.offset, r.data[k - r.offset := value])], position := k)
  }

  lemma {:induction false} WithByteVariant(g: Geometry, m: seq<byte>, f: File, k: nat, value: byte)
    requires LastRegion(f.regions, k) >= 0 && f.info.Some? && RegionsWithin(f) && DataInside(g, m, f)
    ensures var v := WithByte(f, k, value);
            && Variant(f, v) && Refines(g, m, v, PlainOf(g, m, v)) && k < f.info.value.size
            && PlainOf(g, m, v).bytes[k] == Some(value) && PlainOf(g, m, v).position == k
    ensures forall x :: 0 <= x < LastRegion(f.regions, k) ==> WithByte(f, k, value).regions[x] == f.regions[x]
  {
    var v := WithByte(f, k, value);
    var j := LastRegion(f.regions, k);
    assert f.regions[j] in f.regions;
    VariantWithin(f, v);
    PlainOfRefines(g, m, v);
    ShapeDecidesLast(f.regions, v.regions, k);
  }

  /** A flush of the variant `v` of file `i` on media `m`. */
  ghost predicate FlushOf(s: State, i: nat, m: seq<byte>, v: File, flushed: Status, t: State, j: nat, done: nat)
    requires i < |s.files|
  {
    var u := State(s.geometry, m, s.files[i := v]);
    |m| == |s.media| && Variant(s.files[i], v) && Flushable(u, i) && FlushStep(u, i, flushed, t, j, done)
  }

  /** If the flush leaves the buffer alone, and another byte where byte `k` is then read, the read is wrong. */
  lemma {:induction false} WrongRead(s: State, i: nat, m: seq<byte>, v: File, p: PlainFile, k: nat,
                                     t: State, j: nat, done: nat, flushed: Status, at: nat)
    requires i < |s.files| && FlushOf(s, i, m, v, flushed, t, j, done) && Refines(s.geometry, m, v, p)
    requires flushed != DeviceError && j < |t.files| && t.files[j].info == v.info && t.files[j].position == k == v.position == p.position
    requires k < |p.bytes| && p.bytes[k].Some? && v.info.Some?
    requires at == t.files[j].hw.blockStart * t.geometry.blockSize + k && at < |t.media| && t.media[at] != p.bytes[k].value
    ensures !ReadsRight(s, i)
  {
    hide FlushStep, Variant;
    RefinedSize(s.geometry, m, v, p);
    var u := State(s.geometry, m, s.files[i := v]);
    var data, o := [t.media[at]], Outcome(flushed, j, done);
    var s' := t.(files := t.files[j := Advanced(t.files[j], 1)]);
    assert t.media[at..at + 1] == data;
    assert ReadAfter(t, j, 1, true, Success, data, s');
    hide Refines;
    assert ReadStep(u, i, 1, o, Success, data, s');
    assert ReadOf(s, i, m, v, p, 1, o, Success, data, s');
    assert p.bytes[k..k + 1][0] == p.bytes[k];
    assert !ShowsFile(p, 1, o, Success, data);
  }

  /** Without a place, a byte buffered inside the media is read wrongly for some contents. */
  lemma {:induction false} UnplacedReadsWrongly(s: State, i: nat, p: PlainFile, r: Region)
    requires InSession(s, i, p) && Flushable(s, i) && Place(s.geometry, s.files, i).Unplaced?
    requires r in s.files[i].regions && r.data != [] && r.offset < |s.media|
    ensures !ReadsRight(s, i)
  {
    hide Allocated, Place, Refines, Variant, FlushStep;
    var g, f, k := s.geometry, s.files[i], r.offset;
    SessionFile(s, i, p);
    SessionName(s, i, p);
    InsideMedia(g, s.media, s.files, i);
    UnplacedIsNew(g, s.files, i);
    RecordFacts(g, s.files, i);
    CoveredHere(f.regions, r);
    var v := WithByte(f, k, OtherByte(s.media[k]));
    WithByteVariant(g, s.media, f, k, OtherByte(s.media[k]));
    var q := PlainOf(g, s.media, v);
    VariantInSession(s, i, p, s.media, v, q);
    VariantKeeps(f, v);
    VariantPlace(g, s.files, i, v);
    var u := State(g, s.media, s.files[i := v]);
    UnplacedFlush(u, i);
    WrongRead(s, i, s.media, v, q, k, u, i, 0, VolumeFull, k);
  }

  lemma {:induction false} CoveredHere(rs: seq<Region>, r: Region)
    requires r in rs && r.data != []
    ensures LastRegion(rs, r.offset) >= 0
  {
    var x :| 0 <= x < |rs| && rs[x] == r;
    assert RegionCovers(rs[x], r.offset);
  }

  lemma {:induction false} UnplacedFlush(u: State, i: nat)
    requires Flushable(u, i) && u.files[i].info.Some? && u.files[i].mode == ReadWrite && Place(u.geometry, u.files, i).Unplaced?
    ensures FlushStep(u, i, VolumeFull, u, i, 0)
  {
    hide Place;
  }

  // ---------- With a place, but without space ----------

  /** The first region that finds no space; from there on the buffer does not matter. */
  lemma {:induction false} FailingRegion(c: Context, f: File, rs: seq<Region>) returns (t: nat)
    requires c.geometry.blockSize > 0 && IsName(c.name) && PlanRegions(c, StartPlan(f), rs).status != Success
    ensures t < |rs| && rs[t].data != [] && PlanRegions(c, StartPlan(f), rs[..t]).status == Success
    ensures PlanRegions(c, StartPlan(f), rs[..t + 1]).status == VolumeFull
  {
    hide HasSpace, EraseActions, Describe, Encode, TailAddress;
    var n := |rs| - 1;
    var p := PlanRegions(c, StartPlan(f), rs[..n]);
    if p.status == Success {
      t := n;
      assert rs[..n + 1] == rs;
    } else {
      t := FailingRegion(c, f, rs[..n]);
      assert rs[..n][..t] == rs[..t] && rs[..n][..t + 1] == rs[..t + 1];
    }
  }

  lemma {:induction false} FullTurn(c: Context, p: Plan, r: Region, v: Region)
    requires c.geometry.blockSize > 0 && IsName(c.name) && p.status == Success && PlanRegion(c, p, r).status == VolumeFull
    requires r.offset == v.offset && |r.data| == |v.data|
    ensures PlanRegion(c, p, v) == PlanRegion(c, p, r)
  {
    hide HasSpace, EraseActions, Describe, Encode, TailAddress;
  }

  /** Data buffered from the failing region on changes nothing about the flush. */
  lemma {:induction false} LaterDataIgnored(c: Context, f: File, rs: seq<Region>, vs: seq<Region>, t: nat)
    requires c.geometry.blockSize > 0 && IsName(c.name) && SameShape(rs, vs) && t < |rs|
    requires PlanRegions(c, StartPlan(f), rs[..t]).status == Success && PlanRegions(c, StartPlan(f), rs[..t + 1]).status == VolumeFull
    requires forall x :: 0 <= x < t ==> vs[x] == rs[x]
    ensures PlanRegions(c, StartPlan(f), vs) == PlanRegions(c, StartPlan(f), rs)
    ensures PlanRegions(c, StartPlan(f), rs).status == VolumeFull
  {
    hide PlanRegion;
    assert rs[..t + 1][..t] == rs[..t] && vs[..t + 1][..t] == vs[..t] == rs[..t];
    assert rs[..t + 1][t] == rs[t] && vs[..t + 1][t] == vs[t];
    FullTurn(c, PlanRegions(c, StartPlan(f), rs[..t]), rs[t], vs[t]);
    StoppedStays(c, StartPlan(f), rs, t + 1);
    StoppedStays(c, StartPlan(f), vs, t + 1);
  }

  /** Where the file is read after a flush with room: at its own start, or at block 0 as long as nothing describes it. */
  lemma {:induction false} ReadAddress(s: State, i: nat, c: Context, b: nat)
    requires Flushable(s, i) && s.files[i].info.Some? && Extent(s, i, c, b)
    ensures var hw := FlushPlan(c, s.files[i]).hw; hw.blockStart == b || hw.blockStart == 0
  {
    hide TailClear, FlushPlan, RecordOk;
    var f := s.files[i];
    WithinIsReach(f);
    FlushPlanTracked(c, f, b);
  }

  lemma {:induction false} FlushOfFull(s: State, i: nat, p: PlainFile, c: Context, b: nat, v: File) returns (t: State, done: nat)
    requires InSession(s, i, p) && Flushable(s, i) && Extent(s, i, c, b) && Variant(s.files[i], v)
    requires var q := Place(s.geometry, s.files, i); q.Placed? && c == ContextFor(s.geometry, q.files, q.index, q.start)
    requires RegionsPlan(c, s.files[i]).status == VolumeFull && RegionsPlan(c, v) == RegionsPlan(c, s.files[i])
    ensures var j := Place(s.geometry, s.files, i).index;
            && FlushOf(s, i, s.media, v, VolumeFull, t, j, done) && j < |t.files| && t.geometry == s.geometry
            && t.media == After(s.media, FlushPlan(c, s.files[i])) && t.files[j].info == v.info && t.files[j].position == v.position
            && t.files[j].hw == FlushPlan(c, s.files[i]).hw
  {
    hide Place, ContextFor, RegionsPlan, FlushStep, Refines, Allocated, SameShape, Extent, PlanDescription;
    SessionName(s, i, p);
    ExtentRoot(s, i, c, b);
    ExtentFits(s, i, c, b);
    VariantPlace(s.geometry, s.files, i, v);
    var u := State(s.geometry, s.media, s.files[i := v]);
    assert FlushPlan(c, v) == FlushPlan(c, s.files[i]) == RegionsPlan(c, v);
    t, done := FlushHappens(u, i);
  }

  lemma {:induction false} ExtentFits(s: State, i: nat, c: Context, b: nat)
    requires Flushable(s, i) && s.files[i].info.Some? && Extent(s, i, c, b)
    ensures AllFit(Writes(FlushPlan(c, s.files[i]).actions), |s.media|) && c.start == b * s.geometry.blockSize
    ensures c.start + s.files[i].info.value.size <= |s.media| && RegionsWithin(s.files[i])
  {
  }

  /** Placed, but without space for the whole buffer: the first byte that finds none is read wrongly for some contents. */
  lemma {:induction false} FullReadsWrongly(s: State, i: nat, p: PlainFile)
    requires InSession(s, i, p) && Flushable(s, i) && FlushesWell(s, i, p) && Place(s.geometry, s.files, i).Placed?
    requires !FindsSpace(s, i)
    ensures !ReadsRight(s, i)
  {
    hide Refines, Allocated, Variant, Place, ContextFor, FlushPlan, RegionsPlan, Extent, ReadsRight, FlushesWell, Sound, WithByte, PlainOf, FlushOf, PlanRegions;
    var g, f := s.geometry, s.files[i];
    SessionFile(s, i, p);
    SessionName(s, i, p);
    var c, b := SessionExtent(s, i, p);
    ExtentRoot(s, i, c, b);
    ExtentFits(s, i, c, b);
    ReadAddress(s, i, c, b);
    var t := FullRegion(c, f);
    var k := f.regions[t].offset;
    CoversFrom(f.regions, t);
    var at := FlushPlan(c, f).hw.blockStart * g.blockSize + k;
    assert f.regions[t] in f.regions;
    AddressInside(f.regions[t], f.info.value.size, b, FlushPlan(c, f).hw.blockStart, g.blockSize, |s.media|);
    var value := OtherByte(After(s.media, FlushPlan(c, f))[at]);
    SessionInside(s, i, p);
    WithByteVariant(g, s.media, f, k, value);
    var v := WithByte(f, k, value);
    SamePlanned(c, f, v, t);
    var u, done := FlushOfFull(s, i, p, c, b, v);
    WrongRead(s, i, s.media, v, PlainOf(g, s.media, v), k, u, Place(g, s.files, i).index, done, VolumeFull, at);
  }

  lemma {:induction false} SessionExtent(s: State, i: nat, p: PlainFile) returns (c: Context, b: nat)
    requires InSession(s, i, p) && Flushable(s, i) && FlushesWell(s, i, p) && Place(s.geometry, s.files, i).Placed?
    ensures var q := Place(s.geometry, s.files, i); c == ContextFor(s.geometry, q.files, q.index, q.start)
    ensures s.files[i].info.Some? && Extent(s, i, c, b)
  {
    hide Refines, Allocated, Place, ContextFor, RoomFor, Clobbered, Extent;
    SessionFile(s, i, p);
    WithinIsReach(s.files[i]);
    c, b := PlacedExtent(s, i);
  }

  lemma {:induction false} SessionInside(s: State, i: nat, p: PlainFile)
    requires InSession(s, i, p)
    ensures DataInside(s.geometry, s.media, s.files[i]) && s.files[i].info.Some? && RegionsWithin(s.files[i])
  {
  }

  lemma {:induction false} FullRegion(c: Context, f: File) returns (t: nat)
    requires c.geometry.blockSize > 0 && IsName(c.name) && f.info.Some? && FlushPlan(c, f).status != Success
    ensures t < |f.regions| && f.regions[t].data != [] && PlanRegions(c, StartPlan(f), f.regions[..t]).status == Success
    ensures PlanRegions(c, StartPlan(f), f.regions[..t + 1]).status == VolumeFull
  {
    hide PlanRegions, Describe, Encode, NameOf;
    t := FailingRegion(c, f, f.regions);
  }

  lemma {:induction false} CoversFrom(rs: seq<Region>, t: nat)
    requires t < |rs| && rs[t].data != []
    ensures LastRegion(rs, rs[t].offset) >= t
  {
    assert RegionCovers(rs[t], rs[t].offset);
  }

  lemma {:induction false} AddressInside(r: Region, size: nat, b: nat, start: nat, blockSize: nat, limit: nat)
    requires r.data != [] && r.End() <= size && (start == b || start == 0) && b * blockSize + size <= limit
    ensures start * blockSize + r.offset < limit
  {
    MulMonotone(start, b, blockSize);
  }

  lemma {:induction false} SamePlanned(c: Context, f: File, v: File, t: nat)
    requires c.geometry.blockSize > 0 && IsName(c.name) && Variant(f, v) && t < |f.regions|
    requires PlanRegions(c, StartPlan(f), f.regions[..t]).status == Success && PlanRegions(c, StartPlan(f), f.regions[..t + 1]).status == VolumeFull
    requires forall x :: 0 <= x < t ==> v.regions[x] == f.regions[x]
    ensures RegionsPlan(c, v) == RegionsPlan(c, f) && RegionsPlan(c, f).status == VolumeFull
  {
    hide PlanRegions;
    assert StartPlan(v) == StartPlan(f);
    LaterDataIgnored(c, f, f.regions, v.regions, t);
  }

  /**
   Reads of an open file are right, whatever is buffered and in flash and wherever they
   start, exactly when the flush they make - room and descriptions permitting - finds a
   place and space for the whole buffer.
   */
  lemma {:induction false} ReadsRightExactly(s: State, i: nat, p: PlainFile)
    requires InSession(s, i, p) && Flushable(s, i) && FlushesWell(s, i, p)
    ensures s.files[i].info.Some? && (ReadsRight(s, i) <==> FindsSpace(s, i))
  {
    hide InSession, FlushesWell, FindsSpace, ReadOf, ShowsFile, Place;
    SessionFile(s, i, p);
    if FindsSpace(s, i) {
      forall m: seq<byte>, v: File, q: PlainFile, n: nat, o: Outcome, status: Status, data: seq<byte>, s': State
        | ReadOf(s, i, m, v, q, n, o, status, data, s')
        ensures ShowsFile(q, n, o, status, data)
      {
        ReadIsRight(s, i, p, m, v, q, n, o, status, data, s');
      }
    } else if Place(s.geometry, s.files, i).Placed? {
      FullReadsWrongly(s, i, p);
    } else {
      var r := BufferedInside(s, i);
      UnplacedReadsWrongly(s, i, p, r);
    }
  }

  lemma {:induction false} BufferedInside(s: State, i: nat) returns (r: Region)
    requires Flushable(s, i) && s.files[i].info.Some? && !FindsSpace(s, i) && Place(s.geometry, s.files, i).Unplaced?
    ensures r in s.files[i].regions && r.data != [] && r.offset < |s.media|
  {
    hide Place;
    r :| r in s.files[i].regions && r.data != [] && r.offset < |s.media|;
  }

  lemma {:induction false} ReadIsRight(s: State, i: nat, p: PlainFile, m: seq<byte>, v: File, q: PlainFile,
                                       n: nat, o: Outcome, status: Status, data: seq<byte>, s': State)
    requires InSession(s, i, p) && Flushable(s, i) && FlushesWell(s, i, p) && s.files[i].info.Some? && FindsSpace(s, i)
    requires ReadOf(s, i, m, v, q, n, o, status, data, s')
    ensures ShowsFile(q, n, o, status, data)
  {
    hide InSession, FlushesWell, FindsSpace, ReadOf, Place, Shows;
    if status == Success && o.flushed != DeviceError {
      if Place(s.geometry, s.files, i).Placed? {
        PlacedReadIsRight(s, i, p, m, v, q, n, o, status, data, s');
      } else {
        UnplacedReadIsRight(s, i, p, m, v, q, n, o, status, data, s');
      }
    }
  }
}
