/**
 Durability: bytes written to a file and closed successfully are the bytes read back
 after any guarded run of calls on other files, with a disk that may fail in between.
 */
module BootMonDurability {
  import opened Bytes
  import opened Options
  import opened ByteStore
  import opened BootMonImage
  import opened BootMonVolume
  import opened BootMonAllocation
  import opened BootMonFlush
  import opened BootMonMount
  import opened BootMonBuffer
  import opened BootMonOperations
  import opened BootMonRuns
  import opened BootMonNames

  // ---------- Calls on other files ----------

  /** The call concerns another file than `f`, which is at index `x`. */
  predicate Leaves(op: Op, f: File, x: nat)
  {
    match op
    case Open(path, _, _) => EffectiveName(f) != WithoutSeparator(path)
    case Mount => false
    case _ => op.file != x
  }

  /** The file is still listed, unchanged, and its blocks hold what they held. */
  ghost predicate Spared(s: State, f: File, s': State)
  {
    s'.geometry == s.geometry && f in s'.files && SameBlocks(s.geometry, s.media, s'.media, f)
  }

  lemma {:induction false} SparedTrans(s: State, f: File, t: State, s': State)
    requires Spared(s, f, t) && Spared(t, f, s')
    ensures Spared(s, f, s')
  {
  }

  lemma {:induction false} SparedByRecord(s: State, x: nat, i: nat, g: File)
    requires x < |s.files| && i < |s.files| && x != i
    ensures Spared(s, s.files[x], s.(files := s.files[i := g]))
  {
    assert s.files[i := g][x] == s.files[x];
  }

  lemma {:induction false} OpenSpares(s: State, path: seq<byte>, mode: OpenMode, directory: bool, x: nat)
    requires x < |s.files| && EffectiveName(s.files[x]) != WithoutSeparator(path)
    ensures Spared(s, s.files[x], s.(files := OpenFile(s.files, path, mode, directory).files))
  {
    var r := OpenFile(s.files, path, mode, directory);
    assert r.files[if |r.files| == |s.files| then x else x + 1] == s.files[x];
  }

  lemma {:induction false} SetSpares(s: State, i: nat, name: seq<byte>, size: nat, x: nat)
    requires x < |s.files| && i < |s.files| && x != i
    ensures Spared(s, s.files[x], s.(files := SetInfo(s.files, i, name, size).files))
  {
    var r := SetInfo(s.files, i, name, size);
    assert r.files[x] == s.files[x];
  }

  lemma {:induction false} FlushSpares(s: State, i: nat, status: Status, s': State, j: nat, done: nat, x: nat)
    requires Sound(s) && Flushable(s, i) && RoomToFlush(s, i) && FlushStep(s, i, status, s', j, done)
    requires x < |s.files| && x != i && s.files[x].OnDisk()
    ensures Spared(s, s.files[x], s')
  {
    FlushOwnChange(s, i, status, s', j, done);
    assert Elsewhere(s'.files, j, s.files[x]);
    hide FlushStep, RoomFor;
    var y :| 0 <= y < |s'.files| && y != j && s'.files[y] == s.files[x];
    FlushSparesOthers(s, i, status, s', j, done, y);
  }

  lemma {:induction false} ReadSpares(s: State, i: nat, n: nat, o: Outcome, status: Status, data: seq<byte>, s': State, x: nat)
    requires Sound(s) && Flushable(s, i) && RoomToFlush(s, i) && ReadStep(s, i, n, o, status, data, s')
    requires x < |s.files| && x != i && s.files[x].OnDisk()
    ensures Spared(s, s.files[x], s')
  {
    hide FlushStep, RoomToFlush, Sound;
    if s.files[i].info.Some? {
      var t, ok :| FlushStep(s, i, o.flushed, t, o.index, o.done) && ReadAfter(t, o.index, n, ok, status, data, s');
      FlushSpares(s, i, o.flushed, t, o.index, o.done, x);
      FlushOwnChange(s, i, o.flushed, t, o.index, o.done);
      assert Elsewhere(t.files, o.index, s.files[x]);
      var y :| 0 <= y < |t.files| && y != o.index && t.files[y] == s.files[x];
      SparedByRecord(t, y, o.index, s'.files[o.index]);
      SparedTrans(s, s.files[x], t, s');
    }
  }

  lemma {:induction false} CloseSpares(s: State, i: nat, o: Outcome, status: Status, s': State, x: nat)
    requires Sound(s) && Flushable(s, i) && RoomToFlush(s, i) && CloseStep(s, i, o, status, s')
    requires x < |s.files| && x != i && s.files[x].OnDisk()
    ensures Spared(s, s.files[x], s')
  {
    hide FlushStep, RoomToFlush, Sound;
    if s.files[i].info.Some? {
      var t :| FlushStep(s, i, o.flushed, t, o.index, o.done) && ClosedIn(t, o.index, s');
      FlushSpares(s, i, o.flushed, t, o.index, o.done, x);
      FlushOwnChange(s, i, o.flushed, t, o.index, o.done);
      assert Elsewhere(t.files, o.index, s.files[x]);
      var y :| 0 <= y < |t.files| && y != o.index && t.files[y] == s.files[x];
      SparedByRecord(t, y, o.index, s'.files[o.index]);
      SparedTrans(s, s.files[x], t, s');
    }
  }

  /** Two files on disk have no byte in common: the tail of one is outside the blocks of the other. */
  lemma {:induction false} TailOutsideBlocks(g: Geometry, files: seq<File>, i: nat, x: nat, a: nat)
    requires g.Valid() && Allocated(g, files) && i < |files| && x < |files| && i != x
    requires files[i].OnDisk() && files[x].OnDisk()
    requires files[x].hw.blockStart * g.blockSize <= a < (files[x].hw.blockEnd + 1) * g.blockSize
    ensures !Write(files[i].hwAddress, Zeros(DESCRIPTION_SIZE)).Covers(a)
  {
    var e := files[i].hw.blockEnd;
    TailInside(g, e);
    SumTimes(e, 1, g.blockSize);
    if x < i {
      MulMonotone(files[x].hw.blockEnd + 1, files[i].hw.blockStart, g.blockSize);
      MulMonotone(files[i].hw.blockStart, e, g.blockSize);
    } else {
      MulMonotone(e + 1, files[x].hw.blockStart, g.blockSize);
    }
  }

  lemma {:induction false} DeleteSpares(s: State, i: nat, status: Status, s': State, x: nat)
    requires Sound(s) && i < |s.files| && DeleteStep(s, i, status, s')
    requires x < |s.files| && x != i && s.files[x].OnDisk()
    ensures Spared(s, s.files[x], s')
  {
    hide Allocated, ApplyOne;
    var f := s.files[x];
    if s'.media != s.media {
      forall a | f.hw.blockStart * s.geometry.blockSize <= a < (f.hw.blockEnd + 1) * s.geometry.blockSize && 0 <= a < |s.media|
        ensures s'.media[a] == s.media[a]
      {
        TailOutsideBlocks(s.geometry, s.files, i, x, a);
      }
    }
    if |s'.files| == |s.files| {
      assert s'.files[x] == f;
    } else {
      assert s'.files[if x < i then x else x - 1] == f;
    }
  }

  /** A guarded call on another file, whatever the disk does, leaves a file on disk listed and its blocks untouched. */
  lemma {:induction false} StepSpares(s: State, step: Step, s': State, x: nat)
    requires Sound(s) && Callable(s, step.op) && Guarded(s, step.op)
    requires Next(s, step.op, step.outcome, step.status, s')
    requires x < |s.files| && s.files[x].OnDisk() && Leaves(step.op, s.files[x], x)
    ensures Spared(s, s.files[x], s')
  {
    hide Sound, RoomToFlush, FlushStep, CloseStep, ReadStep, DeleteStep, OpenFile, SetInfo, Spared;
    SelfSpared(s, x);
    match step.op
    case Open(path, mode, directory) => OpenSpares(s, path, mode, directory, x);
    case WriteAt(i, data) => SparedByRecord(s, x, i, WrittenOr(s.files[i], data));
    case Seek(i, position) => SparedByRecord(s, x, i, SoughtOr(s.files[i], position));
    case Set(i, name, size) => SetSpares(s, i, name, size, x);
    case ReadFrom(i, n) =>
      var data :| ReadStep(s, i, n, step.outcome, step.status, data, s');
      ReadSpares(s, i, n, step.outcome, step.status, data, s', x);
    case Flush(i) => FlushSpares(s, i, step.status, s', step.outcome.index, step.outcome.done, x);
    case Close(i) => CloseSpares(s, i, step.outcome, step.status, s', x);
    case Delete(i) => DeleteSpares(s, i, step.status, s', x);
  }

  lemma {:induction false} SelfSpared(s: State, x: nat)
    requires x < |s.files|
    ensures Spared(s, s.files[x], s)
  {
  }

  function WrittenOr(f: File, data: seq<byte>): File
  {
    if f.info.Some? then WriteFile(f, data) else f
  }

  function SoughtOr(f: File, position: nat): File
  {
    if f.info.Some? then SetPosition(f, position) else f
  }

  /** Over a guarded run of calls on other files, a file on disk stays listed and its blocks stay as they were. */
  lemma {:induction false} RunSpares(trace: seq<State>, steps: seq<Step>, k: nat, f: File)
    requires Run(trace, steps) && Sound(trace[0]) && k < |trace|
    requires f in trace[0].files && f.OnDisk()
    requires forall n :: 0 <= n < k ==> Taken(trace, steps, n) && Guarded(trace[n], steps[n].op)
    requires forall n, x :: 0 <= n < k && 0 <= x < |trace[n].files| && trace[n].files[x] == f ==> Leaves(steps[n].op, f, x)
    ensures Spared(trace[0], f, trace[k])
  {
    hide Sound, Guarded, Next, Callable, Leaves;
    if k == 0 {
      var x :| 0 <= x < |trace[0].files| && trace[0].files[x] == f;
      SelfSpared(trace[0], x);
    } else {
      RunSpares(trace, steps, k - 1, f);
      RunsStaySound(trace, steps, k - 1);
      assert Taken(trace, steps, k - 1);
      var x :| 0 <= x < |trace[k - 1].files| && trace[k - 1].files[x] == f;
      StepSpares(trace[k - 1], steps[k - 1], trace[k], x);
      SparedTrans(trace[0], f, trace[k - 1], trace[k]);
    }
  }

  // ---------- A closed file that holds given bytes ----------

  /** All the data is in region 0 of the description. */
  predicate OneRegion(hw: Description)
  {
    hw.regions[1].size == 0 && hw.regions[2].size == 0 && hw.regions[3].size == 0
  }

  /** The file is closed and on disk under the name, with nothing buffered, and its bytes in flash are the given ones. */
  ghost predicate Keeps(s: State, f: File, name: seq<byte>, bytes: seq<Option<byte>>)
  {
    && f in s.files && f.OnDisk() && f.info.None? && f.regions == [] && OneRegion(f.hw)
    && NameOf(f.hw.filename) == name && f.DataSize() == |bytes|
    && DataInside(s.geometry, s.media, f)
    && forall k :: 0 <= k < |bytes| && bytes[k].Some? ==> s.media[StartOf(s.geometry, f) + k] == bytes[k].value
  }

  lemma {:induction false} PlanKeepsOneRegion(c: Context, f: File, rs: seq<Region>)
    requires c.geometry.blockSize > 0 && IsName(c.name) && OneRegion(f.hw)
    ensures OneRegion(PlanRegions(c, StartPlan(f), rs).hw)
  {
    if rs != [] {
      PlanKeepsOneRegion(c, f, rs[..|rs| - 1]);
    }
  }

  lemma {:induction false} FlushKeepsOneRegion(s: State, i: nat, s': State, j: nat, done: nat)
    requires Flushable(s, i) && FlushStep(s, i, Success, s', j, done) && OneRegion(s.files[i].hw)
    ensures j < |s'.files| && OneRegion(s'.files[j].hw)
  {
    hide Executed, OneRegion, NameOf;
    var Placed(files, index, start) := Place(s.geometry, s.files, i);
    var c := ContextFor(s.geometry, files, index, start);
    PlanKeepsOneRegion(c, s.files[i], s.files[i].regions);
    DescribeKeepsOneRegion(c, RegionsPlan(c, s.files[i]), s.files[i].info.value.size);
  }

  lemma {:induction false} DescribeKeepsOneRegion(c: Context, p: Plan, size: nat)
    requires c.geometry.blockSize > 0 && IsName(c.name) && OneRegion(p.hw)
    ensures OneRegion(PlanDescription(c, p, size).hw)
  {
  }

  /** A named file is on disk after a successful flush. */
  lemma {:induction false} FlushedIsOnDisk(s: State, i: nat, s': State, j: nat, done: nat)
    requires Flushable(s, i) && FlushStep(s, i, Success, s', j, done) && Allocated(s'.geometry, s'.files)
    requires s.files[i].info.value.name != []
    ensures j < |s'.files| && s'.files[j].OnDisk()
  {
    hide FlushStep;
    FlushedNameOnRecord(s, i, s', j, done);
    assert NO_DESCRIPTION.filename[0] == 0;
  }

  /** The conditions under which a close makes the buffered file durable. */
  ghost predicate ClosesWell(s: State, i: nat, p: PlainFile)
    requires Flushable(s, i)
  {
    var f := s.files[i];
    && Sound(s) && Refines(s.geometry, s.media, f, p)
    && f.info.value.name != [] && OneRegion(f.hw)
    && RoomToFlush(s, i)
    && forall k: nat :: k < |p.bytes| ==> !Clobbered(s.geometry, f.DataSize(), f.regions, k)
  }

  lemma {:induction false} RoomBoundsSize(s: State, i: nat, s': State, j: nat, done: nat)
    requires Sound(s) && Flushable(s, i) && s.files[i].info.Some? && RoomToFlush(s, i)
    requires FlushStep(s, i, Success, s', j, done)
    ensures s.files[i].info.value.size + DESCRIPTION_SIZE < TWO_TO_THE_32
  {
    var f := s.files[i];
    PlaceRooted(s.geometry, s.files, i);
    RoomIsUntruncated(s.geometry, s.files, i, Reach(f.info.value.size, f.regions));
  }

  /** A close whose flush reports success keeps the plain file's bytes in flash under its name. */
  lemma {:induction false} CloseKeeps(s: State, i: nat, o: Outcome, s': State, p: PlainFile)
    requires Flushable(s, i) && ClosesWell(s, i, p)
    requires CloseStep(s, i, o, Success, s') && o.flushed == Success
    ensures Sound(s') && o.index < |s'.files| && Keeps(s', s'.files[o.index], s.files[i].info.value.name, p.bytes)
  {
    hide FlushStep, RoomToFlush, Clobbered, Allocated;
    CloseStaysSound(s, i, o, Success, s');
    var t :| FlushStep(s, i, Success, t, o.index, o.done) && ClosedIn(t, o.index, s');
    FlushStaysSound(s, i, Success, t, o.index, o.done);
    RoomBoundsSize(s, i, t, o.index, o.done);
    FlushRefines(s, i, t, o.index, o.done, p);
    FlushedIsOnDisk(s, i, t, o.index, o.done);
    FlushKeepsOneRegion(s, i, t, o.index, o.done);
    FlushedNameOnRecord(s, i, t, o.index, o.done);
    var c, b := FlushedRecord(s, i, t, o.index, o.done);
    CleanShows(t, o.index, p);
    KeptWhenClosed(t, o.index, s', s.files[i].info.value.name, p.bytes);
  }

  /** With nothing buffered, the defined bytes of the plain file are in flash. */
  lemma {:induction false} CleanShows(t: State, j: nat, p: PlainFile)
    requires j < |t.files| && t.files[j].regions == []
    requires Refines(t.geometry, t.media, t.files[j], p) && t.files[j].DataSize() == |p.bytes|
    ensures forall k :: 0 <= k < |p.bytes| && p.bytes[k].Some? ==>
              t.media[StartOf(t.geometry, t.files[j]) + k] == p.bytes[k].value
  {
    var f := t.files[j];
    forall k | 0 <= k < |p.bytes| && p.bytes[k].Some?
      ensures t.media[StartOf(t.geometry, f) + k] == p.bytes[k].value
    {
      assert Expected(t.media, StartOf(t.geometry, f), f.DataSize(), [], k) == p.bytes[k];
    }
  }

  lemma {:induction false} KeptWhenClosed(t: State, j: nat, s': State, name: seq<byte>, bytes: seq<Option<byte>>)
    requires ClosedIn(t, j, s')
    requires var f := t.files[j];
      && f.OnDisk() && f.regions == [] && OneRegion(f.hw)
      && NameOf(f.hw.filename) == name && f.DataSize() == |bytes| && DataInside(t.geometry, t.media, f)
      && forall k :: 0 <= k < |bytes| && bytes[k].Some? ==> t.media[StartOf(t.geometry, f) + k] == bytes[k].value
    ensures Keeps(s', s'.files[j], name, bytes)
  {
    assert s'.files[j] in s'.files;
  }

  /** A spared file keeps its bytes. */
  lemma {:induction false} SparedKeeps(s: State, f: File, s': State, name: seq<byte>, bytes: seq<Option<byte>>)
    requires Sound(s) && Keeps(s, f, name, bytes) && Spared(s, f, s')
    ensures Keeps(s', f, name, bytes)
  {
    var g := s.geometry;
    RecordInside(g, f);
    SumTimes(f.hw.blockStart, f.hw.blockEnd - f.hw.blockStart + 1, g.blockSize);
    forall k | 0 <= k < |bytes| && bytes[k].Some?
      ensures s'.media[StartOf(g, f) + k] == bytes[k].value
    {
      assert s.media[StartOf(g, f) + k] == bytes[k].value;
    }
  }

  // ---------- Opening and reading it ----------

  /** Opening the kept file by name gives a handle at its start, showing its bytes, with its size. */
  lemma {:induction false} OpenShows(s: State, f: File, name: seq<byte>, bytes: seq<Option<byte>>, mode: OpenMode)
    requires Sound(s) && Keeps(s, f, name, bytes) && NamesDistinct(s.files)
    requires name != [] && name[0] != PERIOD && BACKSLASH !in name
    ensures var r := OpenFile(s.files, name, mode, false);
            && r.status == Success && r.handle.FileAt? && r.handle.index < |r.files|
            && r.files[r.handle.index] == Opened(f, name, mode)
            && |r.files| == |s.files|
            && Refines(s.geometry, s.media, Opened(f, name, mode), PlainFile(bytes, 0))
  {
    var x :| 0 <= x < |s.files| && s.files[x] == f;
    LookupFindsTheFile(s.files, name, x);
    assert !DoubleSeparator(name) by {
      assert forall i :: 0 <= i < |name| ==> name[i] in name;
    }
    assert name[0] in name;
    assert ImageLength(f) == f.DataSize();
    forall k | 0 <= k < |bytes| && bytes[k].Some?
      ensures Expected(s.media, StartOf(s.geometry, f), f.DataSize(), [], k) == bytes[k]
    {
      assert s.media[StartOf(s.geometry, f) + k] == bytes[k].value;
    }
  }

  /** The flush of a file with nothing buffered, and its name and size on record, changes nothing at all. */
  lemma {:induction false} IdleFlush(s: State, i: nat, status: Status, s': State, j: nat, done: nat)
    requires Flushable(s, i) && FlushStep(s, i, status, s', j, done)
    requires s.files[i].info.Some? && s.files[i].OnDisk() && s.files[i].regions == []
    requires NameOf(s.files[i].hw.filename) == s.files[i].info.value.name && s.files[i].DataSize() == s.files[i].info.value.size
    ensures s' == s && j == i
  {
    hide NameOf;
    var f := s.files[i];
    if f.mode == ReadWrite {
      var c := ContextFor(s.geometry, s.files, i, f.hw.blockStart * s.geometry.blockSize);
      assert RegionsPlan(c, f) == StartPlan(f);
      assert FlushPlan(c, f) == StartPlan(f);
      IdleExecuted(s.media, s'.media, done);
      assert s'.files == s.files;
    }
  }

  lemma {:induction false} IdleExecuted(m: seq<byte>, m': seq<byte>, done: nat)
    requires Executed([], done, m, m')
    ensures m' == m && done == 0
  {
    assert Writes([][..0]) == [];
  }

  /** A read of an open, unbuffered file whose disk read works gives the plain file's bytes from the position on. */
  lemma {:induction false} CleanRead(s: State, i: nat, n: nat, o: Outcome, status: Status, data: seq<byte>, s': State, p: PlainFile)
    requires Flushable(s, i) && Refines(s.geometry, s.media, s.files[i], p)
    requires s.files[i].OnDisk() && s.files[i].regions == []
    requires NameOf(s.files[i].hw.filename) == s.files[i].info.value.name && s.files[i].DataSize() == |p.bytes|
    requires ReadStep(s, i, n, o, status, data, s')
    ensures status == DeviceError ==> data == []
    ensures p.position > |p.bytes| ==> status == DeviceError
    ensures status == Success ==>
              var k := if p.position + n <= |p.bytes| then n else |p.bytes| - p.position;
              Shows(data, p.bytes[p.position..p.position + k]) && s' == s.(files := s.files[i := Advanced(s.files[i], k)])
  {
    hide FlushStep, NameOf;
    var t, ok :| FlushStep(s, i, o.flushed, t, o.index, o.done) && ReadAfter(t, o.index, n, ok, status, data, s');
    IdleFlush(s, i, o.flushed, t, o.index, o.done);
    if status == Success {
      var k := if p.position + n <= |p.bytes| then n else |p.bytes| - p.position;
      ReadRefines(s.geometry, s.media, s.files[i], p, k);
    }
  }

  /**
   Durability: close a buffered file successfully, make any guarded calls on other
   files, open it by its name and read - a read that reports success returns the bytes
   that were written, and its size is theirs.
   */
  lemma {:induction false} WrittenIsReadBack(s: State, i: nat, o: Outcome, p: PlainFile, trace: seq<State>, steps: seq<Step>,
                                             mode: OpenMode, n: nat, ro: Outcome, status: Status, data: seq<byte>, s': State)
    requires Flushable(s, i) && ClosesWell(s, i, p) && NamesSettled(s.files)
    requires Run(trace, steps) && CloseStep(s, i, o, Success, trace[0]) && o.flushed == Success
    requires forall k :: 0 <= k < |steps| ==>
               Taken(trace, steps, k) && Guarded(trace[k], steps[k].op) && ClosesFlushed(trace[k], steps[k])
    requires forall f :: f in trace[0].files && EffectiveName(f) == s.files[i].info.value.name ==>
               forall k, x :: 0 <= k < |steps| && 0 <= x < |trace[k].files| && trace[k].files[x] == f ==> Leaves(steps[k].op, f, x)
    requires var name := s.files[i].info.value.name; name[0] != PERIOD && BACKSLASH !in name
    requires var last := trace[|steps|];
             var opening := OpenFile(last.files, s.files[i].info.value.name, mode, false);
             var ready := last.(files := opening.files);
             opening.handle.FileAt? && Flushable(ready, opening.handle.index) ==>
               ReadStep(ready, opening.handle.index, n, ro, status, data, s')
    ensures var opening := OpenFile(trace[|steps|].files, s.files[i].info.value.name, mode, false);
            && opening.status == Success && opening.handle.FileAt?
            && opening.files[opening.handle.index].info.value.size == |p.bytes|
    ensures status == Success ==> Shows(data, p.bytes[..if n <= |p.bytes| then n else |p.bytes|])
  {
    hide FlushStep, Guarded, Next, Callable, Leaves, NameOf, Allocated, ReadStep, CloseStep, ClosesFlushed, ClosesWell, Refines, Sound, Keeps, NamesSettled;
    WellNamed(s, i, p);
    var name := s.files[i].info.value.name;
    CloseKeeps(s, i, o, trace[0], p);
    var f := trace[0].files[o.index];
    KeptIsNamed(trace[0], f, name, p.bytes);
    RunSpares(trace, steps, |steps|, f);
    SparedKeeps(trace[0], f, trace[|steps|], name, p.bytes);
    RunsStaySound(trace, steps, |steps|);
    CloseKeepsNames(s, i, o, Success, trace[0]);
    RunsKeepNamesDistinct(trace, steps, |steps|);
    SettledAreDistinct(trace[|steps|].files);
    OpenShows(trace[|steps|], f, name, p.bytes, mode);
    ReadsBack(trace[|steps|], f, name, p.bytes, mode, n, ro, status, data, s');
  }

  lemma {:induction false} WellNamed(s: State, i: nat, p: PlainFile)
    requires Flushable(s, i) && ClosesWell(s, i, p)
    ensures s.files[i].info.Some? && s.files[i].info.value.name != [] && IsName(s.files[i].info.value.name)
  {
  }

  lemma {:induction false} KeptIsNamed(s: State, f: File, name: seq<byte>, bytes: seq<Option<byte>>)
    requires Keeps(s, f, name, bytes)
    ensures EffectiveName(f) == name && f.OnDisk() && f in s.files
  {
  }

  lemma {:induction false} SettledAreDistinct(files: seq<File>)
    requires NamesSettled(files)
    ensures NamesDistinct(files)
  {
  }

  lemma {:induction false} ReadsBack(s: State, f: File, name: seq<byte>, bytes: seq<Option<byte>>, mode: OpenMode,
                                     n: nat, o: Outcome, status: Status, data: seq<byte>, s': State)
    requires Sound(s) && Keeps(s, f, name, bytes) && NamesDistinct(s.files) && IsName(name)
    requires name != [] && name[0] != PERIOD && BACKSLASH !in name
    requires var opening := OpenFile(s.files, name, mode, false);
             var ready := s.(files := opening.files);
             opening.handle.FileAt? && Flushable(ready, opening.handle.index) ==>
               ReadStep(ready, opening.handle.index, n, o, status, data, s')
    ensures var opening := OpenFile(s.files, name, mode, false);
            opening.handle.FileAt? && opening.files[opening.handle.index].info.value.size == |bytes|
    ensures status == Success ==> Shows(data, bytes[..if n <= |bytes| then n else |bytes|])
  {
    hide ReadStep, NameOf, OpenFile, Refines, Allocated;
    OpenShows(s, f, name, bytes, mode);
    var opening := OpenFile(s.files, name, mode, false);
    var ready := s.(files := opening.files);
    OpenedSize(f, name, mode);
    CleanRead(ready, opening.handle.index, n, o, status, data, s', PlainFile(bytes, 0));
    assert bytes[0..if n <= |bytes| then n else |bytes|] == bytes[..if n <= |bytes| then n else |bytes|];
  }

  lemma {:induction false} OpenedSize(f: File, name: seq<byte>, mode: OpenMode)
    requires f.regions == [] && OneRegion(f.hw)
    ensures Opened(f, name, mode).info.value.size == f.DataSize()
  {
  }

  /**
   The size a file is opened with counts a pending region that reaches past the data on
   flash from its own end, on top of that data, instead of up to its end.
   */
  lemma {:induction false} PendingIsCountedTwice(f: File, r: Region)
    requires OneRegion(f.hw) && f.regions == [r] && r.End() > f.DataSize()
    ensures ImageLength(f) == ToWord(f.DataSize() + r.End())
    ensures f.DataSize() + r.End() < TWO_TO_THE_32 ==> (ImageLength(f) == r.End() <==> f.DataSize() == 0)
  {
    var rs := f.hw.regions;
    assert ToWord(rs[0].size + rs[1].size + rs[2].size + rs[3].size) == f.DataSize();
    var size: word := f.DataSize();
    assert f.regions[1..] == [] && f.regions[0] == r;
    assert PendingLength(f.regions, size) == PendingLength([], ToWord(size + r.End()));
  }
}
