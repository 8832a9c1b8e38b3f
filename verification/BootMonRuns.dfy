/**
 Whole runs of a boot monitor volume: any sequence of calls, with a disk that may fail
 at any write, keeps the block layout, and under the stated guards keeps flash and
 records in agreement and file names unique.
 */
module BootMonRuns {
  import opened Bytes
  import opened Options
  import opened ByteStore
  import opened BootMonImage
  import opened BootMonVolume
  import opened BootMonAllocation
  import opened BootMonMount
  import opened BootMonBuffer
  import opened BootMonOperations

  datatype Step = Step(op: Op, outcome: Outcome, status: Status)

  /** `trace` lists the states a run goes through, `steps` what happens between them. */
  ghost predicate Run(trace: seq<State>, steps: seq<Step>)
  {
    && |trace| == |steps| + 1
    && forall k :: 0 <= k < |steps| ==> Taken(trace, steps, k)
  }

  ghost predicate Taken(trace: seq<State>, steps: seq<Step>, k: nat)
    requires |trace| == |steps| + 1 && k < |steps|
  {
    Callable(trace[k], steps[k].op) && Next(trace[k], steps[k].op, steps[k].outcome, steps[k].status, trace[k + 1])
  }

  // ---------- The list a flush leaves ----------

  /** The index, before file `i` is placed, of the entry that is at `x` afterwards. */
  function PlacedOrigin(g: Geometry, files: seq<File>, i: nat, x: nat): nat
    requires i < |files| && files[i].info.Some?
  {
    if files[i].OnDisk() then x
    else
      match FindFrom(g, files, 0, 0, files[i].info.value.size + DESCRIPTION_SIZE)
      case Before(k, _) => if i != k then Origin(i, k, x) else x
      case _ => x
  }

  /** Where the entry that was at `x` is afterwards. */
  function PlacedIndex(g: Geometry, files: seq<File>, i: nat, x: nat): nat
    requires i < |files| && files[i].info.Some?
  {
    if files[i].OnDisk() then x
    else
      match FindFrom(g, files, 0, 0, files[i].info.value.size + DESCRIPTION_SIZE)
      case Before(k, _) =>
        if i == k then x
        else if i < k then if x == i then k - 1 else if i < x < k then x - 1 else x
        else if x == i then k else if k <= x < i then x + 1 else x
      case _ => x
  }

  lemma {:induction false} PlacedEntries(g: Geometry, files: seq<File>, i: nat, x: nat)
    requires i < |files| && files[i].info.Some? && Place(g, files, i).Placed? && x < |files|
    ensures var p := Place(g, files, i);
            && PlacedOrigin(g, files, i, x) < |files|
            && p.files[x] == files[PlacedOrigin(g, files, i, x)]
            && (x == p.index <==> PlacedOrigin(g, files, i, x) == i)
    ensures var y := PlacedIndex(g, files, i, x);
            y < |files| && PlacedOrigin(g, files, i, y) == x
  {
    hide FindFrom, Relink;
    if !files[i].OnDisk() {
      match FindFrom(g, files, 0, 0, files[i].info.value.size + DESCRIPTION_SIZE)
      case Before(k, start) => RelinkIsOrigin(files, i, k, x);
      case _ =>
    }
  }

  lemma {:induction false} PlacedOnce(g: Geometry, files: seq<File>, i: nat, x: nat, y: nat)
    requires i < |files| && files[i].info.Some? && Place(g, files, i).Placed? && x < y < |files|
    ensures PlacedOrigin(g, files, i, x) != PlacedOrigin(g, files, i, y)
  {
  }

  /** The record is in the list at another index than `i`. */
  ghost predicate Elsewhere(files: seq<File>, i: nat, f: File)
  {
    exists y :: 0 <= y < |files| && y != i && files[y] == f
  }

  /** Every entry of the new list but the one at `j` comes from the old list, and not from index `i`. */
  ghost predicate OthersFrom(files: seq<File>, i: nat, files': seq<File>, j: nat)
  {
    forall x :: 0 <= x < |files'| && x != j ==> Elsewhere(files, i, files'[x])
  }

  /** A flush changes no entry of the list but the file's own, and of that only what is on disk and the buffer. */
  ghost predicate OwnChange(files: seq<File>, i: nat, files': seq<File>, j: nat)
  {
    && |files'| == |files| && i < |files| && j < |files|
    && files'[j] == files[i].(hw := files'[j].hw, hwAddress := files'[j].hwAddress, regions := files'[j].regions)
    && OthersFrom(files, i, files', j) && OthersFrom(files', j, files, i)
  }

  lemma {:induction false} PlacedOwnChange(g: Geometry, files: seq<File>, i: nat, f: File)
    requires i < |files| && files[i].info.Some? && Place(g, files, i).Placed?
    requires f == files[i].(hw := f.hw, hwAddress := f.hwAddress, regions := f.regions)
    ensures var p := Place(g, files, i); OwnChange(files, i, p.files[p.index := f], p.index)
  {
    hide FindFrom, PlacedOrigin, PlacedIndex, Place, OthersFrom;
    var p := Place(g, files, i);
    var files' := p.files[p.index := f];
    assert OthersFrom(files, i, files', p.index) by {
      PlacedOthers(g, files, i, f);
    }
    assert OthersFrom(files', p.index, files, i) by {
      PlacedFinds(g, files, i, f);
    }
  }

  lemma {:induction false} PlacedOthers(g: Geometry, files: seq<File>, i: nat, f: File)
    requires i < |files| && files[i].info.Some? && Place(g, files, i).Placed?
    ensures var p := Place(g, files, i); OthersFrom(files, i, p.files[p.index := f], p.index)
  {
    hide FindFrom, PlacedOrigin, PlacedIndex, Place;
    var p := Place(g, files, i);
    var files' := p.files[p.index := f];
    forall x | 0 <= x < |files'| && x != p.index
      ensures Elsewhere(files, i, files'[x])
    {
      PlacedEntries(g, files, i, x);
      assert files'[x] == files[PlacedOrigin(g, files, i, x)];
    }
  }

  lemma {:induction false} PlacedFinds(g: Geometry, files: seq<File>, i: nat, f: File)
    requires i < |files| && files[i].info.Some? && Place(g, files, i).Placed?
    ensures var p := Place(g, files, i); OthersFrom(p.files[p.index := f], p.index, files, i)
  {
    hide FindFrom, PlacedOrigin, PlacedIndex, Place;
    var p := Place(g, files, i);
    var files' := p.files[p.index := f];
    forall y | 0 <= y < |files| && y != i
      ensures Elsewhere(files', p.index, files[y])
    {
      var x := PlacedIndex(g, files, i, y);
      PlacedEntries(g, files, i, y);
      PlacedEntries(g, files, i, x);
      assert files'[x] == files[y];
    }
  }

  lemma {:induction false} FlushOwnChange(s: State, i: nat, status: Status, s': State, j: nat, done: nat)
    requires Flushable(s, i) && FlushStep(s, i, status, s', j, done)
    ensures OwnChange(s.files, i, s'.files, j)
    ensures s'.geometry == s.geometry && |s'.media| == |s.media|
  {
    var g, f := s.geometry, s.files[i];
    SameSize(s, i, status, s', j, done);
    if f.info.Some? && f.mode == ReadWrite && Place(g, s.files, i).Placed? {
      FlushedList(s, i, status, s', j, done);
      PlacedOwnChange(g, s.files, i, s'.files[j]);
    } else {
      assert s' == s && j == i;
      OwnSelf(s.files, i);
    }
  }

  lemma {:induction false} OwnSelf(files: seq<File>, i: nat)
    requires i < |files|
    ensures OwnChange(files, i, files, i)
  {
    assert forall x :: 0 <= x < |files| && x != i ==> Elsewhere(files, i, files[x]);
  }

  lemma {:induction false} FlushedList(s: State, i: nat, status: Status, s': State, j: nat, done: nat)
    requires Flushable(s, i) && FlushStep(s, i, status, s', j, done)
    requires s.files[i].info.Some? && s.files[i].mode == ReadWrite && Place(s.geometry, s.files, i).Placed?
    ensures var p := Place(s.geometry, s.files, i);
            j == p.index && s'.files == p.files[j := s'.files[j]]
    ensures var f := s'.files[j];
            f == s.files[i].(hw := f.hw, hwAddress := f.hwAddress, regions := f.regions)
  {
    hide Executed, FlushPlan, RegionsPlan, Place, ContextFor;
  }

  // ---------- The layout in every run ----------

  /** What holds in every state of a guarded run. */
  ghost predicate Sound(s: State)
  {
    && s.geometry.Valid() && |s.media| == s.geometry.Size()
    && NamesFit(s.files)
    && Allocated(s.geometry, s.files)
  }

  predicate NamesFit(files: seq<File>)
  {
    forall i :: 0 <= i < |files| && files[i].info.Some? ==> IsName(files[i].info.value.name)
  }

  /** A file's flush has room for all that it may write. */
  ghost predicate RoomToFlush(s: State, i: nat)
    requires Flushable(s, i)
  {
    var f := s.files[i];
    f.info.Some? ==> RoomFor(s.geometry, s.files, i, Reach(f.info.value.size, f.regions))
  }

  /** The recognised tails of the media describe disjoint files, each with its data before its description. */
  ghost predicate TailsDisjoint(g: Geometry, m: seq<byte>)
    requires g.Valid() && |m| == g.Size()
  {
    && (forall lba :: 0 <= lba < g.blocks && ImageAt(g, m, lba) ==>
          FoundAt(g, m, lba).OnDisk() && RecordOk(g, FoundAt(g, m, lba)))
    && (forall lba, next :: 0 <= lba < next < g.blocks && ImageAt(g, m, lba) && ImageAt(g, m, next) ==>
          lba < FoundAt(g, m, next).hw.blockStart)
  }

  /** What the layout needs of the calls: room for a flush, and a mountable medium. */
  ghost predicate Guarded(s: State, op: Op)
    requires Callable(s, op)
  {
    match op
    case Flush(i) => RoomToFlush(s, i)
    case Close(i) => RoomToFlush(s, i)
    case ReadFrom(i, _) => RoomToFlush(s, i)
    case Mount => TailsDisjoint(s.geometry, s.media)
    case _ => true
  }

  lemma {:induction false} AllocatedPrefix(g: Geometry, files: seq<File>, k: nat)
    requires Allocated(g, files) && k <= |files|
    ensures Allocated(g, files[..k])
  {
  }

  lemma {:induction false} AllocatedRemoved(g: Geometry, files: seq<File>, i: nat)
    requires Allocated(g, files) && i < |files|
    ensures Allocated(g, Removed(files, i))
  {
    var r := Removed(files, i);
    assert forall x :: 0 <= x < |r| ==> r[x] == files[if x < i then x else x + 1];
  }

  lemma {:induction false} AllocatedAtHead(g: Geometry, files: seq<File>, f: File)
    requires Allocated(g, files) && f.hw == NO_DESCRIPTION && f.hwAddress == 0
    ensures Allocated(g, [f] + files)
  {
    var r := [f] + files;
    assert forall x :: 1 <= x < |r| ==> r[x] == files[x - 1];
  }

  /** A mount yields a proper layout exactly when the recognised tails describe disjoint files. */
  lemma {:induction false} MountAllocatesExactly(g: Geometry, m: seq<byte>)
    requires g.Valid() && |m| == g.Size()
    ensures Allocated(g, Scan(g, m, 0)) <==> TailsDisjoint(g, m)
  {
    var fs := Scan(g, m, 0);
    ScanIsSound(g, m, 0);
    if TailsDisjoint(g, m) {
      DisjointTailsAllocated(g, m, fs);
    }
    if Allocated(g, fs) {
      forall lba | 0 <= lba < g.blocks && ImageAt(g, m, lba)
        ensures FoundAt(g, m, lba).OnDisk() && RecordOk(g, FoundAt(g, m, lba))
      {
        ScannedIsOnDisk(g, m, lba);
      }
      forall lba, next | 0 <= lba < next < g.blocks && ImageAt(g, m, lba) && ImageAt(g, m, next)
        ensures lba < FoundAt(g, m, next).hw.blockStart
      {
        ScannedApart(g, m, lba, next);
      }
    }
  }

  lemma {:induction false} DisjointTailsAllocated(g: Geometry, m: seq<byte>, fs: seq<File>)
    requires g.Valid() && |m| == g.Size() && TailsDisjoint(g, m) && Ascending(g, m, 0, fs)
    ensures Allocated(g, fs)
  {
    hide ImageAt, FoundAt, RecordOk;
    forall x | 0 <= x < |fs|
      ensures fs[x].OnDisk() && RecordOk(g, fs[x])
    {
      assert Found(g, m, fs[x]);
    }
    forall x, y | 0 <= x < y < |fs|
      ensures fs[x].hw.blockEnd < fs[y].hw.blockStart
    {
      assert Found(g, m, fs[x]) && Found(g, m, fs[y]);
    }
  }

  /** A recognised tail has a block start no later than its own block, and a description that is not all zeros. */
  lemma {:induction false} ImageIsDescribed(g: Geometry, m: seq<byte>, lba: nat)
    requires g.Valid() && |m| == g.Size() && lba < g.blocks && ImageAt(g, m, lba)
    ensures FoundAt(g, m, lba).hw != NO_DESCRIPTION && FoundAt(g, m, lba).hw.blockEnd == lba
  {
  }

  lemma {:induction false} ScannedIsOnDisk(g: Geometry, m: seq<byte>, lba: nat)
    requires g.Valid() && |m| == g.Size() && lba < g.blocks && ImageAt(g, m, lba)
    requires Allocated(g, Scan(g, m, 0))
    ensures FoundAt(g, m, lba).OnDisk() && RecordOk(g, FoundAt(g, m, lba))
  {
    ImageIsDescribed(g, m, lba);
    ScanIsComplete(g, m, 0, lba);
  }

  lemma {:induction false} ScannedApart(g: Geometry, m: seq<byte>, lba: nat, next: nat)
    requires g.Valid() && |m| == g.Size() && lba < next < g.blocks && ImageAt(g, m, lba) && ImageAt(g, m, next)
    requires Allocated(g, Scan(g, m, 0))
    ensures lba < FoundAt(g, m, next).hw.blockStart
  {
    hide ImageAt, FoundAt, RecordOk;
    var fs := Scan(g, m, 0);
    ScanIsSound(g, m, 0);
    ImageIsDescribed(g, m, lba);
    ImageIsDescribed(g, m, next);
    ScanIsComplete(g, m, 0, lba);
    ScanIsComplete(g, m, 0, next);
    ScannedIsOnDisk(g, m, lba);
    ScannedIsOnDisk(g, m, next);
    var x :| 0 <= x < |fs| && fs[x] == FoundAt(g, m, lba);
    var y :| 0 <= y < |fs| && fs[y] == FoundAt(g, m, next);
  }

  /** Calls that touch neither the disk nor what is on record. */
  lemma {:induction false} OpenStaysSound(s: State, path: seq<byte>, mode: OpenMode, directory: bool)
    requires Sound(s) && IsPath(path)
    ensures Sound(s.(files := OpenFile(s.files, path, mode, directory).files))
  {
    var r := OpenFile(s.files, path, mode, directory);
    var name := WithoutSeparator(path);
    if r.handle.FileAt? {
      assert IsName(name);
      match Lookup(s.files, name)
      case Some(i) => SameRecord(s.geometry, s.files, i, Opened(s.files[i], name, mode));
      case None => AllocatedAtHead(s.geometry, s.files, Opened(NEW_FILE, name, mode));
    }
  }

  lemma {:induction false} RecordStaysSound(s: State, i: nat, f: File)
    requires Sound(s) && i < |s.files|
    requires f.hw == s.files[i].hw && f.hwAddress == s.files[i].hwAddress
    requires f.info.Some? ==> IsName(f.info.value.name)
    ensures Sound(s.(files := s.files[i := f]))
  {
    SameRecord(s.geometry, s.files, i, f);
  }

  lemma {:induction false} SetStaysSound(s: State, i: nat, name: seq<byte>, size: nat)
    requires Sound(s) && i < |s.files| && IsPath(name)
    ensures Sound(s.(files := SetInfo(s.files, i, name, size).files))
  {
    hide Allocated, TrimRegions, NameOf, LookupFrom;
    var r := SetInfo(s.files, i, name, size);
    assert s.files[i := s.files[i]] == s.files;
    if r.files != s.files {
      RecordStaysSound(s, i, r.files[i]);
      assert r.files == s.files[i := r.files[i]];
    }
  }

  lemma {:induction false} FlushStaysSound(s: State, i: nat, status: Status, s': State, j: nat, done: nat)
    requires Sound(s) && i < |s.files| && Flushable(s, i) && RoomToFlush(s, i)
    requires FlushStep(s, i, status, s', j, done)
    ensures Sound(s')
  {
    FlushWithRoomKeepsLayout(s, i, status, s', j, done);
    hide FlushStep, Allocated;
    FlushOwnChange(s, i, status, s', j, done);
  }

  lemma {:induction false} DeleteStaysSound(s: State, i: nat, status: Status, s': State)
    requires Sound(s) && i < |s.files| && DeleteStep(s, i, status, s')
    ensures Sound(s')
  {
    AllocatedRemoved(s.geometry, s.files, i);
    SameRecord(s.geometry, s.files, i, s.files[i].(regions := []));
  }

  lemma {:induction false} ScannedAreClosed(g: Geometry, m: seq<byte>, lba: nat)
    requires g.Valid() && |m| == g.Size() && lba <= g.blocks
    ensures forall f :: f in Scan(g, m, lba) ==> f.info.None? && f.regions == []
    decreases g.blocks - lba
  {
    if lba < g.blocks {
      ScannedAreClosed(g, m, lba + 1);
    }
  }

  lemma {:induction false} MountStaysSound(s: State, s': State)
    requires Sound(s) && TailsDisjoint(s.geometry, s.media) && MountStep(s, s')
    ensures Sound(s')
  {
    var fs := Scan(s.geometry, s.media, 0);
    MountAllocatesExactly(s.geometry, s.media);
    AllocatedPrefix(s.geometry, fs, |s'.files|);
    ScannedAreClosed(s.geometry, s.media, 0);
    assert s'.files == fs[..|s'.files|];
    assert forall i :: 0 <= i < |s'.files| ==> s'.files[i] in fs;
  }

  lemma {:induction false} ReadStaysSound(s: State, i: nat, n: nat, o: Outcome, status: Status, data: seq<byte>, s': State)
    requires Sound(s) && i < |s.files| && Flushable(s, i) && RoomToFlush(s, i)
    requires ReadStep(s, i, n, o, status, data, s')
    ensures Sound(s')
  {
    hide FlushStep, RoomToFlush;
    if s.files[i].info.Some? {
      var t, ok :| FlushStep(s, i, o.flushed, t, o.index, o.done) && ReadAfter(t, o.index, n, ok, status, data, s');
      FlushStaysSound(s, i, o.flushed, t, o.index, o.done);
      RecordStaysSound(t, o.index, s'.files[o.index]);
    }
  }

  lemma {:induction false} CloseStaysSound(s: State, i: nat, o: Outcome, status: Status, s': State)
    requires Sound(s) && i < |s.files| && Flushable(s, i) && RoomToFlush(s, i)
    requires CloseStep(s, i, o, status, s')
    ensures Sound(s')
  {
    hide FlushStep, RoomToFlush;
    if s.files[i].info.Some? {
      var t :| FlushStep(s, i, o.flushed, t, o.index, o.done) && ClosedIn(t, o.index, s');
      FlushStaysSound(s, i, o.flushed, t, o.index, o.done);
      RecordStaysSound(t, o.index, s'.files[o.index]);
    }
  }

  lemma {:induction false} EditStaysSound(s: State, op: Op, o: Outcome, status: Status, s': State)
    requires Sound(s) && (op.WriteAt? || op.Seek?) && Callable(s, op) && Next(s, op, o, status, s')
    ensures Sound(s')
  {
    if s' != s {
      RecordStaysSound(s, op.file, s'.files[op.file]);
    }
  }

  /** One guarded call keeps the layout, whatever the disk does. */
  lemma {:induction false} StepStaysSound(s: State, step: Step, s': State)
    requires Sound(s) && Callable(s, step.op) && Guarded(s, step.op)
    requires Next(s, step.op, step.outcome, step.status, s')
    ensures Sound(s')
  {
    hide Sound, RoomToFlush, TailsDisjoint, FlushStep, CloseStep, ReadStep, DeleteStep, MountStep, OpenFile, SetInfo;
    match step.op
    case Open(path, mode, directory) => OpenStaysSound(s, path, mode, directory);
    case WriteAt(_, _) => EditStaysSound(s, step.op, step.outcome, step.status, s');
    case Seek(_, _) => EditStaysSound(s, step.op, step.outcome, step.status, s');
    case Set(i, name, size) => SetStaysSound(s, i, name, size);
    case ReadFrom(i, n) =>
      var data :| ReadStep(s, i, n, step.outcome, step.status, data, s');
      ReadStaysSound(s, i, n, step.outcome, step.status, data, s');
    case Flush(i) => FlushStaysSound(s, i, step.status, s', step.outcome.index, step.outcome.done);
    case Close(i) => CloseStaysSound(s, i, step.outcome, step.status, s');
    case Delete(i) => DeleteStaysSound(s, i, step.status, s');
    case Mount => MountStaysSound(s, s');
  }

  /**
   In every state of every run from a sound state, with room at each flush and a
   mountable medium at each mount, files on disk are listed in increasing disjoint
   block ranges inside the media, data below description - also when the disk fails.
   */
  lemma {:induction false} RunsStaySound(trace: seq<State>, steps: seq<Step>, k: nat)
    requires Run(trace, steps) && Sound(trace[0]) && k < |trace|
    requires forall x :: 0 <= x < k ==> Taken(trace, steps, x) && Guarded(trace[x], steps[x].op)
    ensures Sound(trace[k])
  {
    hide Sound, Guarded, Next, Callable;
    if k > 0 {
      RunsStaySound(trace, steps, k - 1);
      assert Taken(trace, steps, k - 1);
      StepStaysSound(trace[k - 1], steps[k - 1], trace[k]);
    }
  }
}
