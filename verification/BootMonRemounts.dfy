/**
 Remounting along whole runs: while the disk works, flash agrees with the file records
 in every state; if no flush leaves a stale description, every state can be remounted,
 and what was written and closed is there after the mount.
 */
module BootMonRemounts {
  import opened Bytes
  import opened Options
  import opened ByteStore
  import opened BootMonImage
  import opened BootMonVolume
  import opened BootMonAllocation
  import opened BootMonFlush
  import opened BootMonMount
  import opened BootMonTails
  import opened BootMonBuffer
  import opened BootMonOperations
  import opened BootMonRuns
  import opened BootMonNames
  import opened BootMonDurability
  import opened BootMonStale

  // ---------- Whole runs ----------

  /** Buffers end within their files, below 4 GiB; a file that is closed or cannot be written buffers nothing. */
  predicate TidyFile(f: File)
  {
    && RegionsWithin(f)
    && (f.info.Some? ==> f.info.value.size < TWO_TO_THE_32)
    && (f.info.None? || f.mode == ReadOnly ==> f.regions == [])
  }

  predicate Tidy(files: seq<File>)
  {
    forall f | f in files :: TidyFile(f)
  }

  ghost predicate Settled(s: State)
  {
    Sound(s) && FlashMatches(s) && Tidy(s.files)
  }

  /** The disk does what it is told, flushes find space, files stay below 4 GiB, mounts meet clean tails. */
  ghost predicate Quiet(s: State, step: Step)
    requires Callable(s, step.op)
  {
    && Guarded(s, step.op)
    && match step.op
       case WriteAt(i, data) => s.files[i].position + |data| < TWO_TO_THE_32
       case Set(_, _, size) => size < TWO_TO_THE_32
       case ReadFrom(_, _) => step.outcome.flushed != DeviceError && step.outcome.flushed != VolumeFull
       case Flush(_) => step.status != DeviceError && step.status != VolumeFull
       case Close(_) => step.outcome.flushed != DeviceError && step.outcome.flushed != VolumeFull
       case Delete(_) => step.status != WarnDeleteFailure
       case Mount => CleanTails(s)
       case _ => true
  }

  lemma {:induction false} ChangedInMemory(s: State, i: nat, f: File)
    requires Settled(s) && i < |s.files| && TidyFile(f)
    requires f.hw == s.files[i].hw && f.hwAddress == s.files[i].hwAddress
    requires f.info.Some? ==> IsName(f.info.value.name)
    ensures Settled(s.(files := s.files[i := f]))
  {
    hide OnFlash, Allocated, TidyFile;
    RecordStaysSound(s, i, f);
    var r := s.files[i := f];
    if f.OnDisk() {
      SameRecordOnFlash(s.media, s.files[i], f);
    }
    assert forall x :: 0 <= x < |r| && x != i ==> r[x] == s.files[x];
    assert forall x :: x in r ==> x == f || x in s.files;
  }

  lemma {:induction false} OpenStaysSettled(s: State, path: seq<byte>, mode: OpenMode, directory: bool)
    requires Settled(s) && IsPath(path)
    ensures Settled(s.(files := OpenFile(s.files, path, mode, directory).files))
  {
    hide OnFlash, Allocated;
    OpenStaysSound(s, path, mode, directory);
    var r := OpenFile(s.files, path, mode, directory);
    var name := WithoutSeparator(path);
    if r.handle.FileAt? {
      match Lookup(s.files, name)
      case Some(i) =>
        assert TidyFile(s.files[i]);
        ChangedInMemory(s, i, Opened(s.files[i], name, mode));
      case None => NewSettles(s, Opened(NEW_FILE, name, mode));
    }
  }

  lemma {:induction false} NewSettles(s: State, f: File)
    requires Settled(s) && TidyFile(f) && !f.OnDisk() && Sound(s.(files := [f] + s.files))
    ensures Settled(s.(files := [f] + s.files))
  {
    hide OnFlash, Allocated, TidyFile;
    var r := [f] + s.files;
    assert forall x :: 1 <= x < |r| ==> r[x] == s.files[x - 1];
  }

  lemma {:induction false} WriteIsTidy(f: File, data: seq<byte>)
    requires TidyFile(f) && f.info.Some? && f.mode == ReadWrite && f.position + |data| < TWO_TO_THE_32
    ensures TidyFile(WriteFile(f, data))
  {
  }

  lemma {:induction false} ResizeIsTidy(f: File, size: nat)
    requires TidyFile(f) && f.info.Some? && f.mode == ReadWrite && size < TWO_TO_THE_32
    ensures TidyFile(SetFileSize(f, size))
  {
    TrimStaysWithin(f.regions, size);
  }

  lemma {:induction false} SetStaysSettled(s: State, i: nat, name: seq<byte>, size: nat)
    requires Settled(s) && i < |s.files| && IsPath(name) && size < TWO_TO_THE_32
    ensures Settled(s.(files := SetInfo(s.files, i, name, size).files))
  {
    hide OnFlash, Allocated, SetFileSize;
    var r := SetInfo(s.files, i, name, size);
    assert s.files[i := s.files[i]] == s.files;
    if r.files != s.files {
      var f := s.files[i];
      assert TidyFile(f);
      if size != f.info.value.size && f.mode == ReadWrite {
        ResizeIsTidy(f, size);
      }
      ResizeKeepsName(f, size);
      assert r.files == s.files[i := r.files[i]];
      ResizeKeepsAddress(f, size);
      ChangedInMemory(s, i, r.files[i]);
    }
  }

  lemma {:induction false} ResizeKeepsAddress(f: File, size: nat)
    requires f.info.Some?
    ensures SetFileSize(f, size).hwAddress == f.hwAddress
  {
  }

  lemma {:induction false} FlushStaysSettled(s: State, i: nat, status: Status, s': State, j: nat, done: nat)
    requires Settled(s) && Flushable(s, i) && RoomToFlush(s, i) && FlushStep(s, i, status, s', j, done)
    requires status != DeviceError && status != VolumeFull
    ensures Settled(s') && j < |s'.files|
    ensures status == Success ==> s'.files[j].regions == []
  {
    hide OnFlash, Allocated, TidyFile, RoomFor;
    if status == Success {
      SuccessIsPlaced(s, i, s', j, done);
      var f := s.files[i];
      assert TidyFile(f);
      TidyIsWithin(f);
      FlushKeepsFlash(s, i, s', j, done);
      FlushStaysSound(s, i, status, s', j, done);
      RoomBoundsSize(s, i, s', j, done);
      var c, b := SuccessIsFlushed(s, i, s', j, done);
      FlushedIsTidy(f, s'.files[j]);
      FlushOwnChange(s, i, status, s', j, done);
      OthersTidy(s.files, i, s'.files, j);
    } else {
      NoOpFlush(s, i, status, s', j, done);
    }
  }

  lemma {:induction false} TidyIsWithin(f: File)
    requires TidyFile(f) && f.info.Some?
    ensures RegionsWithin(f) && Reach(f.info.value.size, f.regions) == f.info.value.size
  {
  }

  lemma {:induction false} FlushedIsTidy(f: File, f': File)
    requires TidyFile(f) && f' == f.(hw := f'.hw, hwAddress := f'.hwAddress, regions := [])
    ensures TidyFile(f')
  {
  }

  lemma {:induction false} OthersTidy(files: seq<File>, i: nat, files': seq<File>, j: nat)
    requires Tidy(files) && OthersFrom(files, i, files', j) && j < |files'| && TidyFile(files'[j])
    ensures Tidy(files')
  {
    hide TidyFile;
    forall x | 0 <= x < |files'|
      ensures TidyFile(files'[x])
    {
      if x != j {
        assert Elsewhere(files, i, files'[x]);
      }
    }
  }

  lemma {:induction false} NoOpFlush(s: State, i: nat, status: Status, s': State, j: nat, done: nat)
    requires Flushable(s, i) && FlushStep(s, i, status, s', j, done)
    requires status != DeviceError && status != VolumeFull && status != Success
    ensures s' == s && j == i && (s.files[i].info.Some? ==> s.files[i].mode == ReadOnly)
  {
    hide Executed, RegionsPlan;
    if s.files[i].info.Some? && s.files[i].mode == ReadWrite && Place(s.geometry, s.files, i).Placed? {
      var p := Place(s.geometry, s.files, i);
      PlanStatus(ContextFor(s.geometry, p.files, p.index, p.start), s.files[i]);
    }
  }

  lemma {:induction false} CloseStaysSettled(s: State, i: nat, o: Outcome, status: Status, s': State)
    requires Settled(s) && Flushable(s, i) && RoomToFlush(s, i) && CloseStep(s, i, o, status, s')
    requires o.flushed != DeviceError && o.flushed != VolumeFull
    ensures Settled(s')
  {
    hide FlushStep, RoomToFlush, Settled;
    if s.files[i].info.Some? {
      var t :| FlushStep(s, i, o.flushed, t, o.index, o.done) && ClosedIn(t, o.index, s');
      FlushStaysSettled(s, i, o.flushed, t, o.index, o.done);
      if o.flushed != Success {
        NoOpFlush(s, i, o.flushed, t, o.index, o.done);
        SettledFile(s, i);
      }
      ClosedIsTidy(t.files[o.index]);
      ChangedInMemory(t, o.index, s'.files[o.index]);
    }
  }

  lemma {:induction false} SettledFile(s: State, i: nat)
    requires Settled(s) && i < |s.files|
    ensures TidyFile(s.files[i])
    ensures s.files[i].info.None? || s.files[i].mode == ReadOnly ==> s.files[i].regions == []
    ensures s.files[i].info.Some? ==> IsName(s.files[i].info.value.name)
  {
    assert s.files[i] in s.files;
  }

  lemma {:induction false} ClosedIsTidy(f: File)
    requires f.regions == []
    ensures TidyFile(f.(info := None))
  {
  }

  lemma {:induction false} ReadStaysSettled(s: State, i: nat, n: nat, o: Outcome, status: Status, data: seq<byte>, s': State)
    requires Settled(s) && Flushable(s, i) && RoomToFlush(s, i) && ReadStep(s, i, n, o, status, data, s')
    requires o.flushed != DeviceError && o.flushed != VolumeFull
    ensures Settled(s')
  {
    hide FlushStep, RoomToFlush, Settled, TidyFile;
    if s.files[i].info.Some? {
      var t, ok :| FlushStep(s, i, o.flushed, t, o.index, o.done) && ReadAfter(t, o.index, n, ok, status, data, s');
      FlushStaysSettled(s, i, o.flushed, t, o.index, o.done);
      SettledFile(t, o.index);
      AdvancedIsTidy(t.files[o.index], |data|);
      ChangedInMemory(t, o.index, s'.files[o.index]);
    }
  }

  lemma {:induction false} AdvancedIsTidy(f: File, n: nat)
    requires TidyFile(f)
    ensures TidyFile(Advanced(f, n))
  {
  }

  lemma {:induction false} DeleteStaysSettled(s: State, i: nat, status: Status, s': State)
    requires Settled(s) && i < |s.files| && DeleteStep(s, i, status, s') && status != WarnDeleteFailure
    ensures Settled(s')
  {
    hide OnFlash, Allocated, TidyFile, RecordOk;
    DeleteStaysSound(s, i, status, s');
    if s' != s {
      var r := Removed(s.files, i);
      forall y | 0 <= y < |r| && r[y].OnDisk()
        ensures OnFlash(s'.media, r[y])
      {
        var x := if y < i then y else y + 1;
        DeleteSpares(s, i, status, s', x);
        RecordOf(s, x);
        SameBlocksOnFlash(s.geometry, s.media, s'.media, s.files[x]);
      }
      assert forall f :: f in r ==> f in s.files;
    }
  }

  lemma {:induction false} RecordOf(s: State, x: nat)
    requires Sound(s) && x < |s.files| && s.files[x].OnDisk()
    ensures RecordOk(s.geometry, s.files[x])
  {
  }

  lemma {:induction false} ViewOrigin(files: seq<File>, k: nat, f: File)
    requires k <= |files| && f in OnDiskView(files, k)
    ensures exists x :: k <= x < |files| && files[x].OnDisk() && f == MountedFile(files[x].hw, files[x].hwAddress)
    decreases |files| - k
  {
    if !(files[k].OnDisk() && f == MountedFile(files[k].hw, files[k].hwAddress)) {
      ViewOrigin(files, k + 1, f);
    }
  }

  lemma {:induction false} MountStaysSettled(s: State, s': State)
    requires Settled(s) && TailsDisjoint(s.geometry, s.media) && CleanTails(s) && MountStep(s, s')
    ensures Settled(s')
  {
    hide OnFlash, Allocated, RecordOk, ImageAt;
    MountStaysSound(s, s');
    RemountExactly(s);
    var view := OnDiskView(s.files, 0);
    forall x | 0 <= x < |s'.files|
      ensures OnFlash(s'.media, s'.files[x]) && TidyFile(s'.files[x])
    {
      assert s'.files[x] == view[x] && view[x] in view;
      ViewOrigin(s.files, 0, view[x]);
      var y :| 0 <= y < |s.files| && s.files[y].OnDisk() && view[x] == MountedFile(s.files[y].hw, s.files[y].hwAddress);
      assert OnFlash(s.media, s.files[y]);
      SameRecordOnFlash(s.media, s.files[y], view[x]);
    }
  }

  lemma {:induction false} SameRecordOnFlash(m: seq<byte>, f: File, f': File)
    requires OnFlash(m, f) && f'.hw == f.hw && f'.hwAddress == f.hwAddress
    ensures OnFlash(m, f')
  {
  }

  lemma {:induction false} EditStaysSettled(s: State, step: Step, s': State)
    requires Settled(s) && (step.op.WriteAt? || step.op.Seek?) && Callable(s, step.op) && Quiet(s, step)
    requires Next(s, step.op, step.outcome, step.status, s')
    ensures Settled(s')
  {
    hide Settled;
    if s' != s {
      var i := step.op.file;
      SettledFile(s, i);
      if step.op.WriteAt? {
        WriteIsTidy(s.files[i], step.op.data);
      }
      ChangedInMemory(s, i, s'.files[i]);
    }
  }

  lemma {:induction false} StepStaysSettled(s: State, step: Step, s': State)
    requires Settled(s) && Callable(s, step.op) && Quiet(s, step)
    requires Next(s, step.op, step.outcome, step.status, s')
    ensures Settled(s')
  {
    hide Settled, Sound, RoomToFlush, TailsDisjoint, FlushStep, CloseStep, ReadStep, DeleteStep, MountStep, OpenFile, SetInfo, CleanTails;
    match step.op
    case Open(path, mode, directory) => OpenStaysSettled(s, path, mode, directory);
    case WriteAt(_, _) => EditStaysSettled(s, step, s');
    case Seek(_, _) => EditStaysSettled(s, step, s');
    case Set(i, name, size) => SetStaysSettled(s, i, name, size);
    case ReadFrom(i, n) =>
      var data :| ReadStep(s, i, n, step.outcome, step.status, data, s');
      ReadStaysSettled(s, i, n, step.outcome, step.status, data, s');
    case Flush(i) => FlushStaysSettled(s, i, step.status, s', step.outcome.index, step.outcome.done);
    case Close(i) => CloseStaysSettled(s, i, step.outcome, step.status, s');
    case Delete(i) => DeleteStaysSettled(s, i, step.status, s');
    case Mount => MountStaysSettled(s, s');
  }

  lemma {:induction false} RunsStaySettled(trace: seq<State>, steps: seq<Step>, k: nat)
    requires Run(trace, steps) && Settled(trace[0]) && k < |trace|
    requires forall x :: 0 <= x < k ==> Taken(trace, steps, x) && Quiet(trace[x], steps[x])
    ensures Settled(trace[k])
  {
    hide Settled, Quiet, Next, Callable;
    if k > 0 {
      RunsStaySettled(trace, steps, k - 1);
      assert Taken(trace, steps, k - 1);
      StepStaysSettled(trace[k - 1], steps[k - 1], trace[k]);
    }
  }

  // ---------- Runs that can remount at any time ----------

  /** The flush of file `i`, should it write, keeps tails clean. */
  ghost predicate KeepsTails(s: State, i: nat)
    requires Flushable(s, i)
  {
    var g, f := s.geometry, s.files[i];
    f.info.Some? && f.mode == ReadWrite && Place(g, s.files, i).Placed? ==>
      && f.info.value.name != []
      && var b := Place(g, s.files, i).start / g.blockSize;
         b >= 0 && DescribedEnd(g, f, b) == FinalEnd(g, f, b) && NoImpostor(g, s.media, f, b)
  }

  /** A quiet call whose flush, if it makes one, keeps tails clean; a mount that reads every block. */
  ghost predicate Careful(s: State, step: Step, s': State)
    requires Callable(s, step.op)
  {
    match step.op
    case Mount => |s'.files| == |Scan(s.geometry, s.media, 0)|
    case Flush(i) => Quiet(s, step) && KeepsTails(s, i)
    case Close(i) => Quiet(s, step) && KeepsTails(s, i)
    case ReadFrom(i, _) => Quiet(s, step) && KeepsTails(s, i)
    case _ => Quiet(s, step)
  }

  /** Flash agrees with the records, and tails are clean. */
  ghost predicate Remountable(s: State)
  {
    Settled(s) && CleanTails(s)
  }

  /** Every file on disk before is one, ending in the same block, after; flash is the same. */
  ghost predicate EndsKept(s: State, s': State)
  {
    && s'.geometry == s.geometry && s'.media == s.media
    && forall x :: 0 <= x < |s.files| && s.files[x].OnDisk() ==> Owned(s'.files, s.files[x].hw.blockEnd)
  }

  lemma {:induction false} EndsKeptClean(s: State, s': State)
    requires s.geometry.Valid() && |s.media| == s.geometry.Size() && CleanTails(s) && EndsKept(s, s')
    ensures CleanTails(s')
  {
    hide ImageAt;
    forall lba | 0 <= lba < s.geometry.blocks && ImageAt(s.geometry, s.media, lba)
      ensures Owned(s'.files, lba)
    {
      var x :| 0 <= x < |s.files| && s.files[x].OnDisk() && s.files[x].hw.blockEnd == lba;
    }
  }

  lemma {:induction false} ChangedEnds(s: State, i: nat, f: File)
    requires i < |s.files| && f.hw == s.files[i].hw
    ensures EndsKept(s, s.(files := s.files[i := f]))
  {
    var r := s.files[i := f];
    forall x | 0 <= x < |s.files| && s.files[x].OnDisk()
      ensures Owned(r, s.files[x].hw.blockEnd)
    {
      assert r[x].OnDisk() && r[x].hw.blockEnd == s.files[x].hw.blockEnd;
    }
  }

  lemma {:induction false} OpenEnds(s: State, path: seq<byte>, mode: OpenMode, directory: bool)
    ensures EndsKept(s, s.(files := OpenFile(s.files, path, mode, directory).files))
  {
    hide Owned, Opened, EffectiveName, DoubleSeparator, EndsAtFirstSeparator;
    var r, name := OpenFile(s.files, path, mode, directory), WithoutSeparator(path);
    SameEnds(s);
    if r.handle.FileAt? {
      match Lookup(s.files, name)
      case Some(i) =>
        OpenedHw(s.files[i], name, mode);
        ChangedEnds(s, i, Opened(s.files[i], name, mode));
      case None => HeadEnds(s, Opened(NEW_FILE, name, mode));
    }
  }

  lemma {:induction false} OpenedHw(f: File, name: seq<byte>, mode: OpenMode)
    ensures Opened(f, name, mode).hw == f.hw
  {
  }

  lemma {:induction false} SameEnds(s: State)
    ensures EndsKept(s, s)
  {
  }

  lemma {:induction false} HeadEnds(s: State, f: File)
    ensures EndsKept(s, s.(files := [f] + s.files))
  {
    var r := [f] + s.files;
    forall x | 0 <= x < |s.files| && s.files[x].OnDisk()
      ensures Owned(r, s.files[x].hw.blockEnd)
    {
      assert r[x + 1] == s.files[x];
    }
  }

  lemma {:induction false} SetEnds(s: State, i: nat, name: seq<byte>, size: nat)
    requires i < |s.files|
    ensures EndsKept(s, s.(files := SetInfo(s.files, i, name, size).files))
  {
    hide Owned, SetFileSize, EffectiveName;
    var r := SetInfo(s.files, i, name, size);
    SameEnds(s);
    if r.files != s.files {
      assert s.files[i := s.files[i]] == s.files;
      if size != s.files[i].info.value.size {
        ResizeKeepsName(s.files[i], size);
      }
      assert r.files == s.files[i := r.files[i]];
      ChangedEnds(s, i, r.files[i]);
    }
  }

  /** A flush that runs into no error keeps the volume remountable. */
  lemma {:induction false} FlushStaysRemountable(s: State, i: nat, status: Status, s': State, j: nat, done: nat)
    requires Remountable(s) && Flushable(s, i) && RoomToFlush(s, i) && KeepsTails(s, i) && FlushStep(s, i, status, s', j, done)
    requires status != DeviceError && status != VolumeFull
    ensures Remountable(s') && j < |s'.files|
  {
    hide OnFlash, Allocated, TidyFile, RoomFor, FlushStep, CleanTails, NoImpostor, DescribedEnd, FinalEnd, Place;
    FlushStaysSettled(s, i, status, s', j, done);
    if status == Success {
      SuccessIsPlaced(s, i, s', j, done);
      assert s.files[i] in s.files && TidyFile(s.files[i]);
      TidyIsWithin(s.files[i]);
      FlushKeepsTailsExactly(s, i, s', j, done);
    } else {
      NoOpFlush(s, i, status, s', j, done);
    }
  }

  lemma {:induction false} CloseStaysRemountable(s: State, i: nat, o: Outcome, status: Status, s': State)
    requires Remountable(s) && Flushable(s, i) && RoomToFlush(s, i) && KeepsTails(s, i) && CloseStep(s, i, o, status, s')
    requires o.flushed != DeviceError && o.flushed != VolumeFull
    ensures Remountable(s')
  {
    hide FlushStep, RoomToFlush, Settled, CleanTails, KeepsTails;
    CloseStaysSettled(s, i, o, status, s');
    if s.files[i].info.Some? {
      var t :| FlushStep(s, i, o.flushed, t, o.index, o.done) && ClosedIn(t, o.index, s');
      FlushStaysRemountable(s, i, o.flushed, t, o.index, o.done);
      SettledShape(t);
      ChangedEnds(t, o.index, s'.files[o.index]);
      EndsKeptClean(t, s');
    }
  }

  lemma {:induction false} SettledShape(s: State)
    requires Settled(s)
    ensures s.geometry.Valid() && |s.media| == s.geometry.Size() && Allocated(s.geometry, s.files) && FlashMatches(s)
  {
  }

  lemma {:induction false} ReadStaysRemountable(s: State, i: nat, n: nat, o: Outcome, status: Status, data: seq<byte>, s': State)
    requires Remountable(s) && Flushable(s, i) && RoomToFlush(s, i) && KeepsTails(s, i) && ReadStep(s, i, n, o, status, data, s')
    requires o.flushed != DeviceError && o.flushed != VolumeFull
    ensures Remountable(s')
  {
    hide FlushStep, RoomToFlush, Settled, CleanTails, KeepsTails;
    ReadStaysSettled(s, i, n, o, status, data, s');
    if s.files[i].info.Some? {
      var t, ok :| FlushStep(s, i, o.flushed, t, o.index, o.done) && ReadAfter(t, o.index, n, ok, status, data, s');
      FlushStaysRemountable(s, i, o.flushed, t, o.index, o.done);
      SettledShape(t);
      ChangedEnds(t, o.index, s'.files[o.index]);
      EndsKeptClean(t, s');
    }
  }

  /** An erased tail is not recognised; the tails of other blocks are not touched. */
  lemma {:induction false} ErasedTail(g: Geometry, m: seq<byte>, f: File, lba: nat)
    requires g.Valid() && |m| == g.Size() && RecordOk(g, f) && lba < g.blocks
    requires Write(f.hwAddress, Zeros(DESCRIPTION_SIZE)).Fits(|m|)
    ensures var m' := ApplyOne(m, Write(f.hwAddress, Zeros(DESCRIPTION_SIZE)));
            ImageAt(g, m', lba) == (lba != f.hw.blockEnd && ImageAt(g, m, lba))
  {
    hide ApplyOne, Decode, FooterMatches;
    var m' := ApplyOne(m, Write(f.hwAddress, Zeros(DESCRIPTION_SIZE)));
    var at := TailOf(g, lba);
    BlockInside(g, lba);
    if lba == f.hw.blockEnd {
      ZerosDecode(m'[at..at + DESCRIPTION_SIZE]);
    } else {
      if lba < f.hw.blockEnd {
        TailsOfBlocksApart(g, lba, f.hw.blockEnd);
      } else {
        TailsOfBlocksApart(g, f.hw.blockEnd, lba);
      }
      TailInside(g, lba);
      TailInside(g, f.hw.blockEnd);
      SameTailSameImage(g, m, m', lba);
    }
  }

  lemma {:induction false} DeleteStaysClean(s: State, i: nat, status: Status, s': State)
    requires Remountable(s) && i < |s.files| && DeleteStep(s, i, status, s') && status != WarnDeleteFailure
    ensures s'.geometry == s.geometry && |s'.media| == |s.media| && CleanTails(s')
  {
    hide ImageAt, OnFlash, RecordOk, Tidy, ApplyOne;
    var f := s.files[i];
    if s' != s {
      forall lba | 0 <= lba < s.geometry.blocks && ImageAt(s.geometry, s'.media, lba)
        ensures Owned(s'.files, lba)
      {
        if f.OnDisk() {
          RecordOf(s, i);
          ErasedTail(s.geometry, s.media, f, lba);
        }
        var x :| 0 <= x < |s.files| && s.files[x].OnDisk() && s.files[x].hw.blockEnd == lba;
        assert s'.files[if x < i then x else x - 1] == s.files[x];
      }
    }
  }

  /**
   A deletion that reports success: the file is not listed any more, no listed file has
   its name, and the others are as they were, in their order. If it was on disk, its
   last block ends in no recognised description, so that no mount lists it; every other
   tail, and every byte that is not of the description, is as before.
   */
  lemma {:induction false} DeletedIsGone(s: State, i: nat, s': State)
    requires Sound(s) && i < |s.files| && DeleteStep(s, i, Success, s')
    ensures |s'.files| == |s.files| - 1
    ensures forall x :: 0 <= x < |s'.files| ==> s'.files[x] == s.files[if x < i then x else x + 1]
    ensures NamesDistinct(s.files) ==> Lookup(s'.files, EffectiveName(s.files[i])).None?
    ensures s'.geometry == s.geometry && |s'.media| == |s.media|
    ensures !s.files[i].OnDisk() ==> s'.media == s.media
    ensures var f := s.files[i];
            f.OnDisk() ==>
              && f.hw.blockEnd < s.geometry.blocks && !ImageAt(s.geometry, s'.media, f.hw.blockEnd)
              && (forall lba :: 0 <= lba < s.geometry.blocks && lba != f.hw.blockEnd ==>
                    ImageAt(s.geometry, s'.media, lba) == ImageAt(s.geometry, s.media, lba))
              && (forall x :: x in Scan(s.geometry, s'.media, 0) ==> x.hw.blockEnd != f.hw.blockEnd)
              && forall a :: 0 <= a < |s.media| && !(f.hwAddress <= a < f.hwAddress + DESCRIPTION_SIZE) ==> s'.media[a] == s.media[a]
  {
    hide ImageAt, EffectiveName, ApplyOne, Scan, Allocated;
    var f, g := s.files[i], s.geometry;
    if f.OnDisk() {
      RecordOf(s, i);
      forall lba | 0 <= lba < g.blocks
        ensures ImageAt(g, s'.media, lba) == (lba != f.hw.blockEnd && ImageAt(g, s.media, lba))
      {
        ErasedTail(g, s.media, f, lba);
      }
      ScanIsSound(g, s'.media, 0);
    }
  }

  lemma {:induction false} AllocatedCons(g: Geometry, f: File, rest: seq<File>)
    requires Allocated(g, rest) && f.OnDisk() && RecordOk(g, f)
    requires forall r :: r in rest && r.OnDisk() ==> f.hw.blockEnd < r.hw.blockStart
    ensures Allocated(g, [f] + rest)
  {
    hide RecordOk;
    var r := [f] + rest;
    assert forall x :: 1 <= x < |r| ==> r[x] == rest[x - 1];
  }

  lemma {:induction false} ViewAllocated(g: Geometry, files: seq<File>, k: nat)
    requires Allocated(g, files) && k <= |files|
    ensures Allocated(g, OnDiskView(files, k))
    decreases |files| - k
  {
    hide RecordOk;
    if k < |files| {
      ViewAllocated(g, files, k + 1);
      if files[k].OnDisk() {
        var first, rest := MountedFile(files[k].hw, files[k].hwAddress), OnDiskView(files, k + 1);
        MountedRecord(g, files[k]);
        forall r | r in rest && r.OnDisk()
          ensures first.hw.blockEnd < r.hw.blockStart
        {
          ViewOrigin(files, k + 1, r);
        }
        AllocatedCons(g, first, rest);
      }
    }
  }

  lemma {:induction false} MountedRecord(g: Geometry, f: File)
    requires RecordOk(g, f)
    ensures RecordOk(g, MountedFile(f.hw, f.hwAddress))
  {
  }

  /** A remountable volume can be mounted. */
  lemma {:induction false} CleanIsDisjoint(s: State)
    requires Remountable(s)
    ensures TailsDisjoint(s.geometry, s.media) && Scan(s.geometry, s.media, 0) == OnDiskView(s.files, 0)
  {
    hide CleanTails, TailsDisjoint, Scan, OnDiskView, Allocated, FlashMatches, Tidy;
    RemountExactly(s);
    ViewAllocated(s.geometry, s.files, 0);
    MountAllocatesExactly(s.geometry, s.media);
  }

  lemma {:induction false} MountStaysRemountable(s: State, s': State)
    requires Remountable(s) && MountStep(s, s') && |s'.files| == |Scan(s.geometry, s.media, 0)|
    ensures Remountable(s') && s'.files == OnDiskView(s.files, 0)
  {
    hide Settled, ImageAt, Found;
    SettledShape(s);
    CleanIsDisjoint(s);
    MountStaysSettled(s, s');
    var fs := Scan(s.geometry, s.media, 0);
    assert s'.files == fs;
    forall lba | 0 <= lba < s.geometry.blocks && ImageAt(s.geometry, s.media, lba)
      ensures Owned(s'.files, lba)
    {
      ScanIsComplete(s.geometry, s.media, 0, lba);
      FoundAtIsFound(s.geometry, s.media, lba);
      ViewOrigin(s.files, 0, FoundAt(s.geometry, s.media, lba));
      var x :| 0 <= x < |fs| && fs[x] == FoundAt(s.geometry, s.media, lba);
    }
  }

  lemma {:induction false} StepStaysRemountable(s: State, step: Step, s': State)
    requires Remountable(s) && Callable(s, step.op) && Careful(s, step, s')
    requires Next(s, step.op, step.outcome, step.status, s')
    ensures Remountable(s')
  {
    hide Settled, Sound, RoomToFlush, TailsDisjoint, FlushStep, CloseStep, ReadStep, DeleteStep, MountStep, OpenFile, SetInfo,
      CleanTails, KeepsTails, Owned, WriteFile, SetPosition;
    SettledShape(s);
    if !step.op.Mount? {
      StepStaysSettled(s, step, s');
    }
    match step.op
    case Open(path, mode, directory) =>
      OpenEnds(s, path, mode, directory);
      EndsKeptClean(s, s');
    case WriteAt(i, data) => EditStaysClean(s, step, s');
    case Seek(i, position) => EditStaysClean(s, step, s');
    case Set(i, name, size) =>
      SetEnds(s, i, name, size);
      EndsKeptClean(s, s');
    case ReadFrom(i, n) =>
      var data :| ReadStep(s, i, n, step.outcome, step.status, data, s');
      ReadStaysRemountable(s, i, n, step.outcome, step.status, data, s');
    case Flush(i) => FlushStaysRemountable(s, i, step.status, s', step.outcome.index, step.outcome.done);
    case Close(i) => CloseStaysRemountable(s, i, step.outcome, step.status, s');
    case Delete(i) => DeleteStaysClean(s, i, step.status, s');
    case Mount => MountStaysRemountable(s, s');
  }

  lemma {:induction false} EditStaysClean(s: State, step: Step, s': State)
    requires Settled(s) && CleanTails(s) && (step.op.WriteAt? || step.op.Seek?) && Callable(s, step.op)
    requires Next(s, step.op, step.outcome, step.status, s')
    ensures s'.geometry == s.geometry && |s'.media| == |s.media| && CleanTails(s')
  {
    hide CleanTails, Owned, Settled;
    if s' != s {
      ChangedEnds(s, step.op.file, s'.files[step.op.file]);
      EndsKeptClean(s, s');
    }
  }

  /**
   In every state of every careful run that starts with clean tails, a fresh mount
   rebuilds exactly the files on disk.
   */
  lemma {:induction false} RunsCanRemount(trace: seq<State>, steps: seq<Step>, k: nat)
    requires Run(trace, steps) && Remountable(trace[0]) && k < |trace|
    requires forall x :: 0 <= x < k ==> Taken(trace, steps, x) && Careful(trace[x], steps[x], trace[x + 1])
    ensures Remountable(trace[k])
    ensures var s := trace[k]; Scan(s.geometry, s.media, 0) == OnDiskView(s.files, 0)
  {
    hide Remountable, Careful, Next, Callable;
    if k > 0 {
      RunsCanRemount(trace, steps, k - 1);
      assert Taken(trace, steps, k - 1);
      StepStaysRemountable(trace[k - 1], steps[k - 1], trace[k]);
    }
    CleanIsDisjoint(trace[k]);
  }

  lemma {:induction false} ZerosDecode(raw: seq<byte>)
    requires |raw| == DESCRIPTION_SIZE && forall k :: 128 <= k < 136 ==> raw[k] == 0
    ensures !FooterMatches(Decode(raw))
  {
    assert raw[132..136] == [0, 0, 0, 0] && raw[128..132] == [0, 0, 0, 0];
  }

  lemma {:induction false} ZerosAreNoImage(g: Geometry, m: seq<byte>, lba: nat)
    requires g.Valid() && lba < g.blocks && |m| == g.Size() && forall k :: 0 <= k < |m| ==> m[k] == 0
    ensures !ImageAt(g, m, lba)
  {
    hide Decode, FooterMatches;
    var at := TailOf(g, lba);
    BlockInside(g, lba);
    ZerosDecode(m[at..at + DESCRIPTION_SIZE]);
  }

  /** A blank medium mounts to an empty list, and a run may start there: it meets every starting condition. */
  lemma {:induction false} BlankVolume(g: Geometry)
    requires g.Valid()
    ensures var s := State(g, Zeros(g.Size()), []);
            && Settled(s) && NamesSettled(s.files) && TailsDisjoint(g, s.media) && CleanTails(s)
            && Scan(g, s.media, 0) == []
  {
    hide ImageAt, FoundAt;
    var s := State(g, Zeros(g.Size()), []);
    forall lba | 0 <= lba < g.blocks
      ensures !ImageAt(g, s.media, lba)
    {
      ZerosAreNoImage(g, s.media, lba);
    }
    RemountExactly(s);
  }

  // ---------- Written data after a mount ----------

  predicate AllClosed(files: seq<File>)
  {
    forall f | f in files :: f.info.None?
  }

  lemma {:induction false} ViewContains(files: seq<File>, k: nat, x: nat)
    requires k <= x < |files| && files[x].OnDisk()
    ensures MountedFile(files[x].hw, files[x].hwAddress) in OnDiskView(files, k)
    decreases |files| - k
  {
    if k < x {
      ViewContains(files, k + 1, x);
    }
  }

  /** With all files closed, the names of those on disk stay distinct. */
  lemma {:induction false} ViewNames(files: seq<File>, k: nat)
    requires AllClosed(files) && NamesDistinct(files) && k <= |files|
    ensures NamesDistinct(OnDiskView(files, k))
    decreases |files| - k
  {
    hide NameOf;
    if k < |files| {
      ViewNames(files, k + 1);
      if files[k].OnDisk() {
        var first, rest := MountedFile(files[k].hw, files[k].hwAddress), OnDiskView(files, k + 1);
        forall x | 0 <= x < |rest|
          ensures EffectiveName(first) != EffectiveName(rest[x])
        {
          ViewOrigin(files, k + 1, rest[x]);
          var y :| k + 1 <= y < |files| && files[y].OnDisk() && rest[x] == MountedFile(files[y].hw, files[y].hwAddress);
          assert files[k] in files && files[y] in files;
          assert EffectiveName(files[k]) != EffectiveName(files[y]);
        }
        assert forall x :: 1 <= x < |[first] + rest| ==> ([first] + rest)[x] == rest[x - 1];
      }
    }
  }

  /** A file that keeps its bytes keeps them through a mount. */
  lemma {:induction false} KeptThroughMount(s: State, t: State, f: File, name: seq<byte>, bytes: seq<Option<byte>>)
    requires Remountable(s) && AllClosed(s.files) && NamesDistinct(s.files)
    requires MountStep(s, t) && |t.files| == |Scan(s.geometry, s.media, 0)|
    requires Keeps(s, f, name, bytes)
    ensures Remountable(t) && NamesDistinct(t.files) && Keeps(t, MountedFile(f.hw, f.hwAddress), name, bytes)
  {
    hide Settled, CleanTails, NameOf, OneRegion, NamesDistinct, Scan;
    MountStaysRemountable(s, t);
    var x :| 0 <= x < |s.files| && s.files[x] == f;
    ViewContains(s.files, 0, x);
    ViewNames(s.files, 0);
  }

  /**
   Durability across a mount: close a buffered file successfully, make any careful calls
   on other files, let all files be closed, mount the medium afresh, open the file by its
   name and read - a read that reports success returns the bytes that were written.
   */
  lemma {:induction false} WrittenSurvivesMount(s: State, i: nat, o: Outcome, p: PlainFile, trace: seq<State>, steps: seq<Step>,
                                                t: State, mode: OpenMode, n: nat, ro: Outcome, status: Status, data: seq<byte>, s': State)
    requires Flushable(s, i) && ClosesWell(s, i, p) && NamesSettled(s.files) && Remountable(s) && KeepsTails(s, i)
    requires Run(trace, steps) && CloseStep(s, i, o, Success, trace[0]) && o.flushed == Success
    requires forall k :: 0 <= k < |steps| ==>
               && Taken(trace, steps, k) && Guarded(trace[k], steps[k].op) && ClosesFlushed(trace[k], steps[k])
               && Careful(trace[k], steps[k], trace[k + 1])
    requires forall f :: f in trace[0].files && EffectiveName(f) == s.files[i].info.value.name ==>
               forall k, x :: 0 <= k < |steps| && 0 <= x < |trace[k].files| && trace[k].files[x] == f ==> Leaves(steps[k].op, f, x)
    requires var name := s.files[i].info.value.name; name[0] != PERIOD && BACKSLASH !in name
    requires var last := trace[|steps|];
             && last.geometry.Valid() && |last.media| == last.geometry.Size()
             && AllClosed(last.files) && MountStep(last, t) && |t.files| == |Scan(last.geometry, last.media, 0)|
    requires var opening := OpenFile(t.files, s.files[i].info.value.name, mode, false);
             var ready := t.(files := opening.files);
             opening.handle.FileAt? && Flushable(ready, opening.handle.index) ==>
               ReadStep(ready, opening.handle.index, n, ro, status, data, s')
    ensures var opening := OpenFile(t.files, s.files[i].info.value.name, mode, false);
            && opening.handle.FileAt?
            && opening.files[opening.handle.index].info.value.size == |p.bytes|
    ensures status == Success ==> Shows(data, p.bytes[..if n <= |p.bytes| then n else |p.bytes|])
  {
    hide FlushStep, Guarded, Next, Callable, Leaves, NameOf, Allocated, ReadStep, CloseStep, ClosesFlushed, ClosesWell, Refines,
      Keeps, NamesSettled, Careful, KeepsTails, CleanTails, FlashMatches, Tidy, MountStep, OpenFile, Scan, RoomToFlush;
    WellNamed(s, i, p);
    var name := s.files[i].info.value.name;
    var last := trace[|steps|];
    CloseKeeps(s, i, o, trace[0], p);
    RoomOfClose(s, i, p);
    CloseStaysRemountable(s, i, o, Success, trace[0]);
    RunsCanRemount(trace, steps, |steps|);
    var f := trace[0].files[o.index];
    KeptIsNamed(trace[0], f, name, p.bytes);
    RunSpares(trace, steps, |steps|, f);
    SparedKeeps(trace[0], f, last, name, p.bytes);
    CloseKeepsNames(s, i, o, Success, trace[0]);
    RunsKeepNamesDistinct(trace, steps, |steps|);
    SettledAreDistinct(last.files);
    KeptThroughMount(last, t, f, name, p.bytes);
    ReadsBack(t, MountedFile(f.hw, f.hwAddress), name, p.bytes, mode, n, ro, status, data, s');
  }

  lemma {:induction false} RoomOfClose(s: State, i: nat, p: PlainFile)
    requires Flushable(s, i) && ClosesWell(s, i, p)
    ensures RoomToFlush(s, i)
  {
  }

  // ---------- Mounting after a disk that failed ----------

  /** A file on disk whose blocks are as they were is found by a mount. */
  lemma {:induction false} UntouchedIsFound(g: Geometry, m: seq<byte>, m': seq<byte>, f: File)
    requires g.Valid() && |m| == g.Size() && RecordOk(g, f) && OnFlash(m, f) && SameBlocks(g, m, m', f)
    ensures |m'| == g.Size() && MountedFile(f.hw, f.hwAddress) in Scan(g, m', 0)
  {
    hide OnFlash, ImageAt, FoundAt;
    SameBlocksOnFlash(g, m, m', f);
    OnFlashIsImage(g, m', f);
    ScanIsComplete(g, m', 0, f.hw.blockEnd);
  }

  /**
   After a flush that ended anyhow - broken off at any write included - a mount finds
   every other file on disk with its record, and its blocks are untouched.
   */
  lemma {:induction false} OthersFoundAfterFlush(s: State, i: nat, status: Status, s': State, j: nat, done: nat, x: nat)
    requires Sound(s) && FlashMatches(s) && Flushable(s, i) && RoomToFlush(s, i) && FlushStep(s, i, status, s', j, done)
    requires x < |s.files| && x != i && s.files[x].OnDisk()
    ensures SameBlocks(s.geometry, s.media, s'.media, s.files[x]) && |s'.media| == s.geometry.Size()
    ensures MountedFile(s.files[x].hw, s.files[x].hwAddress) in Scan(s.geometry, s'.media, 0)
  {
    hide FlushStep, RoomToFlush, OnFlash, RecordOk, Scan;
    FlushSpares(s, i, status, s', j, done, x);
    RecordOf(s, x);
    UntouchedIsFound(s.geometry, s.media, s'.media, s.files[x]);
  }

  /**
   Over any guarded run of calls on other files, with a disk that may fail at any write,
   a mount in any state finds a closed file on disk under its name with its bytes.
   */
  lemma {:induction false} KeptIsFoundAtAnyTime(trace: seq<State>, steps: seq<Step>, k: nat, f: File, name: seq<byte>, bytes: seq<Option<byte>>)
    requires Run(trace, steps) && Sound(trace[0]) && k < |trace|
    requires Keeps(trace[0], f, name, bytes) && OnFlash(trace[0].media, f)
    requires forall n :: 0 <= n < k ==> Taken(trace, steps, n) && Guarded(trace[n], steps[n].op)
    requires forall n, x :: 0 <= n < k && 0 <= x < |trace[n].files| && trace[n].files[x] == f ==> Leaves(steps[n].op, f, x)
    ensures var s, found := trace[k], MountedFile(f.hw, f.hwAddress);
            && s.geometry.Valid() && |s.media| == s.geometry.Size() && found in Scan(s.geometry, s.media, 0)
            && Keeps(s.(files := Scan(s.geometry, s.media, 0)), found, name, bytes)
  {
    hide Guarded, Next, Callable, Leaves, OnFlash, Allocated, Scan, NameOf, OneRegion, Taken, RecordOk;
    RunSpares(trace, steps, k, f);
    SparedKeeps(trace[0], f, trace[k], name, bytes);
    RecordInList(trace[0], f);
    UntouchedIsFound(trace[0].geometry, trace[0].media, trace[k].media, f);
  }

  lemma {:induction false} RecordInList(s: State, f: File)
    requires Sound(s) && f in s.files && f.OnDisk()
    ensures RecordOk(s.geometry, f)
  {
  }
}
