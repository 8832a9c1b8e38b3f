/**
 File names over whole runs: as long as closes flush, every name belongs to one listed
 file, so that looking a name up finds the file.
 */
module BootMonNames {
  import opened Bytes
  import opened Options
  import opened ByteStore
  import opened BootMonImage
  import opened BootMonVolume
  import opened BootMonMount
  import opened BootMonBuffer
  import opened BootMonOperations
  import opened BootMonRuns

  /** No two listed files answer to the same name. */
  ghost predicate NamesDistinct(files: seq<File>)
  {
    forall x, y :: 0 <= x < y < |files| ==> EffectiveName(files[x]) != EffectiveName(files[y])
  }

  /** A file open for reading only carries the name it has on record. */
  predicate ReadOnlyOnRecord(f: File)
  {
    f.info.Some? && f.mode == ReadOnly ==> NameOf(f.hw.filename) == f.info.value.name
  }

  ghost predicate NamesSettled(files: seq<File>)
  {
    NamesDistinct(files) && forall f :: f in files ==> ReadOnlyOnRecord(f)
  }

  /** The flush inside a close of a file that can be written reports success. */
  ghost predicate ClosesFlushed(s: State, step: Step)
    requires Callable(s, step.op)
  {
    && !step.op.Mount?
    && (step.op.Close? && s.files[step.op.file].info.Some? && s.files[step.op.file].mode == ReadWrite ==>
          step.outcome.flushed == Success)
  }

  /** With distinct names, lookup is a function of the name: it finds the file if and only if there is one. */
  lemma {:induction false} LookupFindsTheFile(files: seq<File>, name: seq<byte>, i: nat)
    requires NamesDistinct(files) && i < |files|
    ensures Lookup(files, name) == Some(i) <==> EffectiveName(files[i]) == name
  {
  }

  /** A name that can stand for a file in the root directory. */
  predicate IsPlain(path: seq<byte>)
  {
    var name := WithoutSeparator(path);
    !DoubleSeparator(path) && BACKSLASH !in name && name != [] && name[0] != PERIOD
  }

  /**
   With distinct names, an open call gives a file exactly when the path is a plain name
   and either the file of that name is closed, or there is none and it is to be created;
   a directory is never created. A file is never opened twice.
   */
  lemma {:induction false} OpensExactly(files: seq<File>, path: seq<byte>, mode: OpenMode, directory: bool)
    requires NamesDistinct(files)
    ensures var r, name := OpenFile(files, path, mode, directory), WithoutSeparator(path);
            r.handle.FileAt? <==>
              && IsPlain(path) && !(mode.ReadWriteAndCreate? && directory)
              && ((exists i :: 0 <= i < |files| && EffectiveName(files[i]) == name && files[i].info.None?)
                  || (mode.ReadWriteAndCreate? && forall i :: 0 <= i < |files| ==> EffectiveName(files[i]) != name))
    ensures var r, name := OpenFile(files, path, mode, directory), WithoutSeparator(path);
            (exists i :: 0 <= i < |files| && EffectiveName(files[i]) == name && files[i].info.Some?) ==> !r.handle.FileAt?
  {
    hide DoubleSeparator, EndsAtFirstSeparator, ImageLength, EffectiveName, WithoutSeparator;
    var name := WithoutSeparator(path);
    match Lookup(files, name)
    case Some(i) =>
      forall j | 0 <= j < |files| && EffectiveName(files[j]) == name
        ensures j == i
      {
        LookupFindsTheFile(files, name, j);
      }
    case None =>
  }

  /**
   What each open call is answered with, by the shape of the path, the mode, and the
   files that answer to the name.
   */
  lemma {:induction false} OpensWithStatus(files: seq<File>, path: seq<byte>, mode: OpenMode, directory: bool)
    requires NamesDistinct(files)
    ensures var r, name, create := OpenFile(files, path, mode, directory), WithoutSeparator(path), mode.ReadWriteAndCreate?;
            var nested := !DoubleSeparator(path) && BACKSLASH in name;
            && (r.status == InvalidParameter <==>
                  DoubleSeparator(path) || (nested && EndsAtFirstSeparator(name) && create && !directory))
            && (r.status == WriteProtected <==>
                  directory && create && (IsPlain(path) || (nested && EndsAtFirstSeparator(name))))
            && (r.status == NotFound <==>
                  || (nested && !(EndsAtFirstSeparator(name) && create))
                  || (IsPlain(path) && !create && forall i :: 0 <= i < |files| ==> EffectiveName(files[i]) != name))
            && (r.status == Unsupported <==>
                  && IsPlain(path) && !(create && directory)
                  && exists i :: 0 <= i < |files| && EffectiveName(files[i]) == name && files[i].info.Some?)
            && (r.handle == RootDirectory <==>
                  !DoubleSeparator(path) && BACKSLASH !in name && (name == [] || name[0] == PERIOD))
            && (r.status == Success <==> r.handle != NoHandle)
  {
    hide DoubleSeparator, EndsAtFirstSeparator, ImageLength, EffectiveName, WithoutSeparator;
    var name := WithoutSeparator(path);
    match Lookup(files, name)
    case Some(i) =>
      forall j | 0 <= j < |files| && EffectiveName(files[j]) == name
        ensures j == i
      {
        LookupFindsTheFile(files, name, j);
      }
    case None =>
  }

  /**
   The file a handle is for: at its start, under the given name, and accepting writes
   exactly when it was not opened for reading only. A created file is a new first entry;
   all others are as they were.
   */
  lemma {:induction false} OpenedHandle(files: seq<File>, path: seq<byte>, mode: OpenMode, directory: bool)
    requires OpenFile(files, path, mode, directory).handle.FileAt?
    ensures var r := OpenFile(files, path, mode, directory);
            var f := r.files[r.handle.index];
            && (f.mode == ReadWrite <==> !mode.Read?) && f.position == 0 && f.info.value.name == WithoutSeparator(path)
            && (if |r.files| == |files| then
                  && r.files[..r.handle.index] == files[..r.handle.index]
                  && r.files[r.handle.index + 1..] == files[r.handle.index + 1..]
                  && f.hw == files[r.handle.index].hw && f.hwAddress == files[r.handle.index].hwAddress
                  && f.regions == files[r.handle.index].regions
                else
                  && r.handle.index == 0 && r.files[1..] == files
                  && f.hw == NO_DESCRIPTION && f.hwAddress == 0 && f.regions == [] && f.info.value.size == 0)
  {
    hide DoubleSeparator, EndsAtFirstSeparator, EffectiveName, WithoutSeparator, LookupFrom;
    assert ImageLength(NEW_FILE) == 0;
  }

  /** A write through a handle succeeds exactly when the file was not opened for reading only. */
  lemma {:induction false} HandleAcceptsWrites(s: State, path: seq<byte>, mode: OpenMode, directory: bool, data: seq<byte>,
                                               o: Outcome, status: Status, s': State)
    requires OpenFile(s.files, path, mode, directory).handle.FileAt?
    requires var r := OpenFile(s.files, path, mode, directory);
             var t, write := s.(files := r.files), WriteAt(r.handle.index, data);
             Callable(t, write) && Next(t, write, o, status, s')
    ensures status == Success <==> !mode.Read?
    ensures status != Success ==> status == AccessDenied && s'.files == OpenFile(s.files, path, mode, directory).files
  {
    hide OpenFile;
    OpenedHandle(s.files, path, mode, directory);
  }

  /** A rename is refused exactly when some listed file - the file itself included - answers to the stripped name. */
  lemma {:induction false} RenamesExactly(files: seq<File>, i: nat, wanted: seq<byte>)
    requires i < |files| && files[i].info.Some?
    ensures var r := Rename(files, i, wanted);
            && (r.status == Success <==> forall x :: 0 <= x < |files| ==> EffectiveName(files[x]) != WithoutSeparator(wanted))
            && (r.status == Success ==> EffectiveName(r.files[i]) == WithoutSeparator(wanted))
            && (r.status != Success ==> r.status == AccessDenied && r.files == files)
  {
    hide WithoutSeparator;
    var r := Rename(files, i, wanted);
    if r.status != Success {
      var x := Lookup(files, WithoutSeparator(wanted)).value;
      assert EffectiveName(files[x]) == WithoutSeparator(wanted);
    }
  }

  /**
   A refused change of name and size has an effect exactly when the file can be written,
   both were to change, and some listed file - the file itself included - answers to the
   stripped name: the size is then the new one.
   */
  lemma {:induction false} RefusedRenameResizesExactly(files: seq<File>, i: nat, name: seq<byte>, size: nat)
    requires i < |files| && files[i].info.Some?
    ensures var f, r := files[i], SetInfo(files, i, name, size);
            r.status != Success && r.files != files <==>
              && f.mode == ReadWrite && size != f.info.value.size && Compared(name) != f.info.value.name
              && exists x :: 0 <= x < |files| && EffectiveName(files[x]) == WithoutSeparator(name)
    ensures var f, r := files[i], SetInfo(files, i, name, size);
            r.status != Success && r.files != files ==> r.status == AccessDenied && r.files == files[i := SetFileSize(f, size)]
  {
    hide SetFileSize, Compared, WithoutSeparator, NameOf;
    var f, stripped := files[i], WithoutSeparator(name);
    var resized := files[i := SetFileSize(f, size)];
    ResizeKeepsName(f, size);
    ResizeSetsSize(f, size);
    assert forall x :: 0 <= x < |files| ==> EffectiveName(resized[x]) == EffectiveName(files[x]);
    if size != f.info.value.size {
      assert resized[i] != files[i];
    }
    if Lookup(resized, stripped).Some? {
      var x := Lookup(resized, stripped).value;
      assert EffectiveName(files[x]) == stripped;
    }
  }

  lemma {:induction false} ResizeSetsSize(f: File, size: nat)
    requires f.info.Some?
    ensures SetFileSize(f, size).info.value.size == size
  {
  }

  /** Changing one entry's record keeps names distinct when its name stays or is new. */
  lemma {:induction false} ChangedEntry(files: seq<File>, i: nat, f: File)
    requires NamesSettled(files) && i < |files| && ReadOnlyOnRecord(f)
    requires EffectiveName(f) == EffectiveName(files[i]) || Lookup(files, EffectiveName(f)).None?
    ensures NamesSettled(files[i := f])
  {
    var r := files[i := f];
    assert forall x :: 0 <= x < |r| && x != i ==> r[x] == files[x];
    assert forall g :: g in r ==> g == f || g in files;
  }

  lemma {:induction false} NewEntry(files: seq<File>, f: File)
    requires NamesSettled(files) && ReadOnlyOnRecord(f) && Lookup(files, EffectiveName(f)).None?
    ensures NamesSettled([f] + files)
  {
    var r := [f] + files;
    assert forall x :: 1 <= x < |r| ==> r[x] == files[x - 1];
  }

  lemma {:induction false} RemovedEntry(files: seq<File>, i: nat)
    requires NamesSettled(files) && i < |files|
    ensures NamesSettled(Removed(files, i))
  {
    var r := Removed(files, i);
    assert forall x :: 0 <= x < |r| ==> r[x] == files[if x < i then x else x + 1];
  }

  lemma {:induction false} OpenKeepsNames(s: State, path: seq<byte>, mode: OpenMode, directory: bool)
    requires NamesSettled(s.files)
    ensures NamesSettled(OpenFile(s.files, path, mode, directory).files)
  {
    var r := OpenFile(s.files, path, mode, directory);
    var name := WithoutSeparator(path);
    if r.handle.FileAt? {
      match Lookup(s.files, name)
      case Some(i) => ChangedEntry(s.files, i, Opened(s.files[i], name, mode));
      case None => NewEntry(s.files, Opened(NEW_FILE, name, mode));
    }
  }

  lemma {:induction false} SetKeepsNames(files: seq<File>, i: nat, name: seq<byte>, size: nat)
    requires NamesSettled(files) && i < |files|
    ensures NamesSettled(SetInfo(files, i, name, size).files)
  {
    hide SetFileSize, NamesSettled, NameOf;
    if files[i].info.Some? && !(files[i].mode == ReadOnly && (size != files[i].info.value.size || Compared(name) != files[i].info.value.name)) {
      var f := SetFileSize(files[i], size);
      ResizeKeepsName(files[i], size);
      InList(files, i);
      var resized := if size != files[i].info.value.size then files[i := f] else files;
      if size != files[i].info.value.size {
        ChangedEntry(files, i, f);
      }
      if Compared(name) != files[i].info.value.name && Lookup(resized, WithoutSeparator(name)).None? {
        var g := resized[i].(info := Some(resized[i].info.value.(name := WithoutSeparator(name))));
        ChangedEntry(resized, i, g);
      }
    }
  }

  lemma {:induction false} InList(files: seq<File>, i: nat)
    requires NamesSettled(files) && i < |files|
    ensures ReadOnlyOnRecord(files[i])
  {
  }

  lemma {:induction false} ResizeKeepsName(f: File, size: nat)
    requires f.info.Some?
    ensures var r := SetFileSize(f, size);
            r.hw == f.hw && r.mode == f.mode && r.info.Some? && r.info.value.name == f.info.value.name
  {
  }

  /** A list in which only entry `i` has changed, and moved to `j`, has the same names if that entry's name is the same. */
  lemma {:induction false} PlacedKeepsNames(g: Geometry, files: seq<File>, i: nat)
    requires i < |files| && files[i].info.Some? && Place(g, files, i).Placed? && NamesSettled(files)
    ensures NamesSettled(Place(g, files, i).files)
  {
    var p := Place(g, files, i);
    forall x, y | 0 <= x < y < |p.files|
      ensures EffectiveName(p.files[x]) != EffectiveName(p.files[y])
    {
      PlacedEntries(g, files, i, x);
      PlacedEntries(g, files, i, y);
      PlacedOnce(g, files, i, x, y);
    }
    forall x | 0 <= x < |p.files|
      ensures ReadOnlyOnRecord(p.files[x])
    {
      PlacedEntries(g, files, i, x);
    }
  }

  lemma {:induction false} FlushKeepsNames(s: State, i: nat, status: Status, s': State, j: nat, done: nat)
    requires Flushable(s, i) && FlushStep(s, i, status, s', j, done) && NamesSettled(s.files)
    ensures NamesSettled(s'.files)
  {
    hide Executed, FlushPlan, RegionsPlan, NamesSettled, NameOf;
    var f := s.files[i];
    if f.info.Some? && f.mode == ReadWrite && Place(s.geometry, s.files, i).Placed? {
      PlacedKeepsNames(s.geometry, s.files, i);
      ChangedEntry(Place(s.geometry, s.files, i).files, j, s'.files[j]);
    }
  }

  /** A plan that ends well has put the file's name on record. */
  lemma {:induction false} PlanNames(c: Context, f: File)
    requires c.geometry.blockSize > 0 && IsName(c.name) && f.info.Some?
    requires FlushPlan(c, f).status == Success
    ensures NameOf(FlushPlan(c, f).hw.filename) == c.name
  {
    hide Describe, NameOf, RegionsPlan, TailAddress;
    var p := RegionsPlan(c, f);
    DescribeIsImage(p.hw, c.name, f.info.value.size, c.start, c.geometry.blockSize);
  }

  lemma {:induction false} FlushedNameOnRecord(s: State, i: nat, s': State, j: nat, done: nat)
    requires Flushable(s, i) && FlushStep(s, i, Success, s', j, done)
    ensures j < |s'.files| && NameOf(s'.files[j].hw.filename) == s.files[i].info.value.name
  {
    hide Executed, FlushPlan, RegionsPlan, NameOf;
    var Placed(files, index, start) := Place(s.geometry, s.files, i);
    PlanNames(ContextFor(s.geometry, files, index, start), s.files[i]);
  }

  lemma {:induction false} CloseKeepsNames(s: State, i: nat, o: Outcome, status: Status, s': State)
    requires Flushable(s, i) && CloseStep(s, i, o, status, s') && NamesSettled(s.files)
    requires s.files[i].info.Some? && s.files[i].mode == ReadWrite ==> o.flushed == Success
    ensures NamesSettled(s'.files)
  {
    hide FlushStep, NamesSettled, NameOf;
    var f := s.files[i];
    if f.info.Some? {
      var t :| FlushStep(s, i, o.flushed, t, o.index, o.done) && ClosedIn(t, o.index, s');
      FlushKeepsNames(s, i, o.flushed, t, o.index, o.done);
      FlushOwnChange(s, i, o.flushed, t, o.index, o.done);
      if f.mode == ReadWrite {
        FlushedNameOnRecord(s, i, t, o.index, o.done);
      } else {
        InList(t.files, o.index);
      }
      ChangedEntry(t.files, o.index, s'.files[o.index]);
    }
  }

  lemma {:induction false} ReadKeepsNames(s: State, i: nat, n: nat, o: Outcome, status: Status, data: seq<byte>, s': State)
    requires Flushable(s, i) && ReadStep(s, i, n, o, status, data, s') && NamesSettled(s.files)
    ensures NamesSettled(s'.files)
  {
    hide FlushStep, NamesSettled, NameOf;
    if s.files[i].info.Some? {
      var t, ok :| FlushStep(s, i, o.flushed, t, o.index, o.done) && ReadAfter(t, o.index, n, ok, status, data, s');
      FlushKeepsNames(s, i, o.flushed, t, o.index, o.done);
      InList(t.files, o.index);
      ChangedEntry(t.files, o.index, s'.files[o.index]);
    }
  }

  lemma {:induction false} EditKeepsNames(s: State, op: Op, o: Outcome, status: Status, s': State)
    requires (op.WriteAt? || op.Seek?) && Callable(s, op) && Next(s, op, o, status, s') && NamesSettled(s.files)
    ensures NamesSettled(s'.files)
  {
    hide NamesSettled, NameOf;
    if s' != s {
      InList(s.files, op.file);
      ChangedEntry(s.files, op.file, s'.files[op.file]);
    }
  }

  lemma {:induction false} DeleteKeepsNames(s: State, i: nat, status: Status, s': State)
    requires i < |s.files| && DeleteStep(s, i, status, s') && NamesSettled(s.files)
    ensures NamesSettled(s'.files)
  {
    hide NamesSettled, NameOf;
    RemovedEntry(s.files, i);
    InList(s.files, i);
    ChangedEntry(s.files, i, s.files[i].(regions := []));
  }

  lemma {:induction false} StepKeepsNames(s: State, step: Step, s': State)
    requires Callable(s, step.op) && ClosesFlushed(s, step) && NamesSettled(s.files)
    requires Next(s, step.op, step.outcome, step.status, s')
    ensures NamesSettled(s'.files)
  {
    hide NamesSettled, FlushStep, CloseStep, ReadStep, DeleteStep, OpenFile, SetInfo;
    match step.op
    case Open(path, mode, directory) => OpenKeepsNames(s, path, mode, directory);
    case WriteAt(_, _) => EditKeepsNames(s, step.op, step.outcome, step.status, s');
    case Seek(_, _) => EditKeepsNames(s, step.op, step.outcome, step.status, s');
    case Set(i, name, size) => SetKeepsNames(s.files, i, name, size);
    case ReadFrom(i, n) =>
      var data :| ReadStep(s, i, n, step.outcome, step.status, data, s');
      ReadKeepsNames(s, i, n, step.outcome, step.status, data, s');
    case Flush(i) => FlushKeepsNames(s, i, step.status, s', step.outcome.index, step.outcome.done);
    case Close(i) => CloseKeepsNames(s, i, step.outcome, step.status, s');
    case Delete(i) => DeleteKeepsNames(s, i, step.status, s');
  }

  /**
   Over every run of opens, creations, writes, renames, reads, flushes, closes and
   deletions whose closes flush successfully, no two listed files share a name.
   */
  lemma {:induction false} RunsKeepNamesDistinct(trace: seq<State>, steps: seq<Step>, k: nat)
    requires Run(trace, steps) && NamesSettled(trace[0].files) && k < |trace|
    requires forall x :: 0 <= x < k ==> Taken(trace, steps, x) && ClosesFlushed(trace[x], steps[x])
    ensures NamesSettled(trace[k].files)
  {
    hide NamesSettled, ClosesFlushed, Next, Callable;
    if k > 0 {
      RunsKeepNamesDistinct(trace, steps, k - 1);
      assert Taken(trace, steps, k - 1);
      StepKeepsNames(trace[k - 1], steps[k - 1], trace[k]);
    }
  }

  /**
   A close whose flush fails before a new file has a description leaves an entry that
   answers to the empty name, which no open call can reach again.
   */
  lemma {:induction false} FailedCloseStrands(s: State, i: nat, o: Outcome, s': State, path: seq<byte>, mode: OpenMode, directory: bool)
    requires Flushable(s, i) && s.files[i].info.Some? && s.files[i].hw == NO_DESCRIPTION
    requires CloseStep(s, i, o, Success, s') && o.flushed == VolumeFull && Place(s.geometry, s.files, i).Unplaced?
    ensures EffectiveName(s'.files[o.index]) == []
    ensures var r := OpenFile(s'.files, path, mode, directory);
            r.handle.FileAt? ==> r.files[if |r.files| == |s'.files| then o.index else o.index + 1] == s'.files[o.index]
  {
    assert NO_DESCRIPTION.filename[0] == 0;
    assert EffectiveName(s'.files[o.index]) == [];
  }
}
