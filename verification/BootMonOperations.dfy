/**
 The file operations of a mounted boot monitor volume, as steps between states: open
 and create, write, seek, resize and rename, read, flush, close, delete and mount.
 Steps that reach the disk are relations, since the disk may fail at any write.
 */
module BootMonOperations {
  import opened Bytes
  import opened Options
  import opened ByteStore
  import opened BootMonImage
  import opened BootMonVolume
  import opened BootMonMount
  import opened BootMonBuffer

  const BACKSLASH: byte := 92
  const PERIOD: byte := 46

  // ---------- Looking files up ----------

  /** The name a file answers to: the one in memory while it is open, else the one on record. */
  function EffectiveName(f: File): seq<byte>
  {
    if f.info.Some? then f.info.value.name else NameOf(f.hw.filename)
  }

  /** BootMonGetFileFromAsciiFileName: the first file from index `k` on that answers to `name`. */
  function LookupFrom(files: seq<File>, name: seq<byte>, k: nat): (r: Option<nat>)
    requires k <= |files|
    ensures r.Some? ==> k <= r.value < |files| && EffectiveName(files[r.value]) == name
    ensures r.None? ==> forall i :: k <= i < |files| ==> EffectiveName(files[i]) != name
    decreases |files| - k
  {
    if k == |files| then None
    else if EffectiveName(files[k]) == name then Some(k)
    else LookupFrom(files, name, k + 1)
  }

  function Lookup(files: seq<File>, name: seq<byte>): Option<nat>
  {
    LookupFrom(files, name, 0)
  }

  // ---------- Opening ----------

  datatype OpenMode = Read | ReadAndWrite | ReadWriteAndCreate

  /** The sizes of the first `n` buffered regions counted on top of `size`, as BootMonFsGetImageLength does. */
  function PendingLength(rs: seq<Region>, size: word): word
    decreases |rs|
  {
    if rs == [] then size
    else PendingLength(rs[1..], if rs[0].End() > size then ToWord(size + rs[0].End()) else size)
  }

  function ImageLength(f: File): word
  {
    var rs := f.hw.regions;
    PendingLength(f.regions, ToWord(rs[0].size + rs[1].size + rs[2].size + rs[3].size))
  }

  function Opened(f: File, name: seq<byte>, mode: OpenMode): File
  {
    f.(info := Some(Info(name, ImageLength(f))), position := 0, mode := if mode.Read? then ReadOnly else ReadWrite)
  }

  /** What an open call gives back besides its status. */
  datatype Handle = NoHandle | RootDirectory | FileAt(index: nat)

  datatype Opening = Opening(status: Status, handle: Handle, files: seq<File>)

  /** Two path separators in a row. */
  predicate DoubleSeparator(path: seq<byte>)
  {
    exists i :: 0 <= i < |path| - 1 && path[i] == BACKSLASH && path[i + 1] == BACKSLASH
  }

  function WithoutSeparator(path: seq<byte>): seq<byte>
  {
    if path != [] && path[0] == BACKSLASH then path[1..] else path
  }

  /** BootMonFsOpenFile on a cleaned-up path. */
  function OpenFile(files: seq<File>, path: seq<byte>, mode: OpenMode, directory: bool): (r: Opening)
    ensures r.status != Success ==> r.files == files && r.handle == NoHandle
    ensures r.handle.FileAt? ==> r.handle.index < |r.files| && r.files[r.handle.index].info.Some?
  {
    var name := WithoutSeparator(path);
    if DoubleSeparator(path) then
      Opening(InvalidParameter, NoHandle, files)
    else if BACKSLASH in name then
      Opening(if !EndsAtFirstSeparator(name) || !mode.ReadWriteAndCreate? then NotFound
              else if directory then WriteProtected else InvalidParameter,
              NoHandle, files)
    else if name == [] || name[0] == PERIOD then
      Opening(Success, RootDirectory, files)
    else if mode.ReadWriteAndCreate? && directory then
      Opening(WriteProtected, NoHandle, files)
    else
      match Lookup(files, name)
      case Some(i) =>
        if files[i].info.Some? then Opening(Unsupported, NoHandle, files)
        else Opening(Success, FileAt(i), files[i := Opened(files[i], name, mode)])
      case None =>
        if !mode.ReadWriteAndCreate? then Opening(NotFound, NoHandle, files)
        else Opening(Success, FileAt(0), [Opened(NEW_FILE, name, mode)] + files)
  }

  /** The first separator in the name is its last character. */
  predicate EndsAtFirstSeparator(name: seq<byte>)
  {
    name != [] && name[|name| - 1] == BACKSLASH && BACKSLASH !in name[..|name| - 1]
  }

  // ---------- Changing name and size ----------

  datatype Change = Change(status: Status, files: seq<File>)

  /** The part of a name that the comparison with the current one looks at. */
  function Compared(name: seq<byte>): seq<byte>
  {
    if |name| < MAX_NAME_LENGTH then name else name[..MAX_NAME_LENGTH - 1]
  }

  /** SetFileName. */
  function Rename(files: seq<File>, i: nat, wanted: seq<byte>): (r: Change)
    requires i < |files| && files[i].info.Some?
    ensures |r.files| == |files|
  {
    var name := WithoutSeparator(wanted);
    if Lookup(files, name).Some? then Change(AccessDenied, files)
    else Change(Success, files[i := files[i].(info := Some(files[i].info.value.(name := name)))])
  }

  /** SetFileInfo: the size changes first, and stays changed when the new name is refused. */
  function SetInfo(files: seq<File>, i: nat, name: seq<byte>, size: nat): (r: Change)
    requires i < |files|
    ensures |r.files| == |files|
  {
    if files[i].info.None? then Change(InvalidParameter, files)
    else
      var info := files[i].info.value;
      if files[i].mode == ReadOnly && (size != info.size || Compared(name) != info.name) then Change(AccessDenied, files)
      else
        var resized := if size != info.size then files[i := SetFileSize(files[i], size)] else files;
        if Compared(name) != info.name then Rename(resized, i, name) else Change(Success, resized)
  }

  // ---------- Steps ----------

  datatype Op =
    | Open(path: seq<byte>, openMode: OpenMode, directory: bool)
    | WriteAt(file: nat, data: seq<byte>)
    | Seek(file: nat, position: nat)
    | Set(file: nat, name: seq<byte>, size: nat)
    | ReadFrom(file: nat, length: nat)
    | Flush(file: nat)
    | Close(file: nat)
    | Delete(file: nat)
    | Mount

  /** What the environment and the nested flush did, and where the file is in the list afterwards. */
  datatype Outcome = Outcome(flushed: Status, index: nat, done: nat)

  /** A path short enough for a name, without a NUL. */
  predicate IsPath(path: seq<byte>)
  {
    IsName(path) || (path != [] && path[0] == BACKSLASH && IsName(path[1..]))
  }

  predicate Callable(s: State, op: Op)
  {
    && s.geometry.Valid() && |s.media| == s.geometry.Size()
    && (forall i :: 0 <= i < |s.files| && s.files[i].info.Some? ==> IsName(s.files[i].info.value.name))
    && match op
       case Open(path, _, _) => IsPath(path)
       case Set(i, name, _) => i < |s.files| && IsPath(name)
       case Mount => true
       case _ => op.file < |s.files|
  }

  /** The record after the bytes `n` were read. */
  function Advanced(f: File, n: nat): File
  {
    f.(position := f.position + n)
  }

  /** How many bytes a read is to return. */
  function ReadLength(f: File, n: nat): nat
    requires f.info.Some?
  {
    if f.position >= f.info.value.size then 0
    else if n > f.info.value.size - f.position then f.info.value.size - f.position else n
  }

  /** The status of a read, from the record after the flush and whether the disk read worked. */
  function ReadStatus(f: File, ok: bool): Status
    requires f.info.Some?
  {
    if f.position > f.info.value.size then DeviceError
    else if f.position == f.info.value.size || ok then Success
    else DeviceError
  }

  /** BootMonFsReadFile: a flush, whose status is ignored, and then a read from flash. */
  ghost predicate ReadStep(s: State, i: nat, n: nat, o: Outcome, status: Status, data: seq<byte>, s': State)
    requires Flushable(s, i)
  {
    if s.files[i].info.None? then status == InvalidParameter && data == [] && s' == s
    else
      exists t: State, ok: bool ::
        FlushStep(s, i, o.flushed, t, o.index, o.done) && ReadAfter(t, o.index, n, ok, status, data, s')
  }

  ghost predicate ReadAfter(t: State, j: nat, n: nat, ok: bool, status: Status, data: seq<byte>, s': State)
  {
    && j < |t.files| && t.files[j].info.Some?
    && status == ReadStatus(t.files[j], ok)
    && (if ok && t.files[j].position < t.files[j].info.value.size then
          var at, k := t.files[j].hw.blockStart * t.geometry.blockSize + t.files[j].position, ReadLength(t.files[j], n);
          at + k <= |t.media| && data == t.media[at..at + k]
        else data == [])
    && s' == t.(files := t.files[j := Advanced(t.files[j], |data|)])
  }

  /** BootMonFsCloseFile: the flush's status is ignored, and the in-memory name and size are dropped regardless. */
  ghost predicate CloseStep(s: State, i: nat, o: Outcome, status: Status, s': State)
    requires Flushable(s, i)
  {
    if s.files[i].info.None? then status == InvalidParameter && s' == s
    else
      && status == Success
      && exists t: State :: FlushStep(s, i, o.flushed, t, o.index, o.done) && ClosedIn(t, o.index, s')
  }

  ghost predicate ClosedIn(t: State, j: nat, s': State)
  {
    j < |t.files| && s' == t.(files := t.files[j := t.files[j].(info := None)])
  }

  /** BootMonFsDelete: the buffer is dropped, the description is zeroed, the record is unlinked. */
  ghost predicate DeleteStep(s: State, i: nat, status: Status, s': State)
    requires i < |s.files|
  {
    var f := s.files[i];
    var erase := Write(f.hwAddress, Zeros(DESCRIPTION_SIZE));
    && s'.geometry == s.geometry && |s'.media| == |s.media|
    && if f.info.None? then status == InvalidParameter && s' == s
       else if !f.OnDisk() then
         status == Success && s'.media == s.media && s'.files == Removed(s.files, i)
       else
         && (forall a :: 0 <= a < |s.media| && !erase.Covers(a) ==> s'.media[a] == s.media[a])
         && match status
            case Success => erase.Fits(|s.media|) && s'.media == ApplyOne(s.media, erase) && s'.files == Removed(s.files, i)
            case WarnDeleteFailure => s'.files == s.files[i := f.(regions := [])]
            case _ => false
  }

  /** BootMonFsInitialize: the recognised tails in block order; a failed read ends the scan early, unreported. */
  ghost predicate MountStep(s: State, s': State)
    requires s.geometry.Valid() && |s.media| == s.geometry.Size()
  {
    s' == s.(files := s'.files) && s'.files <= Scan(s.geometry, s.media, 0)
  }

  /** One call and what it may do. */
  ghost predicate Next(s: State, op: Op, o: Outcome, status: Status, s': State)
    requires Callable(s, op)
  {
    match op
    case Open(path, mode, directory) =>
      var r := OpenFile(s.files, path, mode, directory);
      status == r.status && s' == s.(files := r.files)
    case WriteAt(i, data) =>
      if s.files[i].info.None? then status == InvalidParameter && s' == s
      else if s.files[i].mode == ReadOnly then status == AccessDenied && s' == s
      else status == Success && s' == s.(files := s.files[i := WriteFile(s.files[i], data)])
    case Seek(i, position) =>
      if s.files[i].info.None? then status == InvalidParameter && s' == s
      else status == Success && s' == s.(files := s.files[i := SetPosition(s.files[i], position)])
    case Set(i, name, size) =>
      var r := SetInfo(s.files, i, name, size);
      status == r.status && s' == s.(files := r.files)
    case ReadFrom(i, n) => exists data :: ReadStep(s, i, n, o, status, data, s')
    case Flush(i) => FlushStep(s, i, status, s', o.index, o.done) && o.flushed == status
    case Close(i) => CloseStep(s, i, o, status, s')
    case Delete(i) => DeleteStep(s, i, status, s')
    case Mount => status == Success && MountStep(s, s')
  }
}
