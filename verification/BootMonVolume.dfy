/**
 The state of a mounted boot monitor volume and what each operation does to it, as
 functions on values: the list of file records, their write-back buffers, and the
 flash contents.
 */
module BootMonVolume {
  import opened Bytes
  import opened Options
  import opened ByteStore
  import opened BootMonImage

  datatype Status =
    | Success
    | InvalidParameter
    | Unsupported
    | AccessDenied
    | WriteProtected
    | NotFound
    | VolumeFull
    | DeviceError
    | WarnDeleteFailure

  /** Size of a block in bytes, and LastBlock + 1. */
  datatype Geometry = Geometry(blockSize: nat, blocks: nat) {

    /** A block is larger than a description, and byte offsets into the media fit in a UINT32. */
    predicate Valid() {
      DESCRIPTION_SIZE < blockSize && 1 <= blocks && blocks * blockSize <= TWO_TO_THE_32
    }

    function Size(): nat {
      blocks * blockSize
    }

    /** Blocks that WriteFileDescription assigns to `dataSize` bytes of data. */
    function BlocksFor(dataSize: nat): nat
      requires blockSize > 0
    {
      DivNonNegative(dataSize + DESCRIPTION_SIZE, blockSize);
      (dataSize + DESCRIPTION_SIZE) / blockSize + 1
    }
  }

  datatype Mode = ReadOnly | ReadWrite

  /** The part of EFI_FILE_INFO that the file system changes; it exists while the file is open. */
  datatype Info = Info(name: seq<byte>, size: nat)

  /** A buffered write that has not reached flash. */
  datatype Region = Region(offset: nat, data: seq<byte>) {
    function End(): nat {
      offset + |data|
    }
  }

  datatype File = File(
    hw: Description,
    hwAddress: nat,
    info: Option<Info>,
    position: nat,
    regions: seq<Region>,
    mode: Mode)
  {
    predicate OnDisk() {
      hw.regionCount != 0
    }

    function DataSize(): nat {
      hw.regions[0].size
    }
  }

  const NEW_FILE: File := File(NO_DESCRIPTION, 0, None, 0, [], ReadOnly)

  datatype State = State(geometry: Geometry, media: seq<byte>, files: seq<File>)

  // ---------- Space for a new file ----------

  datatype Placement = Before(index: nat, start: nat) | AtEnd(start: nat) | NoSpace

  /** The walk over the file list, from index `k` on, with `start` the end of the last file on disk seen. */
  function FindFrom(g: Geometry, files: seq<File>, k: nat, start: nat, need: nat): (p: Placement)
    requires k <= |files|
    ensures p.Before? ==> k <= p.index < |files| && files[p.index].OnDisk()
    decreases |files| - k
  {
    if k == |files| then
      if Sub64(g.Size(), start) >= need then AtEnd(start) else NoSpace
    else if !files[k].OnDisk() then
      FindFrom(g, files, k + 1, start, need)
    else if Sub64(files[k].hw.blockStart * g.blockSize, start) >= need then
      Before(k, start)
    else
      FindFrom(g, files, k + 1, ToWord(files[k].hw.blockEnd + 1) * g.blockSize, need)
  }

  /** Unlinking entry `i` and linking it back in front of entry `k`. */
  function Relink<T>(s: seq<T>, i: nat, k: nat): (r: seq<T>)
    requires i < |s| && k < |s| && i != k
    ensures |r| == |s|
  {
    if i < k then s[..i] + s[i + 1..k] + [s[i]] + s[k..]
    else s[..k] + [s[i]] + s[k..i] + s[i + 1..]
  }

  /** Unlinking entry `i`. */
  function Removed<T>(s: seq<T>, i: nat): (r: seq<T>)
    requires i < |s|
    ensures |r| == |s| - 1
  {
    s[..i] + s[i + 1..]
  }

  function RelinkedIndex(i: nat, k: nat): nat
    requires i != k
  {
    if i < k then k - 1 else k
  }

  // ---------- Flush ----------

  /** A disk write, together with the file record as it stands when the write is issued. */
  datatype Action = Action(write: Write, hw: Description, hwAddress: nat)

  /** What stays the same while a file's regions are flushed. */
  datatype Context = Context(geometry: Geometry, name: seq<byte>, start: nat, oldSize: nat, limit: nat)

  datatype Plan = Plan(status: Status, actions: seq<Action>, hw: Description, hwAddress: nat)

  /** In 32 bits: it is zero for a file that fills media of 4 GiB. */
  function PhysicalSize(g: Geometry, hw: Description): nat
  {
    if hw.regionCount == 0 then 0 else ToWord(ToWord(ToWord(hw.blockEnd - hw.blockStart) + 1) * g.blockSize)
  }

  /** Where WriteFileDescription puts the description: the tail of its last block. */
  function TailAddress(g: Geometry, blockEnd: word): nat
  {
    Sub64(ToWord(blockEnd + 1) * g.blockSize, DESCRIPTION_SIZE)
  }

  /** WriteFileDescription. */
  function PlanDescription(c: Context, p: Plan, dataSize: nat): Plan
    requires c.geometry.blockSize > 0 && IsName(c.name)
  {
    var hw := Describe(p.hw, c.name, dataSize, c.start, c.geometry.blockSize);
    var at := TailAddress(c.geometry, hw.blockEnd);
    p.(actions := p.actions + [Action(Write(at, Encode(hw)), hw, at)], hw := hw, hwAddress := at)
  }

  predicate HasSpace(c: Context, hw: Description, dataSize: nat)
  {
    dataSize + DESCRIPTION_SIZE <= PhysicalSize(c.geometry, hw)
    || Sub64(c.limit, c.start) >= dataSize + DESCRIPTION_SIZE
  }

  /** InvalidateImageDescription, for a file that has a description. */
  function EraseActions(p: Plan): seq<Action>
  {
    if p.hwAddress != 0 then [Action(Write(p.hwAddress, Zeros(DESCRIPTION_SIZE)), p.hw, p.hwAddress)] else []
  }

  /** The erase and the data write of an appended region, before its description. */
  function AppendBase(c: Context, p: Plan, r: Region): Plan
  {
    p.(actions := p.actions + EraseActions(p) + [Action(Write(c.start + r.offset, r.data), p.hw, p.hwAddress)])
  }

  /** A region flushed by the append branch, which writes a description. */
  predicate Appends(r: Region, oldSize: nat)
  {
    r.data != [] && r.End() >= oldSize
  }

  /** One turn of the loop over the buffered regions. */
  function PlanRegion(c: Context, p: Plan, r: Region): Plan
    requires c.geometry.blockSize > 0 && IsName(c.name)
  {
    if p.status != Success || r.data == [] then
      p
    else if r.End() < c.oldSize then
      p.(actions := p.actions + [Action(Write(c.start + r.offset, r.data), p.hw, p.hwAddress)])
    else if !HasSpace(c, p.hw, r.End()) then
      p.(status := VolumeFull)
    else
      PlanDescription(c, AppendBase(c, p, r), r.End())
  }

  function PlanRegions(c: Context, p: Plan, rs: seq<Region>): Plan
    requires c.geometry.blockSize > 0 && IsName(c.name)
  {
    if rs == [] then p else PlanRegion(c, PlanRegions(c, p, rs[..|rs| - 1]), rs[|rs| - 1])
  }

  /** The description is rewritten at the end when it does not carry the current name and size. */
  function PlanFinish(c: Context, p: Plan, size: nat): Plan
    requires c.geometry.blockSize > 0 && IsName(c.name)
  {
    if p.status == Success && (NameOf(p.hw.filename) != c.name || p.hw.regions[0].size != size)
    then PlanDescription(c, p, size)
    else p
  }

  function RegionsPlan(c: Context, f: File): Plan
    requires c.geometry.blockSize > 0 && IsName(c.name)
  {
    PlanRegions(c, StartPlan(f), f.regions)
  }

  function StartPlan(f: File): Plan
  {
    Plan(Success, [], f.hw, f.hwAddress)
  }

  function FlushPlan(c: Context, f: File): Plan
    requires c.geometry.blockSize > 0 && IsName(c.name) && f.info.Some?
  {
    PlanFinish(c, RegionsPlan(c, f), f.info.value.size)
  }

  /** The end of the space the code lets file `i` grow into: its list neighbour's start. */
  function GrowLimit(g: Geometry, files: seq<File>, i: nat): nat
    requires i < |files|
  {
    if i + 1 < |files| then files[i + 1].hw.blockStart * g.blockSize else g.Size()
  }

  function ContextFor(g: Geometry, files: seq<File>, i: nat, start: nat): Context
    requires i < |files| && files[i].info.Some?
  {
    Context(g, files[i].info.value.name, start, files[i].DataSize(), GrowLimit(g, files, i))
  }

  /** The file list, the file's index in it and its start, once a place for the file is known. */
  datatype Placed = Placed(files: seq<File>, index: nat, start: nat) | Unplaced

  function Place(g: Geometry, files: seq<File>, i: nat): (p: Placed)
    requires i < |files| && files[i].info.Some?
    ensures p.Placed? ==> |p.files| == |files| && p.index < |files| && p.files[p.index] == files[i]
  {
    if files[i].OnDisk() then
      Placed(files, i, files[i].hw.blockStart * g.blockSize)
    else
      match FindFrom(g, files, 0, 0, files[i].info.value.size + DESCRIPTION_SIZE)
      case Before(k, start) => Placed(Relink(files, i, k), RelinkedIndex(i, k), start)
      case AtEnd(start) => Placed(files, i, start)
      case NoSpace => Unplaced
  }

  function Writes(actions: seq<Action>): (ws: seq<Write>)
    ensures |ws| == |actions|
    ensures forall i :: 0 <= i < |ws| ==> ws[i] == actions[i].write
  {
    seq(|actions|, i requires 0 <= i < |actions| => actions[i].write)
  }

  predicate Flushable(s: State, i: nat)
  {
    && s.geometry.Valid()
    && |s.media| == s.geometry.Size()
    && i < |s.files|
    && (s.files[i].info.Some? ==> IsName(s.files[i].info.value.name))
  }

  /**
   Executing the first `done` disk writes of a plan: either all of them, or the
   device failed during the next one, which may have left anything in its own range.
   `record` is what the file record then holds.
   */
  ghost predicate Executed(actions: seq<Action>, done: nat, media: seq<byte>, media': seq<byte>)
  {
    && done <= |actions|
    && |media'| == |media|
    && AllFit(Writes(actions[..done]), |media|)
    && forall a :: 0 <= a < |media| && (done == |actions| || !actions[done].write.Covers(a)) ==>
         media'[a] == Apply(media, Writes(actions[..done]))[a]
  }

  /** The file record after `done` writes of the plan `p`, when `replay` is its part for the buffered regions. */
  function RecordAfter(f: File, replay: Plan, p: Plan, done: nat): File
    requires done <= |p.actions|
  {
    f.(hw := if done == |p.actions| then p.hw else p.actions[done].hw,
       hwAddress := if done == |p.actions| then p.hwAddress else p.actions[done].hwAddress,
       regions := if replay.status == Success && |replay.actions| <= done then [] else f.regions)
  }

  /** The outcomes of flushing file `i`, which is then at index `j`, after `done` successful disk writes. */
  ghost predicate FlushStep(s: State, i: nat, status: Status, s': State, j: nat, done: nat)
    requires Flushable(s, i)
  {
    var f := s.files[i];
    s'.geometry == s.geometry
    && if f.info.None? then status == InvalidParameter && s' == s && j == i
       else if f.mode == ReadOnly then status == AccessDenied && s' == s && j == i
       else
         match Place(s.geometry, s.files, i)
         case Unplaced => status == VolumeFull && s' == s && j == i
         case Placed(files, index, start) =>
           var c := ContextFor(s.geometry, files, index, start);
           var p := FlushPlan(c, f);
           && j == index
           && Executed(p.actions, done, s.media, s'.media)
           && status == (if done == |p.actions| then p.status else DeviceError)
           && s'.files == files[index := RecordAfter(f, RegionsPlan(c, f), p, done)]
  }
}
