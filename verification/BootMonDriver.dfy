/**
 The driver itself: a volume whose flash is written through a disk that may fail,
 and the file operations that update the list of file records in place.
 */
module BootMonDriver {
  import opened Bytes
  import opened Options
  import opened ByteStore
  import opened BootMonImage
  import opened BootMonVolume
  import opened BootMonAllocation
  import opened BootMonFlush
  import opened BootMonMount
  import opened BootMonBuffer
  import opened BootMonOperations

  // ---------- Plans grow by appending ----------

  lemma {:induction false} RegionExtends(c: Context, p: Plan, r: Region)
    requires c.geometry.blockSize > 0 && IsName(c.name)
    ensures p.actions <= PlanRegion(c, p, r).actions
  {
  }

  lemma {:induction false} RegionsExtend(c: Context, p: Plan, rs: seq<Region>, k: nat)
    requires c.geometry.blockSize > 0 && IsName(c.name) && k <= |rs|
    ensures PlanRegions(c, p, rs[..k]).actions <= PlanRegions(c, p, rs).actions
  {
    if k < |rs| {
      var n := |rs| - 1;
      assert rs[..n][..k] == rs[..k];
      RegionsExtend(c, p, rs[..n], k);
      RegionExtends(c, PlanRegions(c, p, rs[..n]), rs[n]);
    } else {
      assert rs[..k] == rs;
    }
  }

  lemma {:induction false} RegionsActionsInPlan(c: Context, f: File)
    requires c.geometry.blockSize > 0 && IsName(c.name) && f.info.Some?
    ensures RegionsPlan(c, f).actions <= FlushPlan(c, f).actions
  {
  }

  /** Actions that the flush has completed, in order: a prefix of the plan, fully applied. */
  ghost predicate Carried(c: Context, f: File, actions: seq<Action>, m: seq<byte>, m': seq<byte>)
    requires c.geometry.blockSize > 0 && IsName(c.name) && f.info.Some?
  {
    && actions <= FlushPlan(c, f).actions
    && AllFit(Writes(actions), |m|)
    && m' == Apply(m, Writes(actions))
  }

  lemma {:induction false} CarriedIsExecuted(c: Context, f: File, actions: seq<Action>, m: seq<byte>, m': seq<byte>)
    requires c.geometry.blockSize > 0 && IsName(c.name) && f.info.Some?
    requires Carried(c, f, actions, m, m')
    ensures Executed(FlushPlan(c, f).actions, |actions|, m, m')
  {
    assert FlushPlan(c, f).actions[..|actions|] == actions;
  }

  /** A write that fails leaves everything outside its range as the completed writes made it. */
  lemma {:induction false} BrokenIsExecuted(c: Context, f: File, actions: seq<Action>, a: Action, m: seq<byte>, m': seq<byte>, m'': seq<byte>)
    requires c.geometry.blockSize > 0 && IsName(c.name) && f.info.Some?
    requires Carried(c, f, actions, m, m') && actions + [a] <= FlushPlan(c, f).actions
    requires |m''| == |m'| && forall x :: 0 <= x < |m'| && !a.write.Covers(x) ==> m''[x] == m'[x]
    ensures Executed(FlushPlan(c, f).actions, |actions|, m, m'')
    ensures FlushPlan(c, f).actions[|actions|] == a
  {
    var all := FlushPlan(c, f).actions;
    assert all[..|actions|] == (actions + [a])[..|actions|] == actions;
    assert all[|actions|] == (actions + [a])[|actions|] == a;
  }

  lemma {:induction false} CarryOne(c: Context, f: File, actions: seq<Action>, a: Action, m: seq<byte>, m': seq<byte>, m'': seq<byte>)
    requires c.geometry.blockSize > 0 && IsName(c.name) && f.info.Some?
    requires Carried(c, f, actions, m, m') && actions + [a] <= FlushPlan(c, f).actions
    requires a.write.Fits(|m'|) && m'' == ApplyOne(m', a.write)
    ensures Carried(c, f, actions + [a], m, m'')
  {
    ApplySnoc(m, Writes(actions), a.write);
    assert Writes(actions + [a]) == Writes(actions) + [a.write];
  }

  lemma {:induction false} StartIsCarried(c: Context, f: File, m: seq<byte>)
    requires c.geometry.blockSize > 0 && IsName(c.name) && f.info.Some?
    ensures Carried(c, f, StartPlan(f).actions, m, m)
  {
  }

  /** The list as it is after the plan `p`, when `list` is the placed one, its buffer freed or not. */
  ghost predicate ListAt(list: seq<File>, j: nat, hw: Description, hwAddress: nat, files: seq<File>)
  {
    j < |list| && files == list[j := list[j].(hw := hw, hwAddress := hwAddress)]
  }

  /** `list` is the placed list, with the regions of file `j` freed if the flush got that far. */
  ghost predicate PlacedAs(s: State, i: nat, list: seq<File>, j: nat, c: Context, f: File, freed: bool)
    requires Flushable(s, i)
  {
    && s.files[i] == f && f.info.Some? && f.mode == ReadWrite
    && match Place(s.geometry, s.files, i)
       case Unplaced => false
       case Placed(fs, index, start) =>
         && j == index && c == ContextFor(s.geometry, fs, index, start)
         && list == if freed then fs[index := f.(regions := [])] else fs
  }

  lemma {:induction false} BrokenIsStep(s: State, i: nat, list: seq<File>, j: nat, c: Context, f: File, done: nat, s': State)
    requires Flushable(s, i) && IsName(c.name) && c.geometry.blockSize > 0
    requires f.info.Some? && done < |FlushPlan(c, f).actions|
    requires var replay := RegionsPlan(c, f);
             PlacedAs(s, i, list, j, c, f, replay.status == Success && |replay.actions| <= done)
    requires s'.geometry == s.geometry
    requires Executed(FlushPlan(c, f).actions, done, s.media, s'.media)
    requires var a := FlushPlan(c, f).actions[done]; ListAt(list, j, a.hw, a.hwAddress, s'.files)
    ensures FlushStep(s, i, DeviceError, s', j, done)
  {
    hide FlushPlan, RegionsPlan, Executed;
  }

  lemma {:induction false} CarriedIsStep(s: State, i: nat, list: seq<File>, j: nat, c: Context, f: File, p: Plan, s': State)
    requires Flushable(s, i) && IsName(c.name) && c.geometry.blockSize > 0
    requires f.info.Some? && p == FlushPlan(c, f)
    requires PlacedAs(s, i, list, j, c, f, RegionsPlan(c, f).status == Success)
    requires s'.geometry == s.geometry
    requires Carried(c, f, p.actions, s.media, s'.media)
    requires ListAt(list, j, p.hw, p.hwAddress, s'.files)
    ensures FlushStep(s, i, p.status, s', j, |p.actions|)
  {
    RegionsActionsInPlan(c, f);
    CarriedIsExecuted(c, f, p.actions, s.media, s'.media);
    hide FlushPlan, RegionsPlan, Executed;
  }

  /** A flush that stops for lack of space is done with the regions' part of the plan. */
  lemma {:induction false} StoppedPlan(c: Context, f: File)
    requires c.geometry.blockSize > 0 && IsName(c.name) && f.info.Some?
    ensures RegionsPlan(c, f).status != Success ==> FlushPlan(c, f) == RegionsPlan(c, f)
  {
  }

  lemma {:induction false} FinishCases(c: Context, f: File)
    requires c.geometry.blockSize > 0 && IsName(c.name) && f.info.Some? && RegionsPlan(c, f).status == Success
    ensures var p := RegionsPlan(c, f);
            FlushPlan(c, f) == if NameOf(p.hw.filename) != c.name || p.hw.regions[0].size != f.info.value.size
                               then PlanDescription(c, p, f.info.value.size) else p
  {
  }

  /**
   With a disk that works, a placed flush carries out its whole plan, and ends in success
   or for want of space; without a place nothing is written.
   */
  ghost predicate Carries(s: State, i: nat, status: Status, media: seq<byte>)
    requires Flushable(s, i)
  {
    var f := s.files[i];
    status != DeviceError && f.info.Some? && f.mode == ReadWrite ==>
      match Place(s.geometry, s.files, i)
      case Unplaced => status == VolumeFull && media == s.media
      case Placed(files, index, start) =>
        var p := FlushPlan(ContextFor(s.geometry, files, index, start), f);
        && (status == Success || status == VolumeFull) && status == p.status
        && AllFit(Writes(p.actions), |s.media|) && media == After(s.media, p)
  }

  lemma {:induction false} StepStaysNamed(s: State, i: nat, status: Status, s': State, j: nat, done: nat)
    requires Flushable(s, i) && FlushStep(s, i, status, s', j, done)
    requires forall x :: 0 <= x < |s.files| && s.files[x].info.Some? ==> IsName(s.files[x].info.value.name)
    ensures forall x :: 0 <= x < |s'.files| && s'.files[x].info.Some? ==> IsName(s'.files[x].info.value.name)
  {
    hide FlushPlan, Executed, RegionsPlan, FindFrom, IsName, GrowLimit;
  }

  /** What is refused before anything is written changes nothing. */
  lemma {:induction false} RefusedIsStep(s: State, i: nat)
    requires Flushable(s, i)
    ensures var f := s.files[i];
            && (f.info.None? ==> FlushStep(s, i, InvalidParameter, s, i, 0))
            && (f.info.Some? && f.mode == ReadOnly ==> FlushStep(s, i, AccessDenied, s, i, 0))
            && (f.info.Some? && f.mode == ReadWrite && Place(s.geometry, s.files, i).Unplaced? ==>
                  FlushStep(s, i, VolumeFull, s, i, 0))
  {
  }

  lemma {:induction false} StepCarries(s: State, i: nat, status: Status, s': State, j: nat, done: nat)
    requires Flushable(s, i) && FlushStep(s, i, status, s', j, done)
    ensures Carries(s, i, status, s'.media)
    ensures s.files[i].info.None? <==> status == InvalidParameter
    ensures status == AccessDenied <==> s.files[i].info.Some? && s.files[i].mode == ReadOnly
  {
    hide FlushPlan, RegionsPlan, Place, ContextFor, Executed;
    var f := s.files[i];
    if f.info.Some? && Place(s.geometry, s.files, i).Placed? {
      PlacedContext(s, i);
      PlanStatus(ContextFor(s.geometry, Place(s.geometry, s.files, i).files, Place(s.geometry, s.files, i).index, Place(s.geometry, s.files, i).start), f);
    }
    if status != DeviceError && f.info.Some? && f.mode == ReadWrite && Place(s.geometry, s.files, i).Placed? {
      var Placed(files, index, start) := Place(s.geometry, s.files, i);
      var c := ContextFor(s.geometry, files, index, start);
      PlacedContext(s, i);
      PlanStatus(c, f);
      CompletedIsAfter(FlushPlan(c, f), done, s.media, s'.media);
    }
  }

  lemma {:induction false} PlacedContext(s: State, i: nat)
    requires Flushable(s, i) && s.files[i].info.Some? && Place(s.geometry, s.files, i).Placed?
    ensures var p := Place(s.geometry, s.files, i);
            var c := ContextFor(s.geometry, p.files, p.index, p.start);
            c.geometry == s.geometry && c.geometry.blockSize > 0 && c.name == s.files[i].info.value.name && IsName(c.name)
  {
    hide Place;
  }

  class Volume {
    const geometry: Geometry
    const disk: Disk
    const media: array<byte>
    var files: seq<File>
    var initialized: bool

    /** A freshly started driver: no file is known until the volume is initialised. */
    constructor (geometry: Geometry, disk: Disk, media: array<byte>)
      requires geometry.Valid() && media.Length == geometry.Size()
      ensures Valid() && files == [] && !initialized && this.disk == disk && this.media == media && this.geometry == geometry
    {
      this.geometry, this.disk, this.media, files, initialized := geometry, disk, media, [], false;
    }

    ghost predicate Valid()
      reads this
    {
      && geometry.Valid()
      && media.Length == geometry.Size()
      && (!initialized ==> files == [])
      && forall i :: 0 <= i < |files| && files[i].info.Some? ==> IsName(files[i].info.value.name)
    }

    ghost function Model(): State
      reads this, media
    {
      State(geometry, media[..], files)
    }

    // ---------- Flushing ----------

    /** Zeroes over the description of file `i`. */
    method InvalidateImageDescription(i: nat) returns (ok: bool)
      requires i < |files|
      modifies media, disk
      ensures ok <==> disk.failures == old(disk.failures)
      ensures disk.failures >= old(disk.failures)
      ensures var w := Write(files[i].hwAddress, Zeros(DESCRIPTION_SIZE));
              && (ok ==> w.Fits(media.Length) && media[..] == ApplyOne(old(media[..]), w))
              && forall a :: 0 <= a < media.Length && !w.Covers(a) ==> media[a] == old(media[a])
    {
      ok := disk.WriteDisk(media, files[i].hwAddress, Zeros(DESCRIPTION_SIZE));
    }

    /** Builds the description of file `i` in its record and writes it to flash. */
    method WriteFileDescription(i: nat, name: seq<byte>, dataSize: nat, fileStart: nat) returns (ok: bool)
      requires i < |files| && geometry.Valid() && IsName(name)
      modifies this`files, media, disk
      ensures ok <==> disk.failures == old(disk.failures)
      ensures disk.failures >= old(disk.failures)
      ensures var hw := Describe(old(files[i].hw), name, dataSize, fileStart, geometry.blockSize);
              var at := TailAddress(geometry, hw.blockEnd);
              && files == old(files)[i := old(files[i]).(hw := hw, hwAddress := at)]
              && (ok ==> Write(at, Encode(hw)).Fits(media.Length) && media[..] == ApplyOne(old(media[..]), Write(at, Encode(hw))))
              && forall a :: 0 <= a < media.Length && !Write(at, Encode(hw)).Covers(a) ==> media[a] == old(media[a])
    {
      var description := Draft(files[i].hw, name, dataSize, fileStart, geometry.blockSize);
      description := BootMonFsComputeFooterChecksum(description);
      var at := TailAddress(geometry, description.blockEnd);
      files := files[i := files[i].(hw := description, hwAddress := at)];
      ok := disk.WriteDisk(media, at, Encode(description));
    }

    /** First fit over the file list, relinking the file into disk order when it lands between files. */
    method BootMonFsFindSpaceForNewFile(i: nat) returns (status: Status, j: nat, start: nat)
      requires Valid() && i < |files| && files[i].info.Some? && !files[i].OnDisk()
      modifies this`files
      ensures match Place(geometry, old(files), i)
              case Placed(fs, index, at) => status == Success && files == fs && j == index && start == at
              case Unplaced => status == VolumeFull && files == old(files) && j == i
    {
      var need := files[i].info.value.size + DESCRIPTION_SIZE;
      var k := 0;
      start, j := 0, i;
      while k < |files|
        invariant 0 <= k <= |files|
        invariant files == old(files) && j == i
        invariant FindFrom(geometry, files, 0, 0, need) == FindFrom(geometry, files, k, start, need)
      {
        if files[k].OnDisk() {
          if Sub64(files[k].hw.blockStart * geometry.blockSize, start) >= need {
            files := Relink(files, i, k);
            return Success, RelinkedIndex(i, k), start;
          }
          start := ToWord(files[k].hw.blockEnd + 1) * geometry.blockSize;
        }
        k := k + 1;
      }
      if Sub64(geometry.Size(), start) >= need {
        return Success, i, start;
      }
      return VolumeFull, i, start;
    }

    /** File `i` as the plan has it after carrying out `actions`; the rest of the list is `list`. */
    ghost predicate AtPlan(list: seq<File>, i: nat, c: Context, f: File, p: Plan, m: seq<byte>)
      requires c.geometry.blockSize > 0 && IsName(c.name) && f.info.Some?
      reads this, media
    {
      && i < |list| && files == list[i := list[i].(hw := p.hw, hwAddress := p.hwAddress)]
      && media.Length == |m| && Carried(c, f, p.actions, m, media[..])
    }

    /** The device failed during write number `done` of the flush. */
    ghost predicate Broken(list: seq<File>, i: nat, c: Context, f: File, done: nat, m: seq<byte>)
      requires c.geometry.blockSize > 0 && IsName(c.name) && f.info.Some?
      reads this, media
    {
      var actions := FlushPlan(c, f).actions;
      && done < |actions|
      && i < |list| && files == list[i := list[i].(hw := actions[done].hw, hwAddress := actions[done].hwAddress)]
      && Executed(actions, done, m, media[..])
    }

    method FlushErase(i: nat, ghost list: seq<File>, ghost c: Context, ghost f: File, ghost p: Plan, ghost m: seq<byte>)
      returns (ok: bool)
      requires c.geometry.blockSize > 0 && IsName(c.name) && f.info.Some?
      requires AtPlan(list, i, c, f, p, m) && p.hwAddress != 0
      requires p.actions + EraseActions(p) <= FlushPlan(c, f).actions
      modifies media, disk
      ensures ok <==> disk.failures == old(disk.failures)
      ensures disk.failures >= old(disk.failures)
      ensures ok ==> AtPlan(list, i, c, f, p.(actions := p.actions + EraseActions(p)), m)
      ensures !ok ==> Broken(list, i, c, f, |p.actions|, m)
    {
      hide FlushPlan;
      ghost var before := media[..];
      ok := InvalidateImageDescription(i);
      if ok {
        CarryOne(c, f, p.actions, EraseActions(p)[0], m, before, media[..]);
      } else {
        BrokenIsExecuted(c, f, p.actions, EraseActions(p)[0], m, before, media[..]);
      }
    }

    method FlushData(i: nat, at: nat, data: seq<byte>, ghost list: seq<File>, ghost c: Context, ghost f: File, ghost p: Plan, ghost m: seq<byte>)
      returns (ok: bool)
      requires c.geometry.blockSize > 0 && IsName(c.name) && f.info.Some?
      requires AtPlan(list, i, c, f, p, m)
      requires p.actions + [Action(Write(at, data), p.hw, p.hwAddress)] <= FlushPlan(c, f).actions
      modifies media, disk
      ensures ok <==> disk.failures == old(disk.failures)
      ensures disk.failures >= old(disk.failures)
      ensures ok ==> AtPlan(list, i, c, f, p.(actions := p.actions + [Action(Write(at, data), p.hw, p.hwAddress)]), m)
      ensures !ok ==> Broken(list, i, c, f, |p.actions|, m)
    {
      hide FlushPlan;
      ghost var before, write := media[..], Action(Write(at, data), p.hw, p.hwAddress);
      ok := disk.WriteDisk(media, at, data);
      if ok {
        CarryOne(c, f, p.actions, write, m, before, media[..]);
      } else {
        BrokenIsExecuted(c, f, p.actions, write, m, before, media[..]);
      }
    }

    method FlushDescription(i: nat, c: Context, dataSize: nat, ghost list: seq<File>, ghost f: File, ghost p: Plan, ghost m: seq<byte>)
      returns (ok: bool)
      requires geometry.Valid() && c.geometry == geometry && IsName(c.name) && f.info.Some?
      requires AtPlan(list, i, c, f, p, m)
      requires PlanDescription(c, p, dataSize).actions <= FlushPlan(c, f).actions
      modifies this`files, media, disk
      ensures ok <==> disk.failures == old(disk.failures)
      ensures disk.failures >= old(disk.failures)
      ensures ok ==> AtPlan(list, i, c, f, PlanDescription(c, p, dataSize), m)
      ensures !ok ==> Broken(list, i, c, f, |p.actions|, m)
    {
      hide FlushPlan, Describe, Encode;
      ghost var before, q := media[..], PlanDescription(c, p, dataSize);
      ghost var describe := Action(Write(q.hwAddress, Encode(q.hw)), q.hw, q.hwAddress);
      ok := WriteFileDescription(i, c.name, dataSize, c.start);
      if ok {
        CarryOne(c, f, p.actions, describe, m, before, media[..]);
      } else {
        BrokenIsExecuted(c, f, p.actions, describe, m, before, media[..]);
      }
    }

    /** One buffered region: an edit in place, or erase, write and describe when it reaches the old end. */
    method FlushRegion(i: nat, c: Context, r: Region, ghost list: seq<File>, ghost f: File, ghost p: Plan, ghost m: seq<byte>)
      returns (status: Status, ghost done: nat)
      requires geometry.Valid() && c.geometry == geometry && IsName(c.name) && f.info.Some?
      requires AtPlan(list, i, c, f, p, m) && p.status == Success
      requires PlanRegion(c, p, r).actions <= FlushPlan(c, f).actions
      modifies this`files, media, disk
      ensures status == DeviceError <==> disk.failures > old(disk.failures)
      ensures disk.failures >= old(disk.failures)
      ensures status != DeviceError ==> status == PlanRegion(c, p, r).status && AtPlan(list, i, c, f, PlanRegion(c, p, r), m)
      ensures status == DeviceError ==> Broken(list, i, c, f, done, m) && done < |PlanRegion(c, p, r).actions|
    {
      hide FlushPlan, Describe, Encode, PhysicalSize, Carried, Executed;
      if r.data == [] {
        return Success, 0;
      }
      if r.End() < c.oldSize {
        // An edit to an existing portion of the file
        var edited := FlushData(i, c.start + r.offset, r.data, list, c, f, p, m);
        return if edited then Success else DeviceError, |p.actions|;
      }
      if !(r.End() + DESCRIPTION_SIZE <= PhysicalSize(geometry, files[i].hw)
           || Sub64(c.limit, c.start) >= r.End() + DESCRIPTION_SIZE) {
        return VolumeFull, 0;
      }
      ghost var base := AppendBase(c, p, r);
      ghost var erased := p.(actions := p.actions + EraseActions(p));
      assert erased.actions <= base.actions <= PlanRegion(c, p, r).actions;
      if files[i].hwAddress != 0 {
        var ok := FlushErase(i, list, c, f, p, m);
        if !ok {
          return DeviceError, |p.actions|;
        }
      } else {
        assert erased == p;
      }
      var ok := FlushData(i, c.start + r.offset, r.data, list, c, f, erased, m);
      if !ok {
        return DeviceError, |erased.actions|;
      }
      assert base == erased.(actions := base.actions);
      ok := FlushDescription(i, c, r.End(), list, f, base, m);
      return if ok then Success else DeviceError, |base.actions|;
    }

    /** The loop over the buffered regions. */
    method FlushRegions(i: nat, c: Context, ghost list: seq<File>, f: File, ghost m: seq<byte>)
      returns (status: Status, ghost done: nat)
      requires geometry.Valid() && c.geometry == geometry && IsName(c.name) && f.info.Some?
      requires AtPlan(list, i, c, f, StartPlan(f), m)
      modifies this`files, media, disk
      ensures status == DeviceError <==> disk.failures > old(disk.failures)
      ensures disk.failures >= old(disk.failures)
      ensures status != DeviceError ==> status == RegionsPlan(c, f).status && AtPlan(list, i, c, f, RegionsPlan(c, f), m)
      ensures status == DeviceError ==> Broken(list, i, c, f, done, m) && done < |RegionsPlan(c, f).actions|
    {
      hide FlushPlan, PlanRegion, Carried, Executed;
      var k := 0;
      status, done := Success, 0;
      while k < |f.regions|
        invariant 0 <= k <= |f.regions|
        invariant AtPlan(list, i, c, f, PlanRegions(c, StartPlan(f), f.regions[..k]), m) && disk.failures == old(disk.failures)
        invariant status == PlanRegions(c, StartPlan(f), f.regions[..k]).status == Success
      {
        ghost var p := PlanRegions(c, StartPlan(f), f.regions[..k]);
        assert f.regions[..k + 1][..k] == f.regions[..k];
        assert PlanRegions(c, StartPlan(f), f.regions[..k + 1]) == PlanRegion(c, p, f.regions[k]);
        RegionsExtend(c, StartPlan(f), f.regions, k + 1);
        RegionsActionsInPlan(c, f);
        status, done := FlushRegion(i, c, f.regions[k], list, f, p, m);
        if status == DeviceError {
          return;
        }
        if status != Success {
          StoppedStays(c, StartPlan(f), f.regions, k + 1);
          return;
        }
        k := k + 1;
      }
      assert f.regions[..k] == f.regions;
    }

    /** The flush of a file whose place is known. */
    method FlushPlaced(j: nat, c: Context, f: File, ghost list: seq<File>, ghost s: State, ghost i: nat)
      returns (status: Status, ghost done: nat)
      requires Flushable(s, i) && s.geometry == geometry && s.media == media[..] && files == list
      requires PlacedAs(s, i, list, j, c, f, false)
      requires j < |files| && files[j] == f && c.geometry == geometry && IsName(c.name) && c.name == f.info.value.name
      modifies this`files, media, disk
      ensures status == DeviceError <==> disk.failures > old(disk.failures)
      ensures disk.failures >= old(disk.failures)
      ensures FlushStep(s, i, status, Model(), j, done)
    {
      hide FlushPlan, Executed, Carried, RegionsPlan, FlushStep;
      StartIsCarried(c, f, s.media);
      status, done := FlushRegions(j, c, list, f, s.media);
      if status == DeviceError {
        RegionsActionsInPlan(c, f);
        BrokenIsStep(s, i, list, j, c, f, done, Model());
        return;
      }
      if status != Success {
        done := |RegionsPlan(c, f).actions|;
        StoppedPlan(c, f);
        CarriedIsStep(s, i, list, j, c, f, RegionsPlan(c, f), Model());
        return;
      }
      files := files[j := files[j].(regions := [])];
      status, done := FlushFinish(j, c, f, list[j := f.(regions := [])], s, i);
    }

    /** The end of a flush whose regions are all written: rewrite the description if name or size changed. */
    method FlushFinish(j: nat, c: Context, f: File, ghost list: seq<File>, ghost s: State, ghost i: nat)
      returns (status: Status, ghost done: nat)
      requires Flushable(s, i) && s.geometry == geometry
      requires PlacedAs(s, i, list, j, c, f, true)
      requires c.geometry == geometry && IsName(c.name) && c.name == f.info.value.name
      requires RegionsPlan(c, f).status == Success && AtPlan(list, j, c, f, RegionsPlan(c, f), s.media)
      modifies this`files, media, disk
      ensures status == DeviceError <==> disk.failures > old(disk.failures)
      ensures disk.failures >= old(disk.failures)
      ensures FlushStep(s, i, status, Model(), j, done)
    {
      FinishCases(c, f);
      hide FlushPlan, Executed, Carried, RegionsPlan, FlushStep;
      if NameOf(files[j].hw.filename) != c.name || files[j].hw.regions[0].size != f.info.value.size {
        var ok := FlushDescription(j, c, f.info.value.size, list, f, RegionsPlan(c, f), s.media);
        if !ok {
          BrokenIsStep(s, i, list, j, c, f, |RegionsPlan(c, f).actions|, Model());
          return DeviceError, |RegionsPlan(c, f).actions|;
        }
      }
      CarriedIsStep(s, i, list, j, c, f, FlushPlan(c, f), Model());
      return Success, |FlushPlan(c, f).actions|;
    }

    /**
     BootMonFsFlushFile: finds a place for a new file, replays the buffered regions,
     and rewrites the description if name or size changed.
     */
    method BootMonFsFlushFile(i: nat) returns (status: Status, j: nat, ghost done: nat)
      requires Valid() && i < |files|
      modifies this`files, media, disk
      ensures Valid()
      ensures FlushStep(old(Model()), i, status, Model(), j, done)
      ensures status == DeviceError <==> disk.failures > old(disk.failures)
      ensures disk.failures >= old(disk.failures)
      ensures old(files[i]).info.None? <==> status == InvalidParameter
      ensures status == AccessDenied <==> old(files[i]).info.Some? && old(files[i]).mode == ReadOnly
      ensures Carries(old(Model()), i, status, media[..])
    {
      hide FlushStep, Carries;
      ghost var s := Model();
      status, j, done := FlushByPlace(i);
      StepCarries(s, i, status, Model(), j, done);
    }

    method FlushByPlace(i: nat) returns (status: Status, j: nat, ghost done: nat)
      requires Valid() && i < |files|
      modifies this`files, media, disk
      ensures Valid()
      ensures FlushStep(old(Model()), i, status, Model(), j, done)
      ensures status == DeviceError <==> disk.failures > old(disk.failures)
      ensures disk.failures >= old(disk.failures)
    {
      hide FlushStep, FlushPlan, Executed, Carried, RegionsPlan;
      ghost var s := Model();
      RefusedIsStep(s, i);
      var f := files[i];
      j, done := i, 0;
      if f.info.None? {
        return InvalidParameter, i, 0;
      }
      if f.mode == ReadOnly {
        return AccessDenied, i, 0;
      }
      var start: nat;
      if !f.OnDisk() {
        status, j, start := BootMonFsFindSpaceForNewFile(i);
        if status != Success {
          return;
        }
      } else {
        start := f.hw.blockStart * geometry.blockSize;
      }
      ghost var list := files;
      var c := ContextFor(geometry, files, j, start);
      assert PlacedAs(s, i, list, j, c, f, false);
      status, done := FlushPlaced(j, c, f, list, s, i);
      StepStaysNamed(s, i, status, Model(), j, done);
    }

    // ---------- The buffer ----------

    method BootMonFsWriteFile(i: nat, data: seq<byte>) returns (status: Status)
      requires Valid() && i < |files|
      modifies this`files
      ensures Valid()
      ensures Next(old(Model()), WriteAt(i, data), Outcome(Success, i, 0), status, Model())
      ensures status == InvalidParameter <==> old(files[i]).info.None?
      ensures status == Success <==> old(files[i]).info.Some? && old(files[i]).mode == ReadWrite
      ensures status != Success ==> files == old(files)
    {
      if files[i].info.None? {
        return InvalidParameter;
      }
      if files[i].mode == ReadOnly {
        return AccessDenied;
      }
      var f := files[i];
      var position := f.position + |data|;
      f := f.(regions := f.regions + [Region(f.position, data)], position := position);
      if position > f.info.value.size {
        f := f.(info := Some(f.info.value.(size := position)));
      }
      files := files[i := f];
      return Success;
    }

    method BootMonFsSetPosition(i: nat, position: nat) returns (status: Status)
      requires Valid() && i < |files|
      modifies this`files
      ensures Valid()
      ensures Next(old(Model()), Seek(i, position), Outcome(Success, i, 0), status, Model())
      ensures status == Success <==> old(files[i]).info.Some?
    {
      if files[i].info.None? {
        return InvalidParameter;
      }
      var wanted := if position == END_OF_FILE then files[i].info.value.size else position;
      files := files[i := files[i].(position := wanted)];
      return Success;
    }

    /** Flush, its status ignored, then read from flash from the position on. */
    method BootMonFsReadFile(i: nat, n: nat) returns (status: Status, data: seq<byte>, ghost o: Outcome)
      requires Valid() && i < |files|
      modifies this`files, media, disk
      ensures Valid()
      ensures ReadStep(old(Model()), i, n, o, status, data, Model())
      ensures disk.failures >= old(disk.failures)
      ensures status == InvalidParameter <==> old(files[i]).info.None?
      ensures status == DeviceError ==>
                disk.failures > old(disk.failures) || old(files[i]).position > old(files[i]).info.value.size
      ensures status == Success ==> |data| == ReadLength(old(files[i]), n)
    {
      hide FlushStep, ReadAfter;
      ghost var s := Model();
      if files[i].info.None? {
        return InvalidParameter, [], Outcome(Success, i, 0);
      }
      var flushed, j, done := BootMonFsFlushFile(i);
      FlushKeepsOpen(s, i, flushed, Model(), j, done);
      o := Outcome(flushed, j, done);
      ghost var ok;
      status, data, ok := ReadFlushed(j, n);
    }

    /** The read behind the flush. */
    method ReadFlushed(j: nat, n: nat) returns (status: Status, data: seq<byte>, ghost ok: bool)
      requires Valid() && j < |files| && files[j].info.Some?
      modifies this`files, disk
      ensures Valid()
      ensures ReadAfter(old(Model()), j, n, ok, status, data, Model())
      ensures disk.failures >= old(disk.failures)
      ensures status == DeviceError ==>
                disk.failures > old(disk.failures) || old(files[j]).position > old(files[j]).info.value.size
      ensures status == Success || status == DeviceError
      ensures status == Success ==> |data| == ReadLength(old(files[j]), n)
    {
      var f := files[j];
      data, ok := [], true;
      if f.position >= f.info.value.size {
        assert files[j := Advanced(f, 0)] == files;
        return if f.position > f.info.value.size then DeviceError else Success, data, ok;
      }
      var remaining := f.info.value.size - f.position;
      var length := if n > remaining then remaining else n;
      var worked;
      worked, data := disk.ReadDisk(media, f.hw.blockStart * geometry.blockSize + f.position, length);
      ok := worked;
      files := files[j := f.(position := f.position + |data|)];
      return if worked then Success else DeviceError, data, ok;
    }

    // ---------- Name and size ----------

    /** The loop that cuts buffered regions down to a smaller size. */
    method TrimBuffer(rs: seq<Region>, size: nat) returns (trimmed: seq<Region>)
      ensures trimmed == TrimRegions(rs, size)
    {
      trimmed := [];
      for k := 0 to |rs|
        invariant trimmed == TrimRegions(rs[..k], size)
      {
        assert rs[..k + 1][..k] == rs[..k];
        if rs[k].offset <= size {
          var length := if |rs[k].data| <= size - rs[k].offset then |rs[k].data| else size - rs[k].offset;
          trimmed := trimmed + [Region(rs[k].offset, rs[k].data[..length])];
          assert length == |rs[k].data| ==> rs[k].data[..length] == rs[k].data;
        }
      }
      assert rs[..|rs|] == rs;
    }

    method SetFileSize(i: nat, size: nat) returns (status: Status)
      requires Valid() && i < |files| && files[i].info.Some? && files[i].mode == ReadWrite
      modifies this`files
      ensures Valid()
      ensures status == Success && files == old(files)[i := BootMonBuffer.SetFileSize(old(files[i]), size)]
    {
      hide TrimRegions, IsName;
      var oldSize := ToWord(files[i].info.value.size);
      if size < oldSize {
        var trimmed := TrimBuffer(files[i].regions, size);
        files := files[i := files[i].(regions := trimmed)];
      } else if size > oldSize {
        var position := files[i].position;
        status := BootMonFsSetPosition(i, oldSize);
        status := BootMonFsWriteFile(i, Zeros(size - oldSize));
        status := BootMonFsSetPosition(i, position);
      }
      files := files[i := files[i].(info := Some(files[i].info.value.(size := size)))];
      return Success;
    }

    /** The walk over the list in search of a name. */
    method BootMonGetFileFromAsciiFileName(name: seq<byte>) returns (r: Option<nat>)
      ensures r == Lookup(files, name)
    {
      var k := 0;
      while k < |files|
        invariant 0 <= k <= |files|
        invariant Lookup(files, name) == LookupFrom(files, name, k)
      {
        var candidate := if files[k].info.Some? then files[k].info.value.name else NameOf(files[k].hw.filename);
        if candidate == name {
          return Some(k);
        }
        k := k + 1;
      }
      return None;
    }

    method SetFileName(i: nat, wanted: seq<byte>) returns (status: Status)
      requires Valid() && i < |files| && files[i].info.Some? && IsPath(wanted)
      modifies this`files
      ensures Valid()
      ensures Change(status, files) == Rename(old(files), i, wanted)
    {
      var name := WithoutSeparator(wanted);
      var same := BootMonGetFileFromAsciiFileName(name);
      if same.Some? {
        return AccessDenied;
      }
      files := files[i := files[i].(info := Some(files[i].info.value.(name := name)))];
      return Success;
    }

    method SetFileInfo(i: nat, name: seq<byte>, size: nat) returns (status: Status)
      requires Valid() && i < |files| && IsPath(name)
      modifies this`files
      ensures Valid()
      ensures Change(status, files) == SetInfo(old(files), i, name, size)
    {
      if files[i].info.None? {
        return InvalidParameter;
      }
      var sizeIsDifferent, nameIsDifferent := size != files[i].info.value.size, Compared(name) != files[i].info.value.name;
      if files[i].mode == ReadOnly && (sizeIsDifferent || nameIsDifferent) {
        return AccessDenied;
      }
      if sizeIsDifferent {
        status := SetFileSize(i, size);
      }
      if nameIsDifferent {
        status := SetFileName(i, name);
        return;
      }
      return Success;
    }

    // ---------- Opening, closing, deleting ----------

    /** The size a file is opened with: its regions on flash, and the buffered ones that reach beyond. */
    method BootMonFsGetImageLength(f: File) returns (size: word)
      ensures size == ImageLength(f)
      ensures var rs := f.hw.regions;
              var recorded := ToWord(rs[0].size + rs[1].size + rs[2].size + rs[3].size);
              && (f.regions == [] ==> size == recorded)
              && (|f.regions| == 1 ==>
                    size == if f.regions[0].End() > recorded then ToWord(recorded + f.regions[0].End()) else recorded)
    {
      size := 0;
      ghost var rs := f.hw.regions;
      ghost var sums := [0, rs[0].size, rs[0].size + rs[1].size, rs[0].size + rs[1].size + rs[2].size,
                         rs[0].size + rs[1].size + rs[2].size + rs[3].size];
      for k := 0 to REGION_MAX
        invariant size == ToWord(sums[k])
      {
        AddWords(sums[k], f.hw.regions[k].size);
        size := ToWord(size + f.hw.regions[k].size);
      }
      for k := 0 to |f.regions|
        invariant PendingLength(f.regions[k..], size) == ImageLength(f)
      {
        assert f.regions[k..][1..] == f.regions[k + 1..];
        if f.regions[k].End() > size {
          size := ToWord(size + f.regions[k].End());
        }
      }
    }

    /** BootMonFsOpenFile behind the path clean-up: the first open call mounts the volume, whatever becomes of the call. */
    method BootMonFsOpenFile(path: seq<byte>, mode: OpenMode, directory: bool)
      returns (status: Status, handle: Handle, ghost mounted: State)
      requires Valid() && IsPath(path)
      modifies this`files, this`initialized, disk
      ensures Valid() && initialized
      ensures disk.failures >= old(disk.failures)
      ensures !old(initialized) && disk.failures == old(disk.failures) ==> mounted.files == Scan(geometry, media[..], 0)
      ensures if old(initialized) then mounted == old(Model()) else MountStep(old(Model()), mounted)
      ensures Opening(status, handle, files) == OpenFile(mounted.files, path, mode, directory)
    {
      hide OpenFile, MountStep;
      if !initialized {
        status := BootMonFsInitialize();
      }
      mounted := Model();
      status, handle := OpenMounted(path, mode, directory);
    }

    /** The rest of BootMonFsOpenFile; a new file goes to the head of the list. */
    method OpenMounted(path: seq<byte>, mode: OpenMode, directory: bool) returns (status: Status, handle: Handle)
      requires Valid() && initialized && IsPath(path)
      modifies this`files
      ensures Valid()
      ensures Opening(status, handle, files) == OpenFile(old(files), path, mode, directory)
    {
      hide DoubleSeparator, EndsAtFirstSeparator, ImageLength, LookupFrom, WithoutSeparator, IsPath, IsName;
      if DoubleSeparator(path) {
        return InvalidParameter, NoHandle;
      }
      PathName(path);
      var name := WithoutSeparator(path);
      if BACKSLASH in name {
        if EndsAtFirstSeparator(name) && mode.ReadWriteAndCreate? {
          return if directory then WriteProtected else InvalidParameter, NoHandle;
        }
        return NotFound, NoHandle;
      }
      if name == [] || name[0] == PERIOD {
        return Success, RootDirectory;
      }
      if mode.ReadWriteAndCreate? && directory {
        return WriteProtected, NoHandle;
      }
      var found := BootMonGetFileFromAsciiFileName(name);
      var i := 0;
      if found.None? {
        if !mode.ReadWriteAndCreate? {
          return NotFound, NoHandle;
        }
        files := [NEW_FILE] + files;
      } else {
        i := found.value;
        if files[i].info.Some? {
          return Unsupported, NoHandle;
        }
      }
      var size := BootMonFsGetImageLength(files[i]);
      var openMode := if mode.Read? then ReadOnly else ReadWrite;
      files := files[i := files[i].(info := Some(Info(name, size)), position := 0, mode := openMode)];
      return Success, FileAt(i);
    }

    /** Flush, its status ignored, and drop the in-memory name and size. */
    method BootMonFsCloseFile(i: nat) returns (status: Status, ghost o: Outcome)
      requires Valid() && i < |files|
      modifies this`files, media, disk
      ensures Valid()
      ensures CloseStep(old(Model()), i, o, status, Model())
      ensures disk.failures >= old(disk.failures)
      ensures o.flushed == DeviceError ==> disk.failures > old(disk.failures)
    {
      hide FlushStep;
      ghost var s := Model();
      if files[i].info.None? {
        return InvalidParameter, Outcome(Success, i, 0);
      }
      var flushed, j, done := BootMonFsFlushFile(i);
      FlushKeepsOpen(s, i, flushed, Model(), j, done);
      o := Outcome(flushed, j, done);
      ghost var t := Model();
      files := files[j := files[j].(info := None)];
      assert ClosedIn(t, j, Model());
      return Success, o;
    }

    method BootMonFsDelete(i: nat) returns (status: Status)
      requires Valid() && i < |files|
      modifies this`files, media, disk
      ensures Valid()
      ensures DeleteStep(old(Model()), i, status, Model())
      ensures disk.failures >= old(disk.failures)
      ensures status == InvalidParameter <==> old(files[i]).info.None?
      ensures status == WarnDeleteFailure <==> disk.failures > old(disk.failures)
      ensures status == Success || status == InvalidParameter || status == WarnDeleteFailure
    {
      if files[i].info.None? {
        return InvalidParameter;
      }
      files := files[i := files[i].(regions := [])];
      if files[i].OnDisk() {
        var ok := InvalidateImageDescription(i);
        if !ok {
          return WarnDeleteFailure;
        }
      }
      files := Removed(files, i);
      return Success;
    }

    // ---------- Mounting ----------

    /** Looks for the next recognised tail from block `lba` on; a failed read ends the search. */
    method BootMonFsDiscoverNextImage(lba: nat) returns (status: Status, next: nat, hw: Description, hwAddress: nat)
      requires geometry.Valid() && media.Length == geometry.Size() && lba <= geometry.blocks
      modifies disk
      ensures next <= geometry.blocks
      ensures status == Success ==>
                lba < next && Scan(geometry, media[..], lba) == [MountedFile(hw, hwAddress)] + Scan(geometry, media[..], next)
      ensures status == NotFound ==> Scan(geometry, media[..], lba) == []
      ensures status == Success || status == NotFound || status == DeviceError
      ensures status == DeviceError <==> disk.failures > old(disk.failures)
      ensures disk.failures >= old(disk.failures)
    {
      hide WithChecksum, Decode;
      hw, hwAddress, next := NO_DESCRIPTION, 0, lba;
      while next < geometry.blocks
        invariant lba <= next <= geometry.blocks && disk.failures == old(disk.failures)
        invariant Scan(geometry, media[..], lba) == Scan(geometry, media[..], next)
      {
        BlockInside(geometry, next);
        var at := (next + 1) * geometry.blockSize - DESCRIPTION_SIZE;
        var ok, raw := disk.ReadDisk(media, at, DESCRIPTION_SIZE);
        if !ok {
          return DeviceError, next, hw, hwAddress;
        }
        assert Decode(raw) == Candidate(geometry, media[..], next);
        var valid, mismatch;
        valid, hw, mismatch := BootMonFsIsImageValid(Decode(raw), next);
        if valid {
          return Success, next + 1, hw, at;
        }
        next := next + 1;
      }
      return NotFound, next, hw, hwAddress;
    }

    /** BootMonFsInitialize on a driver that knows no file yet: always a success, with the files found before any failed read. */
    method BootMonFsInitialize() returns (status: Status)
      requires Valid() && !initialized
      modifies this`files, this`initialized, disk
      ensures Valid() && initialized && status == Success
      ensures MountStep(old(Model()), Model())
      ensures disk.failures >= old(disk.failures)
      ensures disk.failures == old(disk.failures) ==> files == Scan(geometry, media[..], 0)
    {
      hide Scan, ImageAt, FoundAt, Candidate;
      var lba := 0;
      ghost var m := media[..];
      while true
        invariant lba <= geometry.blocks && media[..] == m && forall f :: f in files ==> f.info.None?
        invariant files + Scan(geometry, m, lba) == Scan(geometry, m, 0) && disk.failures == old(disk.failures)
        decreases geometry.blocks - lba
      {
        var found, next, hw, hwAddress := BootMonFsDiscoverNextImage(lba);
        if found != Success {
          initialized := true;
          return Success;
        }
        assert files + ([MountedFile(hw, hwAddress)] + Scan(geometry, m, next)) == files + [MountedFile(hw, hwAddress)] + Scan(geometry, m, next);
        files := files + [MountedFile(hw, hwAddress)];
        lba := next;
      }
    }
  }

  lemma {:induction false} PathName(path: seq<byte>)
    requires IsPath(path)
    ensures IsName(WithoutSeparator(path))
  {
    assert path != [] ==> path == [path[0]] + path[1..];
  }

  lemma {:induction false} AddWords(sum: nat, w: word)
    ensures ToWord(ToWord(sum) + w) == ToWord(sum + w)
  {
  }

  /** A flush leaves the file open, wherever it is in the list afterwards, and every name a name. */
  lemma {:induction false} FlushKeepsOpen(s: State, i: nat, status: Status, s': State, j: nat, done: nat)
    requires Flushable(s, i) && FlushStep(s, i, status, s', j, done) && s.files[i].info.Some?
    ensures j < |s'.files| && s'.files[j].info == s.files[i].info && s'.files[j].position == s.files[i].position
  {
    hide Executed, FlushPlan, RegionsPlan;
  }
}
