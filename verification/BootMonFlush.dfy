/**
 What a successful flush leaves in flash: exactly when every byte of the file is the
 one last written to it, where the description ends up, and what stays untouched.
 */
module BootMonFlush {
  import opened Bytes
  import opened Options
  import opened ByteStore
  import opened BootMonImage
  import opened BootMonVolume
  import opened BootMonAllocation

  // ---------- The intended contents of the file ----------

  predicate RegionCovers(r: Region, k: int) {
    r.offset <= k < r.End()
  }

  /** Index of the last buffered region that wrote byte `k`, or -1. */
  function LastRegion(rs: seq<Region>, k: nat): (j: int)
    ensures -1 <= j < |rs|
    ensures 0 <= j ==> RegionCovers(rs[j], k)
    ensures forall i :: j < i < |rs| ==> !RegionCovers(rs[i], k)
  {
    if rs == [] then -1
    else if RegionCovers(rs[|rs| - 1], k) then |rs| - 1
    else LastRegion(rs[..|rs| - 1], k)
  }

  /** Byte `k` as a plain byte file would have it; a gap never written has no defined byte. */
  function Expected(m: seq<byte>, start: nat, oldSize: nat, rs: seq<Region>, k: nat): Option<byte>
    requires start + oldSize <= |m|
  {
    var j := LastRegion(rs, k);
    if j >= 0 then Some(rs[j].data[k - rs[j].offset])
    else if k < oldSize then Some(m[start + k])
    else None
  }

  // ---------- Where descriptions land ----------

  /** Offset in the file's blocks of the description of `dataSize` bytes. */
  function TailOffset(g: Geometry, dataSize: nat): int
    requires g.blockSize > 0
  {
    g.BlocksFor(dataSize) * g.blockSize - DESCRIPTION_SIZE
  }

  predicate InTail(g: Geometry, dataSize: nat, k: int)
    requires g.blockSize > 0
  {
    TailOffset(g, dataSize) <= k < TailOffset(g, dataSize) + DESCRIPTION_SIZE
  }

  /** Byte `k` has a defined value, and a region flushed no earlier than that value puts its description on it. */
  ghost predicate Clobbered(g: Geometry, oldSize: nat, rs: seq<Region>, k: nat)
    requires g.blockSize > 0
  {
    && (LastRegion(rs, k) >= 0 || k < oldSize)
    && exists j :: 0 <= j < |rs| && LastRegion(rs, k) <= j && Appends(rs[j], oldSize) && InTail(g, rs[j].End(), k)
  }

  lemma {:induction false} TailBehindData(g: Geometry, dataSize: nat)
    requires g.Valid()
    ensures dataSize < TailOffset(g, dataSize)
  {
    BlocksForBounds(g, dataSize);
  }

  /** The description of `dataSize` bytes of a file at block `b` lies at its tail offset. */
  lemma {:induction false} TailIsAtOffset(c: Context, b: nat, hw: Description, dataSize: nat)
    requires Rooted(c, b, dataSize) && hw.blockEnd == b + c.geometry.BlocksFor(dataSize) - 1
    ensures TailAddress(c.geometry, hw.blockEnd) == c.start + TailOffset(c.geometry, dataSize)
  {
    var g := c.geometry;
    var n := g.BlocksFor(dataSize);
    BlocksForBounds(g, dataSize);
    RangeUntruncated(g, b, dataSize);
    BlockInside(g, b);
    SumTimes(b, n, g.blockSize);
    SumTimes(n - 1, 1, g.blockSize);
    BlockSizeBound(g);
  }

  lemma {:induction false} BlockSizeBound(g: Geometry)
    requires g.Valid()
    ensures g.blockSize <= TWO_TO_THE_32
  {
    MulMonotone(1, g.blocks, g.blockSize);
  }

  // ---------- The flush of the regions, one at a time ----------

  /** What the plan has done after some regions, for a file at block `b` with `reach` bounding every end. */
  ghost predicate Replayed(c: Context, f: File, b: nat, reach: nat, rs: seq<Region>, p: Plan)
    requires c.geometry.blockSize > 0
  {
    && p.status == Success
    && (forall r :: r in rs && Appends(r, c.oldSize) ==> r.End() <= reach)
    && var j := LastAppend(rs, c.oldSize);
       if j < 0 then p.hw == f.hw && p.hwAddress == f.hwAddress
       else p.hwAddress == c.start + TailOffset(c.geometry, rs[j].End())
  }

  function LastAppend(rs: seq<Region>, oldSize: nat): (j: int)
    ensures -1 <= j < |rs|
    ensures 0 <= j ==> Appends(rs[j], oldSize)
    ensures forall i :: j < i < |rs| ==> !Appends(rs[i], oldSize)
  {
    if rs == [] then -1
    else if Appends(rs[|rs| - 1], oldSize) then |rs| - 1
    else LastAppend(rs[..|rs| - 1], oldSize)
  }

  /** A file record whose old description, if any, lies behind its data. */
  predicate TailClear(c: Context, f: File) {
    && c.oldSize == f.DataSize()
    && (f.hwAddress != 0 ==> c.start + c.oldSize <= f.hwAddress)
  }

  lemma {:induction false} RegionsReplayed(c: Context, f: File, b: nat, reach: nat, rs: seq<Region>)
    requires Rooted(c, b, reach)
    requires forall r :: r in rs ==> r.End() <= reach
    requires PlanRegions(c, StartPlan(f), rs).status == Success
    ensures Replayed(c, f, b, reach, rs, PlanRegions(c, StartPlan(f), rs))
  {
    if rs != [] {
      var n := |rs| - 1;
      var p, r := PlanRegions(c, StartPlan(f), rs[..n]), rs[n];
      RegionsReplayed(c, f, b, reach, rs[..n]);
      if Appends(r, c.oldSize) {
        var q := AppendBase(c, p, r);
        PlanDescriptionDescribes(c, q, b, r.End());
        TailIsAtOffset(c, b, PlanDescription(c, q, r.End()).hw, r.End());
      }
    }
  }

  /** A plan ends in success or for want of space. */
  lemma {:induction false} RegionsStatus(c: Context, f: File, rs: seq<Region>)
    requires c.geometry.blockSize > 0 && IsName(c.name)
    ensures var p := PlanRegions(c, StartPlan(f), rs); p.status == Success || p.status == VolumeFull
  {
    hide HasSpace, EraseActions, Describe;
    if rs != [] {
      RegionsStatus(c, f, rs[..|rs| - 1]);
    }
  }

  lemma {:induction false} PlanStatus(c: Context, f: File)
    requires c.geometry.blockSize > 0 && IsName(c.name) && f.info.Some?
    ensures FlushPlan(c, f).status == Success || FlushPlan(c, f).status == VolumeFull
  {
    RegionsStatus(c, f, f.regions);
  }

  /** A plan that stopped stays as it is. */
  lemma {:induction false} StoppedStays(c: Context, p: Plan, rs: seq<Region>, k: nat)
    requires c.geometry.blockSize > 0 && IsName(c.name) && k <= |rs|
    requires PlanRegions(c, p, rs[..k]).status != Success
    ensures PlanRegions(c, p, rs) == PlanRegions(c, p, rs[..k])
  {
    if k < |rs| {
      var n := |rs| - 1;
      assert rs[..n][..k] == rs[..k];
      StoppedStays(c, p, rs[..n], k);
    } else {
      assert rs[..k] == rs;
    }
  }

  /** The media after a plan's writes. */
  function After(m: seq<byte>, p: Plan): (m': seq<byte>)
    requires AllFit(Writes(p.actions), |m|)
    ensures |m'| == |m|
  {
    Apply(m, Writes(p.actions))
  }

  lemma {:induction false} AfterSnoc(m: seq<byte>, actions: seq<Action>, a: Action)
    requires AllFit(Writes(actions + [a]), |m|)
    ensures AllFit(Writes(actions), |m|) && a.write.Fits(|m|)
    ensures Apply(m, Writes(actions + [a])) == ApplyOne(Apply(m, Writes(actions)), a.write)
  {
    assert Writes(actions + [a]) == Writes(actions) + [a.write];
    forall w | w in Writes(actions)
      ensures w.Fits(|m|)
    {
      assert w in Writes(actions + [a]);
    }
    assert a.write in Writes(actions + [a]);
    ApplySnoc(m, Writes(actions), a.write);
  }

  lemma {:induction false} PrefixFits(actions: seq<Action>, more: seq<Action>, size: nat)
    requires AllFit(Writes(actions + more), size)
    ensures AllFit(Writes(actions), size)
  {
    forall w | w in Writes(actions)
      ensures w.Fits(size)
    {
      var i :| 0 <= i < |actions| && Writes(actions)[i] == w;
      assert Writes(actions + more)[i] == w;
      assert Writes(actions + more)[i] in Writes(actions + more);
    }
  }

  // ---------- One byte through the flush ----------

  /** What the flush of one region does to flash: nothing, one edit, or erase, write and describe. */
  datatype Stage =
    | Idle
    | Edit(data: Write)
    | Append(data: Write, erased: nat, description: Write)

  function StageOf(c: Context, p: Plan, r: Region): Stage
    requires c.geometry.blockSize > 0 && IsName(c.name)
  {
    var data := Write(c.start + r.offset, r.data);
    if r.data == [] then Idle
    else if r.End() < c.oldSize then Edit(data)
    else
      var q := PlanDescription(c, AppendBase(c, p, r), r.End());
      Append(data, p.hwAddress, Write(q.hwAddress, Encode(q.hw)))
  }

  function Stages(c: Context, f: File, rs: seq<Region>): (ss: seq<Stage>)
    requires c.geometry.blockSize > 0 && IsName(c.name)
    ensures |ss| == |rs|
  {
    if rs == [] then []
    else
      var n := |rs| - 1;
      Stages(c, f, rs[..n]) + [StageOf(c, PlanRegions(c, StartPlan(f), rs[..n]), rs[n])]
  }

  predicate Erases(at: nat, a: nat) {
    at != 0 && at <= a < at + DESCRIPTION_SIZE
  }

  /** The byte at address `a` after one stage: description over data over erasure over what was there. */
  function StageByte(s: Stage, before: byte, a: nat): byte
  {
    match s
    case Idle => before
    case Edit(data) => if data.Covers(a) then data.data[a - data.addr] else before
    case Append(data, erased, description) =>
      if description.Covers(a) then description.data[a - description.addr]
      else if data.Covers(a) then data.data[a - data.addr]
      else if Erases(erased, a) then 0
      else before
  }

  function StagesByte(ss: seq<Stage>, before: byte, a: nat): byte
  {
    if ss == [] then before else StageByte(ss[|ss| - 1], StagesByte(ss[..|ss| - 1], before, a), a)
  }

  lemma {:induction false} EditByte(c: Context, p: Plan, r: Region, m: seq<byte>, a: nat)
    requires c.geometry.blockSize > 0 && IsName(c.name)
    requires p.status == Success && r.data != [] && r.End() < c.oldSize && a < |m|
    requires AllFit(Writes(PlanRegion(c, p, r).actions), |m|) && AllFit(Writes(p.actions), |m|)
    ensures After(m, PlanRegion(c, p, r))[a] == StageByte(StageOf(c, p, r), After(m, p)[a], a)
  {
    AfterSnoc(m, p.actions, Action(Write(c.start + r.offset, r.data), p.hw, p.hwAddress));
  }

  lemma {:induction false} EraseByte(p: Plan, m: seq<byte>, a: nat)
    requires a < |m| && AllFit(Writes(p.actions + EraseActions(p)), |m|) && AllFit(Writes(p.actions), |m|)
    ensures Apply(m, Writes(p.actions + EraseActions(p)))[a] == if Erases(p.hwAddress, a) then 0 else After(m, p)[a]
  {
    if p.hwAddress != 0 {
      AfterSnoc(m, p.actions, EraseActions(p)[0]);
    } else {
      assert p.actions + EraseActions(p) == p.actions;
    }
  }

  lemma {:induction false} BaseByte(c: Context, p: Plan, r: Region, m: seq<byte>, a: nat)
    requires a < |m| && AllFit(Writes(AppendBase(c, p, r).actions), |m|) && AllFit(Writes(p.actions), |m|)
    ensures After(m, AppendBase(c, p, r))[a] ==
            if Write(c.start + r.offset, r.data).Covers(a) then r.data[a - c.start - r.offset]
            else if Erases(p.hwAddress, a) then 0
            else After(m, p)[a]
  {
    AfterSnoc(m, p.actions + EraseActions(p), Action(Write(c.start + r.offset, r.data), p.hw, p.hwAddress));
    EraseByte(p, m, a);
  }

  lemma {:induction false} AppendByte(c: Context, p: Plan, r: Region, m: seq<byte>, a: nat)
    requires c.geometry.blockSize > 0 && IsName(c.name)
    requires p.status == Success && Appends(r, c.oldSize) && a < |m|
    requires var q := PlanDescription(c, AppendBase(c, p, r), r.End()); AllFit(Writes(q.actions), |m|)
    requires AllFit(Writes(p.actions), |m|)
    ensures After(m, PlanDescription(c, AppendBase(c, p, r), r.End()))[a] == StageByte(StageOf(c, p, r), After(m, p)[a], a)
  {
    hide Encode, Describe;
    var base := AppendBase(c, p, r);
    var q := PlanDescription(c, base, r.End());
    AfterSnoc(m, base.actions, Action(Write(q.hwAddress, Encode(q.hw)), q.hw, q.hwAddress));
    BaseByte(c, p, r, m, a);
  }

  lemma {:induction false} BytesOfStages(c: Context, f: File, rs: seq<Region>, m: seq<byte>, a: nat)
    requires c.geometry.blockSize > 0 && IsName(c.name) && a < |m|
    requires var p := PlanRegions(c, StartPlan(f), rs); p.status == Success && AllFit(Writes(p.actions), |m|)
    ensures After(m, PlanRegions(c, StartPlan(f), rs))[a] == StagesByte(Stages(c, f, rs), m[a], a)
  {
    if rs != [] {
      var n := |rs| - 1;
      var p, q := PlanRegions(c, StartPlan(f), rs[..n]), PlanRegions(c, StartPlan(f), rs);
      assert q.actions == p.actions + q.actions[|p.actions|..];
      PrefixFits(p.actions, q.actions[|p.actions|..], |m|);
      BytesOfStages(c, f, rs[..n], m, a);
      var ss := Stages(c, f, rs);
      assert ss[..n] == Stages(c, f, rs[..n]) && ss[n] == StageOf(c, p, rs[n]);
      if Appends(rs[n], c.oldSize) {
        AppendByte(c, p, rs[n], m, a);
      } else if rs[n].data != [] {
        EditByte(c, p, rs[n], m, a);
      }
    }
  }

  /** What the stages of a file at block `b` look like, region by region. */
  ghost predicate Staged(c: Context, f: File, rs: seq<Region>, ss: seq<Stage>)
    requires c.geometry.blockSize > 0
  {
    && |ss| == |rs|
    && forall i :: 0 <= i < |rs| ==> StageFits(c, f, rs, i, ss[i])
  }

  ghost predicate StageFits(c: Context, f: File, rs: seq<Region>, i: nat, s: Stage)
    requires c.geometry.blockSize > 0 && i < |rs|
  {
    var data := Write(c.start + rs[i].offset, rs[i].data);
    if rs[i].data == [] then s == Idle
    else if rs[i].End() < c.oldSize then s == Edit(data)
    else
      && s.Append? && s.data == data
      && s.description.addr == c.start + TailOffset(c.geometry, rs[i].End())
      && |s.description.data| == DESCRIPTION_SIZE
      && var j := LastAppend(rs[..i], c.oldSize);
         s.erased == if j < 0 then f.hwAddress else c.start + TailOffset(c.geometry, rs[j].End())
  }

  lemma {:induction false} NewStageFits(c: Context, f: File, b: nat, reach: nat, rs: seq<Region>)
    requires Rooted(c, b, reach) && rs != []
    requires forall r :: r in rs ==> r.End() <= reach
    requires PlanRegions(c, StartPlan(f), rs[..|rs| - 1]).status == Success
    ensures StageFits(c, f, rs, |rs| - 1, StageOf(c, PlanRegions(c, StartPlan(f), rs[..|rs| - 1]), rs[|rs| - 1]))
  {
    var n := |rs| - 1;
    var p := PlanRegions(c, StartPlan(f), rs[..n]);
    RegionsReplayed(c, f, b, reach, rs[..n]);
    if Appends(rs[n], c.oldSize) {
      var base := AppendBase(c, p, rs[n]);
      PlanDescriptionDescribes(c, base, b, rs[n].End());
      TailIsAtOffset(c, b, PlanDescription(c, base, rs[n].End()).hw, rs[n].End());
    }
  }

  lemma {:induction false} StagesAreStaged(c: Context, f: File, b: nat, reach: nat, rs: seq<Region>)
    requires Rooted(c, b, reach)
    requires forall r :: r in rs ==> r.End() <= reach
    requires PlanRegions(c, StartPlan(f), rs).status == Success
    ensures Staged(c, f, rs, Stages(c, f, rs))
  {
    if rs != [] {
      var n := |rs| - 1;
      StagesAreStaged(c, f, b, reach, rs[..n]);
      NewStageFits(c, f, b, reach, rs);
      StagedExtends(c, f, rs, Stages(c, f, rs));
    }
  }

  lemma {:induction false} StagedExtends(c: Context, f: File, rs: seq<Region>, ss: seq<Stage>)
    requires c.geometry.blockSize > 0 && rs != [] && |ss| == |rs|
    requires Staged(c, f, rs[..|rs| - 1], ss[..|rs| - 1])
    requires StageFits(c, f, rs, |rs| - 1, ss[|rs| - 1])
    ensures Staged(c, f, rs, ss)
  {
    var n := |rs| - 1;
    forall i | 0 <= i < n
      ensures StageFits(c, f, rs, i, ss[i])
    {
      assert StageFits(c, f, rs[..n], i, ss[..n][i]);
      assert rs[..n][..i] == rs[..i];
    }
  }

  // ---------- Unclobbered bytes ----------

  lemma {:induction false} ClobberedExtends(g: Geometry, oldSize: nat, rs: seq<Region>, k: nat)
    requires g.blockSize > 0 && rs != [] && !RegionCovers(rs[|rs| - 1], k)
    ensures Clobbered(g, oldSize, rs[..|rs| - 1], k) ==> Clobbered(g, oldSize, rs, k)
  {
    var before := rs[..|rs| - 1];
    if Clobbered(g, oldSize, before, k) {
      var j :| 0 <= j < |before| && LastRegion(before, k) <= j && Appends(before[j], oldSize) && InTail(g, before[j].End(), k);
      assert rs[j] == before[j];
    }
  }

  /** A region that wrote a byte behind the old data went through the append branch. */
  lemma {:induction false} CoversBehind(rs: seq<Region>, oldSize: nat, k: nat)
    requires k >= oldSize
    ensures LastRegion(rs, k) <= LastAppend(rs, oldSize)
  {
    var i := LastRegion(rs, k);
    if i >= 0 {
      assert Appends(rs[i], oldSize);
    }
  }

  /** If an erasure hits a byte with a defined value, that byte was clobbered already. */
  lemma {:induction false} ErasureHits(c: Context, f: File, rs: seq<Region>, s: Stage, k: nat)
    requires c.geometry.Valid() && TailClear(c, f) && rs != []
    requires StageFits(c, f, rs, |rs| - 1, s) && s.Append? && Erases(s.erased, c.start + k)
    requires !RegionCovers(rs[|rs| - 1], k)
    requires LastRegion(rs, k) >= 0 || k < c.oldSize
    ensures Clobbered(c.geometry, c.oldSize, rs, k)
  {
    var n := |rs| - 1;
    var j := LastAppend(rs[..n], c.oldSize);
    if j >= 0 {
      TailBehindData(c.geometry, rs[j].End());
    }
    CoversBehind(rs[..n], c.oldSize, k);
    assert InTail(c.geometry, rs[j].End(), k);
  }

  /** The last stage neither describes nor erases on top of an unclobbered byte with a defined value. */
  lemma {:induction false} LastStageMisses(c: Context, f: File, rs: seq<Region>, s: Stage, k: nat)
    requires c.geometry.Valid() && TailClear(c, f) && rs != []
    requires StageFits(c, f, rs, |rs| - 1, s) && s.Append?
    requires LastRegion(rs, k) >= 0 || k < c.oldSize
    requires !Clobbered(c.geometry, c.oldSize, rs, k)
    ensures !s.description.Covers(c.start + k)
    ensures !RegionCovers(rs[|rs| - 1], k) ==> !Erases(s.erased, c.start + k)
  {
    var n := |rs| - 1;
    assert !InTail(c.geometry, rs[n].End(), k);
    if !RegionCovers(rs[n], k) && Erases(s.erased, c.start + k) {
      ErasureHits(c, f, rs, s, k);
    }
  }

  /** A stage that misses byte `k` with its metadata leaves the region's byte there, or the one from before. */
  lemma {:induction false} StageByteValue(c: Context, f: File, rs: seq<Region>, s: Stage, x: byte, k: nat)
    requires c.geometry.blockSize > 0 && rs != [] && StageFits(c, f, rs, |rs| - 1, s)
    requires s.Append? ==> !s.description.Covers(c.start + k) && (!RegionCovers(rs[|rs| - 1], k) ==> !Erases(s.erased, c.start + k))
    ensures var r := rs[|rs| - 1];
            StageByte(s, x, c.start + k) == if RegionCovers(r, k) then r.data[k - r.offset] else x
  {
  }

  /** A byte that no description lands on afterwards is the byte last written to it. */
  lemma {:induction false} UnclobberedByte(c: Context, f: File, rs: seq<Region>, ss: seq<Stage>, m: seq<byte>, k: nat)
    requires c.geometry.Valid() && TailClear(c, f) && Staged(c, f, rs, ss)
    requires c.start + c.oldSize <= |m| && c.start + k < |m|
    requires !Clobbered(c.geometry, c.oldSize, rs, k)
    ensures var e := Expected(m, c.start, c.oldSize, rs, k);
            e.Some? ==> StagesByte(ss, m[c.start + k], c.start + k) == e.value
  {
    hide Clobbered, TailClear, StageFits, StageByte;
    if rs != [] && (LastRegion(rs, k) >= 0 || k < c.oldSize) {
      var n := |rs| - 1;
      StagedPrefix(c, f, rs, ss);
      if ss[n].Append? {
        LastStageMisses(c, f, rs, ss[n], k);
      }
      StageByteValue(c, f, rs, ss[n], StagesByte(ss[..n], m[c.start + k], c.start + k), k);
      if !RegionCovers(rs[n], k) {
        ClobberedExtends(c.geometry, c.oldSize, rs, k);
        UnclobberedByte(c, f, rs[..n], ss[..n], m, k);
      }
    }
  }

  lemma {:induction false} StagedPrefix(c: Context, f: File, rs: seq<Region>, ss: seq<Stage>)
    requires c.geometry.blockSize > 0 && rs != [] && Staged(c, f, rs, ss)
    ensures Staged(c, f, rs[..|rs| - 1], ss[..|ss| - 1])
    ensures StageFits(c, f, rs, |rs| - 1, ss[|rs| - 1])
  {
    var n := |rs| - 1;
    forall i | 0 <= i < n
      ensures StageFits(c, f, rs[..n], i, ss[..n][i])
    {
      assert StageFits(c, f, rs, i, ss[i]);
      assert rs[..n][..i] == rs[..i];
    }
  }

  // ---------- Clobbered bytes do not depend on the data ----------

  /** The same offsets and lengths, with other bytes. */
  ghost predicate SameShape(rs: seq<Region>, vs: seq<Region>)
  {
    |rs| == |vs| && forall i :: 0 <= i < |rs| ==> rs[i].offset == vs[i].offset && |rs[i].data| == |vs[i].data|
  }

  lemma {:induction false} ShapeDecides(g: Geometry, oldSize: nat, rs: seq<Region>, vs: seq<Region>, k: nat)
    requires g.blockSize > 0 && SameShape(rs, vs)
    ensures LastRegion(rs, k) == LastRegion(vs, k)
    ensures Clobbered(g, oldSize, rs, k) <==> Clobbered(g, oldSize, vs, k)
  {
    ShapeDecidesLast(rs, vs, k);
    ClobberedShape(g, oldSize, rs, vs, k);
    ClobberedShape(g, oldSize, vs, rs, k);
  }

  lemma {:induction false} ShapeDecidesLast(rs: seq<Region>, vs: seq<Region>, k: nat)
    requires SameShape(rs, vs)
    ensures LastRegion(rs, k) == LastRegion(vs, k)
  {
    if rs != [] {
      ShapeDecidesLast(rs[..|rs| - 1], vs[..|vs| - 1], k);
    }
  }

  lemma {:induction false} ClobberedShape(g: Geometry, oldSize: nat, rs: seq<Region>, vs: seq<Region>, k: nat)
    requires g.blockSize > 0 && SameShape(rs, vs) && LastRegion(rs, k) == LastRegion(vs, k)
    ensures Clobbered(g, oldSize, rs, k) ==> Clobbered(g, oldSize, vs, k)
  {
    if Clobbered(g, oldSize, rs, k) {
      var j :| 0 <= j < |rs| && LastRegion(rs, k) <= j && Appends(rs[j], oldSize) && InTail(g, rs[j].End(), k);
      assert vs[j].End() == rs[j].End() && (vs[j].data == [] <==> |vs[j].data| == 0);
      assert Appends(vs[j], oldSize);
    }
  }

  /** Plans that differ only in the bytes they write. */
  ghost predicate SamePlan(p: Plan, q: Plan)
  {
    && p.status == q.status && p.hw == q.hw && p.hwAddress == q.hwAddress
    && |p.actions| == |q.actions|
    && forall i :: 0 <= i < |p.actions| ==> SameWrite(p.actions[i].write, q.actions[i].write)
  }

  predicate SameWrite(w: Write, v: Write)
  {
    w.addr == v.addr && |w.data| == |v.data|
  }

  lemma {:induction false} ShapeDecidesRegion(c: Context, p: Plan, q: Plan, r: Region, v: Region)
    requires c.geometry.blockSize > 0 && IsName(c.name) && SamePlan(p, q)
    requires r.offset == v.offset && |r.data| == |v.data|
    ensures SamePlan(PlanRegion(c, p, r), PlanRegion(c, q, v))
  {
    assert r.End() == v.End() && (r.data == [] <==> v.data == []);
  }

  /** The statuses, records and write ranges of a plan depend only on the shape of the regions. */
  lemma {:induction false} ShapeDecidesPlan(c: Context, f: File, rs: seq<Region>, vs: seq<Region>)
    requires c.geometry.blockSize > 0 && IsName(c.name) && SameShape(rs, vs)
    ensures SamePlan(PlanRegions(c, StartPlan(f), rs), PlanRegions(c, StartPlan(f), vs))
  {
    if rs != [] {
      var n := |rs| - 1;
      ShapeDecidesPlan(c, f, rs[..n], vs[..n]);
      ShapeDecidesRegion(c, PlanRegions(c, StartPlan(f), rs[..n]), PlanRegions(c, StartPlan(f), vs[..n]), rs[n], vs[n]);
    }
  }

  /** Same erasures, same descriptions, data of the same shape. */
  ghost predicate SameStages(ss: seq<Stage>, vs: seq<Stage>)
  {
    |ss| == |vs| && forall i :: 0 <= i < |ss| ==> SameStage(ss[i], vs[i])
  }

  predicate SameStage(s: Stage, v: Stage)
  {
    match s
    case Idle => v.Idle?
    case Edit(data) => v.Edit? && SameWrite(data, v.data)
    case Append(data, erased, description) =>
      v.Append? && SameWrite(data, v.data) && v.erased == erased && v.description == description
  }

  /** A stage treats byte `k` the same in both runs if its region's data is not there. */
  lemma {:induction false} SameStageByte(c: Context, f: File, rs: seq<Region>, s: Stage, v: Stage, x: byte, y: byte, k: nat)
    requires c.geometry.blockSize > 0 && rs != [] && StageFits(c, f, rs, |rs| - 1, s) && SameStage(s, v)
    requires || (x == y && !RegionCovers(rs[|rs| - 1], k))
             || (Appends(rs[|rs| - 1], c.oldSize) && InTail(c.geometry, rs[|rs| - 1].End(), k))
    ensures StageByte(s, x, c.start + k) == StageByte(v, y, c.start + k)
  {
  }

  lemma {:induction false} ShapeDecidesStage(c: Context, p: Plan, q: Plan, r: Region, v: Region)
    requires c.geometry.blockSize > 0 && IsName(c.name) && SamePlan(p, q)
    requires r.offset == v.offset && |r.data| == |v.data|
    ensures SameStage(StageOf(c, p, r), StageOf(c, q, v))
  {
    assert r.End() == v.End() && (r.data == [] <==> v.data == []);
  }

  lemma {:induction false} SameStagesSnoc(ss: seq<Stage>, vs: seq<Stage>, s: Stage, v: Stage)
    requires SameStages(ss, vs) && SameStage(s, v)
    ensures SameStages(ss + [s], vs + [v])
  {
  }

  lemma {:induction false} ShapeDecidesStages(c: Context, f: File, rs: seq<Region>, vs: seq<Region>)
    requires c.geometry.blockSize > 0 && IsName(c.name) && SameShape(rs, vs)
    ensures SameStages(Stages(c, f, rs), Stages(c, f, vs))
  {
    if rs != [] {
      var n := |rs| - 1;
      ShapeDecidesStages(c, f, rs[..n], vs[..n]);
      ShapeDecidesPlan(c, f, rs[..n], vs[..n]);
      var p, q := PlanRegions(c, StartPlan(f), rs[..n]), PlanRegions(c, StartPlan(f), vs[..n]);
      ShapeDecidesStage(c, p, q, rs[n], vs[n]);
      SameStagesSnoc(Stages(c, f, rs[..n]), Stages(c, f, vs[..n]), StageOf(c, p, rs[n]), StageOf(c, q, vs[n]));
    }
  }

  /** A clobbered byte is hit by the last description, or was clobbered before and not rewritten since. */
  lemma {:induction false} ClobberedLast(g: Geometry, oldSize: nat, rs: seq<Region>, k: nat)
    requires g.blockSize > 0 && Clobbered(g, oldSize, rs, k)
    ensures rs != []
    ensures var n := |rs| - 1;
            || (Appends(rs[n], oldSize) && InTail(g, rs[n].End(), k))
            || (!RegionCovers(rs[n], k) && Clobbered(g, oldSize, rs[..n], k))
  {
    var n := |rs| - 1;
    var j :| 0 <= j < |rs| && LastRegion(rs, k) <= j && Appends(rs[j], oldSize) && InTail(g, rs[j].End(), k);
    if j < n {
      assert rs[..n][j] == rs[j];
    }
  }

  /** A clobbered byte ends up the same whatever data was written. */
  lemma {:induction false} ClobberedByte(c: Context, f: File, rs: seq<Region>, ss: seq<Stage>, vs: seq<Stage>, x: byte, y: byte, k: nat)
    requires c.geometry.blockSize > 0 && Staged(c, f, rs, ss) && SameStages(ss, vs)
    requires Clobbered(c.geometry, c.oldSize, rs, k)
    ensures StagesByte(ss, x, c.start + k) == StagesByte(vs, y, c.start + k)
  {
    ClobberedLast(c.geometry, c.oldSize, rs, k);
    var n := |rs| - 1;
    StagedPrefix(c, f, rs, ss);
    if !(Appends(rs[n], c.oldSize) && InTail(c.geometry, rs[n].End(), k)) {
      ClobberedByte(c, f, rs[..n], ss[..n], vs[..n], x, y, k);
    }
    SameStageByte(c, f, rs, ss[n], vs[n], StagesByte(ss[..n], x, c.start + k), StagesByte(vs[..n], y, c.start + k), k);
  }

  // ---------- Exactly when a flush is a replay of the buffered writes ----------

  /** A flush of the file `f` at block `b` of media `m` that succeeds. */
  ghost predicate Flushed(c: Context, f: File, b: nat, m: seq<byte>)
  {
    && f.info.Some? && RegionsWithin(f)
    && Rooted(c, b, f.info.value.size)
    && TailClear(c, f)
    && c.start + c.oldSize <= |m|
    && FlushPlan(c, f).status == Success
    && AllFit(Writes(FlushPlan(c, f).actions), |m|)
  }

  /** Every byte of the file with a defined value is that value in flash. */
  ghost predicate Faithful(c: Context, f: File, b: nat, m: seq<byte>)
  {
    Flushed(c, f, b, m)
    && forall k :: 0 <= k < f.info.value.size && c.start + k < |m| && Expected(m, c.start, c.oldSize, f.regions, k).Some? ==>
         After(m, FlushPlan(c, f))[c.start + k] == Expected(m, c.start, c.oldSize, f.regions, k).value
  }

  ghost predicate NothingClobbered(c: Context, f: File, m: seq<byte>)
    requires f.info.Some? && c.geometry.blockSize > 0
  {
    forall k :: 0 <= k < f.info.value.size && c.start + k < |m| ==> !Clobbered(c.geometry, c.oldSize, f.regions, k)
  }

  /** The final description lies behind the data, so it changes no byte of the file. */
  lemma {:induction false} FinishByte(c: Context, f: File, b: nat, m: seq<byte>, k: nat)
    requires Flushed(c, f, b, m) && k < f.info.value.size && c.start + k < |m|
    ensures var p := RegionsPlan(c, f); p.status == Success && AllFit(Writes(p.actions), |m|)
    ensures After(m, FlushPlan(c, f))[c.start + k] == After(m, RegionsPlan(c, f))[c.start + k]
  {
    var p, n := RegionsPlan(c, f), f.info.value.size;
    var q := PlanDescription(c, p, n);
    if FlushPlan(c, f) == q {
      AfterSnoc(m, p.actions, Action(Write(q.hwAddress, Encode(q.hw)), q.hw, q.hwAddress));
      PlanDescriptionDescribes(c, p, b, n);
      TailIsAtOffset(c, b, q.hw, n);
      TailBehindData(c.geometry, n);
    }
  }

  /** The final byte `k` of a flush, through its stages. */
  lemma {:induction false} FinalByte(c: Context, f: File, b: nat, m: seq<byte>, k: nat)
    requires Flushed(c, f, b, m) && k < f.info.value.size && c.start + k < |m|
    ensures Staged(c, f, f.regions, Stages(c, f, f.regions))
    ensures After(m, FlushPlan(c, f))[c.start + k] == StagesByte(Stages(c, f, f.regions), m[c.start + k], c.start + k)
  {
    FinishByte(c, f, b, m, k);
    StagesAreStaged(c, f, b, f.info.value.size, f.regions);
    BytesOfStages(c, f, f.regions, m, c.start + k);
  }

  lemma {:induction false} UnclobberedIsFaithful(c: Context, f: File, b: nat, m: seq<byte>)
    requires Flushed(c, f, b, m) && NothingClobbered(c, f, m)
    ensures Faithful(c, f, b, m)
  {
    forall k | 0 <= k < f.info.value.size && c.start + k < |m| && Expected(m, c.start, c.oldSize, f.regions, k).Some?
      ensures After(m, FlushPlan(c, f))[c.start + k] == Expected(m, c.start, c.oldSize, f.regions, k).value
    {
      FinalByte(c, f, b, m, k);
      UnclobberedByte(c, f, f.regions, Stages(c, f, f.regions), m, k);
    }
  }

  lemma {:induction false} ShapeDecidesFlushed(c: Context, f: File, vs: seq<Region>, b: nat, m: seq<byte>, m': seq<byte>)
    requires Flushed(c, f, b, m) && SameShape(f.regions, vs) && |m| == |m'|
    ensures Flushed(c, f.(regions := vs), b, m')
  {
    var f' := f.(regions := vs);
    ShapeDecidesPlan(c, f, f.regions, vs);
    assert StartPlan(f') == StartPlan(f);
    var p, q := FlushPlan(c, f), FlushPlan(c, f');
    assert SamePlan(p, q);
    forall w | w in Writes(q.actions)
      ensures w.Fits(|m'|)
    {
      var i :| 0 <= i < |q.actions| && Writes(q.actions)[i] == w;
      assert SameWrite(p.actions[i].write, q.actions[i].write);
      assert Writes(p.actions)[i] in Writes(p.actions);
    }
    forall r | r in vs
      ensures r.End() <= f.info.value.size
    {
      var i :| 0 <= i < |vs| && vs[i] == r;
      assert f.regions[i] in f.regions && f.regions[i].End() == r.End();
    }
  }

  /** Buffered data or old contents can be changed, shape kept, to give byte `k` any value. */
  lemma {:induction false} AnyValueExpected(start: nat, oldSize: nat, rs: seq<Region>, m: seq<byte>, k: nat, value: byte)
    returns (vs: seq<Region>, m': seq<byte>)
    requires start + oldSize <= |m| && start + k < |m|
    requires LastRegion(rs, k) >= 0 || k < oldSize
    ensures SameShape(rs, vs) && |m'| == |m|
    ensures Expected(m', start, oldSize, vs, k) == Some(value)
  {
    var j := LastRegion(rs, k);
    if j >= 0 {
      vs, m' := rs[j := Region(rs[j].offset, rs[j].data[k - rs[j].offset := value])], m;
    } else {
      vs, m' := rs, m[start + k := value];
    }
    ShapeDecidesLast(rs, vs, k);
  }

  lemma {:induction false} ClobberedEndsTheSame(c: Context, f: File, f': File, b: nat, m: seq<byte>, m': seq<byte>, k: nat)
    requires Flushed(c, f, b, m) && k < f.info.value.size && c.start + k < |m|
    requires Clobbered(c.geometry, c.oldSize, f.regions, k)
    requires f' == f.(regions := f'.regions) && SameShape(f.regions, f'.regions) && |m'| == |m|
    requires Flushed(c, f', b, m')
    ensures After(m', FlushPlan(c, f'))[c.start + k] == After(m, FlushPlan(c, f))[c.start + k]
  {
    FinalByte(c, f, b, m, k);
    FinalByte(c, f', b, m', k);
    ShapeDecidesStages(c, f, f.regions, f'.regions);
    StagesIgnoreBuffer(c, f, f', f'.regions);
    ClobberedByte(c, f, f.regions, Stages(c, f, f.regions), Stages(c, f, f'.regions), m[c.start + k], m'[c.start + k], k);
  }

  lemma {:induction false} UnfaithfulAt(c: Context, f: File, b: nat, m: seq<byte>, k: nat, value: byte)
    requires Flushed(c, f, b, m) && k < f.info.value.size && c.start + k < |m|
    requires Expected(m, c.start, c.oldSize, f.regions, k) == Some(value)
    requires After(m, FlushPlan(c, f))[c.start + k] != value
    ensures !Faithful(c, f, b, m)
  {
  }

  function OtherByte(x: byte): (y: byte)
    ensures y != x
  {
    if x == 0 then 1 else 0
  }

  /** Data of the same shape, or other old contents, that a clobbering flush loses. */
  lemma {:induction false} ClobberedIsUnfaithful(c: Context, f: File, b: nat, m: seq<byte>, k: nat) returns (vs: seq<Region>, m': seq<byte>)
    requires Flushed(c, f, b, m) && k < f.info.value.size && c.start + k < |m|
    requires Clobbered(c.geometry, c.oldSize, f.regions, k)
    ensures SameShape(f.regions, vs) && |m'| == |m|
    ensures !Faithful(c, f.(regions := vs), b, m')
  {
    var other := OtherByte(After(m, FlushPlan(c, f))[c.start + k]);
    vs, m' := AnyValueExpected(c.start, c.oldSize, f.regions, m, k, other);
    var f' := f.(regions := vs);
    ShapeDecidesFlushed(c, f, vs, b, m, m');
    ClobberedEndsTheSame(c, f, f', b, m, m', k);
    UnfaithfulAt(c, f', b, m', k, other);
  }

  lemma {:induction false} StagesIgnoreBuffer(c: Context, f: File, f': File, rs: seq<Region>)
    requires c.geometry.blockSize > 0 && IsName(c.name) && f' == f.(regions := f'.regions)
    ensures Stages(c, f, rs) == Stages(c, f', rs)
  {
    assert StartPlan(f) == StartPlan(f');
    if rs != [] {
      StagesIgnoreBuffer(c, f, f', rs[..|rs| - 1]);
    }
  }

  /**
   For every file and buffer whose flush succeeds: all data of that shape, over all
   old contents, survive the flush exactly when no region's description lands on a
   byte of the file written no later than that region.
   */
  lemma {:induction false} FlushIsReplayExactly(c: Context, f: File, b: nat, m: seq<byte>)
    requires Flushed(c, f, b, m)
    ensures (forall vs: seq<Region>, m': seq<byte> :: SameShape(f.regions, vs) && |m'| == |m| ==>
               Faithful(c, f.(regions := vs), b, m'))
            <==> NothingClobbered(c, f, m)
  {
    if NothingClobbered(c, f, m) {
      forall vs: seq<Region>, m': seq<byte> | SameShape(f.regions, vs) && |m'| == |m|
        ensures Faithful(c, f.(regions := vs), b, m')
      {
        ShapeDecidesFlushed(c, f, vs, b, m, m');
        forall k: nat | k < f.info.value.size && c.start + k < |m|
          ensures !Clobbered(c.geometry, c.oldSize, vs, k)
        {
          ShapeDecides(c.geometry, c.oldSize, f.regions, vs, k);
        }
        UnclobberedIsFaithful(c, f.(regions := vs), b, m');
      }
    } else {
      var k :| 0 <= k < f.info.value.size && c.start + k < |m| && Clobbered(c.geometry, c.oldSize, f.regions, k);
      var vs, m' := ClobberedIsUnfaithful(c, f, b, m, k);
    }
  }

  // ---------- Conditions a caller can arrange ----------

  /** Every appended region's description lies behind all data buffered before that region. */
  ghost predicate TailsBehind(g: Geometry, oldSize: nat, rs: seq<Region>)
    requires g.blockSize > 0
  {
    forall i, j :: 0 <= i < j < |rs| && rs[i].data != [] && Appends(rs[j], oldSize) ==>
      rs[i].End() <= TailOffset(g, rs[j].End())
  }

  /** Each region that carries data ends before the flushed size, or no earlier than any region before it. */
  ghost predicate InOrder(oldSize: nat, rs: seq<Region>)
  {
    forall i, j :: 0 <= i < j < |rs| && rs[i].data != [] && Appends(rs[j], oldSize) ==> rs[i].End() <= rs[j].End()
  }

  lemma {:induction false} TailsBehindClobbersNothing(g: Geometry, oldSize: nat, rs: seq<Region>, k: nat)
    requires g.Valid() && TailsBehind(g, oldSize, rs)
    ensures !Clobbered(g, oldSize, rs, k)
  {
    forall j | 0 <= j < |rs| && LastRegion(rs, k) <= j && Appends(rs[j], oldSize) && (LastRegion(rs, k) >= 0 || k < oldSize)
      ensures !InTail(g, rs[j].End(), k)
    {
      TailBehindData(g, rs[j].End());
    }
  }

  lemma {:induction false} InOrderIsTailsBehind(g: Geometry, oldSize: nat, rs: seq<Region>)
    requires g.Valid() && InOrder(oldSize, rs)
    ensures TailsBehind(g, oldSize, rs)
  {
    forall i, j | 0 <= i < j < |rs| && rs[i].data != [] && Appends(rs[j], oldSize)
      ensures rs[i].End() <= TailOffset(g, rs[j].End())
    {
      TailBehindData(g, rs[j].End());
    }
  }

  /** Writes flushed in order are replayed: each byte is the last one written, uncovered old bytes are kept. */
  lemma {:induction false} FlushInOrder(c: Context, f: File, b: nat, m: seq<byte>)
    requires Flushed(c, f, b, m) && InOrder(c.oldSize, f.regions)
    ensures Faithful(c, f, b, m)
  {
    InOrderIsTailsBehind(c.geometry, c.oldSize, f.regions);
    forall k: nat
      ensures !Clobbered(c.geometry, c.oldSize, f.regions, k)
    {
      TailsBehindClobbersNothing(c.geometry, c.oldSize, f.regions, k);
    }
    UnclobberedIsFaithful(c, f, b, m);
  }

  /** Writing 200 bytes to a new file and then rewriting the first 10 puts a description over byte 150. */
  lemma {:induction false} RewritingTheHeadClobbers(body: seq<byte>, head: seq<byte>)
    requires |body| == 200 && |head| == 10
    ensures Clobbered(Geometry(256, 16), 0, [Region(0, body), Region(0, head)], 150)
  {
    var g, rs := Geometry(256, 16), [Region(0, body), Region(0, head)];
    assert TailOffset(g, 10) == 120;
    assert !RegionCovers(rs[1], 150) && RegionCovers(rs[0], 150);
    assert LastRegion(rs, 150) == 0;
    assert Appends(rs[1], 0) && InTail(g, rs[1].End(), 150);
  }
}
