/**
 A whole session with one open file: over any sequence of writes, seeks, resizes,
 renames, flushes and reads, on a disk that may fail at any write, the buffered file and
 flash behave as one plain byte file.
 */
module BootMonSession {
  import opened Bytes
  import opened Options
  import opened ByteStore
  import opened BootMonImage
  import opened BootMonVolume
  import opened BootMonAllocation
  import opened BootMonFlush
  import opened BootMonMount
  import opened BootMonBuffer
  import opened BootMonRetained
  import opened BootMonOperations
  import opened BootMonRuns
  import opened BootMonNames
  import opened BootMonDurability

  /** A call on the file, what it returned, and for a read the bytes it gave. */
  datatype Act = Act(op: Op, outcome: Outcome, status: Status, data: seq<byte>)

  predicate OnFile(op: Op, i: nat)
  {
    (op.WriteAt? || op.Seek? || op.Set? || op.ReadFrom? || op.Flush?) && op.file == i
  }

  /** Where the file is in the list afterwards. */
  function IndexAfter(a: Act, i: nat): nat
  {
    if a.op.ReadFrom? || a.op.Flush? then a.outcome.index else i
  }

  /** What the call does to a plain byte file. */
  function PlainAfter(p: PlainFile, a: Act): PlainFile
  {
    match a.op
    case WriteAt(_, data) => PlainWrite(p, data)
    case Seek(_, position) => PlainSeek(p, position)
    case Set(_, _, size) => PlainResize(p, size)
    case ReadFrom(_, _) => p.(position := p.position + |a.data|)
    case _ => p
  }

  ghost predicate ActNext(s: State, a: Act, s': State)
    requires Callable(s, a.op)
  {
    match a.op
    case ReadFrom(i, n) => ReadStep(s, i, n, a.outcome, a.status, a.data, s')
    case _ => Next(s, a.op, a.outcome, a.status, s')
  }

  /** The file is open for writing under a name, and buffer and flash show the plain file. */
  ghost predicate InSession(s: State, i: nat, p: PlainFile)
  {
    && Sound(s) && i < |s.files| && s.files[i].mode == ReadWrite
    && Refines(s.geometry, s.media, s.files[i], p) && s.files[i].info.value.name != []
  }

  /** The flush has room, and puts no description on data. */
  ghost predicate FlushesWell(s: State, i: nat, p: PlainFile)
    requires Flushable(s, i)
  {
    && RoomToFlush(s, i)
    && forall k: nat :: k < |p.bytes| ==> !Clobbered(s.geometry, s.files[i].DataSize(), s.files[i].regions, k)
  }

  /** What each call asks for: a size that can be changed to, a name that is not empty, a flush with room. */
  ghost predicate ActsWell(s: State, i: nat, p: PlainFile, a: Act)
    requires Callable(s, a.op) && OnFile(a.op, i)
  {
    match a.op
    case Set(_, name, size) => ResizesWell(|p.bytes|, p.position, size) && WithoutSeparator(name) != []
    case ReadFrom(_, _) => FlushesWell(s, i, p)
    case Flush(_) => FlushesWell(s, i, p)
    case _ => true
  }

  lemma {:induction false} FlushInSession(s: State, i: nat, p: PlainFile, status: Status, s': State, j: nat, done: nat)
    requires InSession(s, i, p) && Flushable(s, i) && FlushesWell(s, i, p) && FlushStep(s, i, status, s', j, done)
    ensures InSession(s', j, p)
    ensures status == Success ==>
              s'.files[j].regions == [] && s'.files[j].DataSize() == s'.files[j].info.value.size && s'.files[j].OnDisk()
  {
    hide FlushStep, Clobbered, RoomFor, Allocated, Refines;
    SessionFile(s, i, p);
    FlushStaysSound(s, i, status, s', j, done);
    FlushAlwaysRefines(s, i, status, s', j, done, p);
    FlushOwnChange(s, i, status, s', j, done);
    if status == Success {
      RoomBoundsSize(s, i, s', j, done);
      FlushedIsOnDisk(s, i, s', j, done);
      var c, b := FlushedRecord(s, i, s', j, done);
    }
  }

  lemma {:induction false} SessionFile(s: State, i: nat, p: PlainFile)
    requires InSession(s, i, p)
    ensures s.files[i].info.Some? && s.files[i].info.value.size == |p.bytes| && s.files[i].position == p.position
    ensures RegionsWithin(s.files[i])
  {
  }

  lemma {:induction false} AdvanceRefines(g: Geometry, m: seq<byte>, f: File, p: PlainFile, n: nat)
    requires Refines(g, m, f, p)
    ensures Refines(g, m, Advanced(f, n), p.(position := p.position + n))
  {
  }

  lemma {:induction false} ChangedInSession(s: State, i: nat, p: PlainFile, f: File, p': PlainFile)
    requires InSession(s, i, p) && f.hw == s.files[i].hw && f.hwAddress == s.files[i].hwAddress && f.mode == ReadWrite
    requires Refines(s.geometry, s.media, f, p') && f.info.value.name != [] && IsName(f.info.value.name)
    ensures InSession(s.(files := s.files[i := f]), i, p')
  {
    hide Refines, Allocated;
    RecordStaysSound(s, i, f);
  }

  lemma {:induction false} SetInSession(s: State, i: nat, p: PlainFile, name: seq<byte>, size: nat)
    requires InSession(s, i, p) && IsPath(name) && WithoutSeparator(name) != []
    requires ResizesWell(|p.bytes|, p.position, size)
    ensures InSession(s.(files := SetInfo(s.files, i, name, size).files), i, PlainResize(p, size))
  {
    hide Refines, Allocated, SetFileSize, PlainResize, LookupFrom;
    SessionFile(s, i, p);
    var f, r := s.files[i], SetInfo(s.files, i, name, size);
    SessionName(s, i, p);
    ResizeRefines(s.geometry, s.media, f, p, size);
    ResizeKeepsName(f, size);
    ResizeKeepsRecord(f, size);
    ResizedSize(p, size);
    var f' := r.files[i];
    RenamedRefines(s.geometry, s.media, if size != f.info.value.size then SetFileSize(f, size) else f, f', PlainResize(p, size));
    ChangedInSession(s, i, p, f', PlainResize(p, size));
    assert s.files[i := s.files[i]] == s.files;
    assert r.files == s.files[i := f'];
  }

  lemma {:induction false} SessionName(s: State, i: nat, p: PlainFile)
    requires InSession(s, i, p)
    ensures s.files[i].info.Some? && IsName(s.files[i].info.value.name) && s.files[i].info.value.name != []
  {
  }

  lemma {:induction false} ResizeKeepsRecord(f: File, size: nat)
    requires f.info.Some?
    ensures SetFileSize(f, size).hwAddress == f.hwAddress
  {
  }

  /** Bytes and position do not depend on the name. */
  lemma {:induction false} RenamedRefines(g: Geometry, m: seq<byte>, f: File, f': File, p: PlainFile)
    requires Refines(g, m, f, p) && f'.info.Some? && f' == f.(info := Some(f.info.value.(name := f'.info.value.name)))
    ensures Refines(g, m, f', p)
  {
  }

  lemma {:induction false} ReadInSession(s: State, i: nat, p: PlainFile, n: nat, o: Outcome, status: Status, data: seq<byte>, s': State)
    requires InSession(s, i, p) && Flushable(s, i) && FlushesWell(s, i, p) && ReadStep(s, i, n, o, status, data, s')
    ensures InSession(s', o.index, p.(position := p.position + |data|))
    ensures p.position > |p.bytes| ==> status == DeviceError
    ensures status == Success && o.flushed == Success ==>
              var k := if p.position + n <= |p.bytes| then n else |p.bytes| - p.position;
              Shows(data, p.bytes[p.position..p.position + k])
  {
    hide FlushStep, FlushesWell, Refines, Allocated;
    SessionFile(s, i, p);
    var t, ok :| FlushStep(s, i, o.flushed, t, o.index, o.done) && ReadAfter(t, o.index, n, ok, status, data, s');
    FlushInSession(s, i, p, o.flushed, t, o.index, o.done);
    SessionFile(t, o.index, p);
    SessionName(t, o.index, p);
    var f := t.files[o.index];
    AdvanceRefines(t.geometry, t.media, f, p, |data|);
    ChangedInSession(t, o.index, p, Advanced(f, |data|), p.(position := p.position + |data|));
    if status == Success && o.flushed == Success {
      var k := if p.position + n <= |p.bytes| then n else |p.bytes| - p.position;
      ReadRefines(t.geometry, t.media, f, p, k);
    }
  }

  /** One call: the plain file follows it, and a read whose flush and disk read work returns the plain file's bytes. */
  lemma {:induction false} ActRefines(s: State, i: nat, p: PlainFile, a: Act, s': State)
    requires InSession(s, i, p) && Callable(s, a.op) && OnFile(a.op, i) && ActsWell(s, i, p, a) && ActNext(s, a, s')
    ensures InSession(s', IndexAfter(a, i), PlainAfter(p, a))
    ensures a.op.ReadFrom? && a.status == Success && a.outcome.flushed == Success ==>
              p.position <= |p.bytes|
              && var n := a.op.length;
                 var k := if p.position + n <= |p.bytes| then n else |p.bytes| - p.position;
                 Shows(a.data, p.bytes[p.position..p.position + k])
  {
    hide Refines, Sound, FlushStep, FlushesWell, ReadStep, SetInfo, PlainWrite, PlainResize;
    SessionFile(s, i, p);
    SessionName(s, i, p);
    var f := s.files[i];
    match a.op
    case WriteAt(_, data) =>
      WriteRefines(s.geometry, s.media, f, p, data);
      ChangedInSession(s, i, p, WriteFile(f, data), PlainWrite(p, data));
    case Seek(_, position) =>
      SeekRefines(s.geometry, s.media, f, p, position);
      ChangedInSession(s, i, p, SetPosition(f, position), PlainSeek(p, position));
    case Set(_, name, size) => SetInSession(s, i, p, name, size);
    case ReadFrom(_, n) => ReadInSession(s, i, p, n, a.outcome, a.status, a.data, s');
    case Flush(_) => FlushInSession(s, i, p, a.status, s', a.outcome.index, a.outcome.done);
  }

  /** The index of the file, and the plain file, before act `k`. */
  function IndexAt(i: nat, acts: seq<Act>, k: nat): nat
    requires k <= |acts|
  {
    if k == 0 then i else IndexAfter(acts[k - 1], IndexAt(i, acts, k - 1))
  }

  function PlainAt(p: PlainFile, acts: seq<Act>, k: nat): PlainFile
    requires k <= |acts|
  {
    if k == 0 then p else PlainAfter(PlainAt(p, acts, k - 1), acts[k - 1])
  }

  /** `trace` is a session on the file at index `i` of its first state. */
  ghost predicate Session(trace: seq<State>, acts: seq<Act>, i: nat, p: PlainFile)
  {
    && |trace| == |acts| + 1
    && forall k :: 0 <= k < |acts| ==> Acted(trace, acts, i, p, k)
  }

  ghost predicate Acted(trace: seq<State>, acts: seq<Act>, i: nat, p: PlainFile, k: nat)
    requires |trace| == |acts| + 1 && k < |acts|
  {
    && Callable(trace[k], acts[k].op) && OnFile(acts[k].op, IndexAt(i, acts, k))
    && ActsWell(trace[k], IndexAt(i, acts, k), PlainAt(p, acts, k), acts[k]) && ActNext(trace[k], acts[k], trace[k + 1])
  }

  /** In every state of every session, buffer over flash is the plain file that the same calls make. */
  lemma {:induction false} SessionRefines(trace: seq<State>, acts: seq<Act>, i: nat, p: PlainFile, k: nat)
    requires Session(trace, acts, i, p) && InSession(trace[0], i, p) && k <= |acts|
    ensures InSession(trace[k], IndexAt(i, acts, k), PlainAt(p, acts, k))
  {
    hide InSession, ActsWell, ActNext, Callable, IndexAfter, PlainAfter, OnFile;
    if k > 0 {
      SessionRefines(trace, acts, i, p, k - 1);
      assert Acted(trace, acts, i, p, k - 1);
      ActRefines(trace[k - 1], IndexAt(i, acts, k - 1), PlainAt(p, acts, k - 1), acts[k - 1], trace[k]);
    }
  }

  /** And every read in it whose flush and disk read work returns that plain file's bytes from its position on. */
  lemma {:induction false} SessionReads(trace: seq<State>, acts: seq<Act>, i: nat, p: PlainFile, k: nat)
    requires Session(trace, acts, i, p) && InSession(trace[0], i, p) && k < |acts|
    requires acts[k].op.ReadFrom? && acts[k].status == Success && acts[k].outcome.flushed == Success
    ensures var q, n := PlainAt(p, acts, k), acts[k].op.length;
            && q.position <= |q.bytes|
            && Shows(acts[k].data, q.bytes[q.position..if q.position + n <= |q.bytes| then q.position + n else |q.bytes|])
  {
    hide InSession, ActsWell, ActNext, Callable, IndexAfter, PlainAfter, OnFile, Shows;
    SessionRefines(trace, acts, i, p, k);
    assert Acted(trace, acts, i, p, k);
    ActRefines(trace[k], IndexAt(i, acts, k), PlainAt(p, acts, k), acts[k], trace[k + 1]);
  }
}
