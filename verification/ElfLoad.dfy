/**
 Running an ELF file in two steps: its loadable segments are compiled into a list of
 copies and zero fills (chapter 5, Program Header, of the System V gABI), and the list
 is carried out after boot services are gone.
 */
module ElfLoad {
  import opened Bytes
  import opened ByteStore

  const PT_LOAD: word := 1

  /** The fields of a 64-bit program header that loading looks at. */
  datatype ProgramHeader = ProgramHeader(kind: word, offset: nat, vaddr: nat, filesz: nat, memsz: nat)
  {
    predicate Loadable() {
      kind == PT_LOAD
    }
  }

  /** An entry of the load list: `length` bytes to `dest`, zeros or those from `source` on. */
  datatype LoadNode = LoadNode(dest: nat, source: nat, zeroes: bool, length: nat)

  datatype LoadStatus = Success | InvalidParameter | OutOfResources

  // ---------- Compilation ----------

  /** The copy of a segment's bytes from an image that lies at address `image`. */
  function CopyNodes(image: nat, s: ProgramHeader): seq<LoadNode>
  {
    if s.filesz != 0 then [LoadNode(s.vaddr, image + s.offset, false, s.filesz)] else []
  }

  /** The zeros behind them. */
  function FillNodes(s: ProgramHeader): seq<LoadNode>
    requires s.filesz <= s.memsz
  {
    if s.memsz > s.filesz then [LoadNode(s.vaddr + s.filesz, 0, true, s.memsz - s.filesz)] else []
  }

  function SegmentNodes(image: nat, s: ProgramHeader): seq<LoadNode>
    requires s.filesz <= s.memsz
  {
    CopyNodes(image, s) + FillNodes(s)
  }

  /** No segment has more bytes in the file than in memory. */
  predicate SizesOk(ss: seq<ProgramHeader>)
  {
    forall s | s in ss :: s.Loadable() ==> s.filesz <= s.memsz
  }

  function Compile(image: nat, ss: seq<ProgramHeader>): seq<LoadNode>
    requires SizesOk(ss)
  {
    if ss == [] then []
    else
      var n := |ss| - 1;
      Compile(image, ss[..n]) + (if ss[n].Loadable() then SegmentNodes(image, ss[n]) else [])
  }

  function MemorySize(ss: seq<ProgramHeader>): nat
  {
    if ss == [] then 0
    else
      var n := |ss| - 1;
      MemorySize(ss[..n]) + (if ss[n].Loadable() then ss[n].memsz else 0)
  }

  function TotalLength(nodes: seq<LoadNode>): nat
  {
    if nodes == [] then 0 else TotalLength(nodes[..|nodes| - 1]) + nodes[|nodes| - 1].length
  }

  lemma {:induction false} TotalLengthAppend(a: seq<LoadNode>, b: seq<LoadNode>)
    ensures TotalLength(a + b) == TotalLength(a) + TotalLength(b)
  {
    if b == [] {
      assert a + b == a;
    } else {
      var n := |b| - 1;
      TotalLengthAppend(a, b[..n]);
      assert (a + b)[..|a| + n] == a + b[..n];
    }
  }

  lemma {:induction false} NoLength()
    ensures TotalLength([]) == 0
  {
  }

  lemma {:induction false} LengthOfOne(node: LoadNode)
    ensures TotalLength([node]) == node.length
  {
    assert [node][..0] == [];
  }

  lemma {:induction false} SegmentLength(image: nat, s: ProgramHeader)
    requires s.filesz <= s.memsz
    ensures TotalLength(SegmentNodes(image, s)) == s.memsz
    ensures forall node :: node in SegmentNodes(image, s) ==> node.length > 0
  {
    TotalLengthAppend(CopyNodes(image, s), FillNodes(s));
    if s.filesz != 0 {
      LengthOfOne(CopyNodes(image, s)[0]);
    }
    if s.memsz > s.filesz {
      LengthOfOne(FillNodes(s)[0]);
    }
  }

  /** The list covers as many bytes as the segments have in memory. */
  lemma {:induction false} CompileConserves(image: nat, ss: seq<ProgramHeader>)
    requires SizesOk(ss)
    ensures TotalLength(Compile(image, ss)) == MemorySize(ss)
    ensures forall node :: node in Compile(image, ss) ==> node.length > 0
  {
    hide SegmentNodes, TotalLength;
    if ss == [] {
      NoLength();
    } else {
      var n := |ss| - 1;
      CompileConserves(image, ss[..n]);
      if ss[n].Loadable() {
        assert ss[n] in ss;
        TotalLengthAppend(Compile(image, ss[..n]), SegmentNodes(image, ss[n]));
        SegmentLength(image, ss[n]);
      } else {
        assert Compile(image, ss) == Compile(image, ss[..n]);
      }
    }
  }

  // ---------- What the list does, and what it should do ----------

  /** The node's ranges are in memory. */
  predicate NodeFits(node: LoadNode, size: nat)
  {
    node.dest + node.length <= size && (!node.zeroes ==> node.source + node.length <= size)
  }

  predicate NodesFit(nodes: seq<LoadNode>, size: nat)
  {
    forall node | node in nodes :: NodeFits(node, size)
  }

  function NodeWrite(m: seq<byte>, node: LoadNode): Write
    requires NodeFits(node, |m|)
  {
    Write(node.dest, if node.zeroes then Zeros(node.length) else m[node.source..node.source + node.length])
  }

  /** Memory after the list has been carried out. */
  function Interpret(m: seq<byte>, nodes: seq<LoadNode>): (m': seq<byte>)
    requires NodesFit(nodes, |m|)
    ensures |m'| == |m|
  {
    if nodes == [] then m
    else
      var n := |nodes| - 1;
      var before := Interpret(m, nodes[..n]);
      ApplyOne(before, NodeWrite(before, nodes[n]))
  }

  /** The segment is in memory, and its file bytes are too. */
  predicate SegmentFits(image: nat, s: ProgramHeader, size: nat)
  {
    s.filesz <= s.memsz && s.vaddr + s.memsz <= size && image + s.offset + s.filesz <= size
  }

  predicate SegmentsFit(image: nat, ss: seq<ProgramHeader>, size: nat)
  {
    forall s | s in ss :: s.Loadable() ==> SegmentFits(image, s, size)
  }

  /** The memory image of a segment: its file bytes, then zeros. */
  function SegmentWrite(m: seq<byte>, image: nat, s: ProgramHeader): (w: Write)
    requires SegmentFits(image, s, |m|)
    ensures w.Fits(|m|)
  {
    Write(s.vaddr, m[image + s.offset..image + s.offset + s.filesz] + Zeros(s.memsz - s.filesz))
  }

  /** What loading means: the image of each loadable segment, with the file as it was in `m`, in order. */
  function SegmentWrites(m: seq<byte>, image: nat, ss: seq<ProgramHeader>): (ws: seq<Write>)
    requires SegmentsFit(image, ss, |m|)
    ensures AllFit(ws, |m|)
  {
    if ss == [] then []
    else
      var n := |ss| - 1;
      SegmentWrites(m, image, ss[..n]) + (if ss[n].Loadable() then [SegmentWrite(m, image, ss[n])] else [])
  }

  /** Two address ranges have a byte in common. */
  predicate Meets(from: nat, to: nat, low: nat, high: nat)
  {
    from < to && low < high && from < high && low < to
  }

  /**
   Loading segment `a` leaves the file bytes of segment `b` as they are: its memory does
   not meet them, or it is loaded onto its own file bytes and its zeros do not meet them.
   */
  predicate Spares(image: nat, a: ProgramHeader, b: ProgramHeader)
  {
    var low, high := image + b.offset, image + b.offset + b.filesz;
    || !Meets(a.vaddr, a.vaddr + a.memsz, low, high)
    || (a.vaddr == image + a.offset && !Meets(a.vaddr + a.filesz, a.vaddr + a.memsz, low, high))
  }

  /** No segment is loaded over the file bytes of a later one. */
  predicate LaterFilesSpared(image: nat, ss: seq<ProgramHeader>)
  {
    forall i, j :: 0 <= i < j < |ss| && ss[i].Loadable() && ss[j].Loadable() ==> Spares(image, ss[i], ss[j])
  }

  lemma {:induction false} InterpretSnoc(m: seq<byte>, nodes: seq<LoadNode>, node: LoadNode)
    requires NodesFit(nodes, |m|) && NodeFits(node, |m|)
    ensures NodesFit(nodes + [node], |m|)
    ensures Interpret(m, nodes + [node]) == ApplyOne(Interpret(m, nodes), NodeWrite(Interpret(m, nodes), node))
  {
    hide ApplyOne, NodeWrite;
    assert (nodes + [node])[..|nodes|] == nodes;
  }

  lemma {:induction false} InterpretAppend(m: seq<byte>, a: seq<LoadNode>, b: seq<LoadNode>)
    requires NodesFit(a, |m|) && NodesFit(b, |m|)
    ensures NodesFit(a + b, |m|)
    ensures Interpret(m, a + b) == Interpret(Interpret(m, a), b)
  {
    hide ApplyOne, NodeWrite, NodeFits;
    if b == [] {
      assert a + b == a;
    } else {
      var n := |b| - 1;
      var front, x := b[..n], b[n];
      assert b == front + [x] && a + b == (a + front) + [x];
      assert x in b;
      InterpretAppend(m, a, front);
      InterpretSnoc(m, a + front, x);
      InterpretSnoc(Interpret(m, a), front, x);
    }
  }

  lemma {:induction false} InterpretOne(m: seq<byte>, node: LoadNode)
    requires NodeFits(node, |m|)
    ensures Interpret(m, [node]) == ApplyOne(m, NodeWrite(m, node))
  {
    InterpretSnoc(m, [], node);
    assert [] + [node] == [node];
  }

  /** Two writes, the second right behind the first, are one. */
  lemma {:induction false} AdjacentWrites(m: seq<byte>, at: nat, a: seq<byte>, b: seq<byte>)
    requires at + |a| + |b| <= |m|
    ensures ApplyOne(ApplyOne(m, Write(at, a)), Write(at + |a|, b)) == ApplyOne(m, Write(at, a + b))
  {
  }

  lemma {:induction false} EmptyWrite(m: seq<byte>, at: nat)
    requires at <= |m|
    ensures ApplyOne(m, Write(at, [])) == m
  {
  }

  lemma {:induction false} CopyInterpreted(m: seq<byte>, image: nat, s: ProgramHeader)
    requires SegmentFits(image, s, |m|)
    ensures NodesFit(CopyNodes(image, s), |m|)
    ensures Interpret(m, CopyNodes(image, s)) ==
            ApplyOne(m, Write(s.vaddr, m[image + s.offset..image + s.offset + s.filesz]))
  {
    if s.filesz != 0 {
      InterpretOne(m, CopyNodes(image, s)[0]);
    } else {
      EmptyWrite(m, s.vaddr);
    }
  }

  lemma {:induction false} FillInterpreted(m: seq<byte>, image: nat, s: ProgramHeader)
    requires SegmentFits(image, s, |m|)
    ensures NodesFit(FillNodes(s), |m|)
    ensures Interpret(m, FillNodes(s)) == ApplyOne(m, Write(s.vaddr + s.filesz, Zeros(s.memsz - s.filesz)))
  {
    if s.memsz > s.filesz {
      InterpretOne(m, FillNodes(s)[0]);
    } else {
      EmptyWrite(m, s.vaddr + s.filesz);
    }
  }

  /** A copy and a zero fill make one segment image, even if the copy overlaps its own source. */
  lemma {:induction false} SegmentInterpreted(m: seq<byte>, image: nat, s: ProgramHeader)
    requires SegmentFits(image, s, |m|)
    ensures NodesFit(SegmentNodes(image, s), |m|)
    ensures Interpret(m, SegmentNodes(image, s)) == ApplyOne(m, SegmentWrite(m, image, s))
  {
    hide ApplyOne, Interpret, CopyNodes, FillNodes;
    var data, zeros := m[image + s.offset..image + s.offset + s.filesz], Zeros(s.memsz - s.filesz);
    CopyInterpreted(m, image, s);
    FillInterpreted(ApplyOne(m, Write(s.vaddr, data)), image, s);
    InterpretAppend(m, CopyNodes(image, s), FillNodes(s));
    AdjacentWrites(m, s.vaddr, data, zeros);
  }

  /** Segment `a`, with its image taken from `m`, leaves the spared file bytes of `b` as they are in `m`. */
  lemma {:induction false} SegmentSpares(m: seq<byte>, m': seq<byte>, image: nat, a: ProgramHeader, b: ProgramHeader)
    requires SegmentFits(image, a, |m|) && SegmentFits(image, b, |m|) && Spares(image, a, b) && |m'| == |m|
    requires var low, high := image + b.offset, image + b.offset + b.filesz; m'[low..high] == m[low..high]
    ensures var low, high := image + b.offset, image + b.offset + b.filesz;
            ApplyOne(m', SegmentWrite(m, image, a))[low..high] == m[low..high]
  {
    hide ApplyOne;
    var low, high, w := image + b.offset, image + b.offset + b.filesz, SegmentWrite(m, image, a);
    forall x | low <= x < high
      ensures ApplyOne(m', w)[x] == m[x]
    {
      assert m'[x] == m'[low..high][x - low] && m[x] == m[low..high][x - low];
    }
  }

  /** What the last segment adds to the meaning. */
  lemma {:induction false} AppliedLast(m: seq<byte>, image: nat, ss: seq<ProgramHeader>)
    requires SegmentsFit(image, ss, |m|) && ss != []
    ensures var n := |ss| - 1;
            && SegmentsFit(image, ss[..n], |m|) && (ss[n].Loadable() ==> SegmentFits(image, ss[n], |m|))
            && var before := Apply(m, SegmentWrites(m, image, ss[..n]));
               Apply(m, SegmentWrites(m, image, ss)) ==
               if ss[n].Loadable() then ApplyOne(before, SegmentWrite(m, image, ss[n])) else before
  {
    hide ApplyOne, Apply, SegmentWrite;
    var n := |ss| - 1;
    assert ss[n] in ss;
    if ss[n].Loadable() {
      ApplySnoc(m, SegmentWrites(m, image, ss[..n]), SegmentWrite(m, image, ss[n]));
    } else {
      assert SegmentWrites(m, image, ss) == SegmentWrites(m, image, ss[..n]);
    }
  }

  lemma {:induction false} FileBytesKept(m: seq<byte>, image: nat, ss: seq<ProgramHeader>, s: ProgramHeader)
    requires SegmentsFit(image, ss, |m|) && SegmentFits(image, s, |m|)
    requires forall i :: 0 <= i < |ss| && ss[i].Loadable() ==> Spares(image, ss[i], s)
    ensures var m' := Apply(m, SegmentWrites(m, image, ss));
            m'[image + s.offset..image + s.offset + s.filesz] == m[image + s.offset..image + s.offset + s.filesz]
  {
    hide ApplyOne, Spares, SegmentWrite;
    if ss != [] {
      var n := |ss| - 1;
      AppliedLast(m, image, ss);
      FileBytesKept(m, image, ss[..n], s);
      if ss[n].Loadable() {
        SegmentSpares(m, Apply(m, SegmentWrites(m, image, ss[..n])), image, ss[n], s);
      }
    }
  }

  lemma {:induction false} CompiledFits(image: nat, ss: seq<ProgramHeader>, size: nat)
    requires SegmentsFit(image, ss, size) && SizesOk(ss)
    ensures NodesFit(Compile(image, ss), size)
  {
    if ss != [] {
      var n := |ss| - 1;
      assert ss[n] in ss;
      CompiledFits(image, ss[..n], size);
    }
  }

  lemma {:induction false} InterpretNone(m: seq<byte>)
    ensures Interpret(m, []) == m
  {
  }

  /** With the file bytes as they were, a segment's image is the same. */
  lemma {:induction false} SameImage(m: seq<byte>, m': seq<byte>, image: nat, s: ProgramHeader)
    requires SegmentFits(image, s, |m|) && |m'| == |m|
    requires m'[image + s.offset..image + s.offset + s.filesz] == m[image + s.offset..image + s.offset + s.filesz]
    ensures SegmentWrite(m', image, s) == SegmentWrite(m, image, s)
  {
  }

  /**
   The load list preserves the meaning of the file: carrying it out is applying each
   loadable segment in order, everything else untouched, when no segment is loaded
   over the file bytes of a later one.
   */
  lemma {:induction false} ListPreservesMeaning(m: seq<byte>, image: nat, ss: seq<ProgramHeader>)
    requires SegmentsFit(image, ss, |m|) && SizesOk(ss) && LaterFilesSpared(image, ss)
    requires NodesFit(Compile(image, ss), |m|)
    ensures Interpret(m, Compile(image, ss)) == Apply(m, SegmentWrites(m, image, ss))
  {
    hide ApplyOne, NodeWrite, SegmentNodes, NodeFits, Interpret;
    if ss == [] {
      assert Interpret(m, []) == m by { InterpretNone(m); }
    } else {
      var n := |ss| - 1;
      var s, front := ss[n], ss[..n];
      CompiledFits(image, front, |m|);
      ListPreservesMeaning(m, image, front);
      if s.Loadable() {
        assert s in ss;
        var m' := Interpret(m, Compile(image, front));
        SegmentInterpreted(m', image, s);
        InterpretAppend(m, Compile(image, front), SegmentNodes(image, s));
        FileBytesKept(m, image, front, s);
        ApplySnoc(m, SegmentWrites(m, image, front), SegmentWrite(m, image, s));
        SameImage(m, m', image, s);
      } else {
        assert Compile(image, ss) == Compile(image, front);
        assert SegmentWrites(m, image, ss) == SegmentWrites(m, image, front);
      }
    }
  }

  /** Bytes outside all segments are untouched. */
  lemma {:induction false} RestUntouched(m: seq<byte>, image: nat, ss: seq<ProgramHeader>, a: nat)
    requires SegmentsFit(image, ss, |m|) && a < |m|
    requires forall s :: s in ss && s.Loadable() ==> !(s.vaddr <= a < s.vaddr + s.memsz)
    ensures Apply(m, SegmentWrites(m, image, ss))[a] == m[a]
  {
    if ss != [] {
      var n := |ss| - 1;
      assert ss[n] in ss;
      AppliedLast(m, image, ss);
      RestUntouched(m, image, ss[..n], a);
    }
  }

  // ---------- Exactly when the list preserves the meaning ----------

  /** No two segments have memory in common. */
  predicate Disjoint(ss: seq<ProgramHeader>)
  {
    forall i, j :: 0 <= i < j < |ss| && ss[i].Loadable() && ss[j].Loadable() ==> Apart(ss[i], ss[j])
  }

  predicate Apart(a: ProgramHeader, b: ProgramHeader)
  {
    !Meets(a.vaddr, a.vaddr + a.memsz, b.vaddr, b.vaddr + b.memsz)
  }

  predicate InMemory(s: ProgramHeader, x: nat)
  {
    s.Loadable() && s.vaddr <= x < s.vaddr + s.memsz
  }

  lemma {:induction false} OnlyOwner(ss: seq<ProgramHeader>, i: nat, j: nat, x: nat)
    requires Disjoint(ss) && i < |ss| && j < |ss| && i != j && InMemory(ss[i], x)
    ensures !InMemory(ss[j], x)
  {
    if i < j {
      assert ss[j].Loadable() ==> Apart(ss[i], ss[j]);
    } else {
      assert ss[j].Loadable() ==> Apart(ss[j], ss[i]);
    }
  }

  /** A byte of one segment means what that segment's image says, if no other has it too. */
  lemma {:induction false} MeantByOwner(m: seq<byte>, image: nat, ss: seq<ProgramHeader>, i: nat, x: nat)
    requires SegmentsFit(image, ss, |m|) && Disjoint(ss) && i < |ss| && InMemory(ss[i], x) && x < |m|
    requires SegmentFits(image, ss[i], |m|)
    ensures Apply(m, SegmentWrites(m, image, ss))[x] == SegmentWrite(m, image, ss[i]).data[x - ss[i].vaddr]
    decreases |ss|
  {
    hide ApplyOne, Disjoint, Apply, SegmentWrites, SegmentsFit;
    var n := |ss| - 1;
    AppliedLast(m, image, ss);
    if i < n {
      OnlyOwner(ss, i, n, x);
      DisjointPrefix(ss, n);
      MeantByOwner(m, image, ss[..n], i, x);
    }
  }

  lemma {:induction false} DisjointPrefix(ss: seq<ProgramHeader>, n: nat)
    requires Disjoint(ss) && n <= |ss|
    ensures Disjoint(ss[..n])
  {
  }

  /** One more segment carried out: its image, taken from memory as it is by then. */
  lemma {:induction false} InterpretSegment(m: seq<byte>, image: nat, ss: seq<ProgramHeader>, n: nat)
    requires SegmentsFit(image, ss, |m|) && SizesOk(ss) && n < |ss| && ss[n].Loadable()
    ensures NodesFit(Compile(image, ss[..n]), |m|) && NodesFit(Compile(image, ss[..n + 1]), |m|) && SegmentFits(image, ss[n], |m|)
    ensures var m' := Interpret(m, Compile(image, ss[..n]));
            Interpret(m, Compile(image, ss[..n + 1])) == ApplyOne(m', SegmentWrite(m', image, ss[n]))
  {
    hide ApplyOne, Interpret, SegmentNodes, SegmentWrite, NodesFit;
    CompiledFits(image, ss[..n], |m|);
    CompiledFits(image, ss[..n + 1], |m|);
    assert ss[n] in ss && ss[..n + 1][..n] == ss[..n];
    var m' := Interpret(m, Compile(image, ss[..n]));
    SegmentInterpreted(m', image, ss[n]);
    InterpretAppend(m, Compile(image, ss[..n]), SegmentNodes(image, ss[n]));
  }

  /** A byte that no later segment has stays as it is. */
  lemma {:induction false} LaterSegmentsMiss(m: seq<byte>, image: nat, ss: seq<ProgramHeader>, k: nat, x: nat)
    requires SegmentsFit(image, ss, |m|) && SizesOk(ss) && k <= |ss| && x < |m|
    requires forall j :: k <= j < |ss| ==> !InMemory(ss[j], x)
    ensures NodesFit(Compile(image, ss), |m|) && NodesFit(Compile(image, ss[..k]), |m|)
    ensures Interpret(m, Compile(image, ss))[x] == Interpret(m, Compile(image, ss[..k]))[x]
    decreases |ss| - k
  {
    hide ApplyOne, Interpret, SegmentNodes, NodesFit;
    CompiledFits(image, ss, |m|);
    CompiledFits(image, ss[..k], |m|);
    if k == |ss| {
      assert ss[..k] == ss;
    } else {
      LaterSegmentsMiss(m, image, ss, k + 1, x);
      assert ss[..k + 1][..k] == ss[..k];
      if ss[k].Loadable() {
        InterpretSegment(m, image, ss, k);
      } else {
        assert Compile(image, ss[..k + 1]) == Compile(image, ss[..k]);
      }
    }
  }

  /** Carrying out the list loads the file. */
  ghost predicate Loaded(m: seq<byte>, image: nat, ss: seq<ProgramHeader>)
    requires SegmentsFit(image, ss, |m|) && SizesOk(ss)
  {
    NodesFit(Compile(image, ss), |m|) && Interpret(m, Compile(image, ss)) == Apply(m, SegmentWrites(m, image, ss))
  }

  /** A file byte of `b` that loading `a` changes for some memory, and that memory: one at that byte, zeros elsewhere. */
  lemma {:induction false} ChangedByte(image: nat, a: ProgramHeader, b: ProgramHeader, size: nat) returns (m: seq<byte>, x: nat)
    requires SegmentFits(image, a, size) && SegmentFits(image, b, size) && a.Loadable() && !Spares(image, a, b)
    ensures |m| == size && image + b.offset <= x < image + b.offset + b.filesz && x < size && m[x] == 1
    ensures InMemory(a, x) && SegmentWrite(m, image, a).data[x - a.vaddr] == 0
  {
    var low := image + b.offset;
    if a.vaddr != image + a.offset {
      x := if a.vaddr < low then low else a.vaddr;
    } else {
      x := if a.vaddr + a.filesz < low then low else a.vaddr + a.filesz;
    }
    m := Zeros(size)[x := 1];
    if x < a.vaddr + a.filesz {
      assert m[image + a.offset..image + a.offset + a.filesz][x - a.vaddr] == m[image + a.offset + (x - a.vaddr)];
    }
  }

  /** The first segment whose file bytes an earlier one is loaded over, and that earlier one. */
  lemma {:induction false} FirstOverlap(image: nat, ss: seq<ProgramHeader>) returns (i: nat, j: nat)
    requires !LaterFilesSpared(image, ss)
    ensures i < j < |ss| && ss[i].Loadable() && ss[j].Loadable() && !Spares(image, ss[i], ss[j]) && LaterFilesSpared(image, ss[..j])
    decreases |ss|
  {
    hide Spares;
    var n := |ss| - 1;
    if LaterFilesSpared(image, ss[..n]) {
      var x, y :| 0 <= x < y < |ss| && ss[x].Loadable() && ss[y].Loadable() && !Spares(image, ss[x], ss[y]);
      i, j := x, y;
      assert y == n;
    } else {
      i, j := FirstOverlap(image, ss[..n]);
      assert ss[..n][..j] == ss[..j];
    }
  }

  /** Memory contents that are loaded wrongly. */
  lemma {:induction false} LoadedWrongly(image: nat, ss: seq<ProgramHeader>, size: nat) returns (m: seq<byte>)
    requires SegmentsFit(image, ss, size) && SizesOk(ss) && Disjoint(ss) && !LaterFilesSpared(image, ss)
    ensures |m| == size && !Loaded(m, image, ss)
  {
    hide Spares, Disjoint, LaterFilesSpared, Apply, ApplyOne, Interpret, Compile, SegmentWrites, NodesFit, Meets;
    var i, j := FirstOverlap(image, ss);
    var a, b := ss[i], ss[j];
    assert a in ss && b in ss;
    var x;
    m, x := ChangedByte(image, a, b, size);
    var y := b.vaddr + (x - image - b.offset);
    CompiledFits(image, ss, size);
    PrefixFitsToo(image, ss, size, j);
    // What the copy for `b` finds at `x`
    CompiledFits(image, ss[..j], size);
    ListPreservesMeaning(m, image, ss[..j]);
    DisjointPrefix(ss, j);
    MeantByOwner(m, image, ss[..j], i, x);
    var m' := Interpret(m, Compile(image, ss[..j]));
    assert m'[x] == 0;
    InterpretSegment(m, image, ss, j);
    assert m'[image + b.offset..image + b.offset + b.filesz][y - b.vaddr] == m'[x];
    forall k | j + 1 <= k < |ss|
      ensures !InMemory(ss[k], y)
    {
      OnlyOwner(ss, j, k, y);
    }
    LaterSegmentsMiss(m, image, ss, j + 1, y);
    // What the file means there
    MeantByOwner(m, image, ss, j, y);
    assert m[image + b.offset..image + b.offset + b.filesz][y - b.vaddr] == m[x];
  }

  lemma {:induction false} PrefixFitsToo(image: nat, ss: seq<ProgramHeader>, size: nat, n: nat)
    requires SegmentsFit(image, ss, size) && SizesOk(ss) && n <= |ss|
    ensures SegmentsFit(image, ss[..n], size) && SizesOk(ss[..n])
  {
  }

  /**
   For segments with disjoint memory, the load list preserves the meaning of the file,
   whatever is in memory, exactly when no segment is loaded over file bytes of a later
   one - other than onto those very bytes.
   */
  lemma {:induction false} LoadingExactly(image: nat, ss: seq<ProgramHeader>, size: nat)
    requires SegmentsFit(image, ss, size) && SizesOk(ss) && Disjoint(ss)
    ensures (forall m: seq<byte> :: |m| == size ==> Loaded(m, image, ss)) <==> LaterFilesSpared(image, ss)
  {
    hide SegmentsFit, SizesOk, Disjoint, LaterFilesSpared, NodesFit;
    if LaterFilesSpared(image, ss) {
      forall m: seq<byte> | |m| == size
        ensures Loaded(m, image, ss)
      {
        CompiledFits(image, ss, size);
        ListPreservesMeaning(m, image, ss);
      }
    } else {
      var m := LoadedWrongly(image, ss, size);
    }
  }

  // ---------- The loader ----------

  /** The pool that list nodes are allocated from. Any allocation may fail. */
  class NodePool {
    ghost var failures: nat

    constructor ()
    {
      failures := 0;
    }

    method Allocate() returns (ok: bool)
      modifies this
      ensures failures == old(failures) + if ok then 0 else 1
    {
      ok := *;
      failures := failures + if ok then 0 else 1;
    }
  }

  /** ElfLoadSegment; an allocation may fail after the first node. */
  method ElfLoadSegment(pool: NodePool, image: nat, s: ProgramHeader, list: seq<LoadNode>)
    returns (status: LoadStatus, list': seq<LoadNode>)
    modifies pool
    ensures status == InvalidParameter <==> s.filesz > s.memsz
    ensures status == OutOfResources <==> pool.failures > old(pool.failures)
    ensures pool.failures >= old(pool.failures) && (s.filesz > s.memsz ==> list' == list)
    ensures status == Success ==> list' == list + SegmentNodes(image, s)
  {
    list' := list;
    if s.filesz > s.memsz {
      return InvalidParameter, list';
    }
    if s.filesz != 0 {
      var enough := pool.Allocate();
      if !enough {
        return OutOfResources, list';
      }
      list' := list' + [LoadNode(s.vaddr, image + s.offset, false, s.filesz)];
    }
    var extraZeroes, extraZeroesCount := s.vaddr + s.filesz, s.memsz - s.filesz;
    if extraZeroesCount > 0 {
      var enough := pool.Allocate();
      if !enough {
        return OutOfResources, list';
      }
      list' := list' + [LoadNode(extraZeroes, 0, true, extraZeroesCount)];
    }
    return Success, list';
  }

  /**
   ElfLoadFile: a success gives the whole list; a bad segment, a failed allocation, or
   nothing to load, and nothing else, gives an error. The image size is summed in 64 bits.
   */
  method ElfLoadFile(pool: NodePool, image: nat, ss: seq<ProgramHeader>) returns (status: LoadStatus, list: seq<LoadNode>)
    modifies pool
    ensures status == Success <==> SizesOk(ss) && pool.failures == old(pool.failures) && MemorySize(ss) % TWO_TO_THE_64 != 0
    ensures status == Success ==> list == Compile(image, ss)
    ensures status == Success || status == InvalidParameter
  {
    list := [];
    var size := 0;
    for k := 0 to |ss|
      invariant SizesOk(ss[..k]) && list == Compile(image, ss[..k])
      invariant size == MemorySize(ss[..k]) % TWO_TO_THE_64 && pool.failures == old(pool.failures)
    {
      assert ss[..k + 1][..k] == ss[..k];
      assert forall s :: s in ss[..k + 1] ==> s in ss[..k] || s == ss[k];
      if ss[k].Loadable() {
        assert ss[k] in ss;
        var loaded;
        loaded, list := ElfLoadSegment(pool, image, ss[k], list);
        if loaded != Success {
          return InvalidParameter, list;
        }
        SumWraps(MemorySize(ss[..k]), ss[k].memsz);
        size := (size + ss[k].memsz) % TWO_TO_THE_64;
      }
    }
    assert ss[..|ss|] == ss;
    if size == 0 {
      return InvalidParameter, list;
    }
    return Success, list;
  }

  lemma {:induction false} SumWraps(a: nat, b: nat)
    ensures (a % TWO_TO_THE_64 + b) % TWO_TO_THE_64 == (a + b) % TWO_TO_THE_64
  {
  }

  /** One entry: a zero fill, or a copy that takes overlapping ranges in its stride. */
  method RunNode(memory: array<byte>, node: LoadNode)
    requires NodeFits(node, memory.Length)
    modifies memory
    ensures memory[..] == ApplyOne(old(memory[..]), NodeWrite(old(memory[..]), node))
  {
    hide ApplyOne, NodeWrite;
    ghost var before := memory[..];
    if node.zeroes {
      forall i | 0 <= i < node.length {
        memory[node.dest + i] := 0;
      }
    } else {
      forall i | 0 <= i < node.length {
        memory[node.dest + i] := memory[node.source + i];
      }
    }
    NodeWritten(before, memory[..], node);
  }

  lemma {:induction false} NodeWritten(before: seq<byte>, after: seq<byte>, node: LoadNode)
    requires NodeFits(node, |before|) && |after| == |before|
    requires forall a :: 0 <= a < |before| && !(node.dest <= a < node.dest + node.length) ==> after[a] == before[a]
    requires forall a :: node.dest <= a < node.dest + node.length ==>
               after[a] == if node.zeroes then 0 else before[node.source + a - node.dest]
    ensures after == ApplyOne(before, NodeWrite(before, node))
  {
    hide ApplyOne;
  }

  /** The loop that carries the list out. */
  method RunLoadList(memory: array<byte>, list: seq<LoadNode>)
    requires NodesFit(list, memory.Length)
    modifies memory
    ensures memory[..] == Interpret(old(memory[..]), list)
  {
    hide NodeWrite, ApplyOne, NodeFits;
    for k := 0 to |list|
      invariant memory[..] == Interpret(old(memory[..]), list[..k])
    {
      assert list[..k + 1] == list[..k] + [list[k]];
      assert list[k] in list;
      InterpretSnoc(old(memory[..]), list[..k], list[k]);
      RunNode(memory, list[k]);
    }
    assert list[..|list|] == list;
  }

  /**
   Loading and running: nothing is copied unless every segment is good, there is
   something to load and the list could be allocated; then memory is what the list makes
   of it - what the file means, if later file bytes are spared.
   */
  method LoadAndRun(pool: NodePool, memory: array<byte>, image: nat, ss: seq<ProgramHeader>) returns (ran: bool)
    requires SizesOk(ss) ==> SegmentsFit(image, ss, memory.Length)
    modifies pool, memory
    ensures ran <==> SizesOk(ss) && pool.failures == old(pool.failures) && MemorySize(ss) % TWO_TO_THE_64 != 0
    ensures !ran ==> memory[..] == old(memory[..])
    ensures ran ==> SegmentsFit(image, ss, |old(memory[..])|) && NodesFit(Compile(image, ss), |old(memory[..])|)
                    && memory[..] == Interpret(old(memory[..]), Compile(image, ss))
    ensures ran && LaterFilesSpared(image, ss) ==> memory[..] == Apply(old(memory[..]), SegmentWrites(old(memory[..]), image, ss))
  {
    var status, list := ElfLoadFile(pool, image, ss);
    if status == Success {
      CompileConserves(image, ss);
      NoLength();
    }
    if list == [] || status != Success {
      return false;
    }
    CompiledFits(image, ss, memory.Length);
    if LaterFilesSpared(image, ss) {
      ListPreservesMeaning(memory[..], image, ss);
    }
    RunLoadList(memory, list);
    return true;
  }
}
