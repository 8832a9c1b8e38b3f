/**
 The walk over a flattened device tree (section 5.4 of the Devicetree Specification,
 structure block) that dumps it: nodes and properties in pre-order, each property in
 the rendering that fits its data.
 */
module FdtDump {
  import opened Bytes
  import opened Options

  const FDT_BEGIN_NODE: word := 1
  const FDT_END_NODE: word := 2
  const FDT_PROP: word := 3
  const FDT_NOP: word := 4
  const FDT_END: word := 9
  const SLASH: byte := 47

  // ---------- Rendering of a property's data ----------

  datatype Rendering = Nothing | Text(text: seq<byte>) | Cells(cells: seq<word>) | Octets(octets: seq<byte>)

  /** The data is a string: it is not empty, and its only NUL is its last byte. */
  predicate IsString(data: seq<byte>)
  {
    data != [] && data[|data| - 1] == 0 && forall i :: 0 <= i < |data| - 1 ==> data[i] != 0
  }

  function CellsOf(data: seq<byte>): (cs: seq<word>)
    requires |data| % 4 == 0
    ensures |cs| == |data| / 4
  {
    seq(|data| / 4, i requires 0 <= i < |data| / 4 => FromBigEndian(data[4 * i..4 * i + 4]))
  }

  function Render(data: seq<byte>): Rendering
  {
    if data == [] then Nothing
    else if IsString(data) then Text(data[..|data| - 1])
    else if |data| % 4 == 0 then Cells(CellsOf(data))
    else Octets(data)
  }

  /** The data a rendering stands for. */
  function Unrender(r: Rendering): seq<byte>
  {
    match r
    case Nothing => []
    case Text(text) => text + [0]
    case Cells(cells) => seq(4 * |cells|, i requires 0 <= i < 4 * |cells| => BigEndian(cells[i / 4])[i % 4])
    case Octets(octets) => octets
  }

  lemma {:induction false} CellByte(data: seq<byte>, i: nat)
    requires |data| % 4 == 0 && i < |data|
    ensures BigEndian(CellsOf(data)[i / 4])[i % 4] == data[i]
  {
    var k := i / 4;
    assert i == 4 * k + i % 4;
    FromBigEndianInverse(data[4 * k..4 * k + 4]);
  }

  /** No rendering loses data. */
  lemma {:induction false} RenderingIsFaithful(data: seq<byte>)
    ensures Unrender(Render(data)) == data
  {
    hide CellsOf, BigEndian;
    if data != [] && !IsString(data) && |data| % 4 == 0 {
      var cells := CellsOf(data);
      forall i | 0 <= i < |data|
        ensures BigEndian(cells[i / 4])[i % 4] == data[i]
      {
        CellByte(data, i);
      }
    }
  }

  /** IsPrintableString: skips to the first NUL and asks whether that is the end. */
  method IsPrintableString(data: seq<byte>) returns (yes: bool)
    ensures yes <==> IsString(data)
  {
    if |data| == 0 || data[|data| - 1] != 0 {
      return false;
    }
    var s := 0;
    while data[s] != 0
      invariant 0 <= s < |data|
      invariant forall i :: 0 <= i < s ==> data[i] != 0
      decreases |data| - s
    {
      s := s + 1;
    }
    return s + 1 >= |data|;
  }

  /** PrintData. */
  method PrintData(data: seq<byte>) returns (r: Rendering)
    ensures r == Render(data)
  {
    if |data| == 0 {
      return Nothing;
    }
    var text := IsPrintableString(data);
    if text {
      return Text(data[..|data| - 1]);
    }
    if |data| % 4 == 0 {
      var cells: seq<word> := [];
      var i := 0;
      while i < |data|
        invariant 0 <= i <= |data| && i % 4 == 0 && cells == CellsOf(data)[..i / 4]
      {
        CellAt(data, i);
        cells := cells + [FromBigEndian(data[i..i + 4])];
        i := i + 4;
      }
      return Cells(cells);
    }
    return Octets(data);
  }

  lemma {:induction false} CellAt(data: seq<byte>, i: nat)
    requires |data| % 4 == 0 && i % 4 == 0 && i < |data|
    ensures CellsOf(data)[..(i + 4) / 4] == CellsOf(data)[..i / 4] + [FromBigEndian(data[i..i + 4])]
  {
    assert 4 * (i / 4) == i && (i + 4) / 4 == i / 4 + 1;
  }

  // ---------- The walk ----------

  /** What the dump prints, with the indentation depth. */
  datatype Event =
    | Begin(depth: nat, name: seq<byte>)
    | End(depth: nat)
    | NopAt(depth: nat)
    | Property(depth: nat, name: seq<byte>, value: Rendering)

  /** How the walk ends: at FDT_END, at a tag it does not know, or by reading outside the blob. */
  datatype Ending = AtEnd(depth: nat) | UnknownTag(depth: nat, tag: word) | Outside

  datatype Trace = Trace(events: seq<Event>, ending: Ending)

  function Align4(x: nat): (r: nat)
    ensures x <= r < x + 4 && r % 4 == 0
  {
    (x + 3) / 4 * 4
  }

  function Align8(x: nat): (r: nat)
    ensures x <= r < x + 8 && r % 8 == 0
  {
    (x + 7) / 8 * 8
  }

  /** The string at offset `p`, if the blob holds its terminator. */
  function StringAt(blob: seq<byte>, p: nat): (s: Option<seq<byte>>)
    ensures s.Some? ==> p + |s.value| < |blob| && s.value == blob[p..p + |s.value|] && blob[p + |s.value|] == 0 && 0 !in s.value
    decreases |blob| - p
  {
    if p >= |blob| then None
    else if blob[p] == 0 then Some([])
    else
      match StringAt(blob, p + 1)
      case None => None
      case Some(rest) => Some([blob[p]] + rest)
  }

  /** One turn of the loop from offset `p`: an event and where to go on, or the end. */
  datatype Turn = Go(event: Event, next: nat, depth: nat) | Stop(ending: Ending)

  /** The strings block and the version, from the header. */
  datatype Header = Header(strings: nat, version: word)

  function Cell(blob: seq<byte>, p: nat): word
    requires p + 4 <= |blob|
  {
    FromBigEndian(blob[p..p + 4])
  }

  function NodeTurn(blob: seq<byte>, p: nat, depth: nat): (t: Turn)
    ensures t.Go? ==> p <= t.next
  {
    match StringAt(blob, p)
    case None => Stop(Outside)
    case Some(s) => Go(Begin(depth, if s == [] then [SLASH] else s), Align4(p + |s| + 1), (depth + 1) % TWO_TO_THE_64)
  }

  function PropertyTurn(blob: seq<byte>, h: Header, p: nat, depth: nat): (t: Turn)
    ensures t.Go? ==> p <= t.next
  {
    if p + 8 > |blob| then Stop(Outside)
    else
      var size := Cell(blob, p);
      var start := if h.version < 16 && size >= 8 then Align8(p + 8) else p + 8;
      match StringAt(blob, h.strings + Cell(blob, p + 4))
      case None => Stop(Outside)
      case Some(name) =>
        if start + size > |blob| then Stop(Outside)
        else Go(Property(depth, name, Render(blob[start..start + size])), Align4(start + size), depth)
  }

  function Step(blob: seq<byte>, h: Header, p: nat, depth: nat): (t: Turn)
    ensures t.Go? ==> p < t.next
  {
    if p + 4 > |blob| then Stop(Outside)
    else
      var tag := Cell(blob, p);
      if tag == FDT_END then Stop(AtEnd(depth))
      else if tag == FDT_BEGIN_NODE then NodeTurn(blob, p + 4, depth)
      else if tag == FDT_END_NODE then
        var up := (depth - 1) % TWO_TO_THE_64;
        Go(End(up), p + 4, up)
      else if tag == FDT_NOP then Go(NopAt(depth), p + 4, depth)
      else if tag != FDT_PROP then Stop(UnknownTag(depth, tag))
      else PropertyTurn(blob, h, p + 4, depth)
  }

  function Walk(blob: seq<byte>, h: Header, p: nat, depth: nat): Trace
    decreases |blob| - p
  {
    match Step(blob, h, p, depth)
    case Stop(ending) => Trace([], ending)
    case Go(event, next, depth') =>
      if p >= |blob| then Trace([], Outside)
      else After([event], Walk(blob, h, next, depth'))
  }

  function After(events: seq<Event>, t: Trace): Trace
  {
    Trace(events + t.events, t.ending)
  }

  lemma {:induction false} AfterNothing(t: Trace)
    ensures After([], t) == t
  {
  }

  lemma {:induction false} WalkStep(blob: seq<byte>, h: Header, p: nat, depth: nat, events: seq<Event>)
    ensures var t := Step(blob, h, p, depth);
            After(events, Walk(blob, h, p, depth)) ==
            if t.Stop? then Trace(events, t.ending) else After(events + [t.event], Walk(blob, h, t.next, t.depth))
    ensures Step(blob, h, p, depth).Go? ==> p < |blob|
  {
    hide Cell, StringAt, Render, Align4, Align8;
    var t := Step(blob, h, p, depth);
    if t.Go? {
      var rest := Walk(blob, h, t.next, t.depth);
      assert events + ([t.event] + rest.events) == events + [t.event] + rest.events;
    }
  }

  /** DumpFdt's loop over the structure block: a cursor and a depth, output in order. */
  method DumpFdt(blob: seq<byte>, structure: nat, h: Header) returns (t: Trace)
    ensures t == Walk(blob, h, structure, 0)
  {
    hide StringAt, Render, Align4, Align8, Walk, Cell, After;
    AfterNothing(Walk(blob, h, structure, 0));
    var p: nat, depth: nat := structure, 0;
    var events := [];
    while true
      invariant Walk(blob, h, structure, 0) == After(events, Walk(blob, h, p, depth))
      decreases |blob| - p
    {
      WalkStep(blob, h, p, depth, events);
      if p + 4 > |blob| {
        return Trace(events, Outside);
      }
      var tag := Cell(blob, p);
      p := p + 4;
      if tag == FDT_END {
        return Trace(events, AtEnd(depth));
      }
      if tag == FDT_BEGIN_NODE {
        var s := StringAt(blob, p);
        if s.None? {
          return Trace(events, Outside);
        }
        p := Align4(p + |s.value| + 1);
        events := events + [Begin(depth, if s.value == [] then [SLASH] else s.value)];
        depth := (depth + 1) % TWO_TO_THE_64;
      } else if tag == FDT_END_NODE {
        depth := (depth - 1) % TWO_TO_THE_64;
        events := events + [End(depth)];
      } else if tag == FDT_NOP {
        events := events + [NopAt(depth)];
      } else if tag != FDT_PROP {
        return Trace(events, UnknownTag(depth, tag));
      } else {
        if p + 8 > |blob| {
          return Trace(events, Outside);
        }
        var size := Cell(blob, p);
        var name := StringAt(blob, h.strings + Cell(blob, p + 4));
        p := p + 8;
        if h.version < 16 && size >= 8 {
          p := Align8(p);
        }
        if name.None? || p + size > |blob| {
          return Trace(events, Outside);
        }
        var value := PrintData(blob[p..p + size]);
        p := Align4(p + size);
        events := events + [Property(depth, name.value, value)];
      }
    }
  }

  // ---------- Trees ----------

  /** A piece of a device tree: a no-op token, a property by the offset of its name, or a node. */
  datatype Item = Nop | Prop(nameOffset: word, data: seq<byte>) | Node(name: seq<byte>, items: seq<Item>)

  lemma {:induction false} FoursAdd(a: nat, b: nat)
    requires a % 4 == 0 && b % 4 == 0
    ensures (a + b) % 4 == 0
  {
  }

  /** Zeros up to the next multiple of four. */
  function Padding(n: nat): (z: seq<byte>)
    ensures n + |z| == Align4(n)
  {
    Zeros(Align4(n) - n)
  }

  /** The item in the structure block, as section 5.4 lays it out. */
  function Flatten(it: Item): (s: seq<byte>)
    ensures |s| % 4 == 0 && |s| >= 4
    decreases it
  {
    match it
    case Nop => BigEndian(FDT_NOP)
    case Prop(offset, data) => PropBytes(offset, data)
    case Node(name, items) =>
      var named, inner := NameBytes(name), FlattenAll(items);
      FoursAdd(|named|, |inner|);
      FoursAdd(|named| + |inner|, 8);
      BigEndian(FDT_BEGIN_NODE) + named + inner + BigEndian(FDT_END_NODE)
  }

  function PropBytes(offset: word, data: seq<byte>): (s: seq<byte>)
    ensures |s| == 12 + Align4(|data|) && |s| % 4 == 0
  {
    FoursAdd(12, Align4(|data|));
    BigEndian(FDT_PROP) + BigEndian(ToWord(|data|)) + BigEndian(offset) + data + Padding(|data|)
  }

  function NameBytes(name: seq<byte>): (s: seq<byte>)
    ensures |s| % 4 == 0
  {
    name + [0] + Padding(|name| + 1)
  }

  function FlattenAll(items: seq<Item>): (s: seq<byte>)
    ensures |s| % 4 == 0
    decreases items
  {
    if items == [] then []
    else
      var first, rest := Flatten(items[0]), FlattenAll(items[1..]);
      FoursAdd(|first|, |rest|);
      first + rest
  }

  /** The blob's strings block holds a terminated name for every property; names and sizes can be written down. */
  predicate Described(blob: seq<byte>, h: Header, it: Item)
    decreases it
  {
    match it
    case Nop => true
    case Prop(offset, data) => |data| < TWO_TO_THE_32 && StringAt(blob, h.strings + offset).Some?
    case Node(name, items) => 0 !in name && forall i | i in items :: Described(blob, h, i)
  }

  predicate AllDescribed(blob: seq<byte>, h: Header, items: seq<Item>)
  {
    forall i | i in items :: Described(blob, h, i)
  }

  /** How deep the tree is. */
  function Height(it: Item): nat
    decreases it
  {
    if it.Node? then 1 + HeightAll(it.items) else 0
  }

  function HeightAll(items: seq<Item>): nat
    decreases items
  {
    if items == [] then 0
    else
      var a, b := Height(items[0]), HeightAll(items[1..]);
      if a > b then a else b
  }

  /** Pre-order of the item: what a dump of it should print. */
  function Shown(blob: seq<byte>, h: Header, it: Item, depth: nat): seq<Event>
    requires Described(blob, h, it)
    decreases it
  {
    match it
    case Nop => [NopAt(depth)]
    case Prop(offset, data) => [Property(depth, StringAt(blob, h.strings + offset).value, Render(data))]
    case Node(name, items) =>
      [Begin(depth, if name == [] then [SLASH] else name)] + ShownAll(blob, h, items, depth + 1) + [End(depth)]
  }

  function ShownAll(blob: seq<byte>, h: Header, items: seq<Item>, depth: nat): seq<Event>
    requires AllDescribed(blob, h, items)
    decreases items
  {
    if items == [] then [] else Shown(blob, h, items[0], depth) + ShownAll(blob, h, items[1..], depth)
  }

  // ---------- The walk inverts the layout ----------

  lemma {:induction false} CellLies(blob: seq<byte>, p: nat, w: word)
    requires LiesAt(blob, p, BigEndian(w))
    ensures p + 4 <= |blob| && Cell(blob, p) == w
  {
    BigEndianInverse(w);
  }

  lemma {:induction false} StringLies(blob: seq<byte>, p: nat, name: seq<byte>)
    requires 0 !in name && LiesAt(blob, p, name + [0])
    ensures StringAt(blob, p) == Some(name)
    decreases |name|
  {
    assert blob[p] == (name + [0])[0];
    if name != [] {
      assert name[0] in name && [name[0]] + name[1..] == name;
      assert name + [0] == [name[0]] + (name[1..] + [0]);
      LiesSplit(blob, p, [name[0]], name[1..] + [0]);
      StringLies(blob, p + 1, name[1..]);
    }
  }

  lemma {:induction false} AlignedSum(p: nat, n: nat)
    requires p % 4 == 0
    ensures Align4(p + n) == p + Align4(n)
  {
  }

  lemma {:induction false} PropParts(blob: seq<byte>, p: nat, offset: word, data: seq<byte>)
    requires LiesAt(blob, p, PropBytes(offset, data)) && |data| < TWO_TO_THE_32
    ensures p + 12 + |data| <= |blob|
    ensures Cell(blob, p) == FDT_PROP && Cell(blob, p + 4) == |data| && Cell(blob, p + 8) == offset
    ensures blob[p + 12..p + 12 + |data|] == data
  {
    hide Cell, BigEndian;
    var tag, size, at := BigEndian(FDT_PROP), BigEndian(ToWord(|data|)), BigEndian(offset);
    LiesSplit(blob, p, tag + size + at + data, Padding(|data|));
    LiesSplit(blob, p, tag + size + at, data);
    LiesSplit(blob, p, tag + size, at);
    LiesSplit(blob, p, tag, size);
    CellLies(blob, p, FDT_PROP);
    CellLies(blob, p + 4, ToWord(|data|));
    CellLies(blob, p + 8, offset);
  }

  /** One property of a flattened tree, version 16 or later. */
  lemma {:induction false} PropStep(blob: seq<byte>, h: Header, p: nat, depth: nat, offset: word, data: seq<byte>)
    requires p % 4 == 0 && h.version >= 16 && Described(blob, h, Prop(offset, data))
    requires LiesAt(blob, p, PropBytes(offset, data))
    ensures Step(blob, h, p, depth) ==
            Go(Property(depth, StringAt(blob, h.strings + offset).value, Render(data)), p + |PropBytes(offset, data)|, depth)
  {
    hide StringAt, Render, Cell, PropBytes, LiesAt, Align4;
    PropParts(blob, p, offset, data);
    AlignedSum(p + 12, |data|);
  }

  lemma {:induction false} BeginStep(blob: seq<byte>, h: Header, p: nat, depth: nat, name: seq<byte>)
    requires p % 4 == 0 && 0 !in name && depth + 1 < TWO_TO_THE_64
    requires LiesAt(blob, p, BigEndian(FDT_BEGIN_NODE) + NameBytes(name))
    ensures Step(blob, h, p, depth) ==
            Go(Begin(depth, if name == [] then [SLASH] else name), p + 4 + |NameBytes(name)|, depth + 1)
  {
    hide StringAt, FromBigEndian, BigEndian, Cell, LiesAt, PropertyTurn;
    LiesSplit(blob, p, BigEndian(FDT_BEGIN_NODE), NameBytes(name));
    LiesSplit(blob, p + 4, name + [0], Padding(|name| + 1));
    CellLies(blob, p, FDT_BEGIN_NODE);
    StringLies(blob, p + 4, name);
    AlignedSum(p + 4, |name| + 1);
  }

  lemma {:induction false} AfterAfter(a: seq<Event>, b: seq<Event>, t: Trace)
    ensures After(a, After(b, t)) == After(a + b, t)
  {
    assert a + (b + t.events) == a + b + t.events;
  }

  /** Walking over a flattened item prints it, and goes on behind it at the same depth. */
  lemma {:induction false} WalkItem(blob: seq<byte>, h: Header, it: Item, p: nat, depth: nat)
    requires p % 4 == 0 && h.version >= 16 && Described(blob, h, it) && depth + Height(it) < TWO_TO_THE_64
    requires LiesAt(blob, p, Flatten(it))
    ensures Walk(blob, h, p, depth) == After(Shown(blob, h, it, depth), Walk(blob, h, p + |Flatten(it)|, depth))
    decreases it
  {
    hide StringAt, Render, Cell, LiesAt, Walk, After, PropBytes, NameBytes, BigEndian, Align4, Step;
    AfterNothing(Walk(blob, h, p, depth));
    WalkStep(blob, h, p, depth, []);
    match it
    case Nop =>
      NopStep(blob, h, p, depth);
      assert [] + [NopAt(depth)] == [NopAt(depth)];
    case Prop(offset, data) =>
      PropStep(blob, h, p, depth, offset, data);
      assert [] + Shown(blob, h, it, depth) == Shown(blob, h, it, depth);
    case Node(name, items) =>
      WalkNode(blob, h, name, items, p, depth);
  }

  lemma {:induction false} NopStep(blob: seq<byte>, h: Header, p: nat, depth: nat)
    requires LiesAt(blob, p, BigEndian(FDT_NOP))
    ensures Step(blob, h, p, depth) == Go(NopAt(depth), p + 4, depth)
  {
    hide FromBigEndian, BigEndian, Cell, LiesAt, NodeTurn, PropertyTurn;
    CellLies(blob, p, FDT_NOP);
  }

  lemma {:induction false} Unwrapped(depth: nat)
    requires depth < TWO_TO_THE_64
    ensures (depth + 1 - 1) % TWO_TO_THE_64 == depth
  {
  }

  lemma {:induction false} EndStep(blob: seq<byte>, h: Header, p: nat, depth: nat)
    requires LiesAt(blob, p, BigEndian(FDT_END_NODE)) && depth + 1 < TWO_TO_THE_64
    ensures Step(blob, h, p, depth + 1) == Go(End(depth), p + 4, depth)
  {
    hide FromBigEndian, BigEndian, Cell, LiesAt;
    CellLies(blob, p, FDT_END_NODE);
    Unwrapped(depth);
  }

  lemma {:induction false} WalkNode(blob: seq<byte>, h: Header, name: seq<byte>, items: seq<Item>, p: nat, depth: nat)
    requires p % 4 == 0 && h.version >= 16 && Described(blob, h, Node(name, items))
    requires depth + Height(Node(name, items)) < TWO_TO_THE_64
    requires LiesAt(blob, p, Flatten(Node(name, items)))
    ensures Walk(blob, h, p, depth) ==
            After(Shown(blob, h, Node(name, items), depth), Walk(blob, h, p + |Flatten(Node(name, items))|, depth))
    decreases items, 1
  {
    hide StringAt, Render, Cell, LiesAt, Walk, After, NameBytes, Align4;
    var begin, inner, end := BigEndian(FDT_BEGIN_NODE) + NameBytes(name), FlattenAll(items), BigEndian(FDT_END_NODE);
    var q := p + |begin|;
    var r := q + |inner|;
    LiesSplit(blob, p, begin + inner, end);
    LiesSplit(blob, p, begin, inner);
    BeginStep(blob, h, p, depth, name);
    AfterNothing(Walk(blob, h, p, depth));
    WalkStep(blob, h, p, depth, []);
    WalkAll(blob, h, items, q, depth + 1);
    EndStep(blob, h, r, depth);
    var open := [Begin(depth, if name == [] then [SLASH] else name)];
    var body := ShownAll(blob, h, items, depth + 1);
    assert [] + open == open;
    AfterAfter(open, body, Walk(blob, h, r, depth + 1));
    WalkStep(blob, h, r, depth + 1, open + body);
  }

  lemma {:induction false} WalkAll(blob: seq<byte>, h: Header, items: seq<Item>, p: nat, depth: nat)
    requires p % 4 == 0 && h.version >= 16 && AllDescribed(blob, h, items) && depth + HeightAll(items) < TWO_TO_THE_64
    requires LiesAt(blob, p, FlattenAll(items))
    ensures Walk(blob, h, p, depth) == After(ShownAll(blob, h, items, depth), Walk(blob, h, p + |FlattenAll(items)|, depth))
    decreases items, 0
  {
    hide StringAt, Render, Cell, LiesAt, Walk, After, Flatten;
    if items == [] {
      AfterNothing(Walk(blob, h, p, depth));
    } else {
      var first, rest := Flatten(items[0]), FlattenAll(items[1..]);
      LiesSplit(blob, p, first, rest);
      WalkItem(blob, h, items[0], p, depth);
      WalkAll(blob, h, items[1..], p + |first|, depth);
      AfterAfter(Shown(blob, h, items[0], depth), ShownAll(blob, h, items[1..], depth), Walk(blob, h, p + |first| + |rest|, depth));
    }
  }

  /**
   Dumping a flattened tree of version 16 or later prints exactly its pre-order with
   the right depths, and ends at FDT_END back at depth 0.
   */
  lemma {:induction false} DumpInvertsFlatten(blob: seq<byte>, h: Header, structure: nat, root: Item)
    requires structure % 4 == 0 && h.version >= 16 && Described(blob, h, root) && Height(root) < TWO_TO_THE_64
    requires LiesAt(blob, structure, Flatten(root) + BigEndian(FDT_END))
    ensures Walk(blob, h, structure, 0) == Trace(Shown(blob, h, root, 0), AtEnd(0))
  {
    hide StringAt, Render, LiesAt, Flatten, FromBigEndian, BigEndian;
    var end := structure + |Flatten(root)|;
    LiesSplit(blob, structure, Flatten(root), BigEndian(FDT_END));
    WalkItem(blob, h, root, structure, 0);
    CellLies(blob, end, FDT_END);
    assert Walk(blob, h, end, 0) == Trace([], AtEnd(0));
  }
}
