/**
 The configuration file of the RDK boot manager: lines NAME="VALUE", scanned in place
 into a table of at most six variables, which are then looked up by name.
 */
module RdkConfig {
  import opened Bytes
  import opened Options

  const MAX_VAR: nat := 6
  const EQUALS: byte := 61
  const QUOTE: byte := 34
  const NEWLINE: byte := 10

  datatype Binding = Binding(name: seq<byte>, value: seq<byte>)

  // ---------- Scanning ----------

  /** StrSpn: where the string from `p` on meets `stop` or its NUL; None if it runs out of the buffer first. */
  function Span(s: seq<byte>, p: nat, stop: byte): (r: Option<nat>)
    ensures r.Some? ==> p <= r.value < |s|
    decreases |s| - p
  {
    if p >= |s| then None
    else if s[p] == 0 || s[p] == stop then Some(p)
    else Span(s, p + 1, stop)
  }

  /** The rows found, the offsets cut off with a NUL, where the scan stands, and whether it stayed in the buffer. */
  datatype Scanned = Scanned(rows: seq<Binding>, cuts: seq<nat>, next: nat, inside: bool)

  /** InitVarList's scan of a file of `size` bytes from offset `next` on, with `n` rows of the table left. */
  function ScanFrom(s: seq<byte>, size: nat, next: nat, n: nat): Scanned
    decreases n
  {
    if n == 0 || next >= size then Scanned([], [], next, true)
    else
      match Span(s, next, EQUALS)
      case None => Scanned([], [], next, false)
      case Some(e) =>
        match Span(s, e + 2, QUOTE)
        case None => Scanned([], [e], next, false)
        case Some(q) =>
          var rest := ScanFrom(s, size, q + 2, n - 1);
          Scanned([Binding(s[next..e], s[e + 2..q])] + rest.rows, [e, q] + rest.cuts, rest.next, rest.inside)
  }

  /** The buffer with NULs at the given offsets. */
  function Cut(s: seq<byte>, cuts: seq<nat>): (r: seq<byte>)
    ensures |r| == |s|
  {
    seq(|s|, i requires 0 <= i < |s| => if i in cuts then 0 else s[i])
  }

  /** A span ends at the first stop character or NUL. */
  lemma {:induction false} SpanEndsFirst(s: seq<byte>, p: nat, stop: byte, i: nat)
    ensures Span(s, p, stop) == Some(i) <==>
            p <= i < |s| && (s[i] == stop || s[i] == 0) && forall j :: p <= j < i ==> s[j] != stop && s[j] != 0
    decreases |s| - p
  {
    if p < |s| && s[p] != 0 && s[p] != stop {
      SpanEndsFirst(s, p + 1, stop, i);
    }
  }

  // ---------- Lookup ----------

  /** The value of the first row with the name. */
  function FirstValue(rows: seq<Binding>, name: seq<byte>): Option<seq<byte>>
  {
    if rows == [] then None
    else if rows[0].name == name then Some(rows[0].value)
    else FirstValue(rows[1..], name)
  }

  /** A lookup finds a value exactly when some row has the name, and it is that of the first such row. */
  lemma {:induction false} FirstValueIsFirst(rows: seq<Binding>, name: seq<byte>)
    ensures FirstValue(rows, name).None? <==> forall i :: 0 <= i < |rows| ==> rows[i].name != name
    ensures forall i :: 0 <= i < |rows| && rows[i].name == name && (forall j :: 0 <= j < i ==> rows[j].name != name) ==>
              FirstValue(rows, name) == Some(rows[i].value)
  {
    if rows != [] {
      FirstValueIsFirst(rows[1..], name);
      forall i | 0 <= i < |rows| && rows[i].name == name && (forall j :: 0 <= j < i ==> rows[j].name != name)
        ensures FirstValue(rows, name) == Some(rows[i].value)
      {
        if i > 0 {
          assert rows[0].name != name;
          assert rows[1..][i - 1] == rows[i];
          assert forall j :: 0 <= j < i - 1 ==> rows[1..][j] == rows[j + 1];
        }
      }
      assert forall i :: 1 <= i < |rows| ==> rows[i] == rows[1..][i - 1];
    }
  }

  // ---------- The printer ----------

  function PrintOne(b: Binding): seq<byte>
  {
    b.name + [EQUALS, QUOTE] + b.value + [QUOTE, NEWLINE]
  }

  function Print(bs: seq<Binding>): seq<byte>
  {
    if bs == [] then [] else PrintOne(bs[0]) + Print(bs[1..])
  }

  /** No '=' in the name, no quote in the value, no NUL in either. */
  predicate Printable(b: Binding)
  {
    EQUALS !in b.name && 0 !in b.name && QUOTE !in b.value && 0 !in b.value
  }

  /** A span over text without the stop character ends right behind it. */
  lemma {:induction false} SpanOver(s: seq<byte>, p: nat, text: seq<byte>, stop: byte)
    requires stop !in text && 0 !in text && LiesAt(s, p, text + [stop])
    ensures Span(s, p, stop) == Some(p + |text|)
    decreases |text|
  {
    assert s[p] == (text + [stop])[0];
    if text != [] {
      assert text[0] in text;
      assert text + [stop] == [text[0]] + (text[1..] + [stop]);
      LiesSplit(s, p, [text[0]], text[1..] + [stop]);
      SpanOver(s, p + 1, text[1..], stop);
    }
  }

  lemma {:induction false} RowParts(s: seq<byte>, p: nat, b: Binding)
    requires LiesAt(s, p, PrintOne(b))
    ensures LiesAt(s, p, b.name + [EQUALS])
    ensures LiesAt(s, p + |b.name| + 2, b.value + [QUOTE])
  {
    hide LiesAt;
    assert PrintOne(b) == (b.name + [EQUALS]) + ([QUOTE] + ((b.value + [QUOTE]) + [NEWLINE]));
    LiesSplit(s, p, b.name + [EQUALS], [QUOTE] + ((b.value + [QUOTE]) + [NEWLINE]));
    LiesSplit(s, p + |b.name| + 1, [QUOTE], (b.value + [QUOTE]) + [NEWLINE]);
    LiesSplit(s, p + |b.name| + 2, b.value + [QUOTE], [NEWLINE]);
  }

  lemma {:induction false} SliceOf(s: seq<byte>, p: nat, text: seq<byte>, stop: byte)
    requires LiesAt(s, p, text + [stop])
    ensures p + |text| < |s| && s[p..p + |text|] == text
  {
    LiesSplit(s, p, text, [stop]);
  }

  lemma {:induction false} OneRow(s: seq<byte>, p: nat, b: Binding)
    requires Printable(b) && LiesAt(s, p, PrintOne(b))
    ensures var e := p + |b.name|; var q := e + 2 + |b.value|;
            && Span(s, p, EQUALS) == Some(e) && Span(s, e + 2, QUOTE) == Some(q)
            && s[p..e] == b.name && s[e + 2..q] == b.value && p + |PrintOne(b)| == q + 2
  {
    hide Span, LiesAt;
    RowParts(s, p, b);
    SpanOver(s, p, b.name, EQUALS);
    SpanOver(s, p + |b.name| + 2, b.value, QUOTE);
    SliceOf(s, p, b.name, EQUALS);
    SliceOf(s, p + |b.name| + 2, b.value, QUOTE);
  }

  function Fewer(a: nat, b: nat): nat
  {
    if a < b then a else b
  }

  lemma {:induction false} FewerIsZero(a: nat, b: nat)
    requires a == 0 || b == 0
    ensures Fewer(a, b) == 0
  {
  }

  /** The bindings the table has room for, one at a time. */
  lemma {:induction false} TakeOne(bs: seq<Binding>, n: nat)
    requires bs != [] && n > 0
    ensures var first, rest := bs[..Fewer(n, |bs|)], bs[1..][..Fewer(n - 1, |bs| - 1)];
            first == [bs[0]] + rest && |Print(first)| == |PrintOne(bs[0])| + |Print(rest)|
  {
    hide PrintOne;
    var first, rest := bs[..Fewer(n, |bs|)], bs[1..][..Fewer(n - 1, |bs| - 1)];
    assert first == [bs[0]] + rest;
    assert first[1..] == rest;
  }

  /** Scanning printed bindings gives the first of them that the table has room for, and stays inside. */
  lemma {:induction false} ScanInvertsPrint(s: seq<byte>, p: nat, bs: seq<Binding>, n: nat)
    requires (forall b :: b in bs ==> Printable(b)) && LiesAt(s, p, Print(bs)) && p + |Print(bs)| == |s|
    ensures var r := ScanFrom(s, |s|, p, n);
            && r.inside && r.rows == bs[..Fewer(n, |bs|)]
            && r.next == p + |Print(bs[..Fewer(n, |bs|)])|
    decreases n
  {
    hide PrintOne, Span, LiesAt, Fewer;
    if bs == [] || n == 0 {
      assert bs[..Fewer(n, |bs|)] == [] by { FewerIsZero(n, |bs|); }
    } else {
      var b, rest := bs[0], bs[1..];
      assert b in bs;
      LiesSplit(s, p, PrintOne(b), Print(rest));
      OneRow(s, p, b);
      ScanInvertsPrint(s, p + |PrintOne(b)|, rest, n - 1);
      TakeOne(bs, n);
    }
  }

  /**
   The parser inverts its printer: up to six printed bindings are read back as they
   are, the whole file is consumed inside its buffer, and every lookup gives the first
   binding of its name.
   */
  lemma {:induction false} ParserInvertsPrinter(bs: seq<Binding>, name: seq<byte>)
    requires |bs| <= MAX_VAR && forall b :: b in bs ==> Printable(b)
    ensures var r := ScanFrom(Print(bs), |Print(bs)|, 0, MAX_VAR);
            && r.inside && r.rows == bs && r.next == |Print(bs)|
            && FirstValue(r.rows, name) == FirstValue(bs, name)
  {
    var s := Print(bs);
    assert s[0..|s|] == s;
    ScanInvertsPrint(s, 0, bs, MAX_VAR);
    assert bs[..Fewer(MAX_VAR, |bs|)] == bs;
  }

  lemma {:induction false} NoSpan(s: seq<byte>, p: nat, stop: byte)
    requires stop !in s && 0 !in s
    ensures Span(s, p, stop).None?
    decreases |s| - p
  {
    if p < |s| {
      assert s[p] in s;
      NoSpan(s, p + 1, stop);
    }
  }

  /** A file without '=' and without NUL makes the scan run out of its buffer. */
  lemma {:induction false} NoDelimiterRunsOut(s: seq<byte>)
    requires s != [] && EQUALS !in s && 0 !in s
    ensures !ScanFrom(s, |s|, 0, MAX_VAR).inside
  {
    NoSpan(s, 0, EQUALS);
  }

  // ---------- How much room the scan needs behind a file ----------

  /** A span ends at the latest at a NUL behind its start. */
  lemma {:induction false} SpanToNul(s: seq<byte>, p: nat, stop: byte, z: nat)
    requires p <= z < |s| && s[z] == 0
    ensures Span(s, p, stop).Some? && Span(s, p, stop).value <= z
    decreases z - p
  {
    if s[p] != 0 && s[p] != stop {
      SpanToNul(s, p + 1, stop, z);
    }
  }

  /** With three NULs behind the file the scan stays inside. */
  lemma {:induction false} ThreeNulsSuffice(s: seq<byte>, size: nat, next: nat, n: nat)
    requires size + 3 <= |s| && s[size] == 0 && s[size + 1] == 0 && s[size + 2] == 0
    ensures ScanFrom(s, size, next, n).inside
    decreases n
  {
    hide Span;
    if n > 0 && next < size {
      SpanToNul(s, next, EQUALS, size);
      var e := Span(s, next, EQUALS).value;
      SpanToNul(s, e + 2, QUOTE, size + 2);
      ThreeNulsSuffice(s, size, Span(s, e + 2, QUOTE).value + 2, n - 1);
    }
  }

  /** With fewer than three, the file "A" makes it run out. */
  lemma {:induction false} FewerNulsFail(k: nat)
    requires k < 3
    ensures !ScanFrom([65] + Zeros(k), 1, 0, MAX_VAR).inside
  {
    var s: seq<byte> := [65] + Zeros(k);
    if k == 0 {
      assert Span(s, 1, EQUALS).None?;
    } else {
      assert s[1] == 0;
      assert Span(s, 1, EQUALS) == Some(1);
      assert Span(s, 3, QUOTE).None?;
    }
    assert Span(s, 0, EQUALS) == Span(s, 1, EQUALS);
  }

  /** Whatever the file is, the scan stays inside its buffer exactly if there are at least three NULs behind it. */
  lemma {:induction false} StaysInsideExactly(k: nat)
    ensures (forall file: seq<byte> :: ScanFrom(file + Zeros(k), |file|, 0, MAX_VAR).inside) <==> k >= 3
  {
    hide ScanFrom;
    if k < 3 {
      FewerNulsFail(k);
      var file: seq<byte> := [65];
      assert !ScanFrom(file + Zeros(k), |file|, 0, MAX_VAR).inside;
    } else {
      forall file: seq<byte>
        ensures ScanFrom(file + Zeros(k), |file|, 0, MAX_VAR).inside
      {
        ThreeNulsSuffice(file + Zeros(k), |file|, 0, MAX_VAR);
      }
    }
  }

  // ---------- The table ----------

  class Variables {
    var rows: seq<Binding>

    constructor ()
      ensures rows == []
    {
      rows := [];
    }

    /** StrSpn over the buffer. */
    method StrSpn(data: array<byte>, p: nat, stop: byte) returns (r: Option<nat>)
      ensures r == Span(data[..], p, stop)
    {
      var q := p;
      while q < data.Length
        invariant p <= q
        invariant Span(data[..], p, stop) == Span(data[..], q, stop)
      {
        if data[q] == 0 || data[q] == stop {
          return Some(q);
        }
        q := q + 1;
      }
      return None;
    }

    /** One string of the file: it is cut off in place and copied out. */
    method TakeString(data: array<byte>, p: nat, stop: byte, ghost s: seq<byte>, ghost cuts: seq<nat>)
      returns (end: Option<nat>, text: seq<byte>)
      requires data[..] == Cut(s, cuts) && Behind(cuts, p)
      modifies data
      ensures end == Span(s, p, stop)
      ensures end.None? ==> data[..] == Cut(s, cuts)
      ensures end.Some? ==> data[..] == Cut(s, cuts + [end.value]) && text == s[p..end.value]
      ensures end.Some? ==> Behind(cuts + [end.value], end.value + 2)
    {
      hide Span;
      SpanBehindCuts(s, cuts, p, stop);
      text := [];
      end := StrSpn(data, p, stop);
      if end.Some? {
        text := data[p..end.value];
        data[end.value] := 0;
      }
    }

    /** A name and a value are cut off and filed as one more row. */
    method TakeRow(data: array<byte>, size: nat, next: nat, ghost n: nat, ghost s: seq<byte>, ghost cuts: seq<nat>)
      returns (inside: bool, next': nat, ghost cuts': seq<nat>)
      requires n > 0 && next < size && data[..] == Cut(s, cuts) && Behind(cuts, next)
      modifies this, data
      ensures data[..] == Cut(s, cuts')
      ensures !inside ==> Filed(old(rows), cuts, ScanFrom(s, size, next, n)) == Scanned(rows, cuts', next', false)
      ensures inside ==> Behind(cuts', next')
      ensures inside ==> Filed(old(rows), cuts, ScanFrom(s, size, next, n)) == Filed(rows, cuts', ScanFrom(s, size, next', n - 1))
    {
      hide Span, Cut, ScanFrom, Filed, Behind;
      ScanTurn(s, size, next, n, rows, cuts);
      var e, name := TakeString(data, next, EQUALS, s, cuts);
      if e.None? {
        return false, next, cuts;
      }
      var q, value := TakeString(data, e.value + 2, QUOTE, s, cuts + [e.value]);
      if q.None? {
        return false, next, cuts + [e.value];
      }
      rows := rows + [Binding(name, value)];
      return true, q.value + 2, cuts + [e.value] + [q.value];
    }

    /** The scan with `n` rows of the table to fill. */
    method FillRows(data: array<byte>, size: nat, n: nat) returns (inside: bool, next: nat)
      modifies this, data
      ensures var r := ScanFrom(old(data[..]), size, 0, n);
              && inside == r.inside && rows == r.rows && (inside ==> next == r.next)
              && data[..] == Cut(old(data[..]), r.cuts)
    {
      hide Span, Cut, ScanFrom, Filed, Behind;
      ghost var s, cuts: seq<nat> := data[..], [];
      ghost var whole := ScanFrom(s, size, 0, n);
      CutNothing(s);
      FiledNothing(whole);
      rows, next := [], 0;
      var outer := 0;
      while outer < n && next < size
        invariant 0 <= outer <= n
        invariant data[..] == Cut(s, cuts) && Behind(cuts, next)
        invariant whole == Filed(rows, cuts, ScanFrom(s, size, next, n - outer))
      {
        inside, next, cuts := TakeRow(data, size, next, n - outer, s, cuts);
        if !inside {
          return;
        }
        outer := outer + 1;
      }
      ScanDone(s, size, next, n - outer, rows, cuts);
      return true, next;
    }

    /** InitVarList: cuts the names and values off in place and files them; `inside` is false if it ran out of the buffer. */
    method InitVarList(data: array<byte>, size: nat) returns (inside: bool, next: nat)
      modifies this, data
      ensures var r := ScanFrom(old(data[..]), size, 0, MAX_VAR);
              && inside == r.inside && rows == r.rows && (inside ==> next == r.next)
              && data[..] == Cut(old(data[..]), r.cuts)
    {
      hide ScanFrom;
      inside, next := FillRows(data, size, MAX_VAR);
    }

    /** GetVarValue over the table. */
    method GetVarValue(name: seq<byte>) returns (value: Option<seq<byte>>)
      ensures value == FirstValue(rows, name)
    {
      var k := 0;
      while k < |rows|
        invariant 0 <= k <= |rows|
        invariant FirstValue(rows, name) == FirstValue(rows[k..], name)
      {
        assert rows[k..][1..] == rows[k + 1..];
        if rows[k].name == name {
          return Some(rows[k].value);
        }
        k := k + 1;
      }
      return None;
    }
  }

  /** All the cuts are before the offset. */
  predicate Behind(cuts: seq<nat>, p: nat)
  {
    forall c | c in cuts :: c < p
  }

  lemma {:induction false} CutNothing(s: seq<byte>)
    ensures Cut(s, []) == s
  {
  }

  lemma {:induction false} FiledNothing(whole: Scanned)
    ensures Filed([], [], whole) == whole && Behind([], 0)
  {
  }

  /** Cuts made before an offset do not change a span from it. */
  lemma {:induction false} SpanBehindCuts(s: seq<byte>, cuts: seq<nat>, p: nat, stop: byte)
    requires Behind(cuts, p)
    ensures Span(Cut(s, cuts), p, stop) == Span(s, p, stop)
    decreases |s| - p
  {
    if p < |s| {
      SpanBehindCuts(s, cuts, p + 1, stop);
    }
  }

  /** The whole scan, from what is filed already and what is left. */
  function Filed(rows: seq<Binding>, cuts: seq<nat>, rest: Scanned): Scanned
  {
    Scanned(rows + rest.rows, cuts + rest.cuts, rest.next, rest.inside)
  }

  lemma {:induction false} ScanDone(s: seq<byte>, size: nat, next: nat, n: nat, rows: seq<Binding>, cuts: seq<nat>)
    requires n == 0 || next >= size
    ensures Filed(rows, cuts, ScanFrom(s, size, next, n)) == Scanned(rows, cuts, next, true)
  {
    assert rows + [] == rows && cuts + [] == cuts;
  }

  /** One turn of the scan: it runs out of the buffer, or one more row is filed. */
  lemma {:induction false} ScanTurn(s: seq<byte>, size: nat, next: nat, n: nat, rows: seq<Binding>, cuts: seq<nat>)
    requires n > 0 && next < size
    ensures var whole, e := Filed(rows, cuts, ScanFrom(s, size, next, n)), Span(s, next, EQUALS);
            if e.None? then whole == Scanned(rows, cuts, next, false)
            else
              var q := Span(s, e.value + 2, QUOTE);
              if q.None? then whole == Scanned(rows, cuts + [e.value], next, false)
              else whole == Filed(rows + [Binding(s[next..e.value], s[e.value + 2..q.value])], cuts + [e.value] + [q.value],
                                  ScanFrom(s, size, q.value + 2, n - 1))
  {
    hide Span;
    var here, e := ScanFrom(s, size, next, n), Span(s, next, EQUALS);
    assert rows + [] == rows && cuts + [] == cuts;
    if e.Some? && Span(s, e.value + 2, QUOTE).Some? {
      var q := Span(s, e.value + 2, QUOTE).value;
      var row, rest := Binding(s[next..e.value], s[e.value + 2..q]), ScanFrom(s, size, q + 2, n - 1);
      assert rows + ([row] + rest.rows) == rows + [row] + rest.rows;
      assert cuts + ([e.value, q] + rest.cuts) == cuts + [e.value] + [q] + rest.cuts;
    }
  }
}
