/**
 Sequences of writes into a byte-addressed store. A flush of a boot monitor file,
 a compiled ELF load list and an expanded sparse image are all such sequences, so
 the question "which write decides this byte?" is answered once, here.
 */
module ByteStore {
  import opened Bytes

  datatype Write = Write(addr: nat, data: seq<byte>) {

    predicate Fits(size: nat) {
      addr + |data| <= size
    }

    predicate Covers(a: int) {
      addr <= a < addr + |data|
    }
  }

  predicate AllFit(ws: seq<Write>, size: nat) {
    forall w | w in ws :: w.Fits(size)
  }

  function ApplyOne(m: seq<byte>, w: Write): (m': seq<byte>)
    requires w.Fits(|m|)
    ensures |m'| == |m|
    ensures forall a :: 0 <= a < |m| ==> m'[a] == if w.Covers(a) then w.data[a - w.addr] else m[a]
  {
    m[..w.addr] + w.data + m[w.addr + |w.data|..]
  }

  /** The store after all the writes, first to last. */
  function Apply(m: seq<byte>, ws: seq<Write>): (m': seq<byte>)
    requires AllFit(ws, |m|)
    ensures |m'| == |m|
  {
    if ws == [] then m
    else
      var n := |ws| - 1;
      ApplyOne(Apply(m, ws[..n]), ws[n])
  }

  /** Index of the last write that covers address `a`, or -1. */
  function LastCover(ws: seq<Write>, a: int): (i: int)
    ensures -1 <= i < |ws|
    ensures 0 <= i ==> ws[i].Covers(a)
    ensures forall j :: i < j < |ws| ==> !ws[j].Covers(a)
  {
    if ws == [] then -1
    else
      var n := |ws| - 1;
      if ws[n].Covers(a) then n else LastCover(ws[..n], a)
  }

  /** A byte of the final store is the one the last covering write put there. */
  lemma {:induction false} LastCoverDecides(m: seq<byte>, ws: seq<Write>, a: nat)
    requires AllFit(ws, |m|) && a < |m|
    ensures var i := LastCover(ws, a);
            Apply(m, ws)[a] == if i < 0 then m[a] else ws[i].data[a - ws[i].addr]
  {
    if ws != [] {
      var n := |ws| - 1;
      LastCoverDecides(m, ws[..n], a);
    }
  }

  lemma {:induction false} ApplySnoc(m: seq<byte>, ws: seq<Write>, w: Write)
    requires AllFit(ws, |m|) && w.Fits(|m|)
    ensures AllFit(ws + [w], |m|)
    ensures Apply(m, ws + [w]) == ApplyOne(Apply(m, ws), w)
  {
    assert (ws + [w])[..|ws|] == ws;
  }

  lemma {:induction false} ApplyAppend(m: seq<byte>, ws: seq<Write>, vs: seq<Write>)
    requires AllFit(ws, |m|) && AllFit(vs, |m|)
    ensures AllFit(ws + vs, |m|)
    ensures Apply(m, ws + vs) == Apply(Apply(m, ws), vs)
  {
    if vs == [] {
      assert ws + vs == ws;
    } else {
      var n := |vs| - 1;
      ApplyAppend(m, ws, vs[..n]);
      assert ws + vs == (ws + vs[..n]) + [vs[n]];
      ApplySnoc(m, ws + vs[..n], vs[n]);
    }
  }

  /** Addresses that no write covers keep their byte. */
  lemma {:induction false} Untouched(m: seq<byte>, ws: seq<Write>, a: nat)
    requires AllFit(ws, |m|) && a < |m|
    requires forall w :: w in ws ==> !w.Covers(a)
    ensures Apply(m, ws)[a] == m[a]
  {
    LastCoverDecides(m, ws, a);
  }

  /** The disk behind DiskIo. Any access may fail; how many have is on record. */
  class Disk {
    ghost var failures: nat

    constructor ()
      ensures failures == 0
    {
      failures := 0;
    }

    /** DiskIo's WriteDisk: a failure may leave anything in the range it was to write. */
    method WriteDisk(store: array<byte>, at: nat, data: seq<byte>) returns (ok: bool)
      modifies this, store
      ensures failures == old(failures) + (if ok then 0 else 1)
      ensures ok ==> Write(at, data).Fits(store.Length) && store[..] == ApplyOne(old(store[..]), Write(at, data))
      ensures forall a :: 0 <= a < store.Length && !Write(at, data).Covers(a) ==> store[a] == old(store[a])
    {
      if at + |data| > store.Length {
        failures := failures + 1;
        return false;
      }
      ok := *;
      for k := 0 to |data|
        invariant failures == old(failures)
        invariant forall a :: 0 <= a < store.Length && !Write(at, data).Covers(a) ==> store[a] == old(store[a])
        invariant ok ==> forall a :: at <= a < at + k ==> store[a] == data[a - at]
      {
        store[at + k] := data[k];
        if !ok {
          store[at + k] := *;
        }
      }
      failures := failures + if ok then 0 else 1;
    }

    /** DiskIo's ReadDisk. */
    method ReadDisk(store: array<byte>, at: nat, n: nat) returns (ok: bool, data: seq<byte>)
      modifies this
      ensures failures == old(failures) + (if ok then 0 else 1)
      ensures ok ==> at + n <= store.Length && data == store[at..at + n]
      ensures !ok ==> data == []
    {
      ok := *;
      if !ok || at + n > store.Length {
        failures := failures + 1;
        return false, [];
      }
      data := store[at..at + n];
    }
  }
}
