/**
 The boot monitor's 32-bit checksum: a sum of words in which the carry out of bit
 31 is added back in, complemented at the end.
 */
module BootMonChecksum {
  import opened Bytes

  const MAX_WORD: word := 0xFFFF_FFFF

  function Sum(ws: seq<word>): (s: nat)
  {
    if ws == [] then 0 else Sum(ws[..|ws| - 1]) + ws[|ws| - 1]
  }

  /** The 32-bit representative of `s` modulo 2^32 - 1, where only 0 itself is represented by 0. */
  function EndAround(s: nat): word
  {
    if s == 0 then 0 else 1 + (s - 1) % MAX_WORD
  }

  function Checksum(ws: seq<word>): word
  {
    MAX_WORD - EndAround(Sum(ws))
  }

  /** The word that congruence and zero-preservation leave as the only choice is EndAround's. */
  lemma {:induction false} EndAroundUnique(s: nat, r: word)
    ensures r == EndAround(s) <==> r % MAX_WORD == s % MAX_WORD && (r == 0 <==> s == 0)
  {
    if s > 0 {
      var q := (s - 1) / MAX_WORD;
      assert s - 1 == q * MAX_WORD + (s - 1) % MAX_WORD;
      assert s == q * MAX_WORD + EndAround(s);
      ModOffset(q, EndAround(s));
    }
  }

  lemma {:induction false} ModOffset(q: nat, r: nat)
    requires r <= MAX_WORD
    ensures (q * MAX_WORD + r) % MAX_WORD == r % MAX_WORD
  {
    if r == MAX_WORD {
      assert q * MAX_WORD + r == (q + 1) * MAX_WORD;
    }
  }

  /** Equal representatives: congruent sums that are zero together. */
  lemma {:induction false} EndAroundEqual(s: nat, t: nat)
    ensures EndAround(s) == EndAround(t) <==> s % MAX_WORD == t % MAX_WORD && (s == 0 <==> t == 0)
  {
    EndAroundUnique(s, EndAround(s));
    EndAroundUnique(t, EndAround(t));
    EndAroundUnique(s, EndAround(t));
  }

  /** Adding one word to a representative, with the carry added back in. */
  lemma {:induction false} EndAroundAdd(s: nat, w: word)
    ensures EndAround(s + w) == if w > MAX_WORD - EndAround(s) then EndAround(s) + w - MAX_WORD else EndAround(s) + w
  {
    var r := if w > MAX_WORD - EndAround(s) then EndAround(s) + w - MAX_WORD else EndAround(s) + w;
    EndAroundUnique(s, EndAround(s));
    EndAroundUnique(s + w, r);
  }

  /** The accumulation loop, with every assignment to a 32-bit variable wrapping. */
  method BootMonFsChecksum(data: seq<word>) returns (checksum: word)
    ensures checksum == Checksum(data)
  {
    var acc: word := 0;
    var ptr := 0;
    var size := 4 * |data|;
    while size > 0
      invariant 0 <= ptr <= |data| && size == 4 * (|data| - ptr)
      invariant acc == EndAround(Sum(data[..ptr]))
    {
      var current := data[ptr];
      EndAroundAdd(Sum(data[..ptr]), current);
      assert data[..ptr + 1][..ptr] == data[..ptr];
      ptr := ptr + 1;
      size := size - 4;
      if current > MAX_WORD - acc {
        acc := ToWord(acc + 1);
      }
      acc := ToWord(acc + current);
    }
    assert data[..ptr] == data;
    return MAX_WORD - acc;
  }

  lemma {:induction false} SumUpdate(ws: seq<word>, k: nat, v: word)
    requires k < |ws|
    ensures Sum(ws[k := v]) == Sum(ws) - ws[k] + v
    ensures Sum(ws) >= ws[k]
  {
    var n := |ws| - 1;
    if k < n {
      SumUpdate(ws[..n], k, v);
      assert ws[k := v][..n] == ws[..n][k := v];
    } else {
      assert ws[k := v][..n] == ws[..n];
    }
  }

  lemma {:induction false} SumRemove(ws: seq<word>, k: nat)
    requires k < |ws|
    ensures Sum(ws) == Sum(ws[..k] + ws[k + 1..]) + ws[k]
  {
    var n := |ws| - 1;
    var rest := ws[..k] + ws[k + 1..];
    if k < n {
      SumRemove(ws[..n], k);
      assert rest[..n - 1] == ws[..n][..k] + ws[..n][k + 1..];
      assert rest[n - 1] == ws[n];
    } else {
      assert rest == ws[..n];
    }
  }

  lemma {:induction false} RemoveOne(b: seq<word>, k: nat)
    requires k < |b|
    ensures multiset(b[..k] + b[k + 1..]) == multiset(b) - multiset{b[k]}
  {
    assert b == b[..k] + [b[k]] + b[k + 1..];
  }

  /** The checksum does not depend on the order of the words. */
  lemma {:induction false} OrderIndependent(a: seq<word>, b: seq<word>)
    requires multiset(a) == multiset(b)
    ensures Sum(a) == Sum(b)
    ensures Checksum(a) == Checksum(b)
    decreases |a|
  {
    if a == [] {
      assert |b| == |multiset(b)| == 0;
    } else {
      var n := |a| - 1;
      assert a == a[..n] + [a[n]];
      assert a[n] in multiset(b);
      var k :| 0 <= k < |b| && b[k] == a[n];
      var rest := b[..k] + b[k + 1..];
      RemoveOne(b, k);
      assert multiset(a[..n]) == multiset(a) - multiset{a[n]};
      OrderIndependent(a[..n], rest);
      SumRemove(b, k);
    }
  }

  lemma {:induction false} ZeroSum(ws: seq<word>)
    ensures Sum(ws) == 0 <==> forall i :: 0 <= i < |ws| ==> ws[i] == 0
  {
    if ws != [] {
      var n := |ws| - 1;
      ZeroSum(ws[..n]);
      assert forall i :: 0 <= i < n ==> ws[..n][i] == ws[i];
    }
  }

  /** The accumulator is zero, and the checksum all ones, only for all-zero data. */
  lemma {:induction false} AllOnesOnlyForZeros(ws: seq<word>)
    ensures Checksum(ws) == MAX_WORD <==> forall i :: 0 <= i < |ws| ==> ws[i] == 0
  {
    ZeroSum(ws);
  }

  /** Storing the checksum in a slot that was zero makes the whole sum all ones, whose checksum is 0. */
  lemma {:induction false} SelfChecking(ws: seq<word>, k: nat)
    requires k < |ws| && ws[k] == 0
    ensures EndAround(Sum(ws[k := Checksum(ws)])) == MAX_WORD
    ensures Checksum(ws[k := Checksum(ws)]) == 0
  {
    var s := Sum(ws);
    SumUpdate(ws, k, Checksum(ws));
    EndAroundUnique(s, EndAround(s));
    EndAroundUnique(s + Checksum(ws), MAX_WORD);
  }

  /** Which single-word changes escape the checksum: exactly a swap of 0 and 0xFFFFFFFF beside a non-zero word. */
  lemma {:induction false} SingleWordDetection(ws: seq<word>, k: nat, v: word)
    requires k < |ws|
    ensures Checksum(ws[k := v]) == Checksum(ws) <==>
            v == ws[k] || (Sum(ws) > ws[k] && ((v == 0 && ws[k] == MAX_WORD) || (v == MAX_WORD && ws[k] == 0)))
  {
    var s, t := Sum(ws), Sum(ws[k := v]);
    SumUpdate(ws, k, v);
    EndAroundEqual(s, t);
    var rest: nat := s - ws[k];
    ModEqual(rest, ws[k], v);
  }

  lemma {:induction false} ModEqual(rest: nat, a: word, b: word)
    ensures (rest + a) % MAX_WORD == (rest + b) % MAX_WORD <==> a == b || (a == 0 && b == MAX_WORD) || (a == MAX_WORD && b == 0)
  {
    var p, q := (rest + a) / MAX_WORD, (rest + b) / MAX_WORD;
    if (rest + a) % MAX_WORD == (rest + b) % MAX_WORD {
      assert a - b == (p - q) * MAX_WORD;
    }
  }
}
