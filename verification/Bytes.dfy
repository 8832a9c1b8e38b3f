/**
 Bytes and 32-bit words as bounded integers, with the two byte orders that the
 modelled formats use: little-endian for structures kept in flash or in an image
 file, big-endian for device-tree cells.
 */
module Bytes {

  const TWO_TO_THE_32: int := 0x1_0000_0000
  const TWO_TO_THE_64: int := 0x1_0000_0000_0000_0000

  type byte = x: int | 0 <= x < 0x100
  type word = x: int | 0 <= x < 0x1_0000_0000

  /** Assignment of an unbounded value to a UINT32. */
  function ToWord(x: int): word
  {
    x % TWO_TO_THE_32
  }

  /** The UINT64 difference `a - b`, which wraps when `b` is larger. */
  function Sub64(a: int, b: int): (d: nat)
    ensures 0 <= a - b < TWO_TO_THE_64 ==> d == a - b
  {
    (a - b) % TWO_TO_THE_64
  }

  function Zeros(n: nat): (s: seq<byte>)
    ensures |s| == n
    ensures forall i :: 0 <= i < n ==> s[i] == 0
  {
    seq(n, _ => 0)
  }

  /** A number with one more base-256 digit at its end. */
  function Shifted(high: nat, digit: byte): nat
  {
    high * 0x100 + digit
  }

  lemma {:induction false} ShiftedParts(high: nat, digit: byte)
    ensures Shifted(high, digit) / 0x100 == high && Shifted(high, digit) % 0x100 == digit
  {
  }

  /** The word with these four bytes, most significant first. */
  function Join(b3: byte, b2: byte, b1: byte, b0: byte): word
  {
    Shifted(Shifted(Shifted(b3, b2), b1), b0)
  }

  function Byte3(w: word): byte { w / 0x100 / 0x100 / 0x100 }
  function Byte2(w: word): byte { w / 0x100 / 0x100 % 0x100 }
  function Byte1(w: word): byte { w / 0x100 % 0x100 }
  function Byte0(w: word): byte { w % 0x100 }

  lemma {:induction false} JoinSplit(w: word)
    ensures Join(Byte3(w), Byte2(w), Byte1(w), Byte0(w)) == w
  {
  }

  lemma {:induction false} SplitJoin(b3: byte, b2: byte, b1: byte, b0: byte)
    ensures var w := Join(b3, b2, b1, b0);
            Byte3(w) == b3 && Byte2(w) == b2 && Byte1(w) == b1 && Byte0(w) == b0
  {
    ShiftedParts(b3, b2);
    ShiftedParts(Shifted(b3, b2), b1);
    ShiftedParts(Shifted(Shifted(b3, b2), b1), b0);
  }

  /** The four bytes of a word, least significant first. */
  function LittleEndian(w: word): (s: seq<byte>)
    ensures |s| == 4
  {
    [Byte0(w), Byte1(w), Byte2(w), Byte3(w)]
  }

  function FromLittleEndian(s: seq<byte>): word
    requires |s| == 4
  {
    Join(s[3], s[2], s[1], s[0])
  }

  /** The four bytes of a word, most significant first. */
  function BigEndian(w: word): (s: seq<byte>)
    ensures |s| == 4
  {
    [Byte3(w), Byte2(w), Byte1(w), Byte0(w)]
  }

  function FromBigEndian(s: seq<byte>): word
    requires |s| == 4
  {
    Join(s[0], s[1], s[2], s[3])
  }

  lemma {:induction false} LittleEndianInverse(w: word)
    ensures FromLittleEndian(LittleEndian(w)) == w
  {
    JoinSplit(w);
  }

  lemma {:induction false} FromLittleEndianInverse(s: seq<byte>)
    requires |s| == 4
    ensures LittleEndian(FromLittleEndian(s)) == s
  {
    SplitJoin(s[3], s[2], s[1], s[0]);
  }

  lemma {:induction false} BigEndianInverse(w: word)
    ensures FromBigEndian(BigEndian(w)) == w
  {
    JoinSplit(w);
  }

  lemma {:induction false} FromBigEndianInverse(s: seq<byte>)
    requires |s| == 4
    ensures BigEndian(FromBigEndian(s)) == s
  {
    SplitJoin(s[0], s[1], s[2], s[3]);
  }

  // ---------- Parts of a buffer ----------

  /** `t` lies in `s` at offset `p`. */
  predicate LiesAt(s: seq<byte>, p: nat, t: seq<byte>)
  {
    p + |t| <= |s| && s[p..p + |t|] == t
  }

  lemma {:induction false} LiesSplit(s: seq<byte>, p: nat, a: seq<byte>, b: seq<byte>)
    ensures LiesAt(s, p, a + b) <==> LiesAt(s, p, a) && LiesAt(s, p + |a|, b)
  {
    if LiesAt(s, p, a + b) {
      assert s[p..p + |a|] == (a + b)[..|a|] == a;
      assert s[p + |a|..p + |a| + |b|] == (a + b)[|a|..] == b;
    }
    if LiesAt(s, p, a) && LiesAt(s, p + |a|, b) {
      assert s[p..p + |a + b|] == s[p..p + |a|] + s[p + |a|..p + |a| + |b|];
    }
  }
}
