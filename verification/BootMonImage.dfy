/**
 The image description that a boot monitor file keeps in the last 136 bytes of its
 last block: its layout as 34 little-endian words, its footer checksum and the test
 that recognises one.
 */
module BootMonImage {
  import opened Bytes
  import opened BootMonChecksum

  const DESCRIPTION_SIZE: nat := 136
  const DESCRIPTION_WORDS: nat := 34
  const CHECKSUM_SLOT: nat := 21
  const REGION_MAX: nat := 4
  const MAX_NAME_LENGTH: nat := 32

  const FOOTER_SIGNATURE_1: word := 0x464C5348
  const FOOTER_SIGNATURE_2: word := 0x464F4F54
  const FOOTER_VERSION: word := 1
  const FOOTER_OFFSET: word := 92
  const FOOTER_VERSION2: word := 2
  const FOOTER_OFFSET2: word := 96

  datatype ImageRegion = ImageRegion(loadAddress: word, size: word, offset: word, checksum: word)

  datatype RawDescription = Description(
    entryPoint: word,
    attributes: word,
    regionCount: word,
    regions: seq<ImageRegion>,
    blockStart: word,
    blockEnd: word,
    footerChecksum: word,
    filename: seq<byte>,
    offset: word,
    version: word,
    signature1: word,
    signature2: word)

  type Description = d: RawDescription | |d.regions| == REGION_MAX && |d.filename| == MAX_NAME_LENGTH
    witness Description(0, 0, 0, [NO_REGION, NO_REGION, NO_REGION, NO_REGION], 0, 0, 0, Zeros(32), 0, 0, 0, 0)

  const NO_REGION: ImageRegion := ImageRegion(0, 0, 0, 0)

  /** What a zero-allocated file record holds. */
  const NO_DESCRIPTION: Description :=
    Description(0, 0, 0, [NO_REGION, NO_REGION, NO_REGION, NO_REGION], 0, 0, 0, Zeros(MAX_NAME_LENGTH), 0, 0, 0, 0)

  // ---------- Layout ----------

  function RegionWords(r: ImageRegion): seq<word>
  {
    [r.loadAddress, r.size, r.offset, r.checksum]
  }

  function NameWords(name: seq<byte>): (ws: seq<word>)
    requires |name| == MAX_NAME_LENGTH
    ensures |ws| == 8
  {
    seq(8, i requires 0 <= i < 8 => FromLittleEndian(name[4 * i..4 * i + 4]))
  }

  /** The description as the array of words that the checksum runs over. */
  function Words(d: Description): (ws: seq<word>)
    ensures |ws| == DESCRIPTION_WORDS
    ensures ws[CHECKSUM_SLOT] == d.footerChecksum
  {
    [d.entryPoint, d.attributes, d.regionCount]
    + RegionWords(d.regions[0]) + RegionWords(d.regions[1]) + RegionWords(d.regions[2]) + RegionWords(d.regions[3])
    + [d.blockStart, d.blockEnd, d.footerChecksum]
    + NameWords(d.filename)
    + [d.offset, d.version, d.signature1, d.signature2]
  }

  function FromWords(ws: seq<word>): Description
    requires |ws| == DESCRIPTION_WORDS
  {
    Description(
      ws[0], ws[1], ws[2],
      seq(REGION_MAX, i requires 0 <= i < REGION_MAX =>
        ImageRegion(ws[3 + 4 * i], ws[4 + 4 * i], ws[5 + 4 * i], ws[6 + 4 * i])),
      ws[19], ws[20], ws[21],
      Flatten(ws[22..30]),
      ws[30], ws[31], ws[32], ws[33])
  }

  function Flatten(ws: seq<word>): (s: seq<byte>)
    ensures |s| == 4 * |ws|
  {
    seq(4 * |ws|, i requires 0 <= i < 4 * |ws| => LittleEndian(ws[i / 4])[i % 4])
  }

  function Unflatten(s: seq<byte>): (ws: seq<word>)
    requires |s| % 4 == 0
    ensures |ws| == |s| / 4
  {
    seq(|s| / 4, i requires 0 <= i < |s| / 4 => FromLittleEndian(s[4 * i..4 * i + 4]))
  }

  /** The bytes of a description as they lie in flash. */
  function Encode(d: Description): (s: seq<byte>)
    ensures |s| == DESCRIPTION_SIZE
  {
    Flatten(Words(d))
  }

  function Decode(s: seq<byte>): Description
    requires |s| == DESCRIPTION_SIZE
  {
    FromWords(Unflatten(s))
  }

  lemma {:induction false} FlattenAt(ws: seq<word>, i: nat)
    requires i < |ws|
    ensures Flatten(ws)[4 * i..4 * i + 4] == LittleEndian(ws[i])
  {
    forall k | 0 <= k < 4
      ensures Flatten(ws)[4 * i + k] == LittleEndian(ws[i])[k]
    {
      assert (4 * i + k) / 4 == i && (4 * i + k) % 4 == k;
    }
  }

  lemma {:induction false} UnflattenFlatten(ws: seq<word>)
    ensures Unflatten(Flatten(ws)) == ws
  {
    var s := Flatten(ws);
    forall i | 0 <= i < |ws|
      ensures FromLittleEndian(s[4 * i..4 * i + 4]) == ws[i]
    {
      FlattenAt(ws, i);
      LittleEndianInverse(ws[i]);
    }
  }

  lemma {:induction false} FlattenUnflatten(s: seq<byte>)
    requires |s| % 4 == 0
    ensures Flatten(Unflatten(s)) == s
  {
    var ws := Unflatten(s);
    forall i | 0 <= i < |s|
      ensures LittleEndian(ws[i / 4])[i % 4] == s[i]
    {
      var j := i / 4;
      FromLittleEndianInverse(s[4 * j..4 * j + 4]);
    }
  }

  lemma {:induction false} FromWordsInverse(d: Description)
    ensures FromWords(Words(d)) == d
  {
    assert Words(d)[22..30] == NameWords(d.filename) == Unflatten(d.filename);
    FlattenUnflatten(d.filename);
  }

  lemma {:induction false} WordsInverse(ws: seq<word>)
    requires |ws| == DESCRIPTION_WORDS
    ensures Words(FromWords(ws)) == ws
  {
    UnflattenFlatten(ws[22..30]);
    assert NameWords(FromWords(ws).filename) == Unflatten(Flatten(ws[22..30])) == ws[22..30];
  }

  /** Encode and Decode are inverse bijections between descriptions and 136-byte strings. */
  lemma {:induction false} CodecInverse(d: Description, s: seq<byte>)
    requires |s| == DESCRIPTION_SIZE
    ensures Decode(Encode(d)) == d
    ensures Encode(Decode(s)) == s
  {
    UnflattenFlatten(Words(d));
    FromWordsInverse(d);
    WordsInverse(Unflatten(s));
    FlattenUnflatten(s);
  }

  // ---------- Footer checksum ----------

  /** The copy that is summed: no old checksum, and only the regions in use. */
  function Blanked(d: Description): Description
  {
    d.(footerChecksum := 0,
       regions := seq(REGION_MAX, i requires 0 <= i < REGION_MAX => if i < d.regionCount then d.regions[i] else NO_REGION))
  }

  /** The description with its Attributes and FooterChecksum fields brought up to date. */
  function WithChecksum(d: Description): (u: Description)
    ensures u == d.(attributes := 1, footerChecksum := u.footerChecksum)
  {
    var a := d.(attributes := 1);
    a.(footerChecksum := Checksum(Words(Blanked(a))))
  }

  method BootMonFsComputeFooterChecksum(footer: Description) returns (updated: Description)
    ensures updated == WithChecksum(footer)
  {
    updated := footer.(attributes := 1);
    var description: Description := updated.(footerChecksum := 0);
    var index: int := updated.regionCount;
    while index < REGION_MAX
      invariant updated.regionCount <= index
      invariant |description.regions| == REGION_MAX
      invariant description == updated.(footerChecksum := 0, regions := description.regions)
      invariant forall i :: 0 <= i < REGION_MAX ==>
        description.regions[i] == if updated.regionCount <= i < index then NO_REGION else updated.regions[i]
    {
      description := description.(regions := description.regions[index := NO_REGION]);
      index := index + 1;
    }
    assert description == Blanked(updated);
    var checksum := BootMonFsChecksum(Words(description));
    updated := updated.(footerChecksum := checksum);
  }

  /** The checksum ignores Attributes, the old checksum and every unused region. */
  lemma {:induction false} ChecksumIgnores(d: Description, e: Description)
    requires e == d.(attributes := e.attributes, footerChecksum := e.footerChecksum, regions := e.regions)
    requires forall i :: 0 <= i < REGION_MAX && i < d.regionCount ==> d.regions[i] == e.regions[i]
    ensures WithChecksum(d).footerChecksum == WithChecksum(e).footerChecksum
  {
    assert Blanked(d.(attributes := 1)) == Blanked(e.(attributes := 1));
  }

  lemma {:induction false} ChecksumIdempotent(d: Description)
    ensures WithChecksum(WithChecksum(d)) == WithChecksum(d)
  {
    ChecksumIgnores(d, WithChecksum(d));
  }

  /** Summing a checksummed description, checksum included, gives all ones. */
  lemma {:induction false} ChecksumSelfChecking(d: Description)
    ensures var u := WithChecksum(d);
            Checksum(Words(Blanked(u).(footerChecksum := u.footerChecksum))) == 0
  {
    var u := WithChecksum(d);
    var b := Blanked(d.(attributes := 1));
    assert Blanked(u) == b;
    assert Words(b.(footerChecksum := u.footerChecksum)) == Words(b)[CHECKSUM_SLOT := u.footerChecksum];
    SelfChecking(Words(b), CHECKSUM_SLOT);
  }

  // ---------- Recognition ----------

  predicate FooterMatches(d: Description)
  {
    && d.signature1 == FOOTER_SIGNATURE_1
    && d.signature2 == FOOTER_SIGNATURE_2
    && ((d.version == FOOTER_VERSION && d.offset == FOOTER_OFFSET)
        || (d.version == FOOTER_VERSION2 && d.offset == FOOTER_OFFSET2))
  }

  predicate IsImage(d: Description, lba: nat)
  {
    FooterMatches(d) && d.blockEnd == lba && d.blockStart <= d.blockEnd
  }

  /** "HSLFTOOF", the bytes of the two signature words. */
  const SIGNATURE_BYTES: seq<byte> := [0x48, 0x53, 0x4C, 0x46, 0x54, 0x4F, 0x4F, 0x46]

  /**
   The test in terms of the bytes in flash: the signature, the offset and the version of
   either footer, and a block range that ends at this block.
   */
  lemma {:induction false} ImageBytes(s: seq<byte>, lba: nat)
    requires |s| == DESCRIPTION_SIZE
    ensures IsImage(Decode(s), lba) <==>
            && s[128..] == SIGNATURE_BYTES
            && (s[120..128] == [92, 0, 0, 0, 1, 0, 0, 0] || s[120..128] == [96, 0, 0, 0, 2, 0, 0, 0])
            && FromLittleEndian(s[80..84]) == lba && FromLittleEndian(s[76..80]) <= lba
  {
    hide FromLittleEndian;
    WordBytes(s[120..124], FOOTER_OFFSET, [92, 0, 0, 0]);
    WordBytes(s[120..124], FOOTER_OFFSET2, [96, 0, 0, 0]);
    WordBytes(s[124..128], FOOTER_VERSION, [1, 0, 0, 0]);
    WordBytes(s[124..128], FOOTER_VERSION2, [2, 0, 0, 0]);
    WordBytes(s[128..132], FOOTER_SIGNATURE_1, [0x48, 0x53, 0x4C, 0x46]);
    WordBytes(s[132..136], FOOTER_SIGNATURE_2, [0x54, 0x4F, 0x4F, 0x46]);
    assert s[120..128] == s[120..124] + s[124..128] && s[128..] == s[128..132] + s[132..136];
    assert SIGNATURE_BYTES == [0x48, 0x53, 0x4C, 0x46] + [0x54, 0x4F, 0x4F, 0x46];
    assert [92, 0, 0, 0, 1, 0, 0, 0] == [92, 0, 0, 0] + [1, 0, 0, 0] && [96, 0, 0, 0, 2, 0, 0, 0] == [96, 0, 0, 0] + [2, 0, 0, 0];
    SamePair(s[120..124], s[124..128], [92, 0, 0, 0], [1, 0, 0, 0]);
    SamePair(s[120..124], s[124..128], [96, 0, 0, 0], [2, 0, 0, 0]);
    SamePair(s[128..132], s[132..136], [0x48, 0x53, 0x4C, 0x46], [0x54, 0x4F, 0x4F, 0x46]);
  }

  lemma {:induction false} SamePair(a: seq<byte>, b: seq<byte>, c: seq<byte>, d: seq<byte>)
    requires |a| == |c|
    ensures a + b == c + d <==> a == c && b == d
  {
    assert a + b == c + d ==> a == (a + b)[..|a|] == c && b == (a + b)[|a|..] == d;
  }

  lemma {:induction false} WordBytes(s: seq<byte>, w: word, bytes: seq<byte>)
    requires |s| == 4 && |bytes| == 4 && LittleEndian(w) == bytes
    ensures FromLittleEndian(s) == w <==> s == bytes
  {
    FromLittleEndianInverse(s);
    LittleEndianInverse(w);
  }

  /** The validity test; it refreshes the checksum in place and only reports a mismatch of the old one. */
  method BootMonFsIsImageValid(desc: Description, lba: nat) returns (valid: bool, updated: Description, mismatch: bool)
    ensures valid == IsImage(desc, lba)
    ensures updated == if FooterMatches(desc) then WithChecksum(desc) else desc
    ensures mismatch == (updated.footerChecksum != desc.footerChecksum)
  {
    updated := desc;
    mismatch := false;
    if desc.signature1 != FOOTER_SIGNATURE_1 || desc.signature2 != FOOTER_SIGNATURE_2 {
      return false, updated, mismatch;
    }
    if desc.version == FOOTER_VERSION {
      if desc.offset != FOOTER_OFFSET {
        return false, updated, mismatch;
      }
    } else if desc.version == FOOTER_VERSION2 {
      if desc.offset != FOOTER_OFFSET2 {
        return false, updated, mismatch;
      }
    } else {
      return false, updated, mismatch;
    }
    var checksum := desc.footerChecksum;
    updated := BootMonFsComputeFooterChecksum(updated);
    mismatch := updated.footerChecksum != checksum;
    if updated.blockEnd != lba || updated.blockStart > updated.blockEnd {
      return false, updated, mismatch;
    }
    return true, updated, mismatch;
  }

  // ---------- Names ----------

  /** A string that a CHAR8 buffer of MAX_NAME_LENGTH can hold with its terminator. */
  predicate IsName(name: seq<byte>)
  {
    |name| < MAX_NAME_LENGTH && 0 !in name
  }

  /** AsciiStrCpyS into the footer: the bytes behind the terminator keep their old contents. */
  function CopyName(field: seq<byte>, name: seq<byte>): (f: seq<byte>)
    requires |field| == MAX_NAME_LENGTH && |name| < MAX_NAME_LENGTH
    ensures |f| == MAX_NAME_LENGTH
  {
    name + [0] + field[|name| + 1..]
  }

  /** The string a character field holds, up to its first NUL. */
  function NameOf(field: seq<byte>): (name: seq<byte>)
    ensures 0 !in name && |name| <= |field|
  {
    if field == [] || field[0] == 0 then [] else [field[0]] + NameOf(field[1..])
  }

  lemma {:induction false} NameOfCopy(field: seq<byte>, name: seq<byte>, rest: seq<byte>)
    requires 0 !in name
    requires field == name + [0] + rest
    ensures NameOf(field) == name
  {
    if name != [] {
      assert field[0] == name[0] && name[0] in name;
      assert field[1..] == name[1..] + [0] + rest;
      NameOfCopy(field[1..], name[1..], rest);
    }
  }

  // ---------- Construction ----------

  /** The fields that WriteFileDescription fills in, with its 32-bit truncations. */
  function Draft(hw: Description, name: seq<byte>, dataSize: nat, fileStart: nat, blockSize: nat): Description
    requires blockSize > 0 && IsName(name)
  {
    var size := ToWord(dataSize);
    var blockStart := ToWord(fileStart / blockSize);
    hw.(attributes := 1,
        blockStart := blockStart,
        blockEnd := ToWord(blockStart + ToWord(size + DESCRIPTION_SIZE) / blockSize),
        filename := CopyName(hw.filename, name),
        offset := FOOTER_OFFSET2,
        version := FOOTER_VERSION2,
        signature1 := FOOTER_SIGNATURE_1,
        signature2 := FOOTER_SIGNATURE_2,
        regionCount := 1,
        regions := hw.regions[0 := hw.regions[0].(checksum := 0, offset := ToWord(blockStart * blockSize), size := size)])
  }

  /** The description that WriteFileDescription leaves in the file record and writes to flash. */
  function Describe(hw: Description, name: seq<byte>, dataSize: nat, fileStart: nat, blockSize: nat): Description
    requires blockSize > 0 && IsName(name)
  {
    WithChecksum(Draft(hw, name, dataSize, fileStart, blockSize))
  }

  /** A description just written is recognised, is stable under rechecking and carries the name. */
  lemma {:induction false} DescribeIsImage(hw: Description, name: seq<byte>, dataSize: nat, fileStart: nat, blockSize: nat)
    requires blockSize > 0 && IsName(name)
    ensures var d := Describe(hw, name, dataSize, fileStart, blockSize);
            && WithChecksum(d) == d
            && FooterMatches(d)
            && d.attributes == 1 && d.regionCount == 1
            && d.regions[0] == hw.regions[0].(checksum := 0, offset := d.regions[0].offset, size := d.regions[0].size)
            && d.regions[1..] == hw.regions[1..] && d.entryPoint == hw.entryPoint
            && NameOf(d.filename) == name
  {
    NameOfCopy(CopyName(hw.filename, name), name, hw.filename[|name| + 1..]);
    ChecksumIdempotent(Draft(hw, name, dataSize, fileStart, blockSize));
  }

  /** The block range and size it records, when nothing is truncated. */
  lemma {:induction false} DescribeRange(hw: Description, name: seq<byte>, dataSize: nat, fileStart: nat, blockSize: nat)
    requires blockSize > 0 && IsName(name)
    requires dataSize + DESCRIPTION_SIZE < TWO_TO_THE_32
    requires fileStart / blockSize + (dataSize + DESCRIPTION_SIZE) / blockSize < TWO_TO_THE_32
    ensures var d := Describe(hw, name, dataSize, fileStart, blockSize);
            && d.blockStart == fileStart / blockSize
            && d.blockEnd == fileStart / blockSize + (dataSize + DESCRIPTION_SIZE) / blockSize
            && d.regions[0].size == dataSize
  {
    var q, b := (dataSize + DESCRIPTION_SIZE) / blockSize, fileStart / blockSize;
    DivNonNegative(dataSize + DESCRIPTION_SIZE, blockSize);
    DivNonNegative(fileStart, blockSize);
    assert ToWord(b) == b && ToWord(dataSize) == dataSize && ToWord(dataSize + DESCRIPTION_SIZE) == dataSize + DESCRIPTION_SIZE;
    assert ToWord(b + q) == b + q;
  }

  /** And the address of the data. */
  lemma {:induction false} DescribeOffset(hw: Description, name: seq<byte>, dataSize: nat, fileStart: nat, blockSize: nat)
    requires blockSize > 0 && IsName(name) && fileStart % blockSize == 0 && fileStart < TWO_TO_THE_32
    ensures Describe(hw, name, dataSize, fileStart, blockSize).regions[0].offset == fileStart
  {
    hide CopyName, WithChecksum;
    var q := fileStart / blockSize;
    Quotient(fileStart, blockSize);
    assert ToWord(q) == q && ToWord(q * blockSize) == fileStart;
    var draft := Draft(hw, name, dataSize, fileStart, blockSize);
    assert draft.regions[0].offset == ToWord(ToWord(q) * blockSize);
    assert WithChecksum(draft).regions == draft.regions;
  }

  lemma {:induction false} Quotient(a: nat, b: nat)
    requires b > 0 && a % b == 0
    ensures 0 <= a / b <= a && a / b * b == a
  {
    var q := a / b;
    assert a == b * q;
    if q < 0 {
      Negative(b, q);
    } else {
      AtLeast(b, q);
    }
  }

  lemma {:induction false} Negative(b: nat, q: int)
    requires b > 0 && q < 0
    ensures b * q < 0
  {
  }

  lemma {:induction false} AtLeast(b: nat, q: nat)
    requires b > 0
    ensures b * q >= q
  {
    assert (b - 1) * q >= 0;
  }

  lemma {:induction false} DivNonNegative(a: nat, b: nat)
    requires b > 0
    ensures a / b >= 0
  {
  }
}
