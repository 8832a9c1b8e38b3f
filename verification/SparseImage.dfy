/**
 Writing a sparse Android image to a partition: raw chunks go to their expanded
 offsets, don't-care chunks are skipped over.
 */
module SparseImage {
  import opened Bytes
  import opened ByteStore

  const SPARSE_HEADER_MAGIC: word := 0xED26FF3A
  const CHUNK_TYPE_RAW: nat := 0xCAC1
  const CHUNK_TYPE_FILL: nat := 0xCAC2
  const CHUNK_TYPE_DONT_CARE: nat := 0xCAC3
  const CHUNK_TYPE_CRC32: nat := 0xCAC4
  const SPARSE_HEADER_SIZE: nat := 28
  const CHUNK_HEADER_SIZE: nat := 12

  /** `Outside` is a read beyond the image, which the code does not check for. */
  datatype Status = Success | InvalidParameter | VolumeFull | ProtocolError | DeviceError | Outside

  // ---------- The format ----------

  function Half(w: nat): (s: seq<byte>)
    requires w < 0x1_0000
    ensures |s| == 2
  {
    [w % 0x100, w / 0x100]
  }

  function ReadHalf(image: seq<byte>, p: nat): nat
    requires p + 2 <= |image|
  {
    Shifted(image[p + 1], image[p])
  }

  function ReadWord(image: seq<byte>, p: nat): word
    requires p + 4 <= |image|
  {
    FromLittleEndian(image[p..p + 4])
  }

  datatype Header = Header(major: nat, fileHeaderSize: nat, blockSize: word, totalBlocks: word, totalChunks: word)

  /** The image announces itself as sparse. */
  predicate IsSparse(image: seq<byte>)
  {
    |image| >= 4 && ReadWord(image, 0) == SPARSE_HEADER_MAGIC
  }

  function ReadHeader(image: seq<byte>): Header
    requires |image| >= SPARSE_HEADER_SIZE
  {
    Header(ReadHalf(image, 4), ReadHalf(image, 8), ReadWord(image, 12), ReadWord(image, 16), ReadWord(image, 20))
  }

  /** BlockSize times a block count, in 32 bits. */
  function Bytes32(blockSize: word, blocks: word): word
  {
    ToWord(blockSize * blocks)
  }

  /** OpenPartition's checks on an image for a partition of the given size. */
  function OpenCheck(image: seq<byte>, partition: nat): Status
  {
    if |image| < 4 then Outside
    else if !IsSparse(image) then (if partition < |image| then VolumeFull else Success)
    else if |image| < SPARSE_HEADER_SIZE then Outside
    else
      var h := ReadHeader(image);
      if h.major != 1 then InvalidParameter
      else if partition < Bytes32(h.blockSize, h.totalBlocks) then VolumeFull
      else Success
  }

  // ---------- Expansion ----------

  /** The disk writes an image asks for, the blocks its chunk headers claim, and how reading it ends. */
  datatype Expansion = Expansion(writes: seq<Write>, blocks: nat, status: Status)

  /** The chunk loop with `n` chunks to go, the cursor at `p` and the disk offset at `offset`. */
  function Expand(image: seq<byte>, blockSize: word, n: nat, p: nat, offset: nat): Expansion
    decreases n
  {
    if n == 0 then Expansion([], 0, Success)
    else if p + CHUNK_HEADER_SIZE > |image| then Expansion([], 0, Outside)
    else
      var kind, blocks := ReadHalf(image, p), ReadWord(image, p + 4);
      var q, size := p + CHUNK_HEADER_SIZE, Bytes32(blockSize, blocks);
      if kind == CHUNK_TYPE_RAW then
        if q + size > |image| then Expansion([], blocks, Outside)
        else
          var rest := Expand(image, blockSize, n - 1, q + size, offset + size);
          Expansion([Write(offset, image[q..q + size])] + rest.writes, blocks + rest.blocks, rest.status)
      else if kind == CHUNK_TYPE_DONT_CARE || kind == CHUNK_TYPE_CRC32 then
        var rest := Expand(image, blockSize, n - 1, q, offset + size);
        Expansion(rest.writes, blocks + rest.blocks, rest.status)
      else
        Expansion([], blocks, ProtocolError)
  }

  function ExpandImage(image: seq<byte>): Expansion
    requires |image| >= 4 && (IsSparse(image) ==> |image| >= SPARSE_HEADER_SIZE)
  {
    if IsSparse(image) then
      var h := ReadHeader(image);
      Expand(image, h.blockSize, h.totalChunks, h.fileHeaderSize, 0)
    else Expansion([Write(0, image)], 0, Success)
  }

  lemma {:induction false} ProductSplit(a: nat, b: nat, c: nat)
    ensures a * (b + c) == a * b + a * c
    ensures a * b <= a * (b + c)
  {
  }

  /** All the writes lie between two disk offsets. */
  predicate WritesIn(ws: seq<Write>, from: nat, to: nat)
  {
    forall w | w in ws :: from <= w.addr && w.addr + |w.data| <= to
  }

  lemma {:induction false} WritesInWider(ws: seq<Write>, from: nat, to: nat, from': nat, to': nat)
    requires WritesIn(ws, from, to) && from' <= from && to <= to'
    ensures WritesIn(ws, from', to')
  {
  }

  /** Block counts below 4 GiB add up without wrapping. */
  lemma {:induction false} ClaimSplits(blockSize: word, blocks: word, rest: nat)
    requires blockSize * (blocks + rest) < TWO_TO_THE_32
    ensures blockSize * rest < TWO_TO_THE_32
    ensures Bytes32(blockSize, blocks) + blockSize * rest == blockSize * (blocks + rest)
  {
    ProductSplit(blockSize, blocks, rest);
    ProductSplit(blockSize, rest, blocks);
  }

  /** No write goes past the blocks that the chunk headers claim, when those are below 4 GiB in all. */
  lemma {:induction false} WritesWithinClaim(image: seq<byte>, blockSize: word, n: nat, p: nat, offset: nat)
    requires blockSize * Expand(image, blockSize, n, p, offset).blocks < TWO_TO_THE_32
    ensures blockSize * Expand(image, blockSize, n, p, offset).blocks >= 0
    ensures WritesIn(Expand(image, blockSize, n, p, offset).writes, offset, offset + blockSize * Expand(image, blockSize, n, p, offset).blocks)
    decreases n
  {
    hide ReadHalf, ReadWord, Bytes32, WritesIn;
    assert WritesIn([], offset, offset + blockSize * Expand(image, blockSize, n, p, offset).blocks) by { NoneIn(offset, offset + blockSize * Expand(image, blockSize, n, p, offset).blocks); }
    if n > 0 && p + CHUNK_HEADER_SIZE <= |image| {
      var kind, blocks := ReadHalf(image, p), ReadWord(image, p + 4);
      var q, size := p + CHUNK_HEADER_SIZE, Bytes32(blockSize, blocks);
      if kind == CHUNK_TYPE_RAW && q + size <= |image| {
        var rest := Expand(image, blockSize, n - 1, q + size, offset + size);
        ClaimSplits(blockSize, blocks, rest.blocks);
        WritesWithinClaim(image, blockSize, n - 1, q + size, offset + size);
        WriteCons(Write(offset, image[q..q + size]), rest.writes, offset + size, offset + size + blockSize * rest.blocks);
      } else if kind == CHUNK_TYPE_DONT_CARE || kind == CHUNK_TYPE_CRC32 {
        var rest := Expand(image, blockSize, n - 1, q, offset + size);
        ClaimSplits(blockSize, blocks, rest.blocks);
        WritesWithinClaim(image, blockSize, n - 1, q, offset + size);
        WritesInWider(rest.writes, offset + size, offset + size + blockSize * rest.blocks, offset, offset + size + blockSize * rest.blocks);
      }
    }
  }

  lemma {:induction false} NoneIn(from: nat, to: nat)
    ensures WritesIn([], from, to)
  {
  }

  /** A write, and others behind it. */
  lemma {:induction false} WriteCons(w: Write, ws: seq<Write>, from: nat, to: nat)
    requires WritesIn(ws, from, to) && w.addr + |w.data| == from && from <= to
    ensures WritesIn([w] + ws, w.addr, to)
  {
  }

  /**
   For any sparse image whose chunk sizes sum to TotalBlocks, with less than 4 GiB in
   all, every write stays within the size that was checked against the partition.
   */
  lemma {:induction false} NeverPastChecked(image: seq<byte>, partition: nat)
    requires IsSparse(image) && OpenCheck(image, partition) == Success
    requires var h := ReadHeader(image);
             h.blockSize * h.totalBlocks < TWO_TO_THE_32 && ExpandImage(image).blocks == h.totalBlocks
    ensures AllFit(ExpandImage(image).writes, partition)
  {
    hide Expand, ReadHeader, IsSparse;
    var h := ReadHeader(image);
    WritesWithinClaim(image, h.blockSize, h.totalChunks, h.fileHeaderSize, 0);
  }

  // ---------- Encoding ----------

  /** What an image says about consecutive blocks: their contents, or that they do not matter. */
  datatype Piece = Raw(data: seq<byte>) | DontCare(blocks: nat)
  {
    function Size(blockSize: nat): nat {
      if Raw? then |data| else blocks * blockSize
    }
  }

  /** The piece is a whole number of blocks, and its size fits 32 bits. */
  predicate PieceOk(piece: Piece, blockSize: nat)
  {
    blockSize > 0 && piece.Size(blockSize) < TWO_TO_THE_32 && (piece.Raw? ==> |piece.data| % blockSize == 0)
  }

  function Blocks(piece: Piece, blockSize: nat): (n: nat)
    requires PieceOk(piece, blockSize)
    ensures n * blockSize == piece.Size(blockSize)
    ensures n < TWO_TO_THE_32
  {
    if piece.Raw? then
      QuotientBounds(|piece.data|, blockSize);
      |piece.data| / blockSize
    else
      ProductAtLeast(piece.blocks, blockSize);
      piece.blocks
  }

  lemma {:induction false} QuotientBounds(a: nat, b: nat)
    requires b > 0 && a % b == 0
    ensures 0 <= a / b <= a && a / b * b == a
  {
    ProductAtLeast(a / b, b);
  }

  lemma {:induction false} ProductAtLeast(a: int, b: nat)
    requires b > 0
    ensures a >= 0 ==> a <= a * b
  {
  }

  function EncodePiece(piece: Piece, blockSize: nat): (s: seq<byte>)
    requires PieceOk(piece, blockSize)
    ensures |s| == CHUNK_HEADER_SIZE + if piece.Raw? then |piece.data| else 0
  {
    var payload := if piece.Raw? then piece.data else [];
    Half(if piece.Raw? then CHUNK_TYPE_RAW else CHUNK_TYPE_DONT_CARE) + Half(0)
    + LittleEndian(Blocks(piece, blockSize)) + LittleEndian(ToWord(CHUNK_HEADER_SIZE + |payload|)) + payload
  }

  predicate PiecesOk(pieces: seq<Piece>, blockSize: nat)
  {
    forall piece | piece in pieces :: PieceOk(piece, blockSize)
  }

  function EncodePieces(pieces: seq<Piece>, blockSize: nat): seq<byte>
    requires PiecesOk(pieces, blockSize)
  {
    if pieces == [] then [] else EncodePiece(pieces[0], blockSize) + EncodePieces(pieces[1..], blockSize)
  }

  function TotalSize(pieces: seq<Piece>, blockSize: nat): nat
  {
    if pieces == [] then 0 else pieces[0].Size(blockSize) + TotalSize(pieces[1..], blockSize)
  }

  /** A file header, which later versions of the format may lengthen: it states its own size. */
  function HeaderBytes(blockSize: word, totalBlocks: word, totalChunks: word, extra: seq<byte>): (s: seq<byte>)
    requires SPARSE_HEADER_SIZE + |extra| < 0x1_0000
    ensures |s| == SPARSE_HEADER_SIZE + |extra|
  {
    LittleEndian(SPARSE_HEADER_MAGIC) + (Half(1) + Half(0)) + (Half(SPARSE_HEADER_SIZE + |extra|) + Half(CHUNK_HEADER_SIZE))
    + LittleEndian(blockSize) + LittleEndian(totalBlocks) + LittleEndian(totalChunks) + (LittleEndian(0) + extra)
  }

  /** The numbers of blocks and of pieces fit the header's fields. */
  predicate Encodable(pieces: seq<Piece>, blockSize: nat)
  {
    && blockSize > 0 && PiecesOk(pieces, blockSize) && |pieces| < TWO_TO_THE_32
    && TotalSize(pieces, blockSize) / blockSize < TWO_TO_THE_32
  }

  /** The sparse image of the pieces, with a header of any length. */
  function Encode(pieces: seq<Piece>, blockSize: word, extra: seq<byte>): seq<byte>
    requires Encodable(pieces, blockSize) && SPARSE_HEADER_SIZE + |extra| < 0x1_0000
  {
    HeaderBytes(blockSize, TotalSize(pieces, blockSize) / blockSize, |pieces|, extra) + EncodePieces(pieces, blockSize)
  }

  /** What the pieces mean: each raw one at its expanded offset. */
  function PieceWrites(pieces: seq<Piece>, blockSize: nat, offset: nat): seq<Write>
  {
    if pieces == [] then []
    else
      (if pieces[0].Raw? then [Write(offset, pieces[0].data)] else [])
      + PieceWrites(pieces[1..], blockSize, offset + pieces[0].Size(blockSize))
  }

  // ---------- Round trip ----------

  lemma {:induction false} WordLies(image: seq<byte>, p: nat, w: word)
    requires LiesAt(image, p, LittleEndian(w))
    ensures p + 4 <= |image| && ReadWord(image, p) == w
  {
    LittleEndianInverse(w);
  }

  lemma {:induction false} HalfLies(image: seq<byte>, p: nat, w: nat)
    requires w < 0x1_0000 && LiesAt(image, p, Half(w))
    ensures p + 2 <= |image| && ReadHalf(image, p) == w
  {
    assert image[p] == image[p..p + 2][0] && image[p + 1] == image[p..p + 2][1];
  }

  /** The chunk header of an encoded piece, and its payload, as the loop reads them. */
  lemma {:induction false} PieceRead(image: seq<byte>, p: nat, piece: Piece, blockSize: nat)
    requires PieceOk(piece, blockSize) && LiesAt(image, p, EncodePiece(piece, blockSize))
    ensures p + |EncodePiece(piece, blockSize)| <= |image|
    ensures ReadHalf(image, p) == if piece.Raw? then CHUNK_TYPE_RAW else CHUNK_TYPE_DONT_CARE
    ensures ReadWord(image, p + 4) == Blocks(piece, blockSize)
    ensures piece.Raw? ==> image[p + CHUNK_HEADER_SIZE..p + CHUNK_HEADER_SIZE + |piece.data|] == piece.data
  {
    hide Half, LittleEndian, ReadHalf, ReadWord;
    var payload := if piece.Raw? then piece.data else [];
    var kind := Half(if piece.Raw? then CHUNK_TYPE_RAW else CHUNK_TYPE_DONT_CARE);
    var blocks, total := LittleEndian(Blocks(piece, blockSize)), LittleEndian(ToWord(CHUNK_HEADER_SIZE + |payload|));
    LiesSplit(image, p, kind + Half(0) + blocks + total, payload);
    LiesSplit(image, p, kind + Half(0) + blocks, total);
    LiesSplit(image, p, kind + Half(0), blocks);
    LiesSplit(image, p, kind, Half(0));
    HalfLies(image, p, if piece.Raw? then CHUNK_TYPE_RAW else CHUNK_TYPE_DONT_CARE);
    WordLies(image, p + 4, Blocks(piece, blockSize));
  }

  /** The first of `n + 1` chunks is an encoded piece. */
  lemma {:induction false} ExpandPiece(image: seq<byte>, piece: Piece, blockSize: word, n: nat, p: nat, offset: nat)
    requires PieceOk(piece, blockSize) && LiesAt(image, p, EncodePiece(piece, blockSize))
    ensures var e := Expand(image, blockSize, n + 1, p, offset);
            var rest := Expand(image, blockSize, n, p + |EncodePiece(piece, blockSize)|, offset + piece.Size(blockSize));
            && e.status == rest.status && e.writes == (if piece.Raw? then [Write(offset, piece.data)] else []) + rest.writes
            && blockSize * e.blocks == piece.Size(blockSize) + blockSize * rest.blocks
  {
    hide EncodePiece, ReadHalf, ReadWord, Blocks;
    PieceRead(image, p, piece, blockSize);
    var k := Blocks(piece, blockSize);
    assert blockSize * k == piece.Size(blockSize);
    assert Bytes32(blockSize, k) == piece.Size(blockSize);
    var rest := Expand(image, blockSize, n, p + |EncodePiece(piece, blockSize)|, offset + piece.Size(blockSize));
    ProductSplit(blockSize, k, rest.blocks);
  }

  /** Expanding an encoding gives back the writes that the pieces mean, and goes on with the `n` chunks behind them. */
  lemma {:induction false} ExpandInvertsEncode(image: seq<byte>, pieces: seq<Piece>, blockSize: word, n: nat, p: nat, offset: nat)
    requires PiecesOk(pieces, blockSize) && blockSize > 0 && LiesAt(image, p, EncodePieces(pieces, blockSize))
    ensures var e := Expand(image, blockSize, |pieces| + n, p, offset);
            var rest := Expand(image, blockSize, n, p + |EncodePieces(pieces, blockSize)|, offset + TotalSize(pieces, blockSize));
            && e.status == rest.status && e.writes == PieceWrites(pieces, blockSize, offset) + rest.writes
            && blockSize * e.blocks == TotalSize(pieces, blockSize) + blockSize * rest.blocks
    decreases |pieces|
  {
    hide EncodePiece, Expand, PieceOk, Piece.Size, LiesAt;
    if pieces != [] {
      var piece, rest := pieces[0], pieces[1..];
      assert piece in pieces && PiecesOk(rest, blockSize);
      LiesSplit(image, p, EncodePiece(piece, blockSize), EncodePieces(rest, blockSize));
      ExpandPiece(image, piece, blockSize, |rest| + n, p, offset);
      ExpandInvertsEncode(image, rest, blockSize, n, p + |EncodePiece(piece, blockSize)|, offset + piece.Size(blockSize));
    }
  }

  /** Behind any pieces a chunk of another type, FILL for one, ends the expansion with an error; what came before it is written. */
  lemma {:induction false} UnknownChunkEnds(image: seq<byte>, pieces: seq<Piece>, blockSize: word, n: nat, p: nat, offset: nat)
    requires PiecesOk(pieces, blockSize) && blockSize > 0 && LiesAt(image, p, EncodePieces(pieces, blockSize))
    requires var q := p + |EncodePieces(pieces, blockSize)|;
             && q + CHUNK_HEADER_SIZE <= |image|
             && ReadHalf(image, q) != CHUNK_TYPE_RAW && ReadHalf(image, q) != CHUNK_TYPE_DONT_CARE && ReadHalf(image, q) != CHUNK_TYPE_CRC32
    ensures var e := Expand(image, blockSize, |pieces| + 1 + n, p, offset);
            e.status == ProtocolError && e.writes == PieceWrites(pieces, blockSize, offset)
  {
    hide EncodePieces, PieceWrites, TotalSize, ReadHalf, ReadWord;
    ExpandInvertsEncode(image, pieces, blockSize, 1 + n, p, offset);
  }

  lemma {:induction false} HeaderRead(image: seq<byte>, blockSize: word, totalBlocks: word, totalChunks: word, extra: seq<byte>)
    requires SPARSE_HEADER_SIZE + |extra| < 0x1_0000
    requires LiesAt(image, 0, HeaderBytes(blockSize, totalBlocks, totalChunks, extra))
    ensures |image| >= SPARSE_HEADER_SIZE && IsSparse(image)
    ensures ReadHeader(image) == Header(1, SPARSE_HEADER_SIZE + |extra|, blockSize, totalBlocks, totalChunks)
  {
    hide Half, LittleEndian, ReadHalf, ReadWord;
    var magic, version, sizes := LittleEndian(SPARSE_HEADER_MAGIC), Half(1) + Half(0), Half(SPARSE_HEADER_SIZE + |extra|) + Half(CHUNK_HEADER_SIZE);
    var a, b, c := LittleEndian(blockSize), LittleEndian(totalBlocks), LittleEndian(totalChunks);
    LiesSplit(image, 0, magic + version + sizes + a + b + c, LittleEndian(0) + extra);
    LiesSplit(image, 0, magic + version + sizes + a + b, c);
    LiesSplit(image, 0, magic + version + sizes + a, b);
    LiesSplit(image, 0, magic + version + sizes, a);
    LiesSplit(image, 0, magic + version, sizes);
    LiesSplit(image, 0, magic, version);
    LiesSplit(image, 4, Half(1), Half(0));
    LiesSplit(image, 8, Half(SPARSE_HEADER_SIZE + |extra|), Half(CHUNK_HEADER_SIZE));
    WordLies(image, 0, SPARSE_HEADER_MAGIC);
    HalfLies(image, 4, 1);
    HalfLies(image, 8, SPARSE_HEADER_SIZE + |extra|);
    WordLies(image, 12, blockSize);
    WordLies(image, 16, totalBlocks);
    WordLies(image, 20, totalChunks);
  }

  lemma {:induction false} NoChunks(image: seq<byte>, blockSize: word, p: nat, offset: nat)
    ensures Expand(image, blockSize, 0, p, offset) == Expansion([], 0, Success)
  {
  }

  /** The writes of pieces from `offset` on stay between there and their total size. */
  lemma {:induction false} PieceWritesWithin(pieces: seq<Piece>, blockSize: nat, offset: nat)
    ensures forall w :: w in PieceWrites(pieces, blockSize, offset) ==>
              offset <= w.addr && w.addr + |w.data| <= offset + TotalSize(pieces, blockSize)
    decreases |pieces|
  {
    if pieces != [] {
      PieceWritesWithin(pieces[1..], blockSize, offset + pieces[0].Size(blockSize));
    }
  }

  /**
   Round trip: the encoding of pieces expands to exactly their writes. Below 4 GiB it
   passes the partition's check exactly when the pieces fit.
   */
  lemma {:induction false} EncodingExpands(pieces: seq<Piece>, blockSize: word, extra: seq<byte>, partition: nat)
    requires Encodable(pieces, blockSize) && SPARSE_HEADER_SIZE + |extra| < 0x1_0000
    ensures var image, total := Encode(pieces, blockSize, extra), TotalSize(pieces, blockSize);
            && |image| >= SPARSE_HEADER_SIZE
            && (OpenCheck(image, partition) == Success <==> ToWord(total) <= partition)
            && (total < TWO_TO_THE_32 ==> (OpenCheck(image, partition) == Success <==> total <= partition))
            && ExpandImage(image).status == Success
            && ExpandImage(image).writes == PieceWrites(pieces, blockSize, 0)
  {
    hide HeaderBytes, ReadHeader, IsSparse, Expand, EncodePieces, PieceWrites, TotalSize, Bytes32, ToWord, LiesAt;
    var image := Encode(pieces, blockSize, extra);
    var total := TotalSize(pieces, blockSize);
    WrapsDown(total);
    var header, body := HeaderBytes(blockSize, total / blockSize, |pieces|, extra), EncodePieces(pieces, blockSize);
    LiesAtStart(header, body);
    HeaderRead(image, blockSize, total / blockSize, |pieces|, extra);
    ExpandInvertsEncode(image, pieces, blockSize, 0, |header|, 0);
    var e := Expand(image, blockSize, |pieces|, |header|, 0);
    NoChunks(image, blockSize, |header| + |body|, total);
    BlocksFit(blockSize, e.blocks, total);
    WholeBlocks(blockSize, e.blocks, total);
  }

  /**
   The 32-bit size check decides rightly exactly for images below 4 GiB, images that fit
   after all, and images whose size is too large even modulo 2^32.
   */
  lemma {:induction false} SizeCheckExactly(image: seq<byte>, partition: nat)
    requires |image| >= SPARSE_HEADER_SIZE && IsSparse(image) && ReadHeader(image).major == 1
    ensures var size := ReadHeader(image).blockSize * ReadHeader(image).totalBlocks;
            (OpenCheck(image, partition) == Success <==> size <= partition)
            <==> size < TWO_TO_THE_32 || size <= partition || partition < size % TWO_TO_THE_32
  {
    hide ReadHeader, IsSparse;
    var h := ReadHeader(image);
    WrapsDown(h.blockSize * h.totalBlocks);
  }

  lemma {:induction false} WrapsDown(n: nat)
    ensures ToWord(n) <= n && (n < TWO_TO_THE_32 ==> ToWord(n) == n)
  {
  }

  /**
   An image that wrongly passes: 4 GiB to skip and one block behind them. It is let
   through for a partition of a single block, and its only write is beyond the partition.
   */
  lemma {:induction false} SizeCheckWraps(data: seq<byte>)
    requires |data| == 4096
    ensures var pieces := [DontCare(0x8_0000), DontCare(0x8_0000), Raw(data)];
            && Encodable(pieces, 4096)
            && var image := Encode(pieces, 4096, []);
               && OpenCheck(image, 4096) == Success
               && ExpandImage(image).writes == [Write(TWO_TO_THE_32, data)]
               && !AllFit(ExpandImage(image).writes, 4096)
  {
    hide Encode, ExpandImage, OpenCheck, PieceOk;
    var a, b := DontCare(0x8_0000), Raw(data);
    var pieces := [a, a, b];
    assert PieceOk(a, 4096) && PieceOk(b, 4096) by { SmallPieces(data); }
    assert pieces[1..] == [a, b] && [a, b][1..] == [b] && [b][1..] == [];
    assert TotalSize([b], 4096) == 4096;
    assert TotalSize([a, b], 4096) == 0x8000_0000 + 4096;
    assert TotalSize(pieces, 4096) == 0x1_0000_1000;
    EncodingExpands(pieces, 4096, [], 4096);
    var w := Write(TWO_TO_THE_32, data);
    assert PieceWrites([b], 4096, TWO_TO_THE_32) == [w] + [];
    assert PieceWrites([a, b], 4096, 0x8000_0000) == [] + [w];
    assert PieceWrites(pieces, 4096, 0) == [] + [w];
    assert w in [w];
  }

  lemma {:induction false} SmallPieces(data: seq<byte>)
    requires |data| == 4096
    ensures PieceOk(DontCare(0x8_0000), 4096) && PieceOk(Raw(data), 4096)
  {
  }

  lemma {:induction false} Multiples(b: int, d: int)
    requires b > 0
    ensures d >= 1 ==> b * d >= b
    ensures d <= -1 ==> b * d <= -b
  {
    ProductAtLeast(b, if d >= 1 then d else if d <= -1 then -d else 1);
  }

  lemma {:induction false} BlocksFit(blockSize: word, blocks: nat, total: nat)
    requires blockSize > 0 && blockSize * blocks == total && total / blockSize < TWO_TO_THE_32
    ensures blocks < TWO_TO_THE_32
  {
    var q, r := total / blockSize, total % blockSize;
    assert blockSize * (blocks - q) == r by { ProductSplit2(blockSize, blocks, q); }
    Multiples(blockSize, blocks - q);
  }

  lemma {:induction false} LiesAtStart(a: seq<byte>, b: seq<byte>)
    ensures LiesAt(a + b, 0, a) && LiesAt(a + b, |a|, b)
  {
    assert LiesAt(a + b, 0, a + b);
    LiesSplit(a + b, 0, a, b);
  }

  lemma {:induction false} WholeBlocks(blockSize: word, blocks: nat, total: nat)
    requires blockSize > 0 && blockSize * blocks == total && blocks < TWO_TO_THE_32
    ensures total / blockSize == blocks && Bytes32(blockSize, total / blockSize) == ToWord(total)
  {
    var q, r := total / blockSize, total % blockSize;
    assert total == blockSize * q + r;
    assert blockSize * (blocks - q) == r by { ProductSplit2(blockSize, blocks, q); }
    Multiples(blockSize, blocks - q);
    assert q == blocks;
  }

  lemma {:induction false} ProductSplit2(a: int, b: int, c: int)
    ensures a * (b - c) == a * b - a * c
  {
  }

  /** Byte `a` of the disk as the pieces from `offset` on have it: from a raw piece, or as it was. */
  function Meant(pieces: seq<Piece>, blockSize: nat, offset: nat, m: seq<byte>, a: nat): byte
    requires a < |m|
  {
    if pieces == [] then m[a]
    else if pieces[0].Raw? && offset <= a < offset + |pieces[0].data| then pieces[0].data[a - offset]
    else Meant(pieces[1..], blockSize, offset + pieces[0].Size(blockSize), m, a)
  }

  /** Carrying out the writes gives every byte of a raw piece its payload and leaves all others alone. */
  lemma {:induction false} WritesMean(pieces: seq<Piece>, blockSize: nat, offset: nat, m: seq<byte>, a: nat)
    requires a < |m| && AllFit(PieceWrites(pieces, blockSize, offset), |m|)
    ensures Apply(m, PieceWrites(pieces, blockSize, offset))[a] == Meant(pieces, blockSize, offset, m, a)
    decreases |pieces|
  {
    hide ApplyOne, Apply, PieceWrites, Meant, Piece.Size;
    if pieces == [] {
      NothingMeant(blockSize, offset, m, a);
    } else {
      var next := offset + pieces[0].Size(blockSize);
      var rest := PieceWrites(pieces[1..], blockSize, next);
      FirstPiece(pieces, blockSize, offset, m, a);
      if pieces[0].Raw? {
        var w := Write(offset, pieces[0].data);
        AppliedBehind(m, w, rest);
        if w.Covers(a) {
          Untouched(ApplyOne(m, w), rest, a);
        } else {
          WritesMean(pieces[1..], blockSize, next, ApplyOne(m, w), a);
          MeantElsewhere(pieces[1..], blockSize, next, m, ApplyOne(m, w), a);
        }
      } else {
        WritesMean(pieces[1..], blockSize, next, m, a);
      }
    }
  }

  lemma {:induction false} NothingMeant(blockSize: nat, offset: nat, m: seq<byte>, a: nat)
    requires a < |m|
    ensures Apply(m, PieceWrites([], blockSize, offset))[a] == Meant([], blockSize, offset, m, a)
  {
  }

  lemma {:induction false} FirstPiece(pieces: seq<Piece>, blockSize: nat, offset: nat, m: seq<byte>, a: nat)
    requires a < |m| && pieces != []
    ensures var next := offset + pieces[0].Size(blockSize);
            var rest := PieceWrites(pieces[1..], blockSize, next);
            var w := Write(offset, if pieces[0].Raw? then pieces[0].data else []);
            && PieceWrites(pieces, blockSize, offset) == (if pieces[0].Raw? then [w] + rest else rest)
            && Meant(pieces, blockSize, offset, m, a)
               == (if pieces[0].Raw? && w.Covers(a) then w.data[a - offset] else Meant(pieces[1..], blockSize, next, m, a))
            && (pieces[0].Raw? && w.Covers(a) ==> forall v :: v in rest ==> !v.Covers(a))
  {
    PieceWritesWithin(pieces[1..], blockSize, offset + pieces[0].Size(blockSize));
  }

  lemma {:induction false} AppliedBehind(m: seq<byte>, w: Write, rest: seq<Write>)
    requires AllFit([w] + rest, |m|)
    ensures w.Fits(|m|) && AllFit(rest, |m|)
    ensures Apply(m, [w] + rest) == Apply(ApplyOne(m, w), rest)
  {
    hide ApplyOne;
    assert ([w] + rest)[0] == w && [w][..0] == [];
    assert AllFit(rest, |m|) by {
      assert forall v :: v in rest ==> v in [w] + rest;
    }
    ApplyAppend(m, [w], rest);
  }

  lemma {:induction false} MeantElsewhere(pieces: seq<Piece>, blockSize: nat, offset: nat, m: seq<byte>, m': seq<byte>, a: nat)
    requires a < |m| == |m'| && m'[a] == m[a]
    ensures Meant(pieces, blockSize, offset, m', a) == Meant(pieces, blockSize, offset, m, a)
    decreases |pieces|
  {
    if pieces != [] {
      MeantElsewhere(pieces[1..], blockSize, offset + pieces[0].Size(blockSize), m, m', a);
    }
  }

  /** A CRC32 chunk's four payload bytes are taken for the start of the next chunk header. */
  lemma {:induction false} Crc32NotSkipped(image: seq<byte>, blockSize: word, n: nat, p: nat, offset: nat)
    requires n >= 2 && p + CHUNK_HEADER_SIZE + 4 + CHUNK_HEADER_SIZE <= |image|
    requires ReadHalf(image, p) == CHUNK_TYPE_CRC32 && ReadWord(image, p + 4) == 0
    requires ReadHalf(image, p + CHUNK_HEADER_SIZE) == 0
    ensures Expand(image, blockSize, n, p, offset).status == ProtocolError
  {
  }

  // ---------- The writer ----------

  /** The first `done` writes are on the disk, and nothing else but what a failing next write left in its own range. */
  ghost predicate Carried(writes: seq<Write>, done: nat, m: seq<byte>, m': seq<byte>)
  {
    && done <= |writes| && |m'| == |m| && AllFit(writes[..done], |m|)
    && forall a :: 0 <= a < |m| && (done == |writes| || !writes[done].Covers(a)) ==> m'[a] == Apply(m, writes[..done])[a]
  }

  /** Everything so far is on the disk, exactly. */
  ghost predicate Settled(writes: seq<Write>, m: seq<byte>, m': seq<byte>)
  {
    AllFit(writes, |m|) && m' == Apply(m, writes)
  }

  lemma {:induction false} SettledIsCarried(done: seq<Write>, rest: seq<Write>, m: seq<byte>, m': seq<byte>)
    requires Settled(done, m, m')
    ensures Carried(done + rest, |done|, m, m')
  {
    assert (done + rest)[..|done|] == done;
  }

  lemma {:induction false} BrokenIsCarried(done: seq<Write>, w: Write, rest: seq<Write>, m: seq<byte>, m': seq<byte>, m'': seq<byte>)
    requires Settled(done, m, m') && |m''| == |m'|
    requires forall a :: 0 <= a < |m'| && !w.Covers(a) ==> m''[a] == m'[a]
    ensures Carried(done + ([w] + rest), |done|, m, m'')
  {
    var all := done + ([w] + rest);
    assert all[..|done|] == done && all[|done|] == w;
  }

  lemma {:induction false} SettleOne(done: seq<Write>, w: Write, m: seq<byte>, m': seq<byte>, m'': seq<byte>)
    requires Settled(done, m, m') && w.Fits(|m'|) && m'' == ApplyOne(m', w)
    ensures Settled(done + [w], m, m'')
  {
    ApplySnoc(m, done, w);
  }

  /** One write of the image: on the disk, or broken off. */
  method WriteNext(disk: Disk, store: array<byte>, at: nat, data: seq<byte>, ghost written: seq<Write>, ghost later: seq<Write>, ghost m: seq<byte>)
    returns (ok: bool)
    requires Settled(written, m, store[..])
    modifies disk, store
    ensures disk.failures == old(disk.failures) + (if ok then 0 else 1)
    ensures ok ==> Settled(written + [Write(at, data)], m, store[..])
    ensures !ok ==> Carried(written + ([Write(at, data)] + later), |written|, m, store[..])
  {
    hide Carried, Settled, ApplyOne;
    ghost var before := store[..];
    ok := disk.WriteDisk(store, at, data);
    if ok {
      SettleOne(written, Write(at, data), m, before, store[..]);
    } else {
      BrokenIsCarried(written, Write(at, data), later, m, before, store[..]);
    }
  }

  /** The loop over the chunks. */
  method WriteChunks(disk: Disk, store: array<byte>, image: seq<byte>, h: Header) returns (status: Status, ghost done: nat)
    modifies disk, store
    ensures disk.failures == old(disk.failures) + (if status == DeviceError then 1 else 0)
    ensures var e := Expand(image, h.blockSize, h.totalChunks, h.fileHeaderSize, 0);
            && done <= |e.writes| && Carried(e.writes, done, old(store[..]), store[..])
            && (done == |e.writes| ==> status == e.status)
            && (done < |e.writes| ==> status == DeviceError)
  {
    hide Expand, ReadHalf, ReadWord, Carried, Settled, Bytes32;
    ghost var m, all := store[..], Expand(image, h.blockSize, h.totalChunks, h.fileHeaderSize, 0);
    ghost var written: seq<Write> := [];
    NothingSettled(m);
    assert written + all.writes == all.writes;
    var chunk, p: nat, offset: nat := 0, h.fileHeaderSize, 0;
    while chunk < h.totalChunks
      invariant 0 <= chunk <= h.totalChunks
      invariant Settled(written, m, store[..]) && disk.failures == old(disk.failures)
      invariant all.writes == written + Expand(image, h.blockSize, h.totalChunks - chunk, p, offset).writes
      invariant all.status == Expand(image, h.blockSize, h.totalChunks - chunk, p, offset).status
    {
      ExpandTurn(image, h.blockSize, h.totalChunks - chunk, p, offset);
      SettledIsCarried(written, Expand(image, h.blockSize, h.totalChunks - chunk, p, offset).writes, m, store[..]);
      if p + CHUNK_HEADER_SIZE > |image| {
        return Outside, |written|;
      }
      var kind, writeSize := ReadHalf(image, p), Bytes32(h.blockSize, ReadWord(image, p + 4));
      p := p + CHUNK_HEADER_SIZE;
      if kind == CHUNK_TYPE_RAW {
        if p + writeSize > |image| {
          return Outside, |written|;
        }
        ghost var w := Write(offset, image[p..p + writeSize]);
        ghost var later := Expand(image, h.blockSize, h.totalChunks - chunk - 1, p + writeSize, offset + writeSize).writes;
        var ok := WriteNext(disk, store, offset, image[p..p + writeSize], written, later, m);
        if !ok {
          return DeviceError, |written|;
        }
        assert written + ([w] + later) == written + [w] + later;
        written := written + [w];
        p := p + writeSize;
      } else if kind != CHUNK_TYPE_DONT_CARE && kind != CHUNK_TYPE_CRC32 {
        return ProtocolError, |written|;
      }
      offset := offset + writeSize;
      chunk := chunk + 1;
    }
    ExpandTurn(image, h.blockSize, 0, p, offset);
    SettledIsCarried(written, [], m, store[..]);
    return Success, |written|;
  }

  /**
   PartitionWrite: it reports success only if the image was read to its end and every
   write is on the disk; otherwise the writes before the failure are. An image that is
   not sparse is put at the start of the partition as it is.
   */
  method PartitionWrite(disk: Disk, store: array<byte>, image: seq<byte>) returns (status: Status, ghost done: nat)
    modifies disk, store
    ensures disk.failures == old(disk.failures) + (if status == DeviceError then 1 else 0)
    ensures OpenCheck(image, store.Length) != Success ==> status == OpenCheck(image, store.Length) && store[..] == old(store[..])
    ensures OpenCheck(image, store.Length) == Success ==>
              var e := ExpandImage(image);
              && Carried(e.writes, done, old(store[..]), store[..])
              && (done == |e.writes| ==> status == e.status)
              && (done < |e.writes| ==> status == DeviceError)
    ensures |image| >= 4 && !IsSparse(image) ==>
              && (status == VolumeFull <==> store.Length < |image|)
              && (status == Success || status == VolumeFull || status == DeviceError)
              && (status == VolumeFull ==> store[..] == old(store[..]))
              && (status == Success ==> |image| <= store.Length && store[..|image|] == image)
              && forall a :: |image| <= a < store.Length ==> store[a] == old(store[a])
    ensures |image| >= SPARSE_HEADER_SIZE && IsSparse(image) ==>
              && (status == InvalidParameter <==> ReadHeader(image).major != 1)
              && (status == InvalidParameter || status == VolumeFull ==> store[..] == old(store[..]))
  {
    hide Expand, Carried, Settled, IsSparse, ReadHeader;
    status, done := OpenCheck(image, store.Length), 0;
    if status != Success {
      return;
    }
    if IsSparse(image) {
      var h := ReadHeader(image);
      LoopStatus(image, h.blockSize, h.totalChunks, h.fileHeaderSize, 0);
      status, done := WriteChunks(disk, store, image, h);
      return;
    }
    ghost var m, w := store[..], Write(0, image);
    NothingSettled(m);
    assert [] + ([w] + []) == [w] && [] + [w] == [w] && [w] + [] == [w];
    var ok := WriteNext(disk, store, 0, image, [], [], m);
    if !ok {
      BehindIsKept(m, w, store[..]);
      return DeviceError, 0;
    }
    SettledIsCarried([w], [], m, store[..]);
    PlainIsThere(m, image, store[..]);
    return Success, 1;
  }

  lemma {:induction false} PlainIsThere(m: seq<byte>, image: seq<byte>, m': seq<byte>)
    requires Settled([Write(0, image)], m, m')
    ensures |m'| == |m| && |image| <= |m'| && m'[..|image|] == image && forall a :: |image| <= a < |m| ==> m'[a] == m[a]
  {
    AppliedBehind(m, Write(0, image), []);
    assert [Write(0, image)] + [] == [Write(0, image)];
  }

  lemma {:induction false} BehindIsKept(m: seq<byte>, w: Write, m': seq<byte>)
    requires Carried([w], 0, m, m')
    ensures |m'| == |m| && forall a :: w.addr + |w.data| <= a < |m| ==> m'[a] == m[a]
  {
    assert [w][..0] == [];
  }

  /** No chunk loop ends in a refusal of the whole image. */
  lemma {:induction false} LoopStatus(image: seq<byte>, blockSize: word, n: nat, p: nat, offset: nat)
    ensures Expand(image, blockSize, n, p, offset).status != InvalidParameter
    ensures Expand(image, blockSize, n, p, offset).status != VolumeFull && Expand(image, blockSize, n, p, offset).status != DeviceError
    decreases n
  {
    hide ReadHalf, ReadWord, Bytes32;
    if n > 0 && p + CHUNK_HEADER_SIZE <= |image| {
      var size := Bytes32(blockSize, ReadWord(image, p + 4));
      LoopStatus(image, blockSize, n - 1, p + CHUNK_HEADER_SIZE + size, offset + size);
      LoopStatus(image, blockSize, n - 1, p + CHUNK_HEADER_SIZE, offset + size);
    }
  }

  lemma {:induction false} NothingSettled(m: seq<byte>)
    ensures Settled([], m, m)
  {
  }

  /** One turn of the expansion, spelled out. */
  lemma {:induction false} ExpandTurn(image: seq<byte>, blockSize: word, n: nat, p: nat, offset: nat)
    ensures var e := Expand(image, blockSize, n, p, offset);
            if n == 0 then e.writes == [] && e.status == Success
            else if p + CHUNK_HEADER_SIZE > |image| then e.writes == [] && e.status == Outside
            else
              var kind, size, q := ReadHalf(image, p), Bytes32(blockSize, ReadWord(image, p + 4)), p + CHUNK_HEADER_SIZE;
              if kind == CHUNK_TYPE_RAW then
                if q + size > |image| then e.writes == [] && e.status == Outside
                else
                  var rest := Expand(image, blockSize, n - 1, q + size, offset + size);
                  e.writes == [Write(offset, image[q..q + size])] + rest.writes && e.status == rest.status
              else if kind == CHUNK_TYPE_DONT_CARE || kind == CHUNK_TYPE_CRC32 then
                var rest := Expand(image, blockSize, n - 1, q, offset + size);
                e.writes == rest.writes && e.status == rest.status
              else e.writes == [] && e.status == ProtocolError
  {
    hide ReadHalf, ReadWord, Bytes32;
  }

  /** Writing an encoding that fits, on a disk that does not fail, leaves exactly what the pieces mean. */
  lemma {:induction false} WrittenEncoding(pieces: seq<Piece>, blockSize: word, extra: seq<byte>, m: seq<byte>, m': seq<byte>, a: nat)
    requires Encodable(pieces, blockSize) && SPARSE_HEADER_SIZE + |extra| < 0x1_0000 && TotalSize(pieces, blockSize) <= |m|
    requires |Encode(pieces, blockSize, extra)| >= SPARSE_HEADER_SIZE
    requires var e := ExpandImage(Encode(pieces, blockSize, extra)); Carried(e.writes, |e.writes|, m, m')
    requires a < |m|
    ensures m'[a] == Meant(pieces, blockSize, 0, m, a)
  {
    hide Encode, ExpandImage;
    EncodingExpands(pieces, blockSize, extra, |m|);
    var ws := PieceWrites(pieces, blockSize, 0);
    assert ws[..|ws|] == ws;
    WritesMean(pieces, blockSize, 0, m, a);
  }
}
