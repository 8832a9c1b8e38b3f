/**
 Block reads and writes: the checks on a request, and the loop that moves it in
 chunks, each tried up to three times.
 */
module SdMmcBlockIo {
  import opened Bytes
  import opened Options
  import opened ByteStore
  import opened SdMmcCommands

  const DATA_COMMAND_RETRIES: nat := 3

  datatype Direction = ReadBlocks | WriteBlocks

  // ---------- Checks ----------

  datatype BlockMedia = BlockMedia(present: bool, id: word, readOnly: bool, blockSize: nat, lastBlock: nat)

  /** What the driver knows of a request: the media it is for, its first block, its size, whether the buffer is aligned. */
  datatype Request = Request(direction: Direction, mediaId: word, lba: nat, size: nat, hasBuffer: bool, aligned: bool)

  /** The driver's own range check, in 64-bit arithmetic on a block count cut to 32 bits. */
  predicate SpanAccepted(lba: nat, size: nat, lastBlock: nat)
  {
    (lba + ToWord(size / BLOCK_LENGTH) - 1) % TWO_TO_THE_64 <= lastBlock
  }

  /** The status a request is turned away with before any transfer, or None; an empty request succeeds at once. */
  function Refusal(m: BlockMedia, r: Request): Option<Status>
  {
    if m.id != r.mediaId then Some(MediaChanged)
    else if !r.hasBuffer then Some(InvalidParameter)
    else if !m.present then Some(NoMedia)
    else if r.size == 0 then Some(Success)
    else if r.direction.WriteBlocks? && m.readOnly then Some(WriteProtected)
    else if r.size % BLOCK_LENGTH != 0 then Some(BadBufferSize)
    else if !SpanAccepted(r.lba, r.size, m.lastBlock) then Some(InvalidParameter)
    else if !r.aligned then Some(InvalidParameter)
    else None
  }

  /** The span ends within the 64-bit block numbers. */
  predicate WithinNumbers(r: Request)
  {
    r.lba + r.size / BLOCK_LENGTH <= TWO_TO_THE_64
  }

  /** The tests before the first division by the block size have been passed. */
  predicate ReachesDivision(m: BlockMedia, r: Request)
  {
    m.id == r.mediaId && r.hasBuffer && m.present && r.size != 0 && !(r.direction.WriteBlocks? && m.readOnly)
  }

  /** The media and the request fit each other up to the test of the write protection. */
  predicate Matches(m: BlockMedia, r: Request)
  {
    m.id == r.mediaId && r.hasBuffer && m.present
  }

  /**
   What a request is turned away with, and that it is attempted otherwise: a write to
   protected media is, and no read is for that reason; a request for whole blocks inside
   the media, with an aligned buffer, to be read or to be written to media that are not
   protected, is attempted.
   */
  lemma {:induction false} RefusalExactly(m: BlockMedia, r: Request)
    ensures var inside := (r.lba + ToWord(r.size / BLOCK_LENGTH) - 1) % TWO_TO_THE_64 <= m.lastBlock;
            var writable := r.direction == ReadBlocks || !m.readOnly;
            var whole := r.size % BLOCK_LENGTH == 0;
            && (Refusal(m, r) == Some(MediaChanged) <==> m.id != r.mediaId)
            && (Refusal(m, r) == Some(NoMedia) <==> m.id == r.mediaId && r.hasBuffer && !m.present)
            && (Refusal(m, r) == Some(Success) <==> Matches(m, r) && r.size == 0)
            && (Refusal(m, r) == Some(WriteProtected) <==>
                  Matches(m, r) && r.size > 0 && r.direction == WriteBlocks && m.readOnly)
            && (Refusal(m, r) == Some(BadBufferSize) <==> Matches(m, r) && writable && !whole)
            && (Refusal(m, r) == Some(InvalidParameter) <==>
                  || (m.id == r.mediaId && !r.hasBuffer)
                  || (Matches(m, r) && r.size > 0 && writable && whole && !(inside && r.aligned)))
            && (Refusal(m, r).None? <==> Matches(m, r) && r.size > 0 && writable && whole && inside && r.aligned)
    ensures Refusal(m, r).None? ==> ReachesDivision(m, r)
  {
  }

  /**
   For requests of less than 2^32 blocks, the range check accepts exactly the spans
   inside the media, and those that run past block 2^64.
   */
  lemma {:induction false} SpanAcceptedExactly(lba: nat, size: nat, lastBlock: nat)
    requires lba < TWO_TO_THE_64 && 0 < size / BLOCK_LENGTH < TWO_TO_THE_32 && lastBlock < TWO_TO_THE_32
    ensures SpanAccepted(lba, size, lastBlock) <==>
            var last := lba + size / BLOCK_LENGTH - 1;
            last <= lastBlock || (TWO_TO_THE_64 <= last && last - TWO_TO_THE_64 <= lastBlock)
  {
    var count := size / BLOCK_LENGTH;
    assert ToWord(count) == count;
    var last := lba + count - 1;
    if last >= TWO_TO_THE_64 {
      assert last % TWO_TO_THE_64 == last - TWO_TO_THE_64;
    }
  }

  /** A span past block 2^64 is accepted: two blocks from the very last address on a card of one block. */
  lemma {:induction false} SpanWraps()
    ensures SpanAccepted(TWO_TO_THE_64 - 1, 2 * BLOCK_LENGTH, 0)
  {
  }

  // ---------- Chunks ----------

  /**
   One chunk of a transfer: where it is in the buffer, the block it was sent to, how often
   it was tried, whether the last try worked, and the media's block size after that.
   */
  datatype Chunk = Chunk(offset: nat, length: nat, block: word, tries: nat, ok: bool, blockSize: nat)
  {
    function End(): nat {
      offset + length
    }
  }

  /** A chunk is in whole blocks and within the limit, and was tried up to three times. */
  predicate WellTried(c: Chunk, limit: nat)
  {
    && 0 < c.length <= limit && c.length % BLOCK_LENGTH == 0
    && 1 <= c.tries <= DATA_COMMAND_RETRIES && (c.ok || c.tries == DATA_COMMAND_RETRIES)
    && (c.blockSize == BLOCK_LENGTH || c.blockSize == 0)
  }

  /** The chunks cover `done` bytes from the start, in order, without gap or overlap. */
  predicate Tiles(cs: seq<Chunk>, done: nat, limit: nat)
  {
    if cs == [] then done == 0
    else
      var c := cs[|cs| - 1];
      WellTried(c, limit) && done == c.End() && Tiles(cs[..|cs| - 1], c.offset, limit)
  }

  lemma {:induction false} TilesSnoc(cs: seq<Chunk>, done: nat, limit: nat, c: Chunk)
    requires Tiles(cs, done, limit) && c.offset == done && 0 < c.length <= limit && c.length % BLOCK_LENGTH == 0
    requires 1 <= c.tries <= DATA_COMMAND_RETRIES && (c.ok || c.tries == DATA_COMMAND_RETRIES)
    requires c.blockSize == BLOCK_LENGTH || c.blockSize == 0
    ensures Tiles(cs + [c], c.End(), limit)
  {
    assert (cs + [c])[..|cs|] == cs;
  }

  lemma {:induction false} TileInside(cs: seq<Chunk>, done: nat, limit: nat, k: nat)
    requires Tiles(cs, done, limit) && k < |cs|
    ensures WellTried(cs[k], limit) && cs[k].End() <= done
  {
    var n := |cs| - 1;
    if k < n {
      TileInside(cs[..n], cs[n].offset, limit, k);
    }
  }

  /** Every byte of the transfer is in exactly one chunk. */
  lemma {:induction false} TileOf(cs: seq<Chunk>, done: nat, limit: nat, a: nat) returns (k: nat)
    requires Tiles(cs, done, limit) && a < done
    ensures k < |cs| && cs[k].offset <= a < cs[k].End()
    ensures forall j :: 0 <= j < |cs| && cs[j].offset <= a < cs[j].End() ==> j == k
  {
    var n := |cs| - 1;
    if cs[n].offset <= a {
      k := n;
      forall j | 0 <= j < n
        ensures cs[j].End() <= cs[n].offset
      {
        TileInside(cs[..n], cs[n].offset, limit, j);
      }
    } else {
      k := TileOf(cs[..n], cs[n].offset, limit, a);
    }
  }

  /** A chunk has arrived: the buffer and the card's storage agree on it. */
  ghost predicate Moved(c: Chunk, lba: nat, buffer: seq<byte>, storage: seq<byte>)
  {
    && c.End() <= |buffer| && lba * BLOCK_LENGTH + c.End() <= |storage|
    && forall a :: c.offset <= a < c.End() ==> buffer[a] == storage[lba * BLOCK_LENGTH + a]
  }

  ghost predicate AllMoved(cs: seq<Chunk>, lba: nat, buffer: seq<byte>, storage: seq<byte>)
  {
    forall k :: 0 <= k < |cs| && cs[k].ok ==> Moved(cs[k], lba, buffer, storage)
  }

  predicate AllOk(cs: seq<Chunk>)
  {
    forall c | c in cs :: c.ok
  }

  /** Nothing but the request's own blocks has changed. */
  ghost predicate Confined(lba: nat, size: nat, before: seq<byte>, after: seq<byte>)
  {
    && |after| == |before|
    && forall a :: 0 <= a < |before| && !(lba * BLOCK_LENGTH <= a < lba * BLOCK_LENGTH + size) ==> after[a] == before[a]
  }

  lemma {:induction false} ConfinedStart(lba: nat, size: nat, storage: seq<byte>)
    ensures Confined(lba, size, storage, storage)
  {
  }

  lemma {:induction false} ConfinedStep(lba: nat, size: nat, at: nat, length: nat, before: seq<byte>, held: seq<byte>, after: seq<byte>)
    requires Confined(lba, size, before, held) && |after| == |held| && at + length <= size
    requires forall a :: 0 <= a < |held| && !(lba * BLOCK_LENGTH + at <= a < lba * BLOCK_LENGTH + at + length) ==> after[a] == held[a]
    ensures Confined(lba, size, before, after)
  {
  }

  /** The whole transfer as one copy. */
  ghost predicate Copied(lba: nat, size: nat, buffer: seq<byte>, storage: seq<byte>)
  {
    size <= |buffer| && lba * BLOCK_LENGTH + size <= |storage|
    && buffer[..size] == storage[lba * BLOCK_LENGTH..lba * BLOCK_LENGTH + size]
  }

  lemma {:induction false} LastEnds(cs: seq<Chunk>, done: nat, limit: nat)
    requires Tiles(cs, done, limit) && cs != []
    ensures cs[|cs| - 1].End() == done
  {
  }

  /** Chunks that have all arrived make up the single copy. */
  lemma {:induction false} TilesCopy(cs: seq<Chunk>, size: nat, limit: nat, lba: nat, buffer: seq<byte>, storage: seq<byte>)
    requires Tiles(cs, size, limit) && cs != [] && AllOk(cs) && AllMoved(cs, lba, buffer, storage)
    ensures Copied(lba, size, buffer, storage)
  {
    hide Tiles;
    var n := |cs| - 1;
    LastEnds(cs, size, limit);
    assert cs[n] in cs && Moved(cs[n], lba, buffer, storage);
    forall a | 0 <= a < size
      ensures buffer[a] == storage[lba * BLOCK_LENGTH + a]
    {
      var k := TileOf(cs, size, limit, a);
      assert cs[k] in cs && Moved(cs[k], lba, buffer, storage);
    }
  }

  /** The status the loop ends with is that of the last chunk. */
  predicate ReportsSuccess(cs: seq<Chunk>)
  {
    cs != [] && cs[|cs| - 1].ok
  }

  // ---------- What a reported success is worth ----------

  /** Every chunk is as long as the limit. */
  predicate AllFull(cs: seq<Chunk>, limit: nat)
  {
    forall c | c in cs :: c.length == limit
  }

  /** The media's block size was 512 after every chunk. */
  predicate Steady(cs: seq<Chunk>)
  {
    forall c | c in cs :: c.blockSize == BLOCK_LENGTH
  }

  predicate SteadyBeforeLast(cs: seq<Chunk>)
  {
    cs == [] || Steady(cs[..|cs| - 1])
  }

  /** Chunks that follow a steady stretch are sent to their own blocks. */
  ghost predicate Addressed(cs: seq<Chunk>, lba: nat)
  {
    forall k :: 0 <= k < |cs| && Steady(cs[..k]) ==> cs[k].block * BLOCK_LENGTH == lba * BLOCK_LENGTH + cs[k].offset
  }

  /** The courses that the chunk loop can take over `size` bytes: all chunks but the last are full. */
  ghost predicate Course(cs: seq<Chunk>, lba: nat, size: nat, limit: nat)
  {
    && Tiles(cs, size, limit) && Addressed(cs, lba)
    && (cs == [] || AllFull(cs[..|cs| - 1], limit))
  }

  /** A request within the limit goes in one chunk. */
  lemma {:induction false} ShortIsOneChunk(cs: seq<Chunk>, lba: nat, size: nat, limit: nat)
    requires Course(cs, lba, size, limit) && 0 < size <= limit
    ensures |cs| == 1 && SteadyBeforeLast(cs) && (ReportsSuccess(cs) <==> AllOk(cs))
  {
    if |cs| > 1 {
      MoreThanOneChunk(cs, lba, size, limit);
    }
    assert forall c :: c in cs ==> c == cs[0];
  }

  lemma {:induction false} MoreThanOneChunk(cs: seq<Chunk>, lba: nat, size: nat, limit: nat)
    requires Course(cs, lba, size, limit) && |cs| > 1
    ensures limit < size
  {
    var n := |cs| - 1;
    var before := cs[..n];
    assert before[n - 1] in before;
    LastEnds(before, cs[n].offset, limit);
  }

  /** `n` full chunks, each at its own blocks; the first fails three times, the others arrive. */
  ghost function FirstFails(lba: nat, n: nat, maximum: nat): seq<Chunk>
  {
    if n == 0 then []
    else
      FirstFails(lba, n - 1, maximum)
      + [Chunk((n - 1) * (maximum * BLOCK_LENGTH), maximum * BLOCK_LENGTH, ToWord(lba + (n - 1) * maximum),
               DATA_COMMAND_RETRIES, n > 1, BLOCK_LENGTH)]
  }

  lemma {:induction false} FirstFailsRuns(lba: nat, n: nat, maximum: nat)
    requires 0 < n && 0 < maximum && lba + n * maximum <= TWO_TO_THE_32
    ensures var cs, limit := FirstFails(lba, n, maximum), maximum * BLOCK_LENGTH;
            && |cs| == n && Tiles(cs, n * limit, limit) && AllFull(cs, limit) && Steady(cs) && Addressed(cs, lba)
            && !cs[0].ok
  {
    hide Tiles, Addressed, ToWord;
    var limit := maximum * BLOCK_LENGTH;
    var front := FirstFails(lba, n - 1, maximum);
    var c := Chunk((n - 1) * limit, limit, ToWord(lba + (n - 1) * maximum), DATA_COMMAND_RETRIES, n > 1, BLOCK_LENGTH);
    assert (n - 1) * maximum + maximum == n * maximum && (n - 1) * limit + limit == n * limit;
    assert c.block * BLOCK_LENGTH == lba * BLOCK_LENGTH + c.offset by {
      InRange(lba + (n - 1) * maximum);
      assert (lba + (n - 1) * maximum) * BLOCK_LENGTH == lba * BLOCK_LENGTH + (n - 1) * limit;
    }
    if n > 1 {
      FirstFailsRuns(lba, n - 1, maximum);
    } else {
      NoChunks(limit, lba, [], []);
    }
    TilesSnoc(front, (n - 1) * limit, limit, c);
    AddressedSnoc(front, lba, c);
  }

  lemma {:induction false} InRange(n: nat)
    requires n < TWO_TO_THE_32
    ensures ToWord(n) == n
  {
  }

  lemma {:induction false} AddressedSnoc(cs: seq<Chunk>, lba: nat, c: Chunk)
    requires Addressed(cs, lba)
    requires Steady(cs) ==> c.block * BLOCK_LENGTH == lba * BLOCK_LENGTH + c.offset
    ensures Addressed(cs + [c], lba)
  {
    forall k | 0 <= k < |cs| + 1 && Steady((cs + [c])[..k])
      ensures (cs + [c])[k].block * BLOCK_LENGTH == lba * BLOCK_LENGTH + (cs + [c])[k].offset
    {
      assert (cs + [c])[..k] == cs[..k];
      if k == |cs| {
        assert cs[..k] == cs;
      }
    }
  }

  /** A request over the limit can lose its first chunk and report success. */
  lemma {:induction false} LongCanFail(lba: nat, size: nat, maximum: nat) returns (cs: seq<Chunk>)
    requires 0 < maximum && maximum * BLOCK_LENGTH < size && size % BLOCK_LENGTH == 0
    requires lba * BLOCK_LENGTH + size <= TWO_TO_THE_32 * BLOCK_LENGTH
    ensures Course(cs, lba, size, maximum * BLOCK_LENGTH) && ReportsSuccess(cs) && !AllOk(cs)
  {
    hide Tiles, Addressed, ToWord, FirstFails;
    var limit := maximum * BLOCK_LENGTH;
    var n := (size - 1) / limit;
    Division(size, limit);
    assert n * limit == n * maximum * BLOCK_LENGTH;
    var front := FirstFails(lba, n, maximum);
    FirstFailsRuns(lba, n, maximum);
    var c := Chunk(n * limit, size - n * limit, ToWord(lba + n * maximum), 1, true, BLOCK_LENGTH);
    InRange(lba + n * maximum);
    TilesSnoc(front, n * limit, limit, c);
    AddressedSnoc(front, lba, c);
    cs := front + [c];
    assert cs[..|cs| - 1] == front && cs[0] in cs;
  }

  lemma {:induction false} Division(size: nat, limit: nat)
    requires 0 < limit < size
    ensures var n := (size - 1) / limit; 1 <= n && n * limit < size <= n * limit + limit
  {
  }

  /**
   All the blocks or an error: a reported success is worth that, whatever the card does,
   exactly for requests that fit one chunk. It is then also sure that everything went to
   its own blocks.
   */
  lemma {:induction false} AllOrErrorExactly(lba: nat, size: nat, maximum: nat)
    requires 0 < maximum && 0 < size && size % BLOCK_LENGTH == 0
    requires lba * BLOCK_LENGTH + size <= TWO_TO_THE_32 * BLOCK_LENGTH
    ensures (forall cs :: Course(cs, lba, size, maximum * BLOCK_LENGTH) && ReportsSuccess(cs) ==> AllOk(cs))
            <==> size <= maximum * BLOCK_LENGTH
    ensures (forall cs :: Course(cs, lba, size, maximum * BLOCK_LENGTH) && ReportsSuccess(cs) ==> AllOk(cs) && SteadyBeforeLast(cs))
            <==> size <= maximum * BLOCK_LENGTH
  {
    hide Course, ReportsSuccess, AllOk, SteadyBeforeLast;
    var limit := maximum * BLOCK_LENGTH;
    if size <= limit {
      forall cs | Course(cs, lba, size, limit) && ReportsSuccess(cs)
        ensures AllOk(cs) && SteadyBeforeLast(cs)
      {
        ShortIsOneChunk(cs, lba, size, limit);
      }
    } else {
      var cs := LongCanFail(lba, size, maximum);
    }
  }

  /**
   A recovery that leaves the block size at zero: where dividing by zero yields zero, the
   second of two written chunks goes over the first, although both are reported to have
   arrived. The copy is then right only by accident.
   */
  lemma {:induction false} ZeroBlockSizeMisplaces(lba: word, buffer: seq<byte>, storage: seq<byte>)
    requires |buffer| == 2 * BLOCK_LENGTH && lba * BLOCK_LENGTH + 2 * BLOCK_LENGTH <= |storage|
    ensures var cs := [Chunk(0, BLOCK_LENGTH, lba, 2, true, 0), Chunk(BLOCK_LENGTH, BLOCK_LENGTH, lba, 1, true, 0)];
            Course(cs, lba, 2 * BLOCK_LENGTH, BLOCK_LENGTH) && ReportsSuccess(cs) && AllOk(cs)
    ensures var at := lba * BLOCK_LENGTH;
            var once := ApplyOne(storage, Write(at, buffer[..BLOCK_LENGTH]));
            var twice := ApplyOne(once, Write(at, buffer[BLOCK_LENGTH..]));
            Copied(lba, 2 * BLOCK_LENGTH, buffer, twice)
            <==> buffer[..BLOCK_LENGTH] == buffer[BLOCK_LENGTH..] == storage[at + BLOCK_LENGTH..at + 2 * BLOCK_LENGTH]
  {
    MisplacedCourse(lba);
    hide Tiles, Addressed, ApplyOne;
    var at := lba * BLOCK_LENGTH;
    var once := ApplyOne(storage, Write(at, buffer[..BLOCK_LENGTH]));
    var twice := ApplyOne(once, Write(at, buffer[BLOCK_LENGTH..]));
    assert twice[at..at + BLOCK_LENGTH] == buffer[BLOCK_LENGTH..];
    assert twice[at + BLOCK_LENGTH..at + 2 * BLOCK_LENGTH] == storage[at + BLOCK_LENGTH..at + 2 * BLOCK_LENGTH];
    assert twice[at..at + 2 * BLOCK_LENGTH] == twice[at..at + BLOCK_LENGTH] + twice[at + BLOCK_LENGTH..at + 2 * BLOCK_LENGTH];
    assert buffer == buffer[..BLOCK_LENGTH] + buffer[BLOCK_LENGTH..];
    assert buffer[..2 * BLOCK_LENGTH] == buffer;
  }

  lemma {:induction false} MisplacedCourse(lba: word)
    ensures var cs := [Chunk(0, BLOCK_LENGTH, lba, 2, true, 0), Chunk(BLOCK_LENGTH, BLOCK_LENGTH, lba, 1, true, 0)];
            Course(cs, lba, 2 * BLOCK_LENGTH, BLOCK_LENGTH) && ReportsSuccess(cs) && AllOk(cs)
  {
    hide Tiles, Addressed;
    var c, d := Chunk(0, BLOCK_LENGTH, lba, 2, true, 0), Chunk(BLOCK_LENGTH, BLOCK_LENGTH, lba, 1, true, 0);
    NoChunks(BLOCK_LENGTH, lba, [], []);
    TilesSnoc([], 0, BLOCK_LENGTH, c);
    AddressedSnoc([], lba, c);
    TilesSnoc([c], BLOCK_LENGTH, BLOCK_LENGTH, d);
    assert c in [c];
    AddressedSnoc([c], lba, d);
    assert [] + [c] == [c] && [c] + [d] == [c, d] && [c, d][..1] == [c];
  }

  // ---------- The commands behind a transfer ----------

  /** The same command some times over. */
  function Repeats(sent: Sent, n: nat): (r: seq<Sent>)
    ensures |r| == n
  {
    seq(n, _ => sent)
  }

  /** What the chunks have sent: each its own command, at its own block, as often as it was tried. */
  function Commands(cmd: Command, cs: seq<Chunk>): seq<Sent>
  {
    if cs == [] then []
    else
      var c := cs[|cs| - 1];
      Commands(cmd, cs[..|cs| - 1]) + Repeats(Sent(cmd, c.block), c.tries)
  }

  /** All tries but those that worked. */
  function FailedTries(cs: seq<Chunk>): nat
  {
    if cs == [] then 0
    else
      var c := cs[|cs| - 1];
      FailedTries(cs[..|cs| - 1]) + if c.ok && c.tries > 0 then c.tries - 1 else c.tries
  }

  lemma {:induction false} NoCommands(cmd: Command)
    ensures Commands(cmd, []) == [] && FailedTries([]) == 0
  {
  }

  lemma {:induction false} CommandsSnoc(cmd: Command, cs: seq<Chunk>, c: Chunk)
    ensures Commands(cmd, cs + [c]) == Commands(cmd, cs) + Repeats(Sent(cmd, c.block), c.tries)
    ensures FailedTries(cs + [c]) == FailedTries(cs) + if c.ok && c.tries > 0 then c.tries - 1 else c.tries
  {
    assert (cs + [c])[..|cs|] == cs;
  }

  /** A chunk that did not arrive has cost three failed commands. */
  lemma {:induction false} FailuresShow(cs: seq<Chunk>, size: nat, limit: nat)
    requires Tiles(cs, size, limit)
    ensures FailedTries(cs) < DATA_COMMAND_RETRIES ==> AllOk(cs)
    ensures cs != [] && !ReportsSuccess(cs) ==> FailedTries(cs) >= DATA_COMMAND_RETRIES
  {
    if cs != [] {
      var n := |cs| - 1;
      FailuresShow(cs[..n], cs[n].offset, limit);
      assert forall c :: c in cs ==> c in cs[..n] || c == cs[n];
    }
  }

  /** A request for one block uses the single-block command; chunks of a longer one never do. */
  function DataCommand(r: Request): Command
  {
    if ToWord(r.size / BLOCK_LENGTH) == 1 then
      (if r.direction == ReadBlocks then ReadSingleBlock else WriteSingleBlock)
    else if r.direction == ReadBlocks then ReadMultiBlock else WriteMultiBlock
  }

  /** The command reads or writes as the request says, and moves several blocks unless the request is for one. */
  lemma {:induction false} DataCommandFits(r: Request)
    ensures var c := DataCommand(r);
            && c.MovesData() && (c.IsMultiBlock() <==> ToWord(r.size / BLOCK_LENGTH) != 1)
            && (c in {ReadSingleBlock, ReadMultiBlock} <==> r.direction == ReadBlocks)
  {
  }

  // ---------- The loop ----------

  /** The byte counters of the loop: whole blocks are done and remain. */
  predicate Whole(at: nat, remaining: nat)
  {
    at % BLOCK_LENGTH == 0 && remaining % BLOCK_LENGTH == 0
  }

  /** The span ends within the 32-bit block numbers that the card is given. */
  predicate InReach(lba: nat, size: nat)
  {
    lba * BLOCK_LENGTH + size <= TWO_TO_THE_32 * BLOCK_LENGTH
  }

  /** The block number is that of the next chunk. */
  predicate Aligned(lba: nat, at: nat, remaining: nat, current: word)
  {
    remaining > 0 ==> current * BLOCK_LENGTH == lba * BLOCK_LENGTH + at
  }

  lemma {:induction false} StartAligned(lba: nat, size: word)
    requires size % BLOCK_LENGTH == 0
    ensures Whole(0, size)
    ensures InReach(lba, size) ==> Aligned(lba, 0, size, ToWord(lba))
  {
  }

  lemma {:induction false} AddressIs(lba: nat, at: nat, remaining: nat, current: word)
    requires Aligned(lba, at, remaining, current) && remaining > 0
    ensures current * BLOCK_LENGTH == lba * BLOCK_LENGTH + at
  {
  }

  /** One turn of the loop: a chunk of whole blocks, and with a block size of 512 a block number that stays exact. */
  lemma {:induction false} StepAligned(lba: nat, at: nat, remaining: nat, current: word, maximum: nat, length: nat)
    requires Whole(at, remaining) && remaining > 0 && maximum > 0
    requires length == if remaining < maximum * BLOCK_LENGTH then remaining else maximum * BLOCK_LENGTH
    ensures 0 < length <= remaining && length % BLOCK_LENGTH == 0 && Whole(at + length, remaining - length)
    ensures InReach(lba, at + remaining) && Aligned(lba, at, remaining, current) ==>
              Aligned(lba, at + length, remaining - length, ToWord(current + length / BLOCK_LENGTH))
  {
    var n := length / BLOCK_LENGTH;
    assert length == n * BLOCK_LENGTH;
    if remaining - length > 0 && InReach(lba, at + remaining) && Aligned(lba, at, remaining, current) {
      assert (current + n) * BLOCK_LENGTH == lba * BLOCK_LENGTH + at + length;
      assert current + n < TWO_TO_THE_32;
    }
  }

  lemma {:induction false} NoChunks(limit: nat, lba: nat, buffer: seq<byte>, storage: seq<byte>)
    ensures Tiles([], 0, limit) && AllMoved([], lba, buffer, storage) && !ReportsSuccess([]) && Addressed([], lba)
    ensures Steady([]) && SteadyBeforeLast([]) && AllFull([], limit)
  {
  }

  lemma {:induction false} FullSnoc(cs: seq<Chunk>, c: Chunk, limit: nat)
    requires AllFull(cs, limit)
    ensures AllFull((cs + [c])[..|cs|], limit)
    ensures c.length == limit ==> AllFull(cs + [c], limit)
  {
    assert (cs + [c])[..|cs|] == cs;
  }

  lemma {:induction false} SteadySnoc(cs: seq<Chunk>, c: Chunk)
    ensures SteadyBeforeLast(cs + [c]) <==> Steady(cs)
    ensures Steady(cs + [c]) <==> Steady(cs) && c.blockSize == BLOCK_LENGTH
    ensures Steady(cs) ==> SteadyBeforeLast(cs)
  {
    var all := cs + [c];
    assert all[..|cs|] == cs;
    assert forall x :: x in cs ==> x in all;
    assert c in all;
  }

  /** How the loop stands before the chunk at `at`: what has been sent, to where, and what comes next. */
  ghost predicate Underway(cs: seq<Chunk>, lba: nat, at: nat, remaining: nat, current: word, limit: nat, fits: bool)
  {
    && Tiles(cs, at, limit) && (fits ==> Addressed(cs, lba))
    && (fits && Steady(cs) ==> Aligned(lba, at, remaining, current))
    && (if cs == [] then current == ToWord(lba) else cs[0].block == ToWord(lba))
    && (remaining > 0 ==> AllFull(cs, limit)) && (cs == [] || AllFull(cs[..|cs| - 1], limit))
  }

  /** Chunks that have arrived are in place, and nothing else has changed. */
  ghost predicate Arrived(cs: seq<Chunk>, lba: nat, size: nat, buffer: seq<byte>, storage: seq<byte>, was: seq<byte>)
  {
    AllMoved(cs, lba, buffer, storage) && Confined(lba, size, was, storage)
  }

  lemma {:induction false} StartUnderway(lba: nat, size: word, limit: nat, buffer: seq<byte>, storage: seq<byte>)
    requires size % BLOCK_LENGTH == 0
    ensures Whole(0, size) && !ReportsSuccess([])
    ensures Underway([], lba, 0, size, ToWord(lba), limit, InReach(lba, size)) && Arrived([], lba, size, buffer, storage, storage)
  {
    NoChunks(limit, lba, buffer, storage);
    StartAligned(lba, size);
    ConfinedStart(lba, size, storage);
  }

  /** One more chunk, tried at its block, and the block number moved on. */
  lemma {:induction false} TurnKeeps(cs: seq<Chunk>, lba: nat, at: nat, remaining: nat, current: word, maximum: nat, fits: bool,
                                     c: Chunk, count: word)
    requires maximum > 0 && remaining > 0 && Whole(at, remaining) && (fits ==> InReach(lba, at + remaining))
    requires Underway(cs, lba, at, remaining, current, maximum * BLOCK_LENGTH, fits)
    requires c.offset == at && c.block == current && c.length == if remaining < maximum * BLOCK_LENGTH then remaining else maximum * BLOCK_LENGTH
    requires 1 <= c.tries <= DATA_COMMAND_RETRIES && (c.ok || c.tries == DATA_COMMAND_RETRIES)
    requires c.blockSize == BLOCK_LENGTH || c.blockSize == 0
    requires c.blockSize == BLOCK_LENGTH ==> count == c.length / BLOCK_LENGTH
    ensures Underway(cs + [c], lba, at + c.length, remaining - c.length, ToWord(current + count), maximum * BLOCK_LENGTH, fits)
  {
    hide Tiles, Addressed, AllFull, Steady, SteadyBeforeLast, Aligned, InReach, Whole;
    var limit := maximum * BLOCK_LENGTH;
    StepAligned(lba, at, remaining, current, maximum, c.length);
    SteadySnoc(cs, c);
    FullSnoc(cs, c, limit);
    TilesSnoc(cs, at, limit, c);
    if fits {
      if Steady(cs) {
        AddressIs(lba, at, remaining, current);
      }
      AddressedSnoc(cs, lba, c);
    }
  }

  lemma {:induction false} NextArrives(cs: seq<Chunk>, lba: nat, size: nat, at: nat, remaining: nat, current: word, limit: nat, c: Chunk,
                                       before: seq<byte>, held: seq<byte>, buffer: seq<byte>, storage: seq<byte>, was: seq<byte>)
    requires Underway(cs, lba, at, remaining, current, limit, true) && Steady(cs) && Arrived(cs, lba, size, before, held, was)
    requires c.offset == at && c.block == current && 0 < c.length <= remaining && at + remaining == size
    requires |buffer| == |before| && |storage| == |held| && at + c.length <= |buffer|
    requires forall a :: 0 <= a < |before| && !(at <= a < c.End()) ==> buffer[a] == before[a]
    requires forall a :: 0 <= a < |held| && !(current * BLOCK_LENGTH <= a < current * BLOCK_LENGTH + c.length) ==> storage[a] == held[a]
    requires c.ok ==> current * BLOCK_LENGTH + c.length <= |storage|
    requires c.ok ==> forall a :: at <= a < at + c.length ==> buffer[a] == storage[current * BLOCK_LENGTH + a - at]
    ensures Arrived(cs + [c], lba, size, buffer, storage, was)
  {
    hide Tiles, Addressed, AllFull, Steady, Aligned, AllMoved, Moved, Confined;
    AddressIs(lba, at, remaining, current);
    if c.ok {
      ChunkMoved(c, lba, buffer, storage);
    }
    ChunkKept(cs, at, limit, lba, c, before, held, buffer, storage);
    ConfinedStep(lba, size, at, c.length, was, held, storage);
  }

  lemma {:induction false} Finished(cs: seq<Chunk>, lba: nat, size: nat, current: word, limit: nat, fits: bool,
                                    buffer: seq<byte>, storage: seq<byte>, was: seq<byte>)
    requires Underway(cs, lba, size, 0, current, limit, fits) && cs != []
    requires fits && SteadyBeforeLast(cs) ==> Arrived(cs, lba, size, buffer, storage, was)
    ensures cs[0].block == ToWord(lba) && Tiles(cs, size, limit) && AllFull(cs[..|cs| - 1], limit)
    ensures fits ==> Course(cs, lba, size, limit)
    ensures fits && SteadyBeforeLast(cs) ==> AllMoved(cs, lba, buffer, storage) && Confined(lba, size, was, storage)
  {
    hide Tiles, Addressed, AllFull, Steady, SteadyBeforeLast, Aligned, AllMoved, Confined;
  }

  lemma {:induction false} ChunkMoved(c: Chunk, lba: nat, buffer: seq<byte>, storage: seq<byte>)
    requires c.End() <= |buffer| && lba * BLOCK_LENGTH + c.End() <= |storage|
    requires forall a :: c.offset <= a < c.End() ==> buffer[a] == storage[lba * BLOCK_LENGTH + c.offset + a - c.offset]
    ensures Moved(c, lba, buffer, storage)
  {
  }

  lemma {:induction false} LastReports(cs: seq<Chunk>, c: Chunk)
    ensures ReportsSuccess(cs + [c]) == c.ok
  {
  }

  class BlockDevice {
    const storage: array<byte>
    const maximumBlockCount: nat
    var media: BlockMedia

    /** The data commands given to the engine, and how many of them failed. */
    ghost var sent: seq<Sent>
    ghost var failures: nat

    constructor (storage: array<byte>, maximumBlockCount: nat, media: BlockMedia)
      ensures this.storage == storage && this.maximumBlockCount == maximumBlockCount && this.media == media
      ensures sent == [] && failures == 0
    {
      this.storage, this.maximumBlockCount, this.media := storage, maximumBlockCount, media;
      sent, failures := [], 0;
    }

    /**
     What a failed command's error recovery may do to the media: a reset clears the block
     size, and a completed initialisation sets it to 512 again.
     */
    method Recover()
      modifies this`media
      ensures media == old(media) || media.blockSize == BLOCK_LENGTH || media.blockSize == 0
    {
      var reset, initialized: bool := *, *;
      if reset {
        media := *;
        media := media.(blockSize := if initialized then BLOCK_LENGTH else 0);
      }
    }

    /**
     One data command: it moves the whole chunk, or fails and scrambles nothing but its
     own target range, and the recovery may reset the card.
     */
    method SendData(cmd: Command, direction: Direction, lba: word, buffer: array<byte>, at: nat, size: nat) returns (ok: bool)
      requires at + size <= buffer.Length && buffer != storage
      modifies buffer, storage, this`media, this`sent, this`failures
      ensures direction.ReadBlocks? ==> storage[..] == old(storage[..])
      ensures direction.WriteBlocks? ==> buffer[..] == old(buffer[..])
      ensures forall a :: 0 <= a < buffer.Length && !(at <= a < at + size) ==> buffer[a] == old(buffer[a])
      ensures forall a :: 0 <= a < storage.Length && !(lba * BLOCK_LENGTH <= a < lba * BLOCK_LENGTH + size) ==> storage[a] == old(storage[a])
      ensures ok ==> lba * BLOCK_LENGTH + size <= storage.Length
                     && forall a :: at <= a < at + size ==> buffer[a] == storage[lba * BLOCK_LENGTH + a - at]
      ensures sent == old(sent) + [Sent(cmd, lba)] && failures == old(failures) + (if ok then 0 else 1)
      ensures if ok then media == old(media) else media == old(media) || media.blockSize == BLOCK_LENGTH || media.blockSize == 0
    {
      var first := lba * BLOCK_LENGTH;
      sent := sent + [Sent(cmd, lba)];
      if first + size > storage.Length {
        Recover();
        failures := failures + 1;
        return false;
      }
      ok := *;
      if !ok {
        Recover();
        failures := failures + 1;
      }
      ghost var left, counted, given := media, failures, sent;
      if direction.ReadBlocks? {
        for k := 0 to size
          invariant media == left && failures == counted && sent == given
          invariant storage[..] == old(storage[..])
          invariant forall a :: 0 <= a < buffer.Length && !(at <= a < at + size) ==> buffer[a] == old(buffer[a])
          invariant ok ==> forall a :: at <= a < at + k ==> buffer[a] == storage[first + a - at]
        {
          buffer[at + k] := storage[first + k];
          if !ok {
            buffer[at + k] := *;
          }
        }
      } else {
        for k := 0 to size
          invariant media == left && failures == counted && sent == given
          invariant buffer[..] == old(buffer[..])
          invariant forall a :: 0 <= a < storage.Length && !(first <= a < first + size) ==> storage[a] == old(storage[a])
          invariant ok ==> forall a :: at <= a < at + k ==> buffer[a] == storage[first + a - at]
        {
          storage[first + k] := buffer[at + k];
          if !ok {
            storage[first + k] := *;
          }
        }
      }
    }

    /** A chunk, tried until it works or the third try fails. */
    method TryChunk(cmd: Command, direction: Direction, lba: word, buffer: array<byte>, at: nat, size: nat) returns (ok: bool, ghost tries: nat)
      requires at + size <= buffer.Length && buffer != storage
      requires media.blockSize == BLOCK_LENGTH || media.blockSize == 0
      modifies buffer, storage, this`media, this`sent, this`failures
      ensures direction.ReadBlocks? ==> storage[..] == old(storage[..])
      ensures direction.WriteBlocks? ==> buffer[..] == old(buffer[..])
      ensures forall a :: 0 <= a < buffer.Length && !(at <= a < at + size) ==> buffer[a] == old(buffer[a])
      ensures forall a :: 0 <= a < storage.Length && !(lba * BLOCK_LENGTH <= a < lba * BLOCK_LENGTH + size) ==> storage[a] == old(storage[a])
      ensures ok ==> lba * BLOCK_LENGTH + size <= storage.Length
                     && forall a :: at <= a < at + size ==> buffer[a] == storage[lba * BLOCK_LENGTH + a - at]
      ensures media.blockSize == BLOCK_LENGTH || media.blockSize == 0
      ensures ok && tries == 1 ==> media == old(media)
      ensures failures == old(failures) + (if ok then tries - 1 else tries)
      ensures sent == old(sent) + Repeats(Sent(cmd, lba), tries)
      ensures 1 <= tries <= DATA_COMMAND_RETRIES && (ok || tries == DATA_COMMAND_RETRIES)
    {
      ok, tries := false, 0;
      var retry := 0;
      while retry < DATA_COMMAND_RETRIES
        invariant 0 <= retry <= DATA_COMMAND_RETRIES && tries == retry && !ok
        invariant media.blockSize == BLOCK_LENGTH || media.blockSize == 0
        invariant tries == 0 ==> media == old(media)
        invariant failures == old(failures) + tries && sent == old(sent) + Repeats(Sent(cmd, lba), tries)
        invariant direction.ReadBlocks? ==> storage[..] == old(storage[..])
        invariant direction.WriteBlocks? ==> buffer[..] == old(buffer[..])
        invariant forall a :: 0 <= a < buffer.Length && !(at <= a < at + size) ==> buffer[a] == old(buffer[a])
        invariant forall a :: 0 <= a < storage.Length && !(lba * BLOCK_LENGTH <= a < lba * BLOCK_LENGTH + size) ==> storage[a] == old(storage[a])
      {
        tries := tries + 1;
        ok := SendData(cmd, direction, lba, buffer, at, size);
        if ok {
          return;
        }
        retry := retry + 1;
      }
    }

    /** The division in the loop; dividing by a block size of zero has no defined result. */
    method BlocksIn(length: word) returns (count: word)
      ensures media.blockSize == BLOCK_LENGTH ==> count == length / BLOCK_LENGTH
    {
      count := *;
      if media.blockSize > 0 {
        count := ToWord(length / media.blockSize);
      }
    }

    /**
     The chunk loop: 32-bit counters, chunks of at most `maximumBlockCount` blocks, a
     division by the media's block size of the moment, and no way out when a chunk has
     failed three times.
     */
    method MoveChunks(cmd: Command, direction: Direction, lba: nat, buffer: array<byte>, size: word) returns (ok: bool, ghost cs: seq<Chunk>)
      requires size <= buffer.Length && buffer != storage && 0 < size && size % BLOCK_LENGTH == 0
      requires 0 < maximumBlockCount && maximumBlockCount * BLOCK_LENGTH < TWO_TO_THE_32
      requires media.blockSize == BLOCK_LENGTH
      modifies buffer, storage, this`media, this`sent, this`failures
      ensures cs != [] && cs[0].block == ToWord(lba)
      ensures Tiles(cs, size, maximumBlockCount * BLOCK_LENGTH) && AllFull(cs[..|cs| - 1], maximumBlockCount * BLOCK_LENGTH)
      ensures InReach(lba, size) ==> Course(cs, lba, size, maximumBlockCount * BLOCK_LENGTH)
      ensures ok == ReportsSuccess(cs)
      ensures sent == old(sent) + Commands(cmd, cs) && failures == old(failures) + FailedTries(cs)
      ensures InReach(lba, size) && SteadyBeforeLast(cs) ==> AllMoved(cs, lba, buffer[..], storage[..])
      ensures direction.ReadBlocks? ==> storage[..] == old(storage[..])
      ensures direction.WriteBlocks? ==> buffer[..] == old(buffer[..])
      ensures forall a :: size <= a < buffer.Length ==> buffer[a] == old(buffer[a])
      ensures InReach(lba, size) && SteadyBeforeLast(cs) ==> Confined(lba, size, old(storage[..]), storage[..])
    {
      hide Tiles, AllMoved, Aligned, Whole, ReportsSuccess, WellTried, Moved, AllFull, Steady, SteadyBeforeLast, Addressed, Confined, InReach, Commands,
        FailedTries, Arrived, Underway, Repeats;
      ghost var fits := InReach(lba, size);
      var limit := maximumBlockCount * BLOCK_LENGTH;
      var remaining: nat, at: nat, current: word := size, 0, ToWord(lba);
      ok, cs := false, [];
      NoCommands(cmd);
      StartUnderway(lba, size, limit, buffer[..], storage[..]);
      ghost var was := storage[..];
      while remaining > 0
        invariant remaining + at == size && Whole(at, remaining) && (at > 0 ==> cs != []) && ok == ReportsSuccess(cs)
        invariant Underway(cs, lba, at, remaining, current, limit, fits)
        invariant sent == old(sent) + Commands(cmd, cs) && failures == old(failures) + FailedTries(cs)
        invariant media.blockSize == BLOCK_LENGTH || media.blockSize == 0
        invariant fits && SteadyBeforeLast(cs) ==> Arrived(cs, lba, size, buffer[..], storage[..], was)
        invariant direction.ReadBlocks? ==> storage[..] == old(storage[..])
        invariant direction.WriteBlocks? ==> buffer[..] == old(buffer[..])
        invariant forall a :: size <= a < buffer.Length ==> buffer[a] == old(buffer[a])
        decreases remaining
      {
        var length := if remaining < limit then remaining else limit;
        ghost var before, held := buffer[..], storage[..];
        ghost var tries;
        ok, tries := TryChunk(cmd, direction, current, buffer, at, length);
        ghost var c := Chunk(at, length, current, tries, ok, media.blockSize);
        LastReports(cs, c);
        CommandsSnoc(cmd, cs, c);
        SteadySnoc(cs, c);
        StepAligned(lba, at, remaining, current, maximumBlockCount, length);
        if fits && Steady(cs) {
          NextArrives(cs, lba, size, at, remaining, current, limit, c, before, held, buffer[..], storage[..], was);
        }
        assert sent == old(sent) + Commands(cmd, cs + [c]);
        var count := BlocksIn(length);
        TurnKeeps(cs, lba, at, remaining, current, maximumBlockCount, fits, c, count);
        cs := cs + [c];
        remaining := remaining - length;
        current := ToWord(current + count);
        at := at + length;
      }
      Finished(cs, lba, size, current, limit, fits, buffer[..], storage[..], was);
    }

    /**
     Marked repair: the block size is read once, and the loop is left when a chunk has
     failed. A success then is the whole copy, for requests of any size.
     */
    method MoveChunksOrStop(cmd: Command, direction: Direction, lba: nat, buffer: array<byte>, size: word) returns (ok: bool)
      requires size <= buffer.Length && buffer != storage && 0 < size && size % BLOCK_LENGTH == 0
      requires 0 < maximumBlockCount && maximumBlockCount * BLOCK_LENGTH < TWO_TO_THE_32
      requires InReach(lba, size) && media.blockSize == BLOCK_LENGTH
      modifies buffer, storage, this`media, this`sent, this`failures
      ensures ok ==> Copied(lba, size, buffer[..], storage[..])
      ensures direction.ReadBlocks? ==> storage[..] == old(storage[..])
      ensures direction.WriteBlocks? ==> buffer[..] == old(buffer[..])
      ensures forall a :: size <= a < buffer.Length ==> buffer[a] == old(buffer[a])
      ensures Confined(lba, size, old(storage[..]), storage[..])
    {
      hide Aligned, Whole;
      var limit := maximumBlockCount * BLOCK_LENGTH;
      var remaining: nat, at: nat, current: word := size, 0, ToWord(lba);
      StartAligned(lba, size);
      while remaining > 0
        invariant remaining + at == size && Whole(at, remaining) && Aligned(lba, at, remaining, current)
        invariant media.blockSize == BLOCK_LENGTH || media.blockSize == 0
        invariant at > 0 ==> Copied(lba, at, buffer[..], storage[..])
        invariant direction.ReadBlocks? ==> storage[..] == old(storage[..])
        invariant direction.WriteBlocks? ==> buffer[..] == old(buffer[..])
        invariant forall a :: size <= a < buffer.Length ==> buffer[a] == old(buffer[a])
        invariant Confined(lba, size, old(storage[..]), storage[..])
        decreases remaining
      {
        var length := if remaining < limit then remaining else limit;
        ghost var before, held, tries := buffer[..], storage[..], 0;
        AddressIs(lba, at, remaining, current);
        StepAligned(lba, at, remaining, current, maximumBlockCount, length);
        ok, tries := TryChunk(cmd, direction, current, buffer, at, length);
        if !ok {
          return;
        }
        CopyGrows(lba, at, length, before, held, buffer[..], storage[..]);
        remaining := remaining - length;
        current := ToWord(current + length / BLOCK_LENGTH);
        at := at + length;
      }
      ok := true;
    }

    /**
     IoBlocks. What it moves is the request's size modulo 2^32; when that is zero, the
     status is left to chance. A span accepted for running past block 2^64 goes to the
     block of the same number modulo 2^32, wherever that is.
     */
    method IoBlocks(r: Request, buffer: array<byte>) returns (status: Status, ghost cs: seq<Chunk>)
      requires r.hasBuffer ==> r.size <= buffer.Length
      requires buffer != storage && media.lastBlock < TWO_TO_THE_32
      requires 0 < maximumBlockCount && maximumBlockCount * BLOCK_LENGTH < TWO_TO_THE_32
      requires ReachesDivision(media, r) ==> media.blockSize == BLOCK_LENGTH
      modifies buffer, storage, this`media, this`sent, this`failures
      ensures Refusal(old(media), r).Some? ==>
                status == Refusal(old(media), r).value && cs == [] && buffer[..] == old(buffer[..]) && storage[..] == old(storage[..])
                && sent == old(sent) && failures == old(failures)
      ensures Refusal(old(media), r).None? && ToWord(r.size) > 0 ==>
                && cs != [] && (status == Success || status == DeviceError)
                && sent == old(sent) + Commands(DataCommand(r), cs) && failures == old(failures) + FailedTries(cs)
                && (status == DeviceError ==> failures >= old(failures) + DATA_COMMAND_RETRIES)
                && (failures < old(failures) + DATA_COMMAND_RETRIES ==> AllOk(cs))
      ensures Refusal(old(media), r).None? ==>
                && Tiles(cs, ToWord(r.size), maximumBlockCount * BLOCK_LENGTH)
                && (cs != [] ==> cs[0].block == ToWord(r.lba) && (status == Success <==> ReportsSuccess(cs)))
      ensures Refusal(old(media), r).None? && WithinNumbers(r) ==>
                && Course(cs, r.lba, ToWord(r.size), maximumBlockCount * BLOCK_LENGTH)
                && (SteadyBeforeLast(cs) ==> AllMoved(cs, r.lba, buffer[..], storage[..]))
                && (cs != [] && AllOk(cs) && SteadyBeforeLast(cs) ==> Copied(r.lba, ToWord(r.size), buffer[..], storage[..]))
                && (status == Success && 0 < ToWord(r.size) <= maximumBlockCount * BLOCK_LENGTH ==>
                      Copied(r.lba, ToWord(r.size), buffer[..], storage[..]))
      ensures r.direction.ReadBlocks? ==> storage[..] == old(storage[..])
      ensures r.direction.WriteBlocks? ==> buffer[..] == old(buffer[..])
      ensures forall a :: ToWord(r.size) <= a < buffer.Length ==> buffer[a] == old(buffer[a])
      ensures WithinNumbers(r) && SteadyBeforeLast(cs) ==> Confined(r.lba, ToWord(r.size), old(storage[..]), storage[..])
    {
      hide WithinNumbers, InReach, Commands, FailedTries, DataCommand, Tiles, AllMoved, ReportsSuccess, Moved, AllFull, Steady, SteadyBeforeLast, Addressed, Copied, SpanAccepted, AllOk;
      var refusal := Refusal(media, r);
      if refusal.Some? {
        return refusal.value, [];
      }
      CutSize(r.size);
      var total := ToWord(r.size);
      if total == 0 {
        NoChunks(maximumBlockCount * BLOCK_LENGTH, r.lba, buffer[..], storage[..]);
        status := *;
        return status, [];
      }
      AcceptedFits(r, media.lastBlock);
      var ok;
      ok, cs := MoveChunks(DataCommand(r), r.direction, r.lba, buffer, total);
      status := if ok then Success else DeviceError;
      FailuresShow(cs, total, maximumBlockCount * BLOCK_LENGTH);
      if WithinNumbers(r) && total <= maximumBlockCount * BLOCK_LENGTH {
        ShortIsOneChunk(cs, r.lba, total, maximumBlockCount * BLOCK_LENGTH);
      }
      if WithinNumbers(r) && AllOk(cs) && SteadyBeforeLast(cs) {
        TilesCopy(cs, total, maximumBlockCount * BLOCK_LENGTH, r.lba, buffer[..], storage[..]);
      }
    }
  }

  lemma {:induction false} CopyGrows(lba: nat, at: nat, length: nat, buffer: seq<byte>, storage: seq<byte>,
                                     buffer': seq<byte>, storage': seq<byte>)
    requires at > 0 ==> Copied(lba, at, buffer, storage)
    requires |buffer'| == |buffer| && |storage'| == |storage|
    requires forall a :: 0 <= a < |buffer| && !(at <= a < at + length) ==> buffer'[a] == buffer[a]
    requires forall a :: 0 <= a < |storage| && !(lba * BLOCK_LENGTH + at <= a < lba * BLOCK_LENGTH + at + length) ==> storage'[a] == storage[a]
    requires at + length <= |buffer| && lba * BLOCK_LENGTH + at + length <= |storage|
    requires forall a :: at <= a < at + length ==> buffer'[a] == storage'[lba * BLOCK_LENGTH + at + a - at]
    ensures Copied(lba, at + length, buffer', storage')
  {
    var first := lba * BLOCK_LENGTH;
    forall a | 0 <= a < at + length
      ensures buffer'[a] == storage'[first + a]
    {
      if a < at {
        assert buffer[..at][a] == storage[first..first + at][a];
      }
    }
  }

  /** Cutting a whole number of blocks to 32 bits leaves whole blocks, and no more of them. */
  lemma {:induction false} CutSize(size: nat)
    requires size % BLOCK_LENGTH == 0
    ensures ToWord(size) % BLOCK_LENGTH == 0 && ToWord(size) <= size
    ensures ToWord(size) / BLOCK_LENGTH <= ToWord(size / BLOCK_LENGTH)
  {
    hide ToWord;
    var q := size / BLOCK_LENGTH;
    var high, low := q / 0x80_0000, q % 0x80_0000;
    CutRemainder(size, high, low);
    CutBlocks(q);
  }

  lemma {:induction false} CutRemainder(size: nat, high: nat, low: nat)
    requires size == (high * 0x80_0000 + low) * BLOCK_LENGTH && low < 0x80_0000
    ensures ToWord(size) == low * BLOCK_LENGTH
  {
    assert size == high * TWO_TO_THE_32 + low * BLOCK_LENGTH;
    assert size / TWO_TO_THE_32 == high;
  }

  lemma {:induction false} CutBlocks(q: nat)
    ensures q % 0x80_0000 <= ToWord(q)
  {
    var high, low := q / TWO_TO_THE_32, q % TWO_TO_THE_32;
    var part, rest := low / 0x80_0000, low % 0x80_0000;
    assert q == (high * 0x200 + part) * 0x80_0000 + rest;
    assert q / 0x80_0000 == high * 0x200 + part;
  }

  /** An accepted span that does not run past block 2^64 is inside the first 2^32 blocks. */
  lemma {:induction false} AcceptedFits(r: Request, lastBlock: nat)
    requires SpanAccepted(r.lba, r.size, lastBlock) && lastBlock < TWO_TO_THE_32
    requires r.size % BLOCK_LENGTH == 0 && ToWord(r.size) > 0
    ensures WithinNumbers(r) ==> InReach(r.lba, ToWord(r.size))
  {
    CutSize(r.size);
    var count := ToWord(r.size / BLOCK_LENGTH);
    assert count >= 1 && count <= r.size / BLOCK_LENGTH;
    if WithinNumbers(r) {
      assert r.lba + count - 1 <= lastBlock;
    }
  }

  /** Adding a chunk behind the others keeps the ones that have arrived. */
  lemma {:induction false} ChunkKept(cs: seq<Chunk>, done: nat, limit: nat, lba: nat, c: Chunk,
                                     buffer: seq<byte>, storage: seq<byte>, buffer': seq<byte>, storage': seq<byte>)
    requires Tiles(cs, done, limit) && c.offset == done && AllMoved(cs, lba, buffer, storage)
    requires |buffer'| == |buffer| && |storage'| == |storage|
    requires forall a :: 0 <= a < |buffer| && !(c.offset <= a < c.End()) ==> buffer'[a] == buffer[a]
    requires forall a :: 0 <= a < |storage| && !(lba * BLOCK_LENGTH + c.offset <= a < lba * BLOCK_LENGTH + c.End()) ==> storage'[a] == storage[a]
    requires c.ok ==> Moved(c, lba, buffer', storage')
    ensures AllMoved(cs + [c], lba, buffer', storage')
  {
    var all := cs + [c];
    forall k | 0 <= k < |all| && all[k].ok
      ensures Moved(all[k], lba, buffer', storage')
    {
      if k < |cs| {
        TileInside(cs, done, limit, k);
        assert Moved(cs[k], lba, buffer, storage);
      }
    }
  }
}
