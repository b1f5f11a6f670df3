/** The pieces of a table file: handles of blocks, stored blocks with their trailers, and the footer. */
module TableFormat {
  import opened InternalKeys
  import opened Coding
  import opened Slices
  import opened Blocks
  import opened BlockBuilding
  import Log

  const TRAILER := 5
  const FOOTER := 48
  const HANDLES := 40  // room for two handles of at most 20 bytes
  const MAGIC := 0xdb4775248b80fb57
  const NO_COMPRESSION: Byte := 0

  // ----- Handles -----

  datatype BlockHandle = BlockHandle(offset: nat, size: nat)

  predicate HandleFits(h: BlockHandle) {
    h.offset < U64 && h.size < U64
  }

  function HandleBytes(h: BlockHandle): Bytes {
    Varint(h.offset) + Varint(h.size)
  }

  lemma HandleLength(h: BlockHandle)
    requires HandleFits(h)
    ensures |HandleBytes(h)| <= 20
  {
    VarintFits(h.offset);
    VarintFits(h.size);
  }

  method EncodeHandle(h: BlockHandle, dst: Bytes) returns (r: Bytes)
    requires HandleFits(h)
    ensures r == dst + HandleBytes(h)
  {
    r := PutVarint64(dst, h.offset);
    r := PutVarint64(r, h.size);
  }

  function ReadHandle(bs: Bytes): Option<(BlockHandle, Bytes)> {
    var a := ReadWord(bs, 10, U64);
    if a.None? then None
    else
      var b := ReadWord(bs[a.value.1..], 10, U64);
      if b.None? then None
      else Some((BlockHandle(a.value.0, b.value.0), bs[a.value.1..][b.value.1..]))
  }

  method DecodeHandle(input: Bytes) returns (r: Option<(BlockHandle, Bytes)>)
    ensures r == ReadHandle(input)
  {
    hide ReadVarint;
    var a := GetVarint64(input);
    if a.None? {
      return None;
    }
    var b := GetVarint64(a.value.1);
    if b.None? {
      return None;
    }
    r := Some((BlockHandle(a.value.0, b.value.0), b.value.1));
  }

  lemma HandleRoundTrip(h: BlockHandle, rest: Bytes)
    requires HandleFits(h)
    ensures ReadHandle(HandleBytes(h) + rest) == Some((h, rest))
  {
    hide Varint, ReadVarint;
    var a, b := Varint(h.offset), Varint(h.size);
    VarintFits(h.offset);
    VarintFits(h.size);
    VarintRoundTrip(h.offset, b + rest, 10);
    VarintRoundTrip(h.size, rest, 10);
    assert HandleBytes(h) + rest == a + (b + rest);
    assert (a + (b + rest))[|a|..] == b + rest && (b + rest)[|b|..] == rest;
  }

  // ----- The footer -----

  function FooterBytes(meta: BlockHandle, index: BlockHandle): (bs: Bytes)
    requires HandleFits(meta) && HandleFits(index)
    ensures |bs| == FOOTER
  {
    HandleLength(meta);
    HandleLength(index);
    var handles := HandleBytes(meta) + HandleBytes(index);
    handles + Log.Zeros(HANDLES - |handles|) + Fixed64(MAGIC)
  }

  method EncodeFooter(meta: BlockHandle, index: BlockHandle) returns (r: Bytes)
    requires HandleFits(meta) && HandleFits(index)
    ensures r == FooterBytes(meta, index)
  {
    hide Varint, Fixed32;
    HandleLength(meta);
    HandleLength(index);
    r := EncodeHandle(meta, []);
    r := EncodeHandle(index, r);
    r := r + Log.Zeros(HANDLES - |r|);  // Padding
    ghost var padded := r;
    r := r + Fixed32(MAGIC % U32);
    r := r + Fixed32(MAGIC / U32);
    assert r == padded + Fixed64(MAGIC);
  }

  /** Read a footer; None for a wrong magic number or handles that do not decode. */
  method DecodeFooter(input: Bytes) returns (r: Option<(BlockHandle, BlockHandle)>)
    requires |input| == FOOTER
    ensures forall meta, index :: HandleFits(meta) && HandleFits(index) && input == FooterBytes(meta, index) ==> r == Some((meta, index))
    ensures r.Some? ==> DecodeFixed64(input[HANDLES..]) == MAGIC
  {
    forall meta, index | HandleFits(meta) && HandleFits(index) && input == FooterBytes(meta, index)
      ensures FooterDecodes(input, meta, index)
    {
      FooterRoundTrip(meta, index);
    }
    hide ReadHandle, DecodeFixed32, HandleBytes, FooterBytes;
    assert input[HANDLES + 4..] == input[HANDLES..][4..];
    var lo := DecodeFixed32(input[HANDLES..]);
    var hi := DecodeFixed32(input[HANDLES + 4..]);
    if lo + U32 * hi != MAGIC {
      return None;
    }
    var meta := DecodeHandle(input);
    if meta.None? {
      return None;
    }
    var index := DecodeHandle(meta.value.1);
    if index.None? {
      return None;
    }
    r := Some((meta.value.0, index.value.0));
  }

  ghost predicate FooterDecodes(bs: Bytes, meta: BlockHandle, index: BlockHandle) {
    && |bs| == FOOTER && DecodeFixed64(bs[HANDLES..]) == MAGIC
    && var a := ReadHandle(bs);
    && a.Some? && a.value.0 == meta
    && var b := ReadHandle(a.value.1);
    && b.Some? && b.value.0 == index
  }

  lemma FooterRoundTrip(meta: BlockHandle, index: BlockHandle)
    requires HandleFits(meta) && HandleFits(index)
    ensures FooterDecodes(FooterBytes(meta, index), meta, index)
  {
    hide ReadHandle, HandleBytes, Fixed64, DecodeFixed64;
    HandleLength(meta);
    HandleLength(index);
    var a, b := HandleBytes(meta), HandleBytes(index);
    var padding := Log.Zeros(HANDLES - |a + b|) + Fixed64(MAGIC);
    var bs := FooterBytes(meta, index);
    assert bs == a + (b + padding);
    HandleRoundTrip(meta, b + padding);
    HandleRoundTrip(index, padding);
    assert bs[HANDLES..] == Fixed64(MAGIC) + [];
    Fixed64RoundTrip(MAGIC, []);
  }

  // ----- Stored blocks -----

  /** A block in the file: its contents, the compression type and the masked checksum of both. */
  function Stored(crc: Log.Checksum, contents: Bytes): (bs: Bytes)
    ensures |bs| == |contents| + TRAILER
  {
    contents + [NO_COMPRESSION] + Fixed32(Log.Mask(crc(contents + [NO_COMPRESSION])))
  }

  ghost predicate StoredAt(crc: Log.Checksum, file: Bytes, h: BlockHandle, contents: Bytes) {
    && HandleFits(h) && h.size == |contents| && h.offset + h.size + TRAILER <= |file|
    && file[h.offset..h.offset + h.size + TRAILER] == Stored(crc, contents)
  }

  /** Read a block: None when it is cut short, its checksum is wrong or its type is unknown. */
  method ReadBlock(crc: Log.Checksum, file: Bytes, h: BlockHandle, verify: bool) returns (r: Option<Bytes>)
    ensures forall contents :: StoredAt(crc, file, h, contents) ==> r == Some(contents)
    ensures verify && r.Some? ==> StoredAt(crc, file, h, r.value) || !HandleFits(h)
  {
    forall contents | StoredAt(crc, file, h, contents) ensures TrailerAt(crc, file, h, contents) {
      StoredTrailer(crc, file, h, contents);
    }
    hide Stored, DecodeFixed32, Log.Mask, Log.Unmask;
    var n := h.size;
    if h.offset + n + TRAILER > |file| {
      return None;  // truncated block read
    }
    var data := file[h.offset..h.offset + n + TRAILER];
    if verify {
      var expected := Log.Unmask(DecodeFixed32(data[n + 1..]));
      var actual := crc(data[..n + 1]);
      if actual != expected {
        return None;  // block checksum mismatch
      }
    }
    if data[n] != NO_COMPRESSION {
      return None;  // bad block type
    }
    r := Some(data[..n]);
    if verify {
      StoredBack(crc, file, h, data);
    }
  }

  ghost predicate TrailerAt(crc: Log.Checksum, file: Bytes, h: BlockHandle, contents: Bytes) {
    && h.offset + h.size + TRAILER <= |file|
    && var data := file[h.offset..h.offset + h.size + TRAILER];
    && data[..h.size] == contents && data[h.size] == NO_COMPRESSION
    && Log.Unmask(DecodeFixed32(data[h.size + 1..])) == crc(data[..h.size + 1])
  }

  lemma StoredTrailer(crc: Log.Checksum, file: Bytes, h: BlockHandle, contents: Bytes)
    requires StoredAt(crc, file, h, contents)
    ensures TrailerAt(crc, file, h, contents)
  {
    hide DecodeFixed32, Fixed32, Log.Mask, Log.Unmask;
    var sum := crc(contents + [NO_COMPRESSION]);
    var data := Stored(crc, contents);
    assert data[|contents| + 1..] == Fixed32(Log.Mask(sum)) + [];
    assert data[..|contents| + 1] == contents + [NO_COMPRESSION];
    Fixed32RoundTrip(Log.Mask(sum), []);
    Log.UnmaskUndoesMask(sum);
  }

  /** What passes the check is a stored block. */
  lemma StoredBack(crc: Log.Checksum, file: Bytes, h: BlockHandle, data: Bytes)
    requires h.offset + h.size + TRAILER <= |file| && data == file[h.offset..h.offset + h.size + TRAILER]
    requires data[h.size] == NO_COMPRESSION && Log.Unmask(DecodeFixed32(data[h.size + 1..])) == crc(data[..h.size + 1])
    ensures HandleFits(h) ==> StoredAt(crc, file, h, data[..h.size])
  {
    hide DecodeFixed32, Fixed32, Log.Mask, Log.Unmask;
    var contents := data[..h.size];
    var masked := DecodeFixed32(data[h.size + 1..]);
    assert data[..h.size + 1] == contents + [NO_COMPRESSION];
    Fixed32Unique(data[h.size + 1..]);
    MaskUndoesUnmask(masked);
    assert data == data[..h.size + 1] + data[h.size + 1..];
  }

  lemma MaskUndoesUnmask(masked: Log.Word)
    ensures Log.Mask(Log.Unmask(masked)) == masked
  {
    var rot := (masked - Log.MASK_DELTA) % U32;
    var high, low := rot / 0x2_0000, rot % 0x2_0000;
    var crc := high + low * 0x8000;
    assert 0 <= crc < U32 && Log.Unmask(masked) == crc;
    assert crc / 0x8000 == low && crc % 0x8000 == high;
  }

  /** Some entries, as a block of the file. */
  ghost predicate BlockAt(crc: Log.Checksum, file: Bytes, h: BlockHandle, kvs: seq<KV>, rank: Ranking) {
    exists contents :: StoredAt(crc, file, h, contents) && IsBlock(contents, kvs) && Ascending(kvs, rank)
  }

  ghost predicate IsBlock(contents: Bytes, kvs: seq<KV>) {
    exists restarts, offs, shs, ris :: FinishedBlock(contents, kvs, restarts, offs, shs, ris)
  }

  /** What is stored stays when the file grows. */
  lemma StillStored(crc: Log.Checksum, file: Bytes, file': Bytes, h: BlockHandle, contents: Bytes)
    requires StoredAt(crc, file, h, contents) && file <= file'
    ensures StoredAt(crc, file', h, contents)
  {
    assert file == file'[..|file|];
    SliceOfPrefix(file', |file|, h.offset, h.offset + h.size + TRAILER);
  }

  lemma StillBlock(crc: Log.Checksum, file: Bytes, file': Bytes, h: BlockHandle, kvs: seq<KV>, rank: Ranking)
    requires BlockAt(crc, file, h, kvs, rank) && file <= file'
    ensures BlockAt(crc, file', h, kvs, rank)
  {
    hide StoredAt, IsBlock, Ascending;
    var contents :| StoredAt(crc, file, h, contents) && IsBlock(contents, kvs) && Ascending(kvs, rank);
    StillStored(crc, file, file', h, contents);
  }

  /** Read a block and open an iterator over it. */
  method OpenBlock(crc: Log.Checksum, file: Bytes, h: BlockHandle, verify: bool, rank: Ranking, ghost kvs: seq<KV>)
    returns (iter: BlockIter)
    requires BlockAt(crc, file, h, kvs, rank)
    ensures fresh(iter) && iter.Inv() && iter.kvs == kvs && iter.rank == rank
  {
    hide StoredAt, FinishedBlock, Ascending, Block.NumRestarts, BlockIter.Inv;
    ghost var contents :| StoredAt(crc, file, h, contents) && IsBlock(contents, kvs) && Ascending(kvs, rank);
    ghost var restarts, offs, shs, ris :| FinishedBlock(contents, kvs, restarts, offs, shs, ris);
    var read := ReadBlock(crc, file, h, verify);
    TrailerDecodes(contents, kvs, restarts, offs, shs, ris);
    BlockFits(contents, kvs, restarts, offs, shs, ris);
    var block := new Block(read.value);
    var made := block.NewIterator(rank, kvs, restarts, offs, shs, ris);
    iter := made.value;
  }
}
