/** The formats, byte for byte, on small examples: what round trips cannot tell, because the reader would
    follow the writer into any other choice of tags, types and constants. */
module Formats {
  import opened InternalKeys
  import opened Coding
  import KeyBytes
  import Log
  import LogReading
  import Versions
  import LevelMoves
  import SkipLists
  import WriteQueues
  import WriteBatches
  import EditCodec
  import Blocks
  import BlockBuilding
  import TableFormat
  import Tables
  import FilterBlocks
  import Bloom
  import Protobuf
  import ProtobufDecoding

  const A: Bytes := [97]
  const B: Bytes := [98]

  /** Sizes of groups of writers, numbers of levels, heights and blocks. */
  lemma Limits()
    ensures WriteQueues.MaxSize(0) == 131072 && WriteQueues.MaxSize(131072) == 262144 && WriteQueues.MaxSize(131073) == 1048576
    ensures Versions.NUM_LEVELS == 7 && LevelMoves.MAX_MEM_COMPACT_LEVEL == 2 && SkipLists.MAX_HEIGHT == 12
    ensures LogReading.EOF == 5 && LogReading.BAD == 6 && Log.BLOCK == 32768 && Log.HEADER == 7
  {
  }

  /** Fixed words are little-endian; varints have seven bits to a byte, the lowest first. */
  lemma Words()
    ensures Fixed32(0x01020304) == [4, 3, 2, 1] && Fixed64(0x0102030405060708) == [8, 7, 6, 5, 4, 3, 2, 1]
    ensures Varint(1) == [1] && Varint(127) == [127] && Varint(128) == [128, 1] && Varint(300) == [172, 2]
    ensures LengthPrefixed([97, 98]) == [2, 97, 98]
  {
  }

  /** A user key, and a word of 56 bits of sequence number above 8 bits of type. */
  lemma InternalKeyFormat()
    ensures KeyBytes.Encoded(A, 0x0102, Value) == [97, 1, 2, 1, 0, 0, 0, 0, 0]
    ensures KeyBytes.Encoded(A, 0x0102, Deletion) == [97, 0, 2, 1, 0, 0, 0, 0, 0]
    ensures KeyBytes.Encoded([], MAX_SEQUENCE, Value) == [1, 255, 255, 255, 255, 255, 255, 255]
  {
    KeyWords();
    hide Fixed64, KeyBytes.Encoded;
    KeyOf(A, 0x0102, Value, [1, 2, 1, 0, 0, 0, 0, 0]);
    KeyOf(A, 0x0102, Deletion, [0, 2, 1, 0, 0, 0, 0, 0]);
    KeyOf([], MAX_SEQUENCE, Value, [1, 255, 255, 255, 255, 255, 255, 255]);
  }

  lemma KeyWords()
    ensures Fixed64(0x010201) == [1, 2, 1, 0, 0, 0, 0, 0] && Fixed64(0x010200) == [0, 2, 1, 0, 0, 0, 0, 0]
    ensures Fixed64(0xffffffffffffff01) == [1, 255, 255, 255, 255, 255, 255, 255]
  {
  }

  lemma KeyOf(user: Bytes, s: SequenceNumber, kind: ValueType, word: Bytes)
    requires Fixed64(s * 256 + if kind == Value then 1 else 0) == word
    ensures KeyBytes.Encoded(user, s, kind) == user + word
  {
    hide Fixed64, DecodeFixed64, KeyBytes.Rank;
  }

  /** Checksum, length, type, payload; blocks of 32768 bytes, and no header across their ends. */
  lemma LogFormat(crc: Log.Checksum)
    requires crc([1, 97]) == 0
    ensures Log.Mask(0) == 0xa282ead8 && Log.Mask(1) == 0xa284ead8
    ensures Log.LogBytes(crc, [A]) == [0xd8, 0xea, 0x82, 0xa2, 1, 0, 1, 97]
    ensures Log.FragmentStart(32761) == 32761 && Log.FragmentStart(32762) == 32768 == Log.FragmentStart(32768)
    ensures Log.FragmentLength(0, 40000) == 32761 && Log.FragmentLength(32768, 7239) == 7239
    ensures Log.FragmentType(true, true) == 1 && Log.FragmentType(true, false) == 2
    ensures Log.FragmentType(false, false) == 3 && Log.FragmentType(false, true) == 4
  {
    assert [A][..0] == [];
    assert A[..1] == A && [1] + A == [1, 97];
    assert Log.Physical(crc, 1, A) == [0xd8, 0xea, 0x82, 0xa2, 1, 0, 1, 97];
    assert Log.Zeros(0) == [];
    assert Log.RecordBytes(crc, 0, A, true) == [] + Log.Physical(crc, 1, A);
    assert Log.LogBytes(crc, []) == [];
  }

  /** Eight bytes of sequence number, four of count, then updates: type, key and value. */
  lemma BatchFormat()
    ensures WriteBatches.BatchBytes(0x0102, [WriteQueues.Op(Value, A, B), WriteQueues.Op(Deletion, A, [])]) ==
        [2, 1, 0, 0, 0, 0, 0, 0, 2, 0, 0, 0, 1, 1, 97, 1, 98, 0, 1, 97]
  {
    var put, del := WriteQueues.Op(Value, A, B), WriteQueues.Op(Deletion, A, []);
    assert [put, del][..1] == [put] && [put][..0] == [];
    assert WriteBatches.RecordBytes(put) == [1, 1, 97, 1, 98] && WriteBatches.RecordBytes(del) == [0, 1, 97];
    assert WriteBatches.Records([put]) == [] + [1, 1, 97, 1, 98];
    assert WriteBatches.Records([put, del]) == [1, 1, 97, 1, 98] + [0, 1, 97];
  }

  /** Each item of a version edit begins with its tag. */
  lemma EditFormat()
    ensures EditCodec.ItemBytes(EditCodec.Comparator(A)) == [1, 1, 97]
    ensures EditCodec.ItemBytes(EditCodec.LogNumber(5)) == [2, 5]
    ensures EditCodec.ItemBytes(EditCodec.NextFileNumber(5)) == [3, 5]
    ensures EditCodec.ItemBytes(EditCodec.LastSequence(5)) == [4, 5]
    ensures EditCodec.ItemBytes(EditCodec.PrevLogNumber(5)) == [9, 5]
  {
  }

  lemma EditFormatOfFiles()
    ensures EditCodec.ItemBytes(EditCodec.CompactPointer(2, A)) == [5, 2, 1, 97]
    ensures EditCodec.ItemBytes(EditCodec.DeletedFile(2, 5)) == [6, 2, 5]
    ensures EditCodec.ItemBytes(EditCodec.NewFile(2, EditCodec.FileRecord(5, 6, A, B))) == [7, 2, 5, 6, 1, 97, 1, 98]
    ensures EditCodec.ItemFits(EditCodec.DeletedFile(6, 5)) && !EditCodec.ItemFits(EditCodec.DeletedFile(7, 5))
  {
  }

  /** Lengths of the shared prefix, of the rest of the key and of the value, then the rest and the value. */
  lemma BlockFormat()
    ensures Blocks.EntryBytes(0, [97, 98], [1]) == [0, 2, 1, 97, 98, 1]
    ensures Blocks.EntryBytes(1, [97, 99], [2]) == [1, 1, 1, 99, 2]
    ensures BlockBuilding.RestartBytes([0, 258]) == [0, 0, 0, 0, 2, 1, 0, 0]
  {
    assert [0, 258][..1] == [0] && [0][..0] == [];
    assert BlockBuilding.RestartBytes([0]) == [] + [0, 0, 0, 0];
  }

  /** Two handles in forty bytes, and the magic number; a block with its type and masked checksum; the name
      under which the filter named "a" is found. */
  lemma TableFormatIs(crc: Log.Checksum)
    requires crc([97, 0]) == 0
    ensures TableFormat.FooterBytes(TableFormat.BlockHandle(1, 2), TableFormat.BlockHandle(3, 4)) ==
        [1, 2, 3, 4] + Log.Zeros(36) + [0x57, 0xfb, 0x80, 0x8b, 0x24, 0x75, 0x47, 0xdb]
    ensures TableFormat.Stored(crc, A) == [97, 0, 0xd8, 0xea, 0x82, 0xa2]
    ensures Tables.FILTER_PREFIX + A == [102, 105, 108, 116, 101, 114, 46, 97]
  {
    assert A + [0] == [97, 0];
    assert Fixed64(0xdb4775248b80fb57) == [0x57, 0xfb, 0x80, 0x8b, 0x24, 0x75, 0x47, 0xdb];
    assert TableFormat.HandleBytes(TableFormat.BlockHandle(1, 2)) + TableFormat.HandleBytes(TableFormat.BlockHandle(3, 4)) == [1, 2, 3, 4];
  }

  lemma OneFilter(policy: Bloom.FilterPolicy)
    requires policy.create([A]) == [42]
    ensures FilterBlocks.Filters(policy, [[A]]) == [42] && FilterBlocks.Filters(policy, []) == []
  {
    assert [[A]][..0] == [];
    assert FilterBlocks.Filters(policy, [[A]]) == [] + [42];
  }

  lemma OneOffset(policy: Bloom.FilterPolicy)
    requires policy.create([A]) == [42]
    ensures |FilterBlocks.Filters(policy, [[A]])| < U32 && FilterBlocks.Offsets(policy, [[A]]) == [0]
  {
    hide FilterBlocks.Filters;
    OneFilter(policy);
    assert [[A]][..0] == [];
    assert FilterBlocks.Offsets(policy, [[A]])[0] == 0;
  }

  lemma ZeroOffset()
    ensures BlockBuilding.RestartBytes([0]) == [0, 0, 0, 0]
  {
    assert [0][..0] == [];
    assert BlockBuilding.RestartBytes([0]) == [] + [0, 0, 0, 0];
  }

  /** A filter for every 2 KiB of the file: the filters, their offsets, where those begin, and 11. */
  lemma FilterBlockFormat(policy: Bloom.FilterPolicy)
    requires policy.create([A]) == [42]
    ensures FilterBlocks.Filters(policy, [[A]]) == [42]
    ensures FilterBlocks.FilterBlockBytes(policy, [[A]]) == [42, 0, 0, 0, 0, 1, 0, 0, 0, 11]
    ensures FilterBlocks.BASE == 2048
  {
    hide FilterBlocks.Offsets, FilterBlocks.Filters, BlockBuilding.RestartBytes;
    OneFilter(policy);
    OneOffset(policy);
    BlockFormat();
    ZeroOffset();
  }

  /** Sixty-four bits at least, 0.69 probes for each bit of a key, and the number of probes at the end. */
  lemma BloomFormat(hash: Bytes -> Bloom.Word)
    requires hash(A) == 0x0002_0003
    ensures Bloom.BloomFilter([A], hash, 3) == [0x18, 0, 0, 0, 0, 0, 0, 0, 2]
    ensures Bloom.FilterSize(100, 10) == 125 && Bloom.ProbeCount(10) == 6 && Bloom.ProbeCount(0) == 1 && Bloom.ProbeCount(100) == 30
  {
    hide Bloom.SetBit, Bloom.SetProbes, Bloom.SetKeys, Bloom.Delta;
    var h := 0x0002_0003;
    HashSpread();
    TwoProbes();
    OneKeySet(hash);
    assert Bloom.BloomFilter([A], hash, 3) == [0x18, 0, 0, 0, 0, 0, 0, 0] + [2];
  }

  /** The hash is spread by turning it right by 17 bits, and a filter has eight bytes, or as many bits as the keys
      ask for in whole bytes. */
  lemma SpreadAndSize(h: Bloom.Word, n: nat, bitsPerKey: nat)
    ensures Bloom.Delta(h) == h / 131072 + h % 131072 * 32768
    ensures var size := Bloom.FilterSize(n, bitsPerKey);
        8 * size >= 64 && 8 * size >= n * bitsPerKey && (size == 8 || 8 * (size - 1) < n * bitsPerKey)
  {
    var high, low := h / 131072, h % 131072;
    assert h * 32768 == high * U32 + low * 32768;
    assert h * 32768 % U32 == low * 32768;
  }

  /** A filter of less than two bytes matches nothing, and one with more than thirty probes everything. */
  lemma ShortAndOdd(key: Bytes, hash: Bytes -> Bloom.Word)
    ensures !Bloom.BloomMatch(key, [], hash) && !Bloom.BloomMatch(key, [31], hash) && Bloom.BloomMatch(key, [0, 31], hash)
  {
    hide Bloom.AllSet;
  }

  /** With thirty probes they are made, and one bit is enough for one probe. */
  lemma Probing(hash: Bytes -> Bloom.Word)
    requires hash(A) == 3
    ensures !Bloom.BloomMatch(A, [0, 30], hash) && Bloom.BloomMatch(A, [8, 1], hash)
  {
    hide Bloom.AllSet, Bloom.Delta, Bloom.BitSet;
    assert [0, 30][..1] == [0] && [8, 1][..1] == [8];
    OneProbe([0], 3, Bloom.Delta(3), 30);
    OneProbe([8], 3, Bloom.Delta(3), 1);
    NoProbe([8], (3 + Bloom.Delta(3)) % U32, Bloom.Delta(3));
    FirstBits();
  }

  lemma OneProbe(a: Bytes, h: Bloom.Word, delta: Bloom.Word, k: nat)
    requires a != [] && k > 0
    ensures Bloom.AllSet(a, h, delta, k) <==> Bloom.BitSet(a, h % (8 * |a|)) && Bloom.AllSet(a, (h + delta) % U32, delta, k - 1)
  {
    hide Bloom.BitSet;
  }

  lemma NoProbe(a: Bytes, h: Bloom.Word, delta: Bloom.Word)
    requires a != []
    ensures Bloom.AllSet(a, h, delta, 0)
  {
  }

  lemma FirstBits()
    ensures !Bloom.BitSet([0], 3) && Bloom.BitSet([8], 3)
  {
  }

  lemma HashSpread()
    ensures Bloom.Delta(0x0002_0003) == 98305
  {
  }

  lemma TwoProbes()
    ensures Bloom.SetProbes(Bloom.Zeros(8), 0x0002_0003, 98305, 2) == [0x18, 0, 0, 0, 0, 0, 0, 0]
  {
    assert Bloom.WithBit(0, 3) == 8 && Bloom.WithBit(8, 4) == 0x18;
    hide Bloom.WithBit, Bloom.PowerOf2, Bloom.SetProbes;
    var a, b, c := Bloom.Zeros(8), [8, 0, 0, 0, 0, 0, 0, 0], [0x18, 0, 0, 0, 0, 0, 0, 0];
    assert Bloom.SetBit(a, 3) == b && Bloom.SetBit(b, 4) == c;
    Probed(a, 0x0002_0003, 98305, 2);
    Probed(b, 229380, 98305, 1);
    Probed(c, 327685, 98305, 0);
  }

  lemma Probed(a: Bytes, h: Bloom.Word, delta: Bloom.Word, k: nat)
    requires a != []
    ensures Bloom.SetProbes(a, h, delta, k) ==
        if k == 0 then a else Bloom.SetProbes(Bloom.SetBit(a, h % (8 * |a|)), (h + delta) % U32, delta, k - 1)
  {
    hide Bloom.SetBit;
  }

  lemma OneKeySet(hash: Bytes -> Bloom.Word)
    ensures forall a: Bytes, k: nat :: a != [] ==> Bloom.SetKeys(a, [A], hash, k) == Bloom.SetProbes(a, hash(A), Bloom.Delta(hash(A)), k)
  {
    hide Bloom.SetProbes, Bloom.Delta;
    assert [A][1..] == [];
  }

  /** Fields of the Protocol Buffers wire format: the tag with its wire type, then the value. */
  lemma WireFormat()
    ensures Protobuf.TagBytes(0, 1) == [8] && Protobuf.TagBytes(1, 1) == [9] && Protobuf.TagBytes(2, 2) == [18] && Protobuf.TagBytes(5, 1) == [13]
  {
  }

  /** Numbers by their types. */
  lemma WireFormatOfNumbers()
    ensures WireBytes(Protobuf.TVarint(4), Protobuf.VInt(150)) == [8, 150, 1]
    ensures WireBytes(Protobuf.TUVarint(4), Protobuf.VInt(300)) == [8, 172, 2]
    ensures WireBytes(Protobuf.TSVarint(4), Protobuf.VInt(-2)) == [8, 3]
    ensures WireBytes(Protobuf.TBool, Protobuf.VInt(1)) == [8, 1]
    ensures WireBytes(Protobuf.TFixed32, Protobuf.VInt(7)) == [13, 7, 0, 0, 0]
    ensures WireBytes(Protobuf.TFixed64, Protobuf.VInt(7)) == [9, 7, 0, 0, 0, 0, 0, 0, 0]
  {
  }

  /** Strings by their types. */
  lemma WireFormatOfStrings()
    ensures WireBytes(Protobuf.TString(4), Protobuf.VBytes(A)) == WireBytes(Protobuf.TBytes(4), Protobuf.VBytes(A)) == [10, 1, 97]
    ensures WireBytes(Protobuf.TFixedBytes(1), Protobuf.VBytes(A)) == [10, 1, 97]
  {
  }

  function WireBytes(t: Protobuf.LType, v: Protobuf.Value): Bytes {
    Protobuf.OccurrenceBytes(Protobuf.Field(1, Protobuf.Required, t, None), v, [], Protobuf.QUIET)
  }

  /** The numbers that fit fields of one, two, four and eight bytes. */
  lemma Widths(v: nat)
    requires v < U64
    ensures Fits(Protobuf.TUVarint(1), v) <==> v < 256
    ensures Fits(Protobuf.TUVarint(2), v) <==> v < 65536
    ensures Fits(Protobuf.TUVarint(4), v) <==> v < 0x1_0000_0000
    ensures Fits(Protobuf.TSVarint(1), v) <==> v < 256
    ensures Fits(Protobuf.TSVarint(2), v) <==> v < 65536
    ensures Fits(Protobuf.TSVarint(4), v) <==> v < 0x1_0000_0000
    ensures Fits(Protobuf.TVarint(1), v) <==> v % 0x1_0000_0000 < 128 || v % 0x1_0000_0000 >= 0xffff_ff80
    ensures Fits(Protobuf.TVarint(2), v) <==> v % 0x1_0000_0000 < 32768 || v % 0x1_0000_0000 >= 0xffff_8000
    ensures Fits(Protobuf.TVarint(4), v) && Fits(Protobuf.TVarint(8), v) && Fits(Protobuf.TUVarint(8), v) && Fits(Protobuf.TSVarint(8), v)
  {
  }

  predicate Fits(t: Protobuf.LType, v: nat)
    requires ProtobufDecoding.IsInteger(t)
  {
    ProtobufDecoding.DecodeInteger(t, v).Some?
  }

  /** Repeated numbers share one tag; a submessage is a string of its fields. */
  lemma WireFormatOfMore()
    ensures var items := [Protobuf.VInt(3), Protobuf.VInt(270), Protobuf.VInt(86942)];
        Protobuf.FieldBytes({}, Protobuf.Field(4, Protobuf.Repeated(3), Protobuf.TVarint(4), None), Protobuf.Many(items), [], Protobuf.QUIET) ==
        [34, 6, 3, 142, 2, 158, 167, 5]
  {
    var items := [Protobuf.VInt(3), Protobuf.VInt(270), Protobuf.VInt(86942)];
    var t := Protobuf.TVarint(4);
    assert items[1..] == [Protobuf.VInt(270), Protobuf.VInt(86942)] && items[1..][1..] == [Protobuf.VInt(86942)] && items[1..][1..][1..] == [];
    assert Varint(86942) == [158, 167, 5] && Varint(270) == [142, 2];
    assert Protobuf.PackedBytes(t, items[1..][1..]) == [158, 167, 5] + [];
    assert Protobuf.PackedBytes(t, items) == [3, 142, 2, 158, 167, 5];
  }
}
