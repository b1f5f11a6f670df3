/** The log: records cut into fragments that never cross a block of the file, each fragment with a
    checksum, a length and a type, and a reader that puts them together again. */
module Log {
  import opened InternalKeys
  import opened Coding

  const BLOCK := 32768
  const HEADER := 7

  const FULL: Byte := 1
  const FIRST: Byte := 2
  const MIDDLE: Byte := 3
  const LAST: Byte := 4

  type Word = w: int | 0 <= w < U32

  /** The checksum of some bytes, whatever it is. */
  type Checksum = Bytes -> Word

  const MASK_DELTA := 0xa282ead8

  /** A checksum as it is stored: rotated right by 15 bits, plus a constant. */
  function Mask(crc: Word): Word {
    (crc / 0x8000 + crc % 0x8000 * 0x2_0000 + MASK_DELTA) % U32
  }

  function Unmask(masked: Word): Word {
    var rot := (masked - MASK_DELTA) % U32;
    (rot / 0x2_0000 + rot % 0x2_0000 * 0x8000) % U32
  }

  lemma UnmaskUndoesMask(crc: Word)
    ensures Unmask(Mask(crc)) == crc
  {
    var high, low := crc / 0x8000, crc % 0x8000;
    var rotated := high + low * 0x2_0000;
    assert 0 <= rotated < U32;
    assert (Mask(crc) - MASK_DELTA) % U32 == rotated;
    assert rotated / 0x2_0000 == low && rotated % 0x2_0000 == high;
  }

  // ----- What is written -----

  function Zeros(n: nat): (bs: Bytes)
    ensures |bs| == n && forall i :: 0 <= i < n ==> bs[i] == 0
  {
    if n == 0 then [] else Zeros(n - 1) + [0]
  }

  /** One fragment with its header. */
  function Physical(crc: Checksum, kind: Byte, payload: Bytes): (bs: Bytes)
    requires |payload| < BLOCK
    ensures |bs| == HEADER + |payload|
  {
    Fixed32(Mask(crc([kind] + payload))) + [|payload| % 256, |payload| / 256, kind] + payload
  }

  /** Where the next fragment starts when p bytes are in the file: a block never ends with less than
      a header's worth of data. */
  function FragmentStart(p: nat): (s: nat)
    ensures p <= s < p + HEADER && s % BLOCK + HEADER <= BLOCK
    ensures s == p || s % BLOCK == 0
  {
    var leftover := BLOCK - p % BLOCK;
    if leftover < HEADER then p + leftover else p
  }

  function FragmentLength(p: nat, left: nat): (n: nat)
    ensures n <= left && FragmentStart(p) % BLOCK + HEADER + n <= BLOCK
    ensures n == 0 && left > 0 ==> p % BLOCK == BLOCK - HEADER && (FragmentStart(p) + HEADER) % BLOCK == 0
  {
    var avail := BLOCK - FragmentStart(p) % BLOCK - HEADER;
    if left < avail then left else avail
  }

  function FragmentType(begin: bool, end: bool): Byte {
    if begin && end then FULL else if begin then FIRST else if end then LAST else MIDDLE
  }

  /** The bytes that add a record, or the rest of one, to a file of p bytes. */
  function RecordBytes(crc: Checksum, p: nat, record: Bytes, begin: bool): (bs: Bytes)
    ensures |bs| >= HEADER
    decreases |record|, if p % BLOCK == BLOCK - HEADER then 1 else 0
  {
    var s := FragmentStart(p);
    var n := FragmentLength(p, |record|);
    var end := n == |record|;
    var fragment := Zeros(s - p) + Physical(crc, FragmentType(begin, end), record[..n]);
    if end then fragment else fragment + RecordBytes(crc, s + HEADER + n, record[n..], false)
  }

  /** The file after the records have been added one by one. */
  function LogBytes(crc: Checksum, records: seq<Bytes>): Bytes {
    if records == [] then []
    else
      var before := LogBytes(crc, records[..|records| - 1]);
      before + RecordBytes(crc, |before|, records[|records| - 1], true)
  }

  class Writer {
    const crc: Checksum
    var dest: Bytes
    var blockOffset: nat

    ghost predicate Inv()
      reads this
    {
      blockOffset <= BLOCK && |dest| % BLOCK == blockOffset % BLOCK
    }

    /** Write at the end of a file that holds some bytes already. */
    constructor (sum: Checksum, contents: Bytes)
      ensures Inv() && dest == contents && crc == sum
    {
      crc, dest, blockOffset := sum, contents, |contents| % BLOCK;
    }

    /** Append a record, in as many fragments as it takes. */
    method AddRecord(record: Bytes)
      requires Inv()
      modifies this
      ensures Inv() && dest == old(dest) + RecordBytes(crc, |old(dest)|, record, true)
    {
      hide RecordBytes, Zeros, Physical;
      ghost var target := dest + RecordBytes(crc, |dest|, record, true);
      var ptr, left := 0, |record|;
      var begin := true;
      assert record[0..] == record;
      while begin || left > 0
        invariant Inv() && 0 <= left && 0 <= ptr && ptr + left == |record|
        invariant if begin || left > 0 then dest + RecordBytes(crc, |dest|, record[ptr..], begin) == target else dest == target
        decreases begin, left, if |dest| % BLOCK == BLOCK - HEADER then 1 else 0
      {
        Emitted(crc, dest, record, ptr, begin);
        FillTrailer();
        var avail := BLOCK - blockOffset - HEADER;
        var fragmentLength := if left < avail then left else avail;
        var end := left == fragmentLength;
        EmitPhysicalRecord(FragmentType(begin, end), record[ptr..ptr + fragmentLength]);
        ptr := ptr + fragmentLength;
        left := left - fragmentLength;
        begin := false;
      }
    }

    /** When not even a header fits the rest of the block, fill it and begin the next. */
    method FillTrailer()
      requires Inv()
      modifies this
      ensures Inv() && dest == old(dest) + Zeros(FragmentStart(|old(dest)|) - |old(dest)|)
      ensures blockOffset == FragmentStart(|old(dest)|) % BLOCK
    {
      NoZeros();
      var leftover := BLOCK - blockOffset;
      if leftover < HEADER {
        if leftover > 0 {
          dest := dest + Zeros(leftover);
        }
        blockOffset := 0;
      }
    }

    method EmitPhysicalRecord(kind: Byte, payload: Bytes)
      requires Inv() && blockOffset + HEADER + |payload| <= BLOCK
      modifies this
      ensures Inv() && dest == old(dest) + Physical(crc, kind, payload)
    {
      hide Fixed32, Mask;
      var length := |payload|;
      var sum := Mask(crc([kind] + payload));
      var header := Fixed32(sum) + [length % 256, length / 256, kind];
      dest := dest + header;
      dest := dest + payload;
      blockOffset := blockOffset + HEADER + length;
    }
  }

  /** What one turn of the fragmenting loop adds, and what is left to add. */
  lemma Emitted(crc: Checksum, dest: Bytes, record: Bytes, ptr: nat, begin: bool)
    requires ptr <= |record|
    ensures var s := FragmentStart(|dest|);
        var n := FragmentLength(|dest|, |record| - ptr);
        var end := n == |record| - ptr;
        var next := dest + Zeros(s - |dest|) + Physical(crc, FragmentType(begin, end), record[ptr..ptr + n]);
        && |next| == s + HEADER + n
        && dest + RecordBytes(crc, |dest|, record[ptr..], begin) ==
           if end then next else next + RecordBytes(crc, |next|, record[ptr + n..], false)
  {
    hide RecordBytes, Zeros, Physical, FragmentStart, FragmentLength;
    var n := FragmentLength(|dest|, |record| - ptr);
    assert record[ptr..][..n] == record[ptr..ptr + n];
    assert record[ptr..][n..] == record[ptr + n..];
    RecordStep(crc, |dest|, record[ptr..], begin);
  }

  lemma NoZeros()
    ensures Zeros(0) == []
  {
  }

  lemma RecordStep(crc: Checksum, p: nat, record: Bytes, begin: bool)
    ensures var s := FragmentStart(p);
        var n := FragmentLength(p, |record|);
        var end := n == |record|;
        var fragment := Zeros(s - p) + Physical(crc, FragmentType(begin, end), record[..n]);
        RecordBytes(crc, p, record, begin) ==
        if end then fragment else fragment + RecordBytes(crc, s + HEADER + n, record[n..], false)
  {
  }
}
