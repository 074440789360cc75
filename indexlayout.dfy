/**
 * The on-disk layout produced by hw3/WriteIndex.cc, as values.
 *
 * An index file is a header, then the serialized DocTable (doc id -> file
 * name), then the serialized MemIndex (word -> postings). A serialized hash
 * table is a BucketListHeader, one BucketRecord per bucket, then each
 * non-empty bucket: its ElementPositionRecords followed by its elements.
 *
 * This module describes what each writer of the source does to a file as the
 * list of blocks it writes (offset and bytes), for every outcome of every
 * write, and proves where the records land and what they hold when every
 * write succeeds. The struct sizes, their byte-order conversion and the CRC32
 * accumulator are not part of this model: they are constants whose values are
 * left open, with the only facts the layout needs (sizes are positive, an
 * encoding has the size of its struct).
 */
module IndexLayout {
  import opened Wrappers
  import HashTable

  type Key = HashTable.Key
  type Entry<V> = HashTable.Entry<V>
  type Chain<V> = HashTable.Chain<V>

  /** kFailedWrite. */
  const FailedWrite: int := -1

  /** BUFF_SIZE: WriteHeader reads the tables back in chunks of this many bytes. */
  const BuffSize: int := 1024

  // ---------------------------------------------------------------------------
  // On-disk structs (LayoutStructs.h is not part of this model)

  /** A sizeof: some positive number of bytes. */
  type Size = n: int | n > 0 witness 1

  const IndexFileHeaderSize: Size
  const BucketListHeaderSize: Size
  const BucketRecordSize: Size
  const ElementPositionRecordSize: Size
  const DoctableElementHeaderSize: Size
  const DocIDElementHeaderSize: Size
  const DocIDElementPositionSize: Size
  const WordPostingsHeaderSize: Size

  type uint32 = x: int | 0 <= x < 0x1_0000_0000

  /** kMagicNumber, the sentinel written into the file header. */
  const MagicNumber: uint32

  /** The structs the writers fill in before converting them to disk format. */
  datatype Struct =
    | IndexFileHeader(magic: uint32, checksum: bv32, doctableBytes: int, memidxBytes: int)
    | BucketListHeader(numBuckets: int)
    | BucketRecord(chainLen: int, position: int)
    | ElementPositionRecord(position: int)
    | DoctableElementHeader(docId: Key, nameBytes: int)
    | DocIDElementHeader(docId: Key, numPositions: int)
    | DocIDElementPosition(position: int)
    | WordPostingsHeader(wordBytes: int, postingsBytes: int)

  function SizeOf(s: Struct): Size
  {
    match s
    case IndexFileHeader(_, _, _, _) => IndexFileHeaderSize
    case BucketListHeader(_) => BucketListHeaderSize
    case BucketRecord(_, _) => BucketRecordSize
    case ElementPositionRecord(_) => ElementPositionRecordSize
    case DoctableElementHeader(_, _) => DoctableElementHeaderSize
    case DocIDElementHeader(_, _) => DocIDElementHeaderSize
    case DocIDElementPosition(_) => DocIDElementPositionSize
    case WordPostingsHeader(_, _) => WordPostingsHeaderSize
  }

  /** ToDiskFormat followed by taking the struct's bytes: every struct
      becomes exactly sizeof(struct) bytes. */
  type Encoding = f: Struct -> seq<bv8> | forall s :: |f(s)| == SizeOf(s)
    witness (s: Struct) => seq(SizeOf(s), _ => 0 as bv8)

  const DiskFormat: Encoding

  /** A struct's bytes, in disk format. */
  function Encode(s: Struct): (bytes: seq<bv8>)
    ensures |bytes| == SizeOf(s)
  {
    DiskFormat(s)
  }

  // ---------------------------------------------------------------------------
  // The CRC32 accumulator (its class is not part of this model)

  /** The accumulator's state. Only FoldByteIntoCrc and GetFinalCRC look
      at it, and both are open here, so its representation is left abstract
      (an unbounded integer stands for the class's 32-bit register). */
  type CrcState = int

  const CrcStart: CrcState
  const FoldByteIntoCrc: (CrcState, bv8) -> CrcState
  const FinalCrc: CrcState -> bv32

  /** The accumulator after folding `bytes`, in order, into `crc`. */
  function CrcFold(crc: CrcState, bytes: seq<bv8>): CrcState
  {
    CrcFoldUpTo(crc, bytes, |bytes|)
  }

  /** The accumulator after folding the first `n` of `bytes` into `crc`. */
  function CrcFoldUpTo(crc: CrcState, bytes: seq<bv8>, n: nat): CrcState
    requires n <= |bytes|
  {
    if n == 0 then crc else FoldByteIntoCrc(CrcFoldUpTo(crc, bytes, n - 1), bytes[n - 1])
  }

  /** Folding depends only on the bytes folded. */
  lemma {:induction false} CrcFoldPrefix(crc: CrcState, s: seq<bv8>, t: seq<bv8>, n: nat)
    requires n <= |s| && n <= |t| && s[..n] == t[..n]
    ensures CrcFoldUpTo(crc, s, n) == CrcFoldUpTo(crc, t, n)
  {
    if n > 0 {
      assert s[n - 1] == s[..n][n - 1] == t[..n][n - 1] == t[n - 1];
      assert s[..n - 1] == s[..n][..n - 1];
      assert t[..n - 1] == t[..n][..n - 1];
      CrcFoldPrefix(crc, s, t, n - 1);
    }
  }

  /** Folding the first part of a concatenation, then `n` bytes of the
      second. */
  lemma {:induction false} CrcFoldUpToConcat(crc: CrcState, a: seq<bv8>, b: seq<bv8>, n: nat)
    requires n <= |b|
    ensures CrcFoldUpTo(crc, a + b, |a| + n) == CrcFoldUpTo(CrcFold(crc, a), b, n)
  {
    if n == 0 {
      assert (a + b)[..|a|] == a[..|a|];
      CrcFoldPrefix(crc, a + b, a, |a|);
    } else {
      CrcFoldUpToConcat(crc, a, b, n - 1);
      assert (a + b)[|a| + n - 1] == b[n - 1];
    }
  }

  /** Folding a concatenation folds the first part, then the second. */
  lemma {:induction false} CrcFoldConcat(crc: CrcState, a: seq<bv8>, b: seq<bv8>)
    ensures CrcFold(crc, a + b) == CrcFold(CrcFold(crc, a), b)
  {
    CrcFoldUpToConcat(crc, a, b, |b|);
  }

  // ---------------------------------------------------------------------------
  // Integer conversions of the source

  /** The value an int16_t keeps of `n`: its low 16 bits, two's complement. */
  function Int16(n: int): (r: int)
    ensures -0x8000 <= r < 0x8000
    ensures 0 <= n < 0x8000 ==> r == n
    ensures 0 <= n && 0 <= r ==> r <= n
  {
    var m := n % 0x1_0000;
    if m < 0x8000 then m else m - 0x1_0000
  }

  /** The value an int has once converted to uint32 for a comparison. */
  function Unsigned32(n: int): (r: uint32)
    ensures 0 <= n < 0x1_0000_0000 ==> r == n
    ensures n == -1 ==> r == 0xFFFF_FFFF
  {
    n % 0x1_0000_0000
  }

  // ---------------------------------------------------------------------------
  // Files as byte sequences

  function Max(a: int, b: int): int
  {
    if a < b then b else a
  }

  /** One successful fseek + fwrite: `bytes` at offset `at`. */
  datatype Block = Block(at: nat, bytes: seq<bv8>)

  /** Whether a write of `bytes` at `at` succeeds on a device that accepts
      `capacity` bytes: fseek to a negative offset fails, and fwrite fails
      when the bytes do not fit. A write of no bytes always succeeds. */
  predicate Fits(capacity: nat, at: int, bytes: seq<bv8>)
  {
    0 <= at && (|bytes| == 0 || at + |bytes| <= capacity)
  }

  /** The blocks a single fseek + fwrite leaves behind. */
  function Put(capacity: nat, at: int, bytes: seq<bv8>): (ws: seq<Block>)
    ensures |ws| <= 1
    ensures |ws| == 1 <==> Fits(capacity, at, bytes)
  {
    if Fits(capacity, at, bytes) then [Block(at, bytes)] else []
  }

  /** `n` zero bytes. */
  function Zeros(n: nat): (z: seq<bv8>)
    ensures |z| == n
  {
    if n == 0 then [] else Zeros(n - 1) + [0]
  }

  /** The file after writing `bytes` at `at`: a gap past the old end reads
      as zero bytes, as POSIX specifies for a write past end of file; a write
      of no bytes leaves the file as it was. */
  function Overwrite(data: seq<bv8>, at: nat, bytes: seq<bv8>): (r: seq<bv8>)
    ensures |r| == if bytes == [] then |data| else Max(|data|, at + |bytes|)
  {
    if bytes == [] then data
    else
      var padded := if |data| < at then data + Zeros(at - |data|) else data;
      padded[..at] + bytes + (if at + |bytes| < |padded| then padded[at + |bytes|..] else [])
  }

  /** What a write leaves in the file: its bytes at its offset, the old bytes
      elsewhere. */
  lemma {:induction false} OverwriteSpec(data: seq<bv8>, at: nat, bytes: seq<bv8>)
    requires bytes != []
    ensures Overwrite(data, at, bytes)[at..at + |bytes|] == bytes
    ensures forall i :: 0 <= i < |data| && (i < at || at + |bytes| <= i) ==> Overwrite(data, at, bytes)[i] == data[i]
  {
  }

  /** The file after the blocks are written in order. */
  function Apply(data: seq<bv8>, ws: seq<Block>): seq<bv8>
    decreases |ws|
  {
    if ws == [] then data else Apply(Overwrite(data, ws[0].at, ws[0].bytes), ws[1..])
  }

  lemma {:induction false} ApplyConcat(data: seq<bv8>, a: seq<Block>, b: seq<Block>)
    ensures Apply(data, a + b) == Apply(Apply(data, a), b)
    decreases |a|
  {
    if a != [] {
      assert (a + b)[1..] == a[1..] + b;
      ApplyConcat(Overwrite(data, a[0].at, a[0].bytes), a[1..], b);
    } else {
      assert a + b == b;
    }
  }

  /** One past the last byte a block writes; 0 for a block of no bytes. */
  function End(b: Block): nat
  {
    if b.bytes == [] then 0 else b.at + |b.bytes|
  }

  /** One past the last byte any of the blocks writes. */
  function HighWater(ws: seq<Block>): nat
    decreases |ws|
  {
    if ws == [] then 0 else Max(End(ws[0]), HighWater(ws[1..]))
  }

  lemma {:induction false} HighWaterConcat(a: seq<Block>, b: seq<Block>)
    ensures HighWater(a + b) == Max(HighWater(a), HighWater(b))
    decreases |a|
  {
    if a != [] {
      assert (a + b)[1..] == a[1..] + b;
      HighWaterConcat(a[1..], b);
    } else {
      assert a + b == b;
    }
  }

  /** Writing never shortens a file, and it ends where the furthest block ends. */
  lemma {:induction false} ApplyLength(data: seq<bv8>, ws: seq<Block>)
    ensures |Apply(data, ws)| == Max(|data|, HighWater(ws))
    decreases |ws|
  {
    if ws != [] {
      ApplyLength(Overwrite(data, ws[0].at, ws[0].bytes), ws[1..]);
    }
  }

  // ---------------------------------------------------------------------------
  // The tables being written

  /** The values of the three kinds of table the writer serializes. */
  datatype Value =
    | DocName(name: seq<bv8>)                                  // DocTable: a file name
    | Postings(word: seq<bv8>, postings: seq<Chain<Value>>)    // MemIndex: WordPostings
    | PositionList(positions: seq<int>)                        // a word's doc id -> positions

  /** The three WriteElementFn implementations. */
  datatype Writer = DocidToDocname | WordToPostings | DocIDToPositionList

  /** The value is of the kind writer `w` casts the payload to (the source
      casts unchecked). */
  ghost predicate Shaped(w: Writer, v: Value)
  {
    match w
    case DocidToDocname => v.DocName?
    case DocIDToPositionList => v.PositionList?
    case WordToPostings =>
      v.Postings? &&
      forall i, j :: 0 <= i < |v.postings| && 0 <= j < |v.postings[i]| ==> v.postings[i][j].value.PositionList?
  }

  ghost predicate TableShaped(bs: seq<Chain<Value>>, w: Writer)
  {
    forall i, j :: 0 <= i < |bs| && 0 <= j < |bs[i]| ==> Shaped(w, bs[i][j].value)
  }

  /** File names and words shorter than 2^15 bytes, so that their int16_t
      lengths are their true lengths. */
  ghost predicate ShortText(v: Value)
  {
    match v
    case DocName(name) => |name| < 0x8000
    case Postings(word, _) => |word| < 0x8000
    case PositionList(_) => true
  }

  ghost predicate TableShort(bs: seq<Chain<Value>>)
  {
    forall i, j :: 0 <= i < |bs| && 0 <= j < |bs[i]| ==> ShortText(bs[i][j].value)
  }

  // ---------------------------------------------------------------------------
  // Sizes of the serialized forms

  /** The bytes taken by `n` consecutive records of `size` bytes. */
  function Span(n: nat, size: Size): nat
  {
    if n == 0 then 0 else Span(n - 1, size) + size
  }

  /** The bytes an element occupies once serialized. */
  type Sizer = Entry<Value> -> nat

  /** Bytes taken by the elements of a chain from the `k`th on. */
  function ElementsAfter(c: Chain<Value>, k: int, size: Sizer): nat
    requires 0 <= k <= |c|
    decreases |c| - k
  {
    if k == |c| then 0 else size(c[k]) + ElementsAfter(c, k + 1, size)
  }

  /** Bytes a bucket occupies: nothing when empty, else its position records
      and its elements. */
  function BucketSize(c: Chain<Value>, size: Sizer): nat
  {
    if c == [] then 0 else Span(|c|, ElementPositionRecordSize) + ElementsAfter(c, 0, size)
  }

  /** Bytes taken by the contents of the buckets from the `i`th on. */
  function BucketsAfter(bs: seq<Chain<Value>>, i: int, size: Sizer): nat
    requires 0 <= i <= |bs|
    decreases |bs| - i
  {
    if i == |bs| then 0 else BucketSize(bs[i], size) + BucketsAfter(bs, i + 1, size)
  }

  /** Bytes a serialized table occupies: header, records, buckets. */
  function TableSize(bs: seq<Chain<Value>>, size: Sizer): nat
  {
    BucketListHeaderSize + Span(|bs|, BucketRecordSize) + BucketsAfter(bs, 0, size)
  }

  /** A doc id -> file name element: header and name. */
  function DocnameSize(e: Entry<Value>): nat
  {
    match e.value
    case DocName(name) => DoctableElementHeaderSize + |name|
    case _ => 0
  }

  /** A doc id -> positions element: header and one record per position. */
  function PositionListSize(e: Entry<Value>): nat
  {
    match e.value
    case PositionList(ps) => DocIDElementHeaderSize + Span(|ps|, DocIDElementPositionSize)
    case _ => 0
  }

  /** A word -> postings element: header, word, nested doc id table. */
  function PostingsSize(e: Entry<Value>): nat
  {
    match e.value
    case Postings(word, postings) => WordPostingsHeaderSize + |word| + TableSize(postings, PositionListSize)
    case _ => 0
  }

  function SizerOf(w: Writer): Sizer
  {
    match w
    case DocidToDocname => DocnameSize
    case DocIDToPositionList => PositionListSize
    case WordToPostings => PostingsSize
  }

  // ---------------------------------------------------------------------------
  // What each writer does, for every outcome of its writes

  /** A writer's effect: the blocks it wrote, and its return value. */
  datatype Run = Run(writes: seq<Block>, ret: int)

  /** A loop's effect: the blocks it wrote, and the final position it reached
      or None when it returned kFailedWrite. */
  datatype Walk = Walk(writes: seq<Block>, end: Option<int>)

  /** WriteElementFn: writes one element at an offset. */
  type ElementWriter = (int, Entry<Value>) -> Run

  /** WriteDocidToDocnameFn: the header (doc id and int16_t name length),
      then the name without its terminator. A negative int16_t length is
      taken as a failed write. */
  function DocnameRun(cap: nat, off: int, e: Entry<Value>): Run
  {
    match e.value
    case DocName(name) =>
      var n := Int16(|name|);
      var header := Encode(DoctableElementHeader(e.key, n));
      if !Fits(cap, off, header) then Run([], FailedWrite)
      else if n < 0 || !Fits(cap, off + DoctableElementHeaderSize, name[..n]) then
        Run([Block(off, header)], FailedWrite)
      else Run([Block(off, header), Block(off + DoctableElementHeaderSize, name[..n])], n + DoctableElementHeaderSize)
    case _ => Run([], FailedWrite)
  }

  /** The position loop of WriteDocIDToPositionListFn from `at` on: one
      DocIDElementPosition per position; the bytes written, or kFailedWrite. */
  function PositionsFrom(cap: nat, at: int, ps: seq<int>): Run
    decreases |ps|
  {
    if ps == [] then Run([], 0)
    else
      var rec := Encode(DocIDElementPosition(ps[0]));
      if !Fits(cap, at, rec) then Run([], FailedWrite)
      else
        var rest := PositionsFrom(cap, at + DocIDElementPositionSize, ps[1..]);
        Run([Block(at, rec)] + rest.writes,
            if rest.ret == FailedWrite then FailedWrite else DocIDElementPositionSize + rest.ret)
  }

  /** WriteDocIDToPositionListFn: the header (doc id and position count),
      then the positions in list order. */
  function PositionListRun(cap: nat, off: int, e: Entry<Value>): Run
  {
    match e.value
    case PositionList(ps) =>
      var header := Encode(DocIDElementHeader(e.key, |ps|));
      if !Fits(cap, off, header) then Run([], FailedWrite)
      else
        var body := PositionsFrom(cap, off + DocIDElementHeaderSize, ps);
        Run([Block(off, header)] + body.writes,
            if body.ret == FailedWrite then FailedWrite else DocIDElementHeaderSize + body.ret)
    case _ => Run([], FailedWrite)
  }

  function PositionListWriter(cap: nat): ElementWriter
  {
    (off: int, e: Entry<Value>) => PositionListRun(cap, off, e)
  }

  /** WriteWordToPostingsFn: the nested doc id table first, past the header
      and the word, written by `table`; then the header recording the nested
      table's size; then the word without its terminator. The source always
      writes the nested table with WriteHashTable and
      WriteDocIDToPositionListFn (see WriterOf). */
  function PostingsRun(cap: nat, off: int, e: Entry<Value>, table: TableWriter): Run
  {
    match e.value
    case Postings(word, postings) =>
      var n := Int16(|word|);
      PostingsAfterTable(cap, off, word, n, table(off + WordPostingsHeaderSize + n, postings))
    case _ => Run([], FailedWrite)
  }

  /** WriteWordToPostingsFn once the nested table (`nested`) is written:
      the header and the word, or kFailedWrite. */
  function PostingsAfterTable(cap: nat, off: int, word: seq<bv8>, n: int, nested: Run): Run
    requires n <= |word|
  {
    if nested.ret == FailedWrite then Run(nested.writes, FailedWrite)
    else
      var header := Encode(WordPostingsHeader(n, nested.ret));
      if !Fits(cap, off, header) then Run(nested.writes, FailedWrite)
      else if n < 0 || !Fits(cap, off + WordPostingsHeaderSize, word[..n]) then
        Run(nested.writes + [Block(off, header)], FailedWrite)
      else
        Run(nested.writes + [Block(off, header), Block(off + WordPostingsHeaderSize, word[..n])],
            WordPostingsHeaderSize + n + nested.ret)
  }

  function PostingsWriter(cap: nat, table: TableWriter): ElementWriter
  {
    (off: int, e: Entry<Value>) => PostingsRun(cap, off, e, table)
  }

  /** What the element writer passed for `w` does with one element at
      `off`: WriteWordToPostingsFn always writes its nested table with
      WriteHashTable and WriteDocIDToPositionListFn. */
  function ElementRun(cap: nat, w: Writer, off: int, e: Entry<Value>): Run
  {
    match w
    case DocidToDocname => DocnameRun(cap, off, e)
    case DocIDToPositionList => PositionListRun(cap, off, e)
    case WordToPostings => PostingsRun(cap, off, e, TableWriterOf(cap, PositionListWriter(cap)))
  }

  /** The function pointer passed for each writer. */
  function WriterOf(cap: nat, w: Writer): ElementWriter
  {
    (off: int, e: Entry<Value>) => ElementRun(cap, w, off, e)
  }

  /** WriteHTBucket's loop from element `k` on, with the next position record
      at `recPos` and the next element at `elemPos`. As in the source, an
      element writer's return value is added to the element position without
      being checked. */
  function ElementsFrom(cap: nat, recPos: int, elemPos: int, c: Chain<Value>, k: int, fn: ElementWriter): Walk
    requires 0 <= k <= |c|
    decreases |c| - k
  {
    if k == |c| then Walk([], Some(elemPos))
    else
      var rec := Encode(ElementPositionRecord(elemPos));
      if !Fits(cap, recPos, rec) then Walk([], None)
      else
        var e := fn(elemPos, c[k]);
        var rest := ElementsFrom(cap, recPos + ElementPositionRecordSize, elemPos + e.ret, c, k + 1, fn);
        Walk([Block(recPos, rec)] + e.writes + rest.writes, rest.end)
  }

  /** WriteHTBucket: nothing for an empty chain; otherwise the position
      records from `off` and the elements after them. */
  function BucketRun(cap: nat, off: int, c: Chain<Value>, fn: ElementWriter): Run
  {
    if |c| == 0 then Run([], 0)
    else
      var walk := ElementsFrom(cap, off, off + Span(|c|, ElementPositionRecordSize), c, 0, fn);
      Run(walk.writes, if walk.end.None? then FailedWrite else walk.end.value - off)
  }

  /** Writes a bucket at an offset: WriteHTBucket with the element writer fixed. */
  type BucketWriter = (int, Chain<Value>) -> Run

  /** WriteHashTable's loop from bucket `i` on: the bucket record (chain
      length and where the bucket starts), then the bucket. */
  function BucketsFrom(cap: nat, recPos: int, bucketPos: int, bs: seq<Chain<Value>>, i: int, bw: BucketWriter): Walk
    requires 0 <= i <= |bs|
    decreases |bs| - i
  {
    if i == |bs| then Walk([], Some(bucketPos))
    else
      var rec := Encode(BucketRecord(|bs[i]|, bucketPos));
      if !Fits(cap, recPos, rec) then Walk([], None)
      else
        var b := bw(bucketPos, bs[i]);
        if b.ret == FailedWrite then Walk([Block(recPos, rec)] + b.writes, None)
        else
          var rest := BucketsFrom(cap, recPos + BucketRecordSize, bucketPos + b.ret, bs, i + 1, bw);
          Walk([Block(recPos, rec)] + b.writes + rest.writes, rest.end)
  }

  /** WriteHTBucket as a bucket writer. */
  function BucketWriterOf(cap: nat, fn: ElementWriter): BucketWriter
  {
    (p: int, c: Chain<Value>) => BucketRun(cap, p, c, fn)
  }

  /** WriteHashTable with the bucket writer as a parameter: the
      BucketListHeader at `off`, then the records and buckets; the bytes
      written, or kFailedWrite. */
  function TableWith(cap: nat, off: int, bs: seq<Chain<Value>>, bw: BucketWriter): Run
  {
    var header := Encode(BucketListHeader(|bs|));
    if !Fits(cap, off, header) then Run([], FailedWrite)
    else
      var walk := BucketsFrom(cap, off + BucketListHeaderSize,
                              off + BucketListHeaderSize + Span(|bs|, BucketRecordSize), bs, 0, bw);
      Run([Block(off, header)] + walk.writes, if walk.end.None? then FailedWrite else walk.end.value - off)
  }

  /** WriteHashTable: each bucket written by WriteHTBucket with `fn`. */
  function TableRun(cap: nat, off: int, bs: seq<Chain<Value>>, fn: ElementWriter): Run
  {
    TableWith(cap, off, bs, BucketWriterOf(cap, fn))
  }

  /** Writes a whole table at an offset: WriteHashTable with the element
      writer fixed. */
  type TableWriter = (int, seq<Chain<Value>>) -> Run

  function TableWriterOf(cap: nat, fn: ElementWriter): TableWriter
  {
    (off: int, bs: seq<Chain<Value>>) => TableRun(cap, off, bs, fn)
  }

  // ---------------------------------------------------------------------------
  // When every write fits: sizes and extent

  /** Every block that writes something starts at or after `lo`. */
  ghost predicate Above(ws: seq<Block>, lo: int)
    decreases |ws|
  {
    ws == [] || ((ws[0].bytes == [] || lo <= ws[0].at) && Above(ws[1..], lo))
  }

  /** An element writer that, wherever the element fits, returns the
      element's size and writes only within [off, off + size), up to its
      last byte. */
  ghost predicate Measured(cap: nat, fn: ElementWriter, size: Sizer, e: Entry<Value>)
  {
    size(e) > 0 &&
    forall off :: 0 <= off && off + size(e) <= cap ==>
      fn(off, e).ret == size(e) && Above(fn(off, e).writes, off) && HighWater(fn(off, e).writes) == off + size(e)
  }

  ghost predicate ChainMeasured(cap: nat, fn: ElementWriter, size: Sizer, c: Chain<Value>)
  {
    forall j :: 0 <= j < |c| ==> Measured(cap, fn, size, c[j])
  }

  ghost predicate TableMeasured(cap: nat, fn: ElementWriter, size: Sizer, bs: seq<Chain<Value>>)
  {
    forall i :: 0 <= i < |bs| ==> ChainMeasured(cap, fn, size, bs[i])
  }

  /** A bucket writer that, wherever a bucket of `bs` fits, returns the
      bucket's size. */
  ghost predicate BucketsSized(cap: nat, bw: BucketWriter, size: Sizer, bs: seq<Chain<Value>>)
  {
    forall i, off :: 0 <= i < |bs| && 0 <= off && off + BucketSize(bs[i], size) <= cap ==>
      bw(off, bs[i]).ret == BucketSize(bs[i], size)
  }

  /** A bucket writer that, wherever a bucket of `bs` fits, returns the
      bucket's size and writes only within [off, off + size), up to its last
      byte (nothing at all for an empty bucket). */
  ghost predicate BucketsMeasured(cap: nat, bw: BucketWriter, size: Sizer, bs: seq<Chain<Value>>)
  {
    forall i, off :: 0 <= i < |bs| && 0 <= off && off + BucketSize(bs[i], size) <= cap ==>
      bw(off, bs[i]).ret == BucketSize(bs[i], size) &&
      Above(bw(off, bs[i]).writes, off) &&
      HighWater(bw(off, bs[i]).writes) == (if bs[i] == [] then 0 else off + BucketSize(bs[i], size))
  }

  // The parts of the two contracts above that each proof about the loops
  // needs: the return value, with either the lower or the upper bound.

  /** Wherever an element of `c` fits, the writer returns its size. */
  ghost predicate ChainReturns(cap: nat, fn: ElementWriter, size: Sizer, c: Chain<Value>)
  {
    forall j, off {:trigger fn(off, c[j])} :: 0 <= j < |c| && 0 <= off && off + size(c[j]) <= cap ==>
      fn(off, c[j]).ret == size(c[j])
  }

  /** Wherever an element of `c` fits, the writer returns its size and
      writes nothing below the element. */
  ghost predicate ChainAbove(cap: nat, fn: ElementWriter, size: Sizer, c: Chain<Value>)
  {
    forall j, off {:trigger fn(off, c[j])} :: 0 <= j < |c| && 0 <= off && off + size(c[j]) <= cap ==>
      fn(off, c[j]).ret == size(c[j]) && Above(fn(off, c[j]).writes, off)
  }

  /** Wherever an element of `c` fits, the writer returns its size and
      writes up to the element's last byte. */
  ghost predicate ChainReach(cap: nat, fn: ElementWriter, size: Sizer, c: Chain<Value>)
  {
    forall j, off {:trigger fn(off, c[j])} :: 0 <= j < |c| && 0 <= off && off + size(c[j]) <= cap ==>
      fn(off, c[j]).ret == size(c[j]) && HighWater(fn(off, c[j]).writes) == off + size(c[j])
  }

  /** Wherever a bucket of `bs` fits, the writer returns its size and
      writes nothing below the bucket. */
  ghost predicate BucketsWithin(cap: nat, bw: BucketWriter, size: Sizer, bs: seq<Chain<Value>>)
  {
    forall i, off {:trigger bw(off, bs[i])} :: 0 <= i < |bs| && 0 <= off && off + BucketSize(bs[i], size) <= cap ==>
      bw(off, bs[i]).ret == BucketSize(bs[i], size) && Above(bw(off, bs[i]).writes, off)
  }

  /** Wherever a bucket of `bs` fits, the writer returns its size and
      writes up to the bucket's last byte. */
  ghost predicate BucketsReach(cap: nat, bw: BucketWriter, size: Sizer, bs: seq<Chain<Value>>)
  {
    forall i, off {:trigger bw(off, bs[i])} :: 0 <= i < |bs| && 0 <= off && off + BucketSize(bs[i], size) <= cap ==>
      bw(off, bs[i]).ret == BucketSize(bs[i], size) &&
      HighWater(bw(off, bs[i]).writes) == (if bs[i] == [] then 0 else off + BucketSize(bs[i], size))
  }

  lemma {:induction false} ChainParts(cap: nat, fn: ElementWriter, size: Sizer, c: Chain<Value>)
    requires ChainMeasured(cap, fn, size, c)
    ensures ChainReturns(cap, fn, size, c) && ChainAbove(cap, fn, size, c) && ChainReach(cap, fn, size, c)
  {
    forall j, off | 0 <= j < |c| && 0 <= off && off + size(c[j]) <= cap
      ensures fn(off, c[j]).ret == size(c[j]) && Above(fn(off, c[j]).writes, off) &&
              HighWater(fn(off, c[j]).writes) == off + size(c[j])
    {
      assert Measured(cap, fn, size, c[j]);
    }
  }

  lemma {:induction false} BucketsParts(cap: nat, bw: BucketWriter, size: Sizer, bs: seq<Chain<Value>>)
    requires BucketsMeasured(cap, bw, size, bs)
    ensures BucketsSized(cap, bw, size, bs) && BucketsWithin(cap, bw, size, bs) && BucketsReach(cap, bw, size, bs)
  {
  }

  lemma {:induction false} AboveConcat(a: seq<Block>, b: seq<Block>, lo: int)
    requires Above(a, lo) && Above(b, lo)
    ensures Above(a + b, lo)
    decreases |a|
  {
    if a == [] {
      assert a + b == b;
    } else {
      assert (a + b)[1..] == a[1..] + b;
      AboveConcat(a[1..], b, lo);
    }
  }

  lemma {:induction false} AboveConcat3(a: seq<Block>, b: seq<Block>, c: seq<Block>, lo: int)
    requires Above(a, lo) && Above(b, lo) && Above(c, lo)
    ensures Above(a + b + c, lo)
  {
    AboveConcat(a, b, lo);
    AboveConcat(a + b, c, lo);
  }

  lemma {:induction false} AboveLower(ws: seq<Block>, lo: int, lo': int)
    requires Above(ws, lo) && lo' <= lo
    ensures Above(ws, lo')
    decreases |ws|
  {
    if ws != [] {
      AboveLower(ws[1..], lo, lo');
    }
  }

  lemma {:induction false} HighWaterConcat3(a: seq<Block>, b: seq<Block>, c: seq<Block>)
    ensures HighWater(a + b + c) == Max(HighWater(a), Max(HighWater(b), HighWater(c)))
  {
    HighWaterConcat(a + b, c);
    HighWaterConcat(a, b);
  }

  /** A span is the product the source computes. */
  lemma {:induction false} SpanIsProduct(n: nat, size: Size)
    ensures Span(n, size) == n * size
  {
    if n > 0 {
      SpanIsProduct(n - 1, size);
    }
  }

  // The loops of WriteHTBucket and WriteHashTable, when every write fits.
  // In the source a bucket's records end where its first element begins and
  // a table's records end where its first bucket begins; the loops are
  // stated here from any iteration on, where the records still to write end
  // at or before the next element (bucket) position.

  /** The bounds of WriteHTBucket's loop carry over to the next element. */
  lemma {:induction false} ElementsNext(cap: nat, recPos: int, elemPos: int, c: Chain<Value>, k: int, size: Sizer)
    requires 0 <= k < |c|
    requires 0 <= recPos && recPos + Span(|c| - k, ElementPositionRecordSize) <= elemPos
    requires elemPos + ElementsAfter(c, k, size) <= cap
    ensures recPos + ElementPositionRecordSize + Span(|c| - (k + 1), ElementPositionRecordSize) <= elemPos
    ensures elemPos + size(c[k]) + ElementsAfter(c, k + 1, size) <= cap
    ensures ElementsAfter(c, k, size) == size(c[k]) + ElementsAfter(c, k + 1, size)
    ensures k + 1 == |c| ==> ElementsAfter(c, k + 1, size) == 0
  {
    assert Span(|c| - k, ElementPositionRecordSize) == Span(|c| - (k + 1), ElementPositionRecordSize) + ElementPositionRecordSize;
  }

  /** The bounds of WriteHashTable's loop carry over to the next bucket. */
  lemma {:induction false} BucketsNext(cap: nat, recPos: int, bucketPos: int, bs: seq<Chain<Value>>, i: int, size: Sizer)
    requires 0 <= i < |bs|
    requires 0 <= recPos && recPos + Span(|bs| - i, BucketRecordSize) <= bucketPos
    requires bucketPos + BucketsAfter(bs, i, size) <= cap
    ensures recPos + BucketRecordSize + Span(|bs| - (i + 1), BucketRecordSize) <= bucketPos + BucketSize(bs[i], size)
    ensures bucketPos + BucketSize(bs[i], size) + BucketsAfter(bs, i + 1, size) <= cap
    ensures BucketsAfter(bs, i, size) == BucketSize(bs[i], size) + BucketsAfter(bs, i + 1, size)
  {
    assert Span(|bs| - i, BucketRecordSize) == Span(|bs| - (i + 1), BucketRecordSize) + BucketRecordSize;
  }

  /** WriteHTBucket's loop from element `k`: it stops just past the last element. */
  lemma {:induction false} ElementsEnd(cap: nat, recPos: int, elemPos: int, c: Chain<Value>, k: int,
                                       fn: ElementWriter, size: Sizer)
    requires 0 <= k <= |c| && ChainReturns(cap, fn, size, c)
    requires 0 <= recPos && recPos + Span(|c| - k, ElementPositionRecordSize) <= elemPos
    requires elemPos + ElementsAfter(c, k, size) <= cap
    ensures ElementsFrom(cap, recPos, elemPos, c, k, fn).end == Some(elemPos + ElementsAfter(c, k, size))
    decreases |c| - k
  {
    if k < |c| {
      ElementsNext(cap, recPos, elemPos, c, k, size);
      ElementsUnfold(cap, recPos, elemPos, c, k, fn, size);
      ElementsEnd(cap, recPos + ElementPositionRecordSize, elemPos + size(c[k]), c, k + 1, fn, size);
    }
  }

  /** WriteHTBucket's loop from element `k` writes nothing before the next record. */
  lemma {:induction false} ElementsAbove(cap: nat, recPos: int, elemPos: int, c: Chain<Value>, k: int,
                                         fn: ElementWriter, size: Sizer)
    requires 0 <= k <= |c| && ChainAbove(cap, fn, size, c)
    requires 0 <= recPos && recPos + Span(|c| - k, ElementPositionRecordSize) <= elemPos
    requires elemPos + ElementsAfter(c, k, size) <= cap
    ensures Above(ElementsFrom(cap, recPos, elemPos, c, k, fn).writes, recPos)
    decreases |c| - k
  {
    if k < |c| {
      ElementsNext(cap, recPos, elemPos, c, k, size);
      var e := fn(elemPos, c[k]);
      ElementsUnfold(cap, recPos, elemPos, c, k, fn, size);
      var rec := Block(recPos, Encode(ElementPositionRecord(elemPos)));
      var rest := ElementsFrom(cap, recPos + ElementPositionRecordSize, elemPos + size(c[k]), c, k + 1, fn);
      ElementsAbove(cap, recPos + ElementPositionRecordSize, elemPos + size(c[k]), c, k + 1, fn, size);
      AboveLower(e.writes, elemPos, recPos);
      AboveLower(rest.writes, recPos + ElementPositionRecordSize, recPos);
      AboveConcat3([rec], e.writes, rest.writes, recPos);
    }
  }

  /** WriteHTBucket's loop from element `k` writes up to the last byte of
      the last element. */
  lemma {:induction false} ElementsHigh(cap: nat, recPos: int, elemPos: int, c: Chain<Value>, k: int,
                                        fn: ElementWriter, size: Sizer)
    requires 0 <= k <= |c| && ChainReach(cap, fn, size, c)
    requires 0 <= recPos && recPos + Span(|c| - k, ElementPositionRecordSize) <= elemPos
    requires elemPos + ElementsAfter(c, k, size) <= cap
    ensures HighWater(ElementsFrom(cap, recPos, elemPos, c, k, fn).writes) ==
              if k == |c| then 0 else elemPos + ElementsAfter(c, k, size)
    decreases |c| - k
  {
    if k < |c| {
      ElementsNext(cap, recPos, elemPos, c, k, size);
      assert HighWater(fn(elemPos, c[k]).writes) == elemPos + size(c[k]);
      ElementsUnfold(cap, recPos, elemPos, c, k, fn, size);
      ElementsHigh(cap, recPos + ElementPositionRecordSize, elemPos + size(c[k]), c, k + 1, fn, size);
      ElementsHighStep(cap, recPos, elemPos, c, k, fn, size);
    }
  }

  /** The step of ElementsHigh: from what one round writes and what the
      rest of the loop reaches. */
  lemma {:induction false} ElementsHighStep(cap: nat, recPos: int, elemPos: int, c: Chain<Value>, k: int,
                                            fn: ElementWriter, size: Sizer)
    requires 0 <= k < |c| && 0 <= recPos && recPos + ElementPositionRecordSize <= elemPos
    requires ElementsAfter(c, k, size) == size(c[k]) + ElementsAfter(c, k + 1, size)
    requires k + 1 == |c| ==> ElementsAfter(c, k + 1, size) == 0
    requires var e := fn(elemPos, c[k]);
             var rest := ElementsFrom(cap, recPos + ElementPositionRecordSize, elemPos + size(c[k]), c, k + 1, fn);
             HighWater(e.writes) == elemPos + size(c[k]) &&
             ElementsFrom(cap, recPos, elemPos, c, k, fn).writes ==
               [Block(recPos, Encode(ElementPositionRecord(elemPos)))] + e.writes + rest.writes
    requires HighWater(ElementsFrom(cap, recPos + ElementPositionRecordSize, elemPos + size(c[k]), c, k + 1, fn).writes) ==
               if k + 1 == |c| then 0 else elemPos + size(c[k]) + ElementsAfter(c, k + 1, size)
    ensures HighWater(ElementsFrom(cap, recPos, elemPos, c, k, fn).writes) == elemPos + ElementsAfter(c, k, size)
  {
    var rec := Block(recPos, Encode(ElementPositionRecord(elemPos)));
    var e := fn(elemPos, c[k]);
    var rest := ElementsFrom(cap, recPos + ElementPositionRecordSize, elemPos + size(c[k]), c, k + 1, fn);
    HighWaterCons(rec, e.writes, rest.writes);
    assert End(rec) == recPos + ElementPositionRecordSize;
  }

  /** One round of WriteHTBucket's loop, when the element fits and the
      writer returns its size: its position record, then the element, then
      the rest of the loop, which goes on past the element. */
  lemma {:induction false} ElementsUnfold(cap: nat, recPos: int, elemPos: int, c: Chain<Value>, k: int,
                                          fn: ElementWriter, size: Sizer)
    requires 0 <= k < |c| && fn(elemPos, c[k]).ret == size(c[k])
    requires 0 <= recPos && recPos + Span(|c| - k, ElementPositionRecordSize) <= elemPos
    requires elemPos + ElementsAfter(c, k, size) <= cap
    ensures var e := fn(elemPos, c[k]);
            var rest := ElementsFrom(cap, recPos + ElementPositionRecordSize, elemPos + size(c[k]), c, k + 1, fn);
            ElementsFrom(cap, recPos, elemPos, c, k, fn).writes ==
              [Block(recPos, Encode(ElementPositionRecord(elemPos)))] + e.writes + rest.writes &&
            ElementsFrom(cap, recPos, elemPos, c, k, fn).end == rest.end
  {
  }

  /** WriteHTBucket returns the bucket's size, and writes only within
      [off, off + bucket size), up to its last byte. */
  lemma {:induction false} BucketFits(cap: nat, off: int, c: Chain<Value>, fn: ElementWriter, size: Sizer)
    requires ChainMeasured(cap, fn, size, c)
    requires 0 <= off && off + BucketSize(c, size) <= cap
    ensures BucketRun(cap, off, c, fn).ret == BucketSize(c, size)
    ensures Above(BucketRun(cap, off, c, fn).writes, off)
    ensures HighWater(BucketRun(cap, off, c, fn).writes) == if c == [] then 0 else off + BucketSize(c, size)
  {
    if c != [] {
      var elemPos := off + Span(|c|, ElementPositionRecordSize);
      ChainParts(cap, fn, size, c);
      ElementsEnd(cap, off, elemPos, c, 0, fn, size);
      ElementsAbove(cap, off, elemPos, c, 0, fn, size);
      ElementsHigh(cap, off, elemPos, c, 0, fn, size);
    }
  }

  /** WriteHashTable's loop from bucket `i`: it stops just past the last bucket. */
  lemma {:induction false} BucketsEnd(cap: nat, recPos: int, bucketPos: int, bs: seq<Chain<Value>>, i: int,
                                      bw: BucketWriter, size: Sizer)
    requires 0 <= i <= |bs| && BucketsSized(cap, bw, size, bs)
    requires 0 <= recPos && recPos + Span(|bs| - i, BucketRecordSize) <= bucketPos
    requires bucketPos + BucketsAfter(bs, i, size) <= cap
    ensures BucketsFrom(cap, recPos, bucketPos, bs, i, bw).end == Some(bucketPos + BucketsAfter(bs, i, size))
    decreases |bs| - i
  {
    if i < |bs| {
      var b := bw(bucketPos, bs[i]);
      BucketsNext(cap, recPos, bucketPos, bs, i, size);
      BucketsEnd(cap, recPos + BucketRecordSize, bucketPos + b.ret, bs, i + 1, bw, size);
    }
  }

  /** WriteHashTable's loop from bucket `i` writes nothing before the next record. */
  lemma {:induction false} BucketsAbove(cap: nat, recPos: int, bucketPos: int, bs: seq<Chain<Value>>, i: int,
                                        bw: BucketWriter, size: Sizer)
    requires 0 <= i <= |bs| && BucketsWithin(cap, bw, size, bs)
    requires 0 <= recPos && recPos + Span(|bs| - i, BucketRecordSize) <= bucketPos
    requires bucketPos + BucketsAfter(bs, i, size) <= cap
    ensures Above(BucketsFrom(cap, recPos, bucketPos, bs, i, bw).writes, recPos)
    decreases |bs| - i
  {
    if i < |bs| {
      BucketsNext(cap, recPos, bucketPos, bs, i, size);
      assert Above(bw(bucketPos, bs[i]).writes, bucketPos);
      BucketsUnfold(cap, recPos, bucketPos, bs, i, bw, size);
      BucketsAbove(cap, recPos + BucketRecordSize, bucketPos + BucketSize(bs[i], size), bs, i + 1, bw, size);
      BucketsAboveStep(cap, recPos, bucketPos, bs, i, bw, size);
    }
  }

  /** The step of BucketsAbove: the record, then a bucket above its own
      start, then the rest of the loop above the next record. */
  lemma {:induction false} BucketsAboveStep(cap: nat, recPos: int, bucketPos: int, bs: seq<Chain<Value>>, i: int,
                                            bw: BucketWriter, size: Sizer)
    requires 0 <= i < |bs|
    requires 0 <= recPos && recPos + Span(|bs| - i, BucketRecordSize) <= bucketPos
    requires var bucket := bw(bucketPos, bs[i]);
             var rest := BucketsFrom(cap, recPos + BucketRecordSize, bucketPos + BucketSize(bs[i], size), bs, i + 1, bw);
             Above(bucket.writes, bucketPos) &&
             BucketsFrom(cap, recPos, bucketPos, bs, i, bw).writes ==
               [Block(recPos, Encode(BucketRecord(|bs[i]|, bucketPos)))] + bucket.writes + rest.writes
    requires Above(BucketsFrom(cap, recPos + BucketRecordSize, bucketPos + BucketSize(bs[i], size), bs, i + 1, bw).writes,
                   recPos + BucketRecordSize)
    ensures Above(BucketsFrom(cap, recPos, bucketPos, bs, i, bw).writes, recPos)
  {
    var rec := Block(recPos, Encode(BucketRecord(|bs[i]|, bucketPos)));
    var bucket := bw(bucketPos, bs[i]);
    var rest := BucketsFrom(cap, recPos + BucketRecordSize, bucketPos + BucketSize(bs[i], size), bs, i + 1, bw);
    AboveLower(bucket.writes, bucketPos, recPos);
    AboveLower(rest.writes, recPos + BucketRecordSize, recPos);
    AboveConcat3([rec], bucket.writes, rest.writes, recPos);
  }

  /** WriteHashTable's loop from bucket `i` writes up to the last byte of
      the last bucket, or of the last record when every bucket left is empty. */
  lemma {:induction false} BucketsHigh(cap: nat, recPos: int, bucketPos: int, bs: seq<Chain<Value>>, i: int,
                                       bw: BucketWriter, size: Sizer)
    requires 0 <= i <= |bs| && BucketsReach(cap, bw, size, bs)
    requires 0 <= recPos && recPos + Span(|bs| - i, BucketRecordSize) <= bucketPos
    requires bucketPos + BucketsAfter(bs, i, size) <= cap
    ensures HighWater(BucketsFrom(cap, recPos, bucketPos, bs, i, bw).writes) ==
              if i == |bs| then 0
              else if BucketsAfter(bs, i, size) == 0 then recPos + Span(|bs| - i, BucketRecordSize)
              else bucketPos + BucketsAfter(bs, i, size)
    decreases |bs| - i
  {
    if i < |bs| {
      BucketsNext(cap, recPos, bucketPos, bs, i, size);
      assert HighWater(bw(bucketPos, bs[i]).writes) == (if bs[i] == [] then 0 else bucketPos + BucketSize(bs[i], size));
      BucketsUnfold(cap, recPos, bucketPos, bs, i, bw, size);
      BucketsHigh(cap, recPos + BucketRecordSize, bucketPos + BucketSize(bs[i], size), bs, i + 1, bw, size);
      BucketsHighStep(cap, recPos, bucketPos, bs, i, bw, size);
    }
  }

  /** The step of BucketsHigh: from what one round writes and what the rest
      of the loop reaches. */
  lemma {:induction false} BucketsHighStep(cap: nat, recPos: int, bucketPos: int, bs: seq<Chain<Value>>, i: int,
                                           bw: BucketWriter, size: Sizer)
    requires 0 <= i < |bs|
    requires 0 <= recPos && recPos + Span(|bs| - i, BucketRecordSize) <= bucketPos
    requires var bucket := bw(bucketPos, bs[i]);
             var rest := BucketsFrom(cap, recPos + BucketRecordSize, bucketPos + BucketSize(bs[i], size), bs, i + 1, bw);
             bucket.ret == BucketSize(bs[i], size) &&
             HighWater(bucket.writes) == (if bs[i] == [] then 0 else bucketPos + BucketSize(bs[i], size)) &&
             BucketsFrom(cap, recPos, bucketPos, bs, i, bw).writes ==
               [Block(recPos, Encode(BucketRecord(|bs[i]|, bucketPos)))] + bucket.writes + rest.writes
    requires HighWater(BucketsFrom(cap, recPos + BucketRecordSize, bucketPos + BucketSize(bs[i], size), bs, i + 1, bw).writes) ==
               if i + 1 == |bs| then 0
               else if BucketsAfter(bs, i + 1, size) == 0 then recPos + BucketRecordSize + Span(|bs| - (i + 1), BucketRecordSize)
               else bucketPos + BucketSize(bs[i], size) + BucketsAfter(bs, i + 1, size)
    ensures HighWater(BucketsFrom(cap, recPos, bucketPos, bs, i, bw).writes) ==
              if BucketsAfter(bs, i, size) == 0 then recPos + Span(|bs| - i, BucketRecordSize)
              else bucketPos + BucketsAfter(bs, i, size)
  {
    var rec := Block(recPos, Encode(BucketRecord(|bs[i]|, bucketPos)));
    var bucket := bw(bucketPos, bs[i]);
    var bucketSize := BucketSize(bs[i], size);
    var rest := BucketsFrom(cap, recPos + BucketRecordSize, bucketPos + bucketSize, bs, i + 1, bw);
    HighWaterCons(rec, bucket.writes, rest.writes);
    assert End(rec) == recPos + BucketRecordSize;
    assert Span(|bs| - i, BucketRecordSize) == Span(|bs| - (i + 1), BucketRecordSize) + BucketRecordSize;
    assert BucketsAfter(bs, i, size) == bucketSize + BucketsAfter(bs, i + 1, size);
    BucketSizeZero(bs[i], size);
    HighStep(recPos + BucketRecordSize, recPos + Span(|bs| - i, BucketRecordSize), bucketPos, bucketSize,
             BucketsAfter(bs, i + 1, size), HighWater(bucket.writes), HighWater(rest.writes), i + 1 == |bs|);
  }

  /** One round of WriteHashTable's loop, when the bucket fits and the
      writer returns its size: its record, then the bucket, then the rest of
      the loop. */
  lemma {:induction false} BucketsUnfold(cap: nat, recPos: int, bucketPos: int, bs: seq<Chain<Value>>, i: int,
                                         bw: BucketWriter, size: Sizer)
    requires 0 <= i < |bs| && bw(bucketPos, bs[i]).ret == BucketSize(bs[i], size)
    requires 0 <= recPos && recPos + Span(|bs| - i, BucketRecordSize) <= bucketPos
    requires bucketPos + BucketsAfter(bs, i, size) <= cap
    ensures var bucket := bw(bucketPos, bs[i]);
            var rest := BucketsFrom(cap, recPos + BucketRecordSize, bucketPos + BucketSize(bs[i], size), bs, i + 1, bw);
            BucketsFrom(cap, recPos, bucketPos, bs, i, bw).writes ==
              [Block(recPos, Encode(BucketRecord(|bs[i]|, bucketPos)))] + bucket.writes + rest.writes
  {
  }

  /** A block in front of two runs of blocks. */
  lemma {:induction false} HighWaterCons(b: Block, xs: seq<Block>, ys: seq<Block>)
    ensures HighWater([b] + xs + ys) == Max(End(b), Max(HighWater(xs), HighWater(ys)))
  {
    HighWaterConcat3([b], xs, ys);
    assert [b][1..] == [];
  }

  /** Only an empty bucket takes no bytes. */
  lemma {:induction false} BucketSizeZero(c: Chain<Value>, size: Sizer)
    ensures BucketSize(c, size) == 0 <==> c == []
  {
    if c != [] {
      assert Span(|c|, ElementPositionRecordSize) == Span(|c| - 1, ElementPositionRecordSize) + ElementPositionRecordSize;
    }
  }

  /** One step of WriteHashTable's loop: the record ends first, then the
      bucket, then whatever the rest of the loop writes. */
  lemma {:induction false} HighStep(recEnd: int, recordsEnd: int, bucketPos: int, bucketSize: int, after: int,
                 bucketHigh: int, restHigh: int, last: bool)
    requires 0 <= recEnd <= recordsEnd <= bucketPos && 0 <= bucketSize && 0 <= after
    requires bucketHigh == if bucketSize == 0 then 0 else bucketPos + bucketSize
    requires last ==> recEnd == recordsEnd && after == 0 && restHigh == 0
    requires !last ==> restHigh == if after == 0 then recordsEnd else bucketPos + bucketSize + after
    ensures Max(recEnd, Max(bucketHigh, restHigh)) ==
              if bucketSize + after == 0 then recordsEnd else bucketPos + bucketSize + after
  {
  }

  /** WriteHTBucket meets its bucket-writer contract on every bucket of a table. */
  lemma {:induction false} BucketWriterMeasured(cap: nat, fn: ElementWriter, size: Sizer, bs: seq<Chain<Value>>)
    requires TableMeasured(cap, fn, size, bs)
    ensures BucketsMeasured(cap, BucketWriterOf(cap, fn), size, bs)
  {
    forall i, off | 0 <= i < |bs| && 0 <= off && off + BucketSize(bs[i], size) <= cap
      ensures BucketWriterOf(cap, fn)(off, bs[i]) == BucketRun(cap, off, bs[i], fn)
      ensures BucketRun(cap, off, bs[i], fn).ret == BucketSize(bs[i], size)
      ensures Above(BucketRun(cap, off, bs[i], fn).writes, off)
      ensures HighWater(BucketRun(cap, off, bs[i], fn).writes) == if bs[i] == [] then 0 else off + BucketSize(bs[i], size)
    {
      assert ChainMeasured(cap, fn, size, bs[i]);
      BucketFits(cap, off, bs[i], fn, size);
    }
  }

  /** WriteHashTable returns the table's size: header, records and buckets. */
  lemma {:induction false} TableWithEnd(cap: nat, off: int, bs: seq<Chain<Value>>, bw: BucketWriter, size: Sizer)
    requires BucketsSized(cap, bw, size, bs)
    requires 0 <= off && off + TableSize(bs, size) <= cap
    ensures TableWith(cap, off, bs, bw).ret == TableSize(bs, size)
  {
    var recPos := off + BucketListHeaderSize;
    BucketsEnd(cap, recPos, recPos + Span(|bs|, BucketRecordSize), bs, 0, bw, size);
  }

  /** WriteHashTable writes nothing before its header. */
  lemma {:induction false} TableWithAbove(cap: nat, off: int, bs: seq<Chain<Value>>, bw: BucketWriter, size: Sizer)
    requires BucketsMeasured(cap, bw, size, bs)
    requires 0 <= off && off + TableSize(bs, size) <= cap
    ensures Above(TableWith(cap, off, bs, bw).writes, off)
  {
    var recPos := off + BucketListHeaderSize;
    var start := recPos + Span(|bs|, BucketRecordSize);
    BucketsParts(cap, bw, size, bs);
    BucketsAbove(cap, recPos, start, bs, 0, bw, size);
    var walk := BucketsFrom(cap, recPos, start, bs, 0, bw);
    AboveLower(walk.writes, recPos, off);
    AboveConcat([Block(off, Encode(BucketListHeader(|bs|)))], walk.writes, off);
  }

  /** WriteHashTable writes up to the table's last byte. */
  lemma {:induction false} TableWithHigh(cap: nat, off: int, bs: seq<Chain<Value>>, bw: BucketWriter, size: Sizer)
    requires BucketsMeasured(cap, bw, size, bs)
    requires 0 <= off && off + TableSize(bs, size) <= cap
    ensures HighWater(TableWith(cap, off, bs, bw).writes) == off + TableSize(bs, size)
  {
    var recPos := off + BucketListHeaderSize;
    var start := recPos + Span(|bs|, BucketRecordSize);
    BucketsParts(cap, bw, size, bs);
    BucketsHigh(cap, recPos, start, bs, 0, bw, size);
    var walk := BucketsFrom(cap, recPos, start, bs, 0, bw);
    HighWaterConcat([Block(off, Encode(BucketListHeader(|bs|)))], walk.writes);
  }

  /** WriteHashTable returns the table's size, header plus records plus
      buckets, and writes only within [off, off + table size), up to its
      last byte. */
  lemma {:induction false} TableFits(cap: nat, off: int, bs: seq<Chain<Value>>, fn: ElementWriter, size: Sizer)
    requires TableMeasured(cap, fn, size, bs)
    requires 0 <= off && off + TableSize(bs, size) <= cap
    ensures TableRun(cap, off, bs, fn).ret == TableSize(bs, size)
    ensures Above(TableRun(cap, off, bs, fn).writes, off)
    ensures HighWater(TableRun(cap, off, bs, fn).writes) == off + TableSize(bs, size)
  {
    var bw := BucketWriterOf(cap, fn);
    BucketWriterMeasured(cap, fn, size, bs);
    TableWithEnd(cap, off, bs, bw, size);
    TableWithAbove(cap, off, bs, bw, size);
    TableWithHigh(cap, off, bs, bw, size);
  }

  // Where the records land and what they hold, when every write fits.

  /** WriteHashTable's loop from bucket `i`: bucket `j`'s record sits
      `j - i` records after the next one, and holds bucket `j`'s chain length
      and the position where bucket `j`'s contents begin, past the contents
      of buckets i .. j-1. */
  lemma {:induction false} BucketRecordIn(cap: nat, recPos: int, bucketPos: int, bs: seq<Chain<Value>>, i: int, j: int,
                                          bw: BucketWriter, size: Sizer)
    requires 0 <= i <= j < |bs| && BucketsSized(cap, bw, size, bs)
    requires 0 <= recPos && recPos + Span(|bs| - i, BucketRecordSize) <= bucketPos
    requires bucketPos + BucketsAfter(bs, i, size) <= cap
    ensures Block(recPos + Span(j - i, BucketRecordSize),
                  Encode(BucketRecord(|bs[j]|, bucketPos + BucketsAfter(bs, i, size) - BucketsAfter(bs, j, size))))
            in BucketsFrom(cap, recPos, bucketPos, bs, i, bw).writes
    decreases j - i
  {
    BucketsNext(cap, recPos, bucketPos, bs, i, size);
    BucketsUnfold(cap, recPos, bucketPos, bs, i, bw, size);
    var rec := Block(recPos, Encode(BucketRecord(|bs[i]|, bucketPos)));
    var bucket := bw(bucketPos, bs[i]);
    var rest := BucketsFrom(cap, recPos + BucketRecordSize, bucketPos + BucketSize(bs[i], size), bs, i + 1, bw);
    if j > i {
      BucketRecordIn(cap, recPos + BucketRecordSize, bucketPos + BucketSize(bs[i], size), bs, i + 1, j, bw, size);
      var at := recPos + Span(j - i, BucketRecordSize);
      var pos := bucketPos + BucketsAfter(bs, i, size) - BucketsAfter(bs, j, size);
      assert at == recPos + BucketRecordSize + Span(j - (i + 1), BucketRecordSize);
      assert pos == bucketPos + BucketSize(bs[i], size) + BucketsAfter(bs, i + 1, size) - BucketsAfter(bs, j, size);
    } else {
      assert Span(j - i, BucketRecordSize) == 0;
    }
  }

  /** WriteHTBucket's loop from element `k`: element `j`'s position record
      sits `j - k` records after the next one, and holds the position where
      element `j` begins, past elements k .. j-1. */
  lemma {:induction false} ElementRecordIn(cap: nat, recPos: int, elemPos: int, c: Chain<Value>, k: int, j: int,
                                           fn: ElementWriter, size: Sizer)
    requires 0 <= k <= j < |c| && ChainReturns(cap, fn, size, c)
    requires 0 <= recPos && recPos + Span(|c| - k, ElementPositionRecordSize) <= elemPos
    requires elemPos + ElementsAfter(c, k, size) <= cap
    ensures Block(recPos + Span(j - k, ElementPositionRecordSize),
                  Encode(ElementPositionRecord(elemPos + ElementsAfter(c, k, size) - ElementsAfter(c, j, size))))
            in ElementsFrom(cap, recPos, elemPos, c, k, fn).writes
    decreases j - k
  {
    ElementsNext(cap, recPos, elemPos, c, k, size);
    ElementsUnfold(cap, recPos, elemPos, c, k, fn, size);
    var rec := Block(recPos, Encode(ElementPositionRecord(elemPos)));
    var e := fn(elemPos, c[k]);
    var rest := ElementsFrom(cap, recPos + ElementPositionRecordSize, elemPos + size(c[k]), c, k + 1, fn);
    if j > k {
      ElementRecordIn(cap, recPos + ElementPositionRecordSize, elemPos + size(c[k]), c, k + 1, j, fn, size);
      var at := recPos + Span(j - k, ElementPositionRecordSize);
      var pos := elemPos + ElementsAfter(c, k, size) - ElementsAfter(c, j, size);
      assert at == recPos + ElementPositionRecordSize + Span(j - (k + 1), ElementPositionRecordSize);
      assert pos == elemPos + size(c[k]) + ElementsAfter(c, k + 1, size) - ElementsAfter(c, j, size);

    } else {
      assert Span(j - k, ElementPositionRecordSize) == 0;
    }
  }

  /** In a bucket of n > 0 elements written at `off`, element `j`'s position
      record is at off + j records and points past the n records and the
      elements before `j`. */
  lemma {:induction false} BucketElementRecord(cap: nat, off: int, c: Chain<Value>, j: int, fn: ElementWriter, size: Sizer)
    requires 0 <= j < |c| && ChainMeasured(cap, fn, size, c)
    requires 0 <= off && off + BucketSize(c, size) <= cap
    ensures Block(off + Span(j, ElementPositionRecordSize),
                  Encode(ElementPositionRecord(off + Span(|c|, ElementPositionRecordSize) +
                                                     ElementsAfter(c, 0, size) - ElementsAfter(c, j, size))))
            in BucketRun(cap, off, c, fn).writes
  {
    ChainParts(cap, fn, size, c);
    ElementRecordIn(cap, off, off + Span(|c|, ElementPositionRecordSize), c, 0, j, fn, size);
  }

  /** A table written at `off` starts with its header, the number of
      buckets. */
  lemma {:induction false} TableHeader(cap: nat, off: int, bs: seq<Chain<Value>>, fn: ElementWriter)
    requires 0 <= off && off + BucketListHeaderSize <= cap
    ensures TableRun(cap, off, bs, fn).writes != [] &&
            TableRun(cap, off, bs, fn).writes[0] == Block(off, Encode(BucketListHeader(|bs|)))
  {
  }

  /** In a table written at `off`, bucket `j`'s record is at off + header +
      j records, and holds bucket `j`'s chain length and the position of its
      contents: past the header, all the records and the contents of the
      buckets before `j` (an empty bucket has a record and no contents). */
  lemma {:induction false} TableWithBucketRecord(cap: nat, off: int, bs: seq<Chain<Value>>, j: int, bw: BucketWriter, size: Sizer)
    requires 0 <= j < |bs| && BucketsSized(cap, bw, size, bs)
    requires 0 <= off && off + TableSize(bs, size) <= cap
    ensures Block(off + BucketListHeaderSize + Span(j, BucketRecordSize),
                  Encode(BucketRecord(|bs[j]|, off + BucketListHeaderSize + Span(|bs|, BucketRecordSize) +
                                                     BucketsAfter(bs, 0, size) - BucketsAfter(bs, j, size))))
            in TableWith(cap, off, bs, bw).writes
  {
    var recPos := off + BucketListHeaderSize;
    var start := recPos + Span(|bs|, BucketRecordSize);
    var pos := start + BucketsAfter(bs, 0, size) - BucketsAfter(bs, j, size);
    var rec := Block(recPos + Span(j, BucketRecordSize), Encode(BucketRecord(|bs[j]|, pos)));
    BucketRecordIn(cap, recPos, start, bs, 0, j, bw, size);
  }

  lemma {:induction false} TableBucketRecord(cap: nat, off: int, bs: seq<Chain<Value>>, j: int, fn: ElementWriter, size: Sizer)
    requires 0 <= j < |bs| && TableMeasured(cap, fn, size, bs)
    requires 0 <= off && off + TableSize(bs, size) <= cap
    ensures Block(off + BucketListHeaderSize + Span(j, BucketRecordSize),
                  Encode(BucketRecord(|bs[j]|, off + BucketListHeaderSize + Span(|bs|, BucketRecordSize) +
                                                     BucketsAfter(bs, 0, size) - BucketsAfter(bs, j, size))))
            in TableRun(cap, off, bs, fn).writes
  {
    BucketWriterMeasured(cap, fn, size, bs);
    BucketsParts(cap, BucketWriterOf(cap, fn), size, bs);
    TableWithBucketRecord(cap, off, bs, j, BucketWriterOf(cap, fn), size);
  }

  /** A table writer that, wherever the table fits, returns the table's
      size and writes only within [off, off + size), up to its last byte. */
  ghost predicate TableWriterMeasured(cap: nat, table: TableWriter, size: Sizer, bs: seq<Chain<Value>>)
  {
    forall off :: 0 <= off && off + TableSize(bs, size) <= cap ==>
      table(off, bs).ret == TableSize(bs, size) && Above(table(off, bs).writes, off) &&
      HighWater(table(off, bs).writes) == off + TableSize(bs, size)
  }

  /** WriteHashTable meets the table-writer contract on a table whose
      elements meet theirs. */
  lemma {:induction false} TableWriterFits(cap: nat, fn: ElementWriter, size: Sizer, bs: seq<Chain<Value>>)
    requires TableMeasured(cap, fn, size, bs)
    ensures TableWriterMeasured(cap, TableWriterOf(cap, fn), size, bs)
  {
    forall off | 0 <= off && off + TableSize(bs, size) <= cap
      ensures TableWriterOf(cap, fn)(off, bs) == TableRun(cap, off, bs, fn)
      ensures TableRun(cap, off, bs, fn).ret == TableSize(bs, size)
      ensures Above(TableRun(cap, off, bs, fn).writes, off)
      ensures HighWater(TableRun(cap, off, bs, fn).writes) == off + TableSize(bs, size)
    {
      TableFits(cap, off, bs, fn, size);
    }
  }

  // ---------------------------------------------------------------------------
  // The three element writers, when every write fits

  /** A doc id -> file name element is its header (doc id, name length) and
      the name, with no terminator, and WriteDocidToDocnameFn returns their
      total size. */
  lemma {:induction false} DocnameFits(cap: nat, off: int, e: Entry<Value>)
    requires e.value.DocName? && |e.value.name| < 0x8000
    requires 0 <= off && off + DocnameSize(e) <= cap
    ensures DocnameRun(cap, off, e) ==
      Run([Block(off, Encode(DoctableElementHeader(e.key, |e.value.name|))),
           Block(off + DoctableElementHeaderSize, e.value.name)],
          DoctableElementHeaderSize + |e.value.name|)
  {
    assert e.value.name[..|e.value.name|] == e.value.name;
  }

  lemma {:induction false} DocnameMeasured(cap: nat, e: Entry<Value>)
    requires e.value.DocName? && |e.value.name| < 0x8000
    ensures Measured(cap, WriterOf(cap, DocidToDocname), DocnameSize, e)
  {
    forall off | 0 <= off && off + DocnameSize(e) <= cap
      ensures WriterOf(cap, DocidToDocname)(off, e).ret == DocnameSize(e)
      ensures Above(WriterOf(cap, DocidToDocname)(off, e).writes, off)
      ensures HighWater(WriterOf(cap, DocidToDocname)(off, e).writes) == off + DocnameSize(e)
    {
      DocnameFits(cap, off, e);
      var header := Block(off, Encode(DoctableElementHeader(e.key, |e.value.name|)));
      var name := Block(off + DoctableElementHeaderSize, e.value.name);
      AboveConcat([header], [name], off);
      HighWaterConcat([header], [name]);
      assert [header] + [name] == [header, name];
    }
  }

  /** Position `j` of a list written from `at`, in list order. */
  function PositionBlocks(at: nat, ps: seq<int>): (ws: seq<Block>)
    ensures |ws| == |ps|
  {
    seq(|ps|, j requires 0 <= j < |ps| => Block(at + Span(j, DocIDElementPositionSize), Encode(DocIDElementPosition(ps[j]))))
  }

  /** The position loop writes the positions in list order, one record
      after another, and returns the bytes of all the records. */
  lemma {:induction false} PositionsFits(cap: nat, at: int, ps: seq<int>)
    requires 0 <= at && at + Span(|ps|, DocIDElementPositionSize) <= cap
    ensures PositionsFrom(cap, at, ps) == Run(PositionBlocks(at, ps), Span(|ps|, DocIDElementPositionSize))
    decreases |ps|
  {
    if ps != [] {
      PositionsFits(cap, at + DocIDElementPositionSize, ps[1..]);
      var rest := PositionBlocks(at + DocIDElementPositionSize, ps[1..]);
      var all := PositionBlocks(at, ps);
      forall j | 0 <= j < |ps| ensures all[j] == ([all[0]] + rest)[j] {
        if j > 0 {
          SpanShift(j - 1, DocIDElementPositionSize);
        }
      }
      assert all == [all[0]] + rest;
    }
  }

  /** Span(n + 1) counts the first record before the other n. */
  lemma {:induction false} SpanShift(n: nat, size: Size)
    ensures Span(n + 1, size) == size + Span(n, size)
  {
    if n > 0 {
      SpanShift(n - 1, size);
    }
  }

  /** The position loop writes only from `at` up to the end of the last record. */
  lemma {:induction false} PositionsExtent(cap: nat, at: int, ps: seq<int>)
    requires 0 <= at && at + Span(|ps|, DocIDElementPositionSize) <= cap
    ensures Above(PositionsFrom(cap, at, ps).writes, at)
    ensures HighWater(PositionsFrom(cap, at, ps).writes) ==
              if ps == [] then 0 else at + Span(|ps|, DocIDElementPositionSize)
    decreases |ps|
  {
    if ps != [] {
      var next := at + DocIDElementPositionSize;
      SpanShift(|ps| - 1, DocIDElementPositionSize);
      PositionsExtent(cap, next, ps[1..]);
      var first := Block(at, Encode(DocIDElementPosition(ps[0])));
      var rest := PositionsFrom(cap, next, ps[1..]);
      AboveLower(rest.writes, next, at);
      AboveConcat([first], rest.writes, at);
      HighWaterConcat([first], rest.writes);
    }
  }

  /** A doc id -> positions element is its header (doc id, number of
      positions) and then the positions in list order, and
      WriteDocIDToPositionListFn returns their total size. */
  lemma {:induction false} PositionListFits(cap: nat, off: int, e: Entry<Value>)
    requires e.value.PositionList?
    requires 0 <= off && off + PositionListSize(e) <= cap
    ensures PositionListRun(cap, off, e) ==
      Run([Block(off, Encode(DocIDElementHeader(e.key, |e.value.positions|)))] +
          PositionBlocks(off + DocIDElementHeaderSize, e.value.positions),
          DocIDElementHeaderSize + Span(|e.value.positions|, DocIDElementPositionSize))
  {
    PositionsFits(cap, off + DocIDElementHeaderSize, e.value.positions);
  }

  /** WriteDocIDToPositionListFn writes only within its element, up to its
      last byte. */
  lemma {:induction false} PositionListExtent(cap: nat, off: int, e: Entry<Value>)
    requires e.value.PositionList?
    requires 0 <= off && off + PositionListSize(e) <= cap
    ensures Above(PositionListRun(cap, off, e).writes, off)
    ensures HighWater(PositionListRun(cap, off, e).writes) == off + PositionListSize(e)
  {
    var at := off + DocIDElementHeaderSize;
    PositionsExtent(cap, at, e.value.positions);
    var header := Block(off, Encode(DocIDElementHeader(e.key, |e.value.positions|)));
    var body := PositionsFrom(cap, at, e.value.positions);
    AboveLower(body.writes, at, off);
    AboveConcat([header], body.writes, off);
    HighWaterConcat([header], body.writes);
  }

  lemma {:induction false} PositionListMeasured(cap: nat, e: Entry<Value>)
    requires e.value.PositionList?
    ensures Measured(cap, PositionListWriter(cap), PositionListSize, e)
  {
    forall off | 0 <= off && off + PositionListSize(e) <= cap
      ensures PositionListWriter(cap)(off, e).ret == PositionListSize(e)
      ensures Above(PositionListWriter(cap)(off, e).writes, off)
      ensures HighWater(PositionListWriter(cap)(off, e).writes) == off + PositionListSize(e)
    {
      PositionListFits(cap, off, e);
      PositionListExtent(cap, off, e);
    }
  }

  /** Every doc id table nested in a posting list meets the element
      writer's contract. */
  lemma {:induction false} PositionTableMeasured(cap: nat, postings: seq<Chain<Value>>)
    requires TableShaped(postings, DocIDToPositionList)
    ensures TableMeasured(cap, PositionListWriter(cap), PositionListSize, postings)
  {
    forall i, j | 0 <= i < |postings| && 0 <= j < |postings[i]|
      ensures Measured(cap, PositionListWriter(cap), PositionListSize, postings[i][j])
    {
      assert Shaped(DocIDToPositionList, postings[i][j].value);
      PositionListMeasured(cap, postings[i][j]);
    }
  }

  /** A word -> postings element is its nested doc id table, written past
      the header and the word, then the header (word length, nested table
      size), then the word with no terminator; WriteWordToPostingsFn returns
      their total size. */
  lemma {:induction false} PostingsFits(cap: nat, off: int, e: Entry<Value>, table: TableWriter)
    requires e.value.Postings? && |e.value.word| < 0x8000
    requires TableWriterMeasured(cap, table, PositionListSize, e.value.postings)
    requires 0 <= off && off + PostingsSize(e) <= cap
    ensures var tableAt := off + WordPostingsHeaderSize + |e.value.word|;
            var tableSize := TableSize(e.value.postings, PositionListSize);
            table(tableAt, e.value.postings).ret == tableSize &&
            PostingsRun(cap, off, e, table) ==
              Run(table(tableAt, e.value.postings).writes +
                  [Block(off, Encode(WordPostingsHeader(|e.value.word|, tableSize))),
                   Block(off + WordPostingsHeaderSize, e.value.word)],
                  WordPostingsHeaderSize + |e.value.word| + tableSize)
  {
    var word := e.value.word;
    var tableAt := off + WordPostingsHeaderSize + |word|;
    assert table(tableAt, e.value.postings).ret == TableSize(e.value.postings, PositionListSize);
    AfterTableFits(cap, off, word, table(tableAt, e.value.postings));
  }

  /** Once the nested table is written, the header and the whole word follow. */
  lemma {:induction false} AfterTableFits(cap: nat, off: int, word: seq<bv8>, nested: Run)
    requires |word| < 0x8000 && 0 <= nested.ret
    requires 0 <= off && off + WordPostingsHeaderSize + |word| + nested.ret <= cap
    ensures PostingsAfterTable(cap, off, word, |word|, nested) ==
      Run(nested.writes + [Block(off, Encode(WordPostingsHeader(|word|, nested.ret))),
                           Block(off + WordPostingsHeaderSize, word)],
          WordPostingsHeaderSize + |word| + nested.ret)
  {
    assert word[..|word|] == word;
  }

  /** The header and the word of a word -> postings element lie before its
      nested table, so the element's bytes start at its offset and end where
      the nested table ends. */
  lemma {:induction false} PostingsExtent(off: int, word: seq<bv8>, nested: seq<Block>, tableSize: int)
    requires 0 <= off && 0 <= tableSize
    requires Above(nested, off + WordPostingsHeaderSize + |word|)
    requires HighWater(nested) == off + WordPostingsHeaderSize + |word| + tableSize
    ensures var blocks := nested + [Block(off, Encode(WordPostingsHeader(|word|, tableSize))),
                                    Block(off + WordPostingsHeaderSize, word)];
            Above(blocks, off) && HighWater(blocks) == off + WordPostingsHeaderSize + |word| + tableSize
  {
    var header := Block(off, Encode(WordPostingsHeader(|word|, tableSize)));
    var text := Block(off + WordPostingsHeaderSize, word);
    AboveLower(nested, off + WordPostingsHeaderSize + |word|, off);
    assert [header] + [text] == [header, text];
    AboveConcat([header], [text], off);
    AboveConcat(nested, [header, text], off);
    HighWaterConcat([header], [text]);
    HighWaterConcat(nested, [header, text]);
  }

  lemma {:induction false} PostingsMeasured(cap: nat, e: Entry<Value>, table: TableWriter)
    requires e.value.Postings? && |e.value.word| < 0x8000
    requires TableWriterMeasured(cap, table, PositionListSize, e.value.postings)
    ensures Measured(cap, PostingsWriter(cap, table), PostingsSize, e)
  {
    forall off | 0 <= off && off + PostingsSize(e) <= cap
      ensures PostingsWriter(cap, table)(off, e).ret == PostingsSize(e)
      ensures Above(PostingsWriter(cap, table)(off, e).writes, off)
      ensures HighWater(PostingsWriter(cap, table)(off, e).writes) == off + PostingsSize(e)
    {
      var tableAt := off + WordPostingsHeaderSize + |e.value.word|;
      var tableSize := TableSize(e.value.postings, PositionListSize);
      PostingsFits(cap, off, e, table);
      assert Above(table(tableAt, e.value.postings).writes, tableAt);
      PostingsExtent(off, e.value.word, table(tableAt, e.value.postings).writes, tableSize);
    }
  }

  /** Every element of a doc table meets its writer's contract. */
  lemma {:induction false} DocTableMeasured(cap: nat, bs: seq<Chain<Value>>)
    requires TableShaped(bs, DocidToDocname) && TableShort(bs)
    ensures TableMeasured(cap, WriterOf(cap, DocidToDocname), DocnameSize, bs)
  {
    forall i, j | 0 <= i < |bs| && 0 <= j < |bs[i]|
      ensures Measured(cap, WriterOf(cap, DocidToDocname), DocnameSize, bs[i][j])
    {
      assert Shaped(DocidToDocname, bs[i][j].value) && ShortText(bs[i][j].value);
      DocnameMeasured(cap, bs[i][j]);
    }
  }

  /** Every element of a memory index meets its writer's contract. */
  lemma {:induction false} MemIndexMeasured(cap: nat, bs: seq<Chain<Value>>)
    requires TableShaped(bs, WordToPostings) && TableShort(bs)
    ensures TableMeasured(cap, WriterOf(cap, WordToPostings), PostingsSize, bs)
  {
    forall i, j | 0 <= i < |bs| && 0 <= j < |bs[i]|
      ensures Measured(cap, WriterOf(cap, WordToPostings), PostingsSize, bs[i][j])
    {
      assert Shaped(WordToPostings, bs[i][j].value) && ShortText(bs[i][j].value);
      assert TableShaped(bs[i][j].value.postings, DocIDToPositionList);
      PositionTableMeasured(cap, bs[i][j].value.postings);
      TableWriterFits(cap, PositionListWriter(cap), PositionListSize, bs[i][j].value.postings);
      PostingsMeasured(cap, bs[i][j], TableWriterOf(cap, PositionListWriter(cap)));
      MeasuredAlike(cap, PostingsWriter(cap, TableWriterOf(cap, PositionListWriter(cap))),
                    WriterOf(cap, WordToPostings), PostingsSize, bs[i][j]);
    }
  }

  /** Two element writers that agree on `e` meet the same contract on it. */
  lemma {:induction false} MeasuredAlike(cap: nat, fn: ElementWriter, gn: ElementWriter, size: Sizer, e: Entry<Value>)
    requires Measured(cap, fn, size, e)
    requires forall off: int :: fn(off, e) == gn(off, e)
    ensures Measured(cap, gn, size, e)
  {
    forall off | 0 <= off && off + size(e) <= cap
      ensures gn(off, e).ret == size(e) && Above(gn(off, e).writes, off) && HighWater(gn(off, e).writes) == off + size(e)
    {
      assert fn(off, e) == gn(off, e);
    }
  }

  // ---------------------------------------------------------------------------
  // WriteHeader and WriteIndex

  /** C's `/` on int, which truncates toward zero. */
  function CQuotient(a: int, b: int): int
    requires b > 0
  {
    if a >= 0 then a / b else -((-a) / b)
  }

  /** C's `%` on int, whose result takes the sign of `a`. */
  function CRemainder(a: int, b: int): int
    requires b > 0
  {
    if a >= 0 then a % b else -((-a) % b)
  }

  /** expected_it: how many reads of BUFF_SIZE bytes cover `total` bytes. */
  function ExpectedReads(total: int): int
  {
    CQuotient(total, BuffSize) + (if CRemainder(total, BuffSize) != 0 then 1 else 0)
  }

  /** One fread of up to BUFF_SIZE bytes at file position `pos`: what is
      left of the file there, at most BUFF_SIZE bytes of it. */
  function Chunk(data: seq<bv8>, pos: nat): (r: seq<bv8>)
    ensures |r| <= BuffSize
    ensures |r| == 0 <==> pos >= |data|
    ensures |r| != 0 ==> pos + |r| <= |data|
    ensures 0 < |r| < BuffSize ==> pos + |r| == |data|
  {
    if pos >= |data| then [] else data[pos..if pos + BuffSize < |data| then pos + BuffSize else |data|]
  }

  /** The bytes WriteHeader's read loop folds into the CRC, reading from
      file position `pos` while `left` bytes are still expected; a read of no
      bytes is the end of the file and ends the loop. Every byte read is
      folded, even past `left`. */
  function ScanRead(data: seq<bv8>, pos: nat, left: int): seq<bv8>
    decreases if pos <= |data| then |data| - pos else 0
  {
    if left <= 0 then []
    else
      var chunk := Chunk(data, pos);
      if |chunk| == 0 then []
      else chunk + ScanRead(data, pos + |chunk|, left - |chunk|)
  }

  /** num_it: the number of non-empty reads the same loop makes. */
  function ScanReads(data: seq<bv8>, pos: nat, left: int): int
    decreases if pos <= |data| then |data| - pos else 0
  {
    if left <= 0 then 0
    else
      var chunk := Chunk(data, pos);
      if |chunk| == 0 then 0
      else ScanReads(data, pos + |chunk|, left - |chunk|) + 1
  }

  /** The CRC the same loop ends with, starting from `crc`. */
  function ScanCrc(data: seq<bv8>, pos: nat, left: int, crc: CrcState): CrcState
    decreases if pos <= |data| then |data| - pos else 0
  {
    if left <= 0 then crc
    else
      var chunk := Chunk(data, pos);
      if |chunk| == 0 then crc
      else ScanCrc(data, pos + |chunk|, left - |chunk|, CrcFold(crc, chunk))
  }

  /** WriteHeader's loop stops once no byte is expected or a read returns
      nothing: the CRC is left as it is and no read is counted. */
  lemma {:induction false} ScanStop(data: seq<bv8>, pos: nat, left: int, crc: CrcState)
    requires left <= 0 || |Chunk(data, pos)| == 0
    ensures ScanCrc(data, pos, left, crc) == crc && ScanReads(data, pos, left) == 0
  {
  }

  /** One read of WriteHeader's loop, when it returns bytes: the loop goes
      on from just past them, with them folded into the CRC. */
  lemma {:induction false} ScanStep(data: seq<bv8>, pos: nat, left: int, crc: CrcState,
                                    pos': nat, left': int, crc': CrcState)
    requires left > 0 && |Chunk(data, pos)| > 0
    requires pos' == pos + |Chunk(data, pos)| && left' == left - |Chunk(data, pos)|
    requires crc' == CrcFold(crc, Chunk(data, pos))
    ensures ScanCrc(data, pos, left, crc) == ScanCrc(data, pos', left', crc')
    ensures ScanReads(data, pos, left) == ScanReads(data, pos', left') + 1
  {
  }

  /** The loop's CRC is the CRC of the bytes it reads. */
  lemma {:induction false} ScanCrcRead(data: seq<bv8>, pos: nat, left: int, crc: CrcState)
    ensures ScanCrc(data, pos, left, crc) == CrcFold(crc, ScanRead(data, pos, left))
    decreases if pos <= |data| then |data| - pos else 0
  {
    if left > 0 {
      var chunk := Chunk(data, pos);
      if |chunk| != 0 {
        ScanCrcRead(data, pos + |chunk|, left - |chunk|, CrcFold(crc, chunk));
        CrcFoldConcat(crc, chunk, ScanRead(data, pos + |chunk|, left - |chunk|));
      }
    }
  }

  /** The Verify333 after the read loop: it made as many reads as the two
      table sizes call for. */
  predicate HeaderVerified(data: seq<bv8>, dtBytes: int, miBytes: int)
  {
    ScanReads(data, IndexFileHeaderSize, dtBytes + miBytes) == ExpectedReads(dtBytes + miBytes)
  }

  /** The header WriteHeader fills in: kMagicNumber, the CRC of `tables`,
      and the two table sizes. */
  function HeaderOf(tables: seq<bv8>, dtBytes: int, miBytes: int): Struct
  {
    IndexFileHeader(MagicNumber, FinalCrc(CrcFold(CrcStart, tables)), dtBytes, miBytes)
  }

  /** WriteHeader: reads the tables back past the header, then writes the
      header at offset 0; returns sizeof(IndexFileHeader), or kFailedWrite.
      None when the Verify333 on the number of reads fails, which aborts the
      program. */
  function HeaderRun(cap: nat, data: seq<bv8>, dtBytes: int, miBytes: int): Option<Run>
  {
    if !HeaderVerified(data, dtBytes, miBytes) then None
    else
      var header := Encode(HeaderOf(ScanRead(data, IndexFileHeaderSize, dtBytes + miBytes), dtBytes, miBytes));
      if !Fits(cap, 0, header) then Some(Run([], FailedWrite))
      else Some(Run([Block(0, header)], IndexFileHeaderSize))
  }

  /** WriteHeader once its loop has folded the tables into `crc`: the header
      holds that CRC, and it is written at offset 0 when it fits. */
  lemma {:induction false} HeaderRunIs(cap: nat, data: seq<bv8>, dtBytes: int, miBytes: int, crc: CrcState)
    requires HeaderVerified(data, dtBytes, miBytes)
    requires crc == ScanCrc(data, IndexFileHeaderSize, dtBytes + miBytes, CrcStart)
    ensures var header := Encode(IndexFileHeader(MagicNumber, FinalCrc(crc), dtBytes, miBytes));
            HeaderRun(cap, data, dtBytes, miBytes) ==
              Some(if Fits(cap, 0, header) then Run([Block(0, header)], IndexFileHeaderSize) else Run([], FailedWrite))
  {
    ScanCrcRead(data, IndexFileHeaderSize, dtBytes + miBytes, CrcStart);
  }

  /** When the file ends exactly `left` bytes past `pos`, the read loop
      reads exactly those bytes, in ceil(left / BUFF_SIZE) reads. */
  lemma {:induction false} ScanExact(data: seq<bv8>, pos: nat, left: int)
    requires 0 <= left && pos + left == |data|
    ensures ScanRead(data, pos, left) == data[pos..] && ScanReads(data, pos, left) == ExpectedReads(left)
    decreases left
  {
    if left > 0 {
      var chunk := Chunk(data, pos);
      ScanExact(data, pos + |chunk|, left - |chunk|);
      assert data[pos..] == chunk + data[pos + |chunk|..];
      if left <= BuffSize {
        assert ExpectedReads(left) == 1;
      } else {
        assert ExpectedReads(left) == ExpectedReads(left - BuffSize) + 1;
      }
    } else {
      assert data[pos..] == [];
    }
  }

  /** WriteHeader on a file that ends where the tables end: the Verify333
      holds, and the header written at offset 0 records the CRC of exactly
      the bytes after it. */
  lemma {:induction false} HeaderFits(cap: nat, data: seq<bv8>, dtBytes: int, miBytes: int)
    requires 0 <= dtBytes + miBytes && |data| == IndexFileHeaderSize + dtBytes + miBytes <= cap
    ensures HeaderRun(cap, data, dtBytes, miBytes) ==
              Some(Run([Block(0, Encode(HeaderOf(data[IndexFileHeaderSize..], dtBytes, miBytes)))], IndexFileHeaderSize))
  {
    ScanExact(data, IndexFileHeaderSize, dtBytes + miBytes);
  }

  /** The header, written over the first sizeof(IndexFileHeader) bytes,
      leaves the bytes after it as they were. */
  lemma {:induction false} HeaderWritten(data: seq<bv8>, header: seq<bv8>)
    requires |header| == IndexFileHeaderSize <= |data|
    ensures var written := Apply(data, [Block(0, header)]);
            |written| == |data| && written[..IndexFileHeaderSize] == header &&
            written[IndexFileHeaderSize..] == data[IndexFileHeaderSize..]
  {
    var written := Overwrite(data, 0, header);
    assert Apply(data, [Block(0, header)]) == written;
    OverwriteSpec(data, 0, header);
    assert written[IndexFileHeaderSize..] == data[IndexFileHeaderSize..];
  }

  /** What WriteIndex leaves behind: the writes that reached the file,
      whether the file is kept (not unlinked), and the return value; or the
      writes made when a Verify333 aborted the program. */
  datatype Outcome = Outcome(writes: seq<Block>, kept: bool, ret: int) | Aborted(writes: seq<Block>)
  {
    /** The file's bytes. */
    function Bytes(): seq<bv8>
    {
      Apply([], writes)
    }
  }

  /** The DocTable's writer: WriteHashTable with WriteDocidToDocnameFn. */
  function DocTableWriter(cap: nat): TableWriter
  {
    TableWriterOf(cap, WriterOf(cap, DocidToDocname))
  }

  /** The MemIndex's writer: WriteHashTable with WriteWordToPostingsFn. */
  function MemIndexWriter(cap: nat): TableWriter
  {
    TableWriterOf(cap, WriterOf(cap, WordToPostings))
  }

  /** The last step of WriteIndex: WriteHeader over the written tables. As
      in the source, its result is compared with kMagicNumber (as a
      uint32_t) rather than with kFailedWrite. */
  function HeaderStage(cap: nat, ws: seq<Block>, dtBytes: int, miBytes: int): Outcome
  {
    match HeaderRun(cap, Apply([], ws), dtBytes, miBytes)
    case None => Aborted(ws)
    case Some(h) =>
      if Unsigned32(h.ret) == MagicNumber then Outcome(ws + h.writes, false, FailedWrite)
      else Outcome(ws + h.writes, true, IndexFileHeaderSize + dtBytes + miBytes)
  }

  /** WriteIndex on a fresh file (`created` is whether fopen succeeded),
      given what writing the DocTable after the header (`d`) and the MemIndex
      after the DocTable (`m`) does: a failed table write unlinks the file
      and returns kFailedWrite; otherwise the header is written last. */
  function IndexFrom(created: bool, cap: nat, d: Run, m: Run): Outcome
  {
    if !created then Outcome([], false, FailedWrite)
    else if d.ret == FailedWrite then Outcome(d.writes, false, FailedWrite)
    else if m.ret == FailedWrite then Outcome(d.writes + m.writes, false, FailedWrite)
    else HeaderStage(cap, d.writes + m.writes, d.ret, m.ret)
  }

  /** WriteIndex with the two table writers as parameters: the DocTable at
      sizeof(IndexFileHeader), the MemIndex where the DocTable ends, then
      the header. */
  function IndexWith(created: bool, cap: nat, dtw: TableWriter, miw: TableWriter,
                     dt: seq<Chain<Value>>, mi: seq<Chain<Value>>): Outcome
  {
    var d := dtw(IndexFileHeaderSize, dt);
    IndexFrom(created, cap, d, miw(IndexFileHeaderSize + d.ret, mi))
  }

  /** IndexWith runs the DocTable's writer, then the MemIndex's. */
  lemma {:induction false} IndexWithIs(created: bool, cap: nat, dtw: TableWriter, miw: TableWriter,
                                       dt: seq<Chain<Value>>, mi: seq<Chain<Value>>)
    ensures var d := dtw(IndexFileHeaderSize, dt);
            IndexWith(created, cap, dtw, miw, dt, mi) == IndexFrom(created, cap, d, miw(IndexFileHeaderSize + d.ret, mi))
  {
  }

  /** WriteIndex: both tables written by WriteHashTable. */
  function IndexRun(created: bool, cap: nat, dt: seq<Chain<Value>>, mi: seq<Chain<Value>>): Outcome
  {
    IndexWith(created, cap, DocTableWriter(cap), MemIndexWriter(cap), dt, mi)
  }

  /** Once both tables are written, WriteIndex ends as WriteHeader does. */
  lemma {:induction false} IndexFromTables(cap: nat, d: Run, m: Run)
    requires d.ret != FailedWrite && m.ret != FailedWrite
    ensures IndexFrom(true, cap, d, m) == HeaderStage(cap, d.writes + m.writes, d.ret, m.ret)
  {
  }

  /** WriteHeader, on a file that ends where the tables end and a device
      that holds it, leaves the file kept, with its length returned and the
      header holding both table sizes and the CRC of the bytes after it. */
  lemma {:induction false} HeaderStageFits(cap: nat, ws: seq<Block>, dtBytes: int, miBytes: int)
    requires 0 <= dtBytes + miBytes && |Apply([], ws)| == IndexFileHeaderSize + dtBytes + miBytes <= cap
    requires Unsigned32(IndexFileHeaderSize) != MagicNumber
    ensures var r := HeaderStage(cap, ws, dtBytes, miBytes);
            r.Outcome? && r.kept && r.ret == |Apply([], ws)| && |r.Bytes()| == r.ret &&
            r.Bytes()[..IndexFileHeaderSize] ==
              Encode(IndexFileHeader(MagicNumber, FinalCrc(CrcFold(CrcStart, r.Bytes()[IndexFileHeaderSize..])), dtBytes, miBytes))
  {
    var data := Apply([], ws);
    var header := Encode(HeaderOf(data[IndexFileHeaderSize..], dtBytes, miBytes));
    HeaderFits(cap, data, dtBytes, miBytes);
    HeaderWritten(data, header);
    ApplyConcat([], ws, [Block(0, header)]);
  }

  /** WriteIndex with tables written in full, each ending where the next
      begins, on a device that holds them, when kMagicNumber is not
      sizeof(IndexFileHeader): the Verify333 holds, the file is kept,
      WriteIndex returns header + DocTable + MemIndex bytes, the file has
      exactly that many bytes, and its header records both table sizes and
      the CRC of exactly the bytes that follow it. */
  lemma {:induction false} IndexFromFits(cap: nat, d: Run, m: Run, dtSize: nat, miSize: nat)
    requires d.ret == dtSize && HighWater(d.writes) == IndexFileHeaderSize + dtSize
    requires m.ret == miSize && HighWater(m.writes) == IndexFileHeaderSize + dtSize + miSize
    requires IndexFileHeaderSize + dtSize + miSize <= cap
    requires Unsigned32(IndexFileHeaderSize) != MagicNumber
    ensures var r := IndexFrom(true, cap, d, m);
            r.Outcome? && r.kept && r.ret == IndexFileHeaderSize + dtSize + miSize && |r.Bytes()| == r.ret &&
            r.Bytes()[..IndexFileHeaderSize] ==
              Encode(IndexFileHeader(MagicNumber, FinalCrc(CrcFold(CrcStart, r.Bytes()[IndexFileHeaderSize..])), dtSize, miSize))
  {
    HighWaterConcat(d.writes, m.writes);
    ApplyLength([], d.writes + m.writes);
    IndexFromTables(cap, d, m);
    HeaderStageFits(cap, d.writes + m.writes, d.ret, m.ret);
  }

  /** The table-writer contract at one offset. */
  lemma {:induction false} TableWriterAt(cap: nat, table: TableWriter, size: Sizer, bs: seq<Chain<Value>>, off: int)
    requires TableWriterMeasured(cap, table, size, bs)
    requires 0 <= off && off + TableSize(bs, size) <= cap
    ensures table(off, bs).ret == TableSize(bs, size)
    ensures HighWater(table(off, bs).writes) == off + TableSize(bs, size)
  {
  }

  /** WriteIndex with table writers that wrote the two tables, each to its
      size, on a device they fit on: as IndexFromFits says, with the sizes
      of the two tables. */
  lemma {:induction false} IndexWithFits(cap: nat, dtw: TableWriter, miw: TableWriter,
                                         dt: seq<Chain<Value>>, mi: seq<Chain<Value>>)
    requires var d := dtw(IndexFileHeaderSize, dt);
             d.ret == TableSize(dt, DocnameSize) &&
             HighWater(d.writes) == IndexFileHeaderSize + TableSize(dt, DocnameSize) &&
             miw(IndexFileHeaderSize + d.ret, mi).ret == TableSize(mi, PostingsSize) &&
             HighWater(miw(IndexFileHeaderSize + d.ret, mi).writes) ==
               IndexFileHeaderSize + TableSize(dt, DocnameSize) + TableSize(mi, PostingsSize)
    requires IndexFileHeaderSize + TableSize(dt, DocnameSize) + TableSize(mi, PostingsSize) <= cap
    requires Unsigned32(IndexFileHeaderSize) != MagicNumber
    ensures var dtSize := TableSize(dt, DocnameSize);
            var miSize := TableSize(mi, PostingsSize);
            var r := IndexWith(true, cap, dtw, miw, dt, mi);
            r.Outcome? && r.kept && r.ret == IndexFileHeaderSize + dtSize + miSize && |r.Bytes()| == r.ret &&
            r.Bytes()[..IndexFileHeaderSize] ==
              Encode(IndexFileHeader(MagicNumber, FinalCrc(CrcFold(CrcStart, r.Bytes()[IndexFileHeaderSize..])), dtSize, miSize))
  {
    var d := dtw(IndexFileHeaderSize, dt);
    var m := miw(IndexFileHeaderSize + d.ret, mi);
    IndexWithIs(true, cap, dtw, miw, dt, mi);
    IndexFromFits(cap, d, m, TableSize(dt, DocnameSize), TableSize(mi, PostingsSize));
    var r := IndexFrom(true, cap, d, m);
    assert r.Outcome? && r.kept;
    assert r.ret == IndexFileHeaderSize + TableSize(dt, DocnameSize) + TableSize(mi, PostingsSize) && |r.Bytes()| == r.ret;
    assert r.Bytes()[..IndexFileHeaderSize] ==
              Encode(IndexFileHeader(MagicNumber, FinalCrc(CrcFold(CrcStart, r.Bytes()[IndexFileHeaderSize..])), TableSize(dt, DocnameSize), TableSize(mi, PostingsSize)));
  }

  /** WriteIndex on a well-formed index that fits on the device, when
      kMagicNumber is not sizeof(IndexFileHeader): as IndexFromFits says,
      with the sizes of the two tables. */
  lemma {:induction false} IndexFits(cap: nat, dt: seq<Chain<Value>>, mi: seq<Chain<Value>>)
    requires TableShaped(dt, DocidToDocname) && TableShort(dt)
    requires TableShaped(mi, WordToPostings) && TableShort(mi)
    requires IndexFileHeaderSize + TableSize(dt, DocnameSize) + TableSize(mi, PostingsSize) <= cap
    requires Unsigned32(IndexFileHeaderSize) != MagicNumber
    ensures var dtSize := TableSize(dt, DocnameSize);
            var miSize := TableSize(mi, PostingsSize);
            var r := IndexRun(true, cap, dt, mi);
            r.Outcome? && r.kept && r.ret == IndexFileHeaderSize + dtSize + miSize && |r.Bytes()| == r.ret &&
            r.Bytes()[..IndexFileHeaderSize] ==
              Encode(IndexFileHeader(MagicNumber, FinalCrc(CrcFold(CrcStart, r.Bytes()[IndexFileHeaderSize..])), dtSize, miSize))
  {
    DocTableMeasured(cap, dt);
    TableWriterFits(cap, WriterOf(cap, DocidToDocname), DocnameSize, dt);
    MemIndexMeasured(cap, mi);
    TableWriterFits(cap, WriterOf(cap, WordToPostings), PostingsSize, mi);
    var dtw, miw := DocTableWriter(cap), MemIndexWriter(cap);
    TableWriterAt(cap, dtw, DocnameSize, dt, IndexFileHeaderSize);
    TableWriterAt(cap, miw, PostingsSize, mi, IndexFileHeaderSize + dtw(IndexFileHeaderSize, dt).ret);
    IndexWithFits(cap, dtw, miw, dt, mi);
  }

  /** A failed fopen, or a failed table write, unlinks the file and returns
      kFailedWrite. */
  lemma {:induction false} IndexFailures(created: bool, cap: nat, d: Run, m: Run)
    requires !created || d.ret == FailedWrite || m.ret == FailedWrite
    ensures IndexFrom(created, cap, d, m).Outcome?
    ensures !IndexFrom(created, cap, d, m).kept && IndexFrom(created, cap, d, m).ret == FailedWrite
  {
  }
}
