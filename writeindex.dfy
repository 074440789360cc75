/**
 * hw3/WriteIndex.cc as the source writes it: writers that fseek and fwrite
 * into an open index file at computed offsets, advancing their positions in
 * loops. Each method is proved to do to the file exactly what the matching
 * function of IndexLayout says (the same blocks, in the same order, and the
 * same return value), so that the layout facts proved there hold of the file
 * these methods leave behind.
 */
module WriteIndex {
  import opened Wrappers
  import opened IndexLayout

  /** An open FILE* on a device that accepts `capacity` bytes: the writes
      that reached it, in order, and whether it still has a name (unlink
      removes it). Its bytes are what those writes leave (Contents). */
  class IndexFile {
    const capacity: nat
    var written: seq<Block>
    var linked: bool

    /** fopen(file_name, "wb+"): a new, empty file. */
    constructor (capacity: nat)
      ensures this.capacity == capacity && written == [] && linked
    {
      this.capacity := capacity;
      written := [];
      linked := true;
    }

    /** The file's bytes. */
    function Contents(): seq<bv8>
      reads this`written
    {
      Apply([], written)
    }

    /** fseek(f, at, SEEK_SET) followed by an fwrite of `bytes`; false when
        either fails, in which case nothing is written. */
    method Write(at: int, bytes: seq<bv8>) returns (ok: bool)
      modifies this
      ensures ok == Fits(capacity, at, bytes)
      ensures written == old(written) + Put(capacity, at, bytes) && linked == old(linked)
    {
      ok := Fits(capacity, at, bytes);
      written := written + Put(capacity, at, bytes);
    }

    /** unlink(file_name): the bytes stay with the open FILE*, the name goes. */
    method Unlink()
      modifies this
      ensures written == old(written) && !linked
    {
      linked := false;
    }
  }

  // ---------------------------------------------------------------------------
  // Loops, one round at a time

  /** The blocks `done` already written by a loop, followed by what the loop
      does from where it stands (`rest`). */
  function WalkThen(done: seq<Block>, rest: Walk): Walk
  {
    Walk(done + rest.writes, rest.end)
  }

  /** The blocks `done` written by the first `i` rounds of the position
      loop, followed by what the loop does from there (`rest`). */
  function PositionsThen(done: seq<Block>, i: nat, rest: Run): Run
  {
    Run(done + rest.writes, if rest.ret == FailedWrite then FailedWrite else Span(i, DocIDElementPositionSize) + rest.ret)
  }

  /** One round of the position loop: the position record, then the rest. */
  lemma {:induction false} PositionsStep(cap: nat, at: int, ps: seq<int>, i: int)
    requires 0 <= i < |ps|
    ensures var rec := Encode(DocIDElementPosition(ps[i]));
            var rest := PositionsFrom(cap, at + DocIDElementPositionSize, ps[i + 1..]);
            PositionsFrom(cap, at, ps[i..]) ==
              if !Fits(cap, at, rec) then Run([], FailedWrite)
              else Run([Block(at, rec)] + rest.writes,
                       if rest.ret == FailedWrite then FailedWrite else DocIDElementPositionSize + rest.ret)
  {
    assert ps[i..][0] == ps[i] && ps[i..][1..] == ps[i + 1..];
  }

  /** The position loop either fails or writes one record per position. */
  lemma {:induction false} PositionsRet(cap: nat, at: int, ps: seq<int>)
    ensures var r := PositionsFrom(cap, at, ps);
            r.ret == FailedWrite || r.ret == Span(|ps|, DocIDElementPositionSize)
    decreases |ps|
  {
    if ps != [] {
      PositionsRet(cap, at + DocIDElementPositionSize, ps[1..]);
    }
  }

  /** One round of the position loop whose write succeeds: the record's
      block joins the blocks written, and the loop goes on from the next
      position. */
  lemma {:induction false} PositionsAdvance(cap: nat, curPos: int, ps: seq<int>, i: int, done: seq<Block>)
    requires 0 <= i < |ps|
    requires Fits(cap, curPos, Encode(DocIDElementPosition(ps[i])))
    ensures PositionsThen(done, i, PositionsFrom(cap, curPos, ps[i..])) ==
            PositionsThen(done + [Block(curPos, Encode(DocIDElementPosition(ps[i])))], i + 1,
                          PositionsFrom(cap, curPos + DocIDElementPositionSize, ps[i + 1..]))
  {
    var rec := Encode(DocIDElementPosition(ps[i]));
    PositionsStep(cap, curPos, ps, i);
    var next := PositionsFrom(cap, curPos + DocIDElementPositionSize, ps[i + 1..]);
    PositionsRet(cap, curPos + DocIDElementPositionSize, ps[i + 1..]);
    assert done + ([Block(curPos, rec)] + next.writes) == (done + [Block(curPos, rec)]) + next.writes;
    assert Span(i + 1, DocIDElementPositionSize) == Span(i, DocIDElementPositionSize) + DocIDElementPositionSize;
  }

  /** A round of the position loop whose write fails ends the loop with
      kFailedWrite and nothing more written. */
  lemma {:induction false} PositionsStop(cap: nat, curPos: int, ps: seq<int>, i: int, done: seq<Block>)
    requires 0 <= i < |ps|
    requires !Fits(cap, curPos, Encode(DocIDElementPosition(ps[i])))
    ensures PositionsThen(done, i, PositionsFrom(cap, curPos, ps[i..])) == Run(done, FailedWrite)
  {
    PositionsStep(cap, curPos, ps, i);
    assert done + [] == done;
  }

  /** The position loop once every position is written. */
  lemma {:induction false} PositionsDone(cap: nat, curPos: int, ps: seq<int>, done: seq<Block>)
    ensures PositionsThen(done, |ps|, PositionsFrom(cap, curPos, ps[|ps|..])) ==
            Run(done, Span(|ps|, DocIDElementPositionSize))
  {
    assert ps[|ps|..] == [];
    assert done + [] == done;
  }

  // ---------------------------------------------------------------------------
  // The element writer: named by the caller, described by a function pointer

  /** How deep a writer's elements nest tables: WriteWordToPostingsFn writes
      a table of DocIDToPositionList elements inside each element. */
  function Level(w: Writer): nat
  {
    if w == WordToPostings then 1 else 0
  }

  /** `fn` writes every element as the element writer named `w` does. */
  ghost predicate WritesAs(cap: nat, fn: ElementWriter, w: Writer)
  {
    forall off: int, e: Entry<Value> {:trigger ElementRun(cap, w, off, e)} :: fn(off, e) == ElementRun(cap, w, off, e)
  }

  /** `bw` writes every bucket as WriteHTBucket does with `fn`. */
  ghost predicate BucketsAs(cap: nat, bw: BucketWriter, fn: ElementWriter)
  {
    forall off: int, c: Chain<Value> {:trigger BucketRun(cap, off, c, fn)} :: bw(off, c) == BucketRun(cap, off, c, fn)
  }

  /** `table` writes every table as WriteHashTable does with `fn`. */
  ghost predicate TablesAs(cap: nat, table: TableWriter, fn: ElementWriter)
  {
    forall off: int, bs: seq<Chain<Value>> {:trigger TableRun(cap, off, bs, fn)} :: table(off, bs) == TableRun(cap, off, bs, fn)
  }

  /** `table` writes every table as WriteHashTable does with the bucket
      writer `bw`. */
  ghost predicate TablesWith(cap: nat, table: TableWriter, bw: BucketWriter)
  {
    forall off: int, bs: seq<Chain<Value>> {:trigger TableWith(cap, off, bs, bw)} :: table(off, bs) == TableWith(cap, off, bs, bw)
  }

  /** A table writer that writes as WriteHashTable does with `fn` writes as
      it does with WriteHTBucket over `fn`. */
  lemma TablesAsWith(cap: nat, table: TableWriter, fn: ElementWriter)
    requires TablesAs(cap, table, fn)
    ensures TablesWith(cap, table, BucketWriterOf(cap, fn)) && BucketsAs(cap, BucketWriterOf(cap, fn), fn)
  {
    forall off: int, bs: seq<Chain<Value>>
      ensures table(off, bs) == TableWith(cap, off, bs, BucketWriterOf(cap, fn))
    {
      assert table(off, bs) == TableRun(cap, off, bs, fn);
    }
  }

  /** WriteHashTable as the function pointer's table writer. */
  lemma TableWriterTablesAs(cap: nat, fn: ElementWriter)
    ensures TablesAs(cap, TableWriterOf(cap, fn), fn)
  {
  }

  /** A table that WriteHashTable writes without failing had room for its
      BucketListHeader at `off`. */
  lemma TableRoom(cap: nat, off: int, bs: seq<Chain<Value>>, fn: ElementWriter)
    requires TableRun(cap, off, bs, fn).ret != FailedWrite
    ensures 0 <= off && off + BucketListHeaderSize <= cap
  {
  }

  /** WriteDocIDToPositionListFn, the writer of every nested table. */
  lemma PositionListWritesAs(cap: nat)
    ensures WritesAs(cap, PositionListWriter(cap), DocIDToPositionList)
  {
  }

  /** Blocks written after `done` in one go or one list at a time. */
  lemma BlocksThen(done: seq<Block>, a: seq<Block>, b: seq<Block>, c: seq<Block>)
    ensures done + (a + b + c) == done + a + b + c
  {
  }

  /** One round of WriteHTBucket's loop: the element's position record,
      then the element, then the rest of the chain. */
  lemma {:induction false} ElementsAdvance(cap: nat, recPos: int, elemPos: int, c: Chain<Value>, k: int,
                                           fn: ElementWriter, done: seq<Block>, eleBytes: int)
    requires 0 <= k < |c|
    requires Fits(cap, recPos, Encode(ElementPositionRecord(elemPos)))
    requires eleBytes == fn(elemPos, c[k]).ret
    ensures WalkThen(done, ElementsFrom(cap, recPos, elemPos, c, k, fn)) ==
            WalkThen(done + Put(cap, recPos, Encode(ElementPositionRecord(elemPos))) + fn(elemPos, c[k]).writes,
                     ElementsFrom(cap, recPos + ElementPositionRecordSize, elemPos + eleBytes, c, k + 1, fn))
  {
    var rec := [Block(recPos, Encode(ElementPositionRecord(elemPos)))];
    var e := fn(elemPos, c[k]);
    var rest := ElementsFrom(cap, recPos + ElementPositionRecordSize, elemPos + e.ret, c, k + 1, fn);
    assert ElementsFrom(cap, recPos, elemPos, c, k, fn) == Walk(rec + e.writes + rest.writes, rest.end);
    BlocksThen(done, rec, e.writes, rest.writes);
  }

  /** A round of WriteHTBucket's loop whose position record does not fit
      ends the loop with kFailedWrite. */
  lemma {:induction false} ElementsStop(cap: nat, recPos: int, elemPos: int, c: Chain<Value>, k: int,
                                        fn: ElementWriter, done: seq<Block>)
    requires 0 <= k < |c|
    requires !Fits(cap, recPos, Encode(ElementPositionRecord(elemPos)))
    ensures WalkThen(done, ElementsFrom(cap, recPos, elemPos, c, k, fn)) == Walk(done, None)
  {
    assert done + [] == done;
  }

  /** WriteHTBucket's loop once every element is written. */
  lemma {:induction false} ElementsDone(cap: nat, recPos: int, elemPos: int, c: Chain<Value>,
                                        fn: ElementWriter, done: seq<Block>)
    ensures WalkThen(done, ElementsFrom(cap, recPos, elemPos, c, |c|, fn)) == Walk(done, Some(elemPos))
  {
    assert done + [] == done;
  }

  /** One round of WriteHashTable's loop whose record and bucket are both
      written: the loop goes on from the next bucket. */
  lemma {:induction false} BucketsAdvance(cap: nat, recPos: int, bucketPos: int, bs: seq<Chain<Value>>, i: int,
                                          bw: BucketWriter, done: seq<Block>, recBytes: int, bBytes: int)
    requires 0 <= i < |bs|
    requires Fits(cap, recPos, Encode(BucketRecord(|bs[i]|, bucketPos)))
    requires recBytes == BucketRecordSize
    requires bBytes == bw(bucketPos, bs[i]).ret != FailedWrite
    ensures WalkThen(done, BucketsFrom(cap, recPos, bucketPos, bs, i, bw)) ==
            WalkThen(done + Put(cap, recPos, Encode(BucketRecord(|bs[i]|, bucketPos))) + bw(bucketPos, bs[i]).writes,
                     BucketsFrom(cap, recPos + recBytes, bucketPos + bBytes, bs, i + 1, bw))
  {
    var rec := [Block(recPos, Encode(BucketRecord(|bs[i]|, bucketPos)))];
    var b := bw(bucketPos, bs[i]);
    var rest := BucketsFrom(cap, recPos + BucketRecordSize, bucketPos + b.ret, bs, i + 1, bw);
    assert BucketsFrom(cap, recPos, bucketPos, bs, i, bw) == Walk(rec + b.writes + rest.writes, rest.end);
    BlocksThen(done, rec, b.writes, rest.writes);
  }

  /** A round of WriteHashTable's loop whose bucket fails: the record and
      what the bucket wrote stay, and the loop ends with kFailedWrite. */
  lemma {:induction false} BucketsBucketStop(cap: nat, recPos: int, bucketPos: int, bs: seq<Chain<Value>>, i: int,
                                             bw: BucketWriter, done: seq<Block>)
    requires 0 <= i < |bs|
    requires Fits(cap, recPos, Encode(BucketRecord(|bs[i]|, bucketPos)))
    requires bw(bucketPos, bs[i]).ret == FailedWrite
    ensures WalkThen(done, BucketsFrom(cap, recPos, bucketPos, bs, i, bw)) ==
            Walk(done + Put(cap, recPos, Encode(BucketRecord(|bs[i]|, bucketPos))) + bw(bucketPos, bs[i]).writes, None)
  {
    var rec := [Block(recPos, Encode(BucketRecord(|bs[i]|, bucketPos)))];
    var b := bw(bucketPos, bs[i]);
    assert done + (rec + b.writes) == done + rec + b.writes;
  }

  /** A round of WriteHashTable's loop whose record does not fit ends the
      loop with kFailedWrite. */
  lemma {:induction false} BucketsRecordStop(cap: nat, recPos: int, bucketPos: int, bs: seq<Chain<Value>>, i: int,
                                             bw: BucketWriter, done: seq<Block>)
    requires 0 <= i < |bs|
    requires !Fits(cap, recPos, Encode(BucketRecord(|bs[i]|, bucketPos)))
    ensures WalkThen(done, BucketsFrom(cap, recPos, bucketPos, bs, i, bw)) == Walk(done, None)
  {
    assert done + [] == done;
  }

  /** WriteHashTable's loop once every bucket is written. */
  lemma {:induction false} BucketsDone(cap: nat, recPos: int, bucketPos: int, bs: seq<Chain<Value>>,
                                       bw: BucketWriter, done: seq<Block>)
    ensures WalkThen(done, BucketsFrom(cap, recPos, bucketPos, bs, |bs|, bw)) == Walk(done, Some(bucketPos))
  {
    assert done + [] == done;
  }

  // ---------------------------------------------------------------------------
  // Element writers

  /** WriteDocidToDocnameFn. */
  method WriteDocidToDocname(f: IndexFile, off: int, e: Entry<Value>) returns (ret: int)
    requires e.value.DocName?
    modifies f
    ensures var r := DocnameRun(f.capacity, off, e);
            ret == r.ret && f.written == old(f.written) + r.writes && f.linked == old(f.linked)
  {
    ghost var w0 := f.written;
    var name := e.value.name;
    var n := Int16(|name|);
    var header := Encode(DoctableElementHeader(e.key, n));
    var ok := f.Write(off, header);
    if !ok {
      return FailedWrite;
    }
    if n < 0 {
      return FailedWrite;
    }
    ok := f.Write(off + DoctableElementHeaderSize, name[..n]);
    if !ok {
      return FailedWrite;
    }
    assert (w0 + [Block(off, header)]) + [Block(off + DoctableElementHeaderSize, name[..n])] ==
           w0 + [Block(off, header), Block(off + DoctableElementHeaderSize, name[..n])];
    return n + DoctableElementHeaderSize;
  }

  /** The position loop of WriteDocIDToPositionListFn, from `start`: true
      and the position past the last record, or false at the first failed
      write. */
  method WritePositions(f: IndexFile, start: int, ps: seq<int>) returns (ok: bool, curPos: int)
    modifies f
    ensures var run := PositionsFrom(f.capacity, start, ps);
            f.written == old(f.written) + run.writes && f.linked == old(f.linked) &&
            ok == (run.ret != FailedWrite) && (ok ==> curPos == start + run.ret)
  {
    ghost var cap := f.capacity;
    ghost var w0 := f.written;
    ghost var whole := PositionsFrom(cap, start, ps);
    ghost var done: seq<Block> := [];
    curPos := start;
    var i := 0;
    assert ps[0..] == ps;
    while i < |ps|
      invariant 0 <= i <= |ps| && curPos == start + Span(i, DocIDElementPositionSize)
      invariant whole == PositionsThen(done, i, PositionsFrom(cap, curPos, ps[i..]))
      invariant f.written == w0 + done && f.linked == old(f.linked)
    {
      var rec := Encode(DocIDElementPosition(ps[i]));
      ok := f.Write(curPos, rec);
      if !ok {
        PositionsStop(cap, curPos, ps, i, done);
        return;
      }
      PositionsAdvance(cap, curPos, ps, i, done);
      done := done + [Block(curPos, rec)];
      curPos := curPos + DocIDElementPositionSize;
      i := i + 1;
    }
    PositionsDone(cap, curPos, ps, done);
    ok := true;
  }

  /** WriteDocIDToPositionListFn: the header, then the loop over the
      positions; its closing Verify333 (bytes written equal the header plus
      one DocIDElementPosition per position) is proved to hold. */
  method WriteDocIDToPositionList(f: IndexFile, off: int, e: Entry<Value>) returns (ret: int)
    requires e.value.PositionList?
    modifies f
    ensures var r := PositionListRun(f.capacity, off, e);
            ret == r.ret && f.written == old(f.written) + r.writes && f.linked == old(f.linked)
  {
    ghost var w0 := f.written;
    var ps := e.value.positions;
    var header := Encode(DocIDElementHeader(e.key, |ps|));
    var ok := f.Write(off, header);
    if !ok {
      return FailedWrite;
    }
    var curPos;
    ok, curPos := WritePositions(f, off + DocIDElementHeaderSize, ps);
    ghost var body := PositionsFrom(f.capacity, off + DocIDElementHeaderSize, ps);
    assert (w0 + [Block(off, header)]) + body.writes == w0 + ([Block(off, header)] + body.writes);
    if !ok {
      return FailedWrite;
    }
    PositionsRet(f.capacity, off + DocIDElementHeaderSize, ps);
    SpanIsProduct(|ps|, DocIDElementPositionSize);
    assert curPos - off == DocIDElementHeaderSize + |ps| * DocIDElementPositionSize;
    return curPos - off;
  }

  /** WriteWordToPostingsFn: the nested doc id table past the header and
      the word, then the header with the table's size, then the word. */
  method WriteWordToPostings(f: IndexFile, off: int, e: Entry<Value>, ghost fn: ElementWriter, ghost table: TableWriter)
    returns (ret: int)
    requires Shaped(WordToPostings, e.value)
    requires WritesAs(f.capacity, fn, DocIDToPositionList) && TablesAs(f.capacity, table, fn)
    modifies f
    ensures var r := PostingsRun(f.capacity, off, e, table);
            ret == r.ret && f.written == old(f.written) + r.writes && f.linked == old(f.linked)
    decreases 1, 0
  {
    ghost var w0 := f.written;
    var word := e.value.word;
    var n := Int16(|word|);
    TablesAsWith(f.capacity, table, fn);
    var htBytes := WriteHashTable(f, off + WordPostingsHeaderSize + n, e.value.postings, DocIDToPositionList,
                                  fn, BucketWriterOf(f.capacity, fn), table);
    ghost var nested := table(off + WordPostingsHeaderSize + n, e.value.postings);
    if htBytes == FailedWrite {
      return FailedWrite;
    }
    var header := Encode(WordPostingsHeader(n, htBytes));
    var ok := f.Write(off, header);
    if !ok {
      assert f.written == w0 + nested.writes + [];
      return FailedWrite;
    }
    if n < 0 {
      assert w0 + nested.writes + [Block(off, header)] == w0 + (nested.writes + [Block(off, header)]);
      return FailedWrite;
    }
    ok := f.Write(off + WordPostingsHeaderSize, word[..n]);
    if !ok {
      // Unreachable: the nested table's header already fits past the word.
      TableRoom(f.capacity, off + WordPostingsHeaderSize + n, e.value.postings, fn);
      assert false;
      return FailedWrite;
    }
    assert (w0 + nested.writes) + [Block(off, header)] + [Block(off + WordPostingsHeaderSize, word[..n])] ==
           w0 + (nested.writes + [Block(off, header), Block(off + WordPostingsHeaderSize, word[..n])]);
    return WordPostingsHeaderSize + n + htBytes;
  }

  /** The element writer named `w`, which the function pointer `fn`
      describes, applied to one element. */
  method WriteElement(f: IndexFile, off: int, e: Entry<Value>, w: Writer, ghost fn: ElementWriter) returns (ret: int)
    requires Shaped(w, e.value) && WritesAs(f.capacity, fn, w)
    modifies f
    ensures var r := fn(off, e);
            ret == r.ret && f.written == old(f.written) + r.writes && f.linked == old(f.linked)
    decreases Level(w), 1
  {
    ghost var r := ElementRun(f.capacity, w, off, e);
    match w
    case DocidToDocname =>
      ret := WriteDocidToDocname(f, off, e);
    case DocIDToPositionList =>
      ret := WriteDocIDToPositionList(f, off, e);
    case WordToPostings =>
      PositionListWritesAs(f.capacity);
      TableWriterTablesAs(f.capacity, PositionListWriter(f.capacity));
      ret := WriteWordToPostings(f, off, e, PositionListWriter(f.capacity), TableWriterOf(f.capacity, PositionListWriter(f.capacity)));
  }

  // ---------------------------------------------------------------------------
  // Buckets and tables

  /** WriteHTBucketRecord: the record (chain length and bucket offset) at
      `off`; sizeof(BucketRecord), or kFailedWrite. */
  method WriteHTBucketRecord(f: IndexFile, off: int, numElts: int, bucketOffset: int) returns (ret: int)
    modifies f
    ensures var rec := Encode(BucketRecord(numElts, bucketOffset));
            ret == (if Fits(f.capacity, off, rec) then BucketRecordSize else FailedWrite) &&
            f.written == old(f.written) + Put(f.capacity, off, rec) && f.linked == old(f.linked)
  {
    var rec := Encode(BucketRecord(numElts, bucketOffset));
    var ok := f.Write(off, rec);
    if !ok {
      return FailedWrite;
    }
    return BucketRecordSize;
  }

  /** The loop of WriteHTBucket: position records from `recStart`, elements
      from `elemStart`, each element written by the writer named `w`, which
      `fn` describes. As in the source, each element writer's return value
      is added to the element position unchecked. */
  method WriteElements(f: IndexFile, recStart: int, elemStart: int, c: Chain<Value>, w: Writer, ghost fn: ElementWriter)
    returns (ok: bool, elemPos: int)
    requires WritesAs(f.capacity, fn, w)
    requires forall k :: 0 <= k < |c| ==> Shaped(w, c[k].value)
    modifies f
    ensures var walk := ElementsFrom(f.capacity, recStart, elemStart, c, 0, fn);
            f.written == old(f.written) + walk.writes && f.linked == old(f.linked) &&
            ok == walk.end.Some? && (ok ==> elemPos == walk.end.value)
    decreases Level(w), 2
  {
    ghost var cap := f.capacity;
    ghost var whole := WalkThen(f.written, ElementsFrom(cap, recStart, elemStart, c, 0, fn));
    var recPos := recStart;
    elemPos := elemStart;
    var k := 0;
    while k < |c|
      invariant 0 <= k <= |c|
      invariant whole == WalkThen(f.written, ElementsFrom(cap, recPos, elemPos, c, k, fn))
      invariant f.linked == old(f.linked)
    {
      ghost var before := f.written;
      ok := f.Write(recPos, Encode(ElementPositionRecord(elemPos)));
      if !ok {
        ElementsStop(cap, recPos, elemPos, c, k, fn, before);
        return;
      }
      var eleBytes := WriteElement(f, elemPos, c[k], w, fn);
      ElementsAdvance(cap, recPos, elemPos, c, k, fn, before, eleBytes);
      recPos := recPos + ElementPositionRecordSize;
      elemPos := elemPos + eleBytes;
      k := k + 1;
    }
    ElementsDone(cap, recPos, elemPos, c, fn, f.written);
    ok := true;
  }

  /** WriteHTBucket: nothing for an empty chain; otherwise the position
      records from `off` and the elements after all of them. */
  method WriteHTBucket(f: IndexFile, off: int, c: Chain<Value>, w: Writer, ghost fn: ElementWriter) returns (ret: int)
    requires WritesAs(f.capacity, fn, w)
    requires forall k :: 0 <= k < |c| ==> Shaped(w, c[k].value)
    modifies f
    ensures var r := BucketRun(f.capacity, off, c, fn);
            ret == r.ret && f.written == old(f.written) + r.writes && f.linked == old(f.linked)
    decreases Level(w), 3
  {
    var numElts := |c|;
    if numElts == 0 {
      return 0;
    }
    SpanIsProduct(numElts, ElementPositionRecordSize);
    var elementPos := off + ElementPositionRecordSize * numElts;
    var ok, end := WriteElements(f, off, elementPos, c, w, fn);
    if !ok {
      return FailedWrite;
    }
    return end - off;
  }

  /** One round of WriteHashTable's loop: the record of bucket `i`, then
      the bucket; false when either fails. */
  method WriteBucketRound(f: IndexFile, recordPos: int, bucketPos: int, bs: seq<Chain<Value>>, i: int,
                          w: Writer, ghost fn: ElementWriter, ghost bw: BucketWriter, ghost whole: Walk)
    returns (ok: bool, recBytes: int, bBytes: int)
    requires WritesAs(f.capacity, fn, w) && BucketsAs(f.capacity, bw, fn)
    requires 0 <= i < |bs| && TableShaped(bs, w)
    requires whole == WalkThen(f.written, BucketsFrom(f.capacity, recordPos, bucketPos, bs, i, bw))
    modifies f
    ensures f.linked == old(f.linked)
    ensures !ok ==> whole == Walk(f.written, None)
    ensures ok ==> whole == WalkThen(f.written, BucketsFrom(f.capacity, recordPos + recBytes, bucketPos + bBytes, bs, i + 1, bw))
    decreases Level(w), 4
  {
    ghost var before := f.written;
    recBytes := WriteHTBucketRecord(f, recordPos, |bs[i]|, bucketPos);
    if recBytes == FailedWrite {
      BucketsRecordStop(f.capacity, recordPos, bucketPos, bs, i, bw, before);
      return false, recBytes, 0;
    }
    bBytes := WriteHTBucket(f, bucketPos, bs[i], w, fn);
    if bBytes == FailedWrite {
      BucketsBucketStop(f.capacity, recordPos, bucketPos, bs, i, bw, before);
      return false, recBytes, bBytes;
    }
    assert bw(bucketPos, bs[i]) == BucketRun(f.capacity, bucketPos, bs[i], fn);
    BucketsAdvance(f.capacity, recordPos, bucketPos, bs, i, bw, before, recBytes, bBytes);
    ok := true;
  }

  /** The loop of WriteHashTable: bucket records from `recStart`, buckets
      from `bucketStart`. */
  method WriteBuckets(f: IndexFile, recStart: int, bucketStart: int, bs: seq<Chain<Value>>, w: Writer,
                      ghost fn: ElementWriter, ghost bw: BucketWriter)
    returns (ok: bool, bucketPos: int)
    requires WritesAs(f.capacity, fn, w) && BucketsAs(f.capacity, bw, fn)
    requires TableShaped(bs, w)
    modifies f
    ensures var walk := BucketsFrom(f.capacity, recStart, bucketStart, bs, 0, bw);
            f.written == old(f.written) + walk.writes && f.linked == old(f.linked) &&
            ok == walk.end.Some? && (ok ==> bucketPos == walk.end.value)
    decreases Level(w), 5
  {
    ghost var cap := f.capacity;
    ghost var whole := WalkThen(f.written, BucketsFrom(cap, recStart, bucketStart, bs, 0, bw));
    var recordPos := recStart;
    bucketPos := bucketStart;
    var i := 0;
    while i < |bs|
      invariant 0 <= i <= |bs|
      invariant whole == WalkThen(f.written, BucketsFrom(cap, recordPos, bucketPos, bs, i, bw))
      invariant f.linked == old(f.linked)
    {
      var recBytes, bBytes;
      ok, recBytes, bBytes := WriteBucketRound(f, recordPos, bucketPos, bs, i, w, fn, bw, whole);
      if !ok {
        return;
      }
      bucketPos := bucketPos + bBytes;
      recordPos := recordPos + recBytes;
      i := i + 1;
    }
    BucketsDone(cap, recordPos, bucketPos, bs, bw, f.written);
    ok := true;
  }

  /** WriteHashTable: the BucketListHeader at `off`, the bucket records
      after it and the buckets after all the records; the bytes written, or
      kFailedWrite. */
  method WriteHashTable(f: IndexFile, off: int, bs: seq<Chain<Value>>, w: Writer,
                        ghost fn: ElementWriter, ghost bw: BucketWriter, ghost table: TableWriter) returns (ret: int)
    requires WritesAs(f.capacity, fn, w) && BucketsAs(f.capacity, bw, fn) && TablesWith(f.capacity, table, bw)
    requires TableShaped(bs, w)
    modifies f
    ensures var r := table(off, bs);
            ret == r.ret && f.written == old(f.written) + r.writes && f.linked == old(f.linked)
    decreases Level(w), 6
  {
    ghost var w0 := f.written;
    ghost var r := TableWith(f.capacity, off, bs, bw);
    var header := Encode(BucketListHeader(|bs|));
    var ok := f.Write(off, header);
    if !ok {
      return FailedWrite;
    }
    SpanIsProduct(|bs|, BucketRecordSize);
    var recordPos := off + BucketListHeaderSize;
    var bucketPos := off + BucketListHeaderSize + |bs| * BucketRecordSize;
    ok, bucketPos := WriteBuckets(f, recordPos, bucketPos, bs, w, fn, bw);
    ghost var walk := BucketsFrom(f.capacity, recordPos, off + BucketListHeaderSize + Span(|bs|, BucketRecordSize), bs, 0, bw);
    assert (w0 + [Block(off, header)]) + walk.writes == w0 + ([Block(off, header)] + walk.writes);
    if !ok {
      return FailedWrite;
    }
    return bucketPos - off;
  }

  // ---------------------------------------------------------------------------
  // WriteHeader and WriteIndex

  /** WriteHeader's inner for loop: folds the bytes of one read, in order,
      into the CRC32 accumulator. */
  method FoldBytes(crc: CrcState, bytes: seq<bv8>) returns (r: CrcState)
    ensures r == CrcFold(crc, bytes)
  {
    r := crc;
    var i := 0;
    while i < |bytes|
      invariant 0 <= i <= |bytes|
      invariant r == CrcFoldUpTo(crc, bytes, i)
    {
      r := FoldByteIntoCrc(r, bytes[i]);
      i := i + 1;
    }
  }

  /** WriteHeader's read loop over the file's bytes `data`: from `start`
      (where WriteHeader seeks, just past the header), freads BUFF_SIZE bytes
      at a time until `total` bytes are read or a read returns nothing (the
      end of the file), folding every byte read into a CRC and counting the
      reads (num_it). */
  method ReadTables(data: seq<bv8>, start: nat, total: int) returns (crc: CrcState, numIt: int)
    ensures crc == ScanCrc(data, start, total, CrcStart)
    ensures numIt == ScanReads(data, start, total)
  {
    crc := CrcStart;
    numIt := 0;
    var bytesLeft := total;
    var curPos: nat := start;
    while bytesLeft > 0
      invariant ScanCrc(data, curPos, bytesLeft, crc) == ScanCrc(data, start, total, CrcStart)
      invariant numIt + ScanReads(data, curPos, bytesLeft) == ScanReads(data, start, total)
      decreases if curPos <= |data| then |data| - curPos else 0
    {
      var chunk := Chunk(data, curPos);
      if |chunk| == 0 {
        break;
      }
      var crc' := FoldBytes(crc, chunk);
      ScanStep(data, curPos, bytesLeft, crc, curPos + |chunk|, bytesLeft - |chunk|, crc');
      crc, curPos, bytesLeft := crc', curPos + |chunk|, bytesLeft - |chunk|;
      numIt := numIt + 1;
    }
    ScanStop(data, curPos, bytesLeft, crc);
  }

  /** WriteHeader: reads the tables back and checksums them (ReadTables),
      then writes the header (kMagicNumber, the CRC, the two table sizes) at
      offset 0. Returns sizeof(IndexFileHeader), or kFailedWrite when the
      write fails. The Verify333 on the number of reads is the
      precondition. */
  method WriteHeader(f: IndexFile, dtBytes: int, miBytes: int) returns (ret: int)
    requires HeaderVerified(f.Contents(), dtBytes, miBytes)
    modifies f
    ensures var h := HeaderRun(f.capacity, old(f.Contents()), dtBytes, miBytes).value;
            ret == h.ret && f.written == old(f.written) + h.writes && f.linked == old(f.linked)
  {
    var crc, numIt := ReadTables(f.Contents(), IndexFileHeaderSize, dtBytes + miBytes);
    var expectedIt := CQuotient(dtBytes + miBytes, BuffSize);
    if CRemainder(dtBytes + miBytes, BuffSize) != 0 {
      expectedIt := expectedIt + 1;
    }
    assert numIt == expectedIt;
    var header := Encode(IndexFileHeader(MagicNumber, FinalCrc(crc), dtBytes, miBytes));
    HeaderRunIs(f.capacity, f.Contents(), dtBytes, miBytes, crc);
    var ok := f.Write(0, header);
    if !ok {
      return FailedWrite;
    }
    return IndexFileHeaderSize;
  }

  /** An element writer named by the caller is the function pointer it
      passes. */
  lemma WriterOfWritesAs(cap: nat, w: Writer)
    ensures WritesAs(cap, WriterOf(cap, w), w)
  {
  }

  /** WriteIndex, with the two tables' writers as parameters: the DocTable
      at sizeof(IndexFileHeader), the MemIndex where it ends, then the
      header; a failed table write unlinks the file and returns kFailedWrite,
      and so does a header result equal to kMagicNumber. `created` is
      whether fopen succeeded; f is the FILE* (null when it did not). The
      Verify333 in WriteHeader is the precondition. */
  method WriteIndexWith(created: bool, capacity: nat, dt: seq<Chain<Value>>, mi: seq<Chain<Value>>,
                        ghost dtFn: ElementWriter, ghost miFn: ElementWriter,
                        ghost dtw: TableWriter, ghost miw: TableWriter)
    returns (ret: int, f: IndexFile?)
    requires WritesAs(capacity, dtFn, DocidToDocname) && TablesAs(capacity, dtw, dtFn)
    requires WritesAs(capacity, miFn, WordToPostings) && TablesAs(capacity, miw, miFn)
    requires TableShaped(dt, DocidToDocname) && TableShaped(mi, WordToPostings)
    requires !IndexWith(created, capacity, dtw, miw, dt, mi).Aborted?
    ensures var r := IndexWith(created, capacity, dtw, miw, dt, mi);
            (f == null <==> !created) && ret == r.ret &&
            (f != null ==> f.written == r.writes && f.linked == r.kept)
  {
    if !created {
      return FailedWrite, null;
    }
    f := new IndexFile(capacity);
    ghost var d := dtw(IndexFileHeaderSize, dt);
    IndexWithIs(true, capacity, dtw, miw, dt, mi);

    var curPos := IndexFileHeaderSize;
    TablesAsWith(capacity, dtw, dtFn);
    var dtBytes := WriteHashTable(f, curPos, dt, DocidToDocname, dtFn, BucketWriterOf(capacity, dtFn), dtw);
    assert f.written == d.writes;
    if dtBytes == FailedWrite {
      f.Unlink();
      return FailedWrite, f;
    }
    curPos := curPos + dtBytes;

    ghost var m := miw(curPos, mi);
    TablesAsWith(capacity, miw, miFn);
    var miBytes := WriteHashTable(f, curPos, mi, WordToPostings, miFn, BucketWriterOf(capacity, miFn), miw);
    assert f.written == d.writes + m.writes;
    if miBytes == FailedWrite {
      f.Unlink();
      return FailedWrite, f;
    }
    curPos := curPos + miBytes;

    IndexFromTables(capacity, d, m);
    var headerBytes := WriteHeader(f, dtBytes, miBytes);
    if Unsigned32(headerBytes) == MagicNumber {
      f.Unlink();
      return FailedWrite, f;
    }
    return curPos, f;
  }

  /** WriteIndex(mi, dt, file_name): the DocTable written with
      WriteDocidToDocnameFn, the MemIndex with WriteWordToPostingsFn. */
  method WriteIndex(created: bool, capacity: nat, dt: seq<Chain<Value>>, mi: seq<Chain<Value>>)
    returns (ret: int, f: IndexFile?)
    requires TableShaped(dt, DocidToDocname) && TableShaped(mi, WordToPostings)
    requires !IndexRun(created, capacity, dt, mi).Aborted?
    ensures var r := IndexRun(created, capacity, dt, mi);
            (f == null <==> !created) && ret == r.ret &&
            (f != null ==> f.written == r.writes && f.linked == r.kept)
  {
    ghost var dtFn, miFn := WriterOf(capacity, DocidToDocname), WriterOf(capacity, WordToPostings);
    WriterOfWritesAs(capacity, DocidToDocname);
    WriterOfWritesAs(capacity, WordToPostings);
    TableWriterTablesAs(capacity, dtFn);
    TableWriterTablesAs(capacity, miFn);
    ret, f := WriteIndexWith(created, capacity, dt, mi, dtFn, miFn, TableWriterOf(capacity, dtFn), TableWriterOf(capacity, miFn));
  }
}
