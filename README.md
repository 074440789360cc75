# File-search engine core, in Dafny

This project models the core of a small file-search engine, written in C and C++, and proves properties of the model. The engine is built in four stages:

- **hw1/HashTable.c**: a chained hash table from 64-bit keys to opaque values. It uses FNV-1a hashing and places each key in bucket `key % num_buckets`. Insert pushes onto the front of the key's chain. The table grows nine-fold once it holds three elements per bucket. An external iterator walks the buckets in ascending order.
- **hw3/WriteIndex.cc**: serialises an in-memory index into a binary file. The file holds a header, the DocTable (doc id -> file name) and the MemIndex (word -> postings). Every hash table is written as:
  - a bucket-list header;
  - one record per bucket;
  - for each non-empty bucket, its element-position records and then its elements.

  The header is written last, at offset 0. It holds a CRC of the two tables.
- **hw3/QueryProcessor.cc**: answers a multi-word query over several index files. In each index it intersects the per-word lists of (doc id, count) and adds up the counts. It names the documents that survive, then concatenates the results of all indices and sorts them.
- **hw4/HttpConnection.cc** and **hw4/HttpServer.cc**:
  - request framing: read until "\r\n\r\n", parse what comes before it, and keep the rest;
  - request parsing: the URI and lowercased, trimmed headers;
  - routing on "/static/";
  - the content type of a file name;
  - the query words of the "terms" argument;
  - the HTML list of query results.

## Modules

- `Wrappers`: an `Option` datatype.
- `HashTable`:
  - `class Table` has an array of chains (`seq<Entry>`, index 0 is the head), `numBuckets` and `numElements` fields, and a ghost `Contents` map.
  - `class Iterator` holds a bucket index and a position in that bucket's chain.
  - The invariant is `TableInv`:
    - every key sits in bucket `Bucket(key, n)`;
    - no chain holds a key twice;
    - `numElements` is the sum of the chain lengths;
    - the table's search finds exactly `Contents`.
- `IndexLayout`: what each writer does to the file, as values.
  - A writer produces a list of blocks (offset, bytes) and a return value, for every outcome of every write.
  - It also defines the sizes of buckets, elements and tables as sums.
  - Its lemmas state where each record lands, what it holds, how many bytes each writer returns, and the CRC the header holds.
  - The struct sizes, the byte-order conversion, kMagicNumber and the CRC32 accumulator are constants whose values are left open. Only the facts the layout needs are given: sizes are positive, and an encoding has its struct's size.
- `WriteIndex`:
  - `class IndexFile` models the open `FILE*`. It holds the blocks written so far, a capacity beyond which fwrite fails, and whether the name is still linked.
  - Each writer of the source is a method with its loops. Each is proved to write exactly the blocks that the matching `IndexLayout` function says, and to return the same value.
- `QueryProcessor`:
  - the index readers are maps: word -> list of (doc id, count), and doc id -> name;
  - `MergeDocIDElementLists`, the per-index matching and `ProcessQuery` are methods proved against reference functions.
- `Strings`: boost `split` with `token_compress_on`, `to_lower` and `trim`.
- `HttpConnection`:
  - the socket is the list of results its reads will return;
  - `GetNextRequest` is a method of `class HttpConnection` whose `buffer` field it reslices;
  - `Next` is the function it is proved against;
  - `ParseRequest` is a function.
- `HttpServer`: `ProcessRequest`'s routing, `GetContentType`, the query words, and `FormatQueryResults`, whose output is proved equal to `ResultsPage`.

Two defects of hw3/WriteIndex.cc are kept as written:

- At line 198, WriteHeader's result is compared with kMagicNumber, not with kFailedWrite. A failed header write is therefore reported as success unless kMagicNumber equals -1 as an unsigned 32-bit value. `HeaderStage` models this comparison.
- At lines 415-419, an element's byte count is added to `element_pos` without being checked for -1. `ElementsFrom` and `WriteElements` model this.

Neither defect is claimed to propagate a write failure.

## Model

| member | source | states |
|---|---|---|
| HashTable.FNVHash64 | hw1/HashTable.c:69-87 | the byte loop returns Fnv1a(buffer): the offset basis 0xcbf29ce484222325, then for each byte XOR and multiply by 0x100000001b3 modulo 2^64; the empty buffer gives the basis |
| HashTable.Fnv1aSnoc | hw1/HashTable.c:80-85 | hashing one more byte is one more round applied to the hash of the bytes before it |
| HashTable.HashOfLetterA | hw1/HashTable.c:69-87 | the FNV-1a 64 test vector: "a" hashes to 0xaf63dc4c8601ec8c |
| HashTable.Bucket | hw1/HashTable.c:30-32 | HashKeyToBucketNum is always in [0, num_buckets) |
| HashTable.BucketIsRemainder | hw1/HashTable.c:30-32 | the bucket number is key % num_buckets: key = q * num_buckets + bucket |
| HashTable.FindEntry | hw1/HashTable.c:393-416 | the definition: the first entry of the chain with the key, or none |
| HashTable.FindEntrySpec | hw1/HashTable.c:393-416 | a chain search finds an entry of the chain with the key, and finds nothing exactly when no entry has the key |
| HashTable.WithoutMembers | hw1/HashTable.c:405-410 | unlinking from a chain only drops entries |
| HashTable.FindEntryWithout | hw1/HashTable.c:405-410 | in a chain without duplicate keys, unlinking key k removes exactly k's entry, keeps every other key's entry, and keeps the keys distinct |
| HashTable.FindEntryOfMember | hw1/HashTable.c:393-416 | in a chain without duplicate keys, searching for a member's key finds that member |
| HashTable.GetKeyValue | hw1/HashTable.c:393-416 | the chain walk returns the first entry with the key, and the chain with that entry unlinked when asked to remove it |
| HashTable.TotalLengthUpdate | hw1/HashTable.c:147-188 | replacing one chain changes the total of the chain lengths by the change in that chain's length |
| HashTable.InsertInto | hw1/HashTable.c:147-188 | the definition: the key's chain loses its old entry for the key and gets the new entry at its head; the other chains are unchanged |
| HashTable.RemoveFrom | hw1/HashTable.c:215-243 | the definition: the key's chain loses its entry for the key; the other chains are unchanged |
| HashTable.FlattenOrdered | hw1/HashTable.c:418-440 | chains placed at consecutive buckets are traversed in ascending bucket order with no key twice |
| HashTable.InsertKeepsInv | hw1/HashTable.c:147-188 | below the resize threshold, insertion keeps the table invariant: contents updated at the key, one more element exactly when the key is new |
| HashTable.RemoveKeepsInv | hw1/HashTable.c:215-243 | removal keeps the invariant: the key leaves the contents, one element fewer exactly when it was present, other keys keep their values |
| HashTable.TraversalIsContents | hw1/HashTable.c:249-317 | the bucket-by-bucket traversal lists each stored pair exactly once (as many entries as keys), and bucket numbers never decrease along it |
| HashTable.TraversalRebuildsContents | hw1/HashTable.c:369-378 | re-inserting a valid table's traversal, in order, rebuilds its contents |
| HashTable.MapOfSize | hw1/HashTable.c:369-378 | re-inserting a traversal never yields more keys than entries |
| HashTable.MapOfDistinct | hw1/HashTable.c:369-378 | re-inserting pairs with distinct keys keeps every pair, adds none, and yields as many keys as pairs |
| HashTable.EmptyInv | hw1/HashTable.c:89-109 | n empty chains with zero elements satisfy the invariant for the empty map |
| HashTable.RehashSnoc | hw1/HashTable.c:369-378 | inserting one more traversed pair into the new table updates the map at that pair's key |
| HashTable.Rehash | hw1/HashTable.c:356-391 | the new table has exactly n buckets; otherwise the definition: the pairs inserted in order, with no resize |
| HashTable.RehashInv | hw1/HashTable.c:356-391 | inserting at most 3n pairs into an n-bucket table yields a valid table holding the map those pairs describe |
| HashTable.RemoveBehind | hw1/HashTable.c:332-354 | removing the pair the iterator has just passed leaves what it has yet to visit unchanged |
| HashTable.Table.Allocate | hw1/HashTable.c:89-109 | requires num_buckets > 0; num_buckets empty chains, no elements, empty contents |
| HashTable.Table.NumElements | hw1/HashTable.c:142-145 | the number of keys stored |
| HashTable.Table.Insert | hw1/HashTable.c:147-188 | returns true and the old pair exactly when the key was present; contents updated at the key; num_elements grows by one exactly when the key is new; the pair heads its chain; resizes nine-fold first when num_elements >= 3 * num_buckets; the invariant is kept |
| HashTable.Table.Find | hw1/HashTable.c:191-213 | returns true and the stored pair exactly when the key is present; reads only |
| HashTable.Table.Remove | hw1/HashTable.c:215-243 | returns true and the pair exactly when the key was present; the key leaves the contents, other keys keep their values, num_elements drops by one when found; the invariant is kept |
| HashTable.Table.MaybeResize | hw1/HashTable.c:356-391 | does nothing below 3 elements per bucket; otherwise nine times the buckets, same contents and element count, invariant kept |
| HashTable.Table.CopyAll | hw1/HashTable.c:369-378 | the copy loop inserts every pair the iterator has yet to visit into the new table, in traversal order |
| HashTable.Table.CopyOne | hw1/HashTable.c:371-377 | one round of the copy loop: get the current pair, insert it into the new table, advance |
| HashTable.Table.HoldsValid | hw1/HashTable.c:369-378 | a table built by re-inserting pairs is valid and maps each key to its last value in the sequence |
| HashTable.Iterator.constructor | hw1/HashTable.c:249-279 | the iterator has the whole traversal left to visit; it is invalid at once exactly when the table is empty |
| HashTable.Iterator.IsValid | hw1/HashTable.c:291-296 | valid exactly when something is left to visit |
| HashTable.Iterator.GetNextBucket | hw1/HashTable.c:418-440 | moves to the next non-empty bucket after the current one, or past the table; the remaining traversal is that of the later buckets |
| HashTable.Iterator.Next | hw1/HashTable.c:298-317 | drops the current pair from what is left to visit; returns whether anything is left; never moves back a bucket |
| HashTable.Iterator.Get | hw1/HashTable.c:319-330 | the current pair, or failure on an invalid iterator |
| HashTable.Iterator.Remove | hw1/HashTable.c:332-354 | returns the current pair, advances, then removes exactly that pair from the table (one element fewer, its key gone); the rest of the traversal is unchanged |
| IndexLayout.Encode | hw3/WriteIndex.cc:352-353 | a struct's disk form has the struct's size |
| IndexLayout.CrcFoldConcat | hw3/WriteIndex.cc:244-265 | folding a concatenation folds the first part, then the second |
| IndexLayout.Int16 | hw3/WriteIndex.cc:438 | an int16_t keeps a value in [-2^15, 2^15) and keeps any length below 2^15 unchanged |
| IndexLayout.Unsigned32 | hw3/WriteIndex.cc:198 | the comparison with kMagicNumber sees an int as uint32_t: -1 becomes 0xFFFFFFFF |
| IndexLayout.Put | hw3/WriteIndex.cc:355-363 | an fseek plus fwrite leaves one block exactly when it fits the file |
| IndexLayout.OverwriteSpec | hw3/WriteIndex.cc:355-363 | a write puts its bytes at its offset and leaves every other byte of the file as it was |
| IndexLayout.ApplyLength | hw3/WriteIndex.cc:156-206 | writing never shortens the file, and the file ends where the furthest block ends |
| IndexLayout.SpanIsProduct | hw3/WriteIndex.cc:311-312 | n consecutive records of one size take n * size bytes |
| IndexLayout.ElementsEnd | hw3/WriteIndex.cc:392-425 | WriteHTBucket's loop ends just past the last element |
| IndexLayout.ElementsAbove | hw3/WriteIndex.cc:392-425 | WriteHTBucket's loop writes nothing before the next position record |
| IndexLayout.ElementsHigh | hw3/WriteIndex.cc:392-425 | WriteHTBucket's loop writes up to the last byte of the last element (nothing when no element is left) |
| IndexLayout.BucketFits | hw3/WriteIndex.cc:368-426 | WriteHTBucket returns the bucket's size (0 for an empty chain), writes nothing before its offset, and writes up to the bucket's last byte |
| IndexLayout.BucketSizeZero | hw3/WriteIndex.cc:370-374 | only an empty bucket takes no bytes |
| IndexLayout.BucketsEnd | hw3/WriteIndex.cc:321-340 | WriteHashTable's loop ends just past the last bucket |
| IndexLayout.BucketsAbove | hw3/WriteIndex.cc:321-340 | WriteHashTable's loop writes nothing before the next bucket record |
| IndexLayout.BucketsHigh | hw3/WriteIndex.cc:321-340 | WriteHashTable's loop writes up to the last byte of the last bucket, or of the last record when every bucket left is empty |
| IndexLayout.TableFits | hw3/WriteIndex.cc:291-344 | WriteHashTable returns sizeof(BucketListHeader) + num_buckets * sizeof(BucketRecord) + the sum of the bucket sizes, and writes only from its offset up to that many bytes |
| IndexLayout.TableWithEnd | hw3/WriteIndex.cc:291-344 | with any bucket writer that returns each bucket's size, WriteHashTable returns the table's size |
| IndexLayout.TableWithAbove | hw3/WriteIndex.cc:291-344 | with a bucket writer that stays within its bucket, WriteHashTable writes nothing before its offset |
| IndexLayout.TableWithHigh | hw3/WriteIndex.cc:291-344 | with a bucket writer that writes up to its bucket's last byte, WriteHashTable writes up to the table's last byte |
| IndexLayout.TableHeader | hw3/WriteIndex.cc:295-302 | the table's first block is the BucketListHeader holding the number of buckets, at the table's offset |
| IndexLayout.TableBucketRecord | hw3/WriteIndex.cc:306-340 | bucket record j is written at offset + sizeof(BucketListHeader) + j * sizeof(BucketRecord), and holds bucket j's chain length and the offset where bucket j's contents begin (past all records and the buckets before j) |
| IndexLayout.TableWithBucketRecord | hw3/WriteIndex.cc:306-340 | the same placement and contents of bucket record j, for any bucket writer that returns each bucket's size |
| IndexLayout.BucketRecordIn | hw3/WriteIndex.cc:321-340 | from bucket i on, bucket j's record sits j - i records after the next one and holds bucket j's chain length and the position past the buckets i .. j-1 |
| IndexLayout.BucketElementRecord | hw3/WriteIndex.cc:377-419 | in a bucket of n elements, position record k is at offset + k * sizeof(ElementPositionRecord), and points to offset + n * sizeof(ElementPositionRecord) + the sizes of the elements before k |
| IndexLayout.ElementRecordIn | hw3/WriteIndex.cc:392-419 | from element k on, element j's position record sits j - k records after the next one and points past the elements k .. j-1 |
| IndexLayout.DocnameFits | hw3/WriteIndex.cc:433-469 | a doc id -> name element is its header then the name without a terminator, and returns sizeof(DoctableElementHeader) + strlen(name) |
| IndexLayout.DocnameMeasured | hw3/WriteIndex.cc:433-469 | the doc-name writer writes only within its element, up to its last byte |
| IndexLayout.PositionsFits | hw3/WriteIndex.cc:501-523 | the position loop writes the positions in list order, one record after another |
| IndexLayout.PositionsExtent | hw3/WriteIndex.cc:501-523 | the position loop writes only from its start up to the end of its last record |
| IndexLayout.PositionListFits | hw3/WriteIndex.cc:474-531 | a doc id -> positions element is its header (doc id, count) then the positions in order, and returns sizeof(DocIDElementHeader) + num_positions * sizeof(DocIDElementPosition) |
| IndexLayout.PositionListExtent | hw3/WriteIndex.cc:474-531 | the positions writer writes only within its element, up to its last byte |
| IndexLayout.PositionListMeasured | hw3/WriteIndex.cc:474-531 | the positions writer meets the element-writer contract: it returns its element's size and writes only within it, up to its last byte |
| IndexLayout.PostingsFits | hw3/WriteIndex.cc:536-583 | a word -> postings element writes its nested table at offset + sizeof(WordPostingsHeader) + word length, then the header recording the nested size at offset, then the word, and returns the sum of the three sizes |
| IndexLayout.AfterTableFits | hw3/WriteIndex.cc:555-583 | once the nested table is written, the header (word length, nested size) and the whole word follow it, and the element returns the sum of the three sizes |
| IndexLayout.PostingsMeasured | hw3/WriteIndex.cc:536-583 | the postings writer writes only within its element, up to its last byte |
| IndexLayout.TableWriterFits | hw3/WriteIndex.cc:291-344 | WriteHashTable meets the table-writer contract on any table whose elements meet theirs |
| IndexLayout.MemIndexMeasured | hw3/WriteIndex.cc:219-224 | every element of a MemIndex, with its nested doc tables, meets its writer's contract |
| IndexLayout.DocTableMeasured | hw3/WriteIndex.cc:212-217 | every element of a DocTable meets its writer's contract |
| IndexLayout.ScanCrcRead | hw3/WriteIndex.cc:244-265 | the read loop's CRC is the CRC of exactly the bytes it reads |
| IndexLayout.ScanExact | hw3/WriteIndex.cc:242-269 | when the file ends dt_bytes + mi_bytes past the header, the loop reads exactly those bytes, in ceil(total / 1024) reads, so the Verify333 holds |
| IndexLayout.HeaderRunIs | hw3/WriteIndex.cc:273-288 | WriteHeader writes kMagicNumber, the CRC, and the two sizes at offset 0, and returns sizeof(IndexFileHeader), or kFailedWrite when the write does not fit |
| IndexLayout.HeaderFits | hw3/WriteIndex.cc:237-288 | with the tables in place, the header holds the CRC of the bytes after it and is written at offset 0 |
| IndexLayout.HeaderWritten | hw3/WriteIndex.cc:277-282 | the header overwrites the first sizeof(IndexFileHeader) bytes and leaves the rest |
| IndexLayout.IndexWithIs | hw3/WriteIndex.cc:175-194 | the DocTable is written at sizeof(IndexFileHeader), the MemIndex where the DocTable ends |
| IndexLayout.IndexFromTables | hw3/WriteIndex.cc:194-206 | once both tables are written, WriteIndex ends as WriteHeader and the test at line 198 make it |
| IndexLayout.HeaderStageFits | hw3/WriteIndex.cc:198-206 | when the header fits, the file is kept, its length is the return value, and its first bytes are the header with the CRC of the bytes after it |
| IndexLayout.IndexFits | hw3/WriteIndex.cc:156-206 | on success WriteIndex keeps the file and returns sizeof(IndexFileHeader) + dt_bytes + mi_bytes, where these are the table sizes; the file is that long, and starts with a header holding kMagicNumber, the CRC of the bytes after it, and the two sizes |
| IndexLayout.IndexFromFits | hw3/WriteIndex.cc:175-206 | when both tables were written to their sizes and fit, WriteIndex keeps the file, returns its length, and the header holds the two sizes and the CRC of the bytes after it |
| IndexLayout.IndexWithFits | hw3/WriteIndex.cc:175-206 | the same, for any two table writers that wrote their tables to their sizes |
| IndexLayout.IndexFailures | hw3/WriteIndex.cc:164-193 | a failed fopen or a failed table write unlinks the file and returns kFailedWrite |
| IndexLayout.Chunk | hw3/WriteIndex.cc:246 | an fread of up to 1024 bytes returns what is left of the file there: short only at the end, empty only past it |
| IndexLayout.DocnameRun | hw3/WriteIndex.cc:433-469 | the definition: the header (doc id, int16_t name length), then the name without its terminator; sizeof(DoctableElementHeader) + length, or kFailedWrite at the first write that fails |
| IndexLayout.PositionsFrom | hw3/WriteIndex.cc:501-523 | the definition: one DocIDElementPosition per position, in list order; the bytes written, or kFailedWrite |
| IndexLayout.PositionListRun | hw3/WriteIndex.cc:474-531 | the definition: the header (doc id, number of positions), then the positions; the bytes written, or kFailedWrite |
| IndexLayout.PostingsRun | hw3/WriteIndex.cc:536-557 | the definition: the nested table is written first, at offset + sizeof(WordPostingsHeader) + the int16_t word length |
| IndexLayout.PostingsAfterTable | hw3/WriteIndex.cc:555-583 | the definition: kFailedWrite when the nested table failed; otherwise the header (word length, nested size) at the offset, then the word; the sum of the three sizes, or kFailedWrite |
| IndexLayout.ElementsFrom | hw3/WriteIndex.cc:390-422 | the definition: per element, its position record and then the element, whose return value is added to the element position unchecked; a record that does not fit stops the loop with kFailedWrite |
| IndexLayout.BucketRun | hw3/WriteIndex.cc:368-426 | the definition: an empty chain writes nothing and returns 0; otherwise the element loop, with the first element past all position records; the bytes written, or kFailedWrite |
| IndexLayout.BucketsFrom | hw3/WriteIndex.cc:321-340 | the definition: per bucket, its record (chain length, bucket position) and then the bucket; a record or bucket that fails stops the loop with kFailedWrite |
| IndexLayout.TableWith | hw3/WriteIndex.cc:291-344 | the definition: the BucketListHeader at the offset, then the bucket loop, with the first bucket past all bucket records; the bytes written, or kFailedWrite |
| IndexLayout.ScanRead | hw3/WriteIndex.cc:242-265 | the definition: the bytes the read loop folds into the CRC; a read of no bytes ends it |
| IndexLayout.ScanReads | hw3/WriteIndex.cc:242-265 | the definition: num_it, the number of non-empty reads |
| IndexLayout.ScanCrc | hw3/WriteIndex.cc:242-265 | the definition: the CRC the read loop ends with |
| IndexLayout.CQuotient | hw3/WriteIndex.cc:267 | the definition: C's `/`, truncating toward zero |
| IndexLayout.CRemainder | hw3/WriteIndex.cc:268 | the definition: C's `%`, whose result takes the dividend's sign |
| IndexLayout.ExpectedReads | hw3/WriteIndex.cc:267-268 | the definition: expected_it, the quotient by 1024 plus one when the remainder is not zero |
| IndexLayout.HeaderRun | hw3/WriteIndex.cc:226-289 | the definition: none when the Verify333 on the read count fails; otherwise the header (kMagicNumber, CRC of the bytes read, both sizes) at offset 0, returning sizeof(IndexFileHeader), or kFailedWrite |
| IndexLayout.HeaderStage | hw3/WriteIndex.cc:198-206 | the definition: WriteHeader's result compared with kMagicNumber as a uint32_t; equal unlinks and returns kFailedWrite, otherwise the file is kept and cur_pos returned |
| IndexLayout.IndexFrom | hw3/WriteIndex.cc:164-206 | the definition: a failed fopen returns kFailedWrite; a failed table write unlinks the file and returns kFailedWrite; otherwise the header stage |
| IndexLayout.IndexWith | hw3/WriteIndex.cc:175-194 | the definition: the DocTable at sizeof(IndexFileHeader), the MemIndex where the DocTable ends |
| IndexLayout.IndexRun | hw3/WriteIndex.cc:156-224 | the definition: both tables written by WriteHashTable, with WriteDocidToDocnameFn and WriteWordToPostingsFn |
| WriteIndex.IndexFile.constructor | hw3/WriteIndex.cc:164 | fopen(..., "wb+") gives an empty, linked file |
| WriteIndex.IndexFile.Write | hw3/WriteIndex.cc:355-363 | an fseek plus fwrite succeeds exactly when the bytes fit, and then adds exactly that block |
| WriteIndex.IndexFile.Unlink | hw3/WriteIndex.cc:181 | unlink drops the name and keeps the bytes |
| WriteIndex.PositionsRet | hw3/WriteIndex.cc:505-523 | the position loop either fails or returns one record's size per position |
| WriteIndex.WriteDocidToDocname | hw3/WriteIndex.cc:433-469 | writes exactly DocnameRun's blocks and returns its value |
| WriteIndex.WritePositions | hw3/WriteIndex.cc:501-523 | the position loop writes exactly PositionsFrom's blocks; on success it ends one record per position past its start |
| WriteIndex.WriteDocIDToPositionList | hw3/WriteIndex.cc:474-531 | writes exactly PositionListRun's blocks and returns its value; the Verify333 on the byte count holds |
| WriteIndex.WriteWordToPostings | hw3/WriteIndex.cc:536-583 | writes exactly PostingsRun's blocks (nested table, header, word) and returns its value |
| WriteIndex.WriteElement | hw3/WriteIndex.cc:415 | the call through the function pointer does what the writer it names does |
| WriteIndex.WriteHTBucketRecord | hw3/WriteIndex.cc:346-366 | writes the record (chain length, bucket offset) at the offset and returns sizeof(BucketRecord), or kFailedWrite when it does not fit |
| WriteIndex.WriteElements | hw3/WriteIndex.cc:390-422 | WriteHTBucket's loop writes exactly ElementsFrom's blocks and ends where it ends |
| WriteIndex.WriteHTBucket | hw3/WriteIndex.cc:368-426 | writes exactly BucketRun's blocks and returns its value |
| WriteIndex.WriteBucketRound | hw3/WriteIndex.cc:323-339 | one round of WriteHashTable's loop advances along BucketsFrom, or stops it with kFailedWrite |
| WriteIndex.WriteBuckets | hw3/WriteIndex.cc:321-340 | WriteHashTable's loop writes exactly BucketsFrom's blocks and ends where it ends |
| WriteIndex.WriteHashTable | hw3/WriteIndex.cc:291-344 | writes exactly the table writer's blocks and returns its value |
| WriteIndex.FoldBytes | hw3/WriteIndex.cc:257-259 | the inner loop folds the bytes read, in order, into the CRC |
| WriteIndex.ReadTables | hw3/WriteIndex.cc:237-265 | the read loop ends with the CRC of what it read and the number of non-empty reads |
| WriteIndex.WriteHeader | hw3/WriteIndex.cc:226-289 | the Verify333 on the read count is the precondition; writes exactly HeaderRun's block and returns its value |
| WriteIndex.WriteIndexWith | hw3/WriteIndex.cc:156-207 | with the table writers as parameters: writes exactly IndexWith's blocks, unlinks exactly when it says, and returns its value |
| WriteIndex.WriteIndex | hw3/WriteIndex.cc:156-224 | WriteIndex writes exactly the blocks of IndexRun, keeps the file exactly when it says, and returns its value (IndexFits and IndexFailures state what that is) |
| QueryProcessor.HasIff | hw3/QueryProcessor.cc:138-139 | Has(s, id) holds exactly when some element of s is about document id |
| QueryProcessor.MergeOne | hw3/QueryProcessor.cc:136-148 | the definition: a dst element is erased when src has no element for its document, and otherwise kept with src's counts for that document added |
| QueryProcessor.Merged | hw3/QueryProcessor.cc:133-150 | the definition: MergeOne applied to each dst element, in order |
| QueryProcessor.MergedIsKeptPlusSums | hw3/QueryProcessor.cc:133-150 | the merge keeps exactly the dst elements whose document src has, in their order, and never adds one; each kept count grows by the sum of src's counts for that document |
| QueryProcessor.MergedHas | hw3/QueryProcessor.cc:133-150 | a document is in the merged list exactly when it is in both lists |
| QueryProcessor.MergeDocIDElementLists | hw3/QueryProcessor.cc:133-150 | the in-place filter-and-accumulate loop yields Merged(dst, src) |
| QueryProcessor.FirstFound | hw3/QueryProcessor.cc:94-99 | the leading query words the index lacks are skipped; the result is the first word it has, or the end of the query |
| QueryProcessor.MergeRest | hw3/QueryProcessor.cc:106-115 | the definition: the lists of the later words merged in, in order; a missing word clears the list |
| QueryProcessor.Matches | hw3/QueryProcessor.cc:94-115 | the definition: nothing when no query word is in the index; otherwise the first found word's list with the later words merged in |
| QueryProcessor.MergeStep | hw3/QueryProcessor.cc:106-115 | merging in the next word's list and then matching the rest is matching from that word |
| QueryProcessor.MergeRestIsFiltered | hw3/QueryProcessor.cc:106-115 | when every later word is in the index, the step-by-step merge is the reference match |
| QueryProcessor.MergeRestMissing | hw3/QueryProcessor.cc:106-111 | a later word missing from the index clears the list |
| QueryProcessor.MatchesAre | hw3/QueryProcessor.cc:94-115 | one index yields nothing when it has no query word, or when any word after the first found one is missing (AND); otherwise it yields the reference match of the first found word's list against the later words |
| QueryProcessor.FilteredMembers | hw3/QueryProcessor.cc:106-115 | every document the reference match keeps is listed by every later word, and its rank is the seed's count plus theirs |
| QueryProcessor.MatchIndex | hw3/QueryProcessor.cc:94-115 | the per-index loops yield Matches(words, query) |
| QueryProcessor.Resolve | hw3/QueryProcessor.cc:117-125 | the definition: each surviving element whose document the doc table names becomes (name, count), in order; the others are skipped |
| QueryProcessor.Contributions | hw3/QueryProcessor.cc:93-126 | the definition: the results of each index, concatenated in index order |
| QueryProcessor.ResolveIff | hw3/QueryProcessor.cc:117-125 | a result comes from a surviving element whose document the doc table names, with that name and the accumulated count; every such element gives one |
| QueryProcessor.ContributionsIff | hw3/QueryProcessor.cc:93-126 | a result before sorting is one that some index contributes |
| QueryProcessor.InsertPerm | hw3/QueryProcessor.cc:129 | inserting adds exactly the one element |
| QueryProcessor.InsertSorted | hw3/QueryProcessor.cc:129 | inserting into a sorted list keeps it sorted |
| QueryProcessor.SortBy | hw3/QueryProcessor.cc:129 | the definition: an insertion sort by the operator< given (SortBySorted and SortByPerm state what it promises) |
| QueryProcessor.SortBySorted | hw3/QueryProcessor.cc:129 | the sort's output is sorted by the operator< given |
| QueryProcessor.SortByPerm | hw3/QueryProcessor.cc:129 | the sort's output is a permutation of its input |
| QueryProcessor.QueryProcessor.constructor | hw3/QueryProcessor.cc:41-60 | requires at least one index, with one pair of readers per index |
| QueryProcessor.QueryProcessor.ProcessQuery | hw3/QueryProcessor.cc:85-131 | requires a non-empty query; the result is sorted and is a permutation of the indices' contributions, concatenated in index order without deduplication |
| Strings.NextDelimSpec | hw4/HttpConnection.cc:119 | no delimiter comes before the next delimiter |
| Strings.SkipDelimsSpec | hw4/HttpConnection.cc:119 | only delimiters are skipped |
| Strings.Split | hw4/HttpConnection.cc:119 | boost::split always yields at least one piece |
| Strings.SplitConcat | hw4/HttpConnection.cc:119 | splitting loses only the delimiters: the pieces put together are the input with its delimiters removed |
| Strings.SplitNoDelims | hw4/HttpConnection.cc:121 | no piece holds a delimiter |
| Strings.SplitInnerNonEmpty | hw4/HttpConnection.cc:129 | with token_compress_on only the first and the last piece can be empty |
| Strings.SplitKeeps | hw4/HttpConnection.cc:129 | a property of every character of the input holds of every character of every piece |
| Strings.RemoveConcat | hw4/HttpConnection.cc:119 | removing delimiters from a concatenation removes them from each part |
| Strings.RemoveRun | hw4/HttpConnection.cc:119 | removing the delimiters around a run of them keeps the text before the run |
| Strings.LowerChar | hw4/HttpConnection.cc:128 | tolower leaves no upper-case letter and changes nothing else |
| Strings.Lower | hw4/HttpConnection.cc:128 | to_lower keeps the length and lowers each character |
| Strings.SkipSpacesSpec | hw4/HttpConnection.cc:133 | the scan skips exactly the leading white space |
| Strings.BackSpacesSpec | hw4/HttpConnection.cc:133 | the scan drops exactly the trailing white space |
| Strings.Trim | hw4/HttpConnection.cc:133-134 | the definition: the text between the leading and the trailing white space (TrimSpec states its properties) |
| Strings.TrimSpec | hw4/HttpConnection.cc:133-134 | trim removes only white space, and what it keeps neither starts nor ends with white space |
| HttpConnection.ParseRequestUri | hw4/HttpConnection.cc:118-125 | parsing succeeds exactly when the first line has at least two space-separated words (temp.at(1) throws otherwise); the URI is the second word, with no space or line break in it |
| HttpConnection.ParseRequest | hw4/HttpConnection.cc:97-138 | the definition: split on runs of "\r\n"; the URI is the second space-separated word of the first line, or a parse failure when there is none; every later line is offered to HeaderOf |
| HttpConnection.HeaderOf | hw4/HttpConnection.cc:128-135 | the definition: a line, lowercased and split on runs of ':', gives a header only when it has exactly two pieces, each trimmed |
| HttpConnection.TrimKeeps | hw4/HttpConnection.cc:133-134 | every character trim keeps comes from its input |
| HttpConnection.HeaderOfShape | hw4/HttpConnection.cc:127-136 | a header's name and value hold no ':' and no upper-case letter, and neither starts or ends with white space; a value that held ':' is never kept |
| HttpConnection.CollectIff | hw4/HttpConnection.cc:127-136 | an item is collected exactly when some line gives it |
| HttpConnection.HeadersIff | hw4/HttpConnection.cc:127-136 | a header is kept exactly when some later line splits into exactly two pieces at ':' and gives it |
| HttpConnection.EndsAtHeaderEnd | hw4/HttpConnection.cc:38-39 | EndsAt is an occurrence of "\r\n\r\n" |
| HttpConnection.FindHeaderEnd | hw4/HttpConnection.cc:62 | buffer_.find gives the first position at which "\r\n\r\n" starts, and nothing when none does |
| HttpConnection.Next | hw4/HttpConnection.cc:61-84 | a call never gives back reads it has consumed |
| HttpConnection.Used | hw4/HttpConnection.cc:61-84 | a call consumes at most the reads there are |
| HttpConnection.NextConsumes | hw4/HttpConnection.cc:61-84 | a call consumes exactly the first Used reads |
| HttpConnection.DeliveredStep | hw4/HttpConnection.cc:70 | the bytes of k reads are the first read's bytes followed by those of the next k - 1 |
| HttpConnection.SeenStep | hw4/HttpConnection.cc:64-70 | a successful read with no header end yet appends exactly the bytes read to the buffer |
| HttpConnection.SeenStop | hw4/HttpConnection.cc:66-78 | a read of -1 or of 0 bytes ends the call with nothing more delivered; the call failed on a read exactly when that read was -1 |
| HttpConnection.EndOfStream | hw4/HttpConnection.cc:72-78 | the definition: a read of 0 bytes returns false on an empty buffer, and otherwise parses the whole buffer and leaves it in place |
| HttpConnection.NextFramed | hw4/HttpConnection.cc:61-84 | each call frames its request in all it has seen (the old buffer and the bytes read): at the first "\r\n\r\n" it parses the text before it and keeps the text after it; without one the buffer keeps everything, a false return means the buffer was empty or the last read failed, and otherwise the whole buffer is parsed |
| HttpConnection.NextIs | hw4/HttpConnection.cc:41-87 | GetNextRequest consumes a prefix of the reads, loses none of the bytes they deliver, and frames the request at the first "\r\n\r\n" of the buffer followed by those bytes |
| HttpConnection.EndOfStreamRepeats | hw4/HttpConnection.cc:72-78 | at end of stream the buffer is not cleared, so the next call returns the same request again |
| HttpConnection.HttpConnection.constructor | hw4/HttpConnection.cc:41-87 | a connection starts with an empty buffer and the socket's reads still to come |
| HttpConnection.HttpConnection.WrappedRead | hw4/HttpConnection.cc:64-69 | a read returns -1 on failure, or the bytes delivered and their count, and 0 once the socket has nothing more |
| HttpConnection.HttpConnection.GetNextRequest | hw4/HttpConnection.cc:41-87 | the loop returns what Next says, and leaves the buffer and the remaining reads as Next says |
| HttpServer.Substr | hw4/HttpServer.cc:153 | substr(pos, len) gives at most len characters from pos |
| HttpServer.ProcessRequest | hw4/HttpServer.cc:152-159 | a URI is routed to file handling exactly when its first 8 characters are "/static/"; every other URI, shorter ones included, goes to query handling, with the URI unchanged |
| HttpServer.SuffixStart | hw4/HttpServer.cc:301-306 | the suffix starts just after the last '.', or at 0 when there is none, and holds no '.' |
| HttpServer.SuffixStartIs | hw4/HttpServer.cc:301-306 | that position is the only one that follows a '.' (or is 0) and has no '.' after it |
| HttpServer.ContentTypeOf | hw4/HttpServer.cc:317-335 | the if-chain agrees with the table html/htm -> text/html, jpeg/jpg -> image/jpeg, png -> image/png, txt -> text/plain, js -> text/javascript, css -> text/css, xml -> application/xml, gif -> image/gif, and returns "" exactly for a suffix not in the table (case-sensitive) |
| HttpServer.GetContentType | hw4/HttpServer.cc:300-336 | the backward scan finds the suffix after the last '.' (the whole name when it has none) and maps it |
| HttpServer.QueryWords | hw4/HttpServer.cc:252-253 | the split yields at least one word, so FormatQueryResults' precondition holds |
| HttpServer.QueryWordsShape | hw4/HttpServer.cc:252-253 | the words hold no '+' and no upper-case letter; runs of '+' are compressed, so only the first and last word can be empty; together they are the lowered terms without their '+' |
| HttpServer.NatToStringRoundTrip | hw4/HttpServer.cc:280 | the count written on the page reads back as the count |
| HttpServer.IntToStringRoundTrip | hw4/HttpServer.cc:292-293 | the rank written on the page reads back as the rank, negative ones included |
| HttpServer.NatToString | hw4/HttpServer.cc:280 | at least one character, and only decimal digits (NatToStringRoundTrip states their value) |
| HttpServer.IntToString | hw4/HttpServer.cc:293 | the definition: a '-' before the digits of a negative number |
| HttpServer.SpacedFront | hw4/HttpServer.cc:269-271 | the words each followed by a space, seen from the first word |
| HttpServer.JoinedFront | hw4/HttpServer.cc:269-272 | the words joined by spaces are the first word, a space and the others joined |
| HttpServer.JoinedSplit | hw4/HttpServer.cc:269-272 | joining the words with single spaces and splitting at spaces gives the words back, when no word holds a space and only the first and last are empty |
| HttpServer.SplitCons | hw4/HttpServer.cc:269-272 | a space-free word, a space and a text not starting with a space split into that word and the text's pieces |
| HttpServer.SplitShift | hw4/HttpServer.cc:269-272 | splitting after a prefix depends only on what follows it |
| HttpServer.ShownQueryWords | hw4/HttpServer.cc:252-273 | for terms without spaces, the query as the page shows it, split at spaces, is the query words again |
| HttpServer.LinkOf | hw4/HttpServer.cc:285-291 | the link is the name itself when it starts with "http://", otherwise "static/" + name |
| HttpServer.FindFrom | hw4/HttpServer.cc:287 | find gives the first occurrence at or after the start, and nothing when there is none |
| HttpServer.Find | hw4/HttpServer.cc:287 | find(pat) == 0 exactly when the text starts with pat |
| HttpServer.ListedStep | hw4/HttpServer.cc:284-294 | writing one more result appends exactly its item |
| HttpServer.FormatQueryResults | hw4/HttpServer.cc:264-298 | requires at least one query word; the stringstream loops produce exactly ResultsPage |
| HttpServer.CountLineStart | hw4/HttpServer.cc:280-282 | the count paragraph starts with "<p>", the count, and " results found for" |
| HttpServer.PageStart | hw4/HttpServer.cc:279-283 | a page with results starts with the count paragraph |
| HttpServer.ResultsCount | hw4/HttpServer.cc:279-282 | a page with results states their number, and that number reads back as the number of results |
| HttpServer.NoResultsIff | hw4/HttpServer.cc:276-283 | the page starts with the "No Results" paragraph exactly when there are no results |
| HttpServer.ListedInOrder | hw4/HttpServer.cc:284-294 | each element's text follows the texts of the elements before it |
| HttpServer.ItemsInOrder | hw4/HttpServer.cc:284-294 | one list item per result, in the order of the results: each item follows the items of the results before it |
| HttpServer.Item | hw4/HttpServer.cc:284-293 | the definition: the list item with the link, the document name and the rank |
| HttpServer.NoResultsLine | hw4/HttpServer.cc:276-278 | the definition: the "No Results found for" paragraph with the query in bold |
| HttpServer.CountLine | hw4/HttpServer.cc:280-282 | the definition: the paragraph with the number of results and the query in bold |
| HttpServer.ResultsPage | hw4/HttpServer.cc:264-298 | the definition: the escaped query of the words joined by spaces; the No Results paragraph when there are no results, otherwise the count paragraph and the list of items |

## Left out

- Integer widths: `int`, `int32_t`, `uint32_t` and `IndexFileOffset_t` are unbounded here.
  - This includes `num_positions` and byte counts that would wrap in 32 bits.
  - Only the int16_t name and word lengths (`Int16`) and the uint32_t comparison with kMagicNumber (`Unsigned32`) are modelled.
- IndexLayout.DocnameMeasured: proved for names shorter than 2^15 bytes only. A longer name's int16_t length is truncated, and the source then writes a different number of bytes.
- IndexLayout.PostingsMeasured: proved for words shorter than 2^15 bytes only, for the same reason.
- IndexLayout.DocnameRun: a negative int16_t name length (a name of 2^15 bytes or more that wraps) is modelled as a failed name write after the header. At hw3/WriteIndex.cc:462 the source passes that length to fwrite, where it becomes a huge size_t count; what fwrite then reads past the name and writes is undefined, so the model does not follow it.
- IndexLayout.PostingsAfterTable: the same for a negative int16_t word length at hw3/WriteIndex.cc:576. The nested table is still placed at offset + sizeof(WordPostingsHeader) + that negative length, as at line 552.
- IndexLayout.IndexFits: proved for a well-formed index only: short names and words, and every value of the type its writer casts it to. The source casts the payloads unchecked.
- IndexLayout.IndexFits: also assumes that kMagicNumber is not sizeof(IndexFileHeader) as a uint32_t. When it is, the test at hw3/WriteIndex.cc:198 unlinks a successful index.
- The file system:
  - fseek never fails at a non-negative offset;
  - fwrite fails exactly when the bytes would pass the file's capacity;
  - ferror, feof, fsync and fclose are not modelled;
  - an fread error (the `ferror` branch of WriteHeader) is not modelled: reads return what the file holds.
- The CRC32 class, LayoutStructs (struct sizes, ToDiskFormat byte order) and kMagicNumber are not part of this model. They are constants whose values are left open, so no concrete CRC or byte value is claimed. The accumulator's 32-bit register is an unbounded integer state, and FoldByteIntoCrc and GetFinalCRC are open functions of it.
- The LinkedList library is not part of this model. Chains are sequences, and their iterators are positions.
- Memory ownership is not modelled: malloc and free, value_free_function, HashTable_Free, HTIterator_Free, destructors.
- Verify333 failures are preconditions, not aborts. Where a Verify333 depends on data the writer computes (WriteHeader's read count), `Outcome.Aborted` marks the run that would abort.
- QueryProcessor.QueryProcessor.ProcessQuery: std::sort is an insertion sort. Only what std::sort promises is claimed: the output is sorted by `operator<` and is a permutation of the input. Order among equivalent results is not claimed.
- `QueryResult::operator<` is a parameter, required to be a strict weak order.
- FileIndexReader, DocTableReader and IndexTableReader are not part of this model. An index is two maps: word -> list of (doc id, count), and doc id -> name.
- Sockets: reads are a given list of results (failed, or some bytes). An exhausted list reads 0 bytes. The 1024-byte read size is not modelled, since a read delivers whatever bytes the list holds.
- HttpConnection.ParseRequest: HttpRequest.h is not part of this model.
  - The request holds its URI and its headers as a list of pairs, in line order.
  - The "/" default URI is never observable, because `temp.at(1)` throws first. A request line with fewer than two words is a parse failure (`Malformed`).
- WriteResponse, HttpUtils, URLParser, FileReader and ServerSocket are not modelled: they are I/O or not part of this model.
- EscapeHtml is not part of this model. It is a parameter of FormatQueryResults.
- ProcessFileRequest and ProcessQueryRequest are not modelled beyond:
  - the routing;
  - GetContentType;
  - the term split at hw4/HttpServer.cc:252-253;
  - FormatQueryResults.
- HttpServer::Run, HttpServer_ThrFn and the thread pool are not modelled: they are concurrency.
- The search shells (hw2/searchshell.c, hw3/filesearchshell.cc) are not modelled: they are prompt loops over standard input.
- Strings: characters are Unicode code points. tolower and isspace are their ASCII versions.
