/**
 * The chained hash table of hw1/HashTable.c.
 *
 * A table maps 64-bit keys to opaque values. Its buckets are chains (the
 * source's LinkedLists, here sequences whose index 0 is the head); a key lives
 * in bucket `key % num_buckets`, insertion pushes onto the front of a chain, and
 * the table grows nine-fold once it holds three elements per bucket. An
 * external iterator walks the buckets in ascending order.
 */
module HashTable {
  import opened Wrappers

  // ---------------------------------------------------------------------------
  // FNV-1a, 64 bits

  const FnvOffsetBasis: bv64 := 0xcbf29ce484222325
  const FnvPrime: bv64 := 0x100000001b3

  /** One round: XOR the octet into the low bits of the state, then multiply
      by the prime modulo 2^64 (bit-vector arithmetic wraps). */
  function FnvStep(h: bv64, b: bv8): bv64
  {
    (h ^ (b as bv64)) * FnvPrime
  }

  /** FNV-1a as a left fold of FnvStep over the octets, from the offset basis. */
  function Fnv1a(bytes: seq<bv8>): bv64
  {
    if |bytes| == 0 then FnvOffsetBasis
    else FnvStep(Fnv1a(bytes[..|bytes| - 1]), bytes[|bytes| - 1])
  }

  /** FNVHash64: the byte loop updating `hval`. */
  method FNVHash64(buffer: seq<bv8>) returns (hval: bv64)
    ensures hval == Fnv1a(buffer)
  {
    hval := FnvOffsetBasis;
    var bp := 0;
    while bp < |buffer|
      invariant 0 <= bp <= |buffer|
      invariant hval == Fnv1a(buffer[..bp])
    {
      hval := FnvStep(hval, buffer[bp]);
      bp := bp + 1;
      assert buffer[..bp][..bp - 1] == buffer[..bp - 1];
    }
    assert buffer[..bp] == buffer;
  }

  /** Hashing appends one octet at a time: the hash of `s + [b]` is obtained
      from the hash of `s` alone, which is what makes FNV-1a streamable. */
  lemma {:induction false} Fnv1aSnoc(s: seq<bv8>, b: bv8)
    ensures Fnv1a(s + [b]) == FnvStep(Fnv1a(s), b)
  {
    assert (s + [b])[..|s + [b]| - 1] == s;
  }

  /** The standard FNV-1a 64-bit test vector for the one-byte string "a". */
  lemma HashOfLetterA()
    ensures Fnv1a([0x61]) == 0xaf63dc4c8601ec8c
  {
    assert [0x61 as bv8][..0] == [];
  }

  // ---------------------------------------------------------------------------
  // Keys, entries, chains

  /** HTKey_t: an unsigned 64-bit key. */
  type Key = k: int | 0 <= k < 0x1_0000_0000_0000_0000

  /** HTKeyValue_t. */
  datatype Entry<V> = Entry(key: Key, value: V)

  /** One bucket's chain; index 0 is the head of the linked list. */
  type Chain<V> = seq<Entry<V>>

  /** INVALID_IDX: the iterator's bucket index once it is past the table. */
  const InvalidIdx: int := -1

  /** HashKeyToBucketNum: the key modulo the number of buckets. It is
      written as repeated subtraction because Dafny's `%` with a divisor
      that is not a constant needs nonlinear arithmetic the verifier handles
      poorly; BucketIsRemainder states that the result is the remainder
      (key == q * numBuckets + bucket, with 0 <= bucket < numBuckets). */
  function Bucket(key: Key, numBuckets: int): (b: int)
    requires numBuckets > 0
    ensures 0 <= b < numBuckets
    decreases key
  {
    if key < numBuckets then key else Bucket(key - numBuckets, numBuckets)
  }

  /** The bucket is the remainder of dividing the key by the number of
      buckets: the key minus a whole multiple of it, within [0, numBuckets). */
  lemma {:induction false} BucketIsRemainder(key: Key, numBuckets: int)
    requires numBuckets > 0
    ensures exists q: nat :: key == q * numBuckets + Bucket(key, numBuckets)
    decreases key
  {
    if key < numBuckets {
      assert key == 0 * numBuckets + Bucket(key, numBuckets);
    } else {
      BucketIsRemainder(key - numBuckets, numBuckets);
      var q: nat :| key - numBuckets == q * numBuckets + Bucket(key - numBuckets, numBuckets);
      assert key == (q + 1) * numBuckets + Bucket(key, numBuckets);
    }
  }

  /** The first entry of a chain with the given key, if any. */
  function FindEntry<V>(c: Chain<V>, k: Key): Option<Entry<V>>
  {
    if c == [] then None
    else if c[0].key == k then Some(c[0])
    else FindEntry(c[1..], k)
  }

  /** A search finds an entry of the chain with the key, and finds nothing
      exactly when no entry of the chain has the key. */
  lemma {:induction false} FindEntrySpec<V>(c: Chain<V>, k: Key)
    ensures FindEntry(c, k).Some? ==> FindEntry(c, k).value in c && FindEntry(c, k).value.key == k
    ensures FindEntry(c, k).None? <==> forall e :: e in c ==> e.key != k
  {
    if c != [] && c[0].key != k {
      FindEntrySpec(c[1..], k);
      assert forall e :: e in c ==> e == c[0] || e in c[1..];
    }
  }

  /** The chain with the first entry for `k` unlinked. */
  function Without<V>(c: Chain<V>, k: Key): (r: Chain<V>)
    ensures |r| == if FindEntry(c, k).Some? then |c| - 1 else |c|
  {
    if c == [] then []
    else if c[0].key == k then c[1..]
    else [c[0]] + Without(c[1..], k)
  }

  /** Unlinking only ever drops entries. */
  lemma {:induction false} WithoutMembers<V>(c: Chain<V>, k: Key)
    ensures forall e :: e in Without(c, k) ==> e in c
  {
    if c != [] && c[0].key != k {
      WithoutMembers(c[1..], k);
    }
  }

  ghost predicate DistinctKeys<V>(c: Chain<V>)
  {
    forall i, j :: 0 <= i < j < |c| ==> c[i].key != c[j].key
  }

  lemma {:induction false} DistinctTail<V>(c: Chain<V>)
    requires DistinctKeys(c) && c != []
    ensures DistinctKeys(c[1..])
    ensures forall e :: e in c[1..] ==> e.key != c[0].key
  {
    forall e | e in c[1..] ensures e.key != c[0].key {
      var j :| 0 <= j < |c[1..]| && c[1..][j] == e;
      assert c[j + 1] == e;
    }
  }

  /** In a chain without duplicate keys, unlinking `k` removes exactly the
      entry for `k` and keeps every other key's entry. */
  lemma {:induction false} FindEntryWithout<V>(c: Chain<V>, k: Key, k': Key)
    requires DistinctKeys(c)
    ensures FindEntry(Without(c, k), k') == if k' == k then None else FindEntry(c, k')
    ensures DistinctKeys(Without(c, k))
  {
    if c != [] {
      DistinctTail(c);
      if c[0].key != k {
        FindEntryWithout(c[1..], k, k');
        WithoutMembers(c[1..], k);
        var w := Without(c[1..], k);
        assert Without(c, k) == [c[0]] + w;
        assert ([c[0]] + w)[1..] == w;
        forall i, j | 0 <= i < j < |[c[0]] + w| ensures ([c[0]] + w)[i].key != ([c[0]] + w)[j].key {
          if i == 0 {
            assert ([c[0]] + w)[j] in c[1..];
          }
        }
      } else if k' == k {
        assert forall e :: e in c[1..] ==> e.key != k;
        FindEntrySpec(c[1..], k);
      }
    }
  }

  /** A member of a chain without duplicate keys is what a search for its key finds. */
  lemma {:induction false} FindEntryOfMember<V>(c: Chain<V>, e: Entry<V>)
    requires DistinctKeys(c) && e in c
    ensures FindEntry(c, e.key) == Some(e)
  {
    if c[0] != e {
      DistinctTail(c);
      assert e in c[1..];
      FindEntryOfMember(c[1..], e);
    }
  }

  /** Unlinking the key found at index `i` is cutting index `i` out of the chain. */
  lemma {:induction false} WithoutAt<V>(c: Chain<V>, i: nat)
    requires DistinctKeys(c) && i < |c|
    ensures Without(c, c[i].key) == c[..i] + c[i + 1..]
  {
    if i > 0 {
      assert c[0].key != c[i].key;
      DistinctTail(c);
      assert c[1..][i - 1] == c[i];
      WithoutAt(c[1..], i - 1);
      assert c[1..][..i - 1] + c[1..][i..] == c[1..i] + c[i + 1..];
      assert c[..i] == [c[0]] + c[1..i];
    }
  }

  // ---------------------------------------------------------------------------
  // Bucket arrays as values

  /** Sum of the chain lengths. */
  function TotalLength<V>(bs: seq<Chain<V>>): nat
  {
    if bs == [] then 0 else |bs[0]| + TotalLength(bs[1..])
  }

  /** The entries in traversal order: bucket 0's chain, then bucket 1's, ... */
  function Flatten<V>(bs: seq<Chain<V>>): Chain<V>
  {
    if bs == [] then [] else bs[0] + Flatten(bs[1..])
  }

  /** Replacing one chain changes the total by the difference in lengths. */
  lemma {:induction false} TotalLengthUpdate<V>(bs: seq<Chain<V>>, i: nat, c: Chain<V>)
    requires i < |bs|
    ensures TotalLength(bs[i := c]) == TotalLength(bs) - |bs[i]| + |c|
  {
    if i > 0 {
      assert bs[i := c][1..] == bs[1..][i - 1 := c];
      TotalLengthUpdate(bs[1..], i - 1, c);
    } else {
      assert bs[i := c][1..] == bs[1..];
    }
  }

  lemma {:induction false} FlattenLength<V>(bs: seq<Chain<V>>)
    ensures |Flatten(bs)| == TotalLength(bs)
  {
    if bs != [] {
      FlattenLength(bs[1..]);
    }
  }

  /** A suffix of the bucket array starting at an existing bucket unfolds into
      that bucket's chain followed by the rest. */
  lemma FlattenFrom<V>(bs: seq<Chain<V>>, i: nat)
    requires i < |bs|
    ensures Flatten(bs[i..]) == bs[i] + Flatten(bs[i + 1..])
  {
    assert bs[i..][0] == bs[i];
    assert bs[i..][1..] == bs[i + 1..];
  }

  /** Empty buckets contribute nothing to the traversal. */
  lemma {:induction false} FlattenSkipEmpty<V>(bs: seq<Chain<V>>, i: nat, j: nat)
    requires i <= j <= |bs|
    requires forall t :: i <= t < j ==> bs[t] == []
    ensures Flatten(bs[i..]) == Flatten(bs[j..])
    decreases j - i
  {
    if i < j {
      FlattenFrom(bs, i);
      FlattenSkipEmpty(bs, i + 1, j);
    }
  }

  lemma {:induction false} FlattenMember<V>(bs: seq<Chain<V>>, e: Entry<V>)
    ensures e in Flatten(bs) <==> exists i :: 0 <= i < |bs| && e in bs[i]
  {
    if bs != [] {
      FlattenMember(bs[1..], e);
      if e in Flatten(bs[1..]) {
        var i :| 0 <= i < |bs[1..]| && e in bs[1..][i];
        assert e in bs[i + 1];
      }
      if exists i :: 0 <= i < |bs| && e in bs[i] {
        var i :| 0 <= i < |bs| && e in bs[i];
        if i > 0 {
          assert e in bs[1..][i - 1];
        }
      }
    }
  }

  /** Every entry of chain `c` hashes to bucket `b` of a table of `n` buckets. */
  ghost predicate InBucket<V>(c: Chain<V>, n: int, b: int)
    requires n > 0
  {
    forall e :: e in c ==> Bucket(e.key, n) == b
  }

  /** Chain `i` of a bucket array holds only its own keys, each once. */
  ghost predicate ChainOk<V>(bs: seq<Chain<V>>, i: int)
    requires 0 <= i < |bs|
  {
    InBucket(bs[i], |bs|, i) && DistinctKeys(bs[i])
  }

  /** The traversal of chains placed at consecutive buckets from `base` lists
      buckets in ascending order and no key twice. */
  lemma {:induction false} FlattenOrdered<V>(bs: seq<Chain<V>>, n: int, base: int)
    requires n > 0
    requires forall i :: 0 <= i < |bs| ==> InBucket(bs[i], n, base + i) && DistinctKeys(bs[i])
    ensures forall e :: e in Flatten(bs) ==> base <= Bucket(e.key, n) < base + |bs|
    ensures forall i, j :: 0 <= i < j < |Flatten(bs)| ==> Bucket(Flatten(bs)[i].key, n) <= Bucket(Flatten(bs)[j].key, n)
    ensures DistinctKeys(Flatten(bs))
  {
    if bs != [] {
      var rest: seq<Chain<V>> := bs[1..];
      forall i | 0 <= i < |rest| ensures InBucket(rest[i], n, base + 1 + i) && DistinctKeys(rest[i]) {
        assert rest[i] == bs[i + 1];
      }
      FlattenOrdered(rest, n, base + 1);
      var f := Flatten(bs);
      var fr := Flatten(rest);
      assert f == bs[0] + fr;
      assert InBucket(bs[0], n, base);
      forall i, j | 0 <= i < j < |f| ensures Bucket(f[i].key, n) <= Bucket(f[j].key, n) && f[i].key != f[j].key {
        if j < |bs[0]| {
          assert f[i] == bs[0][i] && f[j] == bs[0][j];
        } else if i < |bs[0]| {
          assert f[i] == bs[0][i];
          assert f[j] == fr[j - |bs[0]|];
          assert f[j] in fr;
        } else {
          assert f[i] == fr[i - |bs[0]|] && f[j] == fr[j - |bs[0]|];
        }
      }
    }
  }

  /** The search HashTable_Find performs: the key's own bucket, from its head. */
  function Lookup<V>(bs: seq<Chain<V>>, k: Key): Option<Entry<V>>
    requires |bs| > 0
  {
    FindEntry(bs[Bucket(k, |bs|)], k)
  }

  ghost function EntryOf<V>(m: map<Key, V>, k: Key): Option<Entry<V>>
  {
    if k in m then Some(Entry(k, m[k])) else None
  }

  /** The table invariant, on values: chains hold only keys of their own
      bucket, no key twice, the element count is the total chain length and the
      number of keys, the load factor is at most 3, and searching a key's
      bucket finds exactly the key's entry of `contents`. */
  ghost predicate TableInv<V>(bs: seq<Chain<V>>, numElements: int, contents: map<Key, V>)
  {
    && |bs| > 0
    && (forall i :: 0 <= i < |bs| ==> ChainOk(bs, i))
    && numElements == TotalLength(bs)
    && numElements == |contents|
    && numElements <= 3 * |bs|
    && forall k: Key :: Lookup(bs, k) == EntryOf(contents, k)
  }

  /** The buckets after HashTable_Insert's update of a table that needs no
      resize: the key's chain loses its old entry and gains the new one at
      its head. */
  function InsertInto<V>(bs: seq<Chain<V>>, e: Entry<V>): seq<Chain<V>>
    requires |bs| > 0
  {
    var b := Bucket(e.key, |bs|);
    bs[b := [e] + Without(bs[b], e.key)]
  }

  /** The buckets after HashTable_Remove: the key's chain loses its entry. */
  function RemoveFrom<V>(bs: seq<Chain<V>>, k: Key): seq<Chain<V>>
    requires |bs| > 0
  {
    var b := Bucket(k, |bs|);
    bs[b := Without(bs[b], k)]
  }

  /** Insertion below the resize threshold keeps the invariant, with the
      contents updated at the key and one more element iff the key is new. */
  lemma InsertKeepsInv<V>(bs: seq<Chain<V>>, numElements: int, contents: map<Key, V>, e: Entry<V>)
    requires TableInv(bs, numElements, contents) && numElements < 3 * |bs|
    ensures TableInv(InsertInto(bs, e), numElements + (if e.key in contents then 0 else 1), contents[e.key := e.value])
  {
    var k := e.key;
    var b := Bucket(k, |bs|);
    var chain := bs[b];
    var rest := Without(chain, k);
    var nb := InsertInto(bs, e);
    var contents' := contents[k := e.value];
    assert ChainOk(bs, b);
    assert FindEntry(chain, k) == EntryOf(contents, k) by {
      assert Lookup(bs, k) == EntryOf(contents, k);
    }
    FindEntryWithout(chain, k, k);
    FindEntrySpec(rest, k);
    WithoutMembers(chain, k);
    forall i | 0 <= i < |nb| ensures ChainOk(nb, i) {
      if i == b {
        assert nb[i] == [e] + rest;
        forall x, y | 0 <= x < y < |[e] + rest| ensures ([e] + rest)[x].key != ([e] + rest)[y].key {
          if x == 0 {
            assert ([e] + rest)[y] in rest;
          }
        }
      } else {
        assert ChainOk(bs, i);
      }
    }
    TotalLengthUpdate(bs, b, [e] + rest);
    forall k': Key ensures Lookup(nb, k') == EntryOf(contents', k') {
      if Bucket(k', |bs|) == b {
        FindEntryWithout(chain, k, k');
        assert Lookup(bs, k') == EntryOf(contents, k');
      } else {
        assert Lookup(bs, k') == EntryOf(contents, k');
      }
    }
  }

  /** Removal keeps the invariant, with the key gone from the contents and one
      element fewer iff the key was present. */
  lemma RemoveKeepsInv<V>(bs: seq<Chain<V>>, numElements: int, contents: map<Key, V>, k: Key)
    requires TableInv(bs, numElements, contents)
    ensures TableInv(RemoveFrom(bs, k), numElements - (if k in contents then 1 else 0), contents - {k})
  {
    var b := Bucket(k, |bs|);
    var chain := bs[b];
    var rest := Without(chain, k);
    var nb := RemoveFrom(bs, k);
    var contents' := contents - {k};
    assert ChainOk(bs, b);
    assert FindEntry(chain, k) == EntryOf(contents, k) by {
      assert Lookup(bs, k) == EntryOf(contents, k);
    }
    FindEntryWithout(chain, k, k);
    WithoutMembers(chain, k);
    forall i | 0 <= i < |nb| ensures ChainOk(nb, i) {
      if i != b {
        assert ChainOk(bs, i);
      }
    }
    TotalLengthUpdate(bs, b, rest);
    assert contents'.Keys == contents.Keys - {k};
    forall k': Key ensures Lookup(nb, k') == EntryOf(contents', k') {
      if Bucket(k', |bs|) == b {
        FindEntryWithout(chain, k, k');
        assert Lookup(bs, k') == EntryOf(contents, k');
      } else {
        assert Lookup(bs, k') == EntryOf(contents, k');
      }
    }
  }

  /** Iterating a valid table yields every stored pair exactly once, bucket
      by bucket: each traversed entry is a stored pair, each stored pair is
      traversed, no key is traversed twice, the traversal has as many entries
      as the table has keys, and bucket numbers never decrease along it. */
  lemma TraversalIsContents<V>(bs: seq<Chain<V>>, numElements: int, contents: map<Key, V>)
    requires TableInv(bs, numElements, contents)
    ensures forall e :: e in Flatten(bs) ==> e.key in contents && contents[e.key] == e.value
    ensures forall k :: k in contents ==> Entry(k, contents[k]) in Flatten(bs)
    ensures DistinctKeys(Flatten(bs))
    ensures |Flatten(bs)| == |contents|
    ensures forall i, j :: 0 <= i < j < |Flatten(bs)| ==> Bucket(Flatten(bs)[i].key, |bs|) <= Bucket(Flatten(bs)[j].key, |bs|)
  {
    var n := |bs|;
    forall i | 0 <= i < n ensures InBucket(bs[i], n, 0 + i) && DistinctKeys(bs[i]) {
      assert ChainOk(bs, i);
    }
    FlattenOrdered(bs, n, 0);
    FlattenLength(bs);
    forall e | e in Flatten(bs) ensures e.key in contents && contents[e.key] == e.value {
      FlattenMember(bs, e);
      var i :| 0 <= i < n && e in bs[i];
      assert ChainOk(bs, i);
      FindEntryOfMember(bs[i], e);
      assert Lookup(bs, e.key) == EntryOf(contents, e.key);
    }
    forall k | k in contents ensures Entry(k, contents[k]) in Flatten(bs) {
      assert Lookup(bs, k) == EntryOf(contents, k);
      FindEntrySpec(bs[Bucket(k, n)], k);
      FlattenMember(bs, Entry(k, contents[k]));
    }
  }

  /** The map built by re-inserting a traversal's entries one after another. */
  ghost function MapOf<V>(s: Chain<V>): map<Key, V>
  {
    if s == [] then map[] else MapOf(s[..|s| - 1])[s[|s| - 1].key := s[|s| - 1].value]
  }

  /** Re-inserting never yields more keys than entries. */
  lemma {:induction false} MapOfSize<V>(s: Chain<V>)
    ensures |MapOf(s)| <= |s|
  {
    if s != [] {
      MapOfSize(s[..|s| - 1]);
    }
  }

  lemma {:induction false} MapOfDistinct<V>(s: Chain<V>)
    requires DistinctKeys(s)
    ensures forall e :: e in s ==> e.key in MapOf(s) && MapOf(s)[e.key] == e.value
    ensures forall k :: k in MapOf(s) ==> Entry(k, MapOf(s)[k]) in s
    ensures |MapOf(s)| == |s|
  {
    if s != [] {
      var init := s[..|s| - 1];
      var last := s[|s| - 1];
      assert DistinctKeys(init);
      MapOfDistinct(init);
      forall i | 0 <= i < |init| ensures init[i].key != last.key {
        assert init[i] == s[i];
      }
      var m := MapOf(init);
      assert last.key !in m;
      assert MapOf(s) == m[last.key := last.value];
      assert s == init + [last];
      forall e | e in s ensures e.key in MapOf(s) && MapOf(s)[e.key] == e.value {
        if e != last {
          assert e in init;
          var i :| 0 <= i < |init| && init[i] == e;
        }
      }
      forall k | k in MapOf(s) ensures Entry(k, MapOf(s)[k]) in s {
        if k != last.key {
          assert Entry(k, m[k]) in init;
        }
      }
    }
  }

  /** Re-inserting a valid table's traversal rebuilds its contents. */
  lemma TraversalRebuildsContents<V>(bs: seq<Chain<V>>, numElements: int, contents: map<Key, V>)
    requires TableInv(bs, numElements, contents)
    ensures MapOf(Flatten(bs)) == contents
  {
    TraversalIsContents(bs, numElements, contents);
    var f := Flatten(bs);
    MapOfDistinct(f);
    forall k ensures k in MapOf(f) <==> k in contents {
      if k in contents {
        assert Entry(k, contents[k]) in f;
      }
    }
  }

  /** The buckets of a freshly allocated table: every chain empty. */
  function EmptyBuckets<V>(n: nat): seq<Chain<V>>
  {
    seq(n, _ => [])
  }

  /** An empty table satisfies the invariant. */
  lemma EmptyInv<V>(n: int)
    requires n > 0
    ensures TableInv(EmptyBuckets<V>(n), 0, map[])
  {
    var bs := EmptyBuckets<V>(n);
    EmptyChainsNoElements(bs);
    forall i | 0 <= i < n ensures ChainOk(bs, i) {
      assert bs[i] == [];
    }
    forall k: Key ensures Lookup(bs, k) == EntryOf(map[], k) {
      assert bs[Bucket(k, n)] == [];
    }
  }

  /** The buckets of an n-bucket table into which the entries were inserted
      in order, none of the insertions resizing it. */
  function Rehash<V>(es: Chain<V>, n: int): (bs: seq<Chain<V>>)
    requires n > 0
    ensures |bs| == n
  {
    if es == [] then EmptyBuckets(n)
    else InsertInto(Rehash(es[..|es| - 1], n), es[|es| - 1])
  }

  /** Rehashing one more entry inserts it into the rehashed table, and the
      map the entries describe gains (or updates) that entry's key. */
  lemma RehashSnoc<V>(es: Chain<V>, e: Entry<V>, n: int)
    requires n > 0
    ensures Rehash(es + [e], n) == InsertInto(Rehash(es, n), e)
    ensures MapOf(es + [e]) == MapOf(es)[e.key := e.value]
  {
    assert (es + [e])[..|es|] == es;
  }

  /** Inserting at most 3n entries one after another into an empty n-bucket
      table never reaches the resize threshold before the last insertion, and
      yields a valid table holding the map the entries describe. */
  lemma {:induction false} RehashInv<V>(es: Chain<V>, n: int)
    requires n > 0 && |es| <= 3 * n
    ensures TableInv(Rehash(es, n), |MapOf(es)|, MapOf(es))
  {
    if es == [] {
      EmptyInv<V>(n);
    } else {
      var init := es[..|es| - 1];
      RehashInv(init, n);
      MapOfSize(init);
      InsertKeepsInv(Rehash(init, n), |MapOf(init)|, MapOf(init), es[|es| - 1]);
    }
  }

  /** Moving the head of the unvisited part to the end of the visited part. */
  lemma MoveHead<T>(visited: seq<T>, rest: seq<T>)
    requires rest != []
    ensures visited + rest == (visited + [rest[0]]) + rest[1..]
  {
    assert rest == [rest[0]] + rest[1..];
  }

  lemma {:induction false} NoElementsNoEntries<V>(bs: seq<Chain<V>>)
    requires TotalLength(bs) == 0
    ensures forall i :: 0 <= i < |bs| ==> bs[i] == []
  {
    if bs != [] {
      NoElementsNoEntries(bs[1..]);
      assert forall i :: 1 <= i < |bs| ==> bs[i] == bs[1..][i - 1];
    }
  }

  lemma {:induction false} EmptyChainsNoElements<V>(bs: seq<Chain<V>>)
    requires forall i :: 0 <= i < |bs| ==> bs[i] == []
    ensures TotalLength(bs) == 0 && Flatten(bs) == []
  {
    if bs != [] {
      EmptyChainsNoElements(bs[1..]);
    }
  }

  /** What an iterator at chain position `p` of bucket `b` has yet to visit:
      the rest of that chain, then every later bucket in order. */
  ghost function RemainingOf<V>(bs: seq<Chain<V>>, b: int, p: nat): Chain<V>
    requires b == InvalidIdx || (0 <= b < |bs| && p <= |bs[b]|)
  {
    if b == InvalidIdx then [] else bs[b][p..] + Flatten(bs[b + 1..])
  }

  /** Removing the entry an iterator has just stepped past, at position `p0`
      of bucket `b0`, leaves what the iterator has yet to visit unchanged,
      once its chain position is pulled back when it stayed in `b0`. */
  lemma RemoveBehind<V>(bs: seq<Chain<V>>, b0: int, p0: nat, b1: int, p1: nat)
    requires 0 <= b0 < |bs| && p0 < |bs[b0]|
    requires b1 == InvalidIdx || (b0 <= b1 < |bs| && p1 <= |bs[b1]|)
    requires b1 == b0 ==> p1 == p0 + 1
    ensures RemainingOf(bs[b0 := bs[b0][..p0] + bs[b0][p0 + 1..]], b1, if b1 == b0 then p1 - 1 else p1)
         == RemainingOf(bs, b1, p1)
  {
    var bs' := bs[b0 := bs[b0][..p0] + bs[b0][p0 + 1..]];
    if b1 != InvalidIdx {
      assert bs'[b1 + 1..] == bs[b1 + 1..];
      if b1 == b0 {
        assert bs'[b0][p0..] == bs[b0][p1..];
      }
    }
  }

  /** A prefix holding no entry with key `k` is passed over by FindEntry and
      kept whole by Without. */
  lemma {:induction false} SkipOtherKeys<V>(c: Chain<V>, k: Key, i: nat)
    requires i <= |c|
    requires forall j :: 0 <= j < i ==> c[j].key != k
    ensures FindEntry(c, k) == FindEntry(c[i..], k)
    ensures Without(c, k) == c[..i] + Without(c[i..], k)
  {
    if i > 0 {
      var tail := c[1..];
      assert c[0].key != k;
      assert forall j :: 0 <= j < i - 1 ==> tail[j].key != k by {
        forall j | 0 <= j < i - 1 ensures tail[j].key != k {
          assert tail[j] == c[j + 1];
        }
      }
      SkipOtherKeys(tail, k, i - 1);
      assert tail[i - 1..] == c[i..];
      var w := Without(c[i..], k);
      assert Without(c, k) == [c[0]] + (tail[..i - 1] + w);
      assert [c[0]] + (tail[..i - 1] + w) == ([c[0]] + tail[..i - 1]) + w;
      assert [c[0]] + tail[..i - 1] == c[..i];
    }
  }

  /** getKeyValue: walk a chain from its head; return the first entry with
      the key and, when asked to, unlink it. The caller keeps the returned
      chain in place of the old one, as the source mutates its list. */
  method GetKeyValue<V>(list: Chain<V>, searchKey: Key, isRemove: bool)
    returns (payload: Option<Entry<V>>, list': Chain<V>)
    ensures payload == FindEntry(list, searchKey)
    ensures list' == if isRemove then Without(list, searchKey) else list
  {
    var i := 0;
    while i < |list|
      invariant 0 <= i <= |list|
      invariant forall j :: 0 <= j < i ==> list[j].key != searchKey
    {
      if list[i].key == searchKey {
        SkipOtherKeys(list, searchKey, i);
        assert list[i..][0] == list[i] && list[i..][1..] == list[i + 1..];
        payload := Some(list[i]);
        list' := if isRemove then list[..i] + list[i + 1..] else list;
        return;
      }
      i := i + 1;
    }
    SkipOtherKeys(list, searchKey, i);
    assert list[..i] == list;
    payload, list' := None, list;
  }


  // ---------------------------------------------------------------------------
  // The table

  class Table<V> {
    var numBuckets: int
    var numElements: int
    var buckets: array<Chain<V>>
    /** The key -> value map the table stands for. */
    ghost var Contents: map<Key, V>

    ghost predicate Valid()
      reads this, buckets
    {
      numBuckets == buckets.Length && TableInv(buckets[..], numElements, Contents)
    }

    /** HashTable_Allocate. */
    constructor Allocate(num_buckets: int)
      requires num_buckets > 0
      ensures Valid() && fresh(buckets)
      ensures numBuckets == num_buckets && numElements == 0 && Contents == map[]
      ensures buckets[..] == EmptyBuckets(num_buckets)
      ensures Holds([])
    {
      var chains := new Chain<V>[num_buckets];
      var i := 0;
      while i < num_buckets
        invariant 0 <= i <= num_buckets
        invariant forall t :: 0 <= t < i ==> chains[t] == []
      {
        chains[i] := [];
        i := i + 1;
      }
      numBuckets := num_buckets;
      numElements := 0;
      buckets := chains;
      Contents := map[];
      new;
      assert buckets[..] == EmptyBuckets(num_buckets);
      EmptyInv<V>(num_buckets);
    }

    /** HashTable_NumElements. */
    method NumElements() returns (n: int)
      requires Valid()
      ensures n == |Contents|
    {
      n := numElements;
    }

    /** HashTable_Insert: resize if needed, unlink any entry for the key and
        push the new pair onto the front of the key's chain. */
    method Insert(newkeyvalue: Entry<V>) returns (replaced: bool, oldkeyvalue: Option<Entry<V>>)
      requires Valid()
      modifies this, buckets
      ensures Valid()
      ensures buckets == old(buckets) || fresh(buckets)
      ensures replaced <==> newkeyvalue.key in old(Contents)
      ensures oldkeyvalue == EntryOf(old(Contents), newkeyvalue.key)
      ensures Contents == old(Contents)[newkeyvalue.key := newkeyvalue.value]
      ensures numElements == old(numElements) + (if replaced then 0 else 1)
      ensures numBuckets == if old(numElements) >= 3 * old(numBuckets) then 9 * old(numBuckets) else old(numBuckets)
      ensures old(numElements) < 3 * old(numBuckets) ==> buckets == old(buckets) && buckets[..] == InsertInto(old(buckets[..]), newkeyvalue)
      ensures |buckets[Bucket(newkeyvalue.key, numBuckets)]| > 0
      ensures buckets[Bucket(newkeyvalue.key, numBuckets)][0] == newkeyvalue
      decreases if numElements >= 3 * numBuckets then 1 else 0, 3
    {
      MaybeResize();
      var key := newkeyvalue.key;
      var bucket := Bucket(key, numBuckets);
      var chain := buckets[bucket];
      ghost var bs := buckets[..];
      assert FindEntry(chain, key) == EntryOf(Contents, key) by {
        assert Lookup(bs, key) == EntryOf(Contents, key);
      }
      InsertKeepsInv(bs, numElements, Contents, newkeyvalue);
      var oldkv, rest := GetKeyValue(chain, key, true);
      replaced := oldkv.Some?;
      if replaced {
        oldkeyvalue := oldkv;
      } else {
        oldkeyvalue := None;
        numElements := numElements + 1;
      }
      buckets[bucket] := [newkeyvalue] + rest;
      Contents := Contents[key := newkeyvalue.value];
      assert buckets[..] == InsertInto(bs, newkeyvalue);
    }

    /** HashTable_Find: a read-only search of the key's chain. */
    method Find(key: Key) returns (found: bool, keyvalue: Option<Entry<V>>)
      requires Valid()
      ensures found <==> key in Contents
      ensures keyvalue == EntryOf(Contents, key)
    {
      var bucket := Bucket(key, numBuckets);
      var chain := buckets[bucket];
      assert Lookup(buckets[..], key) == EntryOf(Contents, key);
      var searchkv, _ := GetKeyValue(chain, key, false);
      found := searchkv.Some?;
      keyvalue := searchkv;
    }

    /** HashTable_Remove: unlink the key's entry from its chain. */
    method Remove(key: Key) returns (found: bool, keyvalue: Option<Entry<V>>)
      requires Valid()
      modifies this, buckets
      ensures Valid()
      ensures buckets == old(buckets) && numBuckets == old(numBuckets)
      ensures found <==> key in old(Contents)
      ensures keyvalue == EntryOf(old(Contents), key)
      ensures Contents == old(Contents) - {key}
      ensures numElements == old(numElements) - (if found then 1 else 0)
      ensures buckets[..] == RemoveFrom(old(buckets[..]), key)
    {
      var bucket := Bucket(key, numBuckets);
      var chain := buckets[bucket];
      ghost var bs := buckets[..];
      assert FindEntry(chain, key) == EntryOf(Contents, key) by {
        assert Lookup(bs, key) == EntryOf(Contents, key);
      }
      RemoveKeepsInv(bs, numElements, Contents, key);
      var searchkv, rest := GetKeyValue(chain, key, true);
      buckets[bucket] := rest;
      found := searchkv.Some?;
      keyvalue := searchkv;
      if found {
        numElements := numElements - 1;
      }
      Contents := Contents - {key};
      assert buckets[..] == RemoveFrom(bs, key);
    }

    /** MaybeResize: once the table holds 3 elements per bucket, copy every
        pair (through an iterator) into a fresh table with 9 times as many
        buckets, then take over that table's state. */
    method MaybeResize()
      requires Valid()
      modifies this
      ensures Valid()
      ensures Contents == old(Contents) && numElements == old(numElements)
      ensures numElements < 3 * numBuckets
      ensures old(numElements) < 3 * old(numBuckets) ==> numBuckets == old(numBuckets) && buckets == old(buckets)
      ensures old(numElements) >= 3 * old(numBuckets) ==> numBuckets == 9 * old(numBuckets) && fresh(buckets)
      decreases if numElements >= 3 * numBuckets then 1 else 0, 2
    {
      if numElements < 3 * numBuckets {
        return;
      }
      var it := new Iterator(this);
      ghost var flat := Flatten(buckets[..]);
      FlattenLength(buckets[..]);
      TraversalRebuildsContents(buckets[..], numElements, Contents);
      var newht := new Table<V>.Allocate(numBuckets * 9);
      CopyAll(it, newht, flat);
      newht.HoldsValid(flat);
      // Swap the new table's state into this one.
      numBuckets, numElements, buckets := newht.numBuckets, newht.numElements, newht.buckets;
      Contents := newht.Contents;
    }

    /** MaybeResize's copy loop: insert into `newht` every pair the iterator
        has yet to visit, in the iterator's order. */
    method CopyAll(it: Iterator<V>, newht: Table<V>, ghost flat: Chain<V>)
      requires it.ht == this && it.At(flat, 0)
      requires newht != this && newht.buckets != buckets
      requires |flat| <= 3 * newht.numBuckets && newht.Holds([])
      modifies it, newht, newht.buckets
      ensures newht.numBuckets == old(newht.numBuckets) && newht.buckets == old(newht.buckets)
      ensures newht.Holds(flat)
      decreases 1, 1
    {
      ghost var done := 0;
      assert flat[..0] == [];
      var valid := it.IsValid();
      while valid
        invariant 0 <= done <= |flat| && (valid <==> done < |flat|)
        invariant it.At(flat, done)
        invariant newht.numBuckets == old(newht.numBuckets) && newht.buckets == old(newht.buckets)
        invariant newht.Holds(flat[..done])
        decreases |flat| - done
      {
        valid := CopyOne(it, newht, flat, done);
        done := done + 1;
      }
      assert flat[..done] == flat;
    }

    /** The table is what inserting the entries in order into a fresh table
        of the same size, without resizing, makes of it. */
    ghost predicate Holds(es: Chain<V>)
      reads this, buckets
    {
      && 0 < numBuckets == buckets.Length
      && |es| <= 3 * numBuckets
      && buckets[..] == Rehash(es, numBuckets)
      && Contents == MapOf(es)
      && numElements == |Contents|
    }

    /** A table that Holds a sequence of entries is valid and maps each key
        to its last value in the sequence. */
    lemma HoldsValid(es: Chain<V>)
      requires Holds(es)
      ensures Valid() && Contents == MapOf(es)
    {
      RehashInv(es, numBuckets);
    }

    /** One round of MaybeResize's copy loop: get the iterator's current
        pair, insert it into the new table, advance the iterator. */
    method CopyOne(it: Iterator<V>, newht: Table<V>, ghost flat: Chain<V>, ghost done: nat) returns (valid: bool)
      requires it.ht == this && done < |flat| && it.At(flat, done)
      requires newht != this && newht.buckets != buckets
      requires |flat| <= 3 * newht.numBuckets && newht.Holds(flat[..done])
      modifies it, newht, newht.buckets
      ensures it.At(flat, done + 1)
      ensures valid <==> done + 1 < |flat|
      ensures newht.numBuckets == old(newht.numBuckets) && newht.buckets == old(newht.buckets)
      ensures newht.Holds(flat[..done + 1])
      decreases 0, 4
    {
      var _, item := it.Get();
      ghost var es := flat[..done];
      assert flat[..done + 1] == es + [flat[done]];
      RehashInv(es, newht.numBuckets);
      MapOfSize(es);
      RehashSnoc(es, flat[done], newht.numBuckets);
      var _, _ := newht.Insert(item.value);
      assert flat[done + 1..] == flat[done..][1..];
      valid := it.Next();
    }
  }

  // ---------------------------------------------------------------------------
  // The iterator

  class Iterator<V> {
    const ht: Table<V>
    /** Current bucket, or InvalidIdx once past the last bucket. */
    var bucketIdx: int
    /** Position of the chain iterator (bucket_it) within the current chain. */
    var pos: nat

    /** The iterator's position is well formed; it says nothing about the
        table's own invariant, which the operations that need it ask for. */
    ghost predicate Valid()
      reads this, ht, ht.buckets
    {
      0 < ht.numBuckets == ht.buckets.Length &&
      (bucketIdx == InvalidIdx || (0 <= bucketIdx < ht.buckets.Length && pos < |ht.buckets[bucketIdx]|))
    }

    /** The iterator has visited exactly the first `done` entries of `flat`. */
    ghost predicate At(flat: Chain<V>, done: int)
      reads this, ht, ht.buckets
    {
      Valid() && 0 <= done <= |flat| && Remaining() == flat[done..]
    }

    /** The entries the iterator has yet to visit, the current one first. */
    ghost function Remaining(): Chain<V>
      reads this, ht, ht.buckets
      requires Valid()
    {
      RemainingOf(ht.buckets[..], bucketIdx, pos)
    }

    /** HTIterator_Allocate: invalid at once on an empty table, otherwise at
        the head of the first non-empty bucket. */
    constructor (table: Table<V>)
      requires table.Valid()
      ensures Valid() && ht == table
      ensures Remaining() == Flatten(table.buckets[..])
      ensures table.numElements == 0 <==> bucketIdx == InvalidIdx
    {
      var idx := InvalidIdx;
      if table.numElements != 0 {
        // The first non-empty bucket.
        var i := 0;
        while i < table.numBuckets && |table.buckets[i]| == 0
          invariant 0 <= i <= table.numBuckets
          invariant forall t :: 0 <= t < i ==> table.buckets[t] == []
        {
          i := i + 1;
        }
        if i == table.numBuckets {
          EmptyChainsNoElements(table.buckets[..]);
          assert false;
        }
        FlattenSkipEmpty(table.buckets[..], 0, i);
        FlattenFrom(table.buckets[..], i);
        idx := i;
      } else {
        NoElementsNoEntries(table.buckets[..]);
        EmptyChainsNoElements(table.buckets[..]);
      }
      ht := table;
      bucketIdx := idx;
      pos := 0;
      new;
      assert table.buckets[..][0..] == table.buckets[..];
      if idx != InvalidIdx {
        assert table.buckets[..][idx + 1..] == table.buckets[idx + 1..];
      }
    }

    /** HTIterator_IsValid. */
    method IsValid() returns (valid: bool)
      requires Valid()
      ensures valid <==> Remaining() != []
    {
      valid := bucketIdx != InvalidIdx;
    }

    /** getNextBucket: called once the chain iterator ran off its chain; moves
        to the head of the next non-empty bucket, or past the table. */
    method GetNextBucket() returns (found: bool)
      requires 0 < ht.numBuckets == ht.buckets.Length
      requires 0 <= bucketIdx < ht.buckets.Length && pos == |ht.buckets[bucketIdx]|
      modifies this
      ensures Valid()
      ensures Remaining() == Flatten(ht.buckets[old(bucketIdx) + 1..])
      ensures found <==> Remaining() != []
      ensures bucketIdx == InvalidIdx || bucketIdx > old(bucketIdx)
    {
      ghost var start := bucketIdx + 1;
      bucketIdx := bucketIdx + 1;
      while bucketIdx < ht.numBuckets && |ht.buckets[bucketIdx]| == 0
        invariant start <= bucketIdx <= ht.numBuckets
        invariant forall t :: start <= t < bucketIdx ==> ht.buckets[t] == []
      {
        bucketIdx := bucketIdx + 1;
      }
      FlattenSkipEmpty(ht.buckets[..], start, bucketIdx);
      assert ht.buckets[..][start..] == ht.buckets[start..];
      assert ht.buckets[..][bucketIdx..] == ht.buckets[bucketIdx..];
      if bucketIdx >= ht.numBuckets {
        bucketIdx := InvalidIdx;
        pos := 0;
        return false;
      }
      pos := 0;
      FlattenFrom(ht.buckets[..], bucketIdx);
      assert ht.buckets[..][bucketIdx + 1..] == ht.buckets[bucketIdx + 1..];
      return true;
    }

    /** HTIterator_Next. */
    method Next() returns (more: bool)
      requires Valid()
      modifies this
      ensures Valid()
      ensures Remaining() == if old(Remaining()) == [] then [] else old(Remaining())[1..]
      ensures more <==> Remaining() != []
      ensures old(bucketIdx) != InvalidIdx && bucketIdx == old(bucketIdx) ==> pos == old(pos) + 1
      ensures old(bucketIdx) != InvalidIdx && bucketIdx != InvalidIdx ==> bucketIdx >= old(bucketIdx)
    {
      if bucketIdx == InvalidIdx {
        return false;
      }
      ghost var chain := ht.buckets[bucketIdx];
      ghost var later := Flatten(ht.buckets[bucketIdx + 1..]);
      assert old(Remaining()) == chain[pos..] + later;
      pos := pos + 1;
      more := true;
      if pos == |ht.buckets[bucketIdx]| {
        assert old(Remaining())[1..] == later;
        more := GetNextBucket();
      } else {
        assert old(Remaining())[1..] == chain[pos..] + later;
      }
    }

    /** HTIterator_Get. */
    method Get() returns (ok: bool, keyvalue: Option<Entry<V>>)
      requires Valid()
      ensures ok <==> Remaining() != []
      ensures keyvalue == if ok then Some(Remaining()[0]) else None
    {
      if bucketIdx == InvalidIdx {
        return false, None;
      }
      return true, Some(ht.buckets[bucketIdx][pos]);
    }

    /** HTIterator_Remove: get the current pair, advance, then remove that
        pair from the table. */
    method Remove() returns (ok: bool, keyvalue: Option<Entry<V>>)
      requires Valid() && ht.Valid()
      modifies this, ht, ht.buckets
      ensures Valid() && ht.Valid()
      ensures ok <==> old(Remaining()) != []
      ensures keyvalue == if ok then Some(old(Remaining())[0]) else None
      ensures ok ==> ht.Contents == old(ht.Contents) - {keyvalue.value.key}
      ensures ok ==> ht.numElements == old(ht.numElements) - 1
      ensures !ok ==> ht.Contents == old(ht.Contents) && ht.numElements == old(ht.numElements)
      ensures Remaining() == if ok then old(Remaining())[1..] else old(Remaining())
    {
      var got, kv := Get();
      if !got {
        return false, None;
      }
      var b0 := bucketIdx;
      ghost var p0 := pos;
      ghost var bs := ht.buckets[..];
      ghost var chain := bs[b0];
      assert ChainOk(bs, b0);
      assert chain[p0] in chain;
      var _ := Next();
      ghost var b1, p1 := bucketIdx, pos;
      var removed, removedkv := ht.Remove(kv.value.key);
      FindEntryOfMember(chain, chain[p0]);
      WithoutAt(chain, p0);
      assert ht.buckets[..] == bs[b0 := chain[..p0] + chain[p0 + 1..]];
      if bucketIdx == b0 {
        pos := pos - 1;
      }
      RemoveBehind(bs, b0, p0, b1, p1);
      return true, removedkv;
    }
  }
}
