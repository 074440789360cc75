/**
 * hw3/QueryProcessor.cc: answers a multi-word query against several index
 * files. In each index the per-word lists of (doc id, count) are
 * intersected, summing the counts (MergeDocIDElementLists); the surviving
 * documents are named through the index's doc table; the results of all
 * indices are concatenated and sorted.
 *
 * The readers of an index file are modelled by their contents: a map from
 * word to the word's list of DocIDElementHeaders, and a map from doc id to
 * document name.
 */
module QueryProcessor {

  type DocID = x: int | 0 <= x < 0x1_0000_0000_0000_0000

  /** DocIDElementHeader: a document and the number of positions at which a
      word occurs in it (the rank so far, once lists are merged). */
  datatype DocIDElement = DocIDElement(docId: DocID, numPositions: int)

  /** What the readers of one index file return: LookupWord (present iff
      the word is a key) with GetDocIDList, and LookupDocID. */
  datatype IndexTables = IndexTables(words: map<string, seq<DocIDElement>>, docs: map<DocID, string>)

  /** QueryResult: a document name and its rank. */
  datatype QueryResult = QueryResult(documentName: string, rank: int)

  // ---------------------------------------------------------------------------
  // Doc-id lists

  /** Some element of `s` is about document `id`. */
  function Has(s: seq<DocIDElement>, id: DocID): bool
  {
    if s == [] then false else Has(s[..|s| - 1], id) || s[|s| - 1].docId == id
  }

  /** The positions recorded for document `id` over all elements of `s`. */
  function SumFor(s: seq<DocIDElement>, id: DocID): int
  {
    if s == [] then 0
    else SumFor(s[..|s| - 1], id) + (if s[|s| - 1].docId == id then s[|s| - 1].numPositions else 0)
  }

  /** What MergeDocIDElementLists does to one element of dst: dropped when
      src has no element for its document, otherwise kept with the
      positions of all of src's elements for that document added. */
  function MergeOne(e: DocIDElement, src: seq<DocIDElement>): seq<DocIDElement>
  {
    if Has(src, e.docId) then [e.(numPositions := e.numPositions + SumFor(src, e.docId))] else []
  }

  /** dst after MergeDocIDElementLists(dst, src). */
  function Merged(dst: seq<DocIDElement>, src: seq<DocIDElement>): seq<DocIDElement>
  {
    if dst == [] then [] else Merged(dst[..|dst| - 1], src) + MergeOne(dst[|dst| - 1], src)
  }

  /** The elements of dst about documents src has an element for, unchanged
      and in order. */
  function Kept(dst: seq<DocIDElement>, src: seq<DocIDElement>): seq<DocIDElement>
  {
    if dst == [] then []
    else Kept(dst[..|dst| - 1], src) + (if Has(src, dst[|dst| - 1].docId) then [dst[|dst| - 1]] else [])
  }

  /** Has over a concatenation. */
  lemma {:induction false} HasConcat(a: seq<DocIDElement>, b: seq<DocIDElement>, id: DocID)
    ensures Has(a + b, id) == (Has(a, id) || Has(b, id))
    decreases |b|
  {
    if b == [] {
      assert a + b == a;
    } else {
      assert (a + b)[..|a + b| - 1] == a + b[..|b| - 1];
      HasConcat(a, b[..|b| - 1], id);
    }
  }

  /** Has is "some element is about `id`". */
  lemma {:induction false} HasIff(s: seq<DocIDElement>, id: DocID)
    ensures Has(s, id) <==> exists k :: 0 <= k < |s| && s[k].docId == id
    decreases |s|
  {
    if s != [] {
      var init := s[..|s| - 1];
      HasIff(init, id);
      if Has(init, id) {
        var k :| 0 <= k < |init| && init[k].docId == id;
        assert s[k] == init[k];
      }
      forall k | 0 <= k < |s| - 1
        ensures s[k] == init[k]
      {
      }
    }
  }

  /** MergeDocIDElementLists keeps exactly the elements of dst whose
      document src has an element for, in their order, each with its
      positions increased by the sum of src's positions for that
      document; it adds nothing. */
  lemma {:induction false} MergedIsKeptPlusSums(dst: seq<DocIDElement>, src: seq<DocIDElement>)
    ensures var m, k := Merged(dst, src), Kept(dst, src);
            |m| == |k| <= |dst| &&
            forall i :: 0 <= i < |m| ==>
              m[i].docId == k[i].docId && m[i].numPositions == k[i].numPositions + SumFor(src, k[i].docId)
    decreases |dst|
  {
    if dst != [] {
      MergedIsKeptPlusSums(dst[..|dst| - 1], src);
    }
  }

  /** The documents of the merged list are those of both lists. */
  lemma {:induction false} MergedHas(dst: seq<DocIDElement>, src: seq<DocIDElement>, id: DocID)
    ensures Has(Merged(dst, src), id) <==> Has(dst, id) && Has(src, id)
    decreases |dst|
  {
    if dst != [] {
      var init := dst[..|dst| - 1];
      MergedHas(init, src, id);
      HasConcat(Merged(init, src), MergeOne(dst[|dst| - 1], src), id);
      assert Has(MergeOne(dst[|dst| - 1], src), id) <==> Has(src, id) && dst[|dst| - 1].docId == id by {
        var one := MergeOne(dst[|dst| - 1], src);
        if one != [] {
          assert one[..|one| - 1] == [];
        }
      }
    }
  }

  // ---------------------------------------------------------------------------
  // MergeDocIDElementLists

  /** MergeDocIDElementLists(dst, src): walks dst, adding to each element the
      positions of every element of src about the same document; an element
      that matched none is erased. */
  method MergeDocIDElementLists(dst: seq<DocIDElement>, src: seq<DocIDElement>) returns (merged: seq<DocIDElement>)
    ensures merged == Merged(dst, src)
  {
    merged := dst;
    var i := 0;
    ghost var n := 0;
    while i < |merged|
      invariant 0 <= n <= |dst| && 0 <= i <= |merged|
      invariant merged[..i] == Merged(dst[..n], src) && merged[i..] == dst[n..]
      decreases |merged| - i
    {
      var matched := false;
      var k := 0;
      ghost var len := |merged|;
      while k < |src|
        invariant 0 <= k <= |src| && |merged| == len && i < |merged|
        invariant matched == Has(src[..k], dst[n].docId)
        invariant merged[i] == dst[n].(numPositions := dst[n].numPositions + SumFor(src[..k], dst[n].docId))
        invariant merged[..i] == Merged(dst[..n], src) && merged[i + 1..] == dst[n + 1..]
      {
        assert src[..k + 1][..k] == src[..k];
        if src[k].docId == merged[i].docId {
          merged := merged[i := merged[i].(numPositions := merged[i].numPositions + src[k].numPositions)];
          matched := true;
        }
        k := k + 1;
      }
      assert src[..k] == src;
      assert dst[..n + 1][..n] == dst[..n];
      if matched {
        assert merged[..i + 1] == merged[..i] + [merged[i]];
        i := i + 1;
      } else {
        merged := merged[..i] + merged[i + 1..];
        assert merged[i..] == dst[n + 1..];
      }
      n := n + 1;
    }
    assert dst[..n] == dst;
    assert merged[..i] == merged;
  }

  // ---------------------------------------------------------------------------
  // One index file

  /** The position of the first query word at or after `from` that the
      index has a list for, or |query| when there is none. */
  function FirstFound(words: map<string, seq<DocIDElement>>, query: seq<string>, from: nat): (r: nat)
    requires from <= |query|
    ensures from <= r <= |query|
    ensures r < |query| ==> query[r] in words
    ensures forall j :: from <= j < r ==> query[j] !in words
    decreases |query| - from
  {
    if from == |query| then |query|
    else if query[from] in words then from
    else FirstFound(words, query, from + 1)
  }

  /** The list after merging in the lists of query[from..], in order; it
      is cleared as soon as one of those words is missing. */
  function MergeRest(list: seq<DocIDElement>, words: map<string, seq<DocIDElement>>, query: seq<string>, from: nat): seq<DocIDElement>
    decreases |query| - from
  {
    if from >= |query| then list
    else if query[from] !in words then []
    else MergeRest(Merged(list, words[query[from]]), words, query, from + 1)
  }

  /** final_id_rank_list of one index: the list of the first query word the
      index knows, merged with the lists of all the words after it. */
  function Matches(words: map<string, seq<DocIDElement>>, query: seq<string>): seq<DocIDElement>
  {
    var s := FirstFound(words, query, 0);
    if s == |query| then [] else MergeRest(words[query[s]], words, query, s + 1)
  }

  /** Every word of query[from..] has a list holding document `id`. */
  function InAll(words: map<string, seq<DocIDElement>>, query: seq<string>, from: nat, id: DocID): bool
    decreases |query| - from
  {
    from >= |query| ||
    (query[from] in words && Has(words[query[from]], id) && InAll(words, query, from + 1, id))
  }

  /** The positions of document `id` over the lists of query[from..]. */
  function TotalFrom(words: map<string, seq<DocIDElement>>, query: seq<string>, from: nat, id: DocID): int
    decreases |query| - from
  {
    if from >= |query| then 0
    else (if query[from] in words then SumFor(words[query[from]], id) else 0) + TotalFrom(words, query, from + 1, id)
  }

  /** Reference definition of a multi-word match, in one pass over the seed
      list: the elements about documents every word of query[from..] lists,
      each with those words' positions for it added. */
  function Filtered(list: seq<DocIDElement>, words: map<string, seq<DocIDElement>>, query: seq<string>, from: nat): seq<DocIDElement>
  {
    if list == [] then []
    else
      var e := list[|list| - 1];
      Filtered(list[..|list| - 1], words, query, from) +
      (if InAll(words, query, from, e.docId)
       then [e.(numPositions := e.numPositions + TotalFrom(words, query, from, e.docId))] else [])
  }

  lemma {:induction false} FilteredConcat(a: seq<DocIDElement>, b: seq<DocIDElement>, words: map<string, seq<DocIDElement>>, query: seq<string>, from: nat)
    ensures Filtered(a + b, words, query, from) == Filtered(a, words, query, from) + Filtered(b, words, query, from)
    decreases |b|
  {
    if b == [] {
      assert a + b == a;
    } else {
      assert (a + b)[..|a + b| - 1] == a + b[..|b| - 1];
      FilteredConcat(a, b[..|b| - 1], words, query, from);
    }
  }

  /** With no words left, the reference match is the list itself. */
  lemma {:induction false} FilteredNone(list: seq<DocIDElement>, words: map<string, seq<DocIDElement>>, query: seq<string>, from: nat)
    requires from >= |query|
    ensures Filtered(list, words, query, from) == list
    decreases |list|
  {
    if list != [] {
      FilteredNone(list[..|list| - 1], words, query, from);
    }
  }

  /** Merging in the list of query[from] and then matching query[from + 1..]
      is matching query[from..]. */
  lemma {:induction false} MergeStep(list: seq<DocIDElement>, words: map<string, seq<DocIDElement>>, query: seq<string>, from: nat)
    requires from < |query| && query[from] in words
    ensures Filtered(Merged(list, words[query[from]]), words, query, from + 1) == Filtered(list, words, query, from)
    decreases |list|
  {
    if list != [] {
      var src := words[query[from]];
      var init, e := list[..|list| - 1], list[|list| - 1];
      MergeStep(init, words, query, from);
      FilteredConcat(Merged(init, src), MergeOne(e, src), words, query, from + 1);
      var one := MergeOne(e, src);
      if one != [] {
        assert one[..|one| - 1] == [];
      }
    }
  }

  /** With every word of query[from..] in the index, the step-by-step merge
      is the reference match. */
  lemma {:induction false} MergeRestIsFiltered(list: seq<DocIDElement>, words: map<string, seq<DocIDElement>>, query: seq<string>, from: nat)
    requires forall j :: from <= j < |query| ==> query[j] in words
    ensures MergeRest(list, words, query, from) == Filtered(list, words, query, from)
    decreases |query| - from
  {
    if from >= |query| {
      FilteredNone(list, words, query, from);
    } else {
      MergeRestIsFiltered(Merged(list, words[query[from]]), words, query, from + 1);
      MergeStep(list, words, query, from);
    }
  }

  /** A word of query[from..] missing from the index empties the match. */
  lemma {:induction false} MergeRestMissing(list: seq<DocIDElement>, words: map<string, seq<DocIDElement>>, query: seq<string>, from: nat, j: nat)
    requires from <= j < |query| && query[j] !in words
    ensures MergeRest(list, words, query, from) == []
    decreases j - from
  {
    if query[from] in words {
      MergeRestMissing(Merged(list, words[query[from]]), words, query, from + 1, j);
    }
  }

  /** Query semantics of one index: query words before the first one the
      index knows are skipped; if a word after it is missing, nothing
      matches; otherwise the documents of the first known word's list that
      every later word also lists match, ranked by the sum of their
      positions over all those words. */
  lemma {:induction false} MatchesAre(words: map<string, seq<DocIDElement>>, query: seq<string>)
    ensures var s := FirstFound(words, query, 0);
            Matches(words, query) ==
              if s == |query| || exists j :: s < j < |query| && query[j] !in words then []
              else Filtered(words[query[s]], words, query, s + 1)
  {
    var s := FirstFound(words, query, 0);
    if s < |query| {
      if j :| s < j < |query| && query[j] !in words {
        MergeRestMissing(words[query[s]], words, query, s + 1, j);
      } else {
        MergeRestIsFiltered(words[query[s]], words, query, s + 1);
      }
    }
  }

  /** Element `k` of the match `f` of `list` is about a document listed by
      each word of query[from..], ranked by the positions of some element of
      `list` about it plus theirs. */
  predicate Justified(f: seq<DocIDElement>, k: int, list: seq<DocIDElement>, words: map<string, seq<DocIDElement>>, query: seq<string>, from: nat)
    requires 0 <= k < |f|
  {
    (forall j :: from <= j < |query| ==> query[j] in words && Has(words[query[j]], f[k].docId)) &&
    exists i :: 0 <= i < |list| && list[i].docId == f[k].docId &&
      f[k].numPositions == list[i].numPositions + TotalFrom(words, query, from, f[k].docId)
  }

  /** Every document the reference match keeps is listed by each word of
      query[from..], and its rank is the seed's positions plus theirs. */
  lemma {:induction false} FilteredMembers(list: seq<DocIDElement>, words: map<string, seq<DocIDElement>>, query: seq<string>, from: nat)
    ensures var f := Filtered(list, words, query, from);
            |f| <= |list| && forall k :: 0 <= k < |f| ==> Justified(f, k, list, words, query, from)
    decreases |list|
  {
    if list != [] {
      var init := list[..|list| - 1];
      FilteredMembers(init, words, query, from);
      var f := Filtered(list, words, query, from);
      var fi := Filtered(init, words, query, from);
      forall k | 0 <= k < |f|
        ensures Justified(f, k, list, words, query, from)
      {
        if k < |fi| {
          assert f[k] == fi[k];
          assert Justified(fi, k, init, words, query, from);
          var i :| 0 <= i < |init| && init[i].docId == fi[k].docId &&
                   fi[k].numPositions == init[i].numPositions + TotalFrom(words, query, from, fi[k].docId);
          assert list[i] == init[i];
        } else {
          InAllAt(words, query, from, f[k].docId);
          assert list[|list| - 1].docId == f[k].docId;
        }
      }
    }
  }

  lemma {:induction false} InAllAt(words: map<string, seq<DocIDElement>>, query: seq<string>, from: nat, id: DocID)
    requires InAll(words, query, from, id)
    ensures forall j :: from <= j < |query| ==> query[j] in words && Has(words[query[j]], id)
    decreases |query| - from
  {
    if from < |query| {
      InAllAt(words, query, from + 1, id);
    }
  }

  /** MatchIndex: the first half of ProcessQuery's work on one index: find
      the first query word the index knows and merge in the lists of the
      words after it, clearing the list when one of them is missing. */
  method MatchIndex(t: IndexTables, query: seq<string>) returns (list: seq<DocIDElement>)
    ensures list == Matches(t.words, query)
  {
    var start := 0;
    var found := false;
    list := [];
    while !found && start < |query|
      invariant 0 <= start <= |query|
      invariant !found ==> list == []
      invariant !found ==> FirstFound(t.words, query, 0) == FirstFound(t.words, query, start)
      invariant found ==> 0 < start && FirstFound(t.words, query, 0) == start - 1 && list == t.words[query[start - 1]]
    {
      if query[start] in t.words {
        list := t.words[query[start]];
        found := true;
      }
      start := start + 1;
    }
    if !found {
      return;
    }
    var j := start;
    while j < |query|
      invariant start <= j <= |query|
      invariant MergeRest(list, t.words, query, j) == Matches(t.words, query)
    {
      if query[j] !in t.words {
        list := [];
        break;
      }
      list := MergeDocIDElementLists(list, t.words[query[j]]);
      j := j + 1;
    }
  }

  // ---------------------------------------------------------------------------
  // Results

  /** The results one index contributes for its match list: an element whose
      document the doc table names becomes (name, positions); the others
      are skipped. */
  function Resolve(docs: map<DocID, string>, list: seq<DocIDElement>): seq<QueryResult>
  {
    if list == [] then []
    else
      var e := list[|list| - 1];
      Resolve(docs, list[..|list| - 1]) + (if e.docId in docs then [QueryResult(docs[e.docId], e.numPositions)] else [])
  }

  /** A result comes from an element of the list whose document the doc
      table names, and every such element gives one. */
  lemma {:induction false} ResolveIff(docs: map<DocID, string>, list: seq<DocIDElement>, x: QueryResult)
    ensures x in Resolve(docs, list) <==>
            exists k :: 0 <= k < |list| && list[k].docId in docs &&
              x == QueryResult(docs[list[k].docId], list[k].numPositions)
    decreases |list|
  {
    if list != [] {
      var init := list[..|list| - 1];
      ResolveIff(docs, init, x);
      if k :| 0 <= k < |init| && init[k].docId in docs && x == QueryResult(docs[init[k].docId], init[k].numPositions) {
        assert list[k] == init[k];
      }
      if k :| 0 <= k < |list| && list[k].docId in docs && x == QueryResult(docs[list[k].docId], list[k].numPositions) {
        if k < |init| {
          assert list[k] == init[k];
        }
      }
    }
  }

  /** The results one index contributes to a query. */
  function IndexResults(t: IndexTables, query: seq<string>): seq<QueryResult>
  {
    Resolve(t.docs, Matches(t.words, query))
  }

  /** The results of the indices, in index order, before sorting. */
  function Contributions(tables: seq<IndexTables>, query: seq<string>): seq<QueryResult>
  {
    if tables == [] then []
    else Contributions(tables[..|tables| - 1], query) + IndexResults(tables[|tables| - 1], query)
  }

  /** A result is one that some index contributes. */
  lemma {:induction false} ContributionsIff(tables: seq<IndexTables>, query: seq<string>, x: QueryResult)
    ensures x in Contributions(tables, query) <==>
            exists i :: 0 <= i < |tables| && x in IndexResults(tables[i], query)
    decreases |tables|
  {
    if tables != [] {
      var init := tables[..|tables| - 1];
      ContributionsIff(init, query, x);
      assert Contributions(tables, query) == Contributions(init, query) + IndexResults(tables[|tables| - 1], query);
      assert forall i :: 0 <= i < |init| ==> tables[i] == init[i];
    }
  }

  // ---------------------------------------------------------------------------
  // Sorting

  /** What std::sort demands of QueryResult's operator<. */
  ghost predicate StrictWeakOrder(less: (QueryResult, QueryResult) -> bool)
  {
    (forall a :: !less(a, a)) &&
    (forall a, b, c :: less(a, b) && less(b, c) ==> less(a, c)) &&
    (forall a, b, c :: !less(a, b) && !less(b, c) ==> !less(a, c))
  }

  /** No element is less than one before it. */
  predicate Sorted(s: seq<QueryResult>, less: (QueryResult, QueryResult) -> bool)
  {
    forall i, j :: 0 <= i < j < |s| ==> !less(s[j], s[i])
  }

  /** `x` inserted before the first element of `s` that is not less than it. */
  function Insert(less: (QueryResult, QueryResult) -> bool, x: QueryResult, s: seq<QueryResult>): seq<QueryResult>
  {
    if s == [] || !less(s[0], x) then [x] + s else [s[0]] + Insert(less, x, s[1..])
  }

  /** Insertion sort: stands for the library sort ProcessQuery calls. */
  function SortBy(less: (QueryResult, QueryResult) -> bool, s: seq<QueryResult>): seq<QueryResult>
  {
    if s == [] then [] else Insert(less, s[0], SortBy(less, s[1..]))
  }

  lemma {:induction false} InsertPerm(less: (QueryResult, QueryResult) -> bool, x: QueryResult, s: seq<QueryResult>)
    ensures multiset(Insert(less, x, s)) == multiset(s) + multiset{x}
    decreases |s|
  {
    if s != [] && less(s[0], x) {
      InsertPerm(less, x, s[1..]);
      assert s == [s[0]] + s[1..];
    }
  }

  lemma {:induction false} InsertSorted(less: (QueryResult, QueryResult) -> bool, x: QueryResult, s: seq<QueryResult>)
    requires StrictWeakOrder(less) && Sorted(s, less)
    ensures Sorted(Insert(less, x, s), less)
    decreases |s|
  {
    if s == [] {
    } else if !less(s[0], x) {
      var r := [x] + s;
      forall i, j | 0 <= i < j < |r|
        ensures !less(r[j], r[i])
      {
        if i == 0 && j > 1 {
          assert !less(s[j - 1], s[0]);
        }
      }
    } else {
      var rest := Insert(less, x, s[1..]);
      InsertSorted(less, x, s[1..]);
      InsertPerm(less, x, s[1..]);
      var r := [s[0]] + rest;
      forall i, j | 0 <= i < j < |r|
        ensures !less(r[j], r[i])
      {
        if i == 0 {
          var y := rest[j - 1];
          assert y in multiset(rest);
          if y != x {
            assert y in multiset(s[1..]);
            var m :| 0 <= m < |s[1..]| && s[1..][m] == y;
            assert s[m + 1] == y;
          }
        }
      }
    }
  }

  /** The sorted results are sorted. */
  lemma {:induction false} SortBySorted(less: (QueryResult, QueryResult) -> bool, s: seq<QueryResult>)
    requires StrictWeakOrder(less)
    ensures Sorted(SortBy(less, s), less)
    decreases |s|
  {
    if s != [] {
      SortBySorted(less, s[1..]);
      InsertSorted(less, s[0], SortBy(less, s[1..]));
    }
  }

  /** The sorted results are a permutation of the results. */
  lemma {:induction false} SortByPerm(less: (QueryResult, QueryResult) -> bool, s: seq<QueryResult>)
    ensures multiset(SortBy(less, s)) == multiset(s)
    decreases |s|
  {
    if s != [] {
      SortByPerm(less, s[1..]);
      InsertPerm(less, s[0], SortBy(less, s[1..]));
      assert s == [s[0]] + s[1..];
    }
  }

  // ---------------------------------------------------------------------------
  // The processor

  /** A QueryProcessor over a list of index files; `tables` holds what the
      readers of each file return. */
  class QueryProcessor {
    const indexList: seq<string>
    const tables: seq<IndexTables>

    /** One pair of readers per index file, and at least one file. */
    predicate Valid()
    {
      |indexList| > 0 && |tables| == |indexList|
    }

    constructor (indexList: seq<string>, tables: seq<IndexTables>)
      requires |indexList| > 0 && |tables| == |indexList|
      ensures Valid() && this.indexList == indexList && this.tables == tables
    {
      this.indexList := indexList;
      this.tables := tables;
    }

    /** ProcessQuery: every index's results, sorted. */
    method ProcessQuery(query: seq<string>, less: (QueryResult, QueryResult) -> bool) returns (result: seq<QueryResult>)
      requires Valid() && |query| > 0 && StrictWeakOrder(less)
      ensures Sorted(result, less) && multiset(result) == multiset(Contributions(tables, query))
    {
      var finalResult: seq<QueryResult> := [];
      var i := 0;
      while i < |indexList|
        invariant 0 <= i <= |indexList|
        invariant finalResult == Contributions(tables[..i], query)
      {
        var t := tables[i];
        var list := MatchIndex(t, query);
        var k := 0;
        while k < |list|
          invariant 0 <= k <= |list|
          invariant finalResult == Contributions(tables[..i], query) + Resolve(t.docs, list[..k])
        {
          assert list[..k + 1][..k] == list[..k];
          if list[k].docId in t.docs {
            finalResult := finalResult + [QueryResult(t.docs[list[k].docId], list[k].numPositions)];
          }
          k := k + 1;
        }
        assert list[..k] == list;
        assert tables[..i + 1][..i] == tables[..i];
        i := i + 1;
      }
      assert tables[..i] == tables;
      result := SortBy(less, finalResult);
      SortBySorted(less, finalResult);
      SortByPerm(less, finalResult);
    }
  }
}
