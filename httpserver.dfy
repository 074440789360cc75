/**
 * hw4/HttpServer.cc: the request router, the content type of a static
 * file, the query words taken from the "terms" argument, and the HTML list
 * of query results. EscapeHtml is not part of this model: it is a
 * parameter of the page builder.
 */
module HttpServer {
  import opened Wrappers
  import opened Strings
  import opened HttpConnection
  import opened QueryProcessor

  // ---------------------------------------------------------------------------
  // ProcessRequest

  /** The handler a request goes to. */
  datatype Handler = FileRequest(uri: string) | QueryRequest(uri: string)

  /** std::string::substr(pos, len): at most `len` characters from `pos`
      (std::out_of_range when pos is past the end). */
  function Substr(s: string, pos: nat, len: nat): (r: string)
    requires pos <= |s|
    ensures |r| == if pos + len <= |s| then len else |s| - pos
    ensures forall k :: 0 <= k < |r| ==> r[k] == s[pos + k]
  {
    if pos + len <= |s| then s[pos..pos + len] else s[pos..]
  }

  const StaticPrefix: string := "/static/"

  /** ProcessRequest: a URI that starts with "/static/" names a file, any
      other (shorter ones included) is a query. */
  function ProcessRequest(req: HttpRequest): (r: Handler)
    ensures r.uri == req.uri
    ensures r.FileRequest? <==> StaticPrefix <= req.uri
  {
    if Substr(req.uri, 0, 8) == StaticPrefix then FileRequest(req.uri) else QueryRequest(req.uri)
  }

  // ---------------------------------------------------------------------------
  // GetContentType

  /** Where the suffix of a file name starts: just after its last '.', or
      at 0 when it has none. */
  function SuffixStart(name: string): (r: nat)
    ensures r <= |name|
    ensures r == 0 || name[r - 1] == '.'
    ensures forall k :: r <= k < |name| ==> name[k] != '.'
  {
    DotBefore(name, |name|)
  }

  /** Just after the last '.' in name[..j], or 0. */
  function DotBefore(name: string, j: nat): (r: nat)
    requires j <= |name|
    ensures r <= j
    ensures r == 0 || name[r - 1] == '.'
    ensures forall k :: r <= k < j ==> name[k] != '.'
  {
    if j == 0 || name[j - 1] == '.' then j else DotBefore(name, j - 1)
  }

  /** The content type of each suffix the server knows. */
  const ContentTypes: map<string, string> :=
    map["html" := "text/html", "htm" := "text/html",
        "jpeg" := "image/jpeg", "jpg" := "image/jpeg",
        "png" := "image/png", "txt" := "text/plain",
        "js" := "text/javascript", "css" := "text/css",
        "xml" := "application/xml", "gif" := "image/gif"]

  /** The content type of a suffix: the one the table gives, or "" for a
      suffix it does not list. Matching is case-sensitive. */
  function ContentTypeOf(suffix: string): (r: string)
    ensures suffix in ContentTypes ==> r == ContentTypes[suffix]
    ensures r == "" <==> suffix !in ContentTypes
  {
    if suffix == "html" || suffix == "htm" then "text/html"
    else if suffix == "jpeg" || suffix == "jpg" then "image/jpeg"
    else if suffix == "png" then "image/png"
    else if suffix == "txt" then "text/plain"
    else if suffix == "js" then "text/javascript"
    else if suffix == "css" then "text/css"
    else if suffix == "xml" then "application/xml"
    else if suffix == "gif" then "image/gif"
    else ""
  }

  /** GetContentType: scans back from the end of the name to the last '.'
      and maps what follows it. */
  method GetContentType(fileName: string) returns (contentType: string)
    ensures contentType == ContentTypeOf(fileName[SuffixStart(fileName)..])
  {
    var suffixStart := |fileName|;
    while suffixStart - 1 >= 0 && fileName[suffixStart - 1] != '.'
      invariant 0 <= suffixStart <= |fileName|
      invariant forall k :: suffixStart <= k < |fileName| ==> fileName[k] != '.'
      decreases suffixStart
    {
      suffixStart := suffixStart - 1;
    }
    SuffixStartIs(fileName, suffixStart);
    contentType := ContentTypeOf(fileName[suffixStart..]);
  }

  /** SuffixStart is the position just after the last '.': any position
      that follows a '.' (or is 0) and has no '.' after it is that one. */
  lemma {:induction false} SuffixStartIs(name: string, r: nat)
    requires r <= |name| && (r == 0 || name[r - 1] == '.')
    requires forall k :: r <= k < |name| ==> name[k] != '.'
    ensures SuffixStart(name) == r
  {
  }

  // ---------------------------------------------------------------------------
  // The query words

  /** The "terms" argument lowercased and split at runs of '+'. */
  function QueryWords(terms: string): (r: seq<string>)
    ensures |r| >= 1
  {
    Split(Lower(terms), {'+'})
  }

  /** No query word holds '+' or an upper-case letter; only the first and
      the last can be empty; together they are the lowercased terms without
      their '+'. */
  lemma {:induction false} QueryWordsShape(terms: string)
    ensures var words := QueryWords(terms);
            (forall m, k :: 0 <= m < |words| && 0 <= k < |words[m]| ==>
               words[m][k] != '+' && !('A' <= words[m][k] <= 'Z')) &&
            (forall m :: 0 < m < |words| - 1 ==> words[m] != []) &&
            Concat(words) == Remove(Lower(terms), {'+'})
  {
    var low := Lower(terms);
    SplitNoDelims(low, {'+'}, 0);
    SplitKeeps(low, {'+'}, 0, c => !('A' <= c <= 'Z'));
    SplitInnerNonEmpty(low, {'+'}, 0);
    SplitConcat(low, {'+'}, 0);
    assert low[0..] == low;
    var words := QueryWords(terms);
    forall m, k | 0 <= m < |words| && 0 <= k < |words[m]|
      ensures words[m][k] != '+'
    {
      assert NoDelims(words[m], {'+'});
    }
  }

  // ---------------------------------------------------------------------------
  // Numbers as a stringstream writes them

  function DigitChar(d: nat): (c: char)
    requires d < 10
    ensures '0' <= c <= '9' && c as int - '0' as int == d
  {
    ('0' as int + d) as char
  }

  /** The decimal digits of n, without leading zeros. */
  function NatToString(n: nat): (r: string)
    ensures |r| >= 1
    ensures forall k :: 0 <= k < |r| ==> '0' <= r[k] <= '9'
    decreases n
  {
    if n < 10 then [DigitChar(n)] else NatToString(n / 10) + [DigitChar(n % 10)]
  }

  /** operator<< on an int: a '-' before the digits of a negative number. */
  function IntToString(i: int): string
  {
    if i < 0 then "-" + NatToString(-i) else NatToString(i)
  }

  /** The number a string of decimal digits denotes. */
  function DecimalValue(s: string): nat
  {
    if s == [] then 0
    else
      var d := s[|s| - 1] as int - '0' as int;
      10 * DecimalValue(s[..|s| - 1]) + (if 0 <= d < 10 then d else 0)
  }

  /** The number a string written by IntToString denotes. */
  function IntValue(s: string): int
  {
    if |s| > 0 && s[0] == '-' then -(DecimalValue(s[1..]) as int) else DecimalValue(s)
  }

  lemma {:induction false} NatToStringRoundTrip(n: nat)
    ensures DecimalValue(NatToString(n)) == n
    decreases n
  {
    if n >= 10 {
      NatToStringRoundTrip(n / 10);
      var s := NatToString(n);
      assert s[..|s| - 1] == NatToString(n / 10);
    }
  }

  /** The written number reads back as the number. */
  lemma {:induction false} IntToStringRoundTrip(i: int)
    ensures IntValue(IntToString(i)) == i
  {
    if i < 0 {
      NatToStringRoundTrip(-i);
      assert IntToString(i)[1..] == NatToString(-i);
    } else {
      NatToStringRoundTrip(i);
    }
  }

  // ---------------------------------------------------------------------------
  // FormatQueryResults

  /** Each word followed by one space. */
  function Spaced(words: seq<string>): string
  {
    if words == [] then [] else Spaced(words[..|words| - 1]) + words[|words| - 1] + " "
  }

  /** The query words separated by single spaces. */
  function Joined(words: seq<string>): string
    requires |words| >= 1
  {
    Spaced(words[..|words| - 1]) + words[|words| - 1]
  }

  lemma {:induction false} SpacedFront(words: seq<string>)
    requires |words| >= 1
    ensures Spaced(words) == words[0] + " " + Spaced(words[1..])
    decreases |words|
  {
    if |words| > 1 {
      var init := words[..|words| - 1];
      SpacedFront(init);
      assert init[1..] == words[1..][..|words| - 2];
    } else {
      assert words[..0] == [] && words[1..] == [];
    }
  }

  /** Joining then splitting at spaces gives the words back, when no word
      holds a space and only the first and last may be empty. */
  lemma {:induction false} JoinedSplit(words: seq<string>)
    requires |words| >= 1
    requires forall m :: 0 <= m < |words| ==> NoDelims(words[m], {' '})
    requires forall m :: 0 < m < |words| - 1 ==> words[m] != []
    ensures Split(Joined(words), {' '}) == words
    decreases |words|
  {
    if |words| == 1 {
      var w := words[0];
      assert Joined(words) == w by {
        assert words[..0] == [];
      }
      assert NoDelims(w, {' '});
      SplitFromLast(w, {' '}, 0);
      assert w[0..|w|] == w;
    } else {
      var w, rest := words[0], words[1..];
      JoinedFront(words);
      JoinedSplit(rest);
      JoinedHead(rest);
      assert NoDelims(w, {' '});
      SplitCons(w, Joined(rest));
      assert [w] + rest == words;
    }
  }

  /** Joined, seen from its first word. */
  lemma {:induction false} JoinedFront(words: seq<string>)
    requires |words| >= 2
    ensures Joined(words) == words[0] + " " + Joined(words[1..])
  {
    var init := words[..|words| - 1];
    SpacedFront(init);
    assert init[1..] == words[1..][..|words| - 2];
  }

  /** Joined starts with its first word's first character. */
  lemma {:induction false} JoinedHead(words: seq<string>)
    requires |words| >= 1
    requires |words| == 1 || words[0] != []
    ensures words[0] != [] ==> Joined(words) != [] && Joined(words)[0] == words[0][0]
    ensures words[0] == [] ==> Joined(words) == []
  {
    if |words| == 1 {
      assert words[..0] == [];
    } else {
      JoinedFront(words);
    }
  }

  /** A word without spaces, one space, and a text that does not start with
      a space split into the word and the pieces of the text. */
  lemma {:induction false} SplitCons(w: string, t: string)
    requires NoDelims(w, {' '})
    requires t == [] || t[0] != ' '
    ensures Split(w + " " + t, {' '}) == [w] + Split(t, {' '})
  {
    var p := w + " ";
    var s := p + t;
    assert NextDelim(s, {' '}, 0) == |w| by {
      NextDelimSpec(s, {' '}, 0);
      assert s[|w|] == ' ';
      assert forall k :: 0 <= k < |w| ==> s[k] == w[k];
    }
    assert SkipDelims(s, {' '}, |w|) == |p| by {
      if |p| < |s| {
        assert s[|p|] == t[0];
      }
    }
    SplitFromNext(s, {' '}, 0, |w|, |p|);
    SplitShift(p, t, {' '}, 0);
    assert s[0..|w|] == w;
  }

  /** Splitting after a prefix depends only on what follows it. */
  lemma {:induction false} SplitShift(p: string, t: string, delims: set<char>, j: nat)
    requires j <= |t|
    ensures SplitFrom(p + t, delims, |p| + j) == SplitFrom(t, delims, j)
    decreases |t| - j
  {
    var s := p + t;
    NextDelimShift(p, t, delims, j);
    var i := NextDelim(t, delims, j);
    SliceShift(p, t, j, i);
    if i < |t| {
      var k := SkipDelims(t, delims, i);
      SkipDelimsShift(p, t, delims, i);
      SplitShift(p, t, delims, k);
      SplitFromNext(s, delims, |p| + j, |p| + i, |p| + k);
      SplitFromNext(t, delims, j, i, k);
    } else {
      SplitFromLast(s, delims, |p| + j);
      SplitFromLast(t, delims, j);
    }
  }

  /** The last piece of SplitFrom. */
  lemma SplitFromLast(s: string, delims: set<char>, start: nat)
    requires start <= |s| && NextDelim(s, delims, start) == |s|
    ensures SplitFrom(s, delims, start) == [s[start..|s|]]
  {
    assert s[start..|s|] == s[start..];
  }

  /** A piece of SplitFrom before a run of delimiters. */
  lemma SplitFromNext(s: string, delims: set<char>, start: nat, i: nat, k: nat)
    requires start <= |s| && NextDelim(s, delims, start) == i && i < |s| && SkipDelims(s, delims, i) == k
    ensures SplitFrom(s, delims, start) == [s[start..i]] + SplitFrom(s, delims, k)
  {
  }

  lemma SliceShift(p: string, t: string, i: nat, j: nat)
    requires i <= j <= |t|
    ensures (p + t)[|p| + i..|p| + j] == t[i..j]
  {
    assert forall k :: 0 <= k < j - i ==> (p + t)[|p| + i..|p| + j][k] == t[i..j][k];
  }

  lemma {:induction false} NextDelimShift(p: string, t: string, delims: set<char>, j: nat)
    requires j <= |t|
    ensures NextDelim(p + t, delims, |p| + j) == |p| + NextDelim(t, delims, j)
    decreases |t| - j
  {
    if j < |t| {
      assert (p + t)[|p| + j] == t[j];
      NextDelimShift(p, t, delims, j + 1);
    }
  }

  lemma {:induction false} SkipDelimsShift(p: string, t: string, delims: set<char>, j: nat)
    requires j <= |t|
    ensures SkipDelims(p + t, delims, |p| + j) == |p| + SkipDelims(t, delims, j)
    decreases |t| - j
  {
    if j < |t| {
      assert (p + t)[|p| + j] == t[j];
      SkipDelimsShift(p, t, delims, j + 1);
    }
  }

  /** The query as the page shows it: the words of "terms" separated by
      spaces read back as those words, when the terms hold no space. */
  lemma {:induction false} ShownQueryWords(terms: string)
    requires forall k :: 0 <= k < |terms| ==> terms[k] != ' '
    ensures Split(Joined(QueryWords(terms)), {' '}) == QueryWords(terms)
  {
    var low := Lower(terms);
    var words := QueryWords(terms);
    SplitKeeps(low, {'+'}, 0, c => c != ' ');
    SplitInnerNonEmpty(low, {'+'}, 0);
    JoinedSplit(words);
  }

  const BoldSpan: string := " <span style=\"font-weight: bold;\"> "

  /** "static/" before a file name, unless it starts with "http://". */
  function LinkOf(name: string): (r: string)
    ensures "http://" <= name ==> r == name
    ensures !("http://" <= name) ==> r == "static/" + name
  {
    if Find(name, "http://") != Some(0) then "static/" + name else name
  }

  /** `pat` occurs in `s` at position i. */
  predicate OccursAt(s: string, pat: string, i: nat)
  {
    i + |pat| <= |s| && forall k :: 0 <= k < |pat| ==> s[i + k] == pat[k]
  }

  /** std::string::find(pat) from `from`: the first occurrence, if any. */
  function FindFrom(s: string, pat: string, from: nat): (r: Option<nat>)
    requires from <= |s|
    ensures r.Some? ==> from <= r.value && OccursAt(s, pat, r.value)
    ensures forall i :: from <= i < (if r.Some? then r.value else |s| + 1) ==> !OccursAt(s, pat, i)
    decreases |s| - from
  {
    if OccursAt(s, pat, from) then Some(from)
    else if from == |s| then None
    else FindFrom(s, pat, from + 1)
  }

  function Find(s: string, pat: string): (r: Option<nat>)
    ensures r == Some(0) <==> pat <= s
  {
    var r := FindFrom(s, pat, 0);
    assert OccursAt(s, pat, 0) <==> pat <= s by {
      if pat <= s {
        assert forall k :: 0 <= k < |pat| ==> s[k] == s[..|pat|][k];
      }
      if OccursAt(s, pat, 0) {
        assert s[..|pat|] == pat;
      }
    }
    r
  }

  /** One result's list item: its link, its name and its rank. */
  function Item(result: QueryResult): string
  {
    "<li><a href=\"" + LinkOf(result.documentName) + "\">" + result.documentName +
    "</a> [" + IntToString(result.rank) + "]</li>\n"
  }

  /** What `f` writes for each element, in order. */
  function Listed<T>(f: T -> string, xs: seq<T>): string
  {
    if xs == [] then [] else Listed(f, xs[..|xs| - 1]) + f(xs[|xs| - 1])
  }

  /** The list items of the results, in order. */
  function Items(results: seq<QueryResult>): string
  {
    Listed(Item, results)
  }

  /** The paragraph for a query without results. */
  function NoResultsLine(query: string): string
  {
    "<p>No Results found for" + BoldSpan + query + "</span></p>\n"
  }

  /** The paragraph that gives the number of results. */
  function CountLine(count: nat, query: string): string
  {
    "<p>" + NatToString(count) + " results found for" + BoldSpan + query + "</span></p>\n"
  }

  /** The HTML FormatQueryResults returns. */
  function ResultsPage(escape: string -> string, words: seq<string>, results: seq<QueryResult>): string
    requires |words| >= 1
  {
    var query := escape(Joined(words));
    if |results| == 0 then NoResultsLine(query)
    else CountLine(|results|, query) + "<ul>\n" + Items(results) + "</ul>\n"
  }

  /** Writing one more element appends what `f` writes for it. */
  lemma ListedStep<T>(f: T -> string, xs: seq<T>, k: nat, head: string)
    requires k < |xs|
    ensures head + Listed(f, xs[..k + 1]) == head + Listed(f, xs[..k]) + f(xs[k])
  {
    assert xs[..k + 1][..k] == xs[..k];
  }

  /** FormatQueryResults: the query words joined by spaces, then either the
      "No Results" paragraph or the count and one item per result. */
  method FormatQueryResults(escape: string -> string, queryWords: seq<string>, results: seq<QueryResult>)
    returns (html: string)
    requires |queryWords| >= 1
    ensures html == ResultsPage(escape, queryWords, results)
  {
    var ss := "";
    var numQueryWords := |queryWords|;
    var i := 0;
    while i < numQueryWords - 1
      invariant 0 <= i <= numQueryWords - 1
      invariant ss == Spaced(queryWords[..i])
    {
      assert queryWords[..i + 1][..i] == queryWords[..i];
      ss := ss + queryWords[i] + " ";
      i := i + 1;
    }
    ss := ss + queryWords[numQueryWords - 1];
    var query := escape(ss);
    if |results| == 0 {
      ss := NoResultsLine(query);
    } else {
      ss := CountLine(|results|, query) + "<ul>\n";
      ghost var head := ss;
      var k := 0;
      while k < |results|
        invariant 0 <= k <= |results|
        invariant ss == head + Items(results[..k])
      {
        ListedStep(Item, results, k, head);
        ss := ss + Item(results[k]);
        k := k + 1;
      }
      assert results[..k] == results;
      ss := ss + "</ul>\n";
    }
    html := ss;
  }

  /** a <= b + c when a <= b. */
  lemma PrefixConcat(a: string, b: string, c: string)
    requires a <= b
    ensures a <= b + c
  {
    assert (b + c)[..|a|] == b[..|a|];
  }

  lemma PrefixTrans(a: string, b: string, c: string)
    requires a <= b && b <= c
    ensures a <= c
  {
    assert c[..|a|] == c[..|b|][..|a|];
  }

  /** The count paragraph starts with the count. */
  lemma CountLineStart(count: nat, query: string)
    ensures "<p>" + NatToString(count) + " results found for" <= CountLine(count, query)
  {
    var a := "<p>" + NatToString(count) + " results found for";
    PrefixConcat(a, a, BoldSpan);
    PrefixConcat(a, a + BoldSpan, query);
    PrefixConcat(a, a + BoldSpan + query, "</span></p>\n");
  }

  /** A page with results starts with the count paragraph. */
  lemma PageStart(escape: string -> string, words: seq<string>, results: seq<QueryResult>)
    requires |words| >= 1 && |results| > 0
    ensures CountLine(|results|, escape(Joined(words))) <= ResultsPage(escape, words, results)
  {
    var c := CountLine(|results|, escape(Joined(words)));
    PrefixConcat(c, c, "<ul>\n");
    PrefixConcat(c, c + "<ul>\n", Items(results));
    PrefixConcat(c, c + "<ul>\n" + Items(results), "</ul>\n");
  }

  /** The page states the number of results, which reads back. */
  lemma {:induction false} ResultsCount(escape: string -> string, words: seq<string>, results: seq<QueryResult>)
    requires |words| >= 1 && |results| > 0
    ensures var n := NatToString(|results|);
            "<p>" + n + " results found for" <= ResultsPage(escape, words, results) &&
            DecimalValue(n) == |results|
  {
    var query := escape(Joined(words));
    CountLineStart(|results|, query);
    PageStart(escape, words, results);
    PrefixTrans("<p>" + NatToString(|results|) + " results found for", CountLine(|results|, query), ResultsPage(escape, words, results));
    NatToStringRoundTrip(|results|);
  }

  /** The "No Results" paragraph starts with "<p>No". */
  lemma NoResultsLineStart(query: string)
    ensures "<p>No" <= NoResultsLine(query)
  {
    var no, line := "<p>No", "<p>No Results found for";
    assert no <= line;
    PrefixConcat(no, line, BoldSpan);
    PrefixConcat(no, line + BoldSpan, query);
    PrefixConcat(no, line + BoldSpan + query, "</span></p>\n");
  }

  /** A text that starts with "<p>" and a digit does not start with "<p>No". */
  lemma NotNo(a: string, page: string)
    requires a <= page && |a| > 3 && '0' <= a[3] <= '9'
    ensures !("<p>No" <= page)
  {
    assert page[3] == a[3];
  }

  /** The page reports no results exactly when there are none. */
  lemma {:induction false} NoResultsIff(escape: string -> string, words: seq<string>, results: seq<QueryResult>)
    requires |words| >= 1
    ensures "<p>No" <= ResultsPage(escape, words, results) <==> |results| == 0
  {
    if |results| == 0 {
      NoResultsLineStart(escape(Joined(words)));
    } else {
      var n := NatToString(|results|);
      var a := "<p>" + n + " results found for";
      ResultsCount(escape, words, results);
      assert a[3] == n[0];
      NotNo(a, ResultsPage(escape, words, results));
    }
  }

  /** Each element's text follows the texts of the elements before it. */
  lemma {:induction false} ListedInOrder<T>(f: T -> string, xs: seq<T>, i: nat)
    requires i < |xs|
    ensures Listed(f, xs[..i]) + f(xs[i]) <= Listed(f, xs)
    decreases |xs|
  {
    var init := xs[..|xs| - 1];
    if i == |xs| - 1 {
      assert xs[..i] == init;
    } else {
      ListedInOrder(f, init, i);
      assert init[..i] == xs[..i] && init[i] == xs[i];
      PrefixConcat(Listed(f, xs[..i]) + f(xs[i]), Listed(f, init), f(xs[|xs| - 1]));
    }
  }

  /** Items keep the order of the results: each result's item follows the
      items of the results before it. */
  lemma {:induction false} ItemsInOrder(results: seq<QueryResult>, i: nat)
    requires i < |results|
    ensures Items(results[..i]) + Item(results[i]) <= Items(results)
  {
    ListedInOrder(Item, results, i);
  }
}
