/**
 * hw4/HttpConnection.cc: framing and parsing of HTTP requests on one
 * connection. GetNextRequest accumulates what the socket delivers in
 * `buffer` until the "\r\n\r\n" that ends a request header (section 3 of
 * RFC 7230), parses the text before it and keeps what follows for the next
 * call. ParseRequest takes the URI from the request line and a header from
 * each later line of the form "name:value".
 *
 * The socket is modelled by the results its reads will return, in order.
 */
module HttpConnection {
  import opened Wrappers
  import opened Strings

  /** kHeaderEnd. */
  const HeaderEnd: string := "\r\n\r\n"

  /** An HttpRequest as ParseRequest builds it: the URI and the
      (name, value) pairs passed to AddHeader, in order. */
  datatype HttpRequest = HttpRequest(uri: string, headers: seq<(string, string)>)

  /** One WrappedRead: -1, or the bytes it delivered (none at end of
      stream). */
  datatype Read = ReadFailed | ReadBytes(bytes: string)

  /** What a call of GetNextRequest ends with: false, true with a request,
      or the std::out_of_range ParseRequest throws on a request line with
      fewer than two words. */
  datatype Fetch = NoRequest | Fetched(request: HttpRequest) | Malformed

  // ---------------------------------------------------------------------------
  // ParseRequest

  /** The characters request lines are split on. */
  const LineBreaks: set<char> := {'\r', '\n'}

  /** The header a (later) request line gives: lowercased and split on runs
      of ':', it must have exactly two pieces, which are trimmed. */
  function HeaderOf(line: string): Option<(string, string)>
  {
    var pieces := Split(Lower(line), {':'});
    if |pieces| != 2 then None else Some((Trim(pieces[0]), Trim(pieces[1])))
  }

  /** What `f` gives for each line, in order; lines it gives nothing for
      are skipped. */
  function Collect<T>(f: string -> Option<T>, lines: seq<string>): seq<T>
  {
    if lines == [] then []
    else
      Collect(f, lines[..|lines| - 1]) +
      match f(lines[|lines| - 1]) case None => [] case Some(h) => [h]
  }

  /** The headers of the lines, in order; lines with no header are skipped. */
  function Headers(lines: seq<string>): seq<(string, string)>
  {
    Collect(HeaderOf, lines)
  }

  /** ParseRequest: the URI is the second word of the first line (temp.at(1)
      throws when there is none); every later line is offered to HeaderOf. */
  function ParseRequest(request: string): Option<HttpRequest>
  {
    var lines := Split(request, LineBreaks);
    var words := Split(lines[0], {' '});
    if |words| < 2 then None else Some(HttpRequest(words[1], Headers(lines[1..])))
  }

  /** The URI is the second space-separated word of the first line; it holds
      no space and no line break, and parsing fails exactly when the first
      line has fewer than two words. */
  lemma {:induction false} ParseRequestUri(request: string)
    ensures var words := Split(Split(request, LineBreaks)[0], {' '});
            (ParseRequest(request).Some? <==> |words| >= 2) &&
            (ParseRequest(request).Some? ==>
               ParseRequest(request).value.uri == words[1] &&
               forall k :: 0 <= k < |words[1]| ==> words[1][k] != ' ' && words[1][k] != '\r' && words[1][k] != '\n')
  {
    var lines := Split(request, LineBreaks);
    var words := Split(lines[0], {' '});
    SplitNoDelims(request, LineBreaks, 0);
    SplitNoDelims(lines[0], {' '}, 0);
    assert NoDelims(lines[0], LineBreaks);
    SplitKeeps(lines[0], {' '}, 0, c => c !in LineBreaks);
    if |words| >= 2 {
      assert NoDelims(words[1], {' '});
    }
  }

  /** The characters of Trim(s) are characters of s. */
  lemma {:induction false} TrimKeeps(s: string, p: char -> bool)
    requires forall k :: 0 <= k < |s| ==> p(s[k])
    ensures forall k :: 0 <= k < |Trim(s)| ==> p(Trim(s)[k])
  {
    forall k | 0 <= k < |Trim(s)|
      ensures p(Trim(s)[k])
    {
      assert Trim(s)[k] == s[TrimStart(s) + k];
    }
  }

  /** Every header name and value is lowercase, holds no ':' and has no
      white space at either end: in particular a header whose value holds a
      ':' (such as "Host: localhost:5555") is not kept. */
  lemma {:induction false} HeaderOfShape(line: string)
    requires HeaderOf(line).Some?
    ensures var (name, value) := HeaderOf(line).value;
            (forall k :: 0 <= k < |name| ==> name[k] != ':' && !('A' <= name[k] <= 'Z')) &&
            (forall k :: 0 <= k < |value| ==> value[k] != ':' && !('A' <= value[k] <= 'Z')) &&
            (name == [] || (!IsSpace(name[0]) && !IsSpace(name[|name| - 1]))) &&
            (value == [] || (!IsSpace(value[0]) && !IsSpace(value[|value| - 1])))
  {
    var low := Lower(line);
    var pieces := Split(low, {':'});
    var p := c => c != ':' && !('A' <= c <= 'Z');
    SplitNoDelims(low, {':'}, 0);
    SplitKeeps(low, {':'}, 0, c => !('A' <= c <= 'Z'));
    assert NoDelims(pieces[0], {':'}) && NoDelims(pieces[1], {':'});
    TrimKeeps(pieces[0], p);
    TrimKeeps(pieces[1], p);
    TrimSpec(pieces[0]);
    TrimSpec(pieces[1]);
  }

  /** A value is collected exactly when some line gives it. */
  lemma {:induction false} CollectIff<T>(f: string -> Option<T>, lines: seq<string>, h: T)
    ensures h in Collect(f, lines) <==> exists i :: 0 <= i < |lines| && f(lines[i]) == Some(h)
    decreases |lines|
  {
    if lines != [] {
      var init := lines[..|lines| - 1];
      var tail := match f(lines[|lines| - 1]) case None => [] case Some(g) => [g];
      CollectIff(f, init, h);
      assert Collect(f, lines) == Collect(f, init) + tail;
      if h in Collect(f, init) {
        var i :| 0 <= i < |init| && f(init[i]) == Some(h);
        assert lines[i] == init[i];
      }
      if exists i :: 0 <= i < |lines| && f(lines[i]) == Some(h) {
        var i :| 0 <= i < |lines| && f(lines[i]) == Some(h);
        if i < |init| {
          assert lines[i] == init[i];
        } else {
          assert tail == [h];
        }
      }
    }
  }

  /** A header is kept exactly when some later line gives it. */
  lemma {:induction false} HeadersIff(lines: seq<string>, h: (string, string))
    ensures h in Headers(lines) <==> exists i :: 0 <= i < |lines| && HeaderOf(lines[i]) == Some(h)
  {
    CollectIff(HeaderOf, lines, h);
  }

  // ---------------------------------------------------------------------------
  // Finding the end of a header

  /** "\r\n\r\n" starts at position i of s. */
  predicate EndsAt(s: string, i: nat)
  {
    i + 4 <= |s| && s[i] == '\r' && s[i + 1] == '\n' && s[i + 2] == '\r' && s[i + 3] == '\n'
  }

  /** EndsAt is an occurrence of kHeaderEnd. */
  lemma {:induction false} EndsAtHeaderEnd(s: string, i: nat)
    ensures EndsAt(s, i) <==> i + 4 <= |s| && s[i..i + 4] == HeaderEnd
  {
    if i + 4 <= |s| && s[i..i + 4] == HeaderEnd {
      assert s[i..i + 4][0] == s[i] && s[i..i + 4][3] == s[i + 3];
      assert s[i..i + 4][1] == s[i + 1] && s[i..i + 4][2] == s[i + 2];
    }
    if EndsAt(s, i) {
      assert s[i..i + 4] == HeaderEnd;
    }
  }

  /** buffer_.find(kHeaderEnd) from position `from`: the first position at
      which "\r\n\r\n" starts, if any. */
  function FindHeaderEnd(s: string, from: nat): (r: Option<nat>)
    requires from <= |s|
    ensures r.Some? ==> from <= r.value && EndsAt(s, r.value)
    ensures forall i :: from <= i < (if r.Some? then r.value else |s|) ==> !EndsAt(s, i)
    decreases |s| - from
  {
    if from + 4 > |s| then None
    else if EndsAt(s, from) then Some(from)
    else FindHeaderEnd(s, from + 1)
  }

  // ---------------------------------------------------------------------------
  // GetNextRequest

  /** The state after one GetNextRequest: its outcome, buffer_, and the
      reads still to come. */
  datatype Step = Step(fetch: Fetch, buffer: string, incoming: seq<Read>)

  /** A read of 0 bytes: false on an empty buffer, otherwise the whole
      buffer is parsed and left in place. */
  function EndOfStream(parse: string -> Option<HttpRequest>, buffer: string, incoming: seq<Read>): Step
  {
    if |buffer| == 0 then Step(NoRequest, buffer, incoming)
    else match parse(buffer)
      case None => Step(Malformed, buffer, incoming)
      case Some(req) => Step(Fetched(req), buffer, incoming)
  }

  /** GetNextRequest on `buffer` with the socket about to deliver
      `incoming`, parsing with `parse`; a socket with nothing more to
      deliver reads 0 bytes. */
  function Next(parse: string -> Option<HttpRequest>, buffer: string, incoming: seq<Read>): (r: Step)
    ensures |r.incoming| <= |incoming|
    decreases |incoming|
  {
    match FindHeaderEnd(buffer, 0)
    case Some(e) =>
      (match parse(buffer[..e])
       case None => Step(Malformed, buffer, incoming)
       case Some(req) => Step(Fetched(req), buffer[e + 4..], incoming))
    case None =>
      if incoming == [] then EndOfStream(parse, buffer, [])
      else match incoming[0]
        case ReadFailed => Step(NoRequest, buffer, incoming[1..])
        case ReadBytes(b) =>
          if |b| == 0 then EndOfStream(parse, buffer, incoming[1..]) else Next(parse, buffer + b, incoming[1..])
  }

  /** The bytes a sequence of reads delivered. */
  function Delivered(results: seq<Read>): string
  {
    if results == [] then []
    else (match results[0] case ReadFailed => [] case ReadBytes(b) => b) + Delivered(results[1..])
  }

  /** How a call that has seen `all` (the old buffer followed by every byte
      read) ends: if `all` holds "\r\n\r\n", the request is parsed from the
      text before its first occurrence and the buffer keeps the text after
      it (all of `all` when the request line is malformed); otherwise the
      buffer is `all`, and the call returns false, which on a non-empty
      buffer means the last read failed, or the request parsed from all of
      `all`. */
  predicate Framed(parse: string -> Option<HttpRequest>, all: string, st: Step, lastFailed: bool)
  {
    match FindHeaderEnd(all, 0)
    case Some(e) =>
      (match parse(all[..e])
       case None => st.fetch == Malformed && st.buffer == all
       case Some(req) => st.fetch == Fetched(req) && st.buffer == all[e + 4..])
    case None =>
      st.buffer == all &&
      (st.fetch == NoRequest ==> all == [] || lastFailed) &&
      (st.fetch != NoRequest ==> st == EndOfStream(parse, all, st.incoming))
  }

  /** How many reads GetNextRequest consumes from `incoming` when it
      starts on `buffer`. */
  function Used(buffer: string, incoming: seq<Read>): (n: nat)
    ensures n <= |incoming|
    decreases |incoming|
  {
    if FindHeaderEnd(buffer, 0).Some? || incoming == [] then 0
    else match incoming[0]
      case ReadFailed => 1
      case ReadBytes(b) => if |b| == 0 then 1 else 1 + Used(buffer + b, incoming[1..])
  }

  /** GetNextRequest consumes exactly the first Used reads. */
  lemma {:induction false} NextConsumes(parse: string -> Option<HttpRequest>, buffer: string, incoming: seq<Read>)
    ensures Next(parse, buffer, incoming).incoming == incoming[Used(buffer, incoming)..]
    decreases |incoming|
  {
    if FindHeaderEnd(buffer, 0).None? && incoming != [] && incoming[0].ReadBytes? && |incoming[0].bytes| > 0 {
      var b := incoming[0].bytes;
      NextConsumes(parse, buffer + b, incoming[1..]);
      assert incoming[1..][Used(buffer + b, incoming[1..])..] == incoming[Used(buffer, incoming)..];
    }
  }

  lemma {:induction false} DeliveredStep(incoming: seq<Read>, k: nat)
    requires 1 <= k <= |incoming| && incoming[0].ReadBytes?
    ensures Delivered(incoming[..k]) == incoming[0].bytes + Delivered(incoming[1..][..k - 1])
  {
    assert incoming[..k][1..] == incoming[1..][..k - 1];
  }

  /** The old buffer followed by every byte the consumed reads delivered. */
  function Seen(buffer: string, incoming: seq<Read>): string
  {
    buffer + Delivered(incoming[..Used(buffer, incoming)])
  }

  /** Whether the last consumed read failed. */
  predicate LastFailed(buffer: string, incoming: seq<Read>)
  {
    var n := Used(buffer, incoming);
    n > 0 && incoming[n - 1] == ReadFailed
  }

  /** One read of `b` bytes moves them from the reads into the buffer. */
  lemma {:induction false} SeenStep(buffer: string, incoming: seq<Read>)
    requires FindHeaderEnd(buffer, 0).None? && incoming != []
    requires incoming[0].ReadBytes? && |incoming[0].bytes| > 0
    ensures Seen(buffer, incoming) == Seen(buffer + incoming[0].bytes, incoming[1..])
    ensures LastFailed(buffer, incoming) == LastFailed(buffer + incoming[0].bytes, incoming[1..])
  {
    var b, rest := incoming[0].bytes, incoming[1..];
    var n := Used(buffer + b, rest);
    assert Used(buffer, incoming) == n + 1;
    DeliveredStep(incoming, n + 1);
    if n > 0 {
      assert rest[n - 1] == incoming[n];
    }
  }

  /** The reads that end a call without a header end: nothing delivered. */
  lemma {:induction false} SeenStop(buffer: string, incoming: seq<Read>)
    requires FindHeaderEnd(buffer, 0).Some? || incoming == [] ||
             incoming[0].ReadFailed? || |incoming[0].bytes| == 0
    ensures Seen(buffer, incoming) == buffer
    ensures LastFailed(buffer, incoming) == (Used(buffer, incoming) == 1 && incoming[0].ReadFailed?)
  {
    if Used(buffer, incoming) == 0 {
      assert incoming[..0] == [];
    } else {
      assert incoming[..1] == [incoming[0]];
      assert Delivered([incoming[0]]) == [] by {
        assert [incoming[0]][1..] == [];
      }
    }
  }

  /** Each call frames its request in what it has seen. */
  lemma {:induction false} NextFramed(parse: string -> Option<HttpRequest>, buffer: string, incoming: seq<Read>)
    ensures Framed(parse, Seen(buffer, incoming), Next(parse, buffer, incoming), LastFailed(buffer, incoming))
    decreases |incoming|
  {
    if FindHeaderEnd(buffer, 0).None? && incoming != [] && incoming[0].ReadBytes? && |incoming[0].bytes| > 0 {
      var b := incoming[0].bytes;
      NextFramed(parse, buffer + b, incoming[1..]);
      SeenStep(buffer, incoming);
    } else {
      SeenStop(buffer, incoming);
    }
  }

  /** GetNextRequest consumes a prefix of the reads, loses nothing it read,
      and frames the request at the first "\r\n\r\n" of what it has seen. */
  lemma {:induction false} NextIs(parse: string -> Option<HttpRequest>, buffer: string, incoming: seq<Read>)
    ensures var st := Next(parse, buffer, incoming);
            var n := |incoming| - |st.incoming|;
            0 <= n <= |incoming| && st.incoming == incoming[n..] &&
            Framed(parse, buffer + Delivered(incoming[..n]), st, n > 0 && incoming[n - 1] == ReadFailed)
  {
    NextConsumes(parse, buffer, incoming);
    NextFramed(parse, buffer, incoming);
  }

  /** buffer_ is not cleared at the end of the stream: once a call has
      returned the final, unterminated request, every further call at the
      end of the stream returns it again. */
  lemma {:induction false} EndOfStreamRepeats(parse: string -> Option<HttpRequest>, buffer: string)
    requires FindHeaderEnd(buffer, 0).None? && |buffer| > 0
    ensures Next(parse, Next(parse, buffer, []).buffer, []) == Next(parse, buffer, [])
    ensures Next(parse, buffer, []).fetch != NoRequest
  {
  }

  /** A connection: the unconsumed bytes `buffer` and what the socket
      will deliver. */
  class HttpConnection {
    var buffer: string
    var incoming: seq<Read>

    constructor (incoming: seq<Read>)
      ensures buffer == [] && this.incoming == incoming
    {
      buffer := [];
      this.incoming := incoming;
    }

    /** WrappedRead: -1 on failure, otherwise the number of bytes delivered
        and the bytes; 0 once the socket has nothing more. */
    method WrappedRead() returns (n: int, bytes: string)
      modifies this
      ensures old(incoming) == [] ==> n == 0 && bytes == [] && incoming == []
      ensures old(incoming) != [] ==>
                incoming == old(incoming)[1..] &&
                match old(incoming)[0]
                case ReadFailed => n == -1 && bytes == []
                case ReadBytes(b) => n == |b| && bytes == b
      ensures buffer == old(buffer)
    {
      if incoming == [] {
        return 0, [];
      }
      match incoming[0] {
        case ReadFailed => n, bytes := -1, [];
        case ReadBytes(b) => n, bytes := |b|, b;
      }
      incoming := incoming[1..];
    }

    /** GetNextRequest: reads until buffer holds "\r\n\r\n" or the socket
        fails or ends, then parses. */
    method GetNextRequest() returns (r: Fetch)
      modifies this
      ensures var st := Next(ParseRequest, old(buffer), old(incoming));
              r == st.fetch && buffer == st.buffer && incoming == st.incoming
    {
      while true
        invariant Next(ParseRequest, buffer, incoming) == Next(ParseRequest, old(buffer), old(incoming))
        decreases |incoming|
      {
        var endIndex := FindHeaderEnd(buffer, 0);
        if endIndex.None? {
          ghost var before, buffer0 := incoming, buffer;
          var bytesRead, bytes := WrappedRead();
          if bytesRead == -1 {
            return NoRequest;
          }
          buffer := buffer + bytes;
          if bytesRead == 0 {
            assert buffer == buffer0;
            if |buffer| == 0 {
              return NoRequest;
            }
            var req := ParseRequest(buffer);
            if req.None? {
              return Malformed;
            }
            return Fetched(req.value);
          }
          assert before != [] && |incoming| < |before|;
        } else {
          var req := ParseRequest(buffer[..endIndex.value]);
          if req.None? {
            return Malformed;
          }
          buffer := buffer[endIndex.value + 4..];
          return Fetched(req.value);
        }
      }
    }
  }
}
