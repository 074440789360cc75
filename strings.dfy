/**
 * The boost string algorithms the HTTP code uses: split with
 * token_compress_on, to_lower and trim, over ASCII characters.
 */
module Strings {

  /** Position of the first character of s[i..] in `delims`, or |s|. */
  function NextDelim(s: string, delims: set<char>, i: nat): (r: nat)
    requires i <= |s|
    ensures i <= r <= |s|
    ensures r < |s| ==> s[r] in delims
    decreases |s| - i
  {
    if i == |s| || s[i] in delims then i else NextDelim(s, delims, i + 1)
  }

  /** No delimiter comes before NextDelim. */
  lemma {:induction false} NextDelimSpec(s: string, delims: set<char>, i: nat)
    requires i <= |s|
    ensures forall k :: i <= k < NextDelim(s, delims, i) ==> s[k] !in delims
    decreases |s| - i
  {
    if i < |s| && s[i] !in delims {
      NextDelimSpec(s, delims, i + 1);
    }
  }

  /** End of the run of delimiters that starts at `i`. */
  function SkipDelims(s: string, delims: set<char>, i: nat): (r: nat)
    requires i <= |s|
    ensures i <= r <= |s|
    ensures r < |s| ==> s[r] !in delims
    decreases |s| - i
  {
    if i == |s| || s[i] !in delims then i else SkipDelims(s, delims, i + 1)
  }

  /** Only delimiters are skipped. */
  lemma {:induction false} SkipDelimsSpec(s: string, delims: set<char>, i: nat)
    requires i <= |s|
    ensures forall k :: i <= k < SkipDelims(s, delims, i) ==> s[k] in delims
    decreases |s| - i
  {
    if i < |s| && s[i] in delims {
      SkipDelimsSpec(s, delims, i + 1);
    }
  }

  /** The pieces of s[start..] between maximal runs of delimiters. */
  function SplitFrom(s: string, delims: set<char>, start: nat): (r: seq<string>)
    requires start <= |s|
    ensures |r| >= 1
    decreases |s| - start
  {
    var i := NextDelim(s, delims, start);
    if i == |s| then [s[start..]]
    else [s[start..i]] + SplitFrom(s, delims, SkipDelims(s, delims, i))
  }

  /** boost::split(r, s, is_any_of(delims), token_compress_on): the pieces
      between maximal runs of delimiters; a leading or trailing run yields
      an empty first or last piece, and the empty string one empty piece. */
  function Split(s: string, delims: set<char>): (r: seq<string>)
    ensures |r| >= 1
  {
    SplitFrom(s, delims, 0)
  }

  /** `s` without its delimiter characters. */
  function Remove(s: string, delims: set<char>): string
  {
    if s == [] then [] else (if s[0] in delims then [] else [s[0]]) + Remove(s[1..], delims)
  }

  /** The pieces put back together. */
  function Concat(pieces: seq<string>): string
  {
    if pieces == [] then [] else pieces[0] + Concat(pieces[1..])
  }

  lemma {:induction false} RemoveConcat(a: string, b: string, delims: set<char>)
    ensures Remove(a + b, delims) == Remove(a, delims) + Remove(b, delims)
    decreases |a|
  {
    if a == [] {
      assert a + b == b;
    } else {
      assert (a + b)[1..] == a[1..] + b;
      RemoveConcat(a[1..], b, delims);
    }
  }

  lemma {:induction false} RemoveNone(s: string, delims: set<char>)
    requires forall k :: 0 <= k < |s| ==> s[k] !in delims
    ensures Remove(s, delims) == s
    decreases |s|
  {
    if s != [] {
      RemoveNone(s[1..], delims);
    }
  }

  lemma {:induction false} RemoveAll(s: string, delims: set<char>)
    requires forall k :: 0 <= k < |s| ==> s[k] in delims
    ensures Remove(s, delims) == []
    decreases |s|
  {
    if s != [] {
      RemoveAll(s[1..], delims);
    }
  }

  /** Removing the delimiters from s[start..] when s[i..j] is a run of
      delimiters and s[start..i] holds none. */
  lemma {:induction false} RemoveRun(s: string, start: nat, i: nat, j: nat, delims: set<char>)
    requires start <= i <= j <= |s|
    requires forall k :: start <= k < i ==> s[k] !in delims
    requires forall k :: i <= k < j ==> s[k] in delims
    ensures Remove(s[start..], delims) == s[start..i] + Remove(s[j..], delims)
  {
    assert s[start..] == s[start..i] + (s[i..j] + s[j..]);
    RemoveConcat(s[start..i], s[i..j] + s[j..], delims);
    RemoveConcat(s[i..j], s[j..], delims);
    RemoveNone(s[start..i], delims);
    RemoveAll(s[i..j], delims);
  }

  /** Splitting loses only the delimiters: together the pieces of s[start..]
      are s[start..] with its delimiters removed. */
  lemma {:induction false} SplitConcat(s: string, delims: set<char>, start: nat)
    requires start <= |s|
    ensures Concat(SplitFrom(s, delims, start)) == Remove(s[start..], delims)
    decreases |s| - start
  {
    var i := NextDelim(s, delims, start);
    if i == |s| {
      NextDelimSpec(s, delims, start);
      RemoveNone(s[start..], delims);
      assert Concat([s[start..]]) == s[start..] + Concat([]);
    } else {
      var j := SkipDelims(s, delims, i);
      var rest := SplitFrom(s, delims, j);
      var r := [s[start..i]] + rest;
      NextDelimSpec(s, delims, start);
      SkipDelimsSpec(s, delims, i);
      SplitConcat(s, delims, j);
      assert Concat(r) == s[start..i] + Concat(rest) by {
        assert r[1..] == rest;
      }
      RemoveRun(s, start, i, j, delims);
    }
  }

  /** No character of `p` is a delimiter. */
  predicate NoDelims(p: string, delims: set<char>)
  {
    forall k :: 0 <= k < |p| ==> p[k] !in delims
  }

  /** No piece holds a delimiter. */
  lemma {:induction false} SplitNoDelims(s: string, delims: set<char>, start: nat)
    requires start <= |s|
    ensures forall m :: 0 <= m < |SplitFrom(s, delims, start)| ==> NoDelims(SplitFrom(s, delims, start)[m], delims)
    decreases |s| - start
  {
    var i := NextDelim(s, delims, start);
    NextDelimSpec(s, delims, start);
    if i < |s| {
      var j := SkipDelims(s, delims, i);
      SplitNoDelims(s, delims, j);
      var r := [s[start..i]] + SplitFrom(s, delims, j);
      forall m | 0 <= m < |r|
        ensures NoDelims(r[m], delims)
      {
        if m > 0 {
          assert r[m] == SplitFrom(s, delims, j)[m - 1];
        }
      }
    }
  }

  /** Runs of delimiters are compressed: only the first and the last piece
      can be empty. */
  lemma {:induction false} SplitInnerNonEmpty(s: string, delims: set<char>, start: nat)
    requires start <= |s|
    ensures forall m :: 0 < m < |SplitFrom(s, delims, start)| - 1 ==> SplitFrom(s, delims, start)[m] != []
    decreases |s| - start
  {
    var i := NextDelim(s, delims, start);
    if i < |s| {
      var j := SkipDelims(s, delims, i);
      var rest := SplitFrom(s, delims, j);
      SplitInnerNonEmpty(s, delims, j);
      var r := [s[start..i]] + rest;
      forall m | 0 < m < |r| - 1
        ensures r[m] != []
      {
        assert r[m] == rest[m - 1];
        if m == 1 {
          var i2 := NextDelim(s, delims, j);
          assert 1 < |rest|;
          assert i2 < |s|;
          assert rest[0] == s[j..i2];
          assert s[j] !in delims;
          assert |rest[0]| > 0;
        } else {
          assert rest[m - 1] != [];
        }
      }
    }
  }

  /** A property of every character of s[start..] holds of every character
      of every piece. */
  lemma {:induction false} SplitKeeps(s: string, delims: set<char>, start: nat, p: char -> bool)
    requires start <= |s|
    requires forall k :: start <= k < |s| ==> p(s[k])
    ensures forall m, k :: 0 <= m < |SplitFrom(s, delims, start)| && 0 <= k < |SplitFrom(s, delims, start)[m]| ==>
              p(SplitFrom(s, delims, start)[m][k])
    decreases |s| - start
  {
    var i := NextDelim(s, delims, start);
    if i < |s| {
      var j := SkipDelims(s, delims, i);
      SplitKeeps(s, delims, j, p);
      var r := [s[start..i]] + SplitFrom(s, delims, j);
      forall m, k | 0 <= m < |r| && 0 <= k < |r[m]|
        ensures p(r[m][k])
      {
        if m > 0 {
          assert r[m] == SplitFrom(s, delims, j)[m - 1];
        } else {
          assert r[m][k] == s[start + k];
        }
      }
    } else {
      forall k | 0 <= k < |s| - start
        ensures p(s[start..][k])
      {
        assert s[start..][k] == s[start + k];
      }
    }
  }

  /** tolower on one ASCII character. */
  function LowerChar(c: char): (r: char)
    ensures !('A' <= r <= 'Z')
    ensures 'A' <= c <= 'Z' || r == c
  {
    if 'A' <= c <= 'Z' then (c as int - 'A' as int + 'a' as int) as char else c
  }

  /** boost::to_lower. */
  function Lower(s: string): (r: string)
    ensures |r| == |s|
    ensures forall k :: 0 <= k < |s| ==> r[k] == LowerChar(s[k])
  {
    if s == [] then [] else [LowerChar(s[0])] + Lower(s[1..])
  }

  /** The characters boost::trim removes (isspace). */
  predicate IsSpace(c: char)
  {
    c == ' ' || c == '\t' || c == '\n' || c == '\U{0B}' || c == '\U{0C}' || c == '\r'
  }

  /** The first position at or after `i` that is not white space. */
  function SkipSpaces(s: string, i: nat): (r: nat)
    requires i <= |s|
    ensures i <= r <= |s|
    decreases |s| - i
  {
    if i == |s| || !IsSpace(s[i]) then i else SkipSpaces(s, i + 1)
  }

  /** The end of s[lo..j] once the white space at its end is dropped. */
  function BackSpaces(s: string, lo: nat, j: nat): (r: nat)
    requires lo <= j <= |s|
    ensures lo <= r <= j
    decreases j
  {
    if j == lo || !IsSpace(s[j - 1]) then j else BackSpaces(s, lo, j - 1)
  }

  /** Where boost::trim's result starts in its input. */
  function TrimStart(s: string): nat
  {
    SkipSpaces(s, 0)
  }

  /** Where boost::trim's result ends in its input. */
  function TrimEnd(s: string): (j: nat)
    ensures TrimStart(s) <= j <= |s|
  {
    BackSpaces(s, TrimStart(s), |s|)
  }

  /** boost::trim: `s` without the white space at both ends. */
  function Trim(s: string): string
  {
    s[TrimStart(s)..TrimEnd(s)]
  }

  lemma {:induction false} SkipSpacesSpec(s: string, i: nat)
    requires i <= |s|
    ensures var r := SkipSpaces(s, i);
            (r == |s| || !IsSpace(s[r])) && forall k :: i <= k < r ==> IsSpace(s[k])
    decreases |s| - i
  {
    if i < |s| && IsSpace(s[i]) {
      SkipSpacesSpec(s, i + 1);
    }
  }

  lemma {:induction false} BackSpacesSpec(s: string, lo: nat, j: nat)
    requires lo <= j <= |s|
    ensures var r := BackSpaces(s, lo, j);
            (r == lo || !IsSpace(s[r - 1])) && forall k :: r <= k < j ==> IsSpace(s[k])
    decreases j
  {
    if j > lo && IsSpace(s[j - 1]) {
      BackSpacesSpec(s, lo, j - 1);
    }
  }

  /** What boost::trim removes is white space, and what it keeps neither
      starts nor ends with white space. */
  lemma {:induction false} TrimSpec(s: string)
    ensures var r := Trim(s);
            (r == [] || (!IsSpace(r[0]) && !IsSpace(r[|r| - 1]))) &&
            (forall k :: 0 <= k < TrimStart(s) ==> IsSpace(s[k])) &&
            (forall k :: TrimEnd(s) <= k < |s| ==> IsSpace(s[k]))
  {
    SkipSpacesSpec(s, 0);
    BackSpacesSpec(s, TrimStart(s), |s|);
  }
}
