// The two pieces of Rust's `str` the line protocol relies on: `split_whitespace`
// and `trim`. Both cut at Unicode White_Space characters (`char::is_whitespace`).

module RustStr {
  import opened Wrappers

  /** `char::is_whitespace`: the characters with the Unicode White_Space property. */
  predicate IsWhitespace(c: char) {
    var n := c as int;
    (9 <= n <= 13) || n == 32 || n == 0x85 || n == 0xA0 || n == 0x1680 ||
    (0x2000 <= n <= 0x200A) || n == 0x2028 || n == 0x2029 || n == 0x202F ||
    n == 0x205F || n == 0x3000
  }

  /** A token `split_whitespace` can yield: non-empty and free of whitespace. */
  predicate IsWord(w: string) {
    |w| > 0 && forall i :: 0 <= i < |w| ==> !IsWhitespace(w[i])
  }

  predicate AllWhitespace(s: string) {
    forall i :: 0 <= i < |s| ==> IsWhitespace(s[i])
  }

  /** The length of the run of non-whitespace characters that starts `s`. */
  function TokenLength(s: string): (n: nat)
    ensures n <= |s|
    ensures forall k :: 0 <= k < n ==> !IsWhitespace(s[k])
    ensures n < |s| ==> IsWhitespace(s[n])
  {
    if s == [] || IsWhitespace(s[0]) then 0 else 1 + TokenLength(s[1..])
  }

  /** `split_whitespace`: the maximal runs of non-whitespace characters, in order. */
  function Words(s: string): (r: seq<string>)
    decreases |s|
  {
    if s == [] then []
    else if IsWhitespace(s[0]) then Words(s[1..])
    else
      var n := TokenLength(s);
      [s[..n]] + Words(s[n..])
  }

  /** Every token is a word. */
  lemma {:induction false} WordsAreWords(s: string)
    ensures forall i :: 0 <= i < |Words(s)| ==> IsWord(Words(s)[i])
    decreases |s|
  {
    if s != [] {
      if IsWhitespace(s[0]) {
        WordsAreWords(s[1..]);
      } else {
        WordsAreWords(s[TokenLength(s)..]);
      }
    }
  }

  /** A word followed by a whitespace character (or by nothing) is one token. */
  lemma {:induction false} TokenLengthAppend(p: string, s: string)
    requires s == [] || IsWhitespace(s[0])
    ensures TokenLength(p + s) == TokenLength(p)
    decreases |p|
  {
    if p == [] {
      assert p + s == s;
    } else if !IsWhitespace(p[0]) {
      assert (p + s)[1..] == p[1..] + s;
      TokenLengthAppend(p[1..], s);
    }
  }

  /** A word followed by a whitespace character (or by nothing) is the first token. */
  lemma WordsCons(w: string, s: string)
    requires IsWord(w) && (s == [] || IsWhitespace(s[0]))
    ensures Words(w + s) == [w] + Words(s)
  {
    TokenLengthAppend(w, s);
    if TokenLength(w) < |w| {
      assert false;
    }
    assert (w + s)[..|w|] == w && (w + s)[|w|..] == s;
  }

  /** Leading whitespace yields no token. */
  lemma WordsSkip(c: char, s: string)
    requires IsWhitespace(c)
    ensures Words([c] + s) == Words(s)
  {
    assert ([c] + s)[1..] == s;
  }

  lemma {:induction false} NoWords(w: string)
    requires AllWhitespace(w)
    ensures Words(w) == []
    decreases |w|
  {
    if w != [] {
      NoWords(w[1..]);
    }
  }

  /** The words separated by single spaces: the inverse of `Words` on words. */
  function Join(ws: seq<string>): (s: string)
    decreases |ws|
  {
    if ws == [] then ""
    else if |ws| == 1 then ws[0]
    else ws[0] + " " + Join(ws[1..])
  }

  /** `split_whitespace` takes words joined by spaces back apart. */
  lemma {:induction false} WordsJoin(ws: seq<string>)
    requires forall i :: 0 <= i < |ws| ==> IsWord(ws[i])
    ensures Words(Join(ws)) == ws
    decreases |ws|
  {
    if |ws| == 1 {
      WordsCons(ws[0], "");
      assert ws[0] + "" == ws[0];
    } else if |ws| > 1 {
      WordsJoinStep(ws);
      WordsJoin(ws[1..]);
    }
  }

  lemma WordsJoinStep(ws: seq<string>)
    requires |ws| > 1 && IsWord(ws[0])
    ensures Words(Join(ws)) == [ws[0]] + Words(Join(ws[1..]))
  {
    var rest := Join(ws[1..]);
    assert Join(ws) == ws[0] + ([' '] + rest);
    WordsCons(ws[0], [' '] + rest);
    WordsSkip(' ', rest);
  }

  /** The number of whitespace characters that start `s`. */
  function LeadingWhitespace(s: string): (n: nat)
    ensures n <= |s| && forall i :: 0 <= i < n ==> IsWhitespace(s[i])
    ensures n < |s| ==> !IsWhitespace(s[n])
  {
    if s == [] || !IsWhitespace(s[0]) then 0 else LeadingWhitespace(s[1..]) + 1
  }

  /** The number of whitespace characters that end `s`. */
  function TrailingWhitespace(s: string): (n: nat)
    ensures n <= |s| && forall i :: |s| - n <= i < |s| ==> IsWhitespace(s[i])
    ensures n < |s| ==> !IsWhitespace(s[|s| - n - 1])
    decreases |s|
  {
    if s == [] || !IsWhitespace(s[|s| - 1]) then 0 else TrailingWhitespace(s[..|s| - 1]) + 1
  }

  /** `str::trim`: `s` without its leading and trailing whitespace. */
  function Trim(s: string): (r: string)
    ensures |r| <= |s|
    ensures r != [] ==> !IsWhitespace(r[0]) && !IsWhitespace(r[|r| - 1])
  {
    var t := s[LeadingWhitespace(s)..];
    t[..|t| - TrailingWhitespace(t)]
  }

  lemma {:induction false} WordsDropLeading(w: string, s: string)
    requires AllWhitespace(w)
    ensures Words(w + s) == Words(s)
    decreases |w|
  {
    if w != [] {
      assert (w + s)[1..] == w[1..] + s;
      WordsDropLeading(w[1..], s);
    } else {
      assert w + s == s;
    }
  }

  lemma {:induction false} WordsDropTrailing(p: string, w: string)
    requires AllWhitespace(w)
    ensures Words(p + w) == Words(p)
    decreases |p|
  {
    if p == [] {
      assert p + w == w;
      NoWords(w);
    } else if IsWhitespace(p[0]) {
      assert (p + w)[1..] == p[1..] + w;
      WordsDropTrailing(p[1..], w);
    } else {
      var n := TokenLength(p);
      TokenLengthAppend(p, w);
      assert (p + w)[..n] == p[..n];
      assert (p + w)[n..] == p[n..] + w;
      WordsDropTrailing(p[n..], w);
    }
  }

  lemma WordsTrimStart(s: string)
    ensures Words(s[LeadingWhitespace(s)..]) == Words(s)
  {
    var k := LeadingWhitespace(s);
    assert s == s[..k] + s[k..];
    assert AllWhitespace(s[..k]);
    WordsDropLeading(s[..k], s[k..]);
  }

  lemma WordsTrimEnd(t: string)
    ensures Words(t[..|t| - TrailingWhitespace(t)]) == Words(t)
  {
    var m := |t| - TrailingWhitespace(t);
    assert t == t[..m] + t[m..];
    assert AllWhitespace(t[m..]);
    WordsDropTrailing(t[..m], t[m..]);
  }

  /** Trimming first changes nothing `split_whitespace` sees. */
  lemma WordsTrim(s: string)
    ensures Words(Trim(s)) == Words(s)
  {
    var t := s[LeadingWhitespace(s)..];
    var r := t[..|t| - TrailingWhitespace(t)];
    assert Trim(s) == r;
    WordsTrimStart(s);
    WordsTrimEnd(t);
    assert Words(r) == Words(t) == Words(s);
  }

  lemma SkipStep(s: string, i: nat)
    requires i < |s| && IsWhitespace(s[i])
    ensures Words(s[i + 1..]) == Words(s[i..])
  {
    assert s[i..][1..] == s[i + 1..];
  }

  lemma TokenStep(s: string, j: nat)
    requires j < |s| && !IsWhitespace(s[j])
    ensures TokenLength(s[j..]) == 1 + TokenLength(s[j + 1..])
  {
    assert s[j..][1..] == s[j + 1..];
  }

  lemma TokenSplit(s: string, i: nat, j: nat)
    requires i < |s| && !IsWhitespace(s[i])
    requires i <= j <= |s| && TokenLength(s[i..]) == j - i
    ensures Words(s[i..]) == [s[i..j]] + Words(s[j..])
  {
    assert s[i..][..j - i] == s[i..j] && s[i..][j - i..] == s[j..];
  }

  /** The iterator `str::split_whitespace` returns: the text it has not yet read. */
  class SplitWhitespace {
    var rest: string

    constructor (s: string)
      ensures rest == s
    {
      rest := s;
    }

    /** `Iterator::next`: the first remaining token, consuming it. */
    method Next() returns (token: Option<string>)
      modifies this
      ensures old(Words(rest)) == [] ==> token.None? && Words(rest) == []
      ensures old(Words(rest)) != [] ==> token == Some(old(Words(rest))[0]) && Words(rest) == old(Words(rest))[1..]
    {
      var s := rest;
      var i := 0;
      while i < |s| && IsWhitespace(s[i])
        invariant 0 <= i <= |s|
        invariant Words(s[i..]) == Words(s)
      {
        SkipStep(s, i);
        i := i + 1;
      }
      if i == |s| {
        assert s[i..] == [];
        rest := [];
        return None;
      }
      var j := i;
      while j < |s| && !IsWhitespace(s[j])
        invariant i <= j <= |s|
        invariant TokenLength(s[i..]) == j - i + TokenLength(s[j..])
      {
        TokenStep(s, j);
        j := j + 1;
      }
      TokenSplit(s, i, j);
      token := Some(s[i..j]);
      rest := s[j..];
    }
  }
}
