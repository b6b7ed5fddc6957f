/** Rust's `str::split_whitespace` and the `.next().unwrap_or_default()`
    applied to it: the first whitespace-delimited token of a string. */
module Whitespace {
  import opened Options

  /** The whitespace characters recognised here: space, horizontal tab, line
      feed, carriage return, vertical tab and form feed. */
  predicate IsWhitespace(c: char)
  {
    c == ' ' || c == '\t' || c == '\n' || c == '\r' || c == '\U{B}' || c == '\U{C}'
  }

  predicate AllWhitespace(s: string)
  {
    forall i :: 0 <= i < |s| ==> IsWhitespace(s[i])
  }

  predicate NoWhitespace(s: string)
  {
    forall i :: 0 <= i < |s| ==> !IsWhitespace(s[i])
  }

  /** The number of whitespace characters that open `s`. */
  function LeadingSpace(s: string): (n: nat)
    ensures n <= |s|
    ensures AllWhitespace(s[..n])
    ensures n == |s| || !IsWhitespace(s[n])
  {
    if |s| == 0 || !IsWhitespace(s[0]) then 0
    else
      var n := 1 + LeadingSpace(s[1..]);
      assert forall i :: 1 <= i < n ==> s[..n][i] == s[1..][..n - 1][i - 1];
      n
  }

  /** The length of the run of non-whitespace characters that opens `s`. */
  function TokenLength(s: string): (n: nat)
    ensures n <= |s|
    ensures NoWhitespace(s[..n])
    ensures n == |s| || IsWhitespace(s[n])
  {
    if |s| == 0 || IsWhitespace(s[0]) then 0
    else
      var n := 1 + TokenLength(s[1..]);
      assert forall i :: 1 <= i < n ==> s[..n][i] == s[1..][..n - 1][i - 1];
      n
  }

  /** The characters of `s` that are not whitespace, in order. */
  function RemoveWhitespace(s: string): (r: string)
  {
    if |s| == 0 then ""
    else if IsWhitespace(s[0]) then RemoveWhitespace(s[1..])
    else [s[0]] + RemoveWhitespace(s[1..])
  }

  /** The concatenation of a sequence of strings. */
  function Concat(tokens: seq<string>): (s: string)
  {
    if |tokens| == 0 then "" else tokens[0] + Concat(tokens[1..])
  }

  /** `s.split_whitespace()` collected into a sequence: the maximal runs of
      non-whitespace characters, in order. */
  function SplitWhitespace(s: string): (tokens: seq<string>)
    ensures forall k :: 0 <= k < |tokens| ==> |tokens[k]| > 0 && NoWhitespace(tokens[k])
    ensures |tokens| == 0 <==> AllWhitespace(s)
    decreases |s|
  {
    var lead := LeadingSpace(s);
    if lead == |s| then
      assert s[..lead] == s;
      []
    else
      var rest := s[lead..];
      var n := TokenLength(rest);
      assert !IsWhitespace(s[lead]);
      [rest[..n]] + SplitWhitespace(rest[n..])
  }

  /** The tokens hold exactly the non-whitespace characters of the input:
      splitting loses only whitespace. */
  lemma {:induction false} SplitWhitespaceKeepsCharacters(s: string)
    ensures Concat(SplitWhitespace(s)) == RemoveWhitespace(s)
    decreases |s|
  {
    var lead := LeadingSpace(s);
    if lead == |s| {
      assert s[..lead] == s;
      RemoveAllWhitespace(s);
    } else {
      var rest := s[lead..];
      var n := TokenLength(rest);
      var tokens := SplitWhitespace(s);
      assert tokens == [rest[..n]] + SplitWhitespace(rest[n..]);
      assert tokens[1..] == SplitWhitespace(rest[n..]);
      SplitWhitespaceKeepsCharacters(rest[n..]);
      RemoveWhitespaceSplit(s, lead);
      RemoveWhitespaceSplit(rest, n);
      RemoveAllWhitespace(s[..lead]);
      KeepNoWhitespace(rest[..n]);
    }
  }

  /** The tokens are the maximal runs: after leading whitespace `w`, a
      non-empty run `t` followed by whitespace or by the end is the first
      token, and the tokens after it are those of the rest. With the empty
      result for all-whitespace input this fixes the tokens of every string. */
  lemma SplitWhitespaceCons(w: string, t: string, rest: string)
    requires AllWhitespace(w) && NoWhitespace(t) && |t| > 0
    requires rest == "" || IsWhitespace(rest[0])
    ensures SplitWhitespace(w + t + rest) == [t] + SplitWhitespace(rest)
  {
    var s := w + t + rest;
    assert s[..|w|] == w;
    assert s[|w|] == t[0];
    LeadingSpaceUnique(s, |w|);
    var tail := s[|w|..];
    assert tail == t + rest;
    assert tail[..|t|] == t;
    assert rest != "" ==> tail[|t|] == rest[0];
    TokenLengthUnique(tail, |t|);
    assert tail[|t|..] == rest;
  }

  /** Rust's `s.split_whitespace().next().unwrap_or_default()`: the first
      token, or the empty string when `s` is all whitespace. The token is the
      maximal non-whitespace run that starts right after the leading
      whitespace. */
  function FirstToken(s: string): (t: string)
    ensures NoWhitespace(t)
    ensures t == "" <==> AllWhitespace(s)
    ensures LeadingSpace(s) + |t| <= |s|
    ensures t == s[LeadingSpace(s)..LeadingSpace(s) + |t|]
    ensures LeadingSpace(s) + |t| == |s| || IsWhitespace(s[LeadingSpace(s) + |t|])
  {
    UnwrapOrDefault(Nth(SplitWhitespace(s), 0))
  }

  /** Removing whitespace distributes over concatenation. */
  lemma {:induction false} RemoveWhitespaceSplit(s: string, k: nat)
    requires k <= |s|
    ensures RemoveWhitespace(s) == RemoveWhitespace(s[..k]) + RemoveWhitespace(s[k..])
    decreases k
  {
    if k > 0 {
      RemoveWhitespaceSplit(s[1..], k - 1);
      assert s[1..][..k - 1] == s[..k][1..];
      assert s[1..][k - 1..] == s[k..];
    } else {
      assert s[k..] == s;
    }
  }

  lemma {:induction false} RemoveAllWhitespace(s: string)
    requires AllWhitespace(s)
    ensures RemoveWhitespace(s) == ""
    decreases |s|
  {
    if |s| > 0 {
      RemoveAllWhitespace(s[1..]);
    }
  }

  lemma {:induction false} KeepNoWhitespace(s: string)
    requires NoWhitespace(s)
    ensures RemoveWhitespace(s) == s
    decreases |s|
  {
    if |s| > 0 {
      KeepNoWhitespace(s[1..]);
      assert s == [s[0]] + s[1..];
    }
  }

  /** `LeadingSpace` is pinned down by its contract. */
  lemma LeadingSpaceUnique(s: string, n: nat)
    requires n <= |s| && AllWhitespace(s[..n])
    requires n == |s| || !IsWhitespace(s[n])
    ensures LeadingSpace(s) == n
  {
    var k := LeadingSpace(s);
    forall i | 0 <= i < n
      ensures IsWhitespace(s[i])
    {
      assert s[..n][i] == s[i];
    }
    forall i | 0 <= i < k
      ensures IsWhitespace(s[i])
    {
      assert s[..k][i] == s[i];
    }
  }

  /** `TokenLength` is pinned down by its contract. */
  lemma TokenLengthUnique(s: string, n: nat)
    requires n <= |s| && NoWhitespace(s[..n])
    requires n == |s| || IsWhitespace(s[n])
    ensures TokenLength(s) == n
  {
    var k := TokenLength(s);
    forall i | 0 <= i < n
      ensures !IsWhitespace(s[i])
    {
      assert s[..n][i] == s[i];
    }
    forall i | 0 <= i < k
      ensures !IsWhitespace(s[i])
    {
      assert s[..k][i] == s[i];
    }
  }

  /** Conversely, the first token of `w + t + rest` is `t` whenever `w` is
      whitespace, `t` is a non-empty run of non-whitespace and `rest` is empty
      or starts with whitespace. */
  lemma FirstTokenOfDecomposition(w: string, t: string, rest: string)
    requires AllWhitespace(w) && NoWhitespace(t) && |t| > 0
    requires rest == "" || IsWhitespace(rest[0])
    ensures FirstToken(w + t + rest) == t
  {
    var s := w + t + rest;
    assert s[..|w|] == w;
    assert s[|w|] == t[0];
    LeadingSpaceUnique(s, |w|);
    var tail := s[|w|..];
    assert tail == t + rest;
    assert tail[..|t|] == t;
    assert rest != "" ==> tail[|t|] == rest[0];
    TokenLengthUnique(tail, |t|);
  }
}
