/** Rust's `str::split` with a non-empty string pattern, modelled on `seq<char>`.

    Rust searches for the pattern from the left and resumes the search after
    each match, so matches never overlap; the pieces between the matches are
    yielded in order, empty pieces included, and there is always at least one
    piece. `Find` is the leftmost search, `Split` the iterator collected into a
    sequence, and `Join` its inverse. */
module Strings {
  import opened Options

  /** The line end of HTTP/1.1 text. */
  const CRLF: string := "\r\n"

  /** The empty line that separates a message head from its body. */
  const BLANK_LINE: string := "\r\n\r\n"

  /** `pat` occurs in `s` starting at index `i`. */
  predicate OccursAt(s: string, pat: string, i: int)
  {
    0 <= i && i + |pat| <= |s| && s[i..i + |pat|] == pat
  }

  /** `pat` is a contiguous substring of `s`. */
  predicate Contains(s: string, pat: string)
  {
    exists i :: 0 <= i <= |s| - |pat| && OccursAt(s, pat, i)
  }

  predicate StartsWith(s: string, prefix: string)
  {
    |prefix| <= |s| && s[..|prefix|] == prefix
  }

  predicate EndsWith(s: string, suffix: string)
  {
    |suffix| <= |s| && s[|s| - |suffix|..] == suffix
  }

  /** The index of the leftmost occurrence of `pat` in `s`. */
  function Find(s: string, pat: string): (r: Option<nat>)
    ensures r.Some? ==> OccursAt(s, pat, r.value)
    ensures r.Some? ==> forall j :: 0 <= j < r.value ==> !OccursAt(s, pat, j)
    ensures r.None? <==> !Contains(s, pat)
    decreases |s|
  {
    if |s| < |pat| then None
    else if s[..|pat|] == pat then Some(0)
    else
      match Find(s[1..], pat)
      case None =>
        ShiftOccurrence(s, pat);
        None
      case Some(j) =>
        ShiftOccurrence(s, pat);
        Some(j + 1)
  }

  /** Occurrences in `s[1..]` are the occurrences in `s` moved one place left. */
  lemma ShiftOccurrence(s: string, pat: string)
    requires |s| > 0
    ensures forall j :: OccursAt(s[1..], pat, j) ==> OccursAt(s, pat, j + 1)
    ensures forall i :: 1 <= i && OccursAt(s, pat, i) ==> OccursAt(s[1..], pat, i - 1)
  {
    forall j | OccursAt(s[1..], pat, j)
      ensures OccursAt(s, pat, j + 1)
    {
      assert s[1..][j..j + |pat|] == s[j + 1..j + 1 + |pat|];
    }
    forall i | 1 <= i && OccursAt(s, pat, i)
      ensures OccursAt(s[1..], pat, i - 1)
    {
      assert s[1..][i - 1..i - 1 + |pat|] == s[i..i + |pat|];
    }
  }

  /** `Join(pieces, sep)` concatenates the pieces with `sep` between neighbours. */
  function Join(pieces: seq<string>, sep: string): (s: string)
  {
    if |pieces| == 0 then ""
    else if |pieces| == 1 then pieces[0]
    else pieces[0] + sep + Join(pieces[1..], sep)
  }

  /** `s.split(pat)` collected into a sequence: the text between successive
      leftmost, non-overlapping matches of `pat`. Each separator is the
      leftmost match once the piece before it has been read, and nothing after
      the last separator matches. */
  function Split(s: string, pat: string): (pieces: seq<string>)
    requires |pat| > 0
    ensures |pieces| > 0
    ensures Join(pieces, pat) == s
    ensures forall k :: 0 <= k < |pieces| ==> !Contains(pieces[k], pat)
    ensures forall k :: 0 <= k < |pieces| - 1 ==> Find(pieces[k] + pat, pat) == Some(|pieces[k]|)
    decreases |s|
  {
    match Find(s, pat)
    case None => [s]
    case Some(i) =>
      PrefixBeforeFirstMatch(s, pat, i);
      MatchEndsPiece(s, pat, i);
      [s[..i]] + Split(s[i + |pat|..], pat)
  }

  /** `pieces` splits `s` at leftmost, non-overlapping matches of `pat`: the
      pieces join back to `s`, each separator is the leftmost match of the
      piece before it followed by the separator, and the last piece holds no
      match. */
  predicate LeftmostSplitting(s: string, pat: string, pieces: seq<string>)
  {
    && |pieces| > 0
    && Join(pieces, pat) == s
    && (forall k :: 0 <= k < |pieces| - 1 ==> Find(pieces[k] + pat, pat) == Some(|pieces[k]|))
    && !Contains(pieces[|pieces| - 1], pat)
  }

  /** `Split` is the one leftmost splitting: a sequence of pieces is the split
      of `s` exactly when it is a leftmost splitting of `s`. */
  lemma SplitUnique(s: string, pat: string, pieces: seq<string>)
    requires |pat| > 0
    ensures Split(s, pat) == pieces <==> LeftmostSplitting(s, pat, pieces)
  {
    if LeftmostSplitting(s, pat, pieces) {
      SplittingIsSplit(s, pat, pieces);
    }
  }

  lemma {:induction false} SplittingIsSplit(s: string, pat: string, pieces: seq<string>)
    requires |pat| > 0
    requires LeftmostSplitting(s, pat, pieces)
    ensures Split(s, pat) == pieces
    decreases |pieces|
  {
    if |pieces| == 1 {
      SplitWithoutMatch(s, pat);
    } else {
      var tail := pieces[1..];
      SplittingOfTail(pieces, pat);
      SplittingIsSplit(Join(tail, pat), pat, tail);
      SplitAfterMatch(pieces[0], pat, Join(tail, pat));
      assert pieces == [pieces[0]] + tail;
    }
  }

  /** Text without a match is its own single piece. */
  lemma SplitWithoutMatch(s: string, pat: string)
    requires |pat| > 0 && !Contains(s, pat)
    ensures Split(s, pat) == [s]
  {
  }

  /** A leftmost splitting of two or more pieces is its first piece, a
      separator that is the leftmost match after it, and a leftmost splitting
      of the rest. */
  lemma SplittingOfTail(pieces: seq<string>, pat: string)
    requires |pieces| > 1
    requires LeftmostSplitting(Join(pieces, pat), pat, pieces)
    ensures Join(pieces, pat) == pieces[0] + pat + Join(pieces[1..], pat)
    ensures Find(pieces[0] + pat, pat) == Some(|pieces[0]|)
    ensures LeftmostSplitting(Join(pieces[1..], pat), pat, pieces[1..])
  {
    var tail := pieces[1..];
    forall k | 0 <= k < |tail| - 1
      ensures Find(tail[k] + pat, pat) == Some(|tail[k]|)
    {
      assert tail[k] == pieces[k + 1];
    }
    assert tail[|tail| - 1] == pieces[|pieces| - 1];
  }

  /** The text before the leftmost match, followed by the match, has that
      match as its own leftmost one. */
  lemma MatchEndsPiece(s: string, pat: string, i: nat)
    requires OccursAt(s, pat, i)
    requires forall j :: 0 <= j < i ==> !OccursAt(s, pat, j)
    ensures Find(s[..i] + pat, pat) == Some(i)
  {
    var t := s[..i] + pat;
    assert t == s[..i + |pat|];
    forall j | 0 <= j < i
      ensures !OccursAt(t, pat, j)
    {
      assert !OccursAt(s, pat, j);
      if j + |pat| <= |t| {
        assert t[j..j + |pat|] == s[..i + |pat|][j..j + |pat|] == s[j..j + |pat|];
      }
    }
    assert t[i..i + |pat|] == pat;
    FindIsLeftmost(t, pat, i);
  }

  /** Whatever follows a separator does not move the leftmost match that ends
      the piece before it. */
  lemma FindThroughPrefix(x: string, pat: string, rest: string)
    requires Find(x + pat, pat) == Some(|x|)
    ensures Find(x + pat + rest, pat) == Some(|x|)
  {
    var t := x + pat;
    var s := t + rest;
    assert s[|x|..|x| + |pat|] == pat;
    forall j | 0 <= j < |x|
      ensures !OccursAt(s, pat, j)
    {
      assert !OccursAt(t, pat, j);
      assert s[j..j + |pat|] == t[j..j + |pat|];
    }
    FindIsLeftmost(s, pat, |x|);
  }

  /** Splitting `x + pat + rest`, where the separator after `x` is the leftmost
      match, yields `x` followed by the split of `rest`. */
  lemma SplitAfterMatch(x: string, pat: string, rest: string)
    requires |pat| > 0 && Find(x + pat, pat) == Some(|x|)
    ensures Split(x + pat + rest, pat) == [x] + Split(rest, pat)
  {
    var s := x + pat + rest;
    FindThroughPrefix(x, pat, rest);
    assert s[..|x|] == x;
    assert s[|x| + |pat|..] == rest;
  }

  /** The text before the leftmost match holds no match of its own. */
  lemma PrefixBeforeFirstMatch(s: string, pat: string, i: nat)
    requires |pat| > 0 && OccursAt(s, pat, i)
    requires forall j :: 0 <= j < i ==> !OccursAt(s, pat, j)
    ensures !Contains(s[..i], pat)
    ensures s == s[..i] + pat + s[i + |pat|..]
  {
    forall j | 0 <= j <= i - |pat|
      ensures !OccursAt(s[..i], pat, j)
    {
      assert s[..i][j..j + |pat|] == s[j..j + |pat|];
      assert !OccursAt(s, pat, j);
    }
  }

  /** When no piece contains the first character of `pat`, `Find` stops at the
      separator that follows the first piece. */
  lemma {:induction false} FindAfterPiece(x: string, pat: string, rest: string)
    requires |pat| > 0 && pat[0] !in x
    ensures Find(x + pat + rest, pat) == Some(|x|)
  {
    var s := x + pat + rest;
    assert s[|x|..|x| + |pat|] == pat;
    assert OccursAt(s, pat, |x|);
    forall j | 0 <= j < |x|
      ensures !OccursAt(s, pat, j)
    {
      assert s[j] == x[j];
    }
  }

  /** A string without the first character of `pat` contains no match. */
  lemma FindInPieceFails(x: string, pat: string)
    requires |pat| > 0 && pat[0] !in x
    ensures Find(x, pat) == None
  {
    forall j | 0 <= j <= |x| - |pat|
      ensures !OccursAt(x, pat, j)
    {
      assert x[j..j + |pat|][0] == x[j];
    }
  }

  /** `Split` undoes `Join` when no piece contains the separator's first
      character; in particular a single-character split is unique. */
  lemma {:induction false} SplitJoin(pieces: seq<string>, pat: string)
    requires |pat| > 0 && |pieces| > 0
    requires forall k :: 0 <= k < |pieces| ==> pat[0] !in pieces[k]
    ensures Split(Join(pieces, pat), pat) == pieces
    decreases |pieces|
  {
    if |pieces| == 1 {
      FindInPieceFails(pieces[0], pat);
    } else {
      SplitJoin(pieces[1..], pat);
      SplitAfterPiece(pieces[0], pat, Join(pieces[1..], pat));
      assert pieces == [pieces[0]] + pieces[1..];
    }
  }

  /** Splitting `x + pat + rest`, where `x` cannot hold a match, yields `x`
      followed by the split of `rest`. */
  lemma SplitAfterPiece(x: string, pat: string, rest: string)
    requires |pat| > 0 && pat[0] !in x
    ensures Split(x + pat + rest, pat) == [x] + Split(rest, pat)
  {
    var s := x + pat + rest;
    FindAfterPiece(x, pat, rest);
    assert s[..|x|] == x;
    assert s[|x| + |pat|..] == rest;
  }

  /** For one character `c`, "contains the pattern" is plain membership. */
  lemma ContainsChar(s: string, c: char)
    ensures Contains(s, [c]) <==> c in s
  {
    if c in s {
      var i :| 0 <= i < |s| && s[i] == c;
      assert s[i..i + 1] == [c];
      assert OccursAt(s, [c], i);
    }
    if Contains(s, [c]) {
      var i :| 0 <= i <= |s| - 1 && OccursAt(s, [c], i);
      assert s[i..i + 1][0] == s[i];
    }
  }

  /** A single-character split is characterised by its inverse: a sequence of
      pieces is the split of `s` exactly when it is non-empty, joins back to
      `s`, and no piece holds the separator. */
  lemma SplitCharUnique(s: string, c: char, pieces: seq<string>)
    ensures Split(s, [c]) == pieces <==>
      (|pieces| > 0 && Join(pieces, [c]) == s
       && forall k :: 0 <= k < |pieces| ==> c !in pieces[k])
  {
    var split := Split(s, [c]);
    forall k | 0 <= k < |split|
      ensures c !in split[k]
    {
      ContainsChar(split[k], c);
    }
    if |pieces| > 0 && Join(pieces, [c]) == s && forall k :: 0 <= k < |pieces| ==> c !in pieces[k] {
      SplitJoin(pieces, [c]);
    }
  }

  /** A single-character split has one piece more than there are separators. */
  lemma {:induction false} SplitCharCount(s: string, c: char)
    ensures |Split(s, [c])| == multiset(s)[c] + 1
    decreases |s|
  {
    match Find(s, [c])
    case None =>
      ContainsChar(s, c);
    case Some(i) =>
      PrefixBeforeFirstMatch(s, [c], i);
      ContainsChar(s[..i], c);
      var rest := s[i + 1..];
      assert s == s[..i] + [c] + rest;
      assert multiset(s) == multiset(s[..i]) + multiset([c]) + multiset(rest);
      SplitCharCount(rest, c);
  }

  /** Every piece of a join occurs in the joined text. */
  lemma {:induction false} PieceOccursInJoin(pieces: seq<string>, sep: string, k: nat)
    requires k < |pieces|
    ensures Contains(Join(pieces, sep), pieces[k])
    decreases |pieces|
  {
    var s := Join(pieces, sep);
    if |pieces| == 1 {
      assert OccursAt(s, pieces[0], 0);
    } else if k == 0 {
      assert s[0..|pieces[0]|] == pieces[0];
      assert OccursAt(s, pieces[0], 0);
    } else {
      var tail := Join(pieces[1..], sep);
      PieceOccursInJoin(pieces[1..], sep, k - 1);
      var i :| 0 <= i <= |tail| - |pieces[k]| && OccursAt(tail, pieces[k], i);
      var off := |pieces[0]| + |sep|;
      assert s == pieces[0] + sep + tail;
      assert s[off + i..off + i + |pieces[k]|] == tail[i..i + |pieces[k]|];
      assert OccursAt(s, pieces[k], off + i);
    }
  }

  /** The last piece of a join is a suffix of the joined text, and it follows a
      separator unless it is the only piece. */
  lemma LastPieceOfJoin(pieces: seq<string>, sep: string)
    requires |pieces| > 0
    ensures var s := Join(pieces, sep); var p := pieces[|pieces| - 1];
      EndsWith(s, p)
      && (|pieces| > 1 ==> OccursAt(s, sep, |s| - |p| - |sep|))
  {
    var s := Join(pieces, sep);
    var p := pieces[|pieces| - 1];
    if |pieces| > 1 {
      var init := Join(pieces[..|pieces| - 1], sep);
      JoinSnoc(pieces, sep);
      assert s[|s| - |p|..] == p;
      assert s[|init|..|init| + |sep|] == sep;
    }
  }

  /** A join of two or more pieces is the join of all but the last, the
      separator, and the last piece. */
  lemma {:induction false} JoinSnoc(pieces: seq<string>, sep: string)
    requires |pieces| > 1
    ensures Join(pieces, sep) == Join(pieces[..|pieces| - 1], sep) + sep + pieces[|pieces| - 1]
    decreases |pieces|
  {
    var n := |pieces|;
    var init := pieces[..n - 1];
    if n == 2 {
      assert Join(pieces[1..], sep) == pieces[1];
      assert Join(init, sep) == pieces[0];
    } else {
      JoinSnoc(pieces[1..], sep);
      assert pieces[1..][..n - 2] == init[1..];
      assert pieces[1..][n - 2] == pieces[n - 1];
      assert Join(init, sep) == pieces[0] + sep + Join(init[1..], sep);
    }
  }

  /** Substrings of substrings are substrings. */
  lemma ContainsTransitive(a: string, b: string, c: string)
    requires Contains(a, b) && Contains(b, c)
    ensures Contains(a, c)
  {
    var i :| 0 <= i <= |a| - |b| && OccursAt(a, b, i);
    var j :| 0 <= j <= |b| - |c| && OccursAt(b, c, j);
    assert a[i + j..i + j + |c|] == c by {
      forall k | 0 <= k < |c|
        ensures a[i + j..i + j + |c|][k] == c[k]
      {
        assert c[k] == b[j..j + |c|][k] == b[j + k];
        assert b[j + k] == a[i..i + |b|][j + k] == a[i + j + k];
      }
    }
    assert OccursAt(a, c, i + j);
  }

  /** The leftmost match is the only match with no match before it. */
  lemma FindIsLeftmost(s: string, pat: string, i: nat)
    requires OccursAt(s, pat, i)
    requires forall j :: 0 <= j < i ==> !OccursAt(s, pat, j)
    ensures Find(s, pat) == Some(i)
  {
    assert Contains(s, pat);
    var r := Find(s, pat).value;
    assert !(r < i);
  }

  /** Occurrences in `a + b` from index `|a|` on are the occurrences in `b`,
      shifted by `|a|`. */
  lemma OccursAtShift(a: string, b: string, pat: string, i: nat)
    ensures OccursAt(a + b, pat, |a| + i) <==> OccursAt(b, pat, i)
  {
    if i + |pat| <= |b| {
      ShiftedSlice(a, b, i, |pat|);
    }
  }

  /** Slicing past a prefix is slicing the remainder. */
  lemma ShiftedSlice(a: string, b: string, j: nat, n: nat)
    requires j + n <= |b|
    ensures (a + b)[|a| + j..|a| + j + n] == b[j..j + n]
  {
  }
}
