/** The two request-slicing helpers of backend/src/main.rs.

    `GetId` is `get_id`: split the raw request on `/`, take the piece at
    index 4, and keep its first whitespace-delimited token, with the empty
    string standing in for every missing piece. `RequestBody` is the slice
    that `get_user_request_body` hands to the JSON decoder: the last piece of
    the request split on the blank line `\r\n\r\n` that ends an HTTP/1.1
    message head (section 2.1 of RFC 9112). */
module Request {
  import opened Options
  import opened Strings
  import opened Whitespace

  const PATH_SEPARATOR: string := "/"

  /** `get_id` takes the piece at this index of the `/`-split request. */
  const ID_PIECE: nat := 4

  /** `get_id`: the id token is free of whitespace and `/`, and it is a
      contiguous slice of the request. */
  function GetId(request: string): (id: string)
    ensures NoWhitespace(id)
    ensures '/' !in id
    ensures Contains(request, id)
  {
    var pieces := Split(request, PATH_SEPARATOR);
    var piece := UnwrapOrDefault(Nth(pieces, ID_PIECE));
    var id := FirstToken(piece);
    IdInsidePiece(request, pieces, piece, id);
    id
  }

  /** The token taken from a piece is a slice of the request and inherits the
      piece's freedom from `/`; stated over the contract of `Split`. */
  lemma IdInsidePiece(request: string, pieces: seq<string>, piece: string, id: string)
    requires |pieces| > 0 && Join(pieces, PATH_SEPARATOR) == request
    requires forall k :: 0 <= k < |pieces| ==> !Contains(pieces[k], PATH_SEPARATOR)
    requires piece == UnwrapOrDefault(Nth(pieces, ID_PIECE))
    requires id == FirstToken(piece)
    ensures '/' !in id
    ensures Contains(request, id)
  {
    var k := LeadingSpace(piece);
    assert OccursAt(piece, id, k);
    if ID_PIECE < |pieces| {
      PieceOccursInJoin(pieces, PATH_SEPARATOR, ID_PIECE);
      ContainsChar(piece, '/');
      SliceLacks(piece, id, k, '/');
    } else {
      assert OccursAt(request, piece, 0);
    }
    ContainsTransitive(request, piece, id);
  }

  /** A slice of a text lacks every character the text lacks. */
  lemma SliceLacks(s: string, t: string, k: int, c: char)
    requires OccursAt(s, t, k) && c !in s
    ensures c !in t
  {
    assert forall i :: 0 <= i < |t| ==> t[i] == s[k + i];
  }

  /** With fewer than four `/` characters there is no piece at index 4, so the
      id is empty. */
  lemma GetIdNeedsFourSlashes(request: string)
    requires multiset(request)['/'] < 4
    ensures GetId(request) == ""
  {
    SplitCharCount(request, '/');
  }

  /** The id of a request made of `/`-free pieces joined by `/` is the first
      token of the piece at index 4. Empty pieces count: `a//b` has three
      pieces, the middle one empty. */
  lemma GetIdOfPieces(pieces: seq<string>)
    requires |pieces| > ID_PIECE
    requires forall k :: 0 <= k < |pieces| ==> '/' !in pieces[k]
    ensures GetId(Join(pieces, PATH_SEPARATOR)) == FirstToken(pieces[ID_PIECE])
  {
    SplitJoin(pieces, PATH_SEPARATOR);
  }

  /** A request made of at most four `/`-free pieces has an empty id. */
  lemma GetIdOfFewPieces(pieces: seq<string>)
    requires 0 < |pieces| <= ID_PIECE
    requires forall k :: 0 <= k < |pieces| ==> '/' !in pieces[k]
    ensures GetId(Join(pieces, PATH_SEPARATOR)) == ""
  {
    SplitJoin(pieces, PATH_SEPARATOR);
  }

  /** On a real request line for `/api/users/7` the piece at index 4 is the
      protocol version after `HTTP/`, so `get_id` yields `1.1`, not `7`. */
  lemma GetIdOnUsersPath(request: string)
    requires request == "GET /api/users/7 HTTP/1.1"
    ensures GetId(request) == "1.1"
  {
    var pieces := ["GET ", "api", "users", "7 HTTP", "1.1"];
    TokenIsItsOwnFirstToken(pieces[4]);
    JoinUsersPath(pieces);
    SlashFreePieces(pieces);
    GetIdOfPieces(pieces);
  }

  /** A piece that opens with a token followed by a space yields that token. */
  lemma TokenBeforeSpace(piece: string, n: nat)
    requires n < |piece| && piece[n] == ' '
    requires n > 0 && NoWhitespace(piece[..n])
    ensures FirstToken(piece) == piece[..n]
  {
    FirstTokenOfDecomposition([], piece[..n], piece[n..]);
    assert [] + piece[..n] + piece[n..] == piece;
  }

  lemma TokenIsItsOwnFirstToken(t: string)
    requires |t| > 0 && NoWhitespace(t)
    ensures FirstToken(t) == t
  {
    FirstTokenOfDecomposition([], t, []);
    assert [] + t + [] == t;
  }

  lemma JoinUsersPath(pieces: seq<string>)
    requires pieces == ["GET ", "api", "users", "7 HTTP", "1.1"]
    ensures Join(pieces, PATH_SEPARATOR) == "GET /api/users/7 HTTP/1.1"
  {
    JoinFive(pieces, PATH_SEPARATOR);
  }

  /** An empty path segment moves the id one piece to the right: for
      `/api//users/9` the piece at index 4 begins with `9`. */
  lemma GetIdWithEmptySegment(request: string)
    requires request == "DELETE /api//users/9 HTTP/1.1"
    ensures GetId(request) == "9"
  {
    var pieces := ["DELETE ", "api", "", "users", "9 HTTP", "1.1"];
    TokenBeforeSpace(pieces[4], 1);
    JoinEmptySegmentPath(pieces);
    SlashFreePieces(pieces);
    GetIdOfPieces(pieces);
  }

  lemma JoinEmptySegmentPath(pieces: seq<string>)
    requires pieces == ["DELETE ", "api", "", "users", "9 HTTP", "1.1"]
    ensures Join(pieces, PATH_SEPARATOR) == "DELETE /api//users/9 HTTP/1.1"
  {
    JoinFive(pieces[1..], PATH_SEPARATOR);
    assert Join(pieces, PATH_SEPARATOR) == pieces[0] + PATH_SEPARATOR + Join(pieces[1..], PATH_SEPARATOR);
  }

  lemma SlashFreePieces(pieces: seq<string>)
    requires pieces == ["GET ", "api", "users", "7 HTTP", "1.1"]
          || pieces == ["DELETE ", "api", "", "users", "9 HTTP", "1.1"]
    ensures forall k :: 0 <= k < |pieces| ==> '/' !in pieces[k]
  {
  }

  /** Joining five pieces, spelled out. */
  lemma JoinFive(p: seq<string>, sep: string)
    requires |p| == 5
    ensures Join(p, sep) == p[0] + sep + p[1] + sep + p[2] + sep + p[3] + sep + p[4]
  {
    assert Join(p[4..], sep) == p[4];
    assert Join(p[3..], sep) == p[3] + sep + Join(p[3..][1..], sep);
    assert p[3..][1..] == p[4..];
    assert Join(p[2..], sep) == p[2] + sep + Join(p[2..][1..], sep);
    assert p[2..][1..] == p[3..];
    assert Join(p[1..], sep) == p[1] + sep + Join(p[1..][1..], sep);
    assert p[1..][1..] == p[2..];
  }

  /** The slice of `get_user_request_body`: `split("\r\n\r\n").last()`.
      It is a suffix of the request that holds no blank line. */
  function RequestBody(request: string): (body: string)
    ensures EndsWith(request, body)
    ensures !Contains(body, BLANK_LINE)
  {
    var pieces := Split(request, BLANK_LINE);
    LastPieceFacts(request, pieces);
    UnwrapOrDefault(Last(pieces))
  }

  /** Where the slice starts: unless it is the whole request it directly
      follows a blank line, and it is the whole request when the request has
      no blank line at all. */
  lemma RequestBodyBoundary(request: string)
    ensures var body := RequestBody(request);
      && (|body| < |request| ==> OccursAt(request, BLANK_LINE, |request| - |body| - |BLANK_LINE|))
      && (!Contains(request, BLANK_LINE) ==> body == request)
  {
    LastPieceFacts(request, Split(request, BLANK_LINE));
  }

  /** What the last piece of a split at the blank line is, stated over the
      contract of `Split` alone. */
  lemma LastPieceFacts(request: string, pieces: seq<string>)
    requires |pieces| > 0 && Join(pieces, BLANK_LINE) == request
    requires forall k :: 0 <= k < |pieces| ==> !Contains(pieces[k], BLANK_LINE)
    ensures var p := pieces[|pieces| - 1];
      && EndsWith(request, p)
      && !Contains(p, BLANK_LINE)
      && (|p| < |request| ==> OccursAt(request, BLANK_LINE, |request| - |p| - |BLANK_LINE|))
      && (!Contains(request, BLANK_LINE) ==> p == request)
  {
    LastPieceOfJoin(pieces, BLANK_LINE);
    var p := pieces[|pieces| - 1];
    if |pieces| > 1 {
      assert OccursAt(request, BLANK_LINE, |request| - |p| - |BLANK_LINE|);
    }
  }

  /** The slice is the last piece of the one leftmost splitting of the request
      at the blank line, so it is fixed for every request. */
  lemma RequestBodyOfSplitting(request: string, pieces: seq<string>)
    requires LeftmostSplitting(request, BLANK_LINE, pieces)
    ensures RequestBody(request) == pieces[|pieces| - 1]
  {
    SplitUnique(request, BLANK_LINE, pieces);
  }

  /** Four line breaks after `A` are two blank lines taken whole, so the
      slice is empty, unlike the three line breaks of
      `BodyWithOverlappingBlankLines`. */
  lemma BodyAfterFourLineBreaks()
    ensures RequestBody("A\r\n\r\n\r\n\r\n") == ""
  {
    var pieces := ["A", "", ""];
    assert Join(pieces[1..], BLANK_LINE) == BLANK_LINE by {
      assert pieces[1..][1..] == [""];
    }
    assert Join(pieces, BLANK_LINE) == "A\r\n\r\n\r\n\r\n";
    var a := "A" + BLANK_LINE;
    assert a[0..4][0] == 'A';
    assert a[1..5] == BLANK_LINE;
    FindIsLeftmost(a, BLANK_LINE, 1);
    assert ("" + BLANK_LINE)[0..4] == BLANK_LINE;
    FindIsLeftmost("" + BLANK_LINE, BLANK_LINE, 0);
    RequestBodyOfSplitting("A\r\n\r\n\r\n\r\n", pieces);
  }

  /** `split(..).last()` always yields a piece: the default of
      `unwrap_or_default` is never used. */
  lemma RequestBodyNeverDefaults(request: string)
    ensures Last(Split(request, BLANK_LINE)).Some?
  {
  }

  /** A request that ends in a blank line has an empty body or the body
      `\r\n`, and `\r\n` only when it ends in at least three line breaks:
      matches are taken from the left and never overlap, so a final `\r\n`
      can be left over. Which of the two it is depends on how the leftmost
      matches fall (`BodyWithOverlappingBlankLines`,
      `BodyAfterFourLineBreaks`). */
  lemma BodyOfTerminatedRequest(request: string)
    requires EndsWith(request, BLANK_LINE)
    ensures RequestBody(request) == "" || RequestBody(request) == CRLF
    ensures !EndsWith(request, CRLF + BLANK_LINE) ==> RequestBody(request) == ""
  {
    RequestBodyBoundary(request);
    TerminatedBody(request, RequestBody(request));
  }

  /** The same fact stated over the contract of `RequestBody` alone. */
  lemma TerminatedBody(request: string, body: string)
    requires EndsWith(request, BLANK_LINE)
    requires EndsWith(request, body) && !Contains(body, BLANK_LINE)
    requires |body| < |request| ==> OccursAt(request, BLANK_LINE, |request| - |body| - |BLANK_LINE|)
    ensures body == "" || body == CRLF
    ensures !EndsWith(request, CRLF + BLANK_LINE) ==> body == ""
  {
    ShortSuffix(request, body);
    ShortTailAfterBlankLine(request, body);
  }

  /** A suffix of a blank-line-terminated text that holds no blank line is
      shorter than one. */
  lemma ShortSuffix(s: string, tail: string)
    requires EndsWith(s, BLANK_LINE) && EndsWith(s, tail) && !Contains(tail, BLANK_LINE)
    ensures |tail| < |BLANK_LINE|
  {
    if |tail| >= 4 {
      assert tail[|tail| - 4..] == s[|s| - 4..];
      assert OccursAt(tail, BLANK_LINE, |tail| - 4);
    }
  }

  /** A suffix shorter than a blank line that follows a blank line, in a text
      that ends in a blank line, is empty or a lone `\r\n`. */
  lemma ShortTailAfterBlankLine(s: string, tail: string)
    requires EndsWith(s, BLANK_LINE) && EndsWith(s, tail) && |tail| < |BLANK_LINE|
    requires OccursAt(s, BLANK_LINE, |s| - |tail| - |BLANK_LINE|)
    ensures tail == "" || tail == CRLF
    ensures tail == CRLF ==> EndsWith(s, CRLF + BLANK_LINE)
  {
    var n := |s|;
    var m := n - |tail|;
    BlankLineAt(s, m - 4);
    BlankLineAt(s, n - 4);
    assert |tail| == 0 || |tail| == 2;
    if |tail| == 2 {
      assert tail == s[n - 2..];
      assert tail[0] == s[n - 2] && tail[1] == s[n - 1];
      assert tail == CRLF;
      var end := s[n - 6..];
      assert end[..4] == s[n - 6..n - 2] == BLANK_LINE;
      assert end[4..] == tail;
      assert end == end[..4] + end[4..];
      assert CRLF + BLANK_LINE == BLANK_LINE + CRLF;
    }
  }

  /** The characters of a blank line found at index `i`. */
  lemma BlankLineAt(s: string, i: int)
    requires OccursAt(s, BLANK_LINE, i)
    ensures s[i] == '\r' && s[i + 1] == '\n' && s[i + 2] == '\r' && s[i + 3] == '\n'
  {
    assert s[i..i + 4] == BLANK_LINE;
    assert s[i..i + 4][0] == s[i] && s[i..i + 4][1] == s[i + 1];
    assert s[i..i + 4][2] == s[i + 2] && s[i..i + 4][3] == s[i + 3];
  }

  /** The leftmost blank line of a message head `line CRLF ... line CRLF CRLF`
      is the one that ends it, when no line is empty or holds a `\r`. */
  lemma FindEndOfHead(lines: seq<string>, rest: string)
    requires |lines| > 0
    requires forall k :: 0 <= k < |lines| ==> |lines[k]| > 0 && '\r' !in lines[k]
    ensures Find(Join(lines, CRLF) + BLANK_LINE + rest, BLANK_LINE) == Some(|Join(lines, CRLF)|)
  {
    var head := Join(lines, CRLF);
    var s := head + BLANK_LINE + rest;
    assert s[|head|..|head| + 4] == BLANK_LINE;
    NoBlankLineInHead(lines, rest);
    FindIsLeftmost(s, BLANK_LINE, |head|);
  }

  /** No blank line starts inside such a head. */
  lemma {:induction false} NoBlankLineInHead(lines: seq<string>, rest: string)
    requires |lines| > 0
    requires forall k :: 0 <= k < |lines| ==> |lines[k]| > 0 && '\r' !in lines[k]
    ensures forall j :: 0 <= j < |Join(lines, CRLF)| ==>
      !OccursAt(Join(lines, CRLF) + BLANK_LINE + rest, BLANK_LINE, j)
    decreases |lines|
  {
    var s := Join(lines, CRLF) + BLANK_LINE + rest;
    if |lines| == 1 {
      forall j | 0 <= j < |lines[0]|
        ensures !OccursAt(s, BLANK_LINE, j)
      {
        assert s[j] == lines[0][j];
        assert s[j..j + 4][0] == s[j];
      }
    } else {
      var first := lines[0] + CRLF;
      var tail := Join(lines[1..], CRLF) + BLANK_LINE + rest;
      assert s == first + tail;
      assert tail[0] == lines[1][0];
      NoBlankLineInHead(lines[1..], rest);
      forall j | 0 <= j < |first|
        ensures !OccursAt(s, BLANK_LINE, j)
      {
        if j < |lines[0]| {
          assert s[j] == lines[0][j];
          assert s[j..j + 4][0] == s[j];
        } else if j == |lines[0]| {
          assert s[j + 2] == tail[0];
          assert s[j..j + 4][2] == s[j + 2];
        } else {
          assert s[j] == '\n';
          assert s[j..j + 4][0] == s[j];
        }
      }
      forall j | |first| <= j < |Join(lines, CRLF)|
        ensures !OccursAt(s, BLANK_LINE, j)
      {
        OccursAtShift(first, tail, BLANK_LINE, j - |first|);
      }
    }
  }

  /** For a message made of a head of non-empty, `\r`-free lines, the blank
      line, and a body without a blank line of its own, the slice is exactly
      the body. */
  lemma BodyAfterHead(lines: seq<string>, body: string)
    requires |lines| > 0
    requires forall k :: 0 <= k < |lines| ==> |lines[k]| > 0 && '\r' !in lines[k]
    requires !Contains(body, BLANK_LINE)
    ensures RequestBody(Join(lines, CRLF) + BLANK_LINE + body) == body
  {
    var head := Join(lines, CRLF);
    var s := head + BLANK_LINE + body;
    FindEndOfHead(lines, body);
    assert s[|head| + |BLANK_LINE|..] == body;
    assert Split(s, BLANK_LINE) == [s[..|head|]] + Split(body, BLANK_LINE);
  }

  /** A create request: the slice is the JSON object after the head. */
  lemma BodyOfCreateRequest()
    ensures RequestBody("POST /api/users HTTP/1.1" + "\r\n" + "Content-Type: application/json"
                        + "\r\n\r\n" + "{\"name\":\"Ada\",\"email\":\"ada@x.com\"}")
         == "{\"name\":\"Ada\",\"email\":\"ada@x.com\"}"
  {
    CreateRequestLinesClean();
    CreateRequestBodyClean();
    var lines := ["POST /api/users HTTP/1.1", "Content-Type: application/json"];
    assert Join(lines[1..], CRLF) == lines[1];
    assert Join(lines, CRLF) == lines[0] + CRLF + lines[1];
    BodyAfterHead(lines, "{\"name\":\"Ada\",\"email\":\"ada@x.com\"}");
  }

  lemma CreateRequestLinesClean()
    ensures '\r' !in "POST /api/users HTTP/1.1"
    ensures '\r' !in "Content-Type: application/json"
  {
  }

  lemma CreateRequestBodyClean()
    ensures !Contains("{\"name\":\"Ada\",\"email\":\"ada@x.com\"}", BLANK_LINE)
  {
    FindInPieceFails("{\"name\":\"Ada\",\"email\":\"ada@x.com\"}", BLANK_LINE);
  }

  /** Overlapping blank lines: in `A\r\n\r\n\r\n` the only match taken is the
      leftmost one, so the slice is the leftover `\r\n` and not the text after
      the last occurrence, which would be empty. */
  lemma BodyWithOverlappingBlankLines()
    ensures RequestBody("A\r\n\r\n\r\n") == CRLF
  {
    var s := "A\r\n\r\n\r\n";
    assert OccursAt(s, BLANK_LINE, 1);
    assert s[0] == 'A' && s[0..4][0] == s[0];
    FindIsLeftmost(s, BLANK_LINE, 1);
    assert s[5..] == CRLF;
    assert Split(s, BLANK_LINE) == [s[..1]] + Split(CRLF, BLANK_LINE);
  }
}
