# fastRustApi request slicing and response prefixes, in Dafny

The service in `backend/src/main.rs` is a small CRUD server. It handles raw
HTTP/1.1 by hand. This project models the string handling at its centre:

- `get_id` takes the id out of a request. It splits the raw request on `/`,
  takes the piece at index 4, and keeps the first whitespace-delimited token
  of that piece. Any missing piece or token becomes the empty string
  (`Request.GetId`).
- `get_user_request_body` decides which text goes to the JSON decoder. It
  splits the request on the blank line `\r\n\r\n` and takes the last piece
  (`Request.RequestBody`).
- `OK_RESPONSE`, `NOT_FOUND` and `INTERNAL_ERROR` are the three fixed
  prefixes every response starts with (`Response`).

The Rust library operations the source relies on are modelled one by one:

- `str::split` with a string pattern (`Strings.Split`). It matches from the
  left, matches never overlap, and empty pieces are kept.
- `split_whitespace` (`Whitespace.SplitWhitespace`).
- `nth`, `last`, `next` and `unwrap_or_default` (`Options`).

Each operation comes with an inverse or a reference definition:

- `Join` is the inverse of `Split`, and `LeftmostSplitting` describes the
  one splitting `Split` produces.
- `RemoveWhitespace` says which characters the tokens of `SplitWhitespace`
  hold, and `SplitWhitespaceCons` says where each token ends.
- `ParseHead` is the inverse of `Render`. `Render` writes a message head in
  the grammar of sections 4 and 5 of RFC 9112 (`MessageHead`). Each response
  prefix is proved to be a rendered head. Its status code, reason phrase and
  header fields are then read back by parsing.

Modules: `Options`, `Strings`, `Whitespace`, `Request`, `MessageHead`,
`Response`.

What the two helpers do on some inputs:

- `split("\r\n\r\n").last()` takes the last piece of the split, not the
  text after the first blank line. The two are the same when the body holds
  no blank line (`Request.BodyAfterHead`), and differ otherwise.
- Because matches never overlap, the last piece is not always the text after
  the last occurrence. For `A\r\n\r\n\r\n` the slice is `\r\n`
  (`Request.BodyWithOverlappingBlankLines`). For `A\r\n\r\n\r\n\r\n` it is
  empty (`Request.BodyAfterFourLineBreaks`).
- `split("/").nth(4)` counts the text before the path's first `/` as piece 0.
  On the request line `GET /api/users/7 HTTP/1.1`, the piece at index 4 is
  `1.1`, so `get_id` returns `1.1` and not `7` (`Request.GetIdOnUsersPath`).
- One extra path segment moves the id into index 4
  (`Request.GetIdWithEmptySegment`).
- The router is not part of this model, so it is not known which paths the
  service really receives. No lemma claims that `get_id` returns the id of
  `/api/users/<id>`.

## Model

| member | source | states |
|---|---|---|
| Options.Nth | backend/src/main.rs:71 | `nth(n)` yields a value exactly when `n` is an index of the sequence, and then it is the element at `n` |
| Options.Last | backend/src/main.rs:80 | `last()` yields a value exactly when the sequence is non-empty, and then it is the final element |
| Options.UnwrapOrDefault | backend/src/main.rs:72 | a missing string slice becomes the empty string; a present one is kept |
| Strings.Find | backend/src/main.rs:70 | the search `split` performs: a found index is an occurrence with no occurrence before it, and nothing is found exactly when the pattern does not occur |
| Strings.FindIsLeftmost | backend/src/main.rs:70 | the leftmost occurrence is the only index `Find` can return |
| Strings.Split | backend/src/main.rs:70 | `split` with a non-empty pattern gives at least one piece; joining the pieces with the pattern gives back the input; no piece contains the pattern; each separator is the leftmost match after the piece before it |
| Strings.SplitUnique | backend/src/main.rs:70 | for any non-empty pattern, a sequence of pieces is the split of `s` if and only if it is a leftmost splitting of `s`: non-empty, joins back to `s`, each separator is the leftmost match after its piece, and the last piece holds no match |
| Strings.SplitJoin | backend/src/main.rs:70 | splitting a join gives back the pieces, when no piece holds the separator's first character |
| Strings.SplitCharUnique | backend/src/main.rs:70 | for a one-character separator, a sequence of pieces is the split of `s` if and only if it is non-empty, joins back to `s`, and no piece holds the separator |
| Strings.SplitCharCount | backend/src/main.rs:70-71 | splitting on one character gives one more piece than the character occurs in the input |
| Whitespace.SplitWhitespace | backend/src/main.rs:73 | every token is non-empty and whitespace-free; there are no tokens exactly when the input is all whitespace |
| Whitespace.SplitWhitespaceCons | backend/src/main.rs:73 | the tokens are the maximal runs: leading whitespace, then a non-empty run followed by whitespace or the end, gives that run followed by the tokens of the rest |
| Whitespace.SplitWhitespaceKeepsCharacters | backend/src/main.rs:73 | the tokens, concatenated, are exactly the input with its whitespace removed |
| Whitespace.FirstToken | backend/src/main.rs:73-75 | the first token is whitespace-free; it is empty exactly when the input is all whitespace; it starts right after the leading whitespace and runs to the next whitespace or the end |
| Whitespace.FirstTokenOfDecomposition | backend/src/main.rs:73-75 | conversely, the first token of whitespace + token + (nothing or whitespace…) is that token |
| Request.GetId | backend/src/main.rs:68-76 | the id holds no whitespace and no `/`, and it is a contiguous slice of the request |
| Request.GetIdNeedsFourSlashes | backend/src/main.rs:69-72 | a request with fewer than four `/` has an empty id, because piece 4 does not exist |
| Request.GetIdOfPieces | backend/src/main.rs:68-76 | the id of `/`-free pieces joined by `/` is the first token of piece 4, with empty pieces counted |
| Request.GetIdOfFewPieces | backend/src/main.rs:68-76 | `/`-free pieces, at most four of them, joined by `/` give an empty id |
| Request.GetIdOnUsersPath | backend/src/main.rs:68-76 | on `GET /api/users/7 HTTP/1.1` the id is `1.1` |
| Request.GetIdWithEmptySegment | backend/src/main.rs:68-76 | on `DELETE /api//users/9 HTTP/1.1` the id is `9` |
| Request.RequestBody | backend/src/main.rs:80 | the slice is a suffix of the request and holds no blank line |
| Request.RequestBodyBoundary | backend/src/main.rs:80 | unless the slice is the whole request, a blank line directly precedes it; a request with no blank line is its own slice |
| Request.RequestBodyOfSplitting | backend/src/main.rs:80 | the slice is the last piece of the leftmost splitting of the request at the blank line, which `Strings.SplitUnique` makes unique |
| Request.BodyAfterFourLineBreaks | backend/src/main.rs:80 | on `A\r\n\r\n\r\n\r\n` the slice is empty: both blank lines are taken whole |
| Request.RequestBodyNeverDefaults | backend/src/main.rs:80 | `last()` always yields a piece, so the default of `unwrap_or_default` is never used |
| Request.BodyOfTerminatedRequest | backend/src/main.rs:80 | a request ending in a blank line has an empty body or the body `\r\n`, and `\r\n` is possible only when it ends in at least three line breaks |
| Request.BodyAfterHead | backend/src/main.rs:80 | for a head of non-empty `\r`-free lines, then the blank line, then a body without a blank line, the slice is exactly that body |
| Request.BodyOfCreateRequest | backend/src/main.rs:80 | a create request with a one-field head yields the JSON object `{"name":"Ada","email":"ada@x.com"}` |
| Request.BodyWithOverlappingBlankLines | backend/src/main.rs:80 | on `A\r\n\r\n\r\n` the slice is `\r\n`, not the empty text after the last blank line |
| MessageHead.CodeValue | backend/src/main.rs:24-26 | reading three digits gives a code below 1000 whose three-digit text is those digits |
| MessageHead.CodeRoundTrip | backend/src/main.rs:24-26 | reading back the three-digit text of a code gives the code |
| MessageHead.ParseRender | backend/src/main.rs:23-26 | parsing a rendered well-formed head gives back its code, reason phrase and fields |
| MessageHead.RenderShape | backend/src/main.rs:23-26 | a rendered head starts with `HTTP/1.1 ` and ends with the blank line |
| Response.BodyAfterRenderedHead | backend/src/main.rs:80 | the body slice of a rendered well-formed head followed by a body without a blank line is that body |
| Response.OkIsRendered | backend/src/main.rs:23-24 | `OK_RESPONSE` is the head 200 `OK` with `Content-Type: application/json` and the three `Access-Control-Allow-*` fields, rendered |
| Response.NotFoundIsRendered | backend/src/main.rs:25 | `NOT_FOUND` is the head 404 `NOT Found` with no fields, rendered |
| Response.InternalErrorIsRendered | backend/src/main.rs:26 | `INTERNAL_ERROR` is the head 500 `INTERNAL ERROR` with no fields, rendered |
| Response.PrefixIsRendered | backend/src/main.rs:23-26 | each prefix is the rendering of its head |
| Response.HeadOfWellFormed | backend/src/main.rs:23-26 | the status codes have three digits; every field name of the prefixes is non-empty, colon-free and on one line; every value is on one line and neither starts nor ends with a space or tab |
| Response.PrefixParses | backend/src/main.rs:23-26 | parsing each prefix gives its head |
| Response.PrefixShape | backend/src/main.rs:23-26 | each prefix starts with `HTTP/1.1 ` and ends with the blank line `\r\n\r\n` |
| Response.PrefixCodes | backend/src/main.rs:23-26 | the prefixes announce 200, 404 and 500 |
| Response.OnlyOkCarriesFields | backend/src/main.rs:23-26 | a prefix carries a field named `name` if and only if it is the success prefix and `name` is `Content-Type` or one of the three `Access-Control-Allow-*` names |
| Response.BodyAfterPrefix | backend/src/main.rs:23-26 | a body without a blank line, written after any prefix, is what the body slice reads back from the whole message |

## Left out

- `main`, lines 30-49: the TCP accept loop and its logging. These are I/O.
- `set_database`, lines 53-65, and `DB_URL`, line 19: the PostgreSQL
  connection and the schema statement. These are external calls.
- `handle_client`, line 43, with its routes and handlers. It is not part of
  this model: its text is not in `backend/src/main.rs`.
- The JSON decoding in `get_user_request_body`, line 80, and the `User`
  struct, lines 10-16. Only the slice handed to `serde_json::from_str` is
  modelled; the decoding is a foreign library call.
- Whitespace.FirstToken: only the six ASCII whitespace characters count as
  whitespace (space, tab, line feed, carriage return, vertical tab, form
  feed). Rust's `split_whitespace` also splits at the other Unicode
  `White_Space` characters, such as U+0085, U+00A0 and U+2028.
- Whitespace.SplitWhitespace: the same ASCII-only whitespace set as
  `FirstToken`.
- Strings are sequences of `char`, not UTF-8 bytes. Every pattern the source
  splits on is ASCII, so the pieces are the same, and no index into the
  original bytes is modelled.
