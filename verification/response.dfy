/** The three fixed response prefixes of backend/src/main.rs. Each is an
    HTTP/1.1 message head written out in full; what each one says is read off
    by parsing it with the grammar of `MessageHead`. */
module Response {
  import opened Options
  import opened Strings
  import opened Request
  import opened MessageHead

  /** The three prefixes, line by line exactly as in the source. */
  const OK_RESPONSE: string :=
      "HTTP/1.1 200 OK\r\n"
    + "Content-Type: application/json\r\n"
    + "Access-Control-Allow-Origin: *\r\n"
    + "Access-Control-Allow-Methods: GET, POST, PUT, DELETE\r\n"
    + "Access-Control-Allow-Headers: Content-Type\r\n"
    + "\r\n"

  const NOT_FOUND: string := "HTTP/1.1 404 NOT Found\r\n\r\n"

  const INTERNAL_ERROR: string := "HTTP/1.1 500 INTERNAL ERROR\r\n\r\n"

  /** The outcomes a handler can report. */
  datatype Status = Ok | NotFound | InternalError

  /** The prefix written for each outcome. */
  function Prefix(st: Status): (s: string)
  {
    match st
    case Ok => OK_RESPONSE
    case NotFound => NOT_FOUND
    case InternalError => INTERNAL_ERROR
  }

  /** The head each prefix is meant to carry. */
  function HeadOf(st: Status): (h: Head)
  {
    match st
    case Ok =>
      Head(200, "OK", [
        Field("Content-Type", "application/json"),
        Field("Access-Control-Allow-Origin", "*"),
        Field("Access-Control-Allow-Methods", "GET, POST, PUT, DELETE"),
        Field("Access-Control-Allow-Headers", "Content-Type")])
    case NotFound => Head(404, "NOT Found", [])
    case InternalError => Head(500, "INTERNAL ERROR", [])
  }

  lemma OkStatusLine()
    ensures StatusLine(HeadOf(Ok)) + CRLF == "HTTP/1.1 200 OK\r\n"
  {
  }

  lemma ContentTypeLine()
    ensures FieldLine(Field("Content-Type", "application/json")) + CRLF == "Content-Type: application/json\r\n"
  {
  }

  lemma AllowOriginLine()
    ensures FieldLine(Field("Access-Control-Allow-Origin", "*")) + CRLF == "Access-Control-Allow-Origin: *\r\n"
  {
  }

  lemma AllowMethodsLine()
    ensures FieldLine(Field("Access-Control-Allow-Methods", "GET, POST, PUT, DELETE")) + CRLF
         == "Access-Control-Allow-Methods: GET, POST, PUT, DELETE\r\n"
  {
    assert "Access-Control-Allow-Methods: GET, POST, PUT, DELETE\r\n"
        == "Access-Control-Allow-Methods: " + "GET, POST, PUT, DELETE\r\n";
  }

  lemma AllowHeadersLine()
    ensures FieldLine(Field("Access-Control-Allow-Headers", "Content-Type")) + CRLF == "Access-Control-Allow-Headers: Content-Type\r\n"
  {
  }

  lemma OkIsRendered()
    ensures OK_RESPONSE == Render(HeadOf(Ok))
  {
    OkStatusLine();
    ContentTypeLine();
    AllowOriginLine();
    AllowMethodsLine();
    AllowHeadersLine();
    RenderFourFields(HeadOf(Ok),
      "HTTP/1.1 200 OK\r\n",
      "Content-Type: application/json\r\n",
      "Access-Control-Allow-Origin: *\r\n",
      "Access-Control-Allow-Methods: GET, POST, PUT, DELETE\r\n",
      "Access-Control-Allow-Headers: Content-Type\r\n");
  }

  lemma NotFoundIsRendered()
    ensures NOT_FOUND == Render(HeadOf(NotFound))
  {
  }

  lemma InternalErrorIsRendered()
    ensures INTERNAL_ERROR == Render(HeadOf(InternalError))
  {
  }

  /** Each prefix is its head written out in the HTTP/1.1 grammar. */
  lemma PrefixIsRendered(st: Status)
    ensures HeadOf(st).code < 1000
    ensures Prefix(st) == Render(HeadOf(st))
  {
    match st
    case Ok => OkIsRendered();
    case NotFound => NotFoundIsRendered();
    case InternalError => InternalErrorIsRendered();
  }

  /** The heads behind the prefixes can all be carried by the grammar. */
  lemma HeadOfWellFormed(st: Status)
    ensures WellFormed(HeadOf(st))
  {
    if st == Ok {
      var fs := HeadOf(Ok).fields;
      OkFieldsOk(fs);
    }
  }

  lemma OkFieldsOk(fs: seq<Field>)
    requires fs == HeadOf(Ok).fields
    ensures forall k :: 0 <= k < |fs| ==> FieldOk(fs[k])
  {
    ContentTypeOk();
    AllowOriginOk();
    AllowMethodsOk();
    AllowHeadersOk();
  }

  lemma ContentTypeOk()
    ensures NameOk("Content-Type") && ValueOk("application/json")
  {
  }

  lemma AllowOriginOk()
    ensures NameOk("Access-Control-Allow-Origin") && ValueOk("*")
  {
  }

  lemma AllowMethodsOk()
    ensures NameOk("Access-Control-Allow-Methods") && ValueOk("GET, POST, PUT, DELETE")
  {
  }

  lemma AllowHeadersOk()
    ensures NameOk("Access-Control-Allow-Headers") && ValueOk("Content-Type")
  {
  }

  /** Reading a prefix back as an HTTP/1.1 head gives its status code, its
      reason phrase and its fields. */
  lemma PrefixParses(st: Status)
    ensures ParseHead(Prefix(st)) == Some(HeadOf(st))
  {
    PrefixIsRendered(st);
    HeadOfWellFormed(st);
    ParseRender(HeadOf(st));
  }

  /** Every prefix opens with the protocol version and closes the head with
      the blank line, so whatever follows it is the body. */
  lemma PrefixShape(st: Status)
    ensures StartsWith(Prefix(st), VERSION + " ")
    ensures EndsWith(Prefix(st), BLANK_LINE)
  {
    PrefixIsRendered(st);
    RenderShape(HeadOf(st));
  }

  /** The status code each prefix announces. */
  lemma PrefixCodes(st: Status)
    ensures ParseHead(Prefix(st)).Some?
    ensures ParseHead(Prefix(st)).value.code == (match st case Ok => 200 case NotFound => 404 case InternalError => 500)
  {
    PrefixParses(st);
  }

  /** Only the success prefix declares a JSON body and the cross-origin
      permissions; the two error prefixes carry no field at all. */
  lemma OnlyOkCarriesFields(st: Status, name: string)
    ensures ParseHead(Prefix(st)).Some?
    ensures HasField(ParseHead(Prefix(st)).value, name) <==> st == Ok && name in OK_FIELD_NAMES
  {
    PrefixParses(st);
    FieldsOfHead(st, name);
  }

  /** The field names of the success prefix. */
  const OK_FIELD_NAMES: set<string> := {
    "Content-Type",
    "Access-Control-Allow-Origin",
    "Access-Control-Allow-Methods",
    "Access-Control-Allow-Headers"
  }

  lemma FieldsOfHead(st: Status, name: string)
    ensures HasField(HeadOf(st), name) <==> st == Ok && name in OK_FIELD_NAMES
  {
    if st == Ok {
      var fs := HeadOf(Ok).fields;
      if name in OK_FIELD_NAMES {
        if name == "Content-Type" {
          assert fs[0].name == name;
        } else if name == "Access-Control-Allow-Origin" {
          assert fs[1].name == name;
        } else if name == "Access-Control-Allow-Methods" {
          assert fs[2].name == name;
        } else {
          assert fs[3].name == name;
        }
      }
    }
  }

  /** A body written after a well-formed head is exactly what the body slice
      of a request reads back, provided the body holds no blank line. */
  lemma BodyAfterRenderedHead(h: Head, body: string)
    requires WellFormed(h)
    requires !Contains(body, BLANK_LINE)
    ensures RequestBody(Render(h) + body) == body
  {
    RenderIsJoinedLines(h);
    HeadLinesClean(h);
    BodyAfterHead(HeadLines(h), body);
  }

  /** A body sent after any of the prefixes is what the body slice reads back
      from the whole message, provided the body holds no blank line. */
  lemma BodyAfterPrefix(st: Status, body: string)
    requires !Contains(body, BLANK_LINE)
    ensures RequestBody(Prefix(st) + body) == body
  {
    PrefixIsRendered(st);
    HeadOfWellFormed(st);
    BodyAfterRenderedHead(HeadOf(st), body);
  }
}
