/** The HTTP/1.1 message-head grammar that the response prefixes of
    backend/src/main.rs follow (sections 4 and 5 of RFC 9112):

      status-line = HTTP-version SP status-code SP [ reason-phrase ]
      field-line  = field-name ":" OWS field-value OWS
      head        = status-line CRLF *( field-line CRLF ) CRLF

    `Render` writes a head in that grammar and `ParseHead` reads one back. */
module MessageHead {
  import opened Options
  import opened Strings

  const VERSION: string := "HTTP/1.1"

  datatype Field = Field(name: string, value: string)

  datatype Head = Head(code: nat, reason: string, fields: seq<Field>)

  predicate IsDigit(c: char)
  {
    '0' <= c <= '9'
  }

  /** Optional whitespace inside a field line: space or horizontal tab. */
  predicate IsOws(c: char)
  {
    c == ' ' || c == '\t'
  }

  predicate NoLineBreak(s: string)
  {
    '\r' !in s && '\n' !in s
  }

  /** A field name the grammar can carry: non-empty, no colon, one line. */
  predicate NameOk(name: string)
  {
    |name| > 0 && ':' !in name && NoLineBreak(name)
  }

  /** A field value the grammar gives back unchanged: one line, neither
      opening nor closing with the optional whitespace a reader drops. */
  predicate ValueOk(value: string)
  {
    && NoLineBreak(value)
    && (|value| == 0 || !IsOws(value[0]))
    && (|value| == 0 || !IsOws(value[|value| - 1]))
  }

  predicate FieldOk(f: Field)
  {
    NameOk(f.name) && ValueOk(f.value)
  }

  /** A head the grammar can carry: a three-digit status code, a reason phrase
      and fields without line breaks. */
  predicate WellFormed(h: Head)
  {
    && 100 <= h.code < 1000
    && NoLineBreak(h.reason)
    && forall k :: 0 <= k < |h.fields| ==> FieldOk(h.fields[k])
  }

  function DigitChar(d: nat): (c: char)
    requires d < 10
    ensures IsDigit(c)
  {
    (48 + d) as char
  }

  function DigitValue(c: char): (d: nat)
    requires IsDigit(c)
    ensures d < 10 && DigitChar(d) == c
  {
    c as int - 48
  }

  /** The status code as three decimal digits. */
  function CodeText(code: nat): (t: string)
    requires code < 1000
    ensures |t| == 3
    ensures IsDigit(t[0]) && IsDigit(t[1]) && IsDigit(t[2])
  {
    [DigitChar(code / 100), DigitChar(code / 10 % 10), DigitChar(code % 10)]
  }

  /** The value of three decimal digits. */
  function CodeValue(t: string): (code: nat)
    requires |t| == 3 && IsDigit(t[0]) && IsDigit(t[1]) && IsDigit(t[2])
    ensures code < 1000
    ensures CodeText(code) == t
  {
    var a, b, c := DigitValue(t[0]), DigitValue(t[1]), DigitValue(t[2]);
    DigitsOfCode(a, b, c);
    assert CodeText(100 * a + 10 * b + c) == [t[0], t[1], t[2]] == t;
    100 * a + 10 * b + c
  }

  /** The digits of a three-digit number. */
  lemma DigitsOfCode(a: nat, b: nat, c: nat)
    requires a < 10 && b < 10 && c < 10
    ensures (100 * a + 10 * b + c) / 100 == a
    ensures (100 * a + 10 * b + c) / 10 % 10 == b
    ensures (100 * a + 10 * b + c) % 10 == c
  {
    var n := 100 * a + 10 * b + c;
    assert n / 10 == 10 * a + b;
  }

  lemma DigitRoundTrip(d: nat)
    requires d < 10
    ensures DigitValue(DigitChar(d)) == d
  {
  }

  /** Reading the digits back gives the code. */
  lemma CodeRoundTrip(code: nat)
    requires code < 1000
    ensures CodeValue(CodeText(code)) == code
  {
    var a, b, c := code / 100, code / 10 % 10, code % 10;
    DigitRoundTrip(a);
    DigitRoundTrip(b);
    DigitRoundTrip(c);
    assert code == 100 * a + 10 * b + c;
  }

  function StatusLine(h: Head): (line: string)
    requires h.code < 1000
  {
    VERSION + " " + CodeText(h.code) + " " + h.reason
  }

  function FieldLine(f: Field): (line: string)
  {
    f.name + ": " + f.value
  }

  /** The field lines of a head, each ended by CRLF. */
  function FieldBlock(fields: seq<Field>): (block: string)
  {
    if |fields| == 0 then "" else FieldLine(fields[0]) + CRLF + FieldBlock(fields[1..])
  }

  /** A head written out: the status line, the field lines, the empty line. */
  function Render(h: Head): (s: string)
    requires h.code < 1000
  {
    StatusLine(h) + CRLF + FieldBlock(h.fields) + CRLF
  }

  /** The field lines of a head, without their line ends. */
  function FieldLineSeq(fields: seq<Field>): (lines: seq<string>)
    ensures |lines| == |fields|
    ensures forall k :: 0 <= k < |lines| ==> lines[k] == FieldLine(fields[k])
  {
    if |fields| == 0 then [] else [FieldLine(fields[0])] + FieldLineSeq(fields[1..])
  }

  /** The lines of a head, without their line ends. */
  function HeadLines(h: Head): (lines: seq<string>)
    requires h.code < 1000
    ensures |lines| == |h.fields| + 1
    ensures lines[0] == StatusLine(h)
    ensures lines[1..] == FieldLineSeq(h.fields)
  {
    [StatusLine(h)] + FieldLineSeq(h.fields)
  }

  /** Leading optional whitespace removed. */
  function SkipOws(s: string): (r: string)
    ensures |r| <= |s| && r == s[|s| - |r|..]
    ensures r == "" || !IsOws(r[0])
    ensures forall i :: 0 <= i < |s| - |r| ==> IsOws(s[i])
  {
    if |s| > 0 && IsOws(s[0]) then
      var r := SkipOws(s[1..]);
      assert forall i :: 1 <= i < |s| - |r| ==> s[i] == s[1..][i - 1];
      r
    else s
  }

  /** Trailing optional whitespace removed. */
  function DropTrailingOws(s: string): (r: string)
    ensures |r| <= |s| && r == s[..|r|]
    ensures r == "" || !IsOws(r[|r| - 1])
    ensures forall i :: |r| <= i < |s| ==> IsOws(s[i])
  {
    if |s| > 0 && IsOws(s[|s| - 1]) then
      var r := DropTrailingOws(s[..|s| - 1]);
      assert forall i :: |r| <= i < |s| - 1 ==> s[i] == s[..|s| - 1][i];
      r
    else s
  }

  /** `HTTP/1.1 ddd reason` read back into a code and a reason phrase. */
  function ParseStatusLine(line: string): (r: Option<(nat, string)>)
    ensures r.Some? ==> r.value.0 < 1000
  {
    if |line| >= 13 && line[..9] == VERSION + " " && line[12] == ' '
       && IsDigit(line[9]) && IsDigit(line[10]) && IsDigit(line[11])
    then Some((CodeValue(line[9..12]), line[13..]))
    else None
  }

  /** `name: value` read back into a field: the name runs to the first colon
      and must not be empty; optional whitespace around the value is dropped. */
  function ParseField(line: string): (r: Option<Field>)
    ensures r.Some? ==> |r.value.name| > 0 && ':' !in r.value.name
  {
    match Find(line, ":")
    case None => None
    case Some(i) =>
      if i == 0 then None
      else
        PrefixBeforeFirstMatch(line, ":", i);
        ContainsChar(line[..i], ':');
        Some(Field(line[..i], DropTrailingOws(SkipOws(line[i + 1..]))))
  }

  /** Field lines read back one by one; one bad line spoils them all. */
  function ParseFields(lines: seq<string>): (r: Option<seq<Field>>)
    ensures r.Some? ==> |r.value| == |lines|
  {
    if |lines| == 0 then Some([])
    else
      match ParseField(lines[0])
      case None => None
      case Some(f) =>
        match ParseFields(lines[1..])
        case None => None
        case Some(fs) => Some([f] + fs)
  }

  /** A message head read back: it must end in the empty line; the lines
      before it are split at CRLF into the status line and the field lines. */
  function ParseHead(s: string): (r: Option<Head>)
    ensures r.Some? ==> r.value.code < 1000
    ensures r.Some? ==> EndsWith(s, BLANK_LINE)
  {
    if !EndsWith(s, BLANK_LINE) then None
    else
      var lines := Split(s[..|s| - |BLANK_LINE|], CRLF);
      match ParseStatusLine(lines[0])
      case None => None
      case Some(status) =>
        match ParseFields(lines[1..])
        case None => None
        case Some(fields) => Some(Head(status.0, status.1, fields))
  }

  /** A rendered head is its lines joined by CRLF, then the blank line. */
  lemma RenderIsJoinedLines(h: Head)
    requires h.code < 1000
    ensures Render(h) == Join(HeadLines(h), CRLF) + BLANK_LINE
  {
    JoinedFieldLines(StatusLine(h), h.fields);
    var lines := HeadLines(h);
    assert lines == [StatusLine(h)] + FieldLineSeq(h.fields);
  }

  lemma {:induction false} JoinedFieldLines(first: string, fields: seq<Field>)
    ensures first + CRLF + FieldBlock(fields) + CRLF
         == Join([first] + FieldLineSeq(fields), CRLF) + BLANK_LINE
    decreases |fields|
  {
    var lines := [first] + FieldLineSeq(fields);
    if |fields| == 0 {
      assert lines == [first];
      assert CRLF + CRLF == BLANK_LINE;
    } else {
      var next := FieldLine(fields[0]);
      var block := FieldBlock(fields[1..]);
      JoinedFieldLines(next, fields[1..]);
      assert lines[1..] == [next] + FieldLineSeq(fields[1..]);
      assert Join(lines, CRLF) == first + CRLF + Join(lines[1..], CRLF);
      assert FieldBlock(fields) == next + CRLF + block;
      assert first + CRLF + FieldBlock(fields) + CRLF
          == first + CRLF + (next + CRLF + block + CRLF);
    }
  }

  /** Every line of a well-formed head is non-empty and free of `\r`. */
  lemma HeadLinesClean(h: Head)
    requires WellFormed(h)
    ensures forall k :: 0 <= k < |HeadLines(h)| ==>
      |HeadLines(h)[k]| > 0 && '\r' !in HeadLines(h)[k]
  {
    var lines := HeadLines(h);
    forall k | 0 <= k < |lines|
      ensures |lines[k]| > 0 && '\r' !in lines[k]
    {
      if k > 0 {
        assert FieldOk(h.fields[k - 1]);
      }
    }
  }

  lemma ParseStatusLineOfRender(h: Head)
    requires WellFormed(h)
    ensures ParseStatusLine(StatusLine(h)) == Some((h.code, h.reason))
  {
    var line := StatusLine(h);
    assert line[..9] == VERSION + " ";
    assert line[9..12] == CodeText(h.code);
    assert line[13..] == h.reason;
    CodeRoundTrip(h.code);
  }

  lemma ParseFieldOfRender(f: Field)
    requires FieldOk(f)
    ensures ParseField(FieldLine(f)) == Some(f)
  {
    assert FieldLine(f) == f.name + ":" + (" " + f.value);
    ParseFieldAfterColon(f.name, " " + f.value);
    SkipOwsOfStart(f.value);
  }

  /** A line made of a colon-free name, a colon and a rest is read as that
      name and the rest without its surrounding optional whitespace. */
  lemma ParseFieldAfterColon(name: string, rest: string)
    requires |name| > 0 && ':' !in name
    ensures ParseField(name + ":" + rest) == Some(Field(name, DropTrailingOws(SkipOws(rest))))
  {
    var line := name + ":" + rest;
    FindAfterPiece(name, ":", rest);
    assert line[..|name|] == name;
    assert line[|name| + 1..] == rest;
  }

  /** A value that neither opens nor closes with optional whitespace is read
      back unchanged after the space that follows the colon. */
  lemma SkipOwsOfStart(v: string)
    requires ValueOk(v)
    ensures DropTrailingOws(SkipOws(" " + v)) == v
  {
    assert (" " + v)[1..] == v;
  }

  lemma ParseFieldsOfRender(fields: seq<Field>)
    requires forall k :: 0 <= k < |fields| ==> FieldOk(fields[k])
    ensures ParseFields(FieldLineSeq(fields)) == Some(fields)
  {
    var lines := FieldLineSeq(fields);
    forall k | 0 <= k < |fields|
      ensures ParseField(lines[k]) == Some(fields[k])
    {
      ParseFieldOfRender(fields[k]);
    }
    ParseFieldsOfLines(lines, fields);
  }

  /** Lines that each read back as a field read back as those fields. */
  lemma {:induction false} ParseFieldsOfLines(lines: seq<string>, fields: seq<Field>)
    requires |lines| == |fields|
    requires forall k :: 0 <= k < |lines| ==> ParseField(lines[k]) == Some(fields[k])
    ensures ParseFields(lines) == Some(fields)
    decreases |lines|
  {
    if |lines| > 0 {
      ParseFieldsOfLines(lines[1..], fields[1..]);
      ParseFieldsCons(lines, fields[0], fields[1..]);
      assert fields == [fields[0]] + fields[1..];
    }
  }

  /** One more line read as a field in front is one more field in front. */
  lemma ParseFieldsCons(lines: seq<string>, f: Field, fs: seq<Field>)
    requires |lines| > 0
    requires ParseField(lines[0]) == Some(f)
    requires ParseFields(lines[1..]) == Some(fs)
    ensures ParseFields(lines) == Some([f] + fs)
  {
  }

  /** Parsing undoes rendering for every well-formed head. */
  lemma ParseRender(h: Head)
    requires WellFormed(h)
    ensures ParseHead(Render(h)) == Some(h)
  {
    var s := Render(h);
    var lines := HeadLines(h);
    RenderIsJoinedLines(h);
    HeadLinesClean(h);
    assert s[..|s| - |BLANK_LINE|] == Join(lines, CRLF);
    assert EndsWith(s, BLANK_LINE);
    SplitJoin(lines, CRLF);
    ParseStatusLineOfRender(h);
    assert lines[1..] == FieldLineSeq(h.fields);
    ParseFieldsOfRender(h.fields);
  }

  /** Every rendered head starts with the version and a space and ends with
      the blank line. */
  lemma RenderShape(h: Head)
    requires h.code < 1000
    ensures StartsWith(Render(h), VERSION + " ")
    ensures EndsWith(Render(h), BLANK_LINE)
  {
    RenderIsJoinedLines(h);
    var s := Render(h);
    assert s[..9] == (VERSION + " ");
  }

  predicate HasField(h: Head, name: string)
  {
    exists k :: 0 <= k < |h.fields| && h.fields[k].name == name
  }

  /** A head with four fields, written out line by line. */
  lemma RenderFourFields(h: Head, status: string, l1: string, l2: string, l3: string, l4: string)
    requires h.code < 1000 && |h.fields| == 4
    requires StatusLine(h) + CRLF == status
    requires FieldLine(h.fields[0]) + CRLF == l1
    requires FieldLine(h.fields[1]) + CRLF == l2
    requires FieldLine(h.fields[2]) + CRLF == l3
    requires FieldLine(h.fields[3]) + CRLF == l4
    ensures Render(h) == status + l1 + l2 + l3 + l4 + CRLF
  {
    var fs := h.fields;
    assert FieldBlock(fs[3..]) == l4 by {
      assert fs[3..][1..] == [];
    }
    assert FieldBlock(fs[2..]) == l3 + l4 by {
      assert fs[2..][1..] == fs[3..];
    }
    assert FieldBlock(fs[1..]) == l2 + l3 + l4 by {
      assert fs[1..][1..] == fs[2..];
    }
    assert FieldBlock(fs) == l1 + l2 + l3 + l4;
  }
}
