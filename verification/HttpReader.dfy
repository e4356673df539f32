/**
 A reader of HTTP/1.1 responses (RFC 9112, sections 2 to 5), independent of the writer: status line,
 header fields up to the first empty line, body. The reason phrase is skipped.
 */
module HttpReader {
  import opened Prelude
  import opened HttpResponse

  datatype Message = Message(status: nat, fields: seq<Header>, body: string)

  /** The text before the first line end, and what follows it. */
  function ReadLine(s: string): (r: Option<(string, string)>)
    ensures r.Some? ==> |r.value.1| < |s|
  {
    if |s| < 2 then None
    else if s[0] == '\r' && s[1] == '\n' then Some(("", s[2..]))
    else
      match ReadLine(s[1..])
      case None => None
      case Some((line, rest)) => Some(([s[0]] + line, rest))
  }

  /** The lines before the first empty one, and what follows that. */
  function ReadHead(s: string): Option<(seq<string>, string)>
    decreases |s|
  {
    match ReadLine(s)
    case None => None
    case Some((line, rest)) =>
      if line == "" then Some(([], rest))
      else
        match ReadHead(rest)
        case None => None
        case Some((lines, body)) => Some(([line] + lines, body))
  }

  /** The text before the first `c`, and the text behind it. */
  function CutAt(s: string, c: char): Option<(string, string)> {
    if s == "" then None
    else if s[0] == c then Some(("", s[1..]))
    else
      match CutAt(s[1..], c)
      case None => None
      case Some((front, behind)) => Some(([s[0]] + front, behind))
  }

  function NumberOf(s: string): Option<nat> {
    if s == "" then Some(0)
    else
      var front, d := NumberOf(s[..|s| - 1]), s[|s| - 1];
      if front.None? || !('0' <= d <= '9') then None else Some(front.value * 10 + (d as int - '0' as int))
  }

  /** The number between the first two blanks. */
  function ReadStatus(line: string): Option<nat> {
    match CutAt(line, ' ')
    case None => None
    case Some((_, behind)) =>
      match CutAt(behind, ' ')
      case None => None
      case Some((digits, _)) => NumberOf(digits)
  }

  /** A name, a colon, a blank and a value. */
  function ReadField(line: string): Option<Header> {
    match CutAt(line, ':')
    case None => None
    case Some((name, behind)) => if behind != "" && behind[0] == ' ' then Some(Header(name, behind[1..])) else None
  }

  function ReadFields(lines: seq<string>): Option<seq<Header>> {
    if lines == [] then Some([])
    else
      var first, rest := ReadField(lines[0]), ReadFields(lines[1..]);
      if first.None? || rest.None? then None else Some([first.value] + rest.value)
  }

  function ReadResponse(s: string): Option<Message> {
    match ReadHead(s)
    case None => None
    case Some((lines, body)) =>
      if lines == [] || ReadStatus(lines[0]).None? || ReadFields(lines[1..]).None? then None
      else Some(Message(ReadStatus(lines[0]).value, ReadFields(lines[1..]).value, body))
  }

  // ----- what the writer writes is read back -----

  lemma {:induction false} LineRead(line: string, rest: string)
    requires '\r' !in line
    ensures ReadLine(line + CRLF + rest) == Some((line, rest))
  {
    var s := line + CRLF + rest;
    if line == "" {
      assert s[2..] == rest;
    } else {
      LineRead(line[1..], rest);
      assert s[1..] == line[1..] + CRLF + rest && s[0] == line[0] && line[0] in line;
      assert [line[0]] + line[1..] == line;
    }
  }

  lemma {:induction false} HeadRead(lines: seq<string>, body: string)
    requires CleanLines(lines)
    ensures ReadHead(Join(lines) + CRLF + body) == Some((lines, body))
  {
    if lines == [] {
      LineRead("", body);
      assert Join(lines) + CRLF + body == "" + CRLF + body;
    } else {
      var behind := Join(lines[1..]) + CRLF + body;
      assert CleanLine(lines[0]);
      assert CleanLines(lines[1..]) by {
        forall i | 0 <= i < |lines| - 1 ensures CleanLine(lines[1..][i]) { assert CleanLine(lines[i + 1]); }
      }
      LineRead(lines[0], behind);
      HeadRead(lines[1..], body);
      assert Join(lines) + CRLF + body == lines[0] + CRLF + behind;
      assert [lines[0]] + lines[1..] == lines;
    }
  }

  lemma {:induction false} CutRead(front: string, c: char, behind: string)
    requires c !in front
    ensures CutAt(front + [c] + behind, c) == Some((front, behind))
  {
    var s := front + [c] + behind;
    if front == "" {
      assert s[1..] == behind;
    } else {
      CutRead(front[1..], c, behind);
      assert s[1..] == front[1..] + [c] + behind && s[0] == front[0] && front[0] in front;
      assert [front[0]] + front[1..] == front;
    }
  }

  lemma {:induction false} DecimalRead(n: nat)
    ensures NumberOf(Decimal(n)) == Some(n)
  {
    if n >= 10 {
      DecimalRead(n / 10);
      assert Decimal(n)[..|Decimal(n)| - 1] == Decimal(n / 10);
    } else {
      assert Decimal(n)[..0] == "";
    }
  }

  lemma {:induction false} StatusRead(version: string, digits: string, reason: string)
    requires ' ' !in version && ' ' !in digits
    ensures ReadStatus(version + [' '] + (digits + [' '] + reason)) == NumberOf(digits)
  {
    CutRead(version, ' ', digits + [' '] + reason);
    CutRead(digits, ' ', reason);
  }

  lemma StatusLineRead(status: nat)
    ensures ReadStatus(StatusLine(status)) == Some(status)
  {
    DecimalRead(status);
    StatusRead("HTTP/1.1", Decimal(status), StatusReason(status));
    assert StatusLine(status) == "HTTP/1.1" + [' '] + (Decimal(status) + [' '] + StatusReason(status));
  }

  lemma FieldRead(name: string, value: string)
    requires ':' !in name
    ensures ReadField(name + ": " + value) == Some(Header(name, value))
  {
    CutRead(name, ':', [' '] + value);
    assert name + ": " + value == name + [':'] + ([' '] + value);
    assert ([' '] + value)[1..] == value;
  }

  /** The header fields that the caller's headers become: none that would clash with the writer's own or break a line. */
  function Kept(headers: seq<Header>): seq<Header> {
    if headers == [] then []
    else
      var h := headers[0];
      var dropped := Lower(h.name) == "content-length" || Lower(h.name) == "connection"
                     || '\r' in h.name + h.value || '\n' in h.name + h.value;
      (if dropped then [] else [h]) + Kept(headers[1..])
  }

  predicate Tokens(headers: seq<Header>) {
    forall i | 0 <= i < |headers| :: ':' !in headers[i].name
  }

  lemma {:induction false} UserFieldsRead(headers: seq<Header>)
    requires Tokens(headers)
    ensures ReadFields(UserLines(headers)) == Some(Kept(headers))
  {
    if headers != [] {
      UserFieldsRead(headers[1..]);
      var h, rest := headers[0], UserLines(headers[1..]);
      FieldRead(h.name, h.value);
      if Skipped(h) { assert [] + rest == rest && [] + Kept(headers[1..]) == Kept(headers[1..]); }
      else { assert ([h.name + ": " + h.value] + rest)[1..] == rest; }
    }
  }

  lemma {:induction false} FieldsConcat(a: seq<string>, b: seq<string>)
    requires ReadFields(a).Some? && ReadFields(b).Some?
    ensures ReadFields(a + b) == Some(ReadFields(a).value + ReadFields(b).value)
  {
    if a == [] {
      assert a + b == b && [] + ReadFields(b).value == ReadFields(b).value;
    } else {
      var first, rest, last := [ReadField(a[0]).value], ReadFields(a[1..]).value, ReadFields(b).value;
      assert (a + b)[1..] == a[1..] + b;
      FieldsConcat(a[1..], b);
      assert first + (rest + last) == (first + rest) + last;
    }
  }

  /** The fields that the writer adds for an encoded body. */
  function EncodingFields(e: Encoded): seq<Header> {
    match e
    case Identity => []
    case Encoded(_, Brotli) => [Header("content-encoding", "br"), Header("vary", "accept-encoding")]
    case Encoded(_, Gzip) => [Header("content-encoding", "gzip"), Header("vary", "accept-encoding")]
  }

  lemma TwoFields(n1: string, v1: string, n2: string, v2: string, a: string, b: string)
    requires ':' !in n1 && ':' !in n2 && a == n1 + ": " + v1 && b == n2 + ": " + v2
    ensures ReadFields([a, b]) == Some([Header(n1, v1), Header(n2, v2)])
  {
    FieldRead(n1, v1);
    FieldRead(n2, v2);
    OneMoreField(b, []);
    assert [b] + [] == [b] && [Header(n2, v2)] + [] == [Header(n2, v2)];
    OneMoreField(a, [b]);
    assert [a] + [b] == [a, b];
    assert [Header(n1, v1)] + [Header(n2, v2)] == [Header(n1, v1), Header(n2, v2)];
  }

  lemma {:induction false} OneMoreField(line: string, lines: seq<string>)
    requires ReadField(line).Some? && ReadFields(lines).Some?
    ensures ReadFields([line] + lines) == Some([ReadField(line).value] + ReadFields(lines).value)
  {
    assert ([line] + lines)[1..] == lines;
  }

  /** A line written in one piece is its name, the colon and its value. */
  lemma WholeLine(name: string, value: string, line: string, front: string)
    requires front == name + ": " && line == front + value
    ensures line == name + ": " + value
  {}

  lemma EncodingFieldsRead(e: Encoded)
    ensures ReadFields(EncodingLines(e)) == Some(EncodingFields(e))
  {
    if e.Encoded? {
      var coding := if e.encoding.Brotli? then "br" else "gzip";
      WholeLine("content-encoding", coding, "content-encoding: " + coding, "content-encoding: ");
      WholeLine("vary", "accept-encoding", "vary: accept-encoding", "vary: ");
      TwoFields("content-encoding", coding, "vary", "accept-encoding", "content-encoding: " + coding, "vary: accept-encoding");
    }
  }

  function OwnFields(length: string, keepAlive: bool): seq<Header> {
    [Header("content-length", length), Header("connection", if keepAlive then "keep-alive" else "close")]
  }

  lemma {:induction false} OwnFieldsRead(n: nat, keepAlive: bool)
    ensures ReadFields([LengthLine(n), Connection(keepAlive)]) == Some(OwnFields(Decimal(n), keepAlive))
  {
    var choice := if keepAlive then "keep-alive" else "close";
    WholeLine("content-length", Decimal(n), LengthLine(n), "content-length: ");
    WholeLine("connection", choice, Connection(keepAlive), "connection: ");
    TwoFields("content-length", Decimal(n), "connection", choice, LengthLine(n), Connection(keepAlive));
  }

  /** What is sent: the encoded body if there is one. */
  function SentBody(c: Content): string {
    match c.encoded
    case Identity => c.body
    case Encoded(body, _) => body
  }

  /**
   Every response that is built reads back as its status, the length of the body that is sent, the
   connection choice, the coding, the caller's headers in order, and that body.
   */
  lemma BuiltRead(c: Content, keepAlive: bool)
    requires Tokens(c.headers)
    ensures ReadResponse(Build(c, keepAlive))
            == Some(Message(c.status, OwnFields(Decimal(|SentBody(c)|), keepAlive) + (EncodingFields(c.encoded) + Kept(c.headers)),
                            SentBody(c)))
    ensures NumberOf(Decimal(|SentBody(c)|)) == Some(|SentBody(c)|)
  {
    var status, own := StatusLine(c.status), [LengthLine(|FinalBody(c)|), Connection(keepAlive)];
    var coding, users := EncodingLines(c.encoded), UserLines(c.headers);
    LinesClean(c, keepAlive);
    HeadRead(Lines(c, keepAlive), FinalBody(c));
    StatusLineRead(c.status);
    OwnFieldsRead(|FinalBody(c)|, keepAlive);
    EncodingFieldsRead(c.encoded);
    UserFieldsRead(c.headers);
    FieldsConcat(coding, users);
    FieldsConcat(own, coding + users);
    LinesRead(Build(c, keepAlive), status, own, coding + users, SentBody(c), Lines(c, keepAlive));
    DecimalRead(|SentBody(c)|);
  }

  lemma {:induction false} LinesRead(s: string, status: string, own: seq<string>, others: seq<string>, body: string,
                                     lines: seq<string>)
    requires |own| == 2 && lines == [status, own[0], own[1]] + others && ReadHead(s) == Some((lines, body))
    requires ReadStatus(status).Some? && ReadFields(own + others).Some?
    ensures ReadResponse(s) == Some(Message(ReadStatus(status).value, ReadFields(own + others).value, body))
  {
    assert lines[1..] == own + others;
  }
}
