/**
 Raw HTTP/1.1 responses: assembly, swapping the connection header in a finished response, and
 inserting a Set-Cookie header. Octets are written as characters.
 */
module HttpResponse {
  import opened Prelude
  import opened Search

  const CRLF: string := "\r\n"

  datatype Header = Header(name: string, value: string)

  /** What compression produced, if it applied: the encoded body and the name of its encoding. */
  datatype Encoded = Identity | Encoded(body: string, encoding: Encoding)

  datatype Encoding = Brotli | Gzip

  datatype Content = Content(status: nat, headers: seq<Header>, body: string, encoded: Encoded)

  function Digit(d: nat): (c: char)
    requires d < 10
    ensures '0' <= c <= '9'
  {
    '0' + d as char
  }

  function Decimal(n: nat): (s: string)
    ensures s != "" && forall ch | ch in s :: '0' <= ch <= '9'
  {
    if n < 10 then [Digit(n)] else Decimal(n / 10) + [Digit(n % 10)]
  }

  /** No carriage return, no colon: what the status line is made of. */
  predicate Plain(s: string) {
    '\r' !in s && ':' !in s
  }

  function StatusReason(status: nat): (s: string)
    ensures Plain(s)
  {
    if status < 300 then Reason2xx(status)
    else if status < 400 then Reason3xx(status)
    else if status < 405 then Reason400(status)
    else if status < 412 then Reason405(status)
    else if status < 430 then Reason413(status)
    else if status < 500 then Reason430(status)
    else Reason5xx(status)
  }

  function Reason2xx(status: nat): (s: string)
    ensures Plain(s)
  {
    match status
    case 200 => "OK"
    case 201 => "Created"
    case 202 => "Accepted"
    case 204 => "No Content"
    case _ => "Unknown"
  }

  function Reason3xx(status: nat): (s: string)
    ensures Plain(s)
  {
    match status
    case 301 => "Moved Permanently"
    case 302 => "Found"
    case 304 => "Not Modified"
    case _ => "Unknown"
  }

  function Reason400(status: nat): (s: string)
    ensures Plain(s)
  {
    match status
    case 400 => "Bad Request"
    case 401 => "Unauthorized"
    case 403 => "Forbidden"
    case 404 => "Not Found"
    case _ => "Unknown"
  }

  function Reason405(status: nat): (s: string)
    ensures Plain(s)
  {
    match status
    case 405 => "Method Not Allowed"
    case 408 => "Request Timeout"
    case 409 => "Conflict"
    case 411 => "Length Required"
    case _ => "Unknown"
  }

  function Reason413(status: nat): (s: string)
    ensures Plain(s)
  {
    match status
    case 413 => "Payload Too Large"
    case 415 => "Unsupported Media Type"
    case _ => Reason422(status)
  }

  function Reason422(status: nat): (s: string)
    ensures Plain(s)
  {
    match status
    case 422 => "Unprocessable Entity"
    case 429 => "Too Many Requests"
    case _ => "Unknown"
  }

  function Reason430(status: nat): (s: string)
    ensures Plain(s)
  {
    if status == 431 then "Request Header Fields Too Large" else "Unknown"
  }

  function Reason5xx(status: nat): (s: string)
    ensures Plain(s)
  {
    match status
    case 500 => "Internal Server Error"
    case 501 => "Not Implemented"
    case 502 => "Bad Gateway"
    case 503 => "Service Unavailable"
    case 504 => "Gateway Timeout"
    case _ => "Unknown"
  }

  /** The builder writes these two itself, and drops headers that would break a line. */
  predicate Skipped(h: Header) {
    || Lower(h.name) == "content-length" || Lower(h.name) == "connection"
    || HasBreak(h.name) || HasBreak(h.value)
  }

  function UserLines(headers: seq<Header>): seq<string> {
    if headers == [] then []
    else (if Skipped(headers[0]) then [] else [headers[0].name + ": " + headers[0].value]) + UserLines(headers[1..])
  }

  function Connection(keepAlive: bool): string {
    if keepAlive then "connection: keep-alive" else "connection: close"
  }

  function FinalBody(c: Content): string {
    if c.encoded.Encoded? then c.encoded.body else c.body
  }

  function StatusLine(status: nat): string {
    "HTTP/1.1 " + Decimal(status) + " " + StatusReason(status)
  }

  function EncodingLines(e: Encoded): seq<string> {
    if e.Encoded? then ["content-encoding: " + (if e.encoding.Brotli? then "br" else "gzip"), "vary: accept-encoding"] else []
  }

  function Lines(c: Content, keepAlive: bool): seq<string> {
    [StatusLine(c.status), LengthLine(|FinalBody(c)|), Connection(keepAlive)]
    + (EncodingLines(c.encoded) + UserLines(c.headers))
  }

  function Join(lines: seq<string>): string {
    if lines == [] then "" else lines[0] + CRLF + Join(lines[1..])
  }

  function Build(c: Content, keepAlive: bool): string {
    Join(Lines(c, keepAlive)) + CRLF + FinalBody(c)
  }

  // ----- patch_connection_header -----

  ghost function Patch(response: string, keepAlive: bool): string {
    var find, replace := Connection(!keepAlive) + CRLF, Connection(keepAlive) + CRLF;
    var pos := Find(response, find);
    if pos.Some? then response[..pos.value] + replace + response[pos.value + |find|..] else response
  }

  lemma NotAt(s: string, c: char, i: nat)
    requires c !in s && i < |s|
    ensures s[i] != c
  {}

  /** A word ending a line can occur inside a line only as the end of that line. */
  lemma LineMatch(line: string, rest: string, word: string, i: nat)
    requires '\r' !in line && '\r' !in word && word != "" && word[0] != '\n'
    requires OccursAt(line + CRLF + rest, word + CRLF, i) && i < |line| + 2
    ensures i + |word| == |line| && line[i..] == word
  {
    var text, pattern := line + CRLF + rest, word + CRLF;
    assert forall j | 0 <= j < |pattern| :: text[i + j] == text[i..i + |pattern|][j] == pattern[j];
    assert text[|line| + 1] == '\n' && pattern[0] == word[0] && text[i + 0] == pattern[0];
    assert forall j | 0 <= j < |word| :: pattern[j] == word[j];
    if i <= |line| {
      var m := if |line| - i < |word| then |line| - i else |word|;
      assert text[i + m] == pattern[m];
      FirstBreak(word, "", m);
      FirstBreak(line, rest, i + m);
    }
  }

  /** The first carriage return is the one that ends the line. */
  lemma FirstBreak(line: string, rest: string, j: nat)
    requires '\r' !in line && j <= |line|
    ensures (line + CRLF + rest)[j] == '\r' <==> j == |line|
  {
    if j < |line| { NotAt(line, '\r', j); }
  }

  lemma NoneInLine(line: string, rest: string, word: string)
    requires '\r' !in line && '\r' !in word && word != "" && word[0] != '\n'
    requires forall i | 0 <= i <= |line| :: line[i..] != word
    ensures NoneBefore(line + CRLF + rest, word + CRLF, |line| + 2)
  {
    forall i: nat | i < |line| + 2 ensures !OccursAt(line + CRLF + rest, word + CRLF, i) {
      if OccursAt(line + CRLF + rest, word + CRLF, i) { LineMatch(line, rest, word, i); }
    }
  }

  lemma SkipLine(line: string, rest: string, word: string)
    requires '\r' !in line && '\r' !in word && word != "" && word[0] != '\n'
    requires forall i | 0 <= i <= |line| :: line[i..] != word
    ensures var r := Find(rest, word + CRLF);
            Find(line + CRLF + rest, word + CRLF) == if r.Some? then Some(|line| + 2 + r.value) else None
  {
    NoneInLine(line, rest, word);
    FindSkip(line + CRLF, rest, word + CRLF);
  }

  /** A line that differs from the ends of the two lines before it is found where it stands. */
  lemma ThirdLineFound(l0: string, l1: string, word: string, tail: string)
    requires '\r' !in l0 && '\r' !in l1 && '\r' !in word && word != "" && word[0] != '\n'
    requires forall i | 0 <= i <= |l0| :: l0[i..] != word
    requires forall i | 0 <= i <= |l1| :: l1[i..] != word
    ensures Find(l0 + CRLF + (l1 + CRLF + (word + CRLF + tail)), word + CRLF) == Some(|l0| + |l1| + 4)
  {
    var third := word + CRLF + tail;
    SkipLine(l0, l1 + CRLF + third, word);
    SkipLine(l1, third, word);
    assert third[0..|word + CRLF|] == word + CRLF;
    FindAt(third, word + CRLF, 0);
  }

  lemma {:induction false} DecimalPlain(n: nat)
    ensures Plain(Decimal(n)) && '0' <= Decimal(n)[|Decimal(n)| - 1] <= '9'
  {}

  lemma StatusLinePlain(status: nat)
    ensures Plain(StatusLine(status))
  {
    DecimalPlain(status);
  }

  function LengthLine(n: nat): string {
    "content-length: " + Decimal(n)
  }

  lemma LengthLineFacts(n: nat)
    ensures var l := LengthLine(n); '\r' !in l && l != "" && l[|l| - 1] != 'e'
  {
    DecimalPlain(n);
  }

  lemma ConnectionFacts(keepAlive: bool)
    ensures var w := Connection(keepAlive);
            '\r' !in w && |w| > 10 && w[0] != '\n' && w[10] == ':' && w[|w| - 1] == 'e'
  {}

  lemma NotSuffix(line: string, word: string, i: nat)
    requires i <= |line| && |word| > 10
    requires (word[10] == ':' && ':' !in line) || (line != "" && line[|line| - 1] != word[|word| - 1])
    ensures line[i..] != word
  {
    if |line| - i == |word| {
      assert line[i..][10] == line[i + 10] && line[i..][|word| - 1] == line[|line| - 1];
    }
  }

  /** What stands before and after the framework's own connection header. */
  function Before(c: Content): string {
    StatusLine(c.status) + CRLF + (LengthLine(|FinalBody(c)|) + CRLF)
  }

  function After(c: Content): string {
    Join(EncodingLines(c.encoded) + UserLines(c.headers)) + CRLF + FinalBody(c)
  }

  lemma BuildParts(c: Content, keepAlive: bool)
    ensures Build(c, keepAlive) == Before(c) + (Connection(keepAlive) + CRLF) + After(c)
  {
    JoinThree(StatusLine(c.status), LengthLine(|FinalBody(c)|), Connection(keepAlive),
              EncodingLines(c.encoded) + UserLines(c.headers));
  }

  lemma {:induction false} JoinThree(a: string, b: string, c: string, rest: seq<string>)
    ensures Join([a, b, c] + rest) == a + CRLF + (b + CRLF) + (c + CRLF) + Join(rest)
  {
    assert ([a, b, c] + rest)[1..] == [b, c] + rest;
    assert ([b, c] + rest)[1..] == [c] + rest;
    assert ([c] + rest)[1..] == rest;
    assert Join([c] + rest) == c + CRLF + Join(rest);
    assert Join([b, c] + rest) == b + CRLF + Join([c] + rest);
  }

  /** The framework's own connection header is the first match, whatever the other headers hold. */
  lemma OwnHeaderFirst(c: Content, keepAlive: bool)
    ensures Find(Build(c, keepAlive), Connection(keepAlive) + CRLF) == Some(|Before(c)|)
  {
    var l0, l1, word := StatusLine(c.status), LengthLine(|FinalBody(c)|), Connection(keepAlive);
    BuildParts(c, keepAlive);
    StatusLinePlain(c.status);
    LengthLineFacts(|FinalBody(c)|);
    ConnectionFacts(keepAlive);
    forall i | 0 <= i <= |l0| ensures l0[i..] != word { NotSuffix(l0, word, i); }
    forall i | 0 <= i <= |l1| ensures l1[i..] != word { NotSuffix(l1, word, i); }
    ThirdLineFound(l0, l1, word, After(c));
    Reassociate(l0, l1, word, After(c));
  }

  lemma Reassociate(a: string, b: string, c: string, d: string)
    ensures a + CRLF + (b + CRLF) + (c + CRLF) + d == a + CRLF + (b + CRLF + (c + CRLF + d))
  {}

  lemma Splice(a: string, b: string, c: string)
    ensures (a + b + c)[..|a|] == a && (a + b + c)[|a| + |b|..] == c
  {}

  /** Patching the response built for one choice gives octet for octet the response built for the other. */
  lemma PatchIsRebuild(c: Content, keepAlive: bool)
    ensures Patch(Build(c, !keepAlive), keepAlive) == Build(c, keepAlive)
  {
    OwnHeaderFirst(c, !keepAlive);
    BuildParts(c, keepAlive);
    BuildParts(c, !keepAlive);
    Splice(Before(c), Connection(!keepAlive) + CRLF, After(c));
  }

  // ----- inject_set_cookie_header -----

  ghost function Inject(response: string, cookie: string): string {
    var pos := Find(response, CRLF + CRLF);
    if pos.Some? then
      response[..pos.value + 2] + ("set-cookie: " + cookie + CRLF) + response[pos.value + 2..]
    else response
  }

  ghost predicate CleanLine(line: string) {
    line != "" && '\r' !in line
  }

  ghost predicate CleanLines(lines: seq<string>) {
    forall i | 0 <= i < |lines| :: CleanLine(lines[i])
  }

  lemma {:induction false} UserLinesClean(headers: seq<Header>)
    ensures CleanLines(UserLines(headers))
  {
    if headers != [] { UserLinesClean(headers[1..]); }
  }

  lemma LinesClean(c: Content, keepAlive: bool)
    ensures CleanLines(Lines(c, keepAlive))
  {
    StatusLinePlain(c.status);
    LengthLineFacts(|FinalBody(c)|);
    ConnectionFacts(keepAlive);
    EncodingLinesClean(c.encoded);
    UserLinesClean(c.headers);
    CleanTogether([StatusLine(c.status), LengthLine(|FinalBody(c)|), Connection(keepAlive)],
                  EncodingLines(c.encoded), UserLines(c.headers));
  }

  lemma CleanTogether(a: seq<string>, b: seq<string>, c: seq<string>)
    requires CleanLines(a) && CleanLines(b) && CleanLines(c)
    ensures CleanLines(a + (b + c))
  {}

  lemma EncodingLinesClean(e: Encoded)
    ensures CleanLines(EncodingLines(e))
  {}

  lemma NoBlankInside(line: string, rest: string)
    requires CleanLine(line) && (rest == "" || rest[0] != '\r')
    ensures NoneBefore(line + CRLF + rest, CRLF + CRLF, |line| + 2)
  {
    var text, blank := line + CRLF + rest, CRLF + CRLF;
    forall i: nat | i < |line| + 2 ensures !OccursAt(text, blank, i) {
      if i < |line| { NotAt(line, '\r', i); }
      assert text[|line| + 1] == '\n' && blank[0] == blank[2] == '\r';
      if i + 4 <= |text| {
        assert text[i..i + 4][0] == text[i] && text[i..i + 4][2] == text[i + 2];
      }
    }
  }

  lemma NoBlankBefore(line: string, rest: string)
    requires CleanLine(line)
    ensures NoneBefore(line + CRLF + rest, CRLF + CRLF, |line|)
  {
    var text, blank := line + CRLF + rest, CRLF + CRLF;
    forall i: nat | i < |line| ensures !OccursAt(text, blank, i) {
      NotAt(line, '\r', i);
      if i + 4 <= |text| { assert text[i..i + 4][0] == text[i]; }
    }
  }

  /** The first blank line is the one that ends the header lines, whatever the body holds. */
  lemma {:induction false} BlankLineFound(lines: seq<string>, body: string)
    requires lines != [] && CleanLines(lines)
    ensures |Join(lines)| >= 2 && Find(Join(lines) + CRLF + body, CRLF + CRLF) == Some(|Join(lines)| - 2)
  {
    var line, rest := lines[0], lines[1..];
    var below := Join(rest) + CRLF + body;
    assert Join(lines) + CRLF + body == line + CRLF + below;
    if rest == [] {
      assert below == CRLF + body;
      BlankHere(line, body);
    } else {
      assert CleanLine(rest[0]);
      assert below[0] == rest[0][0];
      NotAt(rest[0], '\r', 0);
      NoBlankInside(line, below);
      BlankLineFound(rest, body);
      FindSkip(line + CRLF, below, CRLF + CRLF);
    }
  }

  lemma BlankHere(line: string, body: string)
    requires CleanLine(line)
    ensures Find(line + CRLF + (CRLF + body), CRLF + CRLF) == Some(|line|)
  {
    var text := line + CRLF + (CRLF + body);
    NoBlankBefore(line, CRLF + body);
    assert text[|line|..|line| + 4] == CRLF + CRLF;
    FindAt(text, CRLF + CRLF, |line|);
  }

  lemma {:induction false} JoinAppend(lines: seq<string>, line: string)
    ensures Join(lines + [line]) == Join(lines) + (line + CRLF)
  {
    if lines == [] {
      assert Join([line]) == line + CRLF + Join([]);
    } else {
      assert (lines + [line])[1..] == lines[1..] + [line];
      JoinAppend(lines[1..], line);
    }
  }

  /** The cookie becomes one more header line; the other lines and the body stay as they were. */
  lemma InjectIsHeader(c: Content, keepAlive: bool, cookie: string)
    ensures Inject(Build(c, keepAlive), cookie)
            == Join(Lines(c, keepAlive) + ["set-cookie: " + cookie]) + CRLF + FinalBody(c)
  {
    var head, tail := Join(Lines(c, keepAlive)), CRLF + FinalBody(c);
    LinesClean(c, keepAlive);
    BlankLineFound(Lines(c, keepAlive), FinalBody(c));
    JoinAppend(Lines(c, keepAlive), "set-cookie: " + cookie);
    InsertedAt(head, CRLF, FinalBody(c), "set-cookie: " + cookie + CRLF);
  }

  lemma InsertedAt(head: string, sep: string, body: string, line: string)
    ensures var text := head + sep + body; text[..|head|] + line + text[|head|..] == head + line + sep + body
  {}

  // ----- the program's methods -----

  lemma {:induction false} UserLinesAppend(headers: seq<Header>, h: Header)
    ensures UserLines(headers + [h])
            == UserLines(headers) + (if Skipped(h) then [] else [h.name + ": " + h.value])
  {
    if headers != [] {
      assert (headers + [h])[1..] == headers[1..] + [h];
      UserLinesAppend(headers[1..], h);
    }
  }

  lemma {:induction false} JoinConcat(a: seq<string>, b: seq<string>)
    ensures Join(a + b) == Join(a) + Join(b)
  {
    if a == [] {
      assert a + b == b;
    } else {
      assert (a + b)[1..] == a[1..] + b;
      JoinConcat(a[1..], b);
    }
  }

  lemma UserLinesNext(headers: seq<Header>, i: nat)
    requires i < |headers|
    ensures Join(UserLines(headers[..i + 1])) == Join(UserLines(headers[..i]))
            + (if Skipped(headers[i]) then "" else headers[i].name + ": " + headers[i].value + CRLF)
  {
    var h, before := headers[i], UserLines(headers[..i]);
    assert headers[..i + 1] == headers[..i] + [h];
    UserLinesAppend(headers[..i], h);
    if Skipped(h) { assert before + [] == before; } else { JoinAppend(before, h.name + ": " + h.value); }
  }

  method WriteUserHeaders(start: string, headers: seq<Header>) returns (output: string)
    ensures output == start + Join(UserLines(headers))
  {
    output := start;
    assert start + Join(UserLines(headers[..0])) == start;
    for i := 0 to |headers|
      invariant output == start + Join(UserLines(headers[..i]))
    {
      var h := headers[i];
      UserLinesNext(headers, i);
      if !Skipped(h) {
        output := output + (h.name + ": " + h.value + CRLF);
      }
    }
    assert headers[..|headers|] == headers;
  }

  lemma Assembled(c: Content, keepAlive: bool)
    ensures Build(c, keepAlive)
            == Before(c) + (Connection(keepAlive) + CRLF) + Join(EncodingLines(c.encoded))
               + Join(UserLines(c.headers)) + CRLF + FinalBody(c)
  {
    BuildParts(c, keepAlive);
    JoinConcat(EncodingLines(c.encoded), UserLines(c.headers));
    Flattened(Before(c) + (Connection(keepAlive) + CRLF), Join(EncodingLines(c.encoded)), Join(UserLines(c.headers)),
              CRLF, FinalBody(c));
  }

  lemma Flattened(a: string, b: string, c: string, d: string, e: string)
    ensures a + (b + c + d + e) == a + b + c + d + e
  {}

  method BuildResponse(c: Content, keepAlive: bool) returns (output: string)
    ensures output == Build(c, keepAlive)
  {
    Assembled(c, keepAlive);
    output := StatusLine(c.status) + CRLF + (LengthLine(|FinalBody(c)|) + CRLF);
    output := output + (Connection(keepAlive) + CRLF);
    output := output + Join(EncodingLines(c.encoded));
    output := WriteUserHeaders(output, c.headers);
    output := output + CRLF;
    output := output + FinalBody(c);
  }
}
