/**
 Multipart bodies (RFC 2046, section 5.1.1): where the parser cuts a body, what it collects within the
 limits, and a printer that it inverts. How a header section describes its part is left abstract.
 */
module Multipart {
  import opened Prelude
  import opened Search

  const CR: byte := 13
  const LF: byte := 10
  const DASH: byte := 45
  const CRLF: bytes := [CR, LF]
  const BLANK: bytes := [CR, LF, CR, LF]
  const DASHES: bytes := [DASH, DASH]

  datatype Part = Part(headers: bytes, data: bytes)

  /** Header section and data of one part as offsets into the body. */
  datatype Span = Span(headerStart: nat, headerEnd: nat, dataStart: nat, dataEnd: nat)

  /** First occurrence at or behind an offset. */
  ghost function IndexOf(body: bytes, pattern: bytes, from: nat): (r: Option<nat>)
    requires from <= |body|
    ensures r.Some? ==> from <= r.value && r.value + |pattern| <= |body|
  {
    var r := Find(body[from..], pattern);
    if r.Some? then Some(from + r.value) else None
  }

  function SkipBreak(body: bytes, offset: nat): (r: nat)
    requires offset <= |body|
    ensures offset <= r <= |body|
  {
    if offset + 1 < |body| && body[offset] == CR && body[offset + 1] == LF then offset + 2 else offset
  }

  predicate EndMark(body: bytes, offset: nat) {
    offset + 1 < |body| && body[offset] == DASH && body[offset + 1] == DASH
  }

  function Max(a: int, b: int): int {
    if a < b then b else a
  }

  /** One turn of the parser's loop: the part behind a delimiter, and the offset behind its own. */
  ghost function Cut(body: bytes, delimiter: bytes, offset: nat): (r: Option<(Span, nat)>)
    requires offset <= |body|
    ensures r.Some? ==>
              var (s, next) := r.value;
              offset <= s.headerStart <= s.headerEnd < s.dataStart <= s.dataEnd <= next <= |body|
  {
    var o := SkipBreak(body, offset);
    if offset == |body| || EndMark(body, o) then None
    else
      match IndexOf(body, BLANK, o)
      case None => None
      case Some(h) =>
        match IndexOf(body, delimiter, h + 4)
        case None => None
        case Some(n) => Some((Span(o, h, h + 4, Max(h + 4, n - 2)), n + |delimiter|))
  }

  /** The cuts of the parser's loop, from behind a delimiter on. */
  ghost function Spans(body: bytes, delimiter: bytes, offset: nat): seq<Span>
    requires offset <= |body|
    decreases |body| - offset
  {
    match Cut(body, delimiter, offset)
    case None => []
    case Some((s, next)) => [s] + Spans(body, delimiter, next)
  }

  /** The offset behind the first delimiter. */
  ghost function Entry(body: bytes, delimiter: bytes): (r: Option<nat>)
    ensures r.Some? ==> r.value <= |body|
  {
    match IndexOf(body, delimiter, 0)
    case None => None
    case Some(first) => Some(first + |delimiter|)
  }

  ghost function Cuts(body: bytes, boundary: bytes): seq<Span> {
    match Entry(body, DASHES + boundary)
    case None => []
    case Some(offset) => Spans(body, DASHES + boundary, offset)
  }

  // ----- order -----

  ghost predicate Ordered(spans: seq<Span>, from: nat, to: nat) {
    spans == []
    || (from <= spans[0].headerStart <= spans[0].headerEnd < spans[0].dataStart <= spans[0].dataEnd <= to
        && Ordered(spans[1..], spans[0].dataEnd, to))
  }

  lemma {:induction false} OrderedLater(spans: seq<Span>, from: nat, from': nat, to: nat)
    requires Ordered(spans, from, to) && from' <= from
    ensures Ordered(spans, from', to)
  {}

  /** The parts are slices of the body, in order and without overlap. */
  lemma {:induction false} SpansOrdered(body: bytes, delimiter: bytes, offset: nat)
    requires offset <= |body|
    ensures Ordered(Spans(body, delimiter, offset), offset, |body|)
    decreases |body| - offset
  {
    match Cut(body, delimiter, offset)
    case None =>
    case Some((s, next)) =>
      SpansOrdered(body, delimiter, next);
      OrderedLater(Spans(body, delimiter, next), next, s.dataEnd, |body|);
      assert ([s] + Spans(body, delimiter, next))[1..] == Spans(body, delimiter, next);
  }

  lemma {:induction false} CutsOrdered(body: bytes, boundary: bytes)
    ensures Ordered(Cuts(body, boundary), 0, |body|)
  {
    match Entry(body, DASHES + boundary)
    case None =>
    case Some(offset) => OrderedFrom(body, DASHES + boundary, offset);
  }

  lemma {:induction false} OrderedFrom(body: bytes, delimiter: bytes, offset: nat)
    requires offset <= |body|
    ensures Ordered(Spans(body, delimiter, offset), 0, |body|)
  {
    SpansOrdered(body, delimiter, offset);
    OrderedLater(Spans(body, delimiter, offset), offset, 0, |body|);
  }

  function PartAt(body: bytes, s: Span): Part
    requires s.headerStart <= s.headerEnd <= |body| && s.dataStart <= s.dataEnd <= |body|
  {
    Part(body[s.headerStart..s.headerEnd], body[s.dataStart..s.dataEnd])
  }

  /** The parts themselves. */
  ghost function Parts(body: bytes, delimiter: bytes, offset: nat): seq<Part>
    requires offset <= |body|
    decreases |body| - offset
  {
    match Cut(body, delimiter, offset)
    case None => []
    case Some((s, next)) => [PartAt(body, s)] + Parts(body, delimiter, next)
  }

  ghost function AllParts(body: bytes, boundary: bytes): seq<Part> {
    match Entry(body, DASHES + boundary)
    case None => []
    case Some(offset) => Parts(body, DASHES + boundary, offset)
  }

  predicate IsPartAt(body: bytes, s: Span, p: Part) {
    s.headerStart <= s.headerEnd <= |body| && s.dataStart <= s.dataEnd <= |body| && p == PartAt(body, s)
  }

  lemma {:induction false} PartsAtSpans(body: bytes, delimiter: bytes, offset: nat)
    requires offset <= |body|
    ensures var parts, spans := Parts(body, delimiter, offset), Spans(body, delimiter, offset);
            |parts| == |spans| && forall i | 0 <= i < |parts| :: IsPartAt(body, spans[i], parts[i])
    decreases |body| - offset
  {
    match Cut(body, delimiter, offset)
    case None =>
    case Some((s, next)) => PartsAtSpans(body, delimiter, next);
  }

  /** The parser returns slices of the body, in order and without overlap. */
  lemma {:induction false} PartsAreSlices(body: bytes, boundary: bytes)
    ensures var parts, spans := AllParts(body, boundary), Cuts(body, boundary);
            && Ordered(spans, 0, |body|) && |parts| == |spans|
            && forall i | 0 <= i < |parts| :: IsPartAt(body, spans[i], parts[i])
  {
    CutsOrdered(body, boundary);
    match Entry(body, DASHES + boundary)
    case None =>
    case Some(offset) => PartsAtSpans(body, DASHES + boundary, offset);
  }

  // ----- a printer -----

  /** What stands behind a delimiter: the parts, each up to its next delimiter, then the end mark. */
  function Print(parts: seq<Part>, delimiter: bytes, epilogue: bytes): bytes {
    if parts == [] then DASHES + epilogue
    else CRLF + (parts[0].headers + (BLANK + (parts[0].data + (CRLF + (delimiter + Print(parts[1..], delimiter, epilogue))))))
  }

  function PrintBody(parts: seq<Part>, boundary: bytes, epilogue: bytes): bytes {
    (DASHES + boundary) + Print(parts, DASHES + boundary, epilogue)
  }

  /** The header section ends where it should, and the data does not contain the delimiter. */
  ghost predicate Printable(p: Part, delimiter: bytes) {
    && NoneBefore(p.headers + BLANK, BLANK, |p.headers|) && !(DASHES <= p.headers)
    && forall i: nat :: !OccursAt(p.data, delimiter, i)
  }

  ghost predicate AllPrintable(parts: seq<Part>, delimiter: bytes) {
    parts == [] || (Printable(parts[0], delimiter) && AllPrintable(parts[1..], delimiter))
  }

  lemma IndexFound(body: bytes, pattern: bytes, from: nat, text: bytes, k: nat)
    requires from <= |body| && body[from..] == text && FirstAt(text, pattern, k)
    ensures IndexOf(body, pattern, from) == Some(from + k)
  {
    FindAt(text, pattern, k);
  }

  /** The blank line that ends a header section is the first one. */
  lemma BlankFound(headers: bytes, rest: bytes)
    requires NoneBefore(headers + BLANK, BLANK, |headers|)
    ensures FirstAt(headers + (BLANK + rest), BLANK, |headers|)
  {
    var text := headers + (BLANK + rest);
    assert text[|headers|..|headers| + 4] == BLANK;
    forall i: nat | i < |headers| ensures !OccursAt(text, BLANK, i) {
      assert text[i..i + 4] == (headers + BLANK)[i..i + 4];
      assert !OccursAt(headers + BLANK, BLANK, i);
    }
  }

  /** The delimiter behind a part's data is the first one. */
  lemma DelimiterFound(data: bytes, delimiter: bytes, rest: bytes)
    requires |delimiter| > 0 && CR !in delimiter && LF !in delimiter
    requires forall i: nat :: !OccursAt(data, delimiter, i)
    ensures FirstAt(data + (CRLF + (delimiter + rest)), delimiter, |data| + 2)
  {
    var text := data + (CRLF + (delimiter + rest));
    assert text[|data| + 2..|data| + 2 + |delimiter|] == delimiter;
    forall i: nat | i < |data| + 2 ensures !OccursAt(text, delimiter, i) {
      if i + |delimiter| <= |data| {
        assert text[i..i + |delimiter|] == data[i..i + |delimiter|];
        assert !OccursAt(data, delimiter, i);
      } else {
        var j := if i <= |data| then |data| - i else 0;
        Excluded(delimiter, text[i + j], j);
        Mismatch(text, delimiter, i, j);
      }
    }
  }

  lemma Excluded(s: bytes, c: byte, j: nat)
    requires c !in s && j < |s|
    ensures s[j] != c
  {}

  lemma Mismatch(text: bytes, pattern: bytes, i: nat, j: nat)
    requires j < |pattern| && i + j < |text| && pattern[j] != text[i + j]
    ensures !OccursAt(text, pattern, i)
  {
    if i + |pattern| <= |text| { assert text[i..i + |pattern|][j] == text[i + j]; }
  }

  /** Walking over one piece of what stands behind an offset. */
  lemma Walk(body: bytes, offset: nat, piece: bytes, rest: bytes)
    requires offset <= |body| && body[offset..] == piece + rest
    ensures offset + |piece| <= |body| && body[offset + |piece|..] == rest
    ensures body[offset..offset + |piece|] == piece
  {
    assert body[offset..][..|piece|] == piece;
    assert body[offset..][|piece|..] == rest;
  }

  /** The parser's loop undoes the printer, from behind any delimiter on, exactly for printable parts. */
  lemma {:induction false} PrintedParts(body: bytes, offset: nat, parts: seq<Part>, delimiter: bytes, epilogue: bytes)
    requires offset <= |body| && body[offset..] == Print(parts, delimiter, epilogue)
    requires |delimiter| > 0 && CR !in delimiter && LF !in delimiter
    ensures Parts(body, delimiter, offset) == parts <==> AllPrintable(parts, delimiter)
    decreases |parts|
  {
    if |parts| == 0 {
      NothingPrinted(body, offset, delimiter, epilogue);
    } else {
      var rest := Print(parts[1..], delimiter, epilogue);
      var behind := parts[0].data + (CRLF + (delimiter + rest));
      if Printable(parts[0], delimiter) {
        var next := PrintedStep(body, offset, parts[0], delimiter, behind, rest);
        CutsOutPart(body, delimiter, offset, next, parts[0]);
        PrintedParts(body, next, parts[1..], delimiter, epilogue);
        Uncons(parts);
        SameTail(parts[0], Parts(body, delimiter, next), parts[1..]);
      } else {
        Unprintable(body, offset, parts[0], delimiter, behind);
      }
    }
  }

  lemma SameTail(p: Part, a: seq<Part>, b: seq<Part>)
    ensures [p] + a == [p] + b <==> a == b
  {
    assert ([p] + a)[1..] == a && ([p] + b)[1..] == b;
  }

  /** A part that is not printable never comes back as the first part. */
  lemma {:induction false} Unprintable(body: bytes, offset: nat, p: Part, delimiter: bytes, behind: bytes)
    requires offset <= |body| && body[offset..] == CRLF + (p.headers + (BLANK + behind))
    requires |delimiter| > 0 && !Printable(p, delimiter)
    ensures var parts := Parts(body, delimiter, offset); parts == [] || parts[0] != p
  {
    match Cut(body, delimiter, offset)
    case None =>
    case Some((s, next)) =>
      if PartAt(body, s) == p { CutPrintable(body, offset, p, delimiter, behind, s, next); }
  }

  /** What the parser cuts out as it was printed is printable. */
  lemma CutPrintable(body: bytes, offset: nat, p: Part, delimiter: bytes, behind: bytes, s: Span, next: nat)
    requires offset <= |body| && body[offset..] == CRLF + (p.headers + (BLANK + behind)) && |delimiter| > 0
    requires Cut(body, delimiter, offset) == Some((s, next)) && PartAt(body, s) == p
    ensures Printable(p, delimiter)
  {
    var o, h, d := offset + 2, s.headerEnd, s.dataStart;
    Walk(body, offset, CRLF, p.headers + (BLANK + behind));
    Breaks(body, offset);
    HeadersClean(body, o, p.headers, behind);
    DataClean(body, delimiter, d, s.dataEnd, IndexOf(body, delimiter, d).value);
  }

  lemma HeadersClean(body: bytes, o: nat, headers: bytes, behind: bytes)
    requires o <= |body| && body[o..] == headers + (BLANK + behind) && !EndMark(body, o)
    requires IndexOf(body, BLANK, o) == Some(o + |headers|)
    ensures NoneBefore(headers + BLANK, BLANK, |headers|) && !(DASHES <= headers)
  {
    var text := headers + (BLANK + behind);
    if |headers| >= 2 { assert headers[0] == text[0] == body[o] && headers[1] == text[1] == body[o + 1]; }
    forall i: nat | i < |headers| ensures !OccursAt(headers + BLANK, BLANK, i) {
      assert !OccursAt(text, BLANK, i);
      assert text[i..i + 4] == (headers + BLANK)[i..i + 4];
    }
  }

  lemma DataClean(body: bytes, delimiter: bytes, d: nat, end: nat, n: nat)
    requires d <= |body| && |delimiter| > 0 && IndexOf(body, delimiter, d) == Some(n)
    requires end == Max(d, n - 2) && end <= |body|
    ensures forall i: nat :: !OccursAt(body[d..end], delimiter, i)
  {
    forall i: nat ensures !OccursAt(body[d..end], delimiter, i) {
      if i + |delimiter| <= end - d {
        assert !OccursAt(body[d..], delimiter, i);
        SliceWithin(body, d, end, i, i + |delimiter|);
      }
    }
  }

  lemma SliceWithin(body: bytes, d: nat, end: nat, i: nat, j: nat)
    requires d <= end <= |body| && i <= j <= end - d
    ensures body[d..end][i..j] == body[d..][i..j]
  {
    assert |body[d..end][i..j]| == |body[d..][i..j]|;
    forall k | 0 <= k < j - i ensures body[d..end][i..j][k] == body[d..][i..j][k] {
      assert body[d..end][i + k] == body[d..][i + k];
    }
  }

  lemma {:induction false} NothingPrinted(body: bytes, offset: nat, delimiter: bytes, epilogue: bytes)
    requires offset <= |body| && body[offset..] == DASHES + epilogue
    ensures Parts(body, delimiter, offset) == []
  {
    assert body[offset] == body[offset..][0] && body[offset + 1] == body[offset..][1];
  }

  lemma Uncons(parts: seq<Part>)
    requires |parts| > 0
    ensures [parts[0]] + parts[1..] == parts
  {}

  /** The parser's turn behind `offset` cuts out `p` and goes on at `next`. */
  ghost predicate CutsOut(body: bytes, delimiter: bytes, offset: nat, next: nat, p: Part) {
    && offset <= |body|
    && match Cut(body, delimiter, offset)
       case None => false
       case Some((s, n)) => n == next && PartAt(body, s) == p
  }

  lemma {:induction false} CutsOutPart(body: bytes, delimiter: bytes, offset: nat, next: nat, p: Part)
    requires CutsOut(body, delimiter, offset, next, p)
    ensures offset <= |body| && next <= |body|
    ensures Parts(body, delimiter, offset) == [p] + Parts(body, delimiter, next)
  {}

  /** One printed part is cut out where it was printed. */
  lemma PrintedStep(body: bytes, offset: nat, p: Part, delimiter: bytes, behind: bytes, rest: bytes)
    returns (next: nat)
    requires offset <= |body| && body[offset..] == CRLF + (p.headers + (BLANK + behind))
    requires behind == p.data + (CRLF + (delimiter + rest))
    requires Printable(p, delimiter) && |delimiter| > 0 && CR !in delimiter && LF !in delimiter
    ensures CutsOut(body, delimiter, offset, next, p)
    ensures next <= |body| && body[next..] == rest
  {
    var o := BlankBehind(body, offset, p.headers, behind);
    var h := o + |p.headers|;
    var n := DelimiterBehind(body, h + 4, p.data, delimiter, rest);
    next := n + |delimiter|;
    CutAt(body, delimiter, offset, o, h, n);
  }

  lemma CutAt(body: bytes, delimiter: bytes, offset: nat, o: nat, h: nat, n: nat)
    requires offset < |body| && SkipBreak(body, offset) == o && !EndMark(body, o)
    requires IndexOf(body, BLANK, o) == Some(h) && IndexOf(body, delimiter, h + 4) == Some(n) && h + 6 <= n
    ensures Cut(body, delimiter, offset) == Some((Span(o, h, h + 4, n - 2), n + |delimiter|))
  {}

  /** The header section of a printed part. */
  lemma BlankBehind(body: bytes, offset: nat, headers: bytes, behind: bytes) returns (o: nat)
    requires offset <= |body| && body[offset..] == CRLF + (headers + (BLANK + behind))
    requires NoneBefore(headers + BLANK, BLANK, |headers|) && !(DASHES <= headers)
    ensures offset < |body| && SkipBreak(body, offset) == o && o == offset + 2 && !EndMark(body, o)
    ensures o + |headers| + 4 <= |body| && body[o..o + |headers|] == headers && body[o + |headers| + 4..] == behind
    ensures IndexOf(body, BLANK, o) == Some(o + |headers|)
  {
    o := offset + 2;
    Walk(body, offset, CRLF, headers + (BLANK + behind));
    Breaks(body, offset);
    Walk(body, o, headers, BLANK + behind);
    Walk(body, o + |headers|, BLANK, behind);
    NoEndMark(body, o, headers, behind);
    BlankFound(headers, behind);
    IndexFound(body, BLANK, o, headers + (BLANK + behind), |headers|);
  }

  /** The data of a printed part. */
  lemma DelimiterBehind(body: bytes, d: nat, data: bytes, delimiter: bytes, rest: bytes) returns (n: nat)
    requires d <= |body| && body[d..] == data + (CRLF + (delimiter + rest))
    requires |delimiter| > 0 && CR !in delimiter && LF !in delimiter
    requires forall i: nat :: !OccursAt(data, delimiter, i)
    ensures n == d + |data| + 2 && n + |delimiter| <= |body|
    ensures IndexOf(body, delimiter, d) == Some(n) && body[d..n - 2] == data && body[n + |delimiter|..] == rest
  {
    n := d + |data| + 2;
    Walk(body, d, data, CRLF + (delimiter + rest));
    Walk(body, d + |data|, CRLF, delimiter + rest);
    Walk(body, n, delimiter, rest);
    DelimiterFound(data, delimiter, rest);
    IndexFound(body, delimiter, d, data + (CRLF + (delimiter + rest)), |data| + 2);
  }

  lemma Breaks(body: bytes, offset: nat)
    requires offset + 2 <= |body| && body[offset..offset + 2] == CRLF
    ensures SkipBreak(body, offset) == offset + 2
  {
    assert body[offset] == body[offset..offset + 2][0] && body[offset + 1] == body[offset..offset + 2][1];
  }

  lemma NoEndMark(body: bytes, o: nat, headers: bytes, behind: bytes)
    requires o <= |body| && body[o..] == headers + (BLANK + behind) && !(DASHES <= headers)
    ensures !EndMark(body, o)
  {
    var text := headers + (BLANK + behind);
    assert body[o] == text[0] && body[o + 1] == text[1];
    if |headers| >= 2 { assert headers == headers[..2] + headers[2..]; }
  }

  lemma {:induction false} AllPartsFrom(body: bytes, boundary: bytes, offset: nat)
    requires Entry(body, DASHES + boundary) == Some(offset)
    ensures AllParts(body, boundary) == Parts(body, DASHES + boundary, offset)
  {}

  /** Parsing a printed body gives back the parts that were printed exactly if all of them are printable. */
  lemma {:induction false} PrintParse(parts: seq<Part>, boundary: bytes, epilogue: bytes)
    requires CR !in boundary && LF !in boundary
    ensures AllParts(PrintBody(parts, boundary, epilogue), boundary) == parts
            <==> AllPrintable(parts, DASHES + boundary)
  {
    var delimiter, body := DASHES + boundary, PrintBody(parts, boundary, epilogue);
    assert body[0..] == body;
    Walk(body, 0, delimiter, Print(parts, delimiter, epilogue));
    IndexFound(body, delimiter, 0, body, 0);
    AllPartsFrom(body, boundary, |delimiter|);
    PrintedParts(body, |delimiter|, parts, delimiter, epilogue);
  }
}
