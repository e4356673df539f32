/**
 What the multipart parser collects within its limits, and the parser as the program runs it: a nested
 loop that searches, and a loop that moves an offset through the body.
 */
module MultipartParser {
  import opened Prelude
  import opened Search
  import opened Multipart

  /** What a header section says about its part: a file, a text field, or neither. */
  datatype Kind = FileKind(filename: string, field: Option<string>, mimetype: string) | FieldKind(name: string) | Nameless

  datatype File = File(kind: Kind, data: bytes)

  datatype Limits = Limits(maxFiles: nat, maxFileSize: nat, maxFieldSize: nat)

  /** The form, or the refusal with status 413. */
  datatype Outcome = Form(fields: map<string, bytes>, files: seq<File>) | TooLarge

  function Add(out: Outcome, kind: Kind, data: bytes, limits: Limits): Outcome {
    match out
    case TooLarge => TooLarge
    case Form(fields, files) =>
      match kind
      case FileKind(_, _, _) =>
        if |files| >= limits.maxFiles || |data| > limits.maxFileSize then TooLarge
        else Form(fields, files + [File(kind, data)])
      case FieldKind(name) => if |data| > limits.maxFieldSize then TooLarge else Form(fields[name := data], files)
      case Nameless => out
  }

  function Collect(parts: seq<Part>, describe: bytes -> Kind, limits: Limits): Outcome {
    if parts == [] then Form(map[], [])
    else
      var p := parts[|parts| - 1];
      Add(Collect(parts[..|parts| - 1], describe, limits), describe(p.headers), p.data, limits)
  }

  // ----- what is collected -----

  function FilesOf(parts: seq<Part>, describe: bytes -> Kind): seq<File> {
    if parts == [] then []
    else
      var p := parts[|parts| - 1];
      FilesOf(parts[..|parts| - 1], describe)
      + if describe(p.headers).FileKind? then [File(describe(p.headers), p.data)] else []
  }

  /** The data of the last field of a name. */
  function FieldOf(parts: seq<Part>, describe: bytes -> Kind, name: string): Option<bytes> {
    if parts == [] then None
    else
      var p := parts[|parts| - 1];
      if describe(p.headers) == FieldKind(name) then Some(p.data)
      else FieldOf(parts[..|parts| - 1], describe, name)
  }

  predicate Fits(p: Part, describe: bytes -> Kind, limits: Limits) {
    match describe(p.headers)
    case FileKind(_, _, _) => |p.data| <= limits.maxFileSize
    case FieldKind(_) => |p.data| <= limits.maxFieldSize
    case Nameless => true
  }

  predicate AllFit(parts: seq<Part>, describe: bytes -> Kind, limits: Limits) {
    parts == []
    || (Fits(parts[|parts| - 1], describe, limits) && AllFit(parts[..|parts| - 1], describe, limits))
  }

  /**
   A body is refused exactly if it has too many files or some file or field is too large; otherwise the
   form has all files in order and for each name the last field.
   */
  lemma {:induction false} CollectExactly(parts: seq<Part>, describe: bytes -> Kind, limits: Limits)
    ensures var out, files := Collect(parts, describe, limits), FilesOf(parts, describe);
            && (out.Form? <==> |files| <= limits.maxFiles && AllFit(parts, describe, limits))
            && (out.Form? ==> out.files == files)
            && (out.Form? ==> forall name: string ::
                  FieldOf(parts, describe, name) == if name in out.fields then Some(out.fields[name]) else None)
  {
    if parts != [] {
      var before, p := parts[..|parts| - 1], parts[|parts| - 1];
      CollectExactly(before, describe, limits);
      if describe(p.headers).FileKind? {
        assert |FilesOf(parts, describe)| == |FilesOf(before, describe)| + 1;
      } else {
        assert FilesOf(parts, describe) == FilesOf(before, describe);
      }
    }
  }

  lemma {:induction false} RefusalStays(parts: seq<Part>, describe: bytes -> Kind, limits: Limits, i: nat)
    requires i <= |parts| && Collect(parts[..i], describe, limits).TooLarge?
    ensures Collect(parts, describe, limits).TooLarge?
  {
    if i < |parts| {
      assert parts[..|parts| - 1][..i] == parts[..i];
      RefusalStays(parts[..|parts| - 1], describe, limits, i);
    } else {
      assert parts[..i] == parts;
    }
  }

  /** The form posted is the form received, for parts that can be printed. */
  lemma {:induction false} PostedIsReceived(parts: seq<Part>, boundary: bytes, epilogue: bytes,
                                            describe: bytes -> Kind, limits: Limits)
    requires AllPrintable(parts, DASHES + boundary) && CR !in boundary && LF !in boundary
    requires |FilesOf(parts, describe)| <= limits.maxFiles && AllFit(parts, describe, limits)
    ensures var out := Collect(AllParts(PrintBody(parts, boundary, epilogue), boundary), describe, limits);
            && out.Form? && out.files == FilesOf(parts, describe)
            && forall name: string ::
                 FieldOf(parts, describe, name) == if name in out.fields then Some(out.fields[name]) else None
  {
    PrintParse(parts, boundary, epilogue);
    CollectExactly(parts, describe, limits);
  }

  // ----- the program's methods -----

  lemma SuffixOccurs(body: bytes, pattern: bytes, from: nat, i: nat)
    requires from <= |body|
    ensures OccursAt(body[from..], pattern, i) <==> OccursAt(body, pattern, from + i)
  {
    if from + i + |pattern| <= |body| {
      assert body[from..][i..i + |pattern|] == body[from + i..from + i + |pattern|];
    }
  }

  method MatchesAt(body: bytes, pattern: bytes, i: nat) returns (found: bool)
    requires i + |pattern| <= |body|
    ensures found == OccursAt(body, pattern, i)
  {
    for j := 0 to |pattern|
      invariant body[i..i + j] == pattern[..j]
    {
      if body[i + j] != pattern[j] {
        Mismatch(body, pattern, i, j);
        return false;
      }
      assert body[i..i + j + 1] == body[i..i + j] + [body[i + j]];
    }
    assert pattern[..|pattern|] == pattern;
    return true;
  }

  method IndexOfFrom(body: bytes, pattern: bytes, from: nat) returns (r: Option<nat>)
    requires from <= |body|
    ensures r == IndexOf(body, pattern, from)
  {
    var i := from;
    while i + |pattern| <= |body|
      invariant from <= i && NoneBefore(body[from..], pattern, i - from)
      decreases |body| - i
    {
      var found := MatchesAt(body, pattern, i);
      SuffixOccurs(body, pattern, from, i - from);
      if found {
        FindAt(body[from..], pattern, i - from);
        return Some(i);
      }
      i := i + 1;
    }
    NotFound(body, pattern, from, i);
    return None;
  }

  lemma NotFound(body: bytes, pattern: bytes, from: nat, i: nat)
    requires from <= |body| && from <= i && i + |pattern| > |body|
    requires NoneBefore(body[from..], pattern, i - from)
    ensures IndexOf(body, pattern, from) == None
  {}

  /** One turn up to the part's data: None where the program leaves its loop. */
  method NextCut(body: bytes, delimiter: bytes, start: nat) returns (r: Option<(Span, nat)>)
    requires start < |body|
    ensures r == Cut(body, delimiter, start)
  {
    var offset := start;
    if offset + 1 < |body| && body[offset] == CR && body[offset + 1] == LF { offset := offset + 2; }
    if offset + 1 < |body| && body[offset] == DASH && body[offset + 1] == DASH { return None; }
    var headerEnd := IndexOfFrom(body, BLANK, offset);
    if headerEnd.None? { return None; }
    var h := headerEnd.value;
    var boundary := IndexOfFrom(body, delimiter, h + 4);
    if boundary.None? { return None; }
    var n := boundary.value;
    return Some((Span(offset, h, h + 4, Max(h + 4, n - 2)), n + |delimiter|));
  }

  lemma {:induction false} NoMoreParts(body: bytes, delimiter: bytes, offset: nat, sofar: seq<Part>)
    requires offset <= |body| && Cut(body, delimiter, offset).None?
    ensures sofar + Parts(body, delimiter, offset) == sofar
  {}

  lemma {:induction false} NextPart(body: bytes, delimiter: bytes, offset: nat, s: Span, next: nat, sofar: seq<Part>)
    requires offset <= |body| && Cut(body, delimiter, offset) == Some((s, next))
    ensures s.headerStart <= s.headerEnd <= |body| && s.dataStart <= s.dataEnd <= |body| && offset < next <= |body|
    ensures sofar + Parts(body, delimiter, offset) == (sofar + [PartAt(body, s)]) + Parts(body, delimiter, next)
  {
    Associate(sofar, [PartAt(body, s)], Parts(body, delimiter, next));
  }

  lemma Associate(a: seq<Part>, b: seq<Part>, c: seq<Part>)
    ensures a + (b + c) == (a + b) + c
  {}

  lemma {:induction false} CollectNext(parts: seq<Part>, p: Part, describe: bytes -> Kind, limits: Limits)
    ensures Collect(parts + [p], describe, limits)
            == Add(Collect(parts, describe, limits), describe(p.headers), p.data, limits)
  {
    assert (parts + [p])[..|parts|] == parts;
  }

  lemma {:induction false} Refused(sofar: seq<Part>, rest: seq<Part>, describe: bytes -> Kind, limits: Limits)
    requires Collect(sofar, describe, limits).TooLarge?
    ensures Collect(sofar + rest, describe, limits).TooLarge?
  {
    assert (sofar + rest)[..|sofar|] == sofar;
    RefusalStays(sofar + rest, describe, limits, |sofar|);
  }

  /** The loop over the parts: it ends at the end mark, where a search fails, or at a refusal. */
  method ParseParts(body: bytes, delimiter: bytes, start: nat, describe: bytes -> Kind, limits: Limits)
    returns (out: Outcome)
    requires start <= |body|
    ensures out == Collect(Parts(body, delimiter, start), describe, limits)
  {
    var offset := start;
    out := Form(map[], []);
    ghost var sofar: seq<Part> := [];
    ghost var all := Parts(body, delimiter, start);
    assert [] + all == all;
    while offset < |body|
      invariant offset <= |body| && all == sofar + Parts(body, delimiter, offset)
      invariant out.Form? && Collect(sofar, describe, limits) == out
      decreases |body| - offset
    {
      var cut := NextCut(body, delimiter, offset);
      if cut.None? {
        NoMoreParts(body, delimiter, offset, sofar);
        return;
      }
      var (s, next) := cut.value;
      NextPart(body, delimiter, offset, s, next, sofar);
      ghost var p := PartAt(body, s);
      CollectNext(sofar, p, describe, limits);
      out := Add(out, describe(body[s.headerStart..s.headerEnd]), body[s.dataStart..s.dataEnd], limits);
      sofar, offset := sofar + [p], next;
      if out.TooLarge? {
        Refused(sofar, Parts(body, delimiter, offset), describe, limits);
        return;
      }
    }
    NoMoreParts(body, delimiter, offset, sofar);
  }

  method FirstEntry(body: bytes, delimiter: bytes) returns (r: Option<nat>)
    ensures r == Entry(body, delimiter)
  {
    var first := IndexOfFrom(body, delimiter, 0);
    if first.None? { return None; }
    return Some(first.value + |delimiter|);
  }

  method ParseMultipartBody(body: bytes, boundary: bytes, describe: bytes -> Kind, limits: Limits)
    returns (out: Outcome)
    ensures out == Collect(AllParts(body, boundary), describe, limits)
  {
    var delimiter := DASHES + boundary;
    var start := FirstEntry(body, delimiter);
    if start.None? { return Form(map[], []); }
    out := ParseParts(body, delimiter, start.value, describe, limits);
  }
}
