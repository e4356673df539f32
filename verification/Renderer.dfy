/**
 The fast-path renderer and the request objects as the programs build them, in loops that push to an
 output or fill an object. Each is proved against the functions of `FastPath` and `Rendering`.
 */
module Renderer {
  import opened Prelude
  import opened Json
  import opened FastPath
  import opened QueryText
  import opened Rendering

  // ----- strings and lists -----

  lemma {:induction false} EscapeNext(s: string, wide: bool, i: nat)
    requires i < |s|
    ensures Escape(s[i..], wide) == EscapeChar(s[i], wide) + Escape(s[i + 1..], wide)
  {
    assert s[i..][1..] == s[i + 1..];
  }

  method AppendJsonString(output: string, value: string) returns (out: string)
    ensures out == output + Quote(value, true)
  {
    out := output + ['"'];
    assert value[0..] == value;
    for i := 0 to |value|
      invariant out + Escape(value[i..], true) == output + ['"'] + Escape(value, true)
    {
      EscapeNext(value, true, i);
      Json.Regroup(out, EscapeChar(value[i], true), Escape(value[i + 1..], true));
      var c := value[i];
      if c == '"' { out := out + "\\\""; }
      else if c == '\\' { out := out + "\\\\"; }
      else if c == '\n' { out := out + "\\n"; }
      else if c == '\r' { out := out + "\\r"; }
      else if c == '\t' { out := out + "\\t"; }
      else if c == '\U{08}' { out := out + "\\b"; }
      else if c == '\U{0C}' { out := out + "\\f"; }
      else if Control(c, true) { out := out + ['\\', 'u', '0', '0', HexDigit(c as int / 16), HexDigit(c as int % 16)]; }
      else { out := out + [c]; }
    }
    assert out + "" == out;
    out := out + ['"'];
  }

  lemma {:induction false} JoinAppend(texts: seq<string>, t: string)
    ensures JoinComma(texts + [t]) == if texts == [] then t else JoinComma(texts) + ([','] + t)
  {
    if |texts| == 1 {
      assert (texts + [t])[1..] == [t];
    } else if |texts| > 1 {
      JoinAppend(texts[1..], t);
      assert (texts + [t])[1..] == texts[1..] + [t];
      Json.Regroup([','], JoinComma(texts[1..]), [','] + t);
      Json.Regroup(texts[0], [','] + JoinComma(texts[1..]), [','] + t);
    }
  }

  /** Appends one more element, after a comma unless it is the first. */
  lemma TextsNext(start: string, texts: seq<string>, i: nat)
    requires i < |texts|
    ensures start + JoinComma(texts[..i + 1])
            == start + JoinComma(texts[..i]) + (if i > 0 then [','] else []) + texts[i]
  {
    JoinNext(start, texts[..i], texts[i]);
    assert texts[..i + 1] == texts[..i] + [texts[i]];
  }

  lemma {:induction false} JoinNext(start: string, texts: seq<string>, t: string)
    ensures start + JoinComma(texts + [t])
            == (if texts == [] then start + t else start + JoinComma(texts) + [','] + t)
  {
    JoinAppend(texts, t);
    if texts != [] {
      Json.Regroup(start, JoinComma(texts), [','] + t);
      Json.Regroup(start + JoinComma(texts), [','], t);
    }
  }

  lemma {:induction false} QuotedAt(values: seq<string>, i: nat)
    requires i < |values|
    ensures |Quoted(values)| == |values| && Quoted(values)[i] == Quote(values[i], true)
  {
    if i > 0 { QuotedAt(values[1..], i - 1); } else { QuotedLength(values); }
  }

  lemma {:induction false} QuotedLength(values: seq<string>)
    ensures |Quoted(values)| == |values|
  {
    if values != [] { QuotedLength(values[1..]); }
  }

  method AppendList(output: string, values: seq<string>) returns (out: string)
    ensures out == output + Bracketed('[', JoinComma(Quoted(values)), ']')
  {
    var texts := Quoted(values);
    QuotedLength(values);
    out := output + ['['];
    assert texts[..0] == [] && out + JoinComma([]) == out;
    for i := 0 to |values|
      invariant out == output + ['['] + JoinComma(texts[..i])
    {
      QuotedAt(values, i);
      TextsNext(output + ['['], texts, i);
      if i > 0 { out := out + [',']; }
      out := AppendJsonString(out, values[i]);
    }
    assert texts[..|values|] == texts;
    out := out + [']'];
    Json.Regroup(output, ['['] + JoinComma(texts), [']']);
    Json.Regroup(output, ['['], JoinComma(texts));
  }

  method AppendResolved(output: string, r: Resolved) returns (out: string)
    requires r != Missing
    ensures out == output + RenderResolved(r)
  {
    match r
    case Single(v) => out := AppendJsonString(output, v);
    case Multi(vs) => out := AppendList(output, vs);
  }

  // ----- lookups on the native side -----

  method LookupQueryValue(entries: seq<Pair>, key: string) returns (r: Resolved)
    ensures r == Grouped(Matches(entries, key))
  {
    var values := [];
    for i := 0 to |entries|
      invariant values == Matches(entries[..i], key)
    {
      assert entries[..i + 1][..i] == entries[..i];
      if entries[i].key == key { values := values + [entries[i].value]; }
    }
    assert entries[..|entries|] == entries;
    return if |values| == 0 then Missing else if |values| == 1 then Single(values[0]) else Multi(values);
  }

  function Behind(values: seq<string>, i: nat): seq<string> {
    if i <= |values| then values[i..] else []
  }

  method LookupParamValue(names: seq<string>, values: seq<string>, key: string) returns (r: Option<string>)
    ensures r == FirstParam(names, values, key)
  {
    assert names[0..] == names && Behind(values, 0) == values;
    for i := 0 to |names|
      invariant FirstParam(names, values, key) == FirstParam(names[i..], Behind(values, i), key)
    {
      if names[i] == key { return if i < |values| then Some(values[i]) else None; }
      assert names[i..][1..] == names[i + 1..];
      assert Behind(values, i + 1) == if Behind(values, i) == [] then [] else Behind(values, i)[1..];
    }
    return None;
  }

  method LookupHeaderValue(headers: seq<Pair>, key: string) returns (r: Option<string>)
    ensures r == FirstHeader(headers, key)
  {
    assert headers[0..] == headers;
    for i := 0 to |headers|
      invariant FirstHeader(headers, key) == FirstHeader(headers[i..], key)
    {
      if Lower(headers[i].key) == Lower(key) { return Some(headers[i].value); }
      assert headers[i..][1..] == headers[i + 1..];
    }
    return None;
  }

  method ResolveDynamicValue(s: Source, q: Request) returns (r: Resolved)
    ensures r == Resolve(s, q)
  {
    match s
    case ParamSource(k) =>
      var v := LookupParamValue(q.names, q.values, k);
      r := FromOption(v);
    case QuerySource(k) => r := LookupQueryValue(q.query, k);
    case HeaderSource(k) =>
      var v := LookupHeaderValue(q.headers, k);
      r := FromOption(v);
  }

  // ----- the query object on the native side -----

  lemma {:induction false} PushAt(buckets: seq<Bucket>, key: string, value: string, i: nat)
    requires i <= |buckets| && forall j | 0 <= j < i :: buckets[j].key != key
    ensures i == |buckets| ==> Push(buckets, key, value) == buckets + [Bucket(key, [value])]
    ensures i < |buckets| && buckets[i].key == key ==>
              Push(buckets, key, value) == buckets[i := Bucket(key, buckets[i].values + [value])]
  {
    if i > 0 { PushAt(buckets[1..], key, value, i - 1); }
  }

  method PushToBucket(buckets: seq<Bucket>, key: string, value: string) returns (b: seq<Bucket>)
    ensures b == Push(buckets, key, value)
  {
    var i := 0;
    while i < |buckets| && buckets[i].key != key
      invariant i <= |buckets| && forall j | 0 <= j < i :: buckets[j].key != key
    {
      i := i + 1;
    }
    PushAt(buckets, key, value, i);
    if i < |buckets| {
      b := buckets[i := Bucket(key, buckets[i].values + [value])];
    } else {
      b := buckets + [Bucket(key, [value])];
    }
  }

  method GroupQuery(entries: seq<Pair>) returns (buckets: seq<Bucket>)
    ensures buckets == Buckets(entries) && Neat(buckets)
  {
    buckets := [];
    for i := 0 to |entries|
      invariant buckets == Buckets(entries[..i])
    {
      assert entries[..i + 1][..i] == entries[..i];
      if Reserved(entries[i].key) { continue; }
      buckets := PushToBucket(buckets, entries[i].key, entries[i].value);
    }
    assert entries[..|entries|] == entries;
    NeatBuckets(entries);
  }

  lemma {:induction false} PieceTextsAppend(a: seq<Piece>, b: seq<Piece>)
    ensures PieceTexts(a + b) == PieceTexts(a) + PieceTexts(b) && |PieceTexts(a)| == |a|
  {
    if a == [] {
      assert a + b == b;
    } else {
      assert (a + b)[1..] == a[1..] + b;
      PieceTextsAppend(a[1..], b);
    }
  }

  lemma {:induction false} OnePiece(pieces: seq<Piece>, p: Piece)
    ensures PieceTexts(pieces + [p]) == PieceTexts(pieces) + [PieceText(p)] && |PieceTexts(pieces)| == |pieces|
  {
    PieceTextsAppend(pieces, [p]);
    assert PieceTexts([p]) == [PieceText(p)];
  }

  lemma {:induction false} BucketPieceAt(buckets: seq<Bucket>, i: nat)
    requires Neat(buckets) && i < |buckets|
    ensures buckets[i].values != []
    ensures var r := Grouped(buckets[i].values);
            BucketPieces(buckets)[i] == Piece(buckets[i].key, true, RenderResolved(r), ToValue(r))
  {
    if i > 0 { BucketPieceAt(buckets[1..], i - 1); }
  }

  method AppendBucket(output: string, b: Bucket) returns (out: string)
    requires b.values != []
    ensures var r := Grouped(b.values); out == output + PieceText(Piece(b.key, true, RenderResolved(r), ToValue(r)))
  {
    out := AppendJsonString(output, b.key);
    out := out + [':'];
    out := AppendResolved(out, Grouped(b.values));
    MemberAppended(output, Piece(b.key, true, RenderResolved(Grouped(b.values)), ToValue(Grouped(b.values))));
  }

  lemma {:induction false} PieceTextAt(pieces: seq<Piece>, i: nat)
    requires i < |pieces|
    ensures |PieceTexts(pieces)| == |pieces| && PieceTexts(pieces)[i] == PieceText(pieces[i])
  {
    PieceTextsAppend(pieces, []);
    if i > 0 { PieceTextAt(pieces[1..], i - 1); }
  }

  predicate IsBucketText(b: Bucket, text: string) {
    b.values != []
    && (var r := Grouped(b.values); text == PieceText(Piece(b.key, true, RenderResolved(r), ToValue(r))))
  }

  lemma {:induction false} BucketTextAt(buckets: seq<Bucket>, i: nat)
    requires Neat(buckets) && i < |buckets|
    ensures var texts := PieceTexts(BucketPieces(buckets));
            |texts| == |buckets| && IsBucketText(buckets[i], texts[i])
  {
    BucketPieceAt(buckets, i);
    PieceTextAt(BucketPieces(buckets), i);
  }

  method AppendBuckets(buckets: seq<Bucket>, ghost texts: seq<string>) returns (out: string)
    requires |texts| == |buckets| && forall i | 0 <= i < |buckets| :: IsBucketText(buckets[i], texts[i])
    ensures out == ['{'] + JoinComma(texts) + ['}']
  {
    out := ['{'];
    assert texts[..0] == [] && out + JoinComma([]) == out;
    for i := 0 to |buckets|
      invariant out == ['{'] + JoinComma(texts[..i])
    {
      assert IsBucketText(buckets[i], texts[i]);
      TextsNext(['{'], texts, i);
      if i > 0 { out := out + [',']; }
      out := AppendBucket(out, buckets[i]);
    }
    assert texts[..|buckets|] == texts;
    out := out + ['}'];
  }

  method SerializeQueryObject(entries: seq<Pair>) returns (out: string)
    ensures Neat(Buckets(entries)) && out == RenderQuery(entries)
  {
    var buckets := GroupQuery(entries);
    ghost var texts := PieceTexts(BucketPieces(buckets));
    PieceTextsAppend(BucketPieces(buckets), []);
    forall i | 0 <= i < |buckets| ensures IsBucketText(buckets[i], texts[i]) { BucketTextAt(buckets, i); }
    out := AppendBuckets(buckets, texts);
  }

  lemma MemberAppended(before: string, p: Piece)
    ensures before + Quote(p.name, p.wide) + [':'] + p.text == before + PieceText(p)
  {
    Json.Regroup(before, Quote(p.name, p.wide), [':'] + p.text);
    Json.Regroup(before + Quote(p.name, p.wide), [':'], p.text);
  }

  // ----- bodies -----

  lemma {:induction false} PiecesAppend(fields: seq<Field>, f: Field, q: Request)
    ensures Pieces(fields + [f], q) == Pieces(fields, q) + PieceOf(f, q)
  {
    if fields == [] {
      assert ([f])[1..] == [] && fields + [f] == [f];
    } else {
      assert (fields + [f])[1..] == fields[1..] + [f];
      PiecesAppend(fields[1..], f, q);
    }
  }

  /** The compiled start of a member: its quoted name and the colon. */
  function KeyPrefix(name: string): string {
    Quote(name, false) + [':']
  }

  /** The member of one field behind what is written already, or nothing for a missing value. */
  method AppendField(output: string, f: Field, q: Request, wrote: bool) returns (out: string, w: bool)
    ensures w == (wrote || PieceOf(f, q) != [])
    ensures out == if PieceOf(f, q) == [] then output
                   else output + (if wrote then [','] else []) + PieceText(PieceOf(f, q)[0])
  {
    out, w := output, wrote;
    var resolved := Missing;
    if f.ValueField? {
      resolved := ResolveDynamicValue(Compile(f.e), q);
      if resolved == Missing { return; }
    }
    if w { out := out + [',']; }
    assert out == output + (if wrote then [','] else []);
    ghost var before := out;
    out := out + KeyPrefix(f.name);
    match f {
      case LiteralField(_, text, _) => out := out + text;
      case ValueField(_, _) => out := AppendResolved(out, resolved);
      case QueryField(_) =>
        var raw := SerializeQueryObject(q.query);
        out := out + raw;
    }
    Json.Regroup(before, Quote(f.name, false), [':']);
    MemberAppended(before, PieceOf(f, q)[0]);
    w := true;
  }

  method RenderDynamicJsonBody(fields: seq<Field>, q: Request) returns (out: string)
    ensures out == RenderObject(fields, q)
  {
    out := ['{'];
    var wrote := false;
    assert fields[..0] == [] && out + JoinComma([]) == out;
    for i := 0 to |fields|
      invariant wrote <==> Pieces(fields[..i], q) != []
      invariant out == ['{'] + JoinComma(PieceTexts(Pieces(fields[..i], q)))
    {
      ghost var sofar, piece := Pieces(fields[..i], q), PieceOf(fields[i], q);
      assert fields[..i + 1] == fields[..i] + [fields[i]];
      PiecesAppend(fields[..i], fields[i], q);
      if piece == [] {
        assert sofar + piece == sofar;
      } else {
        assert piece == [piece[0]];
        if sofar == [] { assert out == ['{'] && out + [] == ['{']; }
        OnePiece(sofar, piece[0]);
        JoinNext(['{'], PieceTexts(sofar), PieceText(piece[0]));
      }
      out, wrote := AppendField(out, fields[i], q, wrote);
    }
    assert fields[..|fields|] == fields;
    out := out + ['}'];
  }

  method RenderDynamicTextBody(segments: seq<Segment>, q: Request) returns (out: string)
    ensures out == RenderText(segments, q)
  {
    out := "";
    assert segments[0..] == segments;
    for i := 0 to |segments|
      invariant out + RenderText(segments[i..], q) == RenderText(segments, q)
    {
      assert segments[i..][1..] == segments[i + 1..];
      ghost var before := out;
      match segments[i] {
        case Literal(text) => out := out + text;
        case Dynamic(e) =>
          var r := ResolveDynamicValue(Compile(e), q);
          match r {
            case Missing => out := out + "undefined";
            case Single(v) => out := out + v;
            case Multi(vs) => out := AppendJoined(out, vs);
          }
      }
      Json.Regroup(before, out[|before|..], RenderText(segments[i + 1..], q));
    }
    assert out + "" == out;
  }

  method AppendJoined(output: string, values: seq<string>) returns (out: string)
    ensures out == output + JoinComma(values)
  {
    out := output;
    assert values[..0] == [] && out + JoinComma([]) == out;
    for i := 0 to |values|
      invariant out == output + JoinComma(values[..i])
    {
      JoinNext(output, values[..i], values[i]);
      assert values[..i + 1] == values[..i] + [values[i]];
      if i > 0 { out := out + [',']; }
      out := out + values[i];
    }
    assert values[..|values|] == values;
  }

  // ----- request objects on the JavaScript side -----

  method ParseQuery(url: AsciiText) returns (m: map<string, Resolved>)
    ensures m == QueryObject(JsEntries(url))
  {
    m := ParsePairs(QueryOf(url));
  }

  method ParsePairs(query: AsciiText) returns (m: map<string, Resolved>)
    ensures m == QueryObject(JsPairs(RawPairs(query)))
  {
    m := map[];
    var left: Option<AsciiText> := Some(query);
    ghost var seen: seq<Pair> := [];
    assert seen + Remaining(left) == Remaining(left);
    while left.Some?
      invariant m == QueryObject(seen) && seen + Remaining(left) == Remaining(Some(query))
      decreases if left.Some? then |left.value| + 1 else 0
    {
      RemainingNext(left.value, seen);
      var (pair, next) := Cut(left.value, '&');
      if pair != "" {
        var raw := PairOf(pair);
        var entry := JsPair(raw);
        QueryObjectNext(seen, entry);
        seen := seen + [entry];
        if !Reserved(entry.key) { m := PushQueryEntry(m, entry.key, entry.value); }
      }
      left := next;
    }
    assert seen == Remaining(Some(query));
  }

  ghost function Remaining(left: Option<AsciiText>): seq<Pair> {
    if left.Some? then JsPairs(RawPairs(left.value)) else []
  }

  lemma {:induction false} RemainingNext(left: AsciiText, seen: seq<Pair>)
    ensures var (pair, next) := Cut(left, '&');
            seen + Remaining(Some(left))
            == (if pair == "" then seen else seen + [JsPair(PairOf(pair))]) + Remaining(next)
  {
    var (pair, next) := Cut(left, '&');
    var others := if next.Some? then RawPairs(next.value) else [];
    if pair != "" {
      RawPairsNext(left, PairOf(pair), others);
      JsPairsNext(seen, PairOf(pair), others);
    } else {
      assert [] + others == others;
    }
  }

  lemma {:induction false} RawPairsNext(left: AsciiText, raw: RawPair, others: seq<RawPair>)
    requires var (pair, next) := Cut(left, '&');
             pair != "" && raw == PairOf(pair) && others == if next.Some? then RawPairs(next.value) else []
    ensures RawPairs(left) == [raw] + others
  {}

  lemma {:induction false} JsPairsNext(seen: seq<Pair>, raw: RawPair, others: seq<RawPair>)
    ensures seen + JsPairs([raw] + others) == seen + [JsPair(raw)] + JsPairs(others)
  {
    PairsCons(raw, others);
    Associate(seen, [JsPair(raw)], JsPairs(others));
  }

  lemma {:induction false} QueryObjectNext(seen: seq<Pair>, p: Pair)
    ensures QueryObject(seen + [p])
            == if Reserved(p.key) then QueryObject(seen) else PushQueryEntry(QueryObject(seen), p.key, p.value)
  {
    assert (seen + [p])[..|seen|] == seen;
  }

  lemma {:induction false} LastParamAppend(names: seq<string>, values: seq<string>, n: string, v: string, key: string)
    requires |names| == |values|
    ensures LastParam(names + [n], values + [v], key)
            == if n == key && !Reserved(key) then Some(v) else LastParam(names, values, key)
  {
    if names != [] {
      assert (names + [n])[1..] == names[1..] + [n] && (values + [v])[1..] == values[1..] + [v];
      LastParamAppend(names[1..], values[1..], n, v, key);
    } else {
      assert ([n])[1..] == [] && names + [n] == [n] && values + [v] == [v];
    }
  }

  method MaterializeParams(names: seq<string>, values: seq<string>) returns (m: map<string, string>)
    requires |names| == |values|
    ensures forall k: string :: LastParam(names, values, k) == if k in m then Some(m[k]) else None
  {
    m := map[];
    for i := 0 to |values|
      invariant forall k: string :: LastParam(names[..i], values[..i], k) == if k in m then Some(m[k]) else None
    {
      assert names[..i + 1] == names[..i] + [names[i]] && values[..i + 1] == values[..i] + [values[i]];
      forall k: string
        ensures LastParam(names[..i + 1], values[..i + 1], k)
                == if names[i] == k && !Reserved(k) then Some(values[i]) else LastParam(names[..i], values[..i], k)
      {
        LastParamAppend(names[..i], values[..i], names[i], values[i], k);
      }
      if Reserved(names[i]) { continue; }
      m := m[names[i] := values[i]];
    }
    assert names[..|values|] == names && values[..|values|] == values;
  }
}
