/**
 The two sides of the request envelope as the programs run them: the writer pushes onto a growing
 buffer, the decoder moves an offset through the octets. Each is proved against `RequestEnvelope`.
 */
module RequestCodec {
  import opened Prelude
  import opened Wire
  import opened RequestEnvelope

  // ----- writer -----

  method CountSelected(headers: seq<Header>, plan: Plan) returns (n: nat)
    ensures n == |Selected(headers, plan)|
  {
    n := 0;
    assert headers[0..] == headers;
    for i := 0 to |headers|
      invariant n + |Selected(headers[i..], plan)| == |Selected(headers, plan)|
    {
      assert headers[i..][1..] == headers[i + 1..];
      if Included(plan, headers[i].name) { n := n + 1; }
    }
  }

  lemma NextValue(start: bytes, frame: bytes, vs: seq<bytes>, i: nat)
    requires i < |vs| && AllValuesFit(vs[i..]) && frame + Values(vs[i..]) == start
    ensures AllValuesFit(vs[i + 1..]) && frame + LE16(|vs[i]|) + vs[i] + Values(vs[i + 1..]) == start
  {
    assert vs[i..][1..] == vs[i + 1..];
    Regroup(frame, Value(vs[i]), Values(vs[i + 1..]));
    Regroup(frame, LE16(|vs[i]|), vs[i]);
  }

  /** Stops at the first value that is too long. */
  method PushValues(start: bytes, vs: seq<bytes>) returns (frame: Option<bytes>)
    ensures frame == if AllValuesFit(vs) then Some(start + Values(vs)) else None
  {
    var out := start;
    assert vs[0..] == vs;
    for i := 0 to |vs|
      invariant AllValuesFit(vs[i..]) == AllValuesFit(vs)
      invariant AllValuesFit(vs[i..]) ==> out + Values(vs[i..]) == start + Values(vs)
    {
      assert vs[i..][1..] == vs[i + 1..];
      if |vs[i]| > U16_MAX { return None; }
      ghost var before := out;
      out := out + LE16(|vs[i]|);
      out := out + vs[i];
      if AllValuesFit(vs[i..]) { NextValue(start + Values(vs), before, vs, i); }
    }
    assert out + [] == out;
    return Some(out);
  }

  lemma {:induction false} NextPair(start: bytes, frame: bytes, h: Header, rest: seq<Header>)
    requires HeaderFits(h) && AllHeadersFit(rest) && frame + (Pair(h) + Pairs(rest)) == start
    ensures frame + [|h.name|] + LE16(|h.value|) + h.name + h.value + Pairs(rest) == start
  {
    Regroup(frame, Pair(h), Pairs(rest));
    var lens := [|h.name|] + LE16(|h.value|);
    Regroup(frame, lens + h.name, h.value);
    Regroup(frame, lens, h.name);
    Regroup(frame, [|h.name|], LE16(|h.value|));
  }

  method PushHeader(start: bytes, h: Header) returns (frame: Option<bytes>)
    ensures frame == if HeaderFits(h) then Some(start + [|h.name|] + LE16(|h.value|) + h.name + h.value) else None
  {
    if |h.name| > 255 { return None; }
    if |h.value| > U16_MAX { return None; }
    var out := start + [|h.name|];
    out := out + LE16(|h.value|);
    out := out + h.name;
    out := out + h.value;
    return Some(out);
  }

  lemma {:induction false} SelectedFrom(headers: seq<Header>, plan: Plan, i: nat)
    requires i < |headers|
    ensures Selected(headers[i..], plan)
            == (if Included(plan, headers[i].name) then [headers[i]] + Selected(headers[i + 1..], plan)
                else Selected(headers[i + 1..], plan))
  {
    assert headers[i..][1..] == headers[i + 1..];
    assert [] + Selected(headers[i + 1..], plan) == Selected(headers[i + 1..], plan);
  }

  lemma {:induction false} PairsCons(h: Header, rest: seq<Header>)
    ensures AllHeadersFit([h] + rest) <==> HeaderFits(h) && AllHeadersFit(rest)
    ensures AllHeadersFit([h] + rest) ==> Pairs([h] + rest) == Pair(h) + Pairs(rest)
  {
    assert ([h] + rest)[1..] == rest;
  }

  method PushSelected(start: bytes, headers: seq<Header>, plan: Plan) returns (frame: Option<bytes>)
    ensures var chosen := Selected(headers, plan);
            frame == if AllHeadersFit(chosen) then Some(start + Pairs(chosen)) else None
  {
    var out := start;
    assert headers[0..] == headers;
    ghost var chosen := Selected(headers, plan);
    for i := 0 to |headers|
      invariant AllHeadersFit(Selected(headers[i..], plan)) == AllHeadersFit(chosen)
      invariant AllHeadersFit(Selected(headers[i..], plan)) ==>
                  out + Pairs(Selected(headers[i..], plan)) == start + Pairs(chosen)
    {
      ghost var rest := Selected(headers[i + 1..], plan);
      SelectedFrom(headers, plan, i);
      if Included(plan, headers[i].name) {
        PairsCons(headers[i], rest);
        ghost var before := out;
        var pushed := PushHeader(out, headers[i]);
        if pushed.None? { return None; }
        out := pushed.value;
        if AllHeadersFit(rest) { NextPair(start + Pairs(chosen), before, headers[i], rest); }
      }
    }
    assert out + [] == out;
    return Some(out);
  }

  lemma Assembled(f: bytes, s: Sections)
    requires SectionsFit(s)
    ensures f + s.url + s.path + s.ip + Values(s.params) + Pairs(s.headers) + s.body == f + EncodeSections(s)
  {
    var b4, b3 := Pairs(s.headers) + s.body, Values(s.params) + (Pairs(s.headers) + s.body);
    Regroup(f, s.url, s.path + (s.ip + b3));
    Regroup(f + s.url, s.path, s.ip + b3);
    Regroup(f + s.url + s.path, s.ip, b3);
    Regroup(f + s.url + s.path + s.ip, Values(s.params), b4);
    Regroup(f + s.url + s.path + s.ip + Values(s.params), Pairs(s.headers), s.body);
  }

  method PushFixed(f: Fixed) returns (frame: bytes)
    ensures frame == EncodeFixed(f)
  {
    frame := [f.version];
    frame := frame + [f.methodCode];
    frame := frame + LE16(f.flags);
    frame := frame + LE32(f.handlerId);
    frame := frame + LE32(f.urlLen);
    frame := frame + LE16(f.pathLen);
    frame := frame + LE16(f.paramCount);
    frame := frame + LE16(f.headerCount);
    frame := frame + LE32(f.bodyLen);
    frame := frame + LE16(f.ipLen);
  }

  /** None for every request over one of the limits. */
  method BuildDispatchEnvelope(r: Route, q: Request) returns (frame: Option<bytes>)
    ensures frame == Build(r, q)
  {
    var url, path := SentUrl(r, q), SentPath(r, q);
    if |url| > U32_MAX || |path| > U16_MAX || |r.params| > U16_MAX { return None; }
    var headerCount := CountSelected(q.headers, r.plan);
    if headerCount > U16_MAX || |q.ip| > U16_MAX { return None; }
    var out := PushFixed(Fixed(BRIDGE_VERSION, q.methodCode, Flags(r, q), r.handlerId, |url|, |path|, |r.params|,
                               headerCount, |q.body| % (U32_MAX + 1), |q.ip|));
    ghost var head := out;
    out := out + url;
    out := out + path;
    out := out + q.ip;
    var pushed := PushValues(out, r.params);
    if pushed.None? { return None; }
    out := pushed.value;
    if headerCount > 0 {
      pushed := PushSelected(out, q.headers, r.plan);
      if pushed.None? { return None; }
      out := pushed.value;
    }
    ghost var chosen := Selected(q.headers, r.plan);
    if chosen == [] { assert out + Pairs(chosen) == out; }
    Assembled(head, SectionsFor(r, q));
    return Some(out + q.body);
  }

  // ----- decoder -----

  /** What was read and the offset behind it, as a read of the octets from there on. */
  function Behind<T>(b: bytes, r: Option<(T, nat)>): Read<T>
    requires r.Some? ==> r.value.1 <= |b|
  {
    match r
    case None => Read.Truncated
    case Some((v, o)) => Read(v, b[o..])
  }

  method ReadOneValue(b: bytes, start: nat) returns (r: Option<(bytes, nat)>)
    requires start <= |b|
    ensures r.Some? ==> start <= r.value.1 <= |b|
    ensures Behind(b, r) == ReadValue(b[start..])
  {
    var offset := start;
    if offset + 2 > |b| { return None; }
    var valueLength := U16At(b, offset);
    offset := offset + 2;
    assert b[start..][2..] == b[offset..];
    SliceAt(b, offset, valueLength);
    if offset + valueLength > |b| { return None; }
    return Some((b[offset..offset + valueLength], offset + valueLength));
  }

  method ReadOnePair(b: bytes, start: nat) returns (r: Option<(Header, nat)>)
    requires start <= |b|
    ensures r.Some? ==> start <= r.value.1 <= |b|
    ensures Behind(b, r) == ReadPair(b[start..])
  {
    var offset := start;
    if offset + 1 > |b| { return None; }
    var nameLength := b[offset];
    offset := offset + 1;
    if offset + 2 > |b| { return None; }
    var valueLength := U16At(b, offset);
    offset := offset + 2;
    assert b[start..][3..] == b[offset..];
    SliceAt(b, offset, nameLength);
    if offset + nameLength > |b| { return None; }
    var name := b[offset..offset + nameLength];
    offset := offset + nameLength;
    SliceAt(b, offset, valueLength);
    if offset + valueLength > |b| { return None; }
    return Some((Header(name, b[offset..offset + valueLength]), offset + valueLength));
  }

  method ReadParams(b: bytes, start: nat, n: nat) returns (r: Option<(seq<bytes>, nat)>)
    requires start <= |b|
    ensures r.Some? ==> start <= r.value.1 <= |b|
    ensures Behind(b, r) == ReadValues(b[start..], n)
  {
    var offset, values := start, [];
    PrependNone(ReadValues(b[start..], n));
    for index := 0 to n
      invariant start <= offset <= |b|
      invariant ReadValues(b[start..], n) == Prepend(values, ReadValues(b[offset..], n - index))
    {
      var one := ReadOneValue(b, offset);
      if one.None? { return None; }
      PrependCons(values, one.value.0, ReadValues(b[one.value.1..], n - index - 1));
      values := values + [one.value.0];
      offset := one.value.1;
    }
    assert values + [] == values;
    return Some((values, offset));
  }

  method ReadHeaders(b: bytes, start: nat, n: nat) returns (r: Option<(seq<Header>, nat)>)
    requires start <= |b|
    ensures r.Some? ==> start <= r.value.1 <= |b|
    ensures Behind(b, r) == ReadPairs(b[start..], n)
  {
    var offset, headers := start, [];
    PrependNone(ReadPairs(b[start..], n));
    for index := 0 to n
      invariant start <= offset <= |b|
      invariant ReadPairs(b[start..], n) == Prepend(headers, ReadPairs(b[offset..], n - index))
    {
      var one := ReadOnePair(b, offset);
      if one.None? { return None; }
      PrependCons(headers, one.value.0, ReadPairs(b[one.value.1..], n - index - 1));
      headers := headers + [one.value.0];
      offset := one.value.1;
    }
    assert headers + [] == headers;
    return Some((headers, offset));
  }

  lemma {:induction false} ListsWhole(f: Fixed, t: Texts, b0: bytes, params: seq<bytes>, b1: bytes,
                                      headers: seq<Header>, b2: bytes,
                   body: bytes, rest: bytes)
    requires ReadValues(b0, f.paramCount) == Read(params, b1) && ReadPairs(b1, f.headerCount) == Read(headers, b2)
    requires Slice(b2, f.bodyLen) == Read(body, rest)
    ensures ReadLists(f, t.url, t.path, t.ip, b0) == Read(Sections(t.url, t.path, t.ip, params, headers, body), rest)
  {}

  lemma {:induction false} ListsCut(f: Fixed, t: Texts, b0: bytes, params: seq<bytes>, b1: bytes,
                                    headers: seq<Header>, b2: bytes)
    requires ReadValues(b0, f.paramCount) == Read(params, b1) && ReadPairs(b1, f.headerCount) == Read(headers, b2)
    requires Slice(b2, f.bodyLen) == Read.Truncated
    ensures ReadLists(f, t.url, t.path, t.ip, b0) == Read.Truncated
  {}

  datatype Texts = Texts(url: bytes, path: bytes, ip: bytes)

  function SectionsOf(r: Read<Sections>): Option<Sections> {
    match r
    case Truncated => None
    case Read(s, _) => Some(s)
  }

  method ReadLastSections(b: bytes, start: nat, f: Fixed, texts: Texts) returns (r: Option<Sections>)
    requires start <= |b|
    ensures r == SectionsOf(ReadLists(f, texts.url, texts.path, texts.ip, b[start..]))
  {
    var params := ReadParams(b, start, f.paramCount);
    if params.None? { return None; }
    var headers := ReadHeaders(b, params.value.1, f.headerCount);
    if headers.None? { return None; }
    var offset := headers.value.1;
    SliceAt(b, offset, f.bodyLen);
    var body := [];
    if f.bodyLen > 0 {
      if offset + f.bodyLen > |b| {
        ListsCut(f, texts, b[start..], params.value.0, b[params.value.1..], headers.value.0, b[offset..]);
        return None;
      }
      body := b[offset..offset + f.bodyLen];
    }
    ListsWhole(f, texts, b[start..], params.value.0, b[params.value.1..], headers.value.0, b[offset..], body,
               b[offset + f.bodyLen..]);
    return Some(Sections(texts.url, texts.path, texts.ip, params.value.0, headers.value.0, body));
  }

  lemma TextsWhole(f: Fixed, b0: bytes, url: bytes, b1: bytes, path: bytes, b2: bytes, ip: bytes, b3: bytes)
    requires Slice(b0, f.urlLen) == Read(url, b1) && Slice(b1, f.pathLen) == Read(path, b2)
    requires Slice(b2, f.ipLen) == Read(ip, b3)
    ensures ReadSections(f, b0) == ReadLists(f, url, path, ip, b3)
  {}

  /** The three texts behind the fixed part, as a read of the remaining sections. */
  lemma TextsAt(b: bytes, f: Fixed, start: nat, o1: nat, o2: nat, o3: nat)
    requires start <= o3 <= |b| && o1 == start + f.urlLen && o2 == o1 + f.pathLen && o3 == o2 + f.ipLen
    ensures ReadSections(f, b[start..]) == ReadLists(f, b[start..o1], b[o1..o2], b[o2..o3], b[o3..])
  {
    SliceAt(b, start, f.urlLen);
    SliceAt(b, o1, f.pathLen);
    SliceAt(b, o2, f.ipLen);
    TextsWhole(f, b[start..], b[start..o1], b[o1..], b[o1..o2], b[o2..], b[o2..o3], b[o3..]);
  }

  lemma TextsCut(b: bytes, f: Fixed)
    requires |b| < f.urlLen + f.pathLen + f.ipLen
    ensures ReadSections(f, b) == Read.Truncated
  {}

  method ReadTexts(b: bytes, start: nat, f: Fixed) returns (r: Option<(Texts, nat)>)
    requires start <= |b|
    ensures r.Some? ==> start <= r.value.1 <= |b|
    ensures ReadSections(f, b[start..])
            == match r
               case None => Read.Truncated
               case Some((t, o)) => ReadLists(f, t.url, t.path, t.ip, b[o..])
  {
    var offset := start;
    ghost var end := start + f.urlLen + f.pathLen + f.ipLen;
    if end <= |b| { TextsAt(b, f, start, start + f.urlLen, end - f.ipLen, end); } else { TextsCut(b[start..], f); }
    if offset + f.urlLen > |b| { return None; }
    var url := b[offset..offset + f.urlLen];
    offset := offset + f.urlLen;
    if offset + f.pathLen > |b| { return None; }
    var path := b[offset..offset + f.pathLen];
    offset := offset + f.pathLen;
    if offset + f.ipLen > |b| { return None; }
    return Some((Texts(url, path, b[offset..offset + f.ipLen]), offset + f.ipLen));
  }

  method ReadFixed(b: bytes) returns (r: Option<Fixed>)
    ensures r == if |b| < FIXED_SIZE then None else Some(FixedAt(b))
  {
    if |b| < 2 { return None; }
    var version, methodCode := b[0], b[1];
    if |b| < 4 { return None; }
    var flags := U16At(b, 2);
    if |b| < 8 { return None; }
    var handlerId := U32At(b, 4);
    if |b| < 12 { return None; }
    var urlLen := U32At(b, 8);
    if |b| < 18 { return None; }
    var pathLen, paramCount, headerCount := U16At(b, 12), U16At(b, 14), U16At(b, 16);
    if |b| < 22 { return None; }
    var bodyLen := U32At(b, 18);
    if |b| < 24 { return None; }
    return Some(Fixed(version, methodCode, flags, handlerId, urlLen, pathLen, paramCount, headerCount, bodyLen, U16At(b, 22)));
  }

  method DecodeRequestEnvelope(b: bytes) returns (d: Decoded)
    ensures d == Decode(b)
  {
    if |b| < 1 { return Decoded.Truncated; }
    if b[0] != BRIDGE_VERSION { return BadVersion(b[0]); }
    var fixed := ReadFixed(b);
    if fixed.None? { return Decoded.Truncated; }
    var texts := ReadTexts(b, FIXED_SIZE, fixed.value);
    if texts.None? { return Decoded.Truncated; }
    var sections := ReadLastSections(b, texts.value.1, fixed.value, texts.value.0);
    if sections.None? { return Decoded.Truncated; }
    d := Received(fixed.value, sections.value);
  }

  // ----- header lookup -----

  lemma {:induction false} LookupAppend(headers: seq<Header>, h: Header, reserved: set<bytes>, key: bytes)
    ensures Lookup(headers + [h], reserved, key)
            == if key !in reserved && LowerBytes(h.name) == key then Some(h.value) else Lookup(headers, reserved, key)
  {
    if headers != [] {
      assert (headers + [h])[1..] == headers[1..] + [h];
      LookupAppend(headers[1..], h, reserved, key);
    }
  }

  /** The object through which the handler reads headers. */
  method EnsureHeaderLookup(headers: seq<Header>, reserved: set<bytes>) returns (m: map<bytes, bytes>)
    ensures forall k: bytes :: Lookup(headers, reserved, k) == if k in m then Some(m[k]) else None
  {
    m := map[];
    for i := 0 to |headers|
      invariant forall k: bytes :: Lookup(headers[..i], reserved, k) == if k in m then Some(m[k]) else None
    {
      var name := LowerBytes(headers[i].name);
      assert headers[..i + 1] == headers[..i] + [headers[i]];
      forall k: bytes
        ensures Lookup(headers[..i + 1], reserved, k)
                == if k !in reserved && name == k then Some(headers[i].value) else Lookup(headers[..i], reserved, k)
      {
        LookupAppend(headers[..i], headers[i], reserved, k);
      }
      if name !in reserved { m := m[name := headers[i].value]; }
    }
    assert headers[..|headers|] == headers;
  }
}
