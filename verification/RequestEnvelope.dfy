/**
 The request envelope: written by the native side for a matched route, decoded by the JavaScript
 side. Texts are octets; header names are ASCII tokens, compared without regard to case.
 */
module RequestEnvelope {
  import opened Prelude
  import opened Wire

  const BRIDGE_VERSION: byte := 2
  const FLAG_QUERY_PRESENT: u16 := 1
  const FLAG_BODY_PRESENT: u16 := 2
  const QUESTION_MARK: byte := 63
  const FIXED_SIZE: nat := 24
  const LAST_METHOD: byte := 7

  /** What a route's handler was found to read. */
  datatype Plan = Plan(needsUrl: bool, needsQuery: bool, needsPath: bool, fullHeaders: bool, headerKeys: seq<bytes>)

  datatype Route = Route(handlerId: u32, plan: Plan, params: seq<bytes>)

  datatype Request = Request(methodCode: byte, path: bytes, url: bytes, headers: seq<Header>, body: bytes, ip: bytes)

  datatype Fixed = Fixed(
    version: byte,
    methodCode: byte,
    flags: u16,
    handlerId: u32,
    urlLen: u32,
    pathLen: u16,
    paramCount: u16,
    headerCount: u16,
    bodyLen: u32,
    ipLen: u16)

  datatype Sections = Sections(
    url: bytes, path: bytes, ip: bytes, params: seq<bytes>, headers: seq<Header>, body: bytes)

  datatype Envelope = Envelope(
    handlerId: u32,
    flags: u16,
    methodCode: byte,
    url: bytes,
    path: bytes,
    ip: bytes,
    params: seq<bytes>,
    headers: seq<Header>,
    body: Option<bytes>)

  datatype Decoded = Accepted(envelope: Envelope) | Truncated | BadVersion(version: byte) | UnknownMethod(methodCode: byte)

  // ----- header selection -----

  function LowerByte(c: byte): byte {
    if 65 <= c <= 90 then c + 32 else c
  }

  function LowerBytes(s: bytes): bytes {
    if s == [] then [] else [LowerByte(s[0])] + LowerBytes(s[1..])
  }

  predicate Planned(keys: seq<bytes>, name: bytes) {
    keys != [] && (LowerBytes(keys[0]) == LowerBytes(name) || Planned(keys[1..], name))
  }

  predicate Included(plan: Plan, name: bytes) {
    plan.fullHeaders || Planned(plan.headerKeys, name)
  }

  function Selected(headers: seq<Header>, plan: Plan): seq<Header> {
    if headers == [] then []
    else (if Included(plan, headers[0].name) then [headers[0]] else []) + Selected(headers[1..], plan)
  }

  // ----- writing -----

  function EncodeFixed(f: Fixed): (b: bytes)
    ensures |b| == FIXED_SIZE
  {
    [f.version, f.methodCode] + LE16(f.flags) + LE32(f.handlerId) + LE32(f.urlLen) + LE16(f.pathLen)
    + LE16(f.paramCount) + LE16(f.headerCount) + LE32(f.bodyLen) + LE16(f.ipLen)
  }

  function SentUrl(r: Route, q: Request): bytes {
    if r.plan.needsUrl || r.plan.needsQuery then q.url else []
  }

  function SentPath(r: Route, q: Request): bytes {
    if r.plan.needsPath then q.path else []
  }

  function Flags(r: Route, q: Request): u16 {
    (if r.plan.needsQuery && QUESTION_MARK in q.url then FLAG_QUERY_PRESENT else 0)
    + (if q.body != [] then FLAG_BODY_PRESENT else 0)
  }

  /** The limits whose violation makes the builder give up; the body has none. */
  predicate Buildable(r: Route, q: Request) {
    && |SentUrl(r, q)| <= U32_MAX && |SentPath(r, q)| <= U16_MAX && |r.params| <= U16_MAX
    && |Selected(q.headers, r.plan)| <= U16_MAX && |q.ip| <= U16_MAX
    && AllValuesFit(r.params) && AllHeadersFit(Selected(q.headers, r.plan))
  }

  /** The body length is truncated to 32 bits, as the cast does. */
  function FixedFor(r: Route, q: Request): Fixed
    requires Buildable(r, q)
  {
    Fixed(BRIDGE_VERSION, q.methodCode, Flags(r, q), r.handlerId, |SentUrl(r, q)|, |SentPath(r, q)|, |r.params|,
          |Selected(q.headers, r.plan)|, |q.body| % (U32_MAX + 1), |q.ip|)
  }

  predicate SectionsFit(s: Sections) {
    AllValuesFit(s.params) && AllHeadersFit(s.headers)
  }

  function EncodeSections(s: Sections): bytes
    requires SectionsFit(s)
  {
    s.url + (s.path + (s.ip + (Values(s.params) + (Pairs(s.headers) + s.body))))
  }

  function SectionsFor(r: Route, q: Request): Sections {
    Sections(SentUrl(r, q), SentPath(r, q), q.ip, r.params, Selected(q.headers, r.plan), q.body)
  }

  function Build(r: Route, q: Request): Option<bytes> {
    if Buildable(r, q) then Some(EncodeFixed(FixedFor(r, q)) + EncodeSections(SectionsFor(r, q))) else None
  }

  // ----- reading -----

  function FixedAt(b: bytes): Fixed
    requires |b| >= FIXED_SIZE
  {
    Fixed(b[0], b[1], U16At(b, 2), U32At(b, 4), U32At(b, 8), U16At(b, 12), U16At(b, 14), U16At(b, 16), U32At(b, 18),
          U16At(b, 22))
  }

  function ReadSections(f: Fixed, b: bytes): Read<Sections> {
    match Slice(b, f.urlLen)
    case Truncated => Read.Truncated
    case Read(url, b) =>
      match Slice(b, f.pathLen)
      case Truncated => Read.Truncated
      case Read(path, b) =>
        match Slice(b, f.ipLen)
        case Truncated => Read.Truncated
        case Read(ip, b) => ReadLists(f, url, path, ip, b)
  }

  function ReadLists(f: Fixed, url: bytes, path: bytes, ip: bytes, b: bytes): Read<Sections> {
    match ReadValues(b, f.paramCount)
    case Truncated => Read.Truncated
    case Read(params, b) =>
      match ReadPairs(b, f.headerCount)
      case Truncated => Read.Truncated
      case Read(headers, b) =>
        match Slice(b, f.bodyLen)
        case Truncated => Read.Truncated
        case Read(body, rest) => Read(Sections(url, path, ip, params, headers, body), rest)
  }

  function Received(f: Fixed, s: Sections): Decoded {
    if f.methodCode > LAST_METHOD then UnknownMethod(f.methodCode)
    else Accepted(Envelope(f.handlerId, f.flags, f.methodCode, s.url, s.path, s.ip, s.params, s.headers,
                           if f.bodyLen > 0 then Some(s.body) else None))
  }

  /** The version is checked first, the method last. */
  function Decode(b: bytes): Decoded {
    if b == [] then Decoded.Truncated
    else if b[0] != BRIDGE_VERSION then BadVersion(b[0])
    else if |b| < FIXED_SIZE then Decoded.Truncated
    else
      match ReadSections(FixedAt(b), b[FIXED_SIZE..])
      case Truncated => Decoded.Truncated
      case Read(s, rest) => Received(FixedAt(b), s)
  }

  // ----- round trip -----

  lemma U16Slice(b: bytes, i: nat, n: u16)
    requires i + 2 <= |b| && b[i..i + 2] == LE16(n)
    ensures U16At(b, i) == n
  {
    assert b[i] == b[i..i + 2][0] && b[i + 1] == b[i..i + 2][1];
  }

  lemma U32Slice(b: bytes, i: nat, n: u32)
    requires i + 4 <= |b| && b[i..i + 4] == LE32(n)
    ensures U32At(b, i) == n
  {
    assert b[i] == b[i..i + 4][0] && b[i + 1] == b[i..i + 4][1] && b[i + 2] == b[i..i + 4][2] && b[i + 3] == b[i..i + 4][3];
    LE32Read(n, []);
    assert LE32(n) + [] == LE32(n);
  }

  lemma FieldAt(b: bytes, front: bytes, field: bytes, rest: bytes)
    requires b == front + (field + rest)
    ensures |front| + |field| <= |b| && b[|front|..|front| + |field|] == field
  {}

  /** One field that was written behind `front` and before `rest`. */
  lemma FieldBehind(b: bytes, front: bytes, field: bytes, rest: bytes)
    requires b == front + field + rest
    ensures b == front + (field + rest)
    ensures |front| + |field| <= |b| && b[|front|..|front| + |field|] == field
  {
    Regroup(front, field, rest);
    FieldAt(b, front, field, rest);
  }

  /** Where the later fixed fields stand, from the end on. */
  lemma FixedTail(f: Fixed, front: bytes, rest: bytes, b: bytes)
    requires |front| == 12
    requires b == front + LE16(f.pathLen) + LE16(f.paramCount) + LE16(f.headerCount) + LE32(f.bodyLen) + LE16(f.ipLen) + rest
    ensures |b| >= FIXED_SIZE && b[12..14] == LE16(f.pathLen) && b[14..16] == LE16(f.paramCount)
    ensures b[16..18] == LE16(f.headerCount) && b[18..22] == LE32(f.bodyLen) && b[22..24] == LE16(f.ipLen)
    ensures exists tail: bytes :: b == front + tail
  {
    var f1, f2, f3 := front + LE16(f.pathLen), front + LE16(f.pathLen) + LE16(f.paramCount),
                      front + LE16(f.pathLen) + LE16(f.paramCount) + LE16(f.headerCount);
    var t4 := LE16(f.ipLen) + rest;
    var t3 := LE32(f.bodyLen) + t4;
    var t2 := LE16(f.headerCount) + t3;
    var t1 := LE16(f.paramCount) + t2;
    FieldBehind(b, f3 + LE32(f.bodyLen), LE16(f.ipLen), rest);
    FieldBehind(b, f3, LE32(f.bodyLen), t4);
    FieldBehind(b, f2, LE16(f.headerCount), t3);
    FieldBehind(b, f1, LE16(f.paramCount), t2);
    FieldBehind(b, front, LE16(f.pathLen), t1);
  }

  /** Where the earlier ones stand. */
  lemma FixedFront(f: Fixed, tail: bytes, b: bytes)
    requires b == [f.version, f.methodCode] + LE16(f.flags) + LE32(f.handlerId) + LE32(f.urlLen) + tail
    ensures |b| >= 12 && b[0] == f.version && b[1] == f.methodCode
    ensures b[2..4] == LE16(f.flags) && b[4..8] == LE32(f.handlerId) && b[8..12] == LE32(f.urlLen)
  {
    var front := [f.version, f.methodCode];
    var t2 := LE32(f.urlLen) + tail;
    var t1 := LE32(f.handlerId) + t2;
    FieldBehind(b, front + LE16(f.flags) + LE32(f.handlerId), LE32(f.urlLen), tail);
    FieldBehind(b, front + LE16(f.flags), LE32(f.handlerId), t2);
    FieldBehind(b, front, LE16(f.flags), t1);
  }

  lemma Behind24(front: bytes, rest: bytes)
    requires |front| == FIXED_SIZE
    ensures (front + rest)[FIXED_SIZE..] == rest
  {}

  /** Where each fixed field stands. */
  lemma FixedLayout(f: Fixed, rest: bytes)
    ensures var b := EncodeFixed(f) + rest;
            && b[0] == f.version && b[1] == f.methodCode && b[2..4] == LE16(f.flags)
            && b[4..8] == LE32(f.handlerId) && b[8..12] == LE32(f.urlLen) && b[12..14] == LE16(f.pathLen)
            && b[14..16] == LE16(f.paramCount) && b[16..18] == LE16(f.headerCount)
            && b[18..22] == LE32(f.bodyLen) && b[22..24] == LE16(f.ipLen)
            && b[FIXED_SIZE..] == rest
  {
    var front := [f.version, f.methodCode] + LE16(f.flags) + LE32(f.handlerId) + LE32(f.urlLen);
    var b := EncodeFixed(f) + rest;
    FixedTail(f, front, rest, b);
    var tail: bytes :| b == front + tail;
    FixedFront(f, tail, b);
    Behind24(EncodeFixed(f), rest);
  }

  lemma FixedRead(f: Fixed, rest: bytes)
    ensures FixedAt(EncodeFixed(f) + rest) == f && (EncodeFixed(f) + rest)[FIXED_SIZE..] == rest
  {
    var b := EncodeFixed(f) + rest;
    FixedLayout(f, rest);
    U16Slice(b, 2, f.flags);
    U32Slice(b, 4, f.handlerId);
    U32Slice(b, 8, f.urlLen);
    U16Slice(b, 12, f.pathLen);
    U16Slice(b, 14, f.paramCount);
    U16Slice(b, 16, f.headerCount);
    U32Slice(b, 18, f.bodyLen);
    U16Slice(b, 22, f.ipLen);
  }

  /** The fixed part announces these sections. */
  predicate Announces(f: Fixed, s: Sections) {
    && f.urlLen == |s.url| && f.pathLen == |s.path| && f.ipLen == |s.ip|
    && f.paramCount == |s.params| && f.headerCount == |s.headers| && f.bodyLen == |s.body|
  }

  lemma SectionsRead(f: Fixed, s: Sections, rest: bytes)
    requires Announces(f, s) && SectionsFit(s)
    ensures ReadSections(f, EncodeSections(s) + rest) == Read(s, rest)
  {
    var b3 := Values(s.params) + (Pairs(s.headers) + s.body);
    Regroup(s.url, s.path + (s.ip + b3), rest);
    SliceRead(s.url, (s.path + (s.ip + b3)) + rest);
    Regroup(s.path, s.ip + b3, rest);
    SliceRead(s.path, (s.ip + b3) + rest);
    Regroup(s.ip, b3, rest);
    SliceRead(s.ip, b3 + rest);
    ListsRead(f, s, rest);
  }

  lemma ListsRead(f: Fixed, s: Sections, rest: bytes)
    requires Announces(f, s) && SectionsFit(s)
    ensures ReadLists(f, s.url, s.path, s.ip, Values(s.params) + (Pairs(s.headers) + s.body) + rest) == Read(s, rest)
  {
    Regroup(Values(s.params), Pairs(s.headers) + s.body, rest);
    ValuesRead(s.params, (Pairs(s.headers) + s.body) + rest);
    Regroup(Pairs(s.headers), s.body, rest);
    PairsRead(s.headers, s.body + rest);
    SliceRead(s.body, rest);
  }

  /** The part of the body that the truncated length still announces. */
  function Announced(body: bytes): bytes {
    body[..|body| % (U32_MAX + 1)]
  }

  function Left(body: bytes): bytes {
    body[|body| % (U32_MAX + 1)..]
  }

  lemma LeftEmpty(body: bytes)
    ensures Left(body) == [] <==> |body| <= U32_MAX
  {}

  lemma CutBody(s: Sections, n: nat)
    requires SectionsFit(s) && n <= |s.body|
    ensures EncodeSections(s) == EncodeSections(s.(body := s.body[..n])) + s.body[n..]
  {
    var head, cut, rest := Pairs(s.headers), s.body[..n], s.body[n..];
    assert s.body == cut + rest;
    Regroup(head, cut, rest);
    Regroup(Values(s.params), head + cut, rest);
    var b3 := Values(s.params) + (head + cut);
    Regroup(s.ip, b3, rest);
    Regroup(s.path, s.ip + b3, rest);
    Regroup(s.url, s.path + (s.ip + b3), rest);
  }

  /** What the decoder's readers see in a frame, and what they leave. */
  lemma FramedReads(f: Fixed, s: Sections, rest: bytes)
    requires f.version == BRIDGE_VERSION && Announces(f, s) && SectionsFit(s)
    ensures var frame := EncodeFixed(f) + (EncodeSections(s) + rest);
            && |frame| >= FIXED_SIZE && frame[0] == BRIDGE_VERSION && FixedAt(frame) == f
            && ReadSections(f, frame[FIXED_SIZE..]) == Read(s, rest)
            && Decode(frame) == Received(f, s)
  {
    FixedRead(f, EncodeSections(s) + rest);
    SectionsRead(f, s, rest);
  }

  function Framed(r: Route, q: Request): Sections {
    SectionsFor(r, q).(body := Announced(q.body))
  }

  lemma BuiltFrame(r: Route, q: Request)
    requires Buildable(r, q)
    ensures Build(r, q).value
            == EncodeFixed(FixedFor(r, q)) + (EncodeSections(Framed(r, q)) + Left(q.body))
  {
    CutBody(SectionsFor(r, q), |Announced(q.body)|);
  }

  /** What the handler's side has to receive, in terms of the plan and the request alone. */
  predicate Conveys(e: Envelope, r: Route, q: Request, body: Option<bytes>) {
    && e.handlerId == r.handlerId && e.methodCode == q.methodCode && e.ip == q.ip && e.params == r.params
    && e.url == (if r.plan.needsUrl || r.plan.needsQuery then q.url else [])
    && e.path == (if r.plan.needsPath then q.path else [])
    && (e.flags % 2 == 1 <==> r.plan.needsQuery && 63 in q.url)
    && (e.flags / 2 == 1 <==> q.body != []) && e.flags < 4
    && e.headers == Selected(q.headers, r.plan) && e.body == body
  }

  /** As much of the body as a 32-bit length announces. */
  function Remainder(body: bytes): Option<bytes> {
    var n := |body| % 0x1_0000_0000;
    if n == 0 then None else Some(body[..n])
  }

  /** Every built frame decodes to the request it was built from, except for an over-long body. */
  lemma BuiltDecodes(r: Route, q: Request)
    requires Build(r, q).Some?
    ensures var d := Decode(Build(r, q).value);
            if q.methodCode > 7 then d == UnknownMethod(q.methodCode)
            else d.Accepted? && Conveys(d.envelope, r, q, Remainder(q.body))
  {
    BuiltFrame(r, q);
    FramedDecodes(FixedFor(r, q), Framed(r, q), Left(q.body), Build(r, q).value);
    ReceivedConveys(r, q);
  }

  lemma FlagsExactly(r: Route, q: Request)
    ensures var f := Flags(r, q);
            (f % 2 == 1 <==> r.plan.needsQuery && 63 in q.url) && (f / 2 == 1 <==> q.body != []) && f < 4
  {}

  lemma ReceivedConveys(r: Route, q: Request)
    requires Buildable(r, q)
    ensures var d := Received(FixedFor(r, q), Framed(r, q));
            if q.methodCode > 7 then d == UnknownMethod(q.methodCode)
            else d.Accepted? && Conveys(d.envelope, r, q, Remainder(q.body))
  {
    FlagsExactly(r, q);
  }

  lemma AnnouncedWhole(body: bytes)
    ensures Remainder(body) == (if body == [] then None else Some(body)) <==> |body| <= 0xFFFF_FFFF
  {
    var n := |body| % 0x1_0000_0000;
    if |body| <= 0xFFFF_FFFF { assert body[..n] == body; } else { assert |body[..n]| < |body|; }
  }

  /** The decoder recovers the request exactly if the body length fits 32 bits. */
  lemma RecoversExactly(r: Route, q: Request)
    requires Build(r, q).Some? && q.methodCode <= 7
    ensures var d := Decode(Build(r, q).value);
            d.Accepted? && Conveys(d.envelope, r, q, if q.body == [] then None else Some(q.body))
            <==> |q.body| <= 0xFFFF_FFFF
  {
    BuiltDecodes(r, q);
    AnnouncedWhole(q.body);
  }

  // ----- what is built -----

  /** Header names are equal up to the case of ASCII letters. */
  predicate SameName(a: bytes, b: bytes) {
    |a| == |b| && forall i | 0 <= i < |a| :: SameLetter(a[i], b[i])
  }

  predicate SameLetter(x: byte, y: byte) {
    x == y || (65 <= x <= 90 && y == x + 32) || (65 <= y <= 90 && x == y + 32)
  }

  predicate Wanted(plan: Plan, name: bytes) {
    plan.fullHeaders || exists i | 0 <= i < |plan.headerKeys| :: SameName(plan.headerKeys[i], name)
  }

  lemma {:induction false} SameNameExactly(a: bytes, b: bytes)
    ensures LowerBytes(a) == LowerBytes(b) <==> SameName(a, b)
  {
    if a != [] && b != [] {
      SameNameExactly(a[1..], b[1..]);
      assert LowerBytes(a)[1..] == LowerBytes(a[1..]) && LowerBytes(b)[1..] == LowerBytes(b[1..]);
      if SameName(a, b) {
        assert SameLetter(a[0], b[0]);
        assert forall i | 0 <= i < |a| - 1 :: SameLetter(a[1..][i], b[1..][i]) by {
          assert forall i | 0 <= i < |a| - 1 :: a[1..][i] == a[i + 1] && b[1..][i] == b[i + 1];
        }
      } else if SameLetter(a[0], b[0]) && SameName(a[1..], b[1..]) {
        forall i | 0 <= i < |a| ensures SameLetter(a[i], b[i]) {
          if i > 0 { assert SameLetter(a[1..][i - 1], b[1..][i - 1]); }
        }
      }
    }
  }

  lemma {:induction false} PlannedExactly(keys: seq<bytes>, name: bytes)
    ensures Planned(keys, name) <==> exists i | 0 <= i < |keys| :: SameName(keys[i], name)
  {
    if keys != [] {
      PlannedExactly(keys[1..], name);
      SameNameExactly(keys[0], name);
      if i: nat :| i < |keys| && SameName(keys[i], name) {
        if i > 0 { assert keys[1..][i - 1] == keys[i]; }
      }
    }
  }

  /** A header is sent, in its place, exactly if the plan wants its name. */
  lemma {:induction false} SelectedExactly(front: seq<Header>, h: Header, behind: seq<Header>, plan: Plan)
    ensures Selected(front + [h] + behind, plan)
            == Selected(front, plan) + (if Wanted(plan, h.name) then [h] else []) + Selected(behind, plan)
  {
    var all := front + [h] + behind;
    if front == [] {
      PlannedExactly(plan.headerKeys, h.name);
      assert all[0] == h && all[1..] == behind;
    } else {
      SelectedExactly(front[1..], h, behind, plan);
      assert all[0] == front[0] && all[1..] == front[1..] + [h] + behind;
    }
  }

  lemma {:induction false} ValuesFitExactly(vs: seq<bytes>)
    ensures AllValuesFit(vs) <==> forall i | 0 <= i < |vs| :: |vs[i]| <= 0xFFFF
  {
    if vs != [] { ValuesFitExactly(vs[1..]); }
  }

  lemma {:induction false} HeadersFitExactly(hs: seq<Header>)
    ensures AllHeadersFit(hs) <==> forall i | 0 <= i < |hs| :: |hs[i].name| <= 0xFF && |hs[i].value| <= 0xFFFF
  {
    if hs != [] { HeadersFitExactly(hs[1..]); }
  }

  /** A frame is refused exactly if some length that is sent exceeds its field. */
  lemma BuildsExactly(r: Route, q: Request)
    ensures Build(r, q).Some? <==>
              && (r.plan.needsUrl || r.plan.needsQuery ==> |q.url| <= 0xFFFF_FFFF)
              && (r.plan.needsPath ==> |q.path| <= 0xFFFF)
              && |r.params| <= 0xFFFF && |q.ip| <= 0xFFFF && |Selected(q.headers, r.plan)| <= 0xFFFF
              && (forall i | 0 <= i < |r.params| :: |r.params[i]| <= 0xFFFF)
              && (forall i | 0 <= i < |Selected(q.headers, r.plan)| ::
                    |Selected(q.headers, r.plan)[i].name| <= 0xFF && |Selected(q.headers, r.plan)[i].value| <= 0xFFFF)
  {
    ValuesFitExactly(r.params);
    HeadersFitExactly(Selected(q.headers, r.plan));
  }

  // ----- prefixes -----

  lemma ReadSectionsMore(f: Fixed, b: bytes, more: bytes)
    requires ReadSections(f, b).Read?
    ensures ReadSections(f, b + more) == More(ReadSections(f, b), more)
  {
    SliceMore(b, f.urlLen, more);
    var b1 := Slice(b, f.urlLen).rest;
    SliceMore(b1, f.pathLen, more);
    var b2 := Slice(b1, f.pathLen).rest;
    SliceMore(b2, f.ipLen, more);
    ReadListsMore(f, b[..f.urlLen], b1[..f.pathLen], b2[..f.ipLen], Slice(b2, f.ipLen).rest, more);
  }

  lemma ReadListsMore(f: Fixed, url: bytes, path: bytes, ip: bytes, b: bytes, more: bytes)
    requires ReadLists(f, url, path, ip, b).Read?
    ensures ReadLists(f, url, path, ip, b + more) == More(ReadLists(f, url, path, ip, b), more)
  {
    ReadValuesMore(b, f.paramCount, more);
    var b1 := ReadValues(b, f.paramCount).rest;
    ReadPairsMore(b1, f.headerCount, more);
    SliceMore(ReadPairs(b1, f.headerCount).rest, f.bodyLen, more);
  }

  lemma FixedMore(b: bytes, more: bytes)
    requires |b| >= FIXED_SIZE
    ensures FixedAt(b + more) == FixedAt(b) && (b + more)[FIXED_SIZE..] == b[FIXED_SIZE..] + more
  {}

  /** Once a frame decodes, more octets change nothing. */
  lemma DecodeMore(b: bytes, more: bytes)
    requires !Decode(b).Truncated?
    ensures Decode(b + more) == Decode(b)
  {
    if b[0] == BRIDGE_VERSION {
      FixedMore(b, more);
      ReadSectionsMore(FixedAt(b), b[FIXED_SIZE..], more);
    }
  }

  lemma Incomplete(b: bytes, more: bytes)
    requires |b + more| >= FIXED_SIZE && (b + more)[0] == BRIDGE_VERSION
    requires var r := ReadSections(FixedAt(b + more), (b + more)[FIXED_SIZE..]); r.Read? && |r.rest| < |more|
    ensures Decode(b) == Decoded.Truncated
  {
    if |b| >= FIXED_SIZE && ReadSections(FixedAt(b), b[FIXED_SIZE..]).Read? {
      FixedMore(b, more);
      ReadSectionsMore(FixedAt(b), b[FIXED_SIZE..], more);
    }
  }

  lemma FramedPrefix(f: Fixed, s: Sections, rest: bytes, frame: bytes, k: nat)
    requires f.version == BRIDGE_VERSION && Announces(f, s) && SectionsFit(s) && rest == []
    requires frame == EncodeFixed(f) + (EncodeSections(s) + rest) && k < |frame|
    ensures Decode(frame[..k]) == Decoded.Truncated
  {
    FramedReads(f, s, rest);
    assert frame == frame[..k] + frame[k..];
    Incomplete(frame[..k], frame[k..]);
  }

  lemma FramedDecodes(f: Fixed, s: Sections, rest: bytes, frame: bytes)
    requires f.version == BRIDGE_VERSION && Announces(f, s) && SectionsFit(s)
    requires frame == EncodeFixed(f) + (EncodeSections(s) + rest)
    ensures Decode(frame) == Received(f, s)
  {
    FramedReads(f, s, rest);
  }

  lemma FramedShorter(f: Fixed, s: Sections, rest: bytes, frame: bytes)
    requires f.version == BRIDGE_VERSION && Announces(f, s) && SectionsFit(s)
    requires frame == EncodeFixed(f) + (EncodeSections(s) + rest) && |rest| > 0
    ensures Decode(frame[..|frame| - 1]) == Decode(frame)
  {
    LastDropped(EncodeFixed(f), EncodeSections(s), rest, frame);
    FramedDecodes(f, s, rest, frame);
    FramedDecodes(f, s, rest[..|rest| - 1], frame[..|frame| - 1]);
  }

  /** Every strict prefix of a built frame is rejected as truncated, again if the body length fits. */
  lemma PrefixesRejected(r: Route, q: Request, frame: bytes, k: nat)
    requires Build(r, q) == Some(frame) && |q.body| <= U32_MAX && k < |frame|
    ensures Decode(frame[..k]) == Decoded.Truncated
  {
    BuiltFrame(r, q);
    LeftEmpty(q.body);
    FramedPrefix(FixedFor(r, q), Framed(r, q), Left(q.body), frame, k);
  }

  /** With a longer body a frame that lost its last octet decodes as if it were whole. */
  lemma LongBodyPrefixAccepted(r: Route, q: Request, frame: bytes)
    requires Build(r, q) == Some(frame) && |q.body| > U32_MAX
    ensures Decode(frame[..|frame| - 1]) == Decode(frame)
  {
    BuiltFrame(r, q);
    LeftEmpty(q.body);
    FramedShorter(FixedFor(r, q), Framed(r, q), Left(q.body), frame);
  }

  lemma LastDropped(a: bytes, b: bytes, c: bytes, frame: bytes)
    requires |c| > 0 && frame == a + (b + c)
    ensures frame[..|frame| - 1] == a + (b + c[..|c| - 1])
  {}

  // ----- what header selection keeps -----

  /** The decoder's header object: names in lower case, the last value of a name, no reserved names. */
  function Lookup(headers: seq<Header>, reserved: set<bytes>, key: bytes): Option<bytes> {
    if headers == [] || key in reserved then None
    else
      var later := Lookup(headers[1..], reserved, key);
      if later.Some? then later
      else if LowerBytes(headers[0].name) == key then Some(headers[0].value)
      else None
  }

  lemma {:induction false} PlannedByLower(keys: seq<bytes>, a: bytes, b: bytes)
    requires LowerBytes(a) == LowerBytes(b)
    ensures Planned(keys, a) == Planned(keys, b)
  {
    if keys != [] { PlannedByLower(keys[1..], a, b); }
  }

  /** A lookup of a planned name finds the same value as before the selection, any other finds nothing. */
  lemma {:induction false} SelectionKeepsLookups(headers: seq<Header>, plan: Plan, reserved: set<bytes>, name: bytes)
    ensures Lookup(Selected(headers, plan), reserved, LowerBytes(name))
            == if Included(plan, name) then Lookup(headers, reserved, LowerBytes(name)) else None
  {
    if headers != [] {
      var rest := Selected(headers[1..], plan);
      SelectionKeepsLookups(headers[1..], plan, reserved, name);
      if Included(plan, headers[0].name) {
        assert ([headers[0]] + rest)[1..] == rest;
      } else {
        assert [] + rest == rest;
      }
      if LowerBytes(headers[0].name) == LowerBytes(name) { PlannedByLower(plan.headerKeys, headers[0].name, name); }
    }
  }
}
