/**
 The response envelope: encoded by the JavaScript side from a response snapshot, read by the native
 side twice, once for the response and once for the cache trailer behind the body.
 */
module ResponseEnvelope {
  import opened Prelude
  import opened Wire

  const NCACHE_MAX_TTL_SECS: nat := 86400
  const NCACHE_MAX_BODY_SIZE: nat := 1024 * 1024
  const MAGIC_0: byte := 0xCA
  const MAGIC_1: byte := 0xCE
  const FIXED_SIZE: nat := 8
  const TRAILER_SIZE: nat := 10

  datatype Ncache = Ncache(ttl: nat, maxEntries: nat)

  datatype Snapshot = Snapshot(status: int, headers: seq<Header>, body: bytes, ncache: Option<Ncache>)

  datatype Response = Response(status: u16, headers: seq<Header>, body: bytes)

  // ----- writing: numbers keep their low octets -----

  function Low16(n: int): u16 {
    n % (U16_MAX + 1)
  }

  function Low32(n: int): u32 {
    n % (U32_MAX + 1)
  }

  function Trailer(ncache: Option<Ncache>): bytes {
    if ncache.None? then []
    else [MAGIC_0, MAGIC_1] + LE32(Low32(ncache.value.ttl)) + LE32(Low32(ncache.value.maxEntries))
  }

  function Head(s: Snapshot): (b: bytes)
    ensures |b| == FIXED_SIZE
  {
    LE16(Low16(s.status)) + LE16(Low16(|s.headers|)) + LE32(Low32(|s.body|))
  }

  /** None where the encoder throws: a header name or value over its limit. */
  function Encode(s: Snapshot): Option<bytes> {
    if AllHeadersFit(s.headers) then Some(Head(s) + (Pairs(s.headers) + (s.body + Trailer(s.ncache)))) else None
  }

  // ----- reading the response -----

  function ReadResponse(b: bytes): Option<Response> {
    if |b| < FIXED_SIZE then None
    else
      match ReadPairs(b[FIXED_SIZE..], U16At(b, 2))
      case Truncated => None
      case Read(headers, rest) => ResponseWith(U16At(b, 0), headers, Slice(rest, U32At(b, 4)))
  }

  function ResponseWith(status: u16, headers: seq<Header>, body: Read<bytes>): Option<Response> {
    match body
    case Truncated => None
    case Read(body, _) => Some(Response(status, headers, body))
  }

  // ----- reading the trailer -----

  /** The offset behind `n` headers; only their length fields are looked at. */
  function SkipHeaders(b: bytes, offset: nat, n: nat): (r: Option<nat>)
    ensures r.Some? ==> r.value >= offset
    decreases n
  {
    if n == 0 then Some(offset)
    else if offset + 3 > |b| then None
    else SkipHeaders(b, offset + 3 + b[offset] + U16At(b, offset + 1), n - 1)
  }

  function TrailerAt(b: bytes, offset: nat): Option<Ncache> {
    if offset + TRAILER_SIZE > |b| then None
    else if b[offset] != MAGIC_0 || b[offset + 1] != MAGIC_1 then None
    else
      var ttl := U32At(b, offset + 2);
      Some(Ncache(if ttl < NCACHE_MAX_TTL_SECS then ttl else NCACHE_MAX_TTL_SECS, U32At(b, offset + 6)))
  }

  function ExtractNcache(b: bytes): Option<Ncache> {
    if |b| < FIXED_SIZE || U32At(b, 4) > NCACHE_MAX_BODY_SIZE then None
    else
      match SkipHeaders(b, FIXED_SIZE, U16At(b, 2))
      case None => None
      case Some(offset) => TrailerAt(b, offset + U32At(b, 4))
  }

  // ----- what was encoded is read back -----

  predicate InRange(s: Snapshot) {
    0 <= s.status <= U16_MAX && |s.headers| <= U16_MAX && |s.body| <= U32_MAX
  }

  lemma HeadRead(s: Snapshot)
    ensures U16At(Head(s), 0) == Low16(s.status) && U16At(Head(s), 2) == Low16(|s.headers|)
    ensures U32At(Head(s), 4) == Low32(|s.body|)
  {
    var b := Head(s);
    assert b == LE16(Low16(s.status)) + b[2..] && b[2..] == LE16(Low16(|s.headers|)) + b[4..];
    assert b[4..] == LE32(Low32(|s.body|)) + [];
    LE16Read(Low16(s.status), b[2..]);
    LE16Read(Low16(|s.headers|), b[4..]);
    LE32Read(Low32(|s.body|), []);
    assert U16At(b, 2) == U16At(b[2..], 0) && U32At(b, 4) == U32At(b[4..], 0);
  }

  lemma HeadKept(head: bytes, rest: bytes)
    requires |head| == FIXED_SIZE
    ensures var b := head + rest;
            && U16At(b, 0) == U16At(head, 0) && U16At(b, 2) == U16At(head, 2) && U32At(b, 4) == U32At(head, 4)
            && b[FIXED_SIZE..] == rest
  {}

  lemma InRangeHead(s: Snapshot)
    requires InRange(s)
    ensures U16At(Head(s), 0) == s.status && U16At(Head(s), 2) == |s.headers| && U32At(Head(s), 4) == |s.body|
  {
    HeadRead(s);
  }

  /** Reading a head that announces what follows it. */
  lemma {:induction false} AnnouncedRead(head: bytes, headers: seq<Header>, body: bytes, tail: bytes)
    requires |head| == FIXED_SIZE && AllHeadersFit(headers)
    requires U16At(head, 2) == |headers| && U32At(head, 4) == |body|
    ensures ReadResponse(head + (Pairs(headers) + (body + tail))) == Some(Response(U16At(head, 0), headers, body))
  {
    HeadKept(head, Pairs(headers) + (body + tail));
    PairsRead(headers, body + tail);
    SliceRead(body, tail);
  }

  /** The native reader recovers status, headers and body exactly if all three numbers are in range. */
  lemma ReadExactly(s: Snapshot, b: bytes)
    requires Encode(s) == Some(b)
    ensures InRange(s) <==> exists r: Response ::
              ReadResponse(b) == Some(r) && r.status == s.status && r.headers == s.headers && r.body == s.body
  {
    if InRange(s) {
      InRangeHead(s);
      AnnouncedRead(Head(s), s.headers, s.body, Trailer(s.ncache));
    } else {
      HeadRead(s);
      HeadKept(Head(s), Pairs(s.headers) + (s.body + Trailer(s.ncache)));
      OutOfRange(s, b);
    }
  }

  lemma {:induction false} ReadPairsCount(b: bytes, n: nat)
    ensures ReadPairs(b, n).Read? ==> |ReadPairs(b, n).value| == n
  {
    if n > 0 && ReadPair(b).Read? { ReadPairsCount(ReadPair(b).rest, n - 1); }
  }

  lemma OutOfRange(s: Snapshot, b: bytes)
    requires |b| >= FIXED_SIZE && U16At(b, 0) == Low16(s.status) && U16At(b, 2) == Low16(|s.headers|)
    requires U32At(b, 4) == Low32(|s.body|) && !InRange(s)
    ensures ReadResponse(b).Some? ==>
              var r := ReadResponse(b).value; !(r.status == s.status && r.headers == s.headers && r.body == s.body)
  {
    ReadPairsCount(b[FIXED_SIZE..], U16At(b, 2));
  }

  lemma PairLength(h: Header)
    requires HeaderFits(h)
    ensures |Pair(h)| == 3 + |h.name| + |h.value|
  {}

  /** The walk over the length fields ends where the headers end. */
  lemma {:induction false} HeadersSkipped(front: bytes, hs: seq<Header>, rest: bytes)
    requires AllHeadersFit(hs)
    ensures SkipHeaders(front + (Pairs(hs) + rest), |front|, |hs|) == Some(|front| + |Pairs(hs)|)
    decreases |hs|
  {
    if |hs| > 0 {
      var h, tail := hs[0], Pairs(hs[1..]) + rest;
      var b := front + (Pairs(hs) + rest);
      Regroup(Pair(h), Pairs(hs[1..]), rest);
      Regroup(front, Pair(h), tail);
      LengthsAt(front, h, tail);
      PairLength(h);
      HeadersSkipped(front + Pair(h), hs[1..], rest);
    }
  }

  lemma LengthsAt(front: bytes, h: Header, tail: bytes)
    requires HeaderFits(h)
    ensures var b := front + (Pair(h) + tail);
            |front| + 3 <= |b| && b[|front|] == |h.name| && U16At(b, |front| + 1) == |h.value|
  {
    var b := front + (Pair(h) + tail);
    assert b[|front|] == Pair(h)[0] && b[|front| + 1] == Pair(h)[1] && b[|front| + 2] == Pair(h)[2];
    assert Pair(h)[1] == LE16(|h.value|)[0] && Pair(h)[2] == LE16(|h.value|)[1];
  }

  function Capped(n: Ncache): Ncache {
    Ncache(if Low32(n.ttl) < NCACHE_MAX_TTL_SECS then Low32(n.ttl) else NCACHE_MAX_TTL_SECS, Low32(n.maxEntries))
  }

  function Located(ncache: Option<Ncache>): Option<Ncache> {
    match ncache
    case None => None
    case Some(n) => Some(Capped(n))
  }

  lemma TrailerFound(front: bytes, ncache: Option<Ncache>)
    ensures TrailerAt(front + Trailer(ncache), |front|) == Located(ncache)
  {
    if ncache.Some? {
      var b, t, m := front + Trailer(ncache), Low32(ncache.value.ttl), Low32(ncache.value.maxEntries);
      assert b == front + [MAGIC_0, MAGIC_1] + LE32(t) + LE32(m);
      assert b[|front|] == MAGIC_0 && b[|front| + 1] == MAGIC_1;
      assert b[|front| + 2..] == LE32(t) + LE32(m) && b[|front| + 6..] == LE32(m) + [];
      LE32Read(t, LE32(m));
      LE32Read(m, []);
      assert U32At(b, |front| + 2) == U32At(b[|front| + 2..], 0) && U32At(b, |front| + 6) == U32At(b[|front| + 6..], 0);
    }
  }

  lemma TrailerBehind(head: bytes, pairs: bytes, body: bytes, ncache: Option<Ncache>)
    ensures TrailerAt(head + (pairs + (body + Trailer(ncache))), |head| + |pairs| + |body|) == Located(ncache)
  {
    Regroup(head, pairs, body + Trailer(ncache));
    Regroup(head + pairs, body, Trailer(ncache));
    TrailerFound(head + pairs + body, ncache);
  }

  /** The walk of the trailer reader through an encoded envelope. */
  lemma {:induction false} WalkEnds(head: bytes, headers: seq<Header>, behind: bytes, b: bytes)
    requires |head| == FIXED_SIZE && AllHeadersFit(headers) && U16At(head, 2) == |headers|
    requires b == head + (Pairs(headers) + behind)
    ensures |b| >= FIXED_SIZE && U32At(b, 4) == U32At(head, 4)
    ensures SkipHeaders(b, FIXED_SIZE, U16At(b, 2)) == Some(FIXED_SIZE + |Pairs(headers)|)
  {
    HeadKept(head, Pairs(headers) + behind);
    HeadersSkipped(head, headers, behind);
  }

  lemma {:induction false} ExtractsAt(b: bytes, len: nat, offset: nat, found: Option<Ncache>)
    requires |b| >= FIXED_SIZE && U32At(b, 4) == len
    requires SkipHeaders(b, FIXED_SIZE, U16At(b, 2)) == Some(offset) && TrailerAt(b, offset + len) == found
    ensures len <= NCACHE_MAX_BODY_SIZE ==> ExtractNcache(b) == found
    ensures len > NCACHE_MAX_BODY_SIZE ==> ExtractNcache(b) == None
  {}

  /**
   The trailer is found exactly if one was written and the body is small enough, with the time to
   live capped, whatever octets the body holds.
   */
  lemma TrailerExactly(s: Snapshot, b: bytes)
    requires Encode(s) == Some(b) && InRange(s)
    ensures ExtractNcache(b)
            == if s.ncache.Some? && |s.body| <= NCACHE_MAX_BODY_SIZE then Some(Capped(s.ncache.value)) else None
  {
    InRangeHead(s);
    WalkEnds(Head(s), s.headers, s.body + Trailer(s.ncache), b);
    TrailerBehind(Head(s), Pairs(s.headers), s.body, s.ncache);
    ExtractsAt(b, |s.body|, FIXED_SIZE + |Pairs(s.headers)|, Located(s.ncache));
  }
}
