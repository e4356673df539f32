/**
 The two sides of the response envelope as the programs run them: the encoder fills a buffer of the
 computed size in place, the readers move an offset. Each is proved against `ResponseEnvelope`.
 */
module ResponseCodec {
  import opened Prelude
  import opened Wire
  import opened ResponseEnvelope

  // ----- encoder -----

  /** Copies `data` to `offset` and keeps what stands before it. */
  method Set(output: array<byte>, offset: nat, data: bytes)
    requires offset + |data| <= output.Length
    modifies output
    ensures output[..offset + |data|] == old(output[..offset]) + data
  {
    for i := 0 to |data|
      invariant output[..offset + i] == old(output[..offset]) + data[..i]
    {
      output[offset + i] := data[i];
      assert output[..offset + i + 1] == output[..offset + i] + [data[i]];
    }
    assert data[..|data|] == data;
  }

  method WriteU16(output: array<byte>, offset: nat, value: int)
    requires offset + 2 <= output.Length
    modifies output
    ensures output[..offset + 2] == old(output[..offset]) + LE16(Low16(value))
  {
    output[offset] := value % 256;
    output[offset + 1] := value / 256 % 256;
    LowOctets16(value);
    assert output[..offset + 2] == output[..offset] + [output[offset], output[offset + 1]];
  }

  method WriteU32(output: array<byte>, offset: nat, value: int)
    requires offset + 4 <= output.Length
    modifies output
    ensures output[..offset + 4] == old(output[..offset]) + LE32(Low32(value))
  {
    output[offset] := value % 256;
    output[offset + 1] := value / 256 % 256;
    output[offset + 2] := value / 65536 % 256;
    output[offset + 3] := value / 16777216 % 256;
    LowOctets32(value);
    assert output[..offset + 4]
        == output[..offset] + [output[offset], output[offset + 1], output[offset + 2], output[offset + 3]];
  }

  lemma LowOctets16(n: int)
    ensures LE16(Low16(n)) == [n % 256, n / 256 % 256]
  {
    var q, m := n / 65536, Low16(n);
    assert n / 256 == 256 * q + m / 256;
    Wrap(n, 256 * q, m);
    Wrap(n / 256, q, m / 256);
  }

  lemma LowOctets32(n: int)
    ensures LE32(Low32(n)) == [n % 256, n / 256 % 256, n / 65536 % 256, n / 16777216 % 256]
  {
    var q, m := n / (U32_MAX + 1), Low32(n);
    Shifted(n, q, m);
    Wrap(n, 16777216 * q, m);
    Wrap(n / 256, 65536 * q, m / 256);
    Wrap(n / 65536, 256 * q, m / 65536);
    Wrap(n / 16777216, q, m / 16777216);
  }

  lemma Shifted(n: int, q: int, m: u32)
    requires n == 0x1_0000_0000 * q + m
    ensures n / 256 == 256 * (65536 * q) + m / 256
    ensures n / 65536 == 256 * (256 * q) + m / 65536
    ensures n / 16777216 == 256 * q + m / 16777216
  {}

  lemma Wrap(n: int, q: int, m: nat)
    requires n == 256 * q + m
    ensures n % 256 == m % 256
  {}

  /** Length of the encoded headers, or None if some name or value is too long. */
  method EncodedSize(headers: seq<Header>) returns (n: Option<nat>)
    ensures n == if AllHeadersFit(headers) then Some(|Pairs(headers)|) else None
  {
    var total := 0;
    assert headers[0..] == headers;
    for i := 0 to |headers|
      invariant AllHeadersFit(headers[i..]) == AllHeadersFit(headers)
      invariant AllHeadersFit(headers) ==> total + |Pairs(headers[i..])| == |Pairs(headers)|
    {
      assert headers[i..][1..] == headers[i + 1..];
      if |headers[i].name| > 255 { return None; }
      if |headers[i].value| > U16_MAX { return None; }
      PairLength(headers[i]);
      total := total + 3 + |headers[i].name| + |headers[i].value|;
    }
    return Some(total);
  }

  method WritePair(output: array<byte>, start: nat, h: Header) returns (offset: nat)
    requires HeaderFits(h) && start + |Pair(h)| <= output.Length
    modifies output
    ensures offset == start + |Pair(h)| && output[..offset] == old(output[..start]) + Pair(h)
  {
    PairLength(h);
    ghost var front := output[..start];
    output[start] := |h.name|;
    offset := start + 1;
    assert output[..offset] == front + [|h.name|];
    WriteU16(output, offset, |h.value|);
    offset := offset + 2;
    Set(output, offset, h.name);
    offset := offset + |h.name|;
    Set(output, offset, h.value);
    offset := offset + |h.value|;
    PairParts(front, h);
  }

  lemma PairParts(front: bytes, h: Header)
    requires HeaderFits(h)
    ensures front + [|h.name|] + LE16(|h.value|) + h.name + h.value == front + Pair(h)
  {
    var lens := [|h.name|] + LE16(|h.value|);
    Regroup(front, [|h.name|], LE16(|h.value|));
    Regroup(front, lens, h.name);
    Regroup(front, lens + h.name, h.value);
  }

  lemma {:induction false} NextPairs(front: bytes, written: bytes, headers: seq<Header>, i: nat)
    requires AllHeadersFit(headers) && i < |headers| && AllHeadersFit(headers[i..])
    requires written + Pairs(headers[i..]) == front + Pairs(headers)
    ensures HeaderFits(headers[i]) && AllHeadersFit(headers[i + 1..])
    ensures written + Pair(headers[i]) + Pairs(headers[i + 1..]) == front + Pairs(headers)
  {
    assert headers[i..][1..] == headers[i + 1..];
    Regroup(written, Pair(headers[i]), Pairs(headers[i + 1..]));
  }

  method WritePairs(output: array<byte>, start: nat, headers: seq<Header>) returns (offset: nat)
    requires AllHeadersFit(headers) && start + |Pairs(headers)| <= output.Length
    modifies output
    ensures offset == start + |Pairs(headers)| && output[..offset] == old(output[..start]) + Pairs(headers)
  {
    ghost var front := output[..start];
    offset := start;
    assert headers[0..] == headers;
    for i := 0 to |headers|
      invariant start <= offset <= output.Length && AllHeadersFit(headers[i..])
      invariant output[..offset] + Pairs(headers[i..]) == front + Pairs(headers)
    {
      NextPairs(front, output[..offset], headers, i);
      assert |output[..offset] + Pair(headers[i]) + Pairs(headers[i + 1..])| == |front + Pairs(headers)|;
      offset := WritePair(output, offset, headers[i]);
    }
    assert output[..offset] + [] == output[..offset];
  }

  method WriteTrailer(output: array<byte>, start: nat, n: Ncache)
    requires start + TRAILER_SIZE <= output.Length
    modifies output
    ensures output[..start + TRAILER_SIZE] == old(output[..start]) + Trailer(Some(n))
  {
    ghost var front := output[..start];
    output[start] := MAGIC_0;
    output[start + 1] := MAGIC_1;
    assert output[..start + 2] == front + [MAGIC_0, MAGIC_1];
    WriteU32(output, start + 2, n.ttl);
    WriteU32(output, start + 6, n.maxEntries);
    Regroup(front, [MAGIC_0, MAGIC_1], LE32(Low32(n.ttl)));
    Regroup(front, [MAGIC_0, MAGIC_1] + LE32(Low32(n.ttl)), LE32(Low32(n.maxEntries)));
  }

  method EncodeResponseEnvelope(s: Snapshot) returns (r: Option<array<byte>>)
    ensures r.None? <==> Encode(s).None?
    ensures r.Some? ==> fresh(r.value) && Encode(s) == Some(r.value[..])
  {
    var headersSize := EncodedSize(s.headers);
    if headersSize.None? { return None; }
    var total := FIXED_SIZE + headersSize.value + |s.body| + if s.ncache.Some? then TRAILER_SIZE else 0;
    var output := new byte[total];
    WriteU16(output, 0, s.status);
    WriteU16(output, 2, |s.headers|);
    WriteU32(output, 4, |s.body|);
    assert output[..0] == [];
    assert output[..8] == Head(s);
    var offset := WritePairs(output, 8, s.headers);
    Set(output, offset, s.body);
    offset := offset + |s.body|;
    if s.ncache.Some? { WriteTrailer(output, offset, s.ncache.value); }
    Regroup(Head(s), Pairs(s.headers), s.body);
    Regroup(Head(s) + Pairs(s.headers), s.body, Trailer(s.ncache));
    Regroup(Head(s), Pairs(s.headers), s.body + Trailer(s.ncache));
    assert output[..total] == output[..];
    assert s.ncache.None? ==> s.body + Trailer(s.ncache) == s.body;
    return Some(output);
  }

  // ----- readers -----

  lemma PairCut(b: bytes, o: nat, name: nat, value: nat)
    requires o + 3 <= |b| && name == b[o] && value == U16At(b, o + 1) && o + 3 + name + value > |b|
    ensures ReadPair(b[o..]).Truncated?
  {
    assert b[o..][3..] == b[o + 3..];
    SliceAt(b, o + 3, name);
    if o + 3 + name <= |b| { SliceAt(b, o + 3 + name, value); }
  }

  lemma PairWhole(b: bytes, o: nat, name: nat, value: nat)
    requires o + 3 <= |b| && name == b[o] && value == U16At(b, o + 1) && o + 3 + name + value <= |b|
    ensures ReadPair(b[o..])
            == Read(Header(b[o + 3..o + 3 + name], b[o + 3 + name..o + 3 + name + value]), b[o + 3 + name + value..])
  {
    assert b[o..][3..] == b[o + 3..];
    SliceAt(b, o + 3, name);
    SliceAt(b, o + 3 + name, value);
  }

  /** One header; both lengths are checked together. */
  method ReadHeader(b: bytes, start: nat) returns (r: Option<(Header, nat)>)
    requires start <= |b|
    ensures r.Some? ==> start <= r.value.1 <= |b| && ReadPair(b[start..]) == Read(r.value.0, b[r.value.1..])
    ensures r.None? ==> ReadPair(b[start..]).Truncated?
  {
    var offset := start;
    if offset + 1 > |b| { return None; }
    var nameLen := b[offset];
    offset := offset + 1;
    if offset + 2 > |b| { return None; }
    var valueLen := U16At(b, offset);
    offset := offset + 2;
    if offset + nameLen + valueLen > |b| {
      PairCut(b, start, nameLen, valueLen);
      return None;
    }
    PairWhole(b, start, nameLen, valueLen);
    var name := b[offset..offset + nameLen];
    offset := offset + nameLen;
    return Some((Header(name, b[offset..offset + valueLen]), offset + valueLen));
  }

  method ReadResponseEnvelope(b: bytes) returns (r: Option<Response>)
    ensures r == ReadResponse(b)
  {
    if |b| < 2 { return None; }
    var status := U16At(b, 0);
    if |b| < 4 { return None; }
    var headerCount := U16At(b, 2);
    if |b| < 8 { return None; }
    var bodyLength, offset, headers := U32At(b, 4), FIXED_SIZE, [];
    PrependNone(ReadPairs(b[offset..], headerCount));
    for i := 0 to headerCount
      invariant FIXED_SIZE <= offset <= |b|
      invariant ReadPairs(b[FIXED_SIZE..], headerCount) == Prepend(headers, ReadPairs(b[offset..], headerCount - i))
    {
      var one := ReadHeader(b, offset);
      if one.None? { return None; }
      PrependCons(headers, one.value.0, ReadPairs(b[one.value.1..], headerCount - i - 1));
      headers := headers + [one.value.0];
      offset := one.value.1;
    }
    assert headers + [] == headers;
    SliceAt(b, offset, bodyLength);
    if offset + bodyLength > |b| { return None; }
    return Some(Response(status, headers, b[offset..offset + bodyLength]));
  }

  method ExtractNcacheTrailer(b: bytes) returns (r: Option<Ncache>)
    ensures r == ExtractNcache(b)
  {
    if |b| < 8 { return None; }
    var headerCount, bodyLength := U16At(b, 2), U32At(b, 4);
    if bodyLength > NCACHE_MAX_BODY_SIZE { return None; }
    var offset: nat := FIXED_SIZE;
    for i := 0 to headerCount
      invariant SkipHeaders(b, FIXED_SIZE, headerCount) == SkipHeaders(b, offset, headerCount - i)
    {
      if offset + 3 > |b| { return None; }
      var nameLen, valueLen := b[offset], U16At(b, offset + 1);
      offset := offset + 3 + nameLen + valueLen;
    }
    offset := offset + bodyLength;
    if offset + 10 > |b| { return None; }
    if b[offset] != MAGIC_0 || b[offset + 1] != MAGIC_1 { return None; }
    var ttl := U32At(b, offset + 2);
    if ttl > NCACHE_MAX_TTL_SECS { ttl := NCACHE_MAX_TTL_SECS; }
    return Some(Ncache(ttl, U32At(b, offset + 6)));
  }
}
