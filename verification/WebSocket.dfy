/**
 WebSocket framing (RFC 6455, sections 5.2 and 5.3): `parse_frame` and `encode_frame`, on octets
 modelled as 8-bit vectors.
 */
module WebSocket {
  import opened Prelude

  const MAX_PAYLOAD_SIZE: nat := 16 * 1024 * 1024

  datatype Frame = Frame(fin: bool, opcode: bv8, payload: octets)

  /** A frame and the number of octets it took. */
  datatype Parsed = Parsed(frame: Frame, consumed: nat)

  type octets = seq<bv8>

  // ----- masking -----

  /** Each octet is combined with the next octet of the four-octet key, round and round. */
  function Masked(key: octets, payload: octets): (r: octets)
    requires |key| == 4
    ensures |r| == |payload|
    decreases |payload|
  {
    if payload == [] then [] else [payload[0] ^ key[0]] + Masked(key[1..] + key[..1], payload[1..])
  }

  /** The octet at position `i` is combined with key octet `i % 4`. */
  lemma {:induction false} MaskedAt(key: octets, payload: octets, i: nat)
    requires |key| == 4 && i < |payload|
    ensures Masked(key, payload)[i] == payload[i] ^ key[i % 4]
    decreases i
  {
    if i > 0 {
      var rotated := key[1..] + key[..1];
      MaskedAt(rotated, payload[1..], i - 1);
      assert rotated[(i - 1) % 4] == key[i % 4];
    }
  }

  /** Masking twice with the same key is the identity. */
  lemma {:induction false} MaskTwice(key: octets, payload: octets)
    requires |key| == 4
    ensures Masked(key, Masked(key, payload)) == payload
    decreases |payload|
  {
    if payload != [] {
      var rotated := key[1..] + key[..1];
      MaskTwice(rotated, payload[1..]);
      XorTwice(payload[0], key[0]);
      assert Masked(key, payload) == [payload[0] ^ key[0]] + Masked(rotated, payload[1..]);
    }
  }

  lemma XorTwice(x: bv8, k: bv8)
    ensures (x ^ k) ^ k == x
  {}

  // ----- lengths -----

  /** The octet with value `n`. */
  function Octet(n: nat): (b: bv8)
    requires n < 256
    ensures b as int == n
  {
    if n == 0 then 0 else Octet(n - 1) + 1
  }

  /** Big-endian value of a string of octets. */
  function BigEndian(b: octets): nat {
    if b == [] then 0 else BigEndian(b[..|b| - 1]) * 256 + (b[|b| - 1] as nat)
  }

  /** The `n` low octets of `v`, most significant first. */
  function ToBigEndian(v: nat, n: nat): (b: octets)
    ensures |b| == n
  {
    if n == 0 then [] else ToBigEndian(v / 256, n - 1) + [Octet(v % 256)]
  }

  function Power256(n: nat): nat {
    if n == 0 then 1 else 256 * Power256(n - 1)
  }

  lemma {:induction false} TwoOctets(n: nat)
    requires n <= 65535
    ensures ToBigEndian(n, 2) == [Octet(n / 256), Octet(n % 256)]
  {
    assert n / 256 < 256 && n / 256 % 256 == n / 256;
    assert ToBigEndian(n / 256 / 256, 0) == [];
    assert ToBigEndian(n / 256, 1) == [] + [Octet(n / 256)];
  }

  lemma {:induction false} BigEndianRoundTrip(v: nat, n: nat)
    requires v < Power256(n)
    ensures BigEndian(ToBigEndian(v, n)) == v
  {
    if n > 0 {
      BigEndianRoundTrip(v / 256, n - 1);
      BigEndianAppend(ToBigEndian(v / 256, n - 1), Octet(v % 256));
    }
  }

  lemma {:induction false} BigEndianAppend(b: octets, x: bv8)
    ensures BigEndian(b + [x]) == BigEndian(b) * 256 + (x as nat)
  {
    assert (b + [x])[..|b|] == b;
  }

  predicate HasMask(buf: octets)
    requires |buf| >= 2
  {
    buf[1] & 0x80 != 0
  }

  /** Payload length and offset just after the length field, if the buffer reaches that far. */
  function LengthField(buf: octets): (r: Option<(nat, nat)>)
    requires |buf| >= 2
    ensures r.Some? ==> 2 <= r.value.1 <= |buf|
  {
    var short := (buf[1] & 0x7F) as nat;
    if short == 126 then if |buf| < 4 then None else Some((BigEndian(buf[2..4]), 4))
    else if short == 127 then if |buf| < 10 then None else Some((BigEndian(buf[2..10]), 10))
    else Some((short, 2))
  }

  /** Reads the optional key and the payload of length `len` from `offset` on. */
  function TakePayload(buf: octets, len: nat, offset: nat): (r: Option<Parsed>)
    requires 2 <= offset <= |buf|
    ensures r.Some? ==> offset <= r.value.consumed <= |buf| && |r.value.frame.payload| == len
  {
    var masked := HasMask(buf);
    var start := if masked then offset + 4 else offset;
    if |buf| < start + len then None
    else
      var raw := buf[start..start + len];
      Some(Parsed(Frame(buf[0] & 0x80 != 0, buf[0] & 0x0F, if masked then Masked(buf[offset..offset + 4], raw) else raw),
                  start + len))
  }

  /** `parse_frame` */
  function Parse(buf: octets): (r: Option<Parsed>)
    ensures r.Some? ==> 2 <= r.value.consumed <= |buf| && |r.value.frame.payload| <= MAX_PAYLOAD_SIZE
  {
    if |buf| < 2 then None
    else
      var field := LengthField(buf);
      if field.None? || field.value.0 > MAX_PAYLOAD_SIZE then None
      else TakePayload(buf, field.value.0, field.value.1)
  }

  function LengthBytes(n: nat): (len: octets)
    requires n <= U64_MAX
    ensures 1 <= |len| <= 9 && len[0] < 128
    ensures len[0] as nat == (if n < 126 then n else if n <= 65535 then 126 else 127)
  {
    if n < 126 then [Octet(n)]
    else if n <= 65535 then [126] + ToBigEndian(n, 2)
    else [127] + ToBigEndian(n, 8)
  }

  /** Final-frame bit, opcode, mask bit and length. */
  function Header(opcode: bv8, mask: bool, n: nat): (h: octets)
    requires n <= U64_MAX
    ensures 2 <= |h| <= 10
  {
    var len := LengthBytes(n);
    [0x80 | opcode, if mask then 0x80 | len[0] else len[0]] + len[1..]
  }

  /** `encode_frame`: servers send unmasked frames. */
  function Encode(opcode: bv8, payload: octets): octets
    requires |payload| <= U64_MAX
  {
    Header(opcode, false, |payload|) + payload
  }

  /** What a client sends: the same layout with the mask bit, a key and the masked payload. */
  function EncodeMasked(opcode: bv8, key: octets, payload: octets): octets
    requires |payload| <= U64_MAX && |key| == 4
  {
    Header(opcode, true, |payload|) + key + Masked(key, payload)
  }

  // ----- round trip -----

  lemma HeaderBits(opcode: bv8, mask: bool, n: nat)
    requires n <= U64_MAX
    ensures var h := Header(opcode, mask, n);
            && h[0] & 0x80 != 0 && h[0] & 0x0F == opcode & 0x0F
            && HasMask(h) == mask
            && (h[1] & 0x7F) as nat == (if n < 126 then n else if n <= 65535 then 126 else 127)
  {
    FirstOctetBits(opcode);
    LengthBits(LengthBytes(n)[0]);
  }

  lemma FirstOctetBits(opcode: bv8)
    ensures (0x80 | opcode) & 0x80 != 0 && (0x80 | opcode) & 0x0F == opcode & 0x0F
  {}

  lemma LengthBits(x: bv8)
    requires x < 128
    ensures x & 0x80 == 0 && (0x80 | x) & 0x80 != 0 && x & 0x7F == x && (0x80 | x) & 0x7F == x
  {
  }

  /** The length field of an encoded header is read back, whatever follows. */
  lemma HeaderLength(opcode: bv8, mask: bool, n: nat, rest: octets)
    requires n <= U64_MAX
    ensures LengthField(Header(opcode, mask, n) + rest) == Some((n, |Header(opcode, mask, n)|))
  {
    var buf := Header(opcode, mask, n) + rest;
    HeaderBits(opcode, mask, n);
    if 126 <= n <= 65535 {
      assert Power256(2) == 65536;
      BigEndianRoundTrip(n, 2);
      assert buf[2..4] == ToBigEndian(n, 2);
    } else if n > 65535 {
      PowerEight();
      BigEndianRoundTrip(n, 8);
      assert buf[2..10] == ToBigEndian(n, 8);
    }
  }

  lemma PowerEight()
    ensures Power256(8) == U64_MAX + 1
  {
    assert Power256(4) == 0x1_0000_0000;
    assert Power256(6) == 0x1_0000_0000_0000;
  }

  /** An encoded frame followed by anything parses to itself; the opcode keeps its low four bits. */
  lemma EncodeParse(opcode: bv8, payload: octets, rest: octets)
    requires |payload| <= MAX_PAYLOAD_SIZE
    ensures Parse(Encode(opcode, payload) + rest)
            == Some(Parsed(Frame(true, opcode & 0x0F, payload), |Encode(opcode, payload)|))
  {
    var head := Header(opcode, false, |payload|);
    var buf := head + payload + rest;
    assert buf == head + (payload + rest);
    HeaderBits(opcode, false, |payload|);
    HeaderLength(opcode, false, |payload|, payload + rest);
    Middle(head, payload, rest);
    ParseTakes(buf, |payload|, |head|);
    TakePlain(buf, payload, |head|);
  }

  /** So does a masked frame: the parser removes the mask. */
  lemma EncodeMaskedParse(opcode: bv8, key: octets, payload: octets, rest: octets)
    requires |payload| <= MAX_PAYLOAD_SIZE && |key| == 4
    ensures Parse(EncodeMasked(opcode, key, payload) + rest)
            == Some(Parsed(Frame(true, opcode & 0x0F, payload), |EncodeMasked(opcode, key, payload)|))
  {
    var head, masked := Header(opcode, true, |payload|), Masked(key, payload);
    var buf := head + key + masked + rest;
    MaskedSlices(head, key, masked, rest);
    HeaderBits(opcode, true, |payload|);
    HeaderLength(opcode, true, |payload|, key + masked + rest);
    ParseTakes(buf, |payload|, |head|);
    TakeMasked(buf, key, masked, |head|);
    MaskTwice(key, payload);
  }

  lemma MaskedSlices(head: octets, key: octets, masked: octets, rest: octets)
    ensures var buf := head + key + masked + rest;
            && buf == head + (key + masked + rest)
            && buf[|head|..|head| + |key|] == key
            && buf[|head| + |key|..|head| + |key| + |masked|] == masked
  {
    var buf := head + key + masked + rest;
    assert buf == head + (key + masked + rest);
    Middle(head, key, masked + rest);
    assert buf == head + key + (masked + rest);
    Middle(head + key, masked, rest);
  }

  lemma Middle(a: octets, b: octets, c: octets)
    ensures (a + b + c)[|a|..|a| + |b|] == b
  {}

  lemma ParseTakes(buf: octets, len: nat, offset: nat)
    requires |buf| >= 2 && LengthField(buf) == Some((len, offset)) && len <= MAX_PAYLOAD_SIZE
    ensures Parse(buf) == TakePayload(buf, len, offset)
  {}

  /** A plain frame taken apart, once its length field is known. */
  lemma TakePlain(buf: octets, payload: octets, o: nat)
    requires 2 <= o && o + |payload| <= |buf| && !HasMask(buf) && buf[o..o + |payload|] == payload
    ensures TakePayload(buf, |payload|, o)
            == Some(Parsed(Frame(buf[0] & 0x80 != 0, buf[0] & 0x0F, payload), o + |payload|))
  {}

  /** A masked frame taken apart, once its length field is known. */
  lemma {:induction false} TakeMasked(buf: octets, key: octets, masked: octets, o: nat)
    requires 2 <= o && o + 4 + |masked| <= |buf| && HasMask(buf)
    requires |key| == 4 && buf[o..o + 4] == key && buf[o + 4..o + 4 + |masked|] == masked
    ensures TakePayload(buf, |masked|, o)
            == Some(Parsed(Frame(buf[0] & 0x80 != 0, buf[0] & 0x0F, Masked(key, masked)), o + 4 + |masked|))
  {
    TakeUnmasks(buf, |masked|, o);
    SameMasked(buf[o..o + 4], buf[o + 4..o + 4 + |masked|], key, masked);
  }

  lemma TakeUnmasks(buf: octets, len: nat, o: nat)
    requires 2 <= o && o + 4 + len <= |buf| && HasMask(buf)
    ensures TakePayload(buf, len, o)
            == Some(Parsed(Frame(buf[0] & 0x80 != 0, buf[0] & 0x0F, Masked(buf[o..o + 4], buf[o + 4..o + 4 + len])), o + 4 + len))
  {}

  lemma {:induction false} SameMasked(k1: octets, p1: octets, k2: octets, p2: octets)
    requires k1 == k2 && p1 == p2 && |k1| == 4
    ensures Masked(k1, p1) == Masked(k2, p2)
  {}

  /** Payloads over the limit never come back. */
  lemma OversizedRejected(opcode: bv8, payload: octets, rest: octets)
    requires MAX_PAYLOAD_SIZE < |payload| <= U64_MAX
    ensures Parse(Encode(opcode, payload) + rest) == None
  {
    assert Encode(opcode, payload) + rest == Header(opcode, false, |payload|) + (payload + rest);
    HeaderLength(opcode, false, |payload|, payload + rest);
  }

  // ----- stability -----

  lemma SliceStable(a: octets, b: octets, i: nat, j: nat)
    requires i <= j <= |a|
    ensures (a + b)[i..j] == a[i..j]
  {}

  lemma LengthFieldStable(buf: octets, more: octets)
    requires |buf| >= 2 && LengthField(buf).Some?
    ensures LengthField(buf + more) == LengthField(buf)
  {
    if |buf| >= 4 { assert (buf + more)[2..4] == buf[2..4]; }
    if |buf| >= 10 { assert (buf + more)[2..10] == buf[2..10]; }
  }

  lemma TakePayloadStable(buf: octets, len: nat, offset: nat, more: octets)
    requires 2 <= offset <= |buf| && TakePayload(buf, len, offset).Some?
    ensures TakePayload(buf + more, len, offset) == TakePayload(buf, len, offset)
  {
    if HasMask(buf) {
      SliceStable(buf, more, offset, offset + 4);
      SliceStable(buf, more, offset + 4, offset + 4 + len);
      TakeMasked(buf + more, buf[offset..offset + 4], buf[offset + 4..offset + 4 + len], offset);
    } else {
      SliceStable(buf, more, offset, offset + len);
      TakePlain(buf + more, buf[offset..offset + len], offset);
    }
  }

  /** A success depends only on the octets consumed. */
  lemma ParseStable(buf: octets, more: octets)
    requires Parse(buf).Some?
    ensures Parse(buf + more) == Parse(buf)
  {
    LengthFieldStable(buf, more);
    TakePayloadStable(buf, LengthField(buf).value.0, LengthField(buf).value.1, more);
  }

  /** No proper prefix of the consumed octets parses: frames are self-delimiting. */
  lemma PrefixIncomplete(buf: octets, n: nat)
    requires Parse(buf).Some? && n < Parse(buf).value.consumed
    ensures Parse(buf[..n]) == None
  {
    if Parse(buf[..n]).Some? {
      assert buf == buf[..n] + buf[n..];
      ParseStable(buf[..n], buf[n..]);
    }
  }

  // ----- streams -----

  /** Frames read from the front of a buffer until none is complete, and the octets left over. */
  function Drain(buf: octets): (r: (seq<Frame>, octets))
    ensures |r.1| <= |buf|
    decreases |buf|
  {
    match Parse(buf)
    case None => ([], buf)
    case Some(p) =>
      var rest := Drain(buf[p.consumed..]);
      ([p.frame] + rest.0, rest.1)
  }

  datatype Message = Message(opcode: bv8, payload: octets)

  function Stream(messages: seq<Message>): octets
    requires forall m | m in messages :: |m.payload| <= MAX_PAYLOAD_SIZE
  {
    if messages == [] then [] else Encode(messages[0].opcode, messages[0].payload) + Stream(messages[1..])
  }

  function Frames(messages: seq<Message>): seq<Frame> {
    if messages == [] then []
    else [Frame(true, messages[0].opcode & 0x0F, messages[0].payload)] + Frames(messages[1..])
  }

  /** A concatenation of encoded frames drains to exactly those frames. */
  lemma {:induction false} DrainStream(messages: seq<Message>)
    requires forall m | m in messages :: |m.payload| <= MAX_PAYLOAD_SIZE
    ensures Drain(Stream(messages)) == (Frames(messages), [])
  {
    if messages != [] {
      var m := messages[0];
      var first, rest := Encode(m.opcode, m.payload), Stream(messages[1..]);
      EncodeParse(m.opcode, m.payload, rest);
      assert (first + rest)[|first|..] == rest;
      DrainStream(messages[1..]);
    }
  }

  /** Reading chunk by chunk, keeping the octets left over, yields the frames of the whole. */
  lemma {:induction false} DrainChunk(buf: octets, more: octets)
    ensures Drain(buf + more).0 == Drain(buf).0 + Drain(Drain(buf).1 + more).0
    ensures Drain(buf + more).1 == Drain(Drain(buf).1 + more).1
    decreases |buf|
  {
    match Parse(buf)
    case None =>
    case Some(p) =>
      ParseStable(buf, more);
      assert (buf + more)[p.consumed..] == buf[p.consumed..] + more;
      DrainChunk(buf[p.consumed..], more);
  }

  function Concat(chunks: seq<octets>): octets {
    if chunks == [] then [] else Concat(chunks[..|chunks| - 1]) + chunks[|chunks| - 1]
  }

  /** The connection's reader: append a chunk to what was left, take out the complete frames. */
  function Feed(chunks: seq<octets>): (seq<Frame>, octets) {
    if chunks == [] then ([], [])
    else
      var (frames, left) := Feed(chunks[..|chunks| - 1]);
      var (next, left') := Drain(left + chunks[|chunks| - 1]);
      (frames + next, left')
  }

  /** However a byte stream is cut into chunks, the same frames come out. */
  lemma {:induction false} ChunkingIrrelevant(chunks: seq<octets>)
    ensures Feed(chunks) == Drain(Concat(chunks))
  {
    if chunks != [] {
      var n := |chunks| - 1;
      ChunkingIrrelevant(chunks[..n]);
      DrainChunk(Concat(chunks[..n]), chunks[n]);
    }
  }

  lemma {:induction false} ChunkedStream(messages: seq<Message>, chunks: seq<octets>)
    requires forall m | m in messages :: |m.payload| <= MAX_PAYLOAD_SIZE
    requires Concat(chunks) == Stream(messages)
    ensures Feed(chunks) == (Frames(messages), [])
  {
    ChunkingIrrelevant(chunks);
    DrainStream(messages);
  }

  // ----- the program's methods -----

  method ParseFrame(buf: octets) returns (r: Option<Parsed>)
    ensures r == Parse(buf)
  {
    if |buf| < 2 { return None; }
    var payloadLen, offset: nat := (buf[1] & 0x7F) as nat, 2;
    if payloadLen == 126 {
      if |buf| < 4 { return None; }
      payloadLen, offset := BigEndian(buf[2..4]), 4;
    } else if payloadLen == 127 {
      if |buf| < 10 { return None; }
      payloadLen, offset := BigEndian(buf[2..10]), 10;
    }
    if payloadLen > MAX_PAYLOAD_SIZE { return None; }
    r := ReadPayload(buf, payloadLen, offset);
  }

  method ReadPayload(buf: octets, payloadLen: nat, start: nat) returns (r: Option<Parsed>)
    requires 2 <= start <= |buf|
    ensures r == TakePayload(buf, payloadLen, start)
  {
    var fin, opcode, offset := buf[0] & 0x80 != 0, buf[0] & 0x0F, start;
    if HasMask(buf) { offset := offset + 4; }
    if |buf| < offset + payloadLen { return None; }
    var payload := CopyOctets(buf[offset..offset + payloadLen]);
    if HasMask(buf) { Unmask(payload, buf[start..start + 4]); }
    return Some(Parsed(Frame(fin, opcode, payload[..]), offset + payloadLen));
  }

  method CopyOctets(raw: octets) returns (copy: array<bv8>)
    ensures fresh(copy) && copy[..] == raw
  {
    copy := new bv8[|raw|](i requires 0 <= i < |raw| => raw[i]);
  }

  method Unmask(payload: array<bv8>, key: octets)
    requires |key| == 4
    modifies payload
    ensures payload[..] == Masked(key, old(payload[..]))
  {
    for i := 0 to payload.Length
      invariant forall j | 0 <= j < i :: payload[j] == old(payload[j]) ^ key[j % 4]
      invariant forall j | i <= j < payload.Length :: payload[j] == old(payload[j])
    {
      payload[i] := payload[i] ^ key[i % 4];
    }
    forall i | 0 <= i < payload.Length ensures payload[i] == Masked(key, old(payload[..]))[i] {
      MaskedAt(key, old(payload[..]), i);
    }
  }

  method EncodeFrame(opcode: bv8, payload: octets) returns (frame: octets)
    requires |payload| <= U64_MAX
    ensures frame == Encode(opcode, payload)
  {
    frame := [0x80 | opcode];
    var n := |payload|;
    if n < 126 {
      frame := frame + [Octet(n)];
    } else if n <= 65535 {
      frame := frame + [126];
      frame := frame + [Octet(n / 256)];
      frame := frame + [Octet(n % 256)];
      TwoOctets(n);
      assert frame == Header(opcode, false, n);
    } else {
      frame := frame + [127];
      frame := frame + ToBigEndian(n, 8);
      assert frame == Header(opcode, false, n);
    }
    frame := frame + payload;
  }
}
