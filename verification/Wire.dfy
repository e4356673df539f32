/**
 Little-endian binary fields shared by the request and response envelopes: writers, readers that
 return what is left, and the two facts every reader keeps. What was written is read back, and a
 successful read is not changed by octets added at the end.
 */
module Wire {
  import opened Prelude

  datatype Header = Header(name: bytes, value: bytes)

  datatype Read<+T> = Truncated | Read(value: T, rest: bytes)

  /** The same read with more octets behind it. */
  function More<T>(r: Read<T>, more: bytes): Read<T> {
    match r
    case Truncated => Truncated
    case Read(v, rest) => Read(v, rest + more)
  }

  // ----- writers -----

  function LE16(n: u16): (b: bytes)
    ensures |b| == 2
  {
    [n % 256, n / 256]
  }

  function LE32(n: u32): (b: bytes)
    ensures |b| == 4
  {
    [n % 256, n / 256 % 256, n / 65536 % 256, n / 16777216]
  }

  predicate ValueFits(v: bytes) {
    |v| <= U16_MAX
  }

  predicate HeaderFits(h: Header) {
    |h.name| <= 255 && ValueFits(h.value)
  }

  predicate AllValuesFit(vs: seq<bytes>) {
    vs == [] || (ValueFits(vs[0]) && AllValuesFit(vs[1..]))
  }

  predicate AllHeadersFit(hs: seq<Header>) {
    hs == [] || (HeaderFits(hs[0]) && AllHeadersFit(hs[1..]))
  }

  function Value(v: bytes): bytes
    requires ValueFits(v)
  {
    LE16(|v|) + v
  }

  function Pair(h: Header): bytes
    requires HeaderFits(h)
  {
    [|h.name|] + LE16(|h.value|) + h.name + h.value
  }

  function Values(vs: seq<bytes>): bytes
    requires AllValuesFit(vs)
  {
    if vs == [] then [] else Value(vs[0]) + Values(vs[1..])
  }

  function Pairs(hs: seq<Header>): bytes
    requires AllHeadersFit(hs)
  {
    if hs == [] then [] else Pair(hs[0]) + Pairs(hs[1..])
  }

  // ----- readers -----

  function U16At(b: bytes, i: nat): u16
    requires i + 2 <= |b|
  {
    (b[i] as int) + 256 * (b[i + 1] as int)
  }

  function U32At(b: bytes, i: nat): u32
    requires i + 4 <= |b|
  {
    (b[i] as int) + 256 * (b[i + 1] as int) + 65536 * (b[i + 2] as int) + 16777216 * (b[i + 3] as int)
  }

  function Slice(b: bytes, n: nat): Read<bytes> {
    if n <= |b| then Read(b[..n], b[n..]) else Truncated
  }

  function ReadValue(b: bytes): Read<bytes> {
    if |b| < 2 then Truncated else Slice(b[2..], U16At(b, 0))
  }

  /** Both lengths come first, then the name, then the value. */
  function ReadPair(b: bytes): Read<Header> {
    if |b| < 3 then Truncated
    else
      match Slice(b[3..], b[0])
      case Truncated => Truncated
      case Read(name, rest) =>
        match Slice(rest, U16At(b, 1))
        case Truncated => Truncated
        case Read(value, rest) => Read(Header(name, value), rest)
  }

  function ConsTo<T>(x: T, r: Read<seq<T>>): Read<seq<T>> {
    match r
    case Truncated => Truncated
    case Read(xs, rest) => Read([x] + xs, rest)
  }

  function ReadValues(b: bytes, n: nat): Read<seq<bytes>> {
    if n == 0 then Read([], b)
    else
      match ReadValue(b)
      case Truncated => Truncated
      case Read(v, rest) => ConsTo(v, ReadValues(rest, n - 1))
  }

  function ReadPairs(b: bytes, n: nat): Read<seq<Header>> {
    if n == 0 then Read([], b)
    else
      match ReadPair(b)
      case Truncated => Truncated
      case Read(h, rest) => ConsTo(h, ReadPairs(rest, n - 1))
  }

  // ----- what was written is read back -----

  lemma LE16Read(n: u16, rest: bytes)
    ensures U16At(LE16(n) + rest, 0) == n && (LE16(n) + rest)[2..] == rest
  {}

  lemma LE32Read(n: u32, rest: bytes)
    ensures U32At(LE32(n) + rest, 0) == n && (LE32(n) + rest)[4..] == rest
  {
    Digits(n);
    Behind(LE32(n), rest);
  }

  lemma Digits(n: nat)
    ensures n == n % 256 + 256 * (n / 256 % 256) + 65536 * (n / 65536 % 256) + 16777216 * (n / 16777216)
  {
    SecondOctet(n);
    ThirdOctet(n);
  }

  lemma SecondOctet(n: nat)
    ensures n / 256 == 256 * (n / 65536) + n / 256 % 256
  {}

  lemma ThirdOctet(n: nat)
    ensures n / 65536 == 256 * (n / 16777216) + n / 65536 % 256
  {}

  lemma Behind(a: bytes, rest: bytes)
    ensures (a + rest)[|a|..] == rest
  {}

  lemma SliceRead(v: bytes, rest: bytes)
    ensures Slice(v + rest, |v|) == Read(v, rest)
  {}

  lemma ValueRead(v: bytes, rest: bytes)
    requires ValueFits(v)
    ensures ReadValue(Value(v) + rest) == Read(v, rest)
  {
    assert Value(v) + rest == LE16(|v|) + (v + rest);
    LE16Read(|v|, v + rest);
    SliceRead(v, rest);
  }

  lemma PairRead(h: Header, rest: bytes)
    requires HeaderFits(h)
    ensures ReadPair(Pair(h) + rest) == Read(h, rest)
  {
    var lens, body := [|h.name|] + LE16(|h.value|), h.name + (h.value + rest);
    assert Pair(h) + rest == lens + body;
    assert (lens + body)[1] == LE16(|h.value|)[0] && (lens + body)[2] == LE16(|h.value|)[1];
    assert (lens + body)[3..] == body;
    SliceRead(h.name, h.value + rest);
    SliceRead(h.value, rest);
  }

  lemma Uncons<T>(xs: seq<T>, rest: bytes)
    requires xs != []
    ensures ConsTo(xs[0], Read(xs[1..], rest)) == Read(xs, rest)
  {
    assert [xs[0]] + xs[1..] == xs;
  }

  lemma Regroup(a: bytes, b: bytes, c: bytes)
    ensures (a + b) + c == a + (b + c)
  {}

  lemma {:induction false} ReadValuesStep(b: bytes, behind: bytes, vs: seq<bytes>, rest: bytes)
    requires vs != [] && ReadValue(b) == Read(vs[0], behind) && ReadValues(behind, |vs| - 1) == Read(vs[1..], rest)
    ensures ReadValues(b, |vs|) == Read(vs, rest)
  {
    Uncons(vs, rest);
  }

  lemma {:induction false} ReadPairsStep(b: bytes, behind: bytes, hs: seq<Header>, rest: bytes)
    requires hs != [] && ReadPair(b) == Read(hs[0], behind) && ReadPairs(behind, |hs| - 1) == Read(hs[1..], rest)
    ensures ReadPairs(b, |hs|) == Read(hs, rest)
  {
    Uncons(hs, rest);
  }

  lemma {:induction false} ValuesRead(vs: seq<bytes>, rest: bytes)
    requires AllValuesFit(vs)
    ensures ReadValues(Values(vs) + rest, |vs|) == Read(vs, rest)
  {
    if |vs| == 0 {
      assert Values(vs) + rest == rest;
    } else {
      var first, behind := Value(vs[0]), Values(vs[1..]) + rest;
      Regroup(first, Values(vs[1..]), rest);
      ValueRead(vs[0], behind);
      ValuesRead(vs[1..], rest);
      ReadValuesStep(first + behind, behind, vs, rest);
    }
  }

  lemma {:induction false} PairsRead(hs: seq<Header>, rest: bytes)
    requires AllHeadersFit(hs)
    ensures ReadPairs(Pairs(hs) + rest, |hs|) == Read(hs, rest)
  {
    if |hs| == 0 {
      assert Pairs(hs) + rest == rest;
    } else {
      var first, behind := Pair(hs[0]), Pairs(hs[1..]) + rest;
      Regroup(first, Pairs(hs[1..]), rest);
      PairRead(hs[0], behind);
      PairsRead(hs[1..], rest);
      ReadPairsStep(first + behind, behind, hs, rest);
    }
  }

  // ----- octets added at the end change nothing -----

  lemma SliceMore(b: bytes, n: nat, more: bytes)
    requires Slice(b, n).Read?
    ensures Slice(b + more, n) == More(Slice(b, n), more)
  {
    assert (b + more)[..n] == b[..n];
    assert (b + more)[n..] == b[n..] + more;
  }

  lemma ReadValueMore(b: bytes, more: bytes)
    requires ReadValue(b).Read?
    ensures ReadValue(b + more) == More(ReadValue(b), more)
  {
    assert (b + more)[2..] == b[2..] + more;
    SliceMore(b[2..], U16At(b, 0), more);
  }

  lemma ReadPairMore(b: bytes, more: bytes)
    requires ReadPair(b).Read?
    ensures ReadPair(b + more) == More(ReadPair(b), more)
  {
    assert (b + more)[3..] == b[3..] + more;
    SliceMore(b[3..], b[0], more);
    SliceMore(b[3..][b[0]..], U16At(b, 1), more);
  }

  lemma {:induction false} ReadValuesMore(b: bytes, n: nat, more: bytes)
    requires ReadValues(b, n).Read?
    ensures ReadValues(b + more, n) == More(ReadValues(b, n), more)
  {
    if n > 0 {
      ReadValueMore(b, more);
      ReadValuesMore(ReadValue(b).rest, n - 1, more);
    }
  }

  lemma {:induction false} ReadPairsMore(b: bytes, n: nat, more: bytes)
    requires ReadPairs(b, n).Read?
    ensures ReadPairs(b + more, n) == More(ReadPairs(b, n), more)
  {
    if n > 0 {
      ReadPairMore(b, more);
      ReadPairsMore(ReadPair(b).rest, n - 1, more);
    }
  }

  // ----- reading at an offset, and in a loop -----

  lemma SliceAt(b: bytes, o: nat, n: nat)
    requires o <= |b|
    ensures Slice(b[o..], n) == if o + n <= |b| then Read(b[o..o + n], b[o + n..]) else Truncated
  {
    if o + n <= |b| {
      assert b[o..][..n] == b[o..o + n];
      assert b[o..][n..] == b[o + n..];
    }
  }

  function Prepend<T>(xs: seq<T>, r: Read<seq<T>>): Read<seq<T>> {
    match r
    case Truncated => Truncated
    case Read(ys, rest) => Read(xs + ys, rest)
  }

  lemma PrependCons<T>(xs: seq<T>, x: T, r: Read<seq<T>>)
    ensures Prepend(xs, ConsTo(x, r)) == Prepend(xs + [x], r)
  {
    if r.Read? { assert xs + ([x] + r.value) == xs + [x] + r.value; }
  }

  lemma PrependNone<T>(r: Read<seq<T>>)
    ensures Prepend([], r) == r
  {
    if r.Read? { assert [] + r.value == r.value; }
  }
}
