/**
 From the request target to query entries: splitting, and percent decoding as JavaScript
 (`decodeURIComponent` with a fallback) and the native side (lenient, with replacement characters)
 do it. Request targets are ASCII.
 */
module QueryText {
  import opened Prelude
  import opened FastPath

  predicate Ascii(s: string) {
    forall i | 0 <= i < |s| :: s[i] < '\U{80}'
  }

  type AsciiText = s: string | Ascii(s) witness ""

  function Octets(s: AsciiText): (b: bytes)
    ensures |b| == |s|
  {
    if s == "" then [] else [s[0] as int] + Octets(s[1..])
  }

  // ----- UTF-8 (RFC 3629, section 4) -----

  predicate Tail(b: bytes, n: nat) {
    |b| > n && forall i | 1 <= i <= n :: 0x80 <= b[i] < 0xC0
  }

  /** A leading value and the six low bits of each octet behind it. */
  function Bits(b: seq<int>): (n: int)
    requires b != [] && forall i | 1 <= i < |b| :: 0x80 <= b[i] < 0xC0
    ensures |b| == 1 ==> n == b[0]
    ensures |b| == 2 ==> b[0] * 0x40 <= n < (b[0] + 1) * 0x40
    ensures |b| == 3 ==> b[0] * 0x1000 <= n < (b[0] + 1) * 0x1000
    ensures |b| == 4 ==> b[0] * 0x4_0000 <= n < (b[0] + 1) * 0x4_0000
  {
    if |b| == 1 then b[0] else Bits(b[..|b| - 1]) * 64 + b[|b| - 1] - 0x80
  }

  /** The first character and the number of octets it takes. */
  function FirstChar(b: bytes): (r: Option<(char, nat)>)
    requires b != []
    ensures r.Some? ==> 1 <= r.value.1 <= |b|
    ensures b[0] < 0x80 ==> r == Some((b[0] as char, 1))
    ensures b[0] >= 0x80 && r.Some? ==> r.value.0 >= '\U{80}'
  {
    if b[0] < 0x80 then Some((b[0] as char, 1))
    else if 0xC2 <= b[0] < 0xE0 && Tail(b, 1) then Some((Bits([b[0] as int - 0xC0, b[1]]) as char, 2))
    else if 0xE0 <= b[0] < 0xF0 && Tail(b, 2) then
      var n := Bits([b[0] as int - 0xE0, b[1], b[2]]);
      if n < 0x800 || 0xD800 <= n < 0xE000 then None else Some((n as char, 3))
    else if 0xF0 <= b[0] < 0xF5 && Tail(b, 3) then
      var n := Bits([b[0] as int - 0xF0, b[1], b[2], b[3]]);
      if n < 0x1_0000 || n > 0x10_FFFF then None else Some((n as char, 4))
    else None
  }

  function Utf8(b: bytes): Option<string> {
    if b == [] then Some("")
    else
      match FirstChar(b)
      case None => None
      case Some((c, n)) =>
        match Utf8(b[n..])
        case None => None
        case Some(s) => Some([c] + s)
  }

  /** The UTF-8 octets of a character. */
  function EncodeChar(c: char): (b: bytes)
    ensures b != []
  {
    var n := c as int;
    if n < 0x80 then [n]
    else if n < 0x800 then [0xC0 + n / 0x40, 0x80 + n % 0x40]
    else if n < 0x1_0000 then [0xE0 + n / 0x1000, 0x80 + n / 0x40 % 0x40, 0x80 + n % 0x40]
    else [0xF0 + n / 0x4_0000, 0x80 + n / 0x1000 % 0x40, 0x80 + n / 0x40 % 0x40, 0x80 + n % 0x40]
  }

  function EncodeText(s: string): bytes {
    if s == "" then [] else EncodeChar(s[0]) + EncodeText(s[1..])
  }

  lemma BitsUnrolled(a: int, b: int, c: int, d: int)
    requires 0x80 <= b < 0xC0 && 0x80 <= c < 0xC0 && 0x80 <= d < 0xC0
    ensures Bits([a, b]) == a * 0x40 + b - 0x80
    ensures Bits([a, b, c]) == (a * 0x40 + b - 0x80) * 0x40 + c - 0x80
    ensures Bits([a, b, c, d]) == ((a * 0x40 + b - 0x80) * 0x40 + c - 0x80) * 0x40 + d - 0x80
  {
    assert [a, b][..1] == [a] && [a, b, c][..2] == [a, b] && [a, b, c, d][..3] == [a, b, c];
  }

  lemma CharTwo(n: nat)
    requires 0x80 <= n < 0x800
    ensures (n / 0x40) * 0x40 + n % 0x40 == n && 2 <= n / 0x40 < 0x20
  {}

  lemma CharThree(n: nat)
    requires 0x800 <= n < 0x1_0000
    ensures ((n / 0x1000) * 0x40 + n / 0x40 % 0x40) * 0x40 + n % 0x40 == n && n / 0x1000 < 0x10
  {}

  lemma CharFour(n: nat)
    requires 0x1_0000 <= n < 0x11_0000
    ensures (((n / 0x4_0000) * 0x40 + n / 0x1000 % 0x40) * 0x40 + n / 0x40 % 0x40) * 0x40 + n % 0x40 == n
    ensures n / 0x4_0000 < 5
  {}

  lemma TwoRead(a: byte, b: byte, rest: bytes)
    requires 0xC2 <= a < 0xE0 && 0x80 <= b < 0xC0
    ensures FirstChar([a, b] + rest) == Some((((a as int - 0xC0) * 0x40 + b - 0x80) as char, 2))
  {
    BitsUnrolled(a as int - 0xC0, b, b, b);
  }

  lemma ThreeRead(a: byte, b: byte, c: byte, rest: bytes, n: int)
    requires 0xE0 <= a < 0xF0 && 0x80 <= b < 0xC0 && 0x80 <= c < 0xC0
    requires n == ((a as int - 0xE0) * 0x40 + b - 0x80) * 0x40 + c - 0x80
    requires 0x800 <= n < 0x1_0000 && !(0xD800 <= n < 0xE000)
    ensures FirstChar([a, b, c] + rest) == Some((n as char, 3))
  {
    BitsUnrolled(a as int - 0xE0, b, c, c);
  }

  lemma FourRead(a: byte, b: byte, c: byte, d: byte, rest: bytes, n: int)
    requires 0xF0 <= a < 0xF5 && 0x80 <= b < 0xC0 && 0x80 <= c < 0xC0 && 0x80 <= d < 0xC0
    requires n == (((a as int - 0xF0) * 0x40 + b - 0x80) * 0x40 + c - 0x80) * 0x40 + d - 0x80
    requires 0x1_0000 <= n < 0x11_0000
    ensures FirstChar([a, b, c, d] + rest) == Some((n as char, 4))
  {
    BitsUnrolled(a as int - 0xF0, b, c, d);
  }

  /** A character is read back from its octets, whatever follows. */
  lemma CharRead(c: char, rest: bytes)
    ensures FirstChar(EncodeChar(c) + rest) == Some((c, |EncodeChar(c)|))
    ensures (EncodeChar(c) + rest)[|EncodeChar(c)|..] == rest
  {
    var n, b := c as int, EncodeChar(c);
    if 0x80 <= n < 0x800 {
      CharTwo(n);
      TwoRead(b[0], b[1], rest);
    } else if 0x800 <= n < 0x1_0000 {
      CharThree(n);
      ThreeRead(b[0], b[1], b[2], rest, n);
    } else if n >= 0x1_0000 {
      CharFour(n);
      FourRead(b[0], b[1], b[2], b[3], rest, n);
    }
  }

  lemma {:induction false} TextRead(s: string)
    ensures Utf8(EncodeText(s)) == Some(s)
  {
    if s != "" {
      TextRead(s[1..]);
      CharRead(s[0], EncodeText(s[1..]));
      assert [s[0]] + s[1..] == s;
    }
  }

  lemma TwoUnique(a: byte, b: byte)
    requires 0xC2 <= a < 0xE0 && 0x80 <= b < 0xC0
    ensures EncodeChar(((a as int - 0xC0) * 0x40 + b - 0x80) as char) == [a, b]
  {}

  lemma ThreeUnique(a: byte, b: byte, c: byte, n: int)
    requires 0xE0 <= a < 0xF0 && 0x80 <= b < 0xC0 && 0x80 <= c < 0xC0
    requires n == ((a as int - 0xE0) * 0x40 + b - 0x80) * 0x40 + c - 0x80 >= 0x800 && !(0xD800 <= n < 0xE000)
    ensures EncodeChar(n as char) == [a, b, c]
  {
    assert n / 0x40 == (a as int - 0xE0) * 0x40 + b - 0x80;
  }

  lemma FourUnique(a: byte, b: byte, c: byte, d: byte, n: int)
    requires 0xF0 <= a < 0xF5 && 0x80 <= b < 0xC0 && 0x80 <= c < 0xC0 && 0x80 <= d < 0xC0
    requires n == (((a as int - 0xF0) * 0x40 + b - 0x80) * 0x40 + c - 0x80) * 0x40 + d - 0x80
    requires 0x1_0000 <= n < 0x11_0000
    ensures EncodeChar(n as char) == [a, b, c, d]
  {
    assert n / 0x40 == ((a as int - 0xF0) * 0x40 + b - 0x80) * 0x40 + c - 0x80;
    assert n / 0x1000 == (a as int - 0xF0) * 0x40 + b - 0x80;
  }

  lemma CharOfTwo(b: bytes, c: char)
    requires b != [] && FirstChar(b) == Some((c, 2))
    ensures EncodeChar(c) == b[..2]
  {
    BitsUnrolled(b[0] as int - 0xC0, b[1], b[1], b[1]);
    TwoUnique(b[0], b[1]);
    assert b[..2] == [b[0], b[1]];
  }

  lemma CharOfThree(b: bytes, c: char)
    requires b != [] && FirstChar(b) == Some((c, 3))
    ensures EncodeChar(c) == b[..3]
  {
    BitsUnrolled(b[0] as int - 0xE0, b[1], b[2], b[2]);
    ThreeUnique(b[0], b[1], b[2], c as int);
    assert b[..3] == [b[0], b[1], b[2]];
  }

  lemma CharOfFour(b: bytes, c: char)
    requires b != [] && FirstChar(b) == Some((c, 4))
    ensures EncodeChar(c) == b[..4]
  {
    BitsUnrolled(b[0] as int - 0xF0, b[1], b[2], b[3]);
    FourUnique(b[0], b[1], b[2], b[3], c as int);
    assert b[..4] == [b[0], b[1], b[2], b[3]];
  }

  lemma SizeOfChar(b: bytes)
    requires b != [] && FirstChar(b).Some?
    ensures 1 <= FirstChar(b).value.1 <= 4 && (FirstChar(b).value.1 == 1 ==> EncodeChar(FirstChar(b).value.0) == [b[0]])
  {}

  /** The octets that one character was read from are that character's. */
  lemma CharUnique(b: bytes)
    requires b != [] && FirstChar(b).Some?
    ensures var (c, n) := FirstChar(b).value; EncodeChar(c) == b[..n]
  {
    var (c, n) := FirstChar(b).value;
    SizeOfChar(b);
    if n == 2 {
      CharOfTwo(b, c);
    } else if n == 3 {
      CharOfThree(b, c);
    } else if n == 4 {
      CharOfFour(b, c);
    } else {
      assert b[..1] == [b[0]];
    }
  }

  lemma {:induction false} DecodedFrom(b: bytes)
    requires Utf8(b).Some?
    ensures EncodeText(Utf8(b).value) == b
  {
    if b != [] {
      var n := FirstChar(b).value.1;
      CharUnique(b);
      DecodedFrom(b[n..]);
      assert Utf8(b).value[1..] == Utf8(b[n..]).value;
      assert b == b[..n] + b[n..];
    }
  }

  /** Octets decode to a text exactly if they are its octets: the decoder accepts nothing else. */
  lemma {:induction false} Utf8Exactly(b: bytes, s: string)
    ensures Utf8(b) == Some(s) <==> b == EncodeText(s)
  {
    TextRead(s);
    if Utf8(b).Some? { DecodedFrom(b); }
  }

  /** Any decoder that decodes what is valid and marks what is not. */
  ghost predicate Replacing(lossy: bytes -> string) {
    forall b: bytes :: if Utf8(b).Some? then lossy(b) == Utf8(b).value else '\U{FFFD}' in lossy(b)
  }

  lemma {:induction false} AsciiDecodes(s: AsciiText)
    ensures Utf8(Octets(s)) == Some(s)
  {
    if s != "" {
      AsciiDecodes(s[1..]);
      assert Octets(s)[1..] == Octets(s[1..]);
      assert [s[0]] + s[1..] == s;
    }
  }

  lemma {:induction false} AsciiUnique(b: bytes, s: AsciiText)
    requires Utf8(b) == Some(s)
    ensures b == Octets(s)
  {
    if b != [] {
      var (c, n) := FirstChar(b).value;
      assert s[0] == c && s[1..] == Utf8(b[n..]).value;
      AsciiUnique(b[n..], s[1..]);
      assert b[0] < 0x80;
    }
  }

  // ----- percent decoding -----

  /** Both sides first turn plus signs into blanks. */
  function Blanks(s: AsciiText): (r: AsciiText)
    ensures |r| == |s|
  {
    seq(|s|, i requires 0 <= i < |s| => if s[i] == '+' then ' ' else s[i])
  }

  predicate EscapeFirst(s: string) {
    |s| >= 3 && s[0] == '%' && Nibble(s[1]).Some? && Nibble(s[2]).Some?
  }

  function EscapeValue(s: string): byte
    requires EscapeFirst(s)
  {
    Nibble(s[1]).value * 16 + Nibble(s[2]).value
  }

  predicate HasEscape(s: string) {
    s != "" && (EscapeFirst(s) || HasEscape(s[1..]))
  }

  /** A percent sign without two digits is an error. */
  function Strict(s: AsciiText): Option<bytes>
  {
    if s == "" then Some([])
    else if EscapeFirst(s) then OnFront(EscapeValue(s), Strict(s[3..]))
    else if s[0] == '%' then None
    else OnFront(s[0] as int, Strict(s[1..]))
  }

  function OnFront(b: byte, rest: Option<bytes>): Option<bytes> {
    match rest
    case None => None
    case Some(bs) => Some([b] + bs)
  }

  /** A percent sign without two digits stands for itself. */
  function Lenient(s: AsciiText): (b: bytes)
    ensures |b| <= |s|
  {
    if s == "" then []
    else if EscapeFirst(s) then [EscapeValue(s)] + Lenient(s[3..])
    else [s[0] as int] + Lenient(s[1..])
  }

  /** `decodeURIComponent` does not throw. */
  function Component(s: AsciiText): Option<string>
  {
    match Strict(s)
    case None => None
    case Some(b) => Utf8(b)
  }

  /** `decodeUriComponentFast` */
  function JsDecode(s: AsciiText): string
  {
    match Component(Blanks(s))
    case None => Blanks(s)
    case Some(t) => t
  }

  function NativeDecode(s: AsciiText, lossy: bytes -> string): string
  {
    lossy(Lenient(Blanks(s)))
  }

  /** What stands at `i` is no percent sign, or one followed by two hexadecimal digits. */
  predicate GoodAt(s: string, i: nat)
    requires i < |s|
  {
    s[i] == '%' ==> i + 2 < |s| && Nibble(s[i + 1]).Some? && Nibble(s[i + 2]).Some?
  }

  lemma {:induction false} GoodBehind(s: string, skip: nat, i: nat)
    requires skip <= i < |s|
    ensures GoodAt(s, i) == GoodAt(s[skip..], i - skip)
  {}

  /** Decoding is refused exactly if some percent sign is not followed by two hexadecimal digits. */
  lemma {:induction false} StrictExactly(s: AsciiText)
    ensures Strict(s).Some? <==> forall i | 0 <= i < |s| :: GoodAt(s, i)
  {
    if s != "" {
      var skip := if EscapeFirst(s) then 3 else 1;
      StrictExactly(s[skip..]);
      forall i | skip <= i < |s| ensures GoodAt(s, i) == GoodAt(s[skip..], i - skip) { GoodBehind(s, skip, i); }
      StrictStep(s, skip);
    }
  }

  lemma {:induction false} StrictStep(s: AsciiText, skip: nat)
    requires s != "" && skip == (if EscapeFirst(s) then 3 else 1)
    requires forall i | skip <= i < |s| :: GoodAt(s, i) == GoodAt(s[skip..], i - skip)
    requires Strict(s[skip..]).Some? <==> forall i | 0 <= i < |s[skip..]| :: GoodAt(s[skip..], i)
    ensures Strict(s).Some? <==> forall i | 0 <= i < |s| :: GoodAt(s, i)
  {
    if forall i | 0 <= i < |s| :: GoodAt(s, i) {
      assert GoodAt(s, 0);
      forall i | 0 <= i < |s[skip..]| ensures GoodAt(s[skip..], i) { assert GoodAt(s, i + skip); }
    }
    if Strict(s).Some? {
      forall i | 0 <= i < |s| ensures GoodAt(s, i) {
        if i >= skip { assert GoodAt(s[skip..], i - skip); }
      }
    }
  }

  lemma {:induction false} StrictIsLenient(s: AsciiText)
    requires Strict(s).Some?
    ensures Strict(s).value == Lenient(s)
  {
    if EscapeFirst(s) { StrictIsLenient(s[3..]); } else if s != "" { StrictIsLenient(s[1..]); }
  }

  lemma {:induction false} LenientShort(s: AsciiText)
    ensures if HasEscape(s) then |Lenient(s)| < |s| else Lenient(s) == Octets(s)
  {
    if s != "" && !EscapeFirst(s) { LenientShort(s[1..]); }
  }

  /** The two sides decode a text alike exactly if JavaScript accepts it or there is nothing to decode in it. */
  predicate Alike(s: AsciiText)
  {
    Component(Blanks(s)).Some? || !HasEscape(Blanks(s))
  }

  lemma DecodeExactly(s: AsciiText, lossy: bytes -> string)
    requires Replacing(lossy)
    ensures NativeDecode(s, lossy) == JsDecode(s) <==> Alike(s)
  {
    var t := Blanks(s);
    LenientShort(t);
    AsciiDecodes(t);
    if Component(t).Some? {
      StrictIsLenient(t);
    } else if HasEscape(t) && Utf8(Lenient(t)) == Some(t) {
      AsciiUnique(Lenient(t), t);
    }
  }

  // ----- splitting -----

  /** The text before the first `c`, and the text behind it if there is one. */
  function Cut(s: AsciiText, c: char): (r: (AsciiText, Option<AsciiText>))
    ensures |r.0| <= |s| && (r.1.Some? ==> |r.1.value| < |s|)
  {
    if s == "" then ("", None)
    else if s[0] == c then ("", Some(s[1..]))
    else
      var (front, behind) := Cut(s[1..], c);
      ([s[0]] + front, behind)
  }

  datatype RawPair = RawPair(key: AsciiText, value: AsciiText)

  /** Cut at the first equals sign; without one the value is empty. */
  function PairOf(text: AsciiText): RawPair {
    var (key, value) := Cut(text, '=');
    RawPair(key, if value.Some? then value.value else "")
  }

  /** The pairs of a query as they stand: separated by ampersands, empty ones skipped. */
  function RawPairs(query: AsciiText): seq<RawPair>
    decreases |query|
  {
    var (first, rest) := Cut(query, '&');
    PairIn(first) + if rest.None? then [] else RawPairs(rest.value)
  }

  function PairIn(text: AsciiText): seq<RawPair> {
    if text == "" then [] else [PairOf(text)]
  }

  function QueryOf(url: AsciiText): AsciiText {
    var query := Cut(url, '?').1;
    if query.Some? then query.value else ""
  }

  function JsPair(raw: RawPair): Pair {
    Pair(JsDecode(raw.key), JsDecode(raw.value))
  }

  function JsPairs(raw: seq<RawPair>): (r: seq<Pair>)
    ensures |r| == |raw| && forall i | 0 <= i < |raw| :: r[i] == JsPair(raw[i])
  {
    if raw == [] then [] else [JsPair(raw[0])] + JsPairs(raw[1..])
  }

  /** What the handler's request object is filled from. */
  function JsEntries(url: AsciiText): seq<Pair> {
    JsPairs(RawPairs(QueryOf(url)))
  }

  /** What the templates are resolved from. */
  function NativeEntries(url: AsciiText, lossy: bytes -> string): seq<Pair> {
    var raw := RawPairs(QueryOf(url));
    seq(|raw|, i requires 0 <= i < |raw| => Pair(NativeDecode(raw[i].key, lossy), NativeDecode(raw[i].value, lossy)))
  }

  predicate PairsAlike(raw: seq<RawPair>) {
    forall i | 0 <= i < |raw| :: Alike(raw[i].key) && Alike(raw[i].value)
  }

  predicate AllAlike(url: AsciiText) {
    PairsAlike(RawPairs(QueryOf(url)))
  }

  /** Both sides see the same query entries exactly if every key and value is decoded alike. */
  lemma EntriesExactly(url: AsciiText, lossy: bytes -> string)
    requires Replacing(lossy)
    ensures NativeEntries(url, lossy) == JsEntries(url) <==> AllAlike(url)
  {
    var raw, a, b := RawPairs(QueryOf(url)), NativeEntries(url, lossy), JsEntries(url);
    forall i | 0 <= i < |raw| ensures a[i] == b[i] <==> Alike(raw[i].key) && Alike(raw[i].value) {
      DecodeExactly(raw[i].key, lossy);
      DecodeExactly(raw[i].value, lossy);
    }
    if a == b {
      forall i | 0 <= i < |raw| ensures Alike(raw[i].key) && Alike(raw[i].value) { assert a[i] == b[i]; }
    }
  }

  // ----- any query -----

  /** Ampersands separate: the pairs of two queries, one behind the other. */
  lemma {:induction false} PairsConcat(a: AsciiText, b: AsciiText)
    ensures RawPairs(a + ['&'] + b) == RawPairs(a) + RawPairs(b)
    decreases |a|
  {
    var (first, rest) := Cut(a, '&');
    if rest.Some? { PairsConcat(rest.value, b); }
    PairsConcatStep(a, b, a + ['&'] + b, first, rest);
  }

  lemma {:induction false} PairsConcatStep(a: AsciiText, b: AsciiText, both: AsciiText, first: AsciiText,
                                           rest: Option<AsciiText>)
    requires both == a + ['&'] + b && Cut(a, '&') == (first, rest)
    requires rest.Some? ==> RawPairs(rest.value + ['&'] + b) == RawPairs(rest.value) + RawPairs(b)
    ensures RawPairs(both) == RawPairs(a) + RawPairs(b)
  {
    CutBefore(a, '&', b);
    PairsFrom(a, first, rest);
    if rest.Some? {
      PairsFrom(both, first, Some(rest.value + ['&'] + b));
      Associate(PairIn(first), RawPairs(rest.value), RawPairs(b));
    } else {
      PairsFrom(both, first, Some(b));
    }
  }

  lemma Associate<T>(a: seq<T>, b: seq<T>, c: seq<T>)
    ensures a + (b + c) == (a + b) + c
  {}

  lemma {:induction false} PairsFrom(query: AsciiText, first: AsciiText, rest: Option<AsciiText>)
    requires Cut(query, '&') == (first, rest)
    ensures RawPairs(query) == PairIn(first) + if rest.None? then [] else RawPairs(rest.value)
    ensures rest.None? ==> RawPairs(query) == PairIn(first)
  {}

  /** A cut in front is not moved by what follows behind another separator. */
  lemma {:induction false} CutBefore(a: AsciiText, c: char, b: AsciiText)
    requires c < '\U{80}'
    ensures var (first, rest) := Cut(a, c);
            Cut(a + [c] + b, c) == (first, Some(if rest.Some? then rest.value + [c] + b else b))
  {
    if a != "" {
      assert (a + [c] + b)[1..] == a[1..] + [c] + b;
      if a[0] != c { CutBefore(a[1..], c, b); }
    } else {
      assert (a + [c] + b)[1..] == b;
    }
  }

  /** One text between separators: nothing, a key alone, or a key and a value. */
  lemma {:induction false} OnePair(key: AsciiText, value: AsciiText)
    requires '&' !in key && '=' !in key && '&' !in value
    ensures RawPairs("") == []
    ensures key != "" ==> RawPairs(key) == [RawPair(key, "")]
    ensures RawPairs(key + ['='] + value) == [RawPair(key, value)]
  {
    CutWord(key, '&', "");
    CutWord(key, '=', value);
    CutWord(key + ['='] + value, '&', "");
  }

  /** Without a percent sign only plus signs change, into blanks. */
  lemma PlainDecoded(s: AsciiText)
    requires '%' !in s
    ensures |JsDecode(s)| == |s| && forall i | 0 <= i < |s| :: JsDecode(s)[i] == if s[i] == '+' then ' ' else s[i]
  {
    var t := Blanks(s);
    assert forall i | 0 <= i < |t| :: t[i] != '%' by {
      assert forall i | 0 <= i < |s| :: s[i] != '%';
    }
    PlainStrict(t);
    AsciiDecodes(t);
  }

  lemma {:induction false} PlainStrict(s: AsciiText)
    requires forall i | 0 <= i < |s| :: s[i] != '%'
    ensures Strict(s) == Some(Octets(s))
  {
    if s != "" { PlainStrict(s[1..]); }
  }

  // ----- printing -----

  /** Letters and digits. */
  predicate Safe(b: byte) {
    48 <= b <= 57 || 65 <= b <= 90 || 97 <= b <= 122
  }

  function EscapeOctet(b: byte): AsciiText {
    if Safe(b) then [b as char] else ['%', HexDigit(b / 16), HexDigit(b % 16)]
  }

  /** Percent encoding of every octet but letters and digits. */
  function EscapeOctets(b: bytes): AsciiText {
    if b == [] then "" else EscapeOctet(b[0]) + EscapeOctets(b[1..])
  }

  function EncodeComponent(s: string): AsciiText {
    EscapeOctets(EncodeText(s))
  }

  function PrintPair(p: Pair): AsciiText {
    EncodeComponent(p.key) + ['='] + EncodeComponent(p.value)
  }

  function PrintQuery(entries: seq<Pair>): AsciiText {
    if entries == [] then ""
    else if |entries| == 1 then PrintPair(entries[0])
    else PrintPair(entries[0]) + ['&'] + PrintQuery(entries[1..])
  }

  // ----- what was printed is read back -----

  lemma NibbleOfDigit(n: nat)
    requires n < 16
    ensures Nibble(HexDigit(n)) == Some(n)
  {}

  lemma {:induction false} OctetRead(b: byte, rest: AsciiText)
    ensures Strict(EscapeOctet(b) + rest) == OnFront(b, Strict(rest))
  {
    var s := EscapeOctet(b) + rest;
    NibbleOfDigit(b / 16);
    NibbleOfDigit(b % 16);
    if Safe(b) { assert s[1..] == rest; } else { assert s[3..] == rest && EscapeValue(s) == b; }
  }

  lemma {:induction false} OctetsRead(b: bytes)
    ensures Strict(EscapeOctets(b)) == Some(b)
  {
    if b != [] {
      OctetsRead(b[1..]);
      OctetRead(b[0], EscapeOctets(b[1..]));
      assert [b[0]] + b[1..] == b;
    }
  }

  /** Nothing that separates, and no plus sign. */
  predicate Word(s: string) {
    forall i | 0 <= i < |s| :: s[i] != '&' && s[i] != '=' && s[i] != '?' && s[i] != '+'
  }

  lemma {:induction false} EscapesAreWords(b: bytes)
    ensures Word(EscapeOctets(b))
  {
    if b != [] { EscapesAreWords(b[1..]); }
  }

  lemma ComponentRead(s: string)
    ensures Word(EncodeComponent(s)) && JsDecode(EncodeComponent(s)) == s && Alike(EncodeComponent(s))
  {
    var t := EncodeComponent(s);
    EscapesAreWords(EncodeText(s));
    assert Blanks(t) == t;
    OctetsRead(EncodeText(s));
    TextRead(s);
  }

  lemma {:induction false} CutWord(s: AsciiText, c: char, rest: AsciiText)
    requires c !in s
    ensures Cut(s, c) == (s, None) && (c < '\U{80}' ==> Cut(s + [c] + rest, c) == (s, Some(rest)))
  {
    if s != "" {
      CutWord(s[1..], c, rest);
      assert [s[0]] + s[1..] == s;
      if c < '\U{80}' { assert (s + [c] + rest)[1..] == s[1..] + [c] + rest; }
    } else if c < '\U{80}' {
      assert (s + [c] + rest)[0] == c && (s + [c] + rest)[1..] == rest;
    }
  }

  lemma PairRead(p: Pair)
    ensures '&' !in PrintPair(p) && PrintPair(p) != ""
    ensures JsPair(PairOf(PrintPair(p))) == p && Alike(PairOf(PrintPair(p)).key) && Alike(PairOf(PrintPair(p)).value)
  {
    ComponentRead(p.key);
    ComponentRead(p.value);
    CutWord(EncodeComponent(p.key), '=', EncodeComponent(p.value));
  }

  /** The raw pairs that entries are printed as. */
  function Raws(entries: seq<Pair>): seq<RawPair> {
    if entries == [] then [] else [PairOf(PrintPair(entries[0]))] + Raws(entries[1..])
  }

  lemma {:induction false} QueryRead(entries: seq<Pair>)
    ensures RawPairs(PrintQuery(entries)) == Raws(entries)
  {
    if |entries| == 1 {
      PairRead(entries[0]);
      CutWord(PrintPair(entries[0]), '&', "");
      assert Raws(entries[1..]) == [];
    } else if |entries| > 1 {
      PairRead(entries[0]);
      CutWord(PrintPair(entries[0]), '&', PrintQuery(entries[1..]));
      QueryRead(entries[1..]);
    }
  }

  lemma {:induction false} RawsRead(entries: seq<Pair>)
    ensures JsPairs(Raws(entries)) == entries && PairsAlike(Raws(entries))
  {
    if entries != [] {
      PairRead(entries[0]);
      RawsRead(entries[1..]);
      PairsCons(PairOf(PrintPair(entries[0])), Raws(entries[1..]));
      AlikeCons(PairOf(PrintPair(entries[0])), Raws(entries[1..]));
      assert [entries[0]] + entries[1..] == entries;
    }
  }

  lemma {:induction false} PairsCons(raw: RawPair, rest: seq<RawPair>)
    ensures JsPairs([raw] + rest) == [JsPair(raw)] + JsPairs(rest)
  {
    assert ([raw] + rest)[1..] == rest;
  }

  lemma AlikeCons(raw: RawPair, rest: seq<RawPair>)
    requires Alike(raw.key) && Alike(raw.value) && PairsAlike(rest)
    ensures PairsAlike([raw] + rest)
  {
    var all := [raw] + rest;
    forall i | 0 <= i < |all| ensures Alike(all[i].key) && Alike(all[i].value) {
      if i > 0 { assert all[i] == rest[i - 1]; }
    }
  }

  /** Whatever entries are printed behind a path, both sides read exactly these entries in this order. */
  lemma {:induction false} PrintedEntriesRead(path: AsciiText, entries: seq<Pair>, lossy: bytes -> string)
    requires '?' !in path && Replacing(lossy)
    ensures JsEntries(path + ['?'] + PrintQuery(entries)) == entries
    ensures NativeEntries(path + ['?'] + PrintQuery(entries), lossy) == entries
  {
    var url: AsciiText := path + ['?'] + PrintQuery(entries);
    CutWord(path, '?', PrintQuery(entries));
    QueryRead(entries);
    RawsRead(entries);
    EntriesExactly(url, lossy);
  }
}
