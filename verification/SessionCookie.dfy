/**
 Signed session cookies: lower-case hexadecimal of the id and of its keyed hash, joined by a dot.
 The keyed hash is any function with digests of 32 octets; a cookie's octets are written as characters.
 */
module SessionCookie {
  import opened Prelude
  import opened Sessions

  const SESSION_ID_HEX_LEN: nat := 32
  const HMAC_HEX_LEN: nat := 64

  type Digest = d: bytes | |d| == 32 witness seq(32, _ => 0)

  // ----- hexadecimal -----

  function HexEncode(b: bytes): string {
    if b == [] then "" else HexEncode(b[..|b| - 1]) + [HexDigit(b[|b| - 1] / 16), HexDigit(b[|b| - 1] % 16)]
  }

  /** None for an odd length or a character that is no hexadecimal digit. */
  function HexDecode(s: string): Option<bytes> {
    if s == "" then Some([])
    else if |s| == 1 then None
    else
      var n := |s| - 2;
      var front, high, low := HexDecode(s[..n]), Nibble(s[n]), Nibble(s[n + 1]);
      if front.Some? && high.Some? && low.Some? then Some(front.value + [high.value * 16 + low.value]) else None
  }

  /** Upper-case hexadecimal digits become lower case; nothing else changes. */
  function FoldDigit(c: char): char {
    if 'A' <= c <= 'F' then (c as int - 'A' as int + 'a' as int) as char else c
  }

  function Fold(s: string): (r: string)
    ensures |r| == |s|
  {
    if s == "" then "" else Fold(s[..|s| - 1]) + [FoldDigit(s[|s| - 1])]
  }

  lemma {:induction false} FoldConcat(a: string, b: string)
    ensures Fold(a + b) == Fold(a) + Fold(b)
  {
    if b == "" {
      assert a + b == a;
    } else {
      var m := |b| - 1;
      FoldConcat(a, b[..m]);
      assert (a + b)[..|a + b| - 1] == a + b[..m];
    }
  }

  lemma FoldPair(x: char, y: char)
    ensures Fold([x, y]) == [FoldDigit(x), FoldDigit(y)] && Fold([x]) == [FoldDigit(x)]
  {
    assert [x, y][..1] == [x] && [x][..0] == "";
  }

  lemma NibbleExactly(c: char, n: nat)
    requires n < 16
    ensures Nibble(c) == Some(n) <==> FoldDigit(c) == HexDigit(n)
  {}

  lemma {:induction false} HexEncodeLength(b: bytes)
    ensures |HexEncode(b)| == 2 * |b|
    ensures '.' !in HexEncode(b)
  {
    if b != [] { HexEncodeLength(b[..|b| - 1]); }
  }

  /** A text decodes to `b` exactly if it is the encoding of `b`, up to the case of its digits. */
  lemma {:induction false} HexDecodeExactly(s: string, b: bytes)
    ensures HexDecode(s) == Some(b) <==> Fold(s) == HexEncode(b)
  {
    HexEncodeLength(b);
    if |s| >= 2 && |b| >= 1 {
      var n, m := |s| - 2, |b| - 1;
      HexDecodeExactly(s[..n], b[..m]);
      NibbleExactly(s[n], b[m] / 16);
      NibbleExactly(s[n + 1], b[m] % 16);
      FoldConcat(s[..n], s[n..]);
      assert s == s[..n] + s[n..] && s[n..] == [s[n], s[n + 1]];
      FoldPair(s[n], s[n + 1]);
      LastPair(Fold(s[..n]), Fold(s[n..]), HexEncode(b[..m]), HexDigit(b[m] / 16), HexDigit(b[m] % 16));
      LastByte(s, b);
    } else {
      DecodeLength(s);
    }
  }

  lemma LastPair(a: string, tail: string, b: string, x: char, y: char)
    requires |tail| == 2
    ensures a + tail == b + [x, y] <==> a == b && tail[0] == x && tail[1] == y
  {
    if a + tail == b + [x, y] {
      assert (a + tail)[..|a|] == a && (b + [x, y])[..|b|] == b;
      assert (a + tail)[|a|] == tail[0] && (a + tail)[|a| + 1] == tail[1];
    }
  }

  lemma {:induction false} LastByte(s: string, b: bytes)
    requires |s| >= 2 && |b| >= 1
    ensures var n, m := |s| - 2, |b| - 1;
            HexDecode(s) == Some(b) <==>
              HexDecode(s[..n]) == Some(b[..m]) && Nibble(s[n]) == Some(b[m] / 16) && Nibble(s[n + 1]) == Some(b[m] % 16)
  {
    var n, m := |s| - 2, |b| - 1;
    assert b == b[..m] + [b[m]];
    if HexDecode(s).Some? {
      var r := HexDecode(s).value;
      assert r[..|r| - 1] == HexDecode(s[..n]).value;
    }
  }

  lemma {:induction false} DecodeLength(s: string)
    ensures HexDecode(s).Some? ==> |s| == 2 * |HexDecode(s).value|
  {
    if |s| >= 2 { DecodeLength(s[..|s| - 2]); }
  }

  /** Encoded octets decode to themselves. */
  lemma {:induction false} HexRoundTrip(b: bytes)
    ensures HexDecode(HexEncode(b)) == Some(b)
  {
    EncodedIsFolded(b);
    HexDecodeExactly(HexEncode(b), b);
  }

  lemma {:induction false} EncodedIsFolded(b: bytes)
    ensures Fold(HexEncode(b)) == HexEncode(b)
  {
    if b != [] {
      var m := |b| - 1;
      EncodedIsFolded(b[..m]);
      FoldConcat(HexEncode(b[..m]), [HexDigit(b[m] / 16), HexDigit(b[m] % 16)]);
      FoldPair(HexDigit(b[m] / 16), HexDigit(b[m] % 16));
    }
  }

  method EncodeHex(b: bytes) returns (s: string)
    ensures s == HexEncode(b)
  {
    s := "";
    for i := 0 to |b|
      invariant s == HexEncode(b[..i])
    {
      assert b[..i + 1][..i] == b[..i];
      s := s + [HexDigit(b[i] / 16)];
      s := s + [HexDigit(b[i] % 16)];
    }
    assert b[..|b|] == b;
  }

  method DecodeHex(s: string) returns (r: Option<bytes>)
    ensures r == HexDecode(s)
  {
    if |s| % 2 != 0 {
      DecodeLength(s);
      return None;
    }
    var b: bytes := [];
    var i := 0;
    while i < |s|
      invariant i <= |s| && i % 2 == 0 && HexDecode(s[..i]) == Some(b)
    {
      assert s[..i + 2][..i] == s[..i];
      var high, low := Nibble(s[i]), Nibble(s[i + 1]);
      if high.None? || low.None? {
        Undecodable(s, i + 2);
        return None;
      }
      b := b + [high.value * 16 + low.value];
      i := i + 2;
    }
    assert s[..|s|] == s;
    return Some(b);
  }

  lemma {:induction false} Undecodable(s: string, i: nat)
    requires i <= |s| && i % 2 == 0 && |s| % 2 == 0 && HexDecode(s[..i]).None?
    ensures HexDecode(s).None?
  {
    if i < |s| {
      assert s[..|s| - 2][..i] == s[..i];
      Undecodable(s[..|s| - 2], i);
    } else {
      assert s[..i] == s;
    }
  }

  // ----- the cookie value -----

  function BuildCookie(mac: Id -> Digest, id: Id): string {
    HexEncode(id) + "." + HexEncode(mac(id))
  }

  function FirstDot(s: string): (r: Option<nat>)
    ensures r.Some? ==> r.value < |s| && s[r.value] == '.' && forall i | 0 <= i < r.value :: s[i] != '.'
    ensures r.None? ==> '.' !in s
  {
    if s == "" then None
    else if s[0] == '.' then Some(0)
    else
      var r := FirstDot(s[1..]);
      if r.Some? then Some(r.value + 1) else None
  }

  function VerifyCookie(mac: Id -> Digest, cookie: string): Option<Id> {
    var dot := FirstDot(cookie);
    if dot.None? then None
    else
      var idHex, sigHex := cookie[..dot.value], cookie[dot.value + 1..];
      if |idHex| != SESSION_ID_HEX_LEN || |sigHex| != HMAC_HEX_LEN then None
      else
        var id, sig := HexDecode(idHex), HexDecode(sigHex);
        if id.None? || |id.value| != SESSION_ID_BYTES || sig.None? then None
        else if sig.value == mac(id.value) then Some(id.value)
        else None
  }

  /** A cookie is accepted for an id exactly if it is that id's cookie, up to the case of its digits. */
  lemma {:induction false} VerifyExactly(mac: Id -> Digest, cookie: string, id: Id)
    ensures VerifyCookie(mac, cookie) == Some(id) <==> Fold(cookie) == BuildCookie(mac, id)
  {
    HexEncodeLength(id);
    HexEncodeLength(mac(id));
    var dot := FirstDot(cookie);
    if dot.Some? {
      var idHex, sigHex := cookie[..dot.value], cookie[dot.value + 1..];
      HexDecodeExactly(idHex, id);
      HexDecodeExactly(sigHex, mac(id));
      AtDot(cookie, dot.value);
      FoldThree(idHex, sigHex);
      FoldDots(idHex);
      DotSplits(Fold(idHex), Fold(sigHex), HexEncode(id), HexEncode(mac(id)));
    } else {
      FoldDots(cookie);
      assert BuildCookie(mac, id)[32] == '.';
    }
  }

  lemma AtDot(s: string, k: nat)
    requires k < |s| && s[k] == '.'
    ensures s == s[..k] + "." + s[k + 1..]
  {}

  lemma {:induction false} FoldThree(a: string, b: string)
    ensures Fold(a + "." + b) == Fold(a) + "." + Fold(b)
  {
    FoldConcat(a + ".", b);
    FoldConcat(a, ".");
    FoldPair('.', '.');
  }

  lemma {:induction false} FoldDots(a: string)
    ensures '.' in Fold(a) <==> '.' in a
  {
    if a != "" {
      FoldDots(a[..|a| - 1]);
      assert a == a[..|a| - 1] + [a[|a| - 1]];
    }
  }

  /** The first dot decides how a text splits. */
  lemma DotSplits(a: string, b: string, c: string, d: string)
    requires '.' !in a && '.' !in c
    ensures a + "." + b == c + "." + d <==> a == c && b == d
  {
    var s, t := a + "." + b, c + "." + d;
    if s == t {
      assert s[|a|] == '.' && t[|c|] == '.';
      assert forall i | 0 <= i < |c| :: t[i] == c[i];
      assert |a| == |c|;
      assert s[..|a|] == a && t[..|c|] == c;
      assert s[|a| + 1..] == b && t[|c| + 1..] == d;
    }
  }

  lemma VerifyAcceptsOwn(mac: Id -> Digest, id: Id)
    ensures VerifyCookie(mac, BuildCookie(mac, id)) == Some(id)
  {
    EncodedIsFolded(id);
    EncodedIsFolded(mac(id));
    FoldThree(HexEncode(id), HexEncode(mac(id)));
    VerifyExactly(mac, BuildCookie(mac, id), id);
  }
}
