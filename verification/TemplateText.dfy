/**
 The text between the expressions of a template literal, as `unescape_template_literal` and as
 JavaScript read it (ECMAScript, section 12.9.6). Values are strings of UTF-16 code units.
 */
module TemplateText {
  import opened Prelude

  type units = seq<nat>

  function CodeUnits(n: nat): (u: units)
    ensures 1 <= |u| <= 2
  {
    if n < 0x1_0000 then [n] else [0xD800 + (n - 0x1_0000) / 0x400, 0xDC00 + (n - 0x1_0000) % 0x400]
  }

  function Encoded(s: string): (u: units)
    ensures |s| <= |u|
  {
    if s == "" then [] else CodeUnits(s[0] as nat) + Encoded(s[1..])
  }

  lemma {:induction false} EncodedConcat(a: string, b: string)
    ensures Encoded(a + b) == Encoded(a) + Encoded(b)
  {
    if a == "" {
      assert a + b == b;
    } else {
      assert (a + b)[1..] == a[1..] + b;
      EncodedConcat(a[1..], b);
    }
  }

  /** A code point is read back from its units, and the first unit says how many there are. */
  function PointOf(u: units): nat
    requires |u| == 1 || (|u| == 2 && u[0] >= 0xD800 && u[1] >= 0xDC00)
  {
    if |u| == 1 then u[0] else 0x1_0000 + (u[0] - 0xD800) * 0x400 + (u[1] - 0xDC00)
  }

  lemma UnitsRead(n: nat)
    requires n < 0x11_0000
    ensures var u := CodeUnits(n);
            && (|u| == 2 <==> n >= 0x1_0000) && (|u| == 2 ==> 0xD800 <= u[0] < 0xDC00 <= u[1] < 0xE000)
            && PointOf(u) == n
  {}

  /** Texts with the same units are the same text. */
  lemma {:induction false} EncodedOnce(a: string, b: string)
    requires Encoded(a) == Encoded(b)
    ensures a == b
  {
    if a != "" && b != "" {
      UnitsRead(a[0] as nat);
      UnitsRead(b[0] as nat);
      var u, v := CodeUnits(a[0] as nat), CodeUnits(b[0] as nat);
      assert Encoded(a)[0] == u[0] && Encoded(b)[0] == v[0];
      assert |u| == |v|;
      assert Encoded(a)[..|u|] == u && Encoded(b)[..|v|] == v;
      assert Encoded(a)[|u|..] == Encoded(a[1..]) && Encoded(b)[|v|..] == Encoded(b[1..]);
      EncodedOnce(a[1..], b[1..]);
      assert a == [a[0]] + a[1..] && b == [b[0]] + b[1..];
    }
  }

  // ----- the native side -----

  function NativeEscape(c: char): char {
    match c
    case 'n' => '\n'
    case 'r' => '\r'
    case 't' => '\t'
    case _ => c
  }

  function Cons(c: char, s: Option<string>): Option<string> {
    match s
    case None => None
    case Some(rest) => Some([c] + rest)
  }

  /** `unescape_template_literal`: an escape other than these three is the character itself. */
  function Native(s: string): Option<string> {
    if s == "" then Some("")
    else if s[0] != '\\' then Cons(s[0], Native(s[1..]))
    else if |s| == 1 then None
    else Cons(NativeEscape(s[1]), Native(s[2..]))
  }

  // ----- JavaScript -----

  function HexRun(s: string): (n: nat)
    ensures n <= |s| && forall i | 0 <= i < n :: Nibble(s[i]).Some?
  {
    if s != "" && Nibble(s[0]).Some? then 1 + HexRun(s[1..]) else 0
  }

  function HexValue(s: string): nat
    requires forall i | 0 <= i < |s| :: Nibble(s[i]).Some?
  {
    if s == "" then 0 else HexValue(s[..|s| - 1]) * 16 + Nibble(s[|s| - 1]).value
  }

  /** The value of `digits` hexadecimal digits at the front, and what follows them. */
  function TakeHex(s: string, digits: nat): Option<(units, string)> {
    if HexRun(s) < digits then None else Some((CodeUnits(HexValue(s[..digits])), s[digits..]))
  }

  function TakeBraced(s: string): Option<(units, string)> {
    var n := HexRun(s);
    if n == 0 || n == |s| || s[n] != '}' || HexValue(s[..n]) > 0x10_FFFF then None
    else Some((CodeUnits(HexValue(s[..n])), s[n + 1..]))
  }

  predicate Digit(c: char) {
    '0' <= c <= '9'
  }

  predicate LineEnd(c: char) {
    c == '\n' || c == '\r' || c == '\U{2028}' || c == '\U{2029}'
  }

  /** Carriage return and line feed count as one line end. */
  function AfterLineEnd(s: string): string
    requires s != ""
  {
    if s[0] == '\r' && |s| > 1 && s[1] == '\n' then s[2..] else s[1..]
  }

  function ControlEscape(c: char): Option<nat> {
    match c
    case 'n' => Some(10)
    case 't' => Some(9)
    case 'r' => Some(13)
    case 'b' => Some(8)
    case 'v' => Some(11)
    case 'f' => Some(12)
    case _ => None
  }

  /** What stands behind a backslash: its value and the rest; octal and incomplete escapes are errors. */
  function TakeEscape(s: string): Option<(units, string)>
    requires s != ""
  {
    if ControlEscape(s[0]).Some? then Some(([ControlEscape(s[0]).value], s[1..]))
    else if Digit(s[0]) then
      if s[0] != '0' || (|s| > 1 && Digit(s[1])) then None else Some(([0], s[1..]))
    else if s[0] == 'x' then TakeHex(s[1..], 2)
    else if s[0] == 'u' then if |s| > 1 && s[1] == '{' then TakeBraced(s[2..]) else TakeHex(s[1..], 4)
    else if LineEnd(s[0]) then Some(([], AfterLineEnd(s)))
    else Some((CodeUnits(s[0] as nat), s[1..]))
  }

  /** One character of the template, with line ends normalised. */
  function Take(s: string): (r: Option<(units, string)>)
    requires s != ""
    ensures r.Some? ==> |r.value.1| < |s|
  {
    if s[0] == '\\' then if |s| == 1 then None else TakeEscape(s[1..])
    else if s[0] == '\r' then Some(([10], AfterLineEnd(s)))
    else Some((CodeUnits(s[0] as nat), s[1..]))
  }

  function Cooked(s: string): Option<units>
    decreases |s|
  {
    if s == "" then Some([])
    else
      match Take(s)
      case None => None
      case Some((u, rest)) =>
        match Cooked(rest)
        case None => None
        case Some(us) => Some(u + us)
  }

  // ----- when both read the same -----

  /** The escapes that only JavaScript knows. */
  predicate OnlyJs(c: char) {
    c == 'b' || c == 'v' || c == 'f' || c == 'x' || c == 'u' || Digit(c) || LineEnd(c)
  }

  /** No carriage return, and no escape that only JavaScript knows. */
  predicate Common(s: string) {
    if s == "" then true
    else if s[0] != '\\' then s[0] != '\r' && Common(s[1..])
    else |s| > 1 && !OnlyJs(s[1]) && Common(s[2..])
  }

  /** Text without a backslash is taken as it is. */
  lemma {:induction false} NativePlain(a: string, b: string)
    requires '\\' !in a && Native(b).Some?
    ensures Native(a + b) == Some(a + Native(b).value)
  {
    if a == "" {
      assert a + b == b && a + Native(b).value == Native(b).value;
    } else {
      assert (a + b)[0] == a[0] && a[0] in a && (a + b)[1..] == a[1..] + b;
      assert '\\' !in a[1..];
      NativePlain(a[1..], b);
      assert [a[0]] + (a[1..] + Native(b).value) == a + Native(b).value;
    }
  }

  lemma {:induction false} HexPlain(s: string, n: nat)
    requires n <= HexRun(s)
    ensures '\\' !in s[..n]
  {
    assert forall i | 0 <= i < n :: s[..n][i] == s[i];
  }

  /** How the native side reads the characters that JavaScript takes as one. */
  lemma TakeRead(s: string) returns (part: string)
    requires s != "" && Take(s).Some? && Native(Take(s).value.1).Some?
    ensures var (u, rest) := Take(s).value;
            && Native(s) == Some(part + Native(rest).value)
            && |u| <= |Encoded(part)|
            && (Common(s) ==> Encoded(part) == u && Common(rest))
            && (Encoded(part) == u && Common(rest) ==> Common(s))
  {
    if s[0] == '\\' {
      part := EscapeRead(s[1..]);
      assert ['\\'] + s[1..] == s && s[1..][1..] == s[2..];
    } else if s[0] == '\r' {
      part := LineEndRead(s);
    } else {
      part := [s[0]];
      OneChar(s[0]);
    }
  }

  lemma OneChar(c: char)
    ensures Encoded([c]) == CodeUnits(c as nat)
  {
    assert [c][1..] == "";
  }

  lemma LineEndRead(s: string) returns (part: string)
    requires s != "" && s[0] == '\r' && Native(AfterLineEnd(s)).Some?
    ensures Native(s) == Some(part + Native(AfterLineEnd(s)).value)
    ensures 1 <= |Encoded(part)| && Encoded(part) != [10]
  {
    part := s[..|s| - |AfterLineEnd(s)|];
    assert s == part + AfterLineEnd(s) && '\\' !in part;
    NativePlain(part, AfterLineEnd(s));
    assert Encoded(part)[0] == 13;
  }

  /** The native side drops the backslash, JavaScript reads `skip` more characters into one value. */
  lemma LongEscapeRead(s: string, skip: nat)
    requires 0 < skip < |s| && '\\' !in s[..skip + 1] && NativeEscape(s[0]) == s[0] && Native(s[skip + 1..]).Some?
    ensures Native(['\\'] + s) == Some(s[..skip + 1] + Native(s[skip + 1..]).value)
    ensures |Encoded(s[..skip + 1])| >= skip + 1
  {
    var a, b := s[1..skip + 1], s[skip + 1..];
    assert s[1..] == a + b && (['\\'] + s)[2..] == s[1..] && (['\\'] + s)[1] == s[0];
    assert forall i | 0 <= i < |a| :: a[i] == s[..skip + 1][i + 1];
    NativePlain(a, b);
    assert [s[0]] + (a + Native(b).value) == s[..skip + 1] + Native(b).value;
  }

  lemma HexEscapeRead(s: string, digits: nat) returns (part: string)
    requires s != "" && (s[0] == 'x' || s[0] == 'u') && digits >= 2
    requires TakeHex(s[1..], digits).Some? && Native(TakeHex(s[1..], digits).value.1).Some?
    ensures Native(['\\'] + s) == Some(part + Native(TakeHex(s[1..], digits).value.1).value) && |Encoded(part)| > 2
  {
    part := s[..digits + 1];
    HexPlain(s[1..], digits);
    assert part == [s[0]] + s[1..][..digits] && s[digits + 1..] == s[1..][digits..];
    LongEscapeRead(s, digits);
  }

  lemma BracedEscapeRead(s: string) returns (part: string)
    requires |s| > 1 && s[0] == 'u' && s[1] == '{'
    requires TakeBraced(s[2..]).Some? && Native(TakeBraced(s[2..]).value.1).Some?
    ensures Native(['\\'] + s) == Some(part + Native(TakeBraced(s[2..]).value.1).value) && |Encoded(part)| > 2
  {
    var n := HexRun(s[2..]);
    part := s[..n + 3];
    HexPlain(s[2..], n);
    assert part == [s[0], s[1]] + s[2..][..n] + [s[2..][n]] && s[n + 3..] == s[2..][n + 1..];
    LongEscapeRead(s, n + 2);
  }

  lemma ShortEscapeRead(s: string) returns (part: string)
    requires s != "" && Native(s[1..]).Some?
    ensures part == [NativeEscape(s[0])] && Native(['\\'] + s) == Some(part + Native(s[1..]).value)
    ensures Encoded(part) == CodeUnits(NativeEscape(s[0]) as nat)
  {
    part := [NativeEscape(s[0])];
    OneChar(NativeEscape(s[0]));
    assert (['\\'] + s)[2..] == s[1..] && (['\\'] + s)[1] == s[0];
  }

  lemma EscapeRead(s: string) returns (part: string)
    requires s != "" && TakeEscape(s).Some? && Native(TakeEscape(s).value.1).Some?
    ensures var (u, rest) := TakeEscape(s).value;
            && Native(['\\'] + s) == Some(part + Native(rest).value)
            && |u| <= |Encoded(part)|
            && (if OnlyJs(s[0]) then Encoded(part) != u else Encoded(part) == u && rest == s[1..])
  {
    if s[0] == 'x' {
      part := HexEscapeRead(s, 2);
    } else if s[0] == 'u' && |s| > 1 && s[1] == '{' {
      part := BracedEscapeRead(s);
    } else if s[0] == 'u' {
      part := HexEscapeRead(s, 4);
    } else if s[0] == '\r' && |s| > 1 && s[1] == '\n' {
      part := s[..2];
      LongEscapeRead(s, 1);
    } else {
      part := ShortEscapeRead(s);
    }
  }

  lemma SameParts(a: units, b: units, c: units, d: units)
    requires |a| <= |c| && |b| <= |d|
    ensures a + b == c + d <==> a == c && b == d
  {
    if a + b == c + d {
      assert |a + b| == |c + d|;
      assert (a + b)[..|a|] == a && (c + d)[..|a|] == c;
      assert (a + b)[|a|..] == b && (c + d)[|a|..] == d;
    }
  }

  /** What JavaScript accepts the native side accepts, with the same value exactly for common text. */
  lemma {:induction false} UnescapeExactly(s: string)
    requires Cooked(s).Some?
    ensures Native(s).Some? && |Cooked(s).value| <= |Encoded(Native(s).value)|
    ensures Encoded(Native(s).value) == Cooked(s).value <==> Common(s)
    decreases |s|
  {
    if s != "" {
      var (u, rest) := Take(s).value;
      UnescapeExactly(rest);
      var part := TakeRead(s);
      EncodedConcat(part, Native(rest).value);
      SameParts(u, Cooked(rest).value, Encoded(part), Encoded(Native(rest).value));
    }
  }

  /** Text that ends in an escaping backslash is refused, so an escaped dollar sign never opens an expression. */
  lemma {:induction false} DanglingRefused(s: string)
    requires Native(s).Some?
    ensures Native(s + ['\\']).None?
    decreases |s|
  {
    var t := s + ['\\'];
    if s != "" && s[0] != '\\' {
      DanglingRefused(s[1..]);
      assert t[1..] == s[1..] + ['\\'];
    } else if s != "" {
      DanglingRefused(s[2..]);
      assert t[2..] == s[2..] + ['\\'];
    }
  }
}
