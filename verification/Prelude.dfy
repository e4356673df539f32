/** Types shared by the modules of the model. */
module Prelude {

  datatype Option<+T> = None | Some(value: T)

  const U16_MAX: nat := 0xFFFF
  const U32_MAX: nat := 0xFFFF_FFFF
  const U64_MAX: nat := 0xFFFF_FFFF_FFFF_FFFF

  type byte = b: int | 0 <= b < 256
  type u16 = n: int | 0 <= n <= U16_MAX
  type u32 = n: int | 0 <= n <= U32_MAX
  type u64 = n: int | 0 <= n <= U64_MAX
  type bytes = seq<byte>

  // ----- hexadecimal digits -----

  function HexDigit(n: nat): char
    requires n < 16
  {
    if n < 10 then (n + '0' as int) as char else (n - 10 + 'a' as int) as char
  }

  function Nibble(c: char): (r: Option<nat>)
    ensures r.Some? ==> r.value < 16
  {
    if '0' <= c <= '9' then Some(c as int - '0' as int)
    else if 'a' <= c <= 'f' then Some(c as int - 'a' as int + 10)
    else if 'A' <= c <= 'F' then Some(c as int - 'A' as int + 10)
    else None
  }

  /** The larger of one and `n`: limits and capacities of zero count as one. */
  function AtLeastOne(n: nat): (m: nat)
    ensures m >= 1 && m >= n && (m == 1 || m == n)
  {
    if n == 0 then 1 else n
  }

  // ----- text -----

  predicate HasBreak(s: string) {
    '\r' in s || '\n' in s
  }

  function Lower(s: string): (r: string)
    ensures |r| == |s|
  {
    seq(|s|, i requires 0 <= i < |s| => if 'A' <= s[i] <= 'Z' then (s[i] as int + 32) as char else s[i])
  }

  /** Names are the same without regard to case if they differ in the case of ASCII letters only. */
  predicate SameCaseless(s: string, t: string) {
    |s| == |t| && forall i | 0 <= i < |s| :: SameButCase(s[i], t[i])
  }

  predicate SameButCase(c: char, d: char) {
    || c == d
    || ('A' <= c <= 'Z' && d as int == c as int + 32)
    || ('A' <= d <= 'Z' && c as int == d as int + 32)
  }

  /** Lower case identifies exactly the names that are the same without regard to case, and has no capitals. */
  lemma LowerExactly(s: string, t: string)
    ensures Lower(s) == Lower(t) <==> SameCaseless(s, t)
    ensures forall i | 0 <= i < |s| :: !('A' <= Lower(s)[i] <= 'Z')
  {
    if Lower(s) == Lower(t) {
      forall i | 0 <= i < |s| ensures SameButCase(s[i], t[i]) { assert Lower(s)[i] == Lower(t)[i]; }
    }
    if SameCaseless(s, t) {
      forall i | 0 <= i < |s| ensures Lower(s)[i] == Lower(t)[i] { assert SameButCase(s[i], t[i]); }
    }
  }
}
