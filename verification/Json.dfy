/**
 JSON text: escaping as the renderer does it, a parser without insignificant blanks, and what it
 means for a text to denote a value wherever it stands.
 */
module Json {
  import opened Prelude

  /** Numbers, booleans and null keep their token; members stand in the order of the text. */
  datatype Value =
    | Text(s: string)
    | Scalar(token: string)
    | List(items: seq<Value>)
    | Object(members: seq<Member>)

  datatype Member = Member(name: string, value: Value)

  // ----- writing strings -----

  /** `wide` escapes the second block of control characters too. */
  predicate Control(c: char, wide: bool) {
    c < ' ' || (wide && '\U{7F}' <= c <= '\U{9F}')
  }

  function ShortEscape(c: char): Option<char> {
    if c == '"' || c == '\\' then Some(c)
    else if c == '\n' then Some('n')
    else if c == '\r' then Some('r')
    else if c == '\t' then Some('t')
    else if c == '\U{08}' then Some('b')
    else if c == '\U{0C}' then Some('f')
    else None
  }

  function EscapeChar(c: char, wide: bool): string {
    match ShortEscape(c)
    case Some(e) => ['\\', e]
    case None =>
      if Control(c, wide) then ['\\', 'u', '0', '0', HexDigit(c as int / 16), HexDigit(c as int % 16)] else [c]
  }

  function Escape(s: string, wide: bool): string {
    if s == "" then "" else EscapeChar(s[0], wide) + Escape(s[1..], wide)
  }

  function Quote(s: string, wide: bool): string {
    ['"'] + Escape(s, wide) + ['"']
  }

  // ----- reading strings -----

  function Unescape(e: char): Option<char> {
    if e == '"' || e == '\\' || e == '/' then Some(e)
    else if e == 'n' then Some('\n')
    else if e == 'r' then Some('\r')
    else if e == 't' then Some('\t')
    else if e == 'b' then Some('\U{08}')
    else if e == 'f' then Some('\U{0C}')
    else None
  }

  /** Four hexadecimal digits of a character that is no surrogate. */
  function HexChar(s: string): (r: Option<char>)
    requires |s| == 4
  {
    var a, b, c, d := Nibble(s[0]), Nibble(s[1]), Nibble(s[2]), Nibble(s[3]);
    if a.None? || b.None? || c.None? || d.None? then None
    else
      var n := a.value * 4096 + b.value * 256 + c.value * 16 + d.value;
      if 0xD800 <= n <= 0xDFFF then None else Some(n as char)
  }

  /** One character of a string, and what follows it. */
  function ReadChar(s: string): (r: Option<(char, string)>)
    requires s != ""
    ensures r.Some? ==> |r.value.1| < |s|
  {
    if s[0] == '\\' then
      if |s| >= 6 && s[1] == 'u' then
        (match HexChar(s[2..6])
         case None => None
         case Some(c) => Some((c, s[6..])))
      else if |s| >= 2 then
        (match Unescape(s[1])
         case None => None
         case Some(c) => Some((c, s[2..])))
      else None
    else if s[0] < ' ' then None
    else Some((s[0], s[1..]))
  }

  /** The characters up to the closing quote. */
  function ReadChars(s: string): (r: Option<(string, string)>)
    ensures r.Some? ==> |r.value.1| < |s|
    decreases |s|
  {
    if s == "" then None
    else if s[0] == '"' then Some(("", s[1..]))
    else
      match ReadChar(s)
      case None => None
      case Some((c, rest)) =>
        match ReadChars(rest)
        case None => None
        case Some((cs, rest)) => Some(([c] + cs, rest))
  }

  lemma CodeOfHex(n: nat)
    requires n < 160
    ensures HexChar(['0', '0', HexDigit(n / 16), HexDigit(n % 16)]) == Some(n as char)
  {}

  /** An escaped character is read back, whatever follows. */
  lemma CharRead(c: char, wide: bool, rest: string)
    ensures EscapeChar(c, wide)[0] != '"'
    ensures ReadChar(EscapeChar(c, wide) + rest) == Some((c, rest))
  {
    var e := EscapeChar(c, wide);
    var s := e + rest;
    assert s[|e|..] == rest;
    if ShortEscape(c).Some? {
      assert s[0] == '\\' && s[1] == ShortEscape(c).value;
    } else if Control(c, wide) {
      CodeOfHex(c as int);
      assert s[2..6] == ['0', '0', HexDigit(c as int / 16), HexDigit(c as int % 16)];
    }
  }

  lemma {:induction false} CharsRead(s: string, wide: bool, rest: string)
    ensures ReadChars(Escape(s, wide) + (['"'] + rest)) == Some((s, rest))
  {
    if |s| == 0 {
      assert Escape(s, wide) + (['"'] + rest) == ['"'] + rest;
    } else {
      var first, behind := EscapeChar(s[0], wide), Escape(s[1..], wide) + (['"'] + rest);
      assert Escape(s, wide) + (['"'] + rest) == first + behind;
      CharRead(s[0], wide, behind);
      CharsRead(s[1..], wide, rest);
      assert [s[0]] + s[1..] == s;
      assert (first + behind)[0] == first[0];
    }
  }

  /** Every string survives escaping, in either style, followed by unescaping. */
  lemma QuoteRead(s: string, wide: bool, rest: string)
    ensures |Quote(s, wide)| > 0 && (Quote(s, wide) + rest)[0] == '"'
    ensures ReadChars((Quote(s, wide) + rest)[1..]) == Some((s, rest))
  {
    CharsRead(s, wide, rest);
    assert (Quote(s, wide) + rest)[1..] == Escape(s, wide) + (['"'] + rest);
  }

  // ----- reading values -----

  predicate TokenChar(c: char) {
    '0' <= c <= '9' || 'a' <= c <= 'z' || c == 'E' || c == '+' || c == '-' || c == '.'
  }

  function TokenEnd(s: string): (n: nat)
    ensures n <= |s|
  {
    if s != "" && TokenChar(s[0]) then 1 + TokenEnd(s[1..]) else 0
  }

  function ReadValue(s: string): (r: Option<(Value, string)>)
    ensures r.Some? ==> |r.value.1| < |s|
    decreases |s|, 0
  {
    if s == "" then None
    else if s[0] == '"' then
      (match ReadChars(s[1..])
       case None => None
       case Some((text, rest)) => Some((Text(text), rest)))
    else if s[0] == '[' then
      if |s| > 1 && s[1] == ']' then Some((List([]), s[2..]))
      else
        (match ReadItems(s[1..])
         case None => None
         case Some((items, rest)) => Some((List(items), rest)))
    else if s[0] == '{' then
      if |s| > 1 && s[1] == '}' then Some((Object([]), s[2..]))
      else
        (match ReadMembers(s[1..])
         case None => None
         case Some((members, rest)) => Some((Object(members), rest)))
    else
      var n := TokenEnd(s);
      if n == 0 then None else Some((Scalar(s[..n]), s[n..]))
  }

  function ReadItems(s: string): (r: Option<(seq<Value>, string)>)
    ensures r.Some? ==> |r.value.1| < |s|
    decreases |s|, 1
  {
    match ReadValue(s)
    case None => None
    case Some((v, rest)) =>
      if rest == "" then None
      else if rest[0] == ']' then Some(([v], rest[1..]))
      else if rest[0] == ',' then
        (match ReadItems(rest[1..])
         case None => None
         case Some((vs, rest)) => Some(([v] + vs, rest)))
      else None
  }

  /** A member name, its colon, and what follows. */
  function ReadName(s: string): (r: Option<(string, string)>)
    ensures r.Some? ==> |r.value.1| < |s|
  {
    if s == "" || s[0] != '"' then None
    else
      match ReadChars(s[1..])
      case None => None
      case Some((name, rest)) => if rest == "" || rest[0] != ':' then None else Some((name, rest[1..]))
  }

  function ReadMembers(s: string): (r: Option<(seq<Member>, string)>)
    ensures r.Some? ==> |r.value.1| < |s|
    decreases |s|, 1
  {
    match ReadName(s)
    case None => None
    case Some((name, rest)) =>
      match ReadValue(rest)
      case None => None
      case Some((v, rest)) =>
        if rest == "" then None
        else if rest[0] == '}' then Some(([Member(name, v)], rest[1..]))
        else if rest[0] == ',' then
          (match ReadMembers(rest[1..])
           case None => None
           case Some((ms, rest)) => Some(([Member(name, v)] + ms, rest)))
        else None
  }

  /** A whole document: one value and nothing else. */
  function Parse(s: string): Option<Value> {
    match ReadValue(s)
    case None => None
    case Some((v, rest)) => if rest == "" then Some(v) else None
  }

  // ----- texts that denote values -----

  /** What may follow a value: nothing that could extend a token. */
  predicate Delimited(rest: string) {
    rest == "" || !TokenChar(rest[0])
  }

  /** `text` reads as `v` wherever it stands. */
  ghost predicate Denotes(text: string, v: Value) {
    text != "" && text[0] != ']' && forall rest: string | Delimited(rest) :: ReadValue(text + rest) == Some((v, rest))
  }

  lemma {:induction false} DenotesAt(text: string, v: Value, rest: string)
    requires Denotes(text, v) && Delimited(rest)
    ensures ReadValue(text + rest) == Some((v, rest))
  {}

  lemma DenotesParse(text: string, v: Value)
    requires Denotes(text, v)
    ensures Parse(text) == Some(v)
  {
    DenotesAt(text, v, "");
    assert text + "" == text;
  }

  /** A document with anything behind its value is no document. */
  lemma TrailingRejected(text: string, v: Value, c: char, rest: string)
    requires Denotes(text, v) && !TokenChar(c)
    ensures Parse(text + [c] + rest) == None
  {
    DenotesAt(text, v, [c] + rest);
    assert text + [c] + rest == text + ([c] + rest);
  }

  lemma QuoteDenotes(s: string, wide: bool)
    ensures Denotes(Quote(s, wide), Text(s))
  {
    forall rest: string | Delimited(rest) ensures ReadValue(Quote(s, wide) + rest) == Some((Text(s), rest)) {
      QuoteRead(s, wide, rest);
    }
  }

  function JoinComma(texts: seq<string>): string {
    if texts == [] then "" else if |texts| == 1 then texts[0] else texts[0] + ([','] + JoinComma(texts[1..]))
  }

  ghost predicate AllDenote(texts: seq<string>, vs: seq<Value>) {
    |texts| == |vs| && (texts == [] || (Denotes(texts[0], vs[0]) && AllDenote(texts[1..], vs[1..])))
  }

  function Bracketed(open: char, inner: string, close: char): string {
    [open] + inner + [close]
  }

  lemma BracketedAt(open: char, inner: string, close: char, rest: string)
    ensures Bracketed(open, inner, close) + rest == [open] + (inner + ([close] + rest))
    ensures (Bracketed(open, inner, close) + rest)[0] == open
    ensures (Bracketed(open, inner, close) + rest)[1..] == inner + ([close] + rest)
  {}

  lemma Regroup(a: string, b: string, c: string)
    ensures (a + b) + c == a + (b + c)
  {}

  lemma {:induction false} JoinStep(texts: seq<string>, rest: string)
    requires |texts| > 1
    ensures JoinComma(texts) + rest == texts[0] + ([','] + (JoinComma(texts[1..]) + rest))
  {
    Regroup(texts[0], [','] + JoinComma(texts[1..]), rest);
    Regroup([','], JoinComma(texts[1..]), rest);
  }

  lemma {:induction false} AfterValue(text: string, v: Value, c: char, rest: string)
    requires Denotes(text, v) && !TokenChar(c)
    ensures ReadValue(text + ([c] + rest)) == Some((v, [c] + rest))
  {
    DenotesAt(text, v, [c] + rest);
  }

  lemma {:induction false} ItemsRead(texts: seq<string>, vs: seq<Value>, rest: string)
    requires |texts| > 0 && AllDenote(texts, vs)
    ensures ReadItems(JoinComma(texts) + ([']'] + rest)) == Some((vs, rest))
  {
    if |texts| == 1 {
      AfterValue(texts[0], vs[0], ']', rest);
      assert [vs[0]] == vs;
    } else {
      var behind := JoinComma(texts[1..]) + ([']'] + rest);
      JoinStep(texts, [']'] + rest);
      AfterValue(texts[0], vs[0], ',', behind);
      ItemsRead(texts[1..], vs[1..], rest);
      assert ([','] + behind)[1..] == behind;
      assert [vs[0]] + vs[1..] == vs;
    }
  }

  lemma {:induction false} FirstOfJoin(texts: seq<string>, rest: string)
    requires |texts| > 0 && texts[0] != ""
    ensures JoinComma(texts) != "" && (JoinComma(texts) + rest)[0] == texts[0][0]
  {}

  /** Texts that denote values, joined in brackets, denote the list of the values. */
  lemma {:induction false} ListDenotes(texts: seq<string>, vs: seq<Value>)
    requires AllDenote(texts, vs)
    ensures Denotes(Bracketed('[', JoinComma(texts), ']'), List(vs))
  {
    forall rest: string | Delimited(rest)
      ensures ReadValue(Bracketed('[', JoinComma(texts), ']') + rest) == Some((List(vs), rest))
    {
      BracketedAt('[', JoinComma(texts), ']', rest);
      if |texts| > 0 {
        FirstOfJoin(texts, [']'] + rest);
        ItemsRead(texts, vs, rest);
      } else {
        EmptyInner('[', ']', rest);
      }
    }
  }

  lemma EmptyInner(open: char, close: char, rest: string)
    ensures var s := Bracketed(open, "", close) + rest; s[1] == close && s[2..] == rest
  {}

  /** One member: its name in quotes, and a text with the value it stands for. */
  datatype Piece = Piece(name: string, wide: bool, text: string, value: Value)

  function PieceText(p: Piece): string {
    Quote(p.name, p.wide) + ([':'] + p.text)
  }

  function PieceTexts(pieces: seq<Piece>): seq<string> {
    if pieces == [] then [] else [PieceText(pieces[0])] + PieceTexts(pieces[1..])
  }

  ghost predicate PiecesDenote(pieces: seq<Piece>) {
    pieces == [] || (Denotes(pieces[0].text, pieces[0].value) && PiecesDenote(pieces[1..]))
  }

  function MembersOf(pieces: seq<Piece>): seq<Member> {
    if pieces == [] then [] else [Member(pieces[0].name, pieces[0].value)] + MembersOf(pieces[1..])
  }

  lemma NameRead(p: Piece, rest: string)
    ensures ReadName(PieceText(p) + rest) == Some((p.name, p.text + rest))
  {
    Regroup(Quote(p.name, p.wide), [':'] + p.text, rest);
    Regroup([':'], p.text, rest);
    QuoteRead(p.name, p.wide, [':'] + (p.text + rest));
    assert ([':'] + (p.text + rest))[1..] == p.text + rest;
  }

  lemma {:induction false} PiecesRead(pieces: seq<Piece>, rest: string)
    requires |pieces| > 0 && PiecesDenote(pieces)
    ensures ReadMembers(JoinComma(PieceTexts(pieces)) + (['}'] + rest)) == Some((MembersOf(pieces), rest))
    decreases |pieces|
  {
    var p, texts := pieces[0], PieceTexts(pieces);
    if |pieces| == 1 {
      assert PieceTexts(pieces[1..]) == [] && MembersOf(pieces[1..]) == [];
      assert MembersOf(pieces) == [Member(p.name, p.value)];
      NameRead(p, ['}'] + rest);
      AfterValue(p.text, p.value, '}', rest);
      assert (['}'] + rest)[1..] == rest;
    } else {
      var behind := JoinComma(texts[1..]) + (['}'] + rest);
      assert texts[1..] == PieceTexts(pieces[1..]);
      assert |PieceTexts(pieces[1..])| > 0;
      JoinStep(texts, ['}'] + rest);
      NameRead(p, [','] + behind);
      AfterValue(p.text, p.value, ',', behind);
      PiecesRead(pieces[1..], rest);
      assert ([','] + behind)[1..] == behind;
    }
  }

  /** Members joined in braces denote the object with exactly these members in this order. */
  lemma {:induction false} ObjectDenotes(pieces: seq<Piece>)
    requires PiecesDenote(pieces)
    ensures Denotes(Bracketed('{', JoinComma(PieceTexts(pieces)), '}'), Object(MembersOf(pieces)))
  {
    var texts := PieceTexts(pieces);
    forall rest: string | Delimited(rest)
      ensures ReadValue(Bracketed('{', JoinComma(texts), '}') + rest) == Some((Object(MembersOf(pieces)), rest))
    {
      BracketedAt('{', JoinComma(texts), '}', rest);
      if |pieces| > 0 {
        FirstOfJoin(texts, ['}'] + rest);
        PiecesRead(pieces, rest);
      } else {
        EmptyInner('{', '}', rest);
      }
    }
  }

  // ----- what a program sees of a parsed text -----

  /** Objects have no order, and of equal names the last one counts. */
  datatype JsValue =
    | JsText(s: string)
    | JsScalar(token: string)
    | JsList(items: seq<JsValue>)
    | JsObject(members: map<string, JsValue>)

  function Meaning(v: Value): JsValue
    decreases v
  {
    match v
    case Text(s) => JsText(s)
    case Scalar(token) => JsScalar(token)
    case List(items) => JsList(Meanings(items))
    case Object(members) => JsObject(MeaningOf(members))
  }

  function Meanings(items: seq<Value>): seq<JsValue>
    decreases items
  {
    if items == [] then [] else [Meaning(items[0])] + Meanings(items[1..])
  }

  function MeaningOf(members: seq<Member>): map<string, JsValue>
    decreases members
  {
    if members == [] then map[]
    else map[members[0].name := Meaning(members[0].value)] + MeaningOf(members[1..])
  }
}
