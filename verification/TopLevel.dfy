/**
 Splitting and searching JavaScript source text at top level: outside strings, braces, brackets
 and parentheses.
 */
module TopLevel {
  import opened Prelude

  datatype Scan = Scan(brace: nat, bracket: nat, paren: nat, delimiter: Option<char>, escaped: bool)

  const TOP: Scan := Scan(0, 0, 0, None, false)

  predicate Special(ch: char) {
    ch == '"' || ch == '\'' || ch == '`' || ch == '{' || ch == '}' || ch == '[' || ch == ']' || ch == '(' || ch == ')'
  }

  /** One character of the scan; none when a bracket closes that was not opened. */
  function Step(s: Scan, ch: char): Option<Scan> {
    if s.delimiter.Some? then
      if s.escaped then Some(s.(escaped := false))
      else if ch == '\\' then Some(s.(escaped := true))
      else if ch == s.delimiter.value then Some(s.(delimiter := None))
      else Some(s)
    else if ch == '"' || ch == '\'' || ch == '`' then Some(s.(delimiter := Some(ch)))
    else if ch == '{' then Some(s.(brace := s.brace + 1))
    else if ch == '}' then if s.brace == 0 then None else Some(s.(brace := s.brace - 1))
    else if ch == '[' then Some(s.(bracket := s.bracket + 1))
    else if ch == ']' then if s.bracket == 0 then None else Some(s.(bracket := s.bracket - 1))
    else if ch == '(' then Some(s.(paren := s.paren + 1))
    else if ch == ')' then if s.paren == 0 then None else Some(s.(paren := s.paren - 1))
    else Some(s)
  }

  /** The character is the separator and stands at top level. */
  predicate Cuts(s: Scan, ch: char, separator: char) {
    ch == separator && !Special(ch) && s.delimiter.None? && s.brace == 0 && s.bracket == 0 && s.paren == 0
  }

  predicate Closed(s: Scan) {
    s.delimiter.None? && s.brace == 0 && s.bracket == 0 && s.paren == 0
  }

  function Run(s: Scan, text: string): Option<Scan>
    decreases |text|
  {
    if text == "" then Some(s)
    else match Step(s, text[0])
      case None => None
      case Some(t) => Run(t, text[1..])
  }

  /** Every bracket and string opened in the text is closed in it, and none closes too early. */
  predicate Balanced(text: string) {
    match Run(TOP, text)
    case None => false
    case Some(s) => Closed(s)
  }

  /** Position `i` holds the separator at top level. */
  predicate CutAt(text: string, separator: char, i: nat)
    requires i < |text|
  {
    match Run(TOP, text[..i])
    case None => false
    case Some(s) => Cuts(s, text[i], separator)
  }

  /** `split_top_level`, resumed in state `s` after `current` since the last cut. */
  function SplitFrom(s: Scan, current: string, text: string, separator: char): Option<seq<string>>
    decreases |text|
  {
    if text == "" then if Closed(s) then Some([current]) else None
    else if Cuts(s, text[0], separator) then
      match SplitFrom(s, "", text[1..], separator)
      case None => None
      case Some(pieces) => Some([current] + pieces)
    else match Step(s, text[0])
      case None => None
      case Some(t) => SplitFrom(t, current + [text[0]], text[1..], separator)
  }

  function Split(text: string, separator: char): Option<seq<string>> {
    SplitFrom(TOP, "", text, separator)
  }

  function Join(pieces: seq<string>, separator: char): string
    requires pieces != []
  {
    if |pieces| == 1 then pieces[0] else pieces[0] + [separator] + Join(pieces[1..], separator)
  }

  // ----- facts about the scan -----

  lemma {:induction false} RunConcat(s: Scan, a: string, b: string)
    ensures Run(s, a + b) == match Run(s, a) case None => None case Some(t) => Run(t, b)
    decreases |a|
  {
    if a == "" {
      assert a + b == b;
    } else {
      assert (a + b)[1..] == a[1..] + b;
      match Step(s, a[0])
      case None =>
      case Some(t) => RunConcat(t, a[1..], b);
    }
  }

  lemma {:induction false} RunAppend(s: Scan, a: string, ch: char)
    ensures Run(s, a + [ch]) == match Run(s, a) case None => None case Some(t) => Step(t, ch)
  {
    RunConcat(s, a, [ch]);
    match Run(s, a)
    case None =>
    case Some(t) =>
      match Step(t, ch)
      case None =>
      case Some(u) => assert Run(u, [ch][1..]) == Some(u);
  }

  /** Outside strings nothing is escaped. */
  predicate Tidy(s: Scan) {
    s.escaped ==> s.delimiter.Some?
  }

  lemma StepTidy(s: Scan, ch: char)
    requires Tidy(s)
    ensures Step(s, ch).Some? ==> Tidy(Step(s, ch).value)
    ensures Closed(s) ==> s == TOP
    ensures Cuts(s, ch, ch) ==> s == TOP && Step(s, ch) == Some(s)
  {}

  // ----- what a split means -----

  /** The piece is balanced and holds no separator at top level. */
  ghost predicate Whole(piece: string, separator: char) {
    Balanced(piece) && Uncut(piece, separator)
  }

  ghost predicate Uncut(piece: string, separator: char) {
    forall i | 0 <= i < |piece| :: !CutAt(piece, separator, i)
  }

  lemma {:induction false} UncutAppend(current: string, separator: char, ch: char)
    requires Uncut(current, separator)
    requires match Run(TOP, current) case None => true case Some(s) => !Cuts(s, ch, separator)
    ensures Uncut(current + [ch], separator)
  {
    var longer := current + [ch];
    forall i | 0 <= i < |longer| ensures !CutAt(longer, separator, i) {
      if i < |current| {
        assert longer[..i] == current[..i] && !CutAt(current, separator, i);
      } else {
        assert longer[..i] == current;
      }
    }
  }

  lemma {:induction false} JoinFront(current: string, pieces: seq<string>, separator: char)
    requires pieces != []
    ensures Join([current] + pieces, separator) == current + [separator] + Join(pieces, separator)
  {
    assert ([current] + pieces)[1..] == pieces;
  }

  /** `pieces` are whole and joined by separators they give `text`. */
  ghost predicate CutsInto(text: string, separator: char, pieces: seq<string>) {
    pieces != [] && Join(pieces, separator) == text && AllWhole(pieces, separator)
  }

  ghost predicate AllWhole(pieces: seq<string>, separator: char) {
    forall k | 0 <= k < |pieces| :: Whole(pieces[k], separator)
  }

  lemma CutsFront(current: string, rest: string, separator: char, pieces: seq<string>)
    requires Whole(current, separator) && CutsInto(rest, separator, pieces)
    ensures CutsInto(current + [separator] + rest, separator, [current] + pieces)
  {
    JoinFront(current, pieces, separator);
  }

  /** A successful split cuts the text at its top-level separators into whole pieces. */
  lemma {:induction false} SplitFromSound(s: Scan, current: string, text: string, separator: char)
    requires Run(TOP, current) == Some(s) && Tidy(s) && Uncut(current, separator)
    requires SplitFrom(s, current, text, separator).Some?
    ensures CutsInto(current + text, separator, SplitFrom(s, current, text, separator).value)
    decreases |text|
  {
    if text == "" {
      assert current + text == current;
    } else {
      StepTidy(s, text[0]);
      var rest := text[1..];
      if Cuts(s, text[0], separator) {
        SplitFromSound(TOP, "", rest, separator);
        var pieces := SplitFrom(s, "", rest, separator).value;
        assert "" + rest == rest && current + text == current + [separator] + rest;
        CutsFront(current, rest, separator, pieces);
      } else {
        RunAppend(TOP, current, text[0]);
        UncutAppend(current, separator, text[0]);
        SplitFromSound(Step(s, text[0]).value, current + [text[0]], rest, separator);
        assert current + [text[0]] + rest == current + text;
      }
    }
  }

  /** Joining the pieces restores the input; each piece is balanced and separator-free at top level. */
  lemma {:induction false} SplitSound(text: string, separator: char)
    requires Split(text, separator).Some?
    ensures var pieces := Split(text, separator).value;
            && pieces != []
            && Join(pieces, separator) == text
            && forall k | 0 <= k < |pieces| :: Whole(pieces[k], separator)
  {
    SplitFromSound(TOP, "", text, separator);
    assert "" + text == text;
  }

  /** The scan accepts exactly the balanced texts. */
  lemma {:induction false} SplitAccepts(s: Scan, current: string, text: string, separator: char)
    ensures SplitFrom(s, current, text, separator).Some? <==> Run(s, text).Some? && Closed(Run(s, text).value)
    decreases |text|
  {
    if text != "" {
      if Cuts(s, text[0], separator) {
        assert Step(s, text[0]) == Some(s);
        SplitAccepts(s, "", text[1..], separator);
      } else {
        match Step(s, text[0])
        case None =>
        case Some(t) => SplitAccepts(t, current + [text[0]], text[1..], separator);
      }
    }
  }

  lemma SplitSucceedsExactly(text: string, separator: char)
    ensures Split(text, separator).Some? <==> Balanced(text)
  {
    SplitAccepts(TOP, "", text, separator);
  }

  // ----- what balanced means -----

  /** The characters outside string literals, read from inside a literal if there is a delimiter. */
  function Outside(text: string, delimiter: Option<char>, escaped: bool): string {
    if text == "" then ""
    else
      var ch, rest := text[0], text[1..];
      if delimiter.None? then
        if ch == '"' || ch == '\'' || ch == '`' then Outside(rest, Some(ch), false) else [ch] + Outside(rest, None, false)
      else if escaped then Outside(rest, delimiter, false)
      else if ch == '\\' then Outside(rest, delimiter, true)
      else Outside(rest, if ch == delimiter.value then None else delimiter, false)
  }

  /** Every literal that is begun is ended. */
  predicate LiteralsEnd(text: string, delimiter: Option<char>, escaped: bool) {
    if text == "" then delimiter.None?
    else
      var ch, rest := text[0], text[1..];
      if delimiter.None? then
        LiteralsEnd(rest, if ch == '"' || ch == '\'' || ch == '`' then Some(ch) else None, false)
      else if escaped then LiteralsEnd(rest, delimiter, false)
      else if ch == '\\' then LiteralsEnd(rest, delimiter, true)
      else LiteralsEnd(rest, if ch == delimiter.value then None else delimiter, false)
  }

  /** From `depth` open brackets on, none closes too early and all are closed in the end. */
  predicate Nested(text: string, open: char, close: char, depth: nat) {
    if text == "" then depth == 0
    else if text[0] == open then Nested(text[1..], open, close, depth + 1)
    else if text[0] == close then depth > 0 && Nested(text[1..], open, close, depth - 1)
    else Nested(text[1..], open, close, depth)
  }

  predicate AllNested(text: string, s: Scan) {
    Nested(text, '{', '}', s.brace) && Nested(text, '[', ']', s.bracket) && Nested(text, '(', ')', s.paren)
  }

  lemma NestedStep(ch: char, rest: string, s: Scan)
    requires s.delimiter.None? && ch != '"' && ch != '\'' && ch != '`'
    ensures AllNested([ch] + rest, s) <==> Step(s, ch).Some? && AllNested(rest, Step(s, ch).value)
    ensures Step(s, ch).Some? ==> Step(s, ch).value.delimiter.None? && Step(s, ch).value.escaped == s.escaped
  {
    assert ([ch] + rest)[1..] == rest;
  }

  lemma {:induction false} ScanExactly(s: Scan, text: string)
    requires Tidy(s)
    ensures Run(s, text).Some? && Closed(Run(s, text).value)
            <==> LiteralsEnd(text, s.delimiter, s.escaped) && AllNested(Outside(text, s.delimiter, s.escaped), s)
    decreases |text|
  {
    if text != "" {
      var ch, rest := text[0], text[1..];
      StepTidy(s, ch);
      if s.delimiter.None? && ch != '"' && ch != '\'' && ch != '`' {
        NestedStep(ch, Outside(rest, None, false), s);
        if Step(s, ch).Some? { ScanExactly(Step(s, ch).value, rest); }
      } else {
        ScanExactly(Step(s, ch).value, rest);
      }
    }
  }

  /** A text is balanced exactly if its literals end and, outside them, brackets of each kind are nested. */
  lemma {:induction false} BalancedExactly(text: string)
    ensures Balanced(text) <==>
              && LiteralsEnd(text, None, false)
              && var outside := Outside(text, None, false);
                 Nested(outside, '{', '}', 0) && Nested(outside, '[', ']', 0) && Nested(outside, '(', ')', 0)
  {
    ScanExactly(TOP, text);
  }

  /** Scanning through a whole piece collects it. */
  lemma {:induction false} SplitThrough(s: Scan, current: string, piece: string, tail: string, separator: char)
    requires Run(TOP, current) == Some(s) && Uncut(current + piece, separator) && Run(s, piece).Some?
    ensures SplitFrom(s, current, piece + tail, separator)
            == SplitFrom(Run(s, piece).value, current + piece, tail, separator)
    decreases |piece|
  {
    if piece == "" {
      assert piece + tail == tail && current + piece == current;
    } else {
      var ch, rest := piece[0], piece[1..];
      assert (piece + tail)[1..] == rest + tail;
      assert (current + piece)[..|current|] == current && (current + piece)[|current|] == ch;
      assert !CutAt(current + piece, separator, |current|);
      RunAppend(TOP, current, ch);
      assert current + [ch] + rest == current + piece;
      SplitThrough(Step(s, ch).value, current + [ch], rest, tail, separator);
    }
  }

  /** Splitting inverts joining, for any list of whole pieces and any separator that can cut. */
  lemma {:induction false} SplitOfJoin(pieces: seq<string>, separator: char)
    requires pieces != [] && !Special(separator)
    requires forall k | 0 <= k < |pieces| :: Whole(pieces[k], separator)
    ensures Split(Join(pieces, separator), separator) == Some(pieces)
  {
    var piece := pieces[0];
    assert Whole(piece, separator);
    var tail := if |pieces| == 1 then "" else [separator] + Join(pieces[1..], separator);
    assert Join(pieces, separator) == piece + tail;
    assert "" + piece == piece;
    SplitThrough(TOP, "", piece, tail, separator);
    var s := Run(TOP, piece).value;
    RunTidy(TOP, piece);
    StepTidy(s, separator);
    if |pieces| == 1 {
      assert pieces == [piece];
    } else {
      assert tail[1..] == Join(pieces[1..], separator);
      SplitOfJoin(pieces[1..], separator);
      assert pieces == [piece] + pieces[1..];
    }
  }

  lemma {:induction false} RunTidy(s: Scan, text: string)
    requires Tidy(s)
    ensures Run(s, text).Some? ==> Tidy(Run(s, text).value)
    decreases |text|
  {
    if text != "" {
      StepTidy(s, text[0]);
      match Step(s, text[0])
      case None =>
      case Some(t) => RunTidy(t, text[1..]);
    }
  }

  // ----- the program's loops -----

  /** `whole` is `rest` with `values` in front. */
  predicate Extends(whole: Option<seq<string>>, values: seq<string>, rest: Option<seq<string>>) {
    && (whole.Some? <==> rest.Some?)
    && (whole.Some? ==> whole.value == values + rest.value)
  }

  method SplitTopLevel(text: string, separator: char) returns (r: Option<seq<string>>)
    ensures r == Split(text, separator)
  {
    var values, start, s := [], 0, TOP;
    assert text[0..0] == "" && text[0..] == text;
    for index := 0 to |text|
      invariant 0 <= start <= index
      invariant Extends(Split(text, separator), values, SplitFrom(s, text[start..index], text[index..], separator))
    {
      var ch := text[index];
      assert text[index..][1..] == text[index + 1..];
      assert text[start..index] + [ch] == text[start..index + 1];
      if Cuts(s, ch, separator) {
        values := values + [text[start..index]];
        start := index + 1;
        assert text[start..index + 1] == "";
      } else {
        var next := Step(s, ch);
        if next.None? { return None; }
        s := next.value;
      }
    }
    assert text[|text|..] == "" && text[start..|text|] == text[start..];
    if !Closed(s) { return None; }
    return Some(values + [text[start..]]);
  }

  /** The first top-level occurrence of the target, if the scan gets there. */
  method FindTopLevel(text: string, target: char) returns (r: Option<nat>)
    ensures r.Some? ==> r.value < |text| && CutAt(text, target, r.value)
    ensures forall i | 0 <= i < |text| && (r.Some? ==> i < r.value) :: !CutAt(text, target, i)
  {
    var s := TOP;
    for index := 0 to |text|
      invariant Run(TOP, text[..index]) == Some(s)
      invariant forall i | 0 <= i < index :: !CutAt(text, target, i)
    {
      if Cuts(s, text[index], target) { return Some(index); }
      assert text[..index + 1] == text[..index] + [text[index]];
      RunAppend(TOP, text[..index], text[index]);
      var next := Step(s, text[index]);
      if next.None? {
        ScanStops(text, index + 1);
        return None;
      }
      s := next.value;
    }
    return None;
  }

  lemma ScanStops(text: string, k: nat)
    requires k <= |text| && Run(TOP, text[..k]) == None
    ensures forall i | k <= i <= |text| :: Run(TOP, text[..i]) == None
  {
    forall i | k <= i <= |text| ensures Run(TOP, text[..i]) == None {
      assert text[..i] == text[..k] + text[k..i];
      RunConcat(TOP, text[..k], text[k..i]);
    }
  }
}
