/**
 Rendering of the fast-path templates: query grouping, JSON objects with missing fields dropped, and
 text, against what the handler would have sent.
 */
module Rendering {
  import opened Prelude
  import opened Json
  import opened FastPath

  // ----- resolved values as JSON -----

  function Texts(values: seq<string>): seq<Value> {
    if values == [] then [] else [Text(values[0])] + Texts(values[1..])
  }

  function Quoted(values: seq<string>): seq<string> {
    if values == [] then [] else [Quote(values[0], true)] + Quoted(values[1..])
  }

  function ToValue(r: Resolved): Value
    requires r != Missing
  {
    match r
    case Single(v) => Text(v)
    case Multi(vs) => List(Texts(vs))
  }

  function RenderResolved(r: Resolved): string
    requires r != Missing
  {
    match r
    case Single(v) => Quote(v, true)
    case Multi(vs) => Bracketed('[', JoinComma(Quoted(vs)), ']')
  }

  lemma {:induction false} QuotedDenote(values: seq<string>)
    ensures AllDenote(Quoted(values), Texts(values))
  {
    if values != [] {
      QuoteDenotes(values[0], true);
      QuotedDenote(values[1..]);
      assert Quoted(values)[1..] == Quoted(values[1..]) && Texts(values)[1..] == Texts(values[1..]);
    }
  }

  lemma ResolvedDenotes(r: Resolved)
    requires r != Missing
    ensures Denotes(RenderResolved(r), ToValue(r))
  {
    match r
    case Single(v) => QuoteDenotes(v, true);
    case Multi(vs) => QuotedDenote(vs); ListDenotes(Quoted(vs), Texts(vs));
  }

  // ----- the query as one object -----

  datatype Bucket = Bucket(key: string, values: seq<string>)

  function Push(buckets: seq<Bucket>, key: string, value: string): seq<Bucket> {
    if buckets == [] then [Bucket(key, [value])]
    else if buckets[0].key == key then [Bucket(key, buckets[0].values + [value])] + buckets[1..]
    else [buckets[0]] + Push(buckets[1..], key, value)
  }

  function Buckets(query: seq<Pair>): seq<Bucket> {
    if query == [] then []
    else
      var before, last := Buckets(query[..|query| - 1]), query[|query| - 1];
      if Reserved(last.key) then before else Push(before, last.key, last.value)
  }

  function ValuesOf(buckets: seq<Bucket>, key: string): seq<string> {
    if buckets == [] then [] else if buckets[0].key == key then buckets[0].values else ValuesOf(buckets[1..], key)
  }

  function Keys(buckets: seq<Bucket>): seq<string> {
    if buckets == [] then [] else [buckets[0].key] + Keys(buckets[1..])
  }

  /** One bucket per key, none of them empty. */
  predicate Neat(buckets: seq<Bucket>) {
    buckets == []
    || (buckets[0].key !in Keys(buckets[1..]) && buckets[0].values != [] && Neat(buckets[1..]))
  }

  lemma {:induction false} PushKeeps(buckets: seq<Bucket>, key: string, value: string, k: string)
    requires Neat(buckets)
    ensures Neat(Push(buckets, key, value))
    ensures ValuesOf(Push(buckets, key, value), k)
            == if k == key then ValuesOf(buckets, key) + [value] else ValuesOf(buckets, k)
    ensures Keys(Push(buckets, key, value)) == if key in Keys(buckets) then Keys(buckets) else Keys(buckets) + [key]
  {
    if |buckets| == 0 {
      assert Keys(Push(buckets, key, value)) == [key];
    } else if buckets[0].key == key {
      var head := Bucket(key, buckets[0].values + [value]);
      assert ([head] + buckets[1..])[1..] == buckets[1..];
    } else {
      var rest := Push(buckets[1..], key, value);
      PushKeeps(buckets[1..], key, value, k);
      assert ([buckets[0]] + rest)[1..] == rest;
      assert Keys(buckets)[1..] == Keys(buckets[1..]);
      if key !in Keys(buckets[1..]) {
        assert [buckets[0].key] + (Keys(buckets[1..]) + [key]) == Keys(buckets) + [key];
      }
    }
  }

  /** The keys in the order in which they first appear. */
  function FirstSeen(query: seq<Pair>): seq<string> {
    if query == [] then []
    else
      var before, key := FirstSeen(query[..|query| - 1]), query[|query| - 1].key;
      if Reserved(key) || key in before then before else before + [key]
  }

  /** Grouping keeps each key's values complete and in order, and the keys in order of appearance. */
  lemma {:induction false} BucketsComplete(query: seq<Pair>, key: string)
    ensures Neat(Buckets(query)) && Keys(Buckets(query)) == FirstSeen(query)
    ensures ValuesOf(Buckets(query), key) == if Reserved(key) then [] else Matches(query, key)
  {
    if query != [] {
      var last := query[|query| - 1];
      BucketsComplete(query[..|query| - 1], key);
      if !Reserved(last.key) { PushKeeps(Buckets(query[..|query| - 1]), last.key, last.value, key); }
    }
  }

  lemma {:induction false} KeysHaveValues(buckets: seq<Bucket>, key: string)
    requires Neat(buckets)
    ensures key in Keys(buckets) <==> ValuesOf(buckets, key) != []
  {
    if buckets != [] {
      KeysHaveValues(buckets[1..], key);
      assert Keys(buckets)[1..] == Keys(buckets[1..]);
    }
  }

  function BucketPieces(buckets: seq<Bucket>): (pieces: seq<Piece>)
    requires Neat(buckets)
    ensures |pieces| == |buckets|
  {
    if buckets == [] then []
    else
      var r := Grouped(buckets[0].values);
      [Piece(buckets[0].key, true, RenderResolved(r), ToValue(r))] + BucketPieces(buckets[1..])
  }

  lemma {:induction false} BucketPiecesDenote(buckets: seq<Bucket>)
    requires Neat(buckets)
    ensures PiecesDenote(BucketPieces(buckets))
  {
    if buckets != [] {
      ResolvedDenotes(Grouped(buckets[0].values));
      BucketPiecesDenote(buckets[1..]);
      assert BucketPieces(buckets)[1..] == BucketPieces(buckets[1..]);
    }
  }

  lemma {:induction false} BucketMeaning(buckets: seq<Bucket>, key: string)
    requires Neat(buckets)
    ensures var m := MeaningOf(MembersOf(BucketPieces(buckets)));
            && (key in m <==> key in Keys(buckets))
            && (key in m ==> ValuesOf(buckets, key) != []
                             && m[key] == Meaning(ToValue(Grouped(ValuesOf(buckets, key)))))
  {
    if buckets != [] {
      var pieces := BucketPieces(buckets);
      BucketMeaning(buckets[1..], key);
      assert pieces[1..] == BucketPieces(buckets[1..]);
      assert MembersOf(pieces)[1..] == MembersOf(pieces[1..]);
      assert Keys(buckets)[1..] == Keys(buckets[1..]);
    }
  }

  lemma {:induction false} NeatBuckets(query: seq<Pair>)
    ensures Neat(Buckets(query))
  {
    BucketsComplete(query, "");
  }

  function RenderQuery(query: seq<Pair>): string
    requires Neat(Buckets(query))
  {
    Bracketed('{', JoinComma(PieceTexts(BucketPieces(Buckets(query)))), '}')
  }

  function QueryMembers(query: seq<Pair>): Value
    requires Neat(Buckets(query))
  {
    Object(MembersOf(BucketPieces(Buckets(query))))
  }

  /** The query object as the handler sees it. */
  function QueryJs(query: seq<Pair>): JsValue {
    JsObject(map k | k in QueryObject(query) && QueryObject(query)[k] != Missing :: Meaning(ToValue(QueryObject(query)[k])))
  }

  /** The rendered query object parses to the object the handler would have sent. */
  lemma {:induction false} QueryPreserved(query: seq<Pair>)
    ensures Neat(Buckets(query)) && Denotes(RenderQuery(query), QueryMembers(query))
    ensures Meaning(QueryMembers(query)) == QueryJs(query)
  {
    NeatBuckets(query);
    BucketPiecesDenote(Buckets(query));
    ObjectDenotes(BucketPieces(Buckets(query)));
    var m, js := MeaningOf(MembersOf(BucketPieces(Buckets(query)))), QueryJs(query).members;
    forall k: string ensures (k in m <==> k in js) && (k in m ==> m[k] == js[k]) {
      BucketMeaning(Buckets(query), k);
      BucketsComplete(query, k);
      KeysHaveValues(Buckets(query), k);
      QueryObjectIs(query, k);
    }
  }

  // ----- objects -----

  /** A literal keeps the text it was compiled to and the value that text stands for. */
  datatype Field =
    | LiteralField(name: string, text: string, value: Value)
    | ValueField(name: string, e: Expr)
    | QueryField(name: string)

  ghost predicate LiteralsDenote(fields: seq<Field>) {
    fields == []
    || ((fields[0].LiteralField? ==> Denotes(fields[0].text, fields[0].value)) && LiteralsDenote(fields[1..]))
  }

  /** The rendered member of a field, if its value is not missing. */
  function PieceOf(f: Field, q: Request): (pieces: seq<Piece>)
    ensures |pieces| <= 1
  {
    match f
    case LiteralField(name, text, value) => [Piece(name, false, text, value)]
    case QueryField(name) =>
      NeatBuckets(q.query);
      [Piece(name, false, RenderQuery(q.query), QueryMembers(q.query))]
    case ValueField(name, e) =>
      var r := Resolve(Compile(e), q);
      if r == Missing then [] else [Piece(name, false, RenderResolved(r), ToValue(r))]
  }

  function Pieces(fields: seq<Field>, q: Request): seq<Piece> {
    if fields == [] then [] else PieceOf(fields[0], q) + Pieces(fields[1..], q)
  }

  function RenderObject(fields: seq<Field>, q: Request): string {
    Bracketed('{', JoinComma(PieceTexts(Pieces(fields, q))), '}')
  }

  /** The fields that have a value, in order. */
  function Present(fields: seq<Field>, q: Request): seq<Member> {
    if fields == [] then []
    else
      var rest, pieces := Present(fields[1..], q), PieceOf(fields[0], q);
      if pieces == [] then rest else [Member(fields[0].name, pieces[0].value)] + rest
  }

  lemma PieceDenotes(f: Field, q: Request)
    requires f.LiteralField? ==> Denotes(f.text, f.value)
    ensures PieceOf(f, q) != [] ==> Denotes(PieceOf(f, q)[0].text, PieceOf(f, q)[0].value)
    ensures PieceOf(f, q) != [] ==> PieceOf(f, q)[0].name == f.name
  {
    match f
    case LiteralField(name, text, value) =>
    case QueryField(name) => QueryPreserved(q.query);
    case ValueField(name, e) => if Resolve(Compile(e), q) != Missing { ResolvedDenotes(Resolve(Compile(e), q)); }
  }

  lemma {:induction false} FieldPieces(fields: seq<Field>, q: Request)
    requires LiteralsDenote(fields)
    ensures PiecesDenote(Pieces(fields, q)) && MembersOf(Pieces(fields, q)) == Present(fields, q)
  {
    if fields != [] {
      var head, rest := PieceOf(fields[0], q), Pieces(fields[1..], q);
      PieceDenotes(fields[0], q);
      FieldPieces(fields[1..], q);
      if head == [] { assert head + rest == rest; } else { assert (head + rest)[1..] == rest; }
    }
  }

  /** The rendered object parses to exactly the fields that have a value, in order. */
  lemma {:induction false} ObjectParsed(fields: seq<Field>, q: Request)
    requires LiteralsDenote(fields)
    ensures Parse(RenderObject(fields, q)) == Some(Object(Present(fields, q)))
  {
    FieldPieces(fields, q);
    ObjectDenotes(Pieces(fields, q));
    DenotesParse(RenderObject(fields, q), Object(Present(fields, q)));
  }

  // ----- what the handler sends -----

  /** A literal `__proto__` in an object expression sets no member. */
  predicate SetsPrototype(name: string) {
    match name
    case "__proto__" => true
    case _ => false
  }

  /** A member without a value is not sent, whatever an earlier member of that name held. */
  function Assign(m: map<string, JsValue>, f: Field, q: Request): map<string, JsValue> {
    if SetsPrototype(f.name) then m
    else
      match f
      case LiteralField(name, _, value) => m[name := Meaning(value)]
      case QueryField(name) => m[name := QueryJs(q.query)]
      case ValueField(name, e) => if Eval(e, q) == Missing then m - {name} else m[name := Meaning(ToValue(Eval(e, q)))]
  }

  function Evaluate(fields: seq<Field>, q: Request, sofar: map<string, JsValue>): map<string, JsValue> {
    if fields == [] then sofar else Evaluate(fields[1..], q, Assign(sofar, fields[0], q))
  }

  /** The fields of one name, in order. */
  function Named(fields: seq<Field>, name: string): seq<Field> {
    if fields == [] then []
    else (if fields[0].name == name then [fields[0]] else []) + Named(fields[1..], name)
  }

  predicate SafeField(f: Field, q: Request) {
    f.ValueField? ==> Safe(f.e, q)
  }

  /** The request holds nothing for the field. */
  predicate Absent(f: Field, q: Request) {
    f.ValueField? && Candidates(f.e, q) == []
  }

  predicate AllAbsent(fields: seq<Field>, q: Request) {
    fields == [] || (Absent(fields[|fields| - 1], q) && AllAbsent(fields[..|fields| - 1], q))
  }

  /**
   The fields of one name decide the same member on both sides: the last one is safe, and if the
   request holds nothing for it, it holds nothing for the earlier ones either. Under the name that
   sets the prototype only fields without a value agree.
   */
  predicate Settled(same: seq<Field>, name: string, q: Request) {
    if SetsPrototype(name) then AllAbsent(same, q)
    else if same == [] then true
    else
      var last := same[|same| - 1];
      SafeField(last, q) && (Absent(last, q) ==> AllAbsent(same, q))
  }

  ghost predicate AllSettled(fields: seq<Field>, q: Request) {
    forall name: string :: Settled(Named(fields, name), name, q)
  }

  /** What one field contributes on either side. */
  function Rendered(f: Field, q: Request): Option<JsValue> {
    if PieceOf(f, q) == [] then None else Some(Meaning(PieceOf(f, q)[0].value))
  }

  function Evaluated(f: Field, q: Request): Option<JsValue> {
    match f
    case LiteralField(_, _, value) => Some(Meaning(value))
    case QueryField(_) => Some(QueryJs(q.query))
    case ValueField(_, e) => if Eval(e, q) == Missing then None else Some(Meaning(ToValue(Eval(e, q))))
  }

  lemma {:induction false} TextsInjective(a: seq<string>, b: seq<string>)
    requires Meanings(Texts(a)) == Meanings(Texts(b))
    ensures a == b
  {
    TextsLength(a);
    TextsLength(b);
    if a != [] {
      assert Texts(a)[1..] == Texts(a[1..]) && Texts(b)[1..] == Texts(b[1..]);
      assert Meanings(Texts(a))[0] == JsText(a[0]) && Meanings(Texts(b))[0] == JsText(b[0]);
      assert Meanings(Texts(a))[1..] == Meanings(Texts(a[1..])) && Meanings(Texts(b))[1..] == Meanings(Texts(b[1..]));
      TextsInjective(a[1..], b[1..]);
      assert a == [a[0]] + a[1..] && b == [b[0]] + b[1..];
    }
  }

  lemma {:induction false} TextsLength(a: seq<string>)
    ensures |Meanings(Texts(a))| == |a|
  {
    if a != [] {
      TextsLength(a[1..]);
      assert Texts(a)[1..] == Texts(a[1..]);
    }
  }

  lemma ResolvedInjective(a: Resolved, b: Resolved)
    requires a != Missing && b != Missing && Meaning(ToValue(a)) == Meaning(ToValue(b))
    ensures a == b
  {
    if a.Multi? && b.Multi? { TextsInjective(a.values, b.values); }
  }

  /** One field contributes the same on both sides exactly if its expression is safe. */
  lemma FieldExactly(f: Field, q: Request)
    ensures Rendered(f, q) == Evaluated(f, q) <==> SafeField(f, q)
    ensures Rendered(f, q) == None <==> Absent(f, q)
    ensures Absent(f, q) ==> Evaluated(f, q) == None
  {
    match f
    case LiteralField(_, _, _) =>
    case QueryField(_) => QueryPreserved(q.query);
    case ValueField(_, e) =>
      var a, b := Resolve(Compile(e), q), Eval(e, q);
      AgreesExactly(e, q);
      MissingAgrees(e, q);
      if a != Missing && b != Missing && Rendered(f, q) == Evaluated(f, q) { ResolvedInjective(a, b); }
  }

  function At(m: map<string, JsValue>, name: string): Option<JsValue> {
    if name in m then Some(m[name]) else None
  }

  lemma {:induction false} PresentHead(fields: seq<Field>, q: Request, name: string)
    requires fields != []
    ensures At(MeaningOf(Present(fields, q)), name)
            == if fields[0].name == name && At(MeaningOf(Present(fields[1..], q)), name) == None then Rendered(fields[0], q)
               else At(MeaningOf(Present(fields[1..], q)), name)
  {
    var rest, pieces := Present(fields[1..], q), PieceOf(fields[0], q);
    if pieces != [] { assert ([Member(fields[0].name, pieces[0].value)] + rest)[1..] == rest; }
  }

  /** Fields of one name on the native side: the last one with a value counts. */
  function LastRendered(same: seq<Field>, q: Request): Option<JsValue> {
    if same == [] then None
    else
      var last := Rendered(same[|same| - 1], q);
      if last.Some? then last else LastRendered(same[..|same| - 1], q)
  }

  /** Fields of one name in the handler: the last one counts, with or without a value. */
  function LastEvaluated(same: seq<Field>, q: Request, otherwise: Option<JsValue>): Option<JsValue> {
    if same == [] then otherwise else Evaluated(same[|same| - 1], q)
  }

  lemma {:induction false} LastRenderedSnoc(front: seq<Field>, last: Field, q: Request)
    ensures LastRendered(front + [last], q)
            == if Rendered(last, q).Some? then Rendered(last, q) else LastRendered(front, q)
  {
    assert (front + [last])[..|front|] == front;
  }

  lemma Rotate(f: Field, front: seq<Field>, last: Field, same: seq<Field>)
    requires |same| == |front| + 1 && same[..|front|] == front && same[|front|] == last
    ensures [f] + same == [f] + front + [last] && same == front + [last]
  {}

  lemma {:induction false} LastRenderedCons(f: Field, same: seq<Field>, q: Request)
    ensures LastRendered([f] + same, q) == if LastRendered(same, q).Some? then LastRendered(same, q) else Rendered(f, q)
  {
    if |same| == 0 {
      LastRenderedSnoc([], f, q);
      assert [f] + same == [] + [f];
    } else {
      var front, last := same[..|same| - 1], same[|same| - 1];
      LastRenderedCons(f, front, q);
      LastRenderedSnoc([f] + front, last, q);
      LastRenderedSnoc(front, last, q);
      Rotate(f, front, last, same);
    }
  }

  lemma {:induction false} RenderedAt(fields: seq<Field>, q: Request, name: string)
    ensures At(MeaningOf(Present(fields, q)), name) == LastRendered(Named(fields, name), q)
  {
    if fields != [] {
      RenderedAt(fields[1..], q, name);
      PresentHead(fields, q, name);
      LastRenderedCons(fields[0], Named(fields[1..], name), q);
      assert [] + Named(fields[1..], name) == Named(fields[1..], name);
    }
  }

  lemma AssignAt(m: map<string, JsValue>, f: Field, q: Request, name: string)
    ensures At(Assign(m, f, q), name)
            == if f.name == name && !SetsPrototype(name) then Evaluated(f, q) else At(m, name)
  {}

  lemma {:induction false} EvaluatedAt(fields: seq<Field>, q: Request, sofar: map<string, JsValue>, name: string)
    ensures At(Evaluate(fields, q, sofar), name)
            == if SetsPrototype(name) then At(sofar, name) else LastEvaluated(Named(fields, name), q, At(sofar, name))
  {
    if fields != [] {
      EvaluatedAt(fields[1..], q, Assign(sofar, fields[0], q), name);
      AssignAt(sofar, fields[0], q, name);
    }
  }

  lemma {:induction false} NothingRendered(same: seq<Field>, q: Request)
    ensures LastRendered(same, q) == None <==> AllAbsent(same, q)
  {
    if same != [] {
      NothingRendered(same[..|same| - 1], q);
      FieldExactly(same[|same| - 1], q);
    }
  }

  /** Fields of one name give the same member on both sides exactly if they are settled. */
  lemma {:induction false} NameExactly(same: seq<Field>, name: string, q: Request)
    ensures LastRendered(same, q) == (if SetsPrototype(name) then None else LastEvaluated(same, q, None))
            <==> Settled(same, name, q)
  {
    NothingRendered(same, q);
    if same != [] { FieldExactly(same[|same| - 1], q); }
  }

  /**
   For every template and request the rendered body parses to the object the handler would have sent
   exactly if the fields of each name are settled.
   */
  lemma {:induction false} ObjectExactly(fields: seq<Field>, q: Request)
    requires LiteralsDenote(fields)
    ensures Parse(RenderObject(fields, q)).Some?
    ensures Meaning(Parse(RenderObject(fields, q)).value) == JsObject(Evaluate(fields, q, map[]))
            <==> AllSettled(fields, q)
  {
    ObjectParsed(fields, q);
    var m, js := MeaningOf(Present(fields, q)), Evaluate(fields, q, map[]);
    forall name: string ensures At(m, name) == At(js, name) <==> Settled(Named(fields, name), name, q) {
      RenderedAt(fields, q, name);
      EvaluatedAt(fields, q, map[], name);
      NameExactly(Named(fields, name), name, q);
    }
    SameMaps(m, js);
  }

  lemma SameMaps(a: map<string, JsValue>, b: map<string, JsValue>)
    ensures (forall name: string :: At(a, name) == At(b, name)) <==> a == b
  {
    if forall name: string :: At(a, name) == At(b, name) {
      forall name: string ensures (name in a <==> name in b) && (name in a ==> a[name] == b[name]) {
        assert At(a, name) == At(b, name);
      }
    }
  }

  lemma {:induction false} NamedOnce(fields: seq<Field>, i: nat)
    requires i < |fields| && forall j | 0 <= j < |fields| && j != i :: fields[j].name != fields[i].name
    ensures Named(fields, fields[i].name) == [fields[i]]
  {
    if i > 0 {
      NamedOnce(fields[1..], i - 1);
    } else {
      NamedNever(fields[1..], fields[0].name);
    }
  }

  lemma {:induction false} NamedNever(fields: seq<Field>, name: string)
    requires forall j | 0 <= j < |fields| :: fields[j].name != name
    ensures Named(fields, name) == []
  {
    if fields != [] { NamedNever(fields[1..], name); }
  }

  lemma SettledOne(f: Field, q: Request)
    requires !SetsPrototype(f.name)
    ensures Settled([f], f.name, q) <==> SafeField(f, q)
  {
    assert [f][..0] == [] && AllAbsent([], q);
    assert AllAbsent([f], q) == Absent(f, q);
  }

  /** A field whose name stands once, other than the prototype's, is settled exactly if it is safe. */
  lemma {:induction false} SettledAlone(fields: seq<Field>, i: nat, q: Request)
    requires i < |fields| && forall j | 0 <= j < |fields| && j != i :: fields[j].name != fields[i].name
    requires !SetsPrototype(fields[i].name)
    ensures Settled(Named(fields, fields[i].name), fields[i].name, q) <==> SafeField(fields[i], q)
  {
    var f := fields[i];
    NamedOnce(fields, i);
    SettledOne(f, q);
    SameSettled(Named(fields, f.name), [f], f.name, q);
  }

  lemma SameSettled(a: seq<Field>, b: seq<Field>, name: string, q: Request)
    requires a == b
    ensures Settled(a, name, q) == Settled(b, name, q)
  {}

  // ----- where the two sides differ -----

  /** A header sent twice: the native side takes the first value, the handler the last. */
  lemma RepeatedHeaderDiffers(name: string, first: string, last: string)
    requires !Reserved(Lower(name)) && first != last
    ensures var q: Request := Capture([], [], [Pair(name, first), Pair(name, last)], []);
            Resolve(Compile(HeaderCall(name)), q) == Single(first) && Eval(HeaderCall(name), q) == Single(last)
  {
    var q: Request := Capture([], [], [Pair(name, first), Pair(name, last)], []);
    assert q.headers[1..] == [Pair(name, last)] && [Pair(name, last)][1..] == [];
    assert HeaderValues([Pair(name, last)], name) == [last];
    assert Candidates(HeaderCall(name), q) == [first, last];
    BothSides(HeaderCall(name), q);
  }

  /** A field name used twice, the second time without a value: only the native side sends a member. */
  lemma {:induction false} RepeatedFieldDiffers(name: string, text: string, value: Value, q: Request)
    requires Denotes(text, value) && !SetsPrototype(name) && q.query == []
    ensures var fields := [LiteralField(name, text, value), ValueField(name, Query(name))];
            && Present(fields, q) == [Member(name, value)]
            && name !in Evaluate(fields, q, map[])
  {
    var f, g := LiteralField(name, text, value), ValueField(name, Query(name));
    assert [f, g][1..] == [g] && [g][1..] == [];
    assert Matches(q.query, name) == [] && name !in QueryObject(q.query);
    assert Present([g], q) == [];
    assert Evaluate([g], q, Assign(map[], f, q)) == Evaluate([], q, Assign(Assign(map[], f, q), g, q));
  }

  // ----- text -----

  datatype Segment = Literal(text: string) | Dynamic(e: Expr)

  /** A missing value reads as its name, several values are joined with commas. */
  function TextOf(r: Resolved): string {
    match r
    case Missing => "undefined"
    case Single(v) => v
    case Multi(vs) => JoinComma(vs)
  }

  function RenderText(segments: seq<Segment>, q: Request): string {
    if segments == [] then ""
    else
      (match segments[0]
       case Literal(text) => text
       case Dynamic(e) => TextOf(Resolve(Compile(e), q)))
      + RenderText(segments[1..], q)
  }

  /** The template literal as the handler evaluates it. */
  function EvaluateText(segments: seq<Segment>, q: Request): string {
    if segments == [] then ""
    else
      (match segments[0]
       case Literal(text) => text
       case Dynamic(e) => TextOf(Eval(e, q)))
      + EvaluateText(segments[1..], q)
  }

  predicate SegmentsSafe(segments: seq<Segment>, q: Request) {
    segments == []
    || ((segments[0].Dynamic? ==> Safe(segments[0].e, q)) && SegmentsSafe(segments[1..], q))
  }

  /** With safe expressions the rendered text is the text the handler would have sent. */
  lemma {:induction false} TextPreserved(segments: seq<Segment>, q: Request)
    requires SegmentsSafe(segments, q)
    ensures RenderText(segments, q) == EvaluateText(segments, q)
  {
    if segments != [] {
      if segments[0].Dynamic? { AgreesExactly(segments[0].e, q); }
      TextPreserved(segments[1..], q);
    }
  }

  /** One expression reads the same if it is safe, or hidden with a native value that spells the missing one. */
  predicate ReadsSame(e: Expr, q: Request) {
    Safe(e, q) || (Hidden(e) && TextOf(Resolve(Compile(e), q)) == TextOf(Missing))
  }

  lemma ReadsExactly(e: Expr, q: Request)
    ensures TextOf(Resolve(Compile(e), q)) == TextOf(Eval(e, q)) <==> ReadsSame(e, q)
  {
    AgreesExactly(e, q);
    BothSides(e, q);
  }

  lemma {:induction false} TextConcat(a: seq<Segment>, b: seq<Segment>, q: Request)
    ensures RenderText(a + b, q) == RenderText(a, q) + RenderText(b, q)
    ensures EvaluateText(a + b, q) == EvaluateText(a, q) + EvaluateText(b, q)
  {
    if a == [] {
      assert a + b == b;
    } else {
      assert (a + b)[1..] == a[1..] + b;
      TextConcat(a[1..], b, q);
    }
  }

  lemma Around(a: string, x: string, y: string, b: string)
    ensures a + x + b == a + y + b <==> x == y
  {
    if a + x + b == a + y + b {
      assert |x| == |y|;
      assert (a + x + b)[|a|..|a| + |x|] == x && (a + y + b)[|a|..|a| + |y|] == y;
    }
  }

  /** With at most one expression that is not safe, the texts are equal exactly if that one reads the same. */
  lemma {:induction false} TextExactly(before: seq<Segment>, e: Expr, behind: seq<Segment>, q: Request)
    requires SegmentsSafe(before, q) && SegmentsSafe(behind, q)
    ensures var segments := before + [Dynamic(e)] + behind;
            RenderText(segments, q) == EvaluateText(segments, q) <==> ReadsSame(e, q)
  {
    TextPreserved(before, q);
    TextPreserved(behind, q);
    TextConcat(before + [Dynamic(e)], behind, q);
    TextConcat(before, [Dynamic(e)], q);
    assert [Dynamic(e)][1..] == [];
    assert RenderText([Dynamic(e)], q) == TextOf(Resolve(Compile(e), q)) && EvaluateText([Dynamic(e)], q) == TextOf(Eval(e, q));
    Around(RenderText(before, q), TextOf(Resolve(Compile(e), q)), TextOf(Eval(e, q)), RenderText(behind, q));
    ReadsExactly(e, q);
  }
}
