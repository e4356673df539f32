/**
 Handler specialisation: expressions over the request, the template sources they compile to, how the
 native side resolves and renders these, and what the handler itself would compute from the request
 objects of the JavaScript side. Percent decoding of the query has already taken place.
 */
module FastPath {
  import opened Prelude
  import opened Json

  datatype Pair = Pair(key: string, value: string)

  /** Parameters are the route's names and the captured values; header names are ASCII. */
  datatype Capture = Capture(names: seq<string>, values: seq<string>, headers: seq<Pair>, query: seq<Pair>)

  /** The router captures one value for each parameter name of the route it answers. */
  type Request = q: Capture | |q.names| == |q.values| witness Capture([], [], [], [])

  /** `req.params.k`, `req.query.k`, `req.headers.k` and `req.header("k")`. */
  datatype Expr = Param(key: string) | Query(key: string) | HeaderField(key: string) | HeaderCall(key: string)

  datatype Source = ParamSource(key: string) | QuerySource(key: string) | HeaderSource(key: string)

  /** The template keeps one kind of header access, with its name in lower case. */
  function Compile(e: Expr): Source {
    match e
    case Param(k) => ParamSource(k)
    case Query(k) => QuerySource(k)
    case HeaderField(k) => HeaderSource(Lower(k))
    case HeaderCall(k) => HeaderSource(Lower(k))
  }

  datatype Resolved = Missing | Single(value: string) | Multi(values: seq<string>)

  /** Names the JavaScript side never stores in a request object. */
  predicate Reserved(key: string) {
    match key
    case "__proto__" => true
    case "constructor" => true
    case "prototype" => true
    case "__defineGetter__" => true
    case "__defineSetter__" => true
    case "__lookupGetter__" => true
    case "__lookupSetter__" => true
    case _ => false
  }

  function FromOption(o: Option<string>): Resolved {
    match o
    case None => Missing
    case Some(v) => Single(v)
  }

  function Grouped(values: seq<string>): Resolved {
    if |values| == 0 then Missing else if |values| == 1 then Single(values[0]) else Multi(values)
  }

  // ----- the native side: first match -----

  function FirstParam(names: seq<string>, values: seq<string>, key: string): Option<string> {
    if names == [] then None
    else if names[0] == key then (if values == [] then None else Some(values[0]))
    else FirstParam(names[1..], if values == [] then [] else values[1..], key)
  }

  function FirstHeader(headers: seq<Pair>, key: string): Option<string> {
    if headers == [] then None
    else if Lower(headers[0].key) == Lower(key) then Some(headers[0].value)
    else FirstHeader(headers[1..], key)
  }

  /** The values of one key, in order. */
  function Matches(query: seq<Pair>, key: string): seq<string> {
    if query == [] then []
    else
      var last := query[|query| - 1];
      Matches(query[..|query| - 1], key) + if last.key == key then [last.value] else []
  }

  function Resolve(s: Source, q: Request): Resolved {
    match s
    case ParamSource(k) => FromOption(FirstParam(q.names, q.values, k))
    case QuerySource(k) => Grouped(Matches(q.query, k))
    case HeaderSource(k) => FromOption(FirstHeader(q.headers, k))
  }

  // ----- the JavaScript side: last assignment, no reserved names -----

  function LastParam(names: seq<string>, values: seq<string>, key: string): Option<string> {
    if names == [] || values == [] || Reserved(key) then None
    else
      var later := LastParam(names[1..], values[1..], key);
      if later.Some? then later else if names[0] == key then Some(values[0]) else None
  }

  function LastHeader(headers: seq<Pair>, key: string): Option<string> {
    if headers == [] || Reserved(key) then None
    else
      var later := LastHeader(headers[1..], key);
      if later.Some? then later else if Lower(headers[0].key) == key then Some(headers[0].value) else None
  }

  /** A second value of a key turns its entry into an array. */
  function PushQueryEntry(m: map<string, Resolved>, key: string, value: string): map<string, Resolved> {
    if key in m then
      match m[key]
      case Multi(vs) => m[key := Multi(vs + [value])]
      case Single(v) => m[key := Multi([v, value])]
      case Missing => m
    else m[key := Single(value)]
  }

  function QueryObject(query: seq<Pair>): map<string, Resolved> {
    if query == [] then map[]
    else
      var m, last := QueryObject(query[..|query| - 1]), query[|query| - 1];
      if Reserved(last.key) then m else PushQueryEntry(m, last.key, last.value)
  }

  function QueryValue(query: seq<Pair>, key: string): Resolved {
    if key in QueryObject(query) then QueryObject(query)[key] else Missing
  }

  function Eval(e: Expr, q: Request): Resolved {
    match e
    case Param(k) => FromOption(LastParam(q.names, q.values, k))
    case Query(k) => QueryValue(q.query, k)
    case HeaderField(k) => FromOption(LastHeader(q.headers, k))
    case HeaderCall(k) => FromOption(LastHeader(q.headers, Lower(k)))
  }

  // ----- when both agree on one expression -----

  /** The values captured under one name, in order. */
  function ParamValues(names: seq<string>, values: seq<string>, key: string): seq<string>
    requires |names| == |values|
  {
    if names == [] then []
    else (if names[0] == key then [values[0]] else []) + ParamValues(names[1..], values[1..], key)
  }

  /** The values sent under one header name, in order. */
  function HeaderValues(headers: seq<Pair>, key: string): seq<string> {
    if headers == [] then []
    else (if Lower(headers[0].key) == Lower(key) then [headers[0].value] else []) + HeaderValues(headers[1..], key)
  }

  function First(vs: seq<string>): Option<string> {
    if vs == [] then None else Some(vs[0])
  }

  function Last(vs: seq<string>): Option<string> {
    if vs == [] then None else Some(vs[|vs| - 1])
  }

  /** What the request holds under the name of an expression. */
  function Candidates(e: Expr, q: Request): seq<string> {
    match e
    case Param(k) => ParamValues(q.names, q.values, k)
    case Query(k) => Matches(q.query, k)
    case HeaderField(k) => HeaderValues(q.headers, k)
    case HeaderCall(k) => HeaderValues(q.headers, k)
  }

  /** The handler never sees this name: it is reserved, or a header field not spelled in lower case. */
  predicate Hidden(e: Expr) {
    match e
    case Param(k) => Reserved(k)
    case Query(k) => Reserved(k)
    case HeaderField(k) => Reserved(k) || k != Lower(k)
    case HeaderCall(k) => Reserved(Lower(k))
  }

  /** Nothing under a hidden name; otherwise, but for queries, the first and the last value are the same. */
  predicate Safe(e: Expr, q: Request) {
    if Hidden(e) then Candidates(e, q) == [] else e.Query? || First(Candidates(e, q)) == Last(Candidates(e, q))
  }

  lemma LastOfCons(front: seq<string>, rest: seq<string>)
    ensures Last(front + rest) == if rest == [] then Last(front) else Last(rest)
    ensures First(front + rest) == if front == [] then First(rest) else First(front)
  {
    assert [] + rest == rest && front + [] == front;
  }

  /** The native side takes the first value of a parameter, the handler the last one of a name it may see. */
  lemma {:induction false} ParamAgrees(names: seq<string>, values: seq<string>, key: string)
    requires |names| == |values|
    ensures FirstParam(names, values, key) == First(ParamValues(names, values, key))
    ensures LastParam(names, values, key) == if Reserved(key) then None else Last(ParamValues(names, values, key))
  {
    if names != [] {
      ParamAgrees(names[1..], values[1..], key);
      LastOfCons(if names[0] == key then [values[0]] else [], ParamValues(names[1..], values[1..], key));
    }
  }

  lemma {:induction false} LowerTwice(s: string)
    ensures Lower(Lower(s)) == Lower(s)
  {}

  /** The same for headers. */
  lemma {:induction false} HeaderAgrees(headers: seq<Pair>, key: string)
    ensures FirstHeader(headers, key) == First(HeaderValues(headers, key))
    ensures key == Lower(key) ==>
              LastHeader(headers, key) == if Reserved(key) then None else Last(HeaderValues(headers, key))
  {
    if headers != [] {
      HeaderAgrees(headers[1..], key);
      LastOfCons(if Lower(headers[0].key) == Lower(key) then [headers[0].value] else [], HeaderValues(headers[1..], key));
    }
  }

  /** Headers are found by the lower case of their name. */
  lemma {:induction false} HeaderValuesLower(headers: seq<Pair>, key: string)
    ensures HeaderValues(headers, Lower(key)) == HeaderValues(headers, key)
    ensures FirstHeader(headers, Lower(key)) == FirstHeader(headers, key)
  {
    LowerTwice(key);
    if headers != [] { HeaderValuesLower(headers[1..], key); }
  }

  /** A name that is not in lower case is never found in the header object. */
  lemma {:induction false} UpperCaseMisses(headers: seq<Pair>, key: string)
    requires key != Lower(key)
    ensures LastHeader(headers, key) == None
  {
    if headers != [] {
      UpperCaseMisses(headers[1..], key);
      LowerTwice(headers[0].key);
    }
  }

  lemma {:induction false} QueryObjectIs(query: seq<Pair>, key: string)
    ensures QueryValue(query, key) == if Reserved(key) then Missing else Grouped(Matches(query, key))
    ensures key in QueryObject(query) <==> !Reserved(key) && Matches(query, key) != []
  {
    if query != [] {
      var last := query[|query| - 1];
      QueryObjectIs(query[..|query| - 1], key);
      if last.key == key && !Reserved(key) {
        PushedValue(QueryObject(query[..|query| - 1]), Matches(query[..|query| - 1], key), key, last.value);
      }
    }
  }

  /** The handler's query object holds every key that occurs but the names through which an object's prototype is reached. */
  lemma {:induction false} QueryKeysExactly(query: seq<Pair>, key: string)
    ensures key in QueryObject(query) <==>
              && (exists i | 0 <= i < |query| :: query[i].key == key)
              && key != "__proto__" && key != "constructor" && key != "prototype" && key != "__defineGetter__"
              && key != "__defineSetter__" && key != "__lookupGetter__" && key != "__lookupSetter__"
  {
    QueryObjectIs(query, key);
    MatchesOccur(query, key);
  }

  lemma {:induction false} MatchesOccur(query: seq<Pair>, key: string)
    ensures Matches(query, key) != [] <==> exists i | 0 <= i < |query| :: query[i].key == key
  {
    if query != [] {
      var n := |query| - 1;
      MatchesOccur(query[..n], key);
      if i: nat :| i < |query| && query[i].key == key {
        if i < n { assert query[..n][i].key == key; }
      }
    }
  }

  lemma PushedValue(m: map<string, Resolved>, values: seq<string>, key: string, value: string)
    requires (if key in m then m[key] else Missing) == Grouped(values) && (key in m ==> m[key] != Missing)
    ensures PushQueryEntry(m, key, value)[key] == Grouped(values + [value])
  {}

  /** What the native side and the handler compute, from the values under the name alone. */
  lemma BothSides(e: Expr, q: Request)
    ensures Resolve(Compile(e), q)
            == if e.Query? then Grouped(Candidates(e, q)) else FromOption(First(Candidates(e, q)))
    ensures Eval(e, q)
            == if Hidden(e) then Missing
               else if e.Query? then Grouped(Candidates(e, q)) else FromOption(Last(Candidates(e, q)))
  {
    match e
    case Param(k) => ParamAgrees(q.names, q.values, k);
    case Query(k) => QueryObjectIs(q.query, k);
    case HeaderCall(k) =>
      LowerTwice(k);
      HeaderAgrees(q.headers, Lower(k));
      HeaderValuesLower(q.headers, k);
    case HeaderField(k) =>
      LowerTwice(k);
      HeaderAgrees(q.headers, Lower(k));
      HeaderValuesLower(q.headers, k);
      if k != Lower(k) { UpperCaseMisses(q.headers, k); }
  }

  /** For every request the compiled source means what the expression means exactly if it is safe. */
  lemma AgreesExactly(e: Expr, q: Request)
    ensures Resolve(Compile(e), q) == Eval(e, q) <==> Safe(e, q)
  {
    BothSides(e, q);
  }

  /** An expression without a value on the native side has none for the handler. */
  lemma MissingAgrees(e: Expr, q: Request)
    ensures Resolve(Compile(e), q) == Missing <==> Candidates(e, q) == []
    ensures Resolve(Compile(e), q) == Missing ==> Eval(e, q) == Missing && Safe(e, q)
  {
    BothSides(e, q);
  }

  predicate NoRepeats(keys: seq<string>) {
    keys == [] || (keys[0] !in keys[1..] && NoRepeats(keys[1..]))
  }

  /** Distinct parameter names, which a route normally has, leave at most one value each. */
  lemma {:induction false} DistinctNames(names: seq<string>, values: seq<string>, key: string)
    requires |names| == |values| && NoRepeats(names)
    ensures |ParamValues(names, values, key)| <= if key in names then 1 else 0
  {
    if names != [] { DistinctNames(names[1..], values[1..], key); }
  }
}
