/**
 Handler probing: the handler runs once on marker parameters against a mock response, and a template
 is generated from what the mock captured. A handler is any function from the parameters and the
 rest of the request to the calls it makes on the response object.
 */
module Probe {
  import opened Prelude

  const PROBE_PARAM_PREFIX: string := "__PROBE_PARAM_"
  const PROBE_PARAM_SUFFIX: string := "__"
  const JSON_TYPE: string := "application/json; charset=utf-8"
  const TEXT_TYPE: string := "text/plain; charset=utf-8"
  const HTML_TYPE: string := "text/html; charset=utf-8"
  const OCTET_TYPE: string := "application/octet-stream"

  type Params = map<string, string>

  /** Member values: strings, numbers or booleans or null by their token, and everything else. */
  datatype Datum = Text(s: string) | Scalar(token: string) | Complex

  datatype Entry = Entry(key: string, value: Datum)

  /** What is passed to `json` or `send`; a buffer lists its octets as entries when taken for an object. */
  datatype Payload =
    | Record(entries: seq<Entry>)
    | Octets(entries: seq<Entry>)
    | Array(items: seq<Datum>)
    | Plain(text: string)
    | Primitive(token: string)
    | Nothing

  datatype Call =
    | Status(code: nat)
    | SetHeader(name: string, value: string)
    | Type(value: string)
    | Json(data: Payload)
    | Send(data: Payload)

  // ----- the real response object -----

  datatype Response = Response(status: nat, headers: map<string, string>, body: Option<Body>)

  datatype Body = JsonBody(data: Payload) | TextBody(text: string) | OctetBody(data: Payload) | EmptyBody

  const CONTENT_TYPE: string := "content-type"

  /** A content type that is missing or empty is replaced. */
  function WithDefault(headers: map<string, string>, value: string): map<string, string> {
    if CONTENT_TYPE in headers && headers[CONTENT_TYPE] != "" then headers else headers[CONTENT_TYPE := value]
  }

  /** Names and values that would break a line are refused. */
  predicate Refused(name: string, value: string) {
    HasBreak(Lower(name)) || HasBreak(value)
  }

  /** `set`: header names are kept in lower case. */
  function WithHeader(headers: map<string, string>, name: string, value: string): map<string, string> {
    if Refused(name, value) then headers else headers[Lower(name) := value]
  }

  /** `normalizeContentType`: three short names stand for full types. */
  function ContentType(value: string): string {
    if '/' in value then value
    else if value == "json" then JSON_TYPE
    else if value == "html" then HTML_TYPE
    else if value == "text" then TEXT_TYPE
    else value
  }

  function Finish(r: Response, contentType: string, body: Body): Response {
    Response(r.status, WithDefault(r.headers, contentType), Some(body))
  }

  /** The first body counts; status and headers may still change behind it. */
  function Respond(r: Response, c: Call): Response {
    match c
    case Status(code) => r.(status := code)
    case SetHeader(name, value) => r.(headers := WithHeader(r.headers, name, value))
    case Type(value) => r.(headers := WithHeader(r.headers, CONTENT_TYPE, ContentType(value)))
    case Json(data) => if r.body.Some? then r else Finish(r, JSON_TYPE, JsonBody(data))
    case Send(data) =>
      if r.body.Some? then r
      else
        match data
        case Plain(text) => Finish(r, TEXT_TYPE, TextBody(text))
        case Octets(_) => Finish(r, OCTET_TYPE, OctetBody(data))
        case Nothing => r.(body := Some(EmptyBody))
        case _ => Finish(r, JSON_TYPE, JsonBody(data))
  }

  function Served(calls: seq<Call>): Response {
    if calls == [] then Response(200, map[], None)
    else Respond(Served(calls[..|calls| - 1]), calls[|calls| - 1])
  }

  // ----- the mock -----

  datatype Capture = Capture(status: nat, data: Option<Payload>)

  /** The last body counts, headers are dropped, and sent primitives are not seen. */
  function Note(m: Capture, c: Call): Capture {
    match c
    case Status(code) => m.(status := code)
    case SetHeader(_, _) => m
    case Type(_) => m
    case Json(data) => m.(data := Some(data))
    case Send(data) => if data.Primitive? || data.Nothing? then m else m.(data := Some(data))
  }

  function Captured(calls: seq<Call>): Capture {
    if calls == [] then Capture(200, None)
    else Note(Captured(calls[..|calls| - 1]), calls[|calls| - 1])
  }

  // ----- templates -----

  datatype Slot = ParamRef(name: string) | Const(value: Datum)

  datatype Field = Field(key: string, slot: Slot)

  datatype Template = Template(status: nat, fields: seq<Field>)

  function Marker(name: string): string {
    PROBE_PARAM_PREFIX + name + PROBE_PARAM_SUFFIX
  }

  function MarkerParams(names: set<string>): Params {
    map n | n in names :: Marker(n)
  }

  predicate IsMarker(s: string, names: set<string>) {
    exists n :: n in names && Marker(n) == s
  }

  function ParamDatum(params: Params, name: string): Datum {
    if name in params then Text(params[name]) else Complex
  }

  function FillSlot(slot: Slot, params: Params): Datum {
    match slot
    case ParamRef(name) => ParamDatum(params, name)
    case Const(value) => value
  }

  function Fill(fields: seq<Field>, params: Params): seq<Entry> {
    if fields == [] then []
    else Fill(fields[..|fields| - 1], params)
         + [Entry(fields[|fields| - 1].key, FillSlot(fields[|fields| - 1].slot, params))]
  }

  /** The specialised response: one `json` call behind a status. */
  function Apply(t: Template, params: Params): Response {
    Response(t.status, map[CONTENT_TYPE := JSON_TYPE], Some(JsonBody(Record(Fill(t.fields, params)))))
  }

  // ----- generation -----

  /** A marker becomes its parameter, a primitive stays, anything else makes the probe give up. */
  function SlotOf(value: Datum, names: set<string>): Option<Slot> {
    match value
    case Text(s) =>
      if IsMarker(s, names) then
        if |s| >= |PROBE_PARAM_PREFIX| + |PROBE_PARAM_SUFFIX|
        then Some(ParamRef(s[|PROBE_PARAM_PREFIX|..|s| - |PROBE_PARAM_SUFFIX|]))
        else None
      else Some(Const(value))
    case Scalar(_) => Some(Const(value))
    case Complex => None
  }

  function Generate(entries: seq<Entry>, names: set<string>): Option<seq<Field>> {
    if entries == [] then Some([])
    else
      var last := entries[|entries| - 1];
      var front, slot := Generate(entries[..|entries| - 1], names), SlotOf(last.value, names);
      if front.None? || slot.None? then None else Some(front.value + [Field(last.key, slot.value)])
  }

  /** Whatever is an object and no array counts as a record. */
  function CapturedEntries(m: Capture): Option<seq<Entry>> {
    match m.data
    case None => None
    case Some(data) => if data.Record? || data.Octets? then Some(data.entries) else None
  }

  /** The JSON template that probing yields, if any; a sent string takes another path. */
  function TemplateFrom(m: Capture, names: set<string>): Option<Template> {
    if CapturedEntries(m).None? then None
    else
      match Generate(CapturedEntries(m).value, names)
      case None => None
      case Some(fields) => Some(Template(m.status, fields))
  }

  function ProbeHandler<R>(h: (Params, R) -> seq<Call>, names: set<string>, blank: R): Option<Template> {
    if names == {} then None else TemplateFrom(Captured(h(MarkerParams(names), blank)), names)
  }

  // ----- generation undoes filling with markers -----

  lemma MarkerName(prefix: string, name: string, suffix: string)
    ensures var m := prefix + name + suffix;
            |m| >= |prefix| + |suffix| && m[|prefix|..|m| - |suffix|] == name
  {}

  predicate SlotClean(slot: Slot, names: set<string>) {
    match slot
    case ParamRef(name) => name in names
    case Const(value) => !value.Complex? && (value.Text? ==> !IsMarker(value.s, names))
  }

  /** No constant is a marker or a complex value, and every parameter is one of the route's. */
  predicate Clean(fields: seq<Field>, names: set<string>) {
    fields == []
    || (SlotClean(fields[|fields| - 1].slot, names) && Clean(fields[..|fields| - 1], names))
  }

  lemma SlotRoundTrip(slot: Slot, names: set<string>)
    requires SlotClean(slot, names)
    ensures SlotOf(FillSlot(slot, MarkerParams(names)), names) == Some(slot)
  {
    if slot.ParamRef? {
      assert IsMarker(Marker(slot.name), names);
      MarkerName(PROBE_PARAM_PREFIX, slot.name, PROBE_PARAM_SUFFIX);
    }
  }

  lemma SlotSound(value: Datum, names: set<string>)
    requires SlotOf(value, names).Some?
    ensures var slot := SlotOf(value, names).value;
            SlotClean(slot, names) && FillSlot(slot, MarkerParams(names)) == value
  {
    if value.Text? && IsMarker(value.s, names) {
      var n :| n in names && Marker(n) == value.s;
      MarkerName(PROBE_PARAM_PREFIX, n, PROBE_PARAM_SUFFIX);
    }
  }

  lemma {:induction false} GenerateFilled(fields: seq<Field>, names: set<string>)
    requires Clean(fields, names)
    ensures Generate(Fill(fields, MarkerParams(names)), names) == Some(fields)
  {
    if fields != [] {
      var m := |fields| - 1;
      var front, last := Fill(fields[..m], MarkerParams(names)), FillSlot(fields[m].slot, MarkerParams(names));
      GenerateFilled(fields[..m], names);
      SlotRoundTrip(fields[m].slot, names);
      assert (front + [Entry(fields[m].key, last)])[..|front|] == front;
      assert fields[..m] + [fields[m]] == fields;
    }
  }

  lemma {:induction false} GenerateSound(entries: seq<Entry>, names: set<string>)
    requires Generate(entries, names).Some?
    ensures var fields := Generate(entries, names).value;
            Clean(fields, names) && Fill(fields, MarkerParams(names)) == entries
  {
    if entries != [] {
      var m := |entries| - 1;
      GenerateSound(entries[..m], names);
      SlotSound(entries[m].value, names);
      var front := Generate(entries[..m], names).value;
      var fields := Generate(entries, names).value;
      assert fields[..|front|] == front;
      assert entries[..m] + [entries[m]] == entries;
    }
  }

  // ----- what a handler's calls amount to -----

  predicate Answers(c: Call) {
    c.Json? || c.Send?
  }

  /** Code of the last status call. */
  function LastStatus(calls: seq<Call>): nat {
    if calls == [] then 200
    else if calls[|calls| - 1].Status? then calls[|calls| - 1].code
    else LastStatus(calls[..|calls| - 1])
  }

  /** Position of the first call that answers, or the number of calls. */
  function FirstAnswer(calls: seq<Call>): (k: nat)
    ensures k <= |calls| && (k < |calls| ==> Answers(calls[k]))
  {
    if calls == [] then 0
    else
      var n := |calls| - 1;
      var k := FirstAnswer(calls[..n]);
      if k < n || Answers(calls[n]) then k else |calls|
  }

  /** The value that the call gives the header `name`, if it is accepted. */
  function Sets(c: Call, name: string): (r: Option<string>)
    ensures Answers(c) ==> r == None
  {
    match c
    case SetHeader(n, value) => if Lower(n) == name && !Refused(n, value) then Some(value) else None
    case Type(value) => if name == CONTENT_TYPE && !HasBreak(ContentType(value)) then Some(ContentType(value)) else None
    case _ => None
  }

  function Over(before: Option<string>, last: Option<string>): Option<string> {
    if last.Some? then last else before
  }

  /** The value that the last accepted header call gives `name`. */
  function HeaderSet(calls: seq<Call>, name: string): Option<string> {
    if calls == [] then None
    else Over(HeaderSet(calls[..|calls| - 1], name), Sets(calls[|calls| - 1], name))
  }

  function BodyOf(c: Call): Body
    requires Answers(c)
  {
    if c.Json? then JsonBody(c.data)
    else
      match c.data
      case Plain(text) => TextBody(text)
      case Octets(_) => OctetBody(c.data)
      case Nothing => EmptyBody
      case _ => JsonBody(c.data)
  }

  /** The content type that an answer brings along. */
  function DefaultType(c: Call): Option<string>
    requires Answers(c)
  {
    if c.Json? then Some(JSON_TYPE)
    else
      match c.data
      case Plain(_) => Some(TEXT_TYPE)
      case Octets(_) => Some(OCTET_TYPE)
      case Nothing => None
      case _ => Some(JSON_TYPE)
  }

  /** The content type set before the answer, or the answer's own where that is missing or empty. */
  function TypeOr(before: Option<string>, own: Option<string>): Option<string> {
    if own.None? || (before.Some? && before.value != "") then before else own
  }

  /** The header that is sent under `name`. */
  function HeaderSent(calls: seq<Call>, name: string): Option<string> {
    var k := FirstAnswer(calls);
    if name != CONTENT_TYPE || k == |calls| then HeaderSet(calls, name) else TypeSent(calls, k, name)
  }

  /** The content type around the answer at `k`: what is set behind it wins. */
  function TypeSent(calls: seq<Call>, k: nat, name: string): Option<string>
    requires k < |calls| && Answers(calls[k])
  {
    Over(TypeOr(HeaderSet(calls[..k], name), DefaultType(calls[k])), HeaderSet(calls[k + 1..], name))
  }

  function Held(headers: map<string, string>, name: string): Option<string> {
    if name in headers then Some(headers[name]) else None
  }

  /** Three short names stand for full content types, any other value for itself. */
  lemma TypeSet(value: string)
    requires !HasBreak(value)
    ensures Held(Served([Type(value)]).headers, "content-type")
            == Some(if value == "json" then "application/json; charset=utf-8"
                    else if value == "html" then "text/html; charset=utf-8"
                    else if value == "text" then "text/plain; charset=utf-8"
                    else value)
  {
    OneCall(Type(value));
    TypeIs(value);
    assert Lower(CONTENT_TYPE) == CONTENT_TYPE && !HasBreak(CONTENT_TYPE);
  }

  lemma TypeIs(value: string)
    ensures ContentType(value) == if value == "json" then "application/json; charset=utf-8"
                                  else if value == "html" then "text/html; charset=utf-8"
                                  else if value == "text" then "text/plain; charset=utf-8"
                                  else value
    ensures !HasBreak(value) ==> !HasBreak(ContentType(value))
  {}

  lemma {:induction false} StatusIsLast(calls: seq<Call>)
    ensures Served(calls).status == LastStatus(calls) == Captured(calls).status
  {
    if calls != [] { StatusIsLast(calls[..|calls| - 1]); }
  }

  lemma {:induction false} BodyIsFirst(calls: seq<Call>)
    ensures Served(calls).body
            == if FirstAnswer(calls) < |calls| then Some(BodyOf(calls[FirstAnswer(calls)])) else None
  {
    if calls != [] { BodyIsFirst(calls[..|calls| - 1]); }
  }

  lemma HeaderCall(r: Response, c: Call, name: string)
    requires !Answers(c)
    ensures Held(Respond(r, c).headers, name) == Over(Held(r.headers, name), Sets(c, name))
    ensures Respond(r, c).body == r.body
  {
    assert Lower(CONTENT_TYPE) == CONTENT_TYPE && !HasBreak(CONTENT_TYPE);
  }

  lemma AnswerCall(r: Response, c: Call, name: string)
    requires Answers(c)
    ensures Held(Respond(r, c).headers, name)
            == if r.body.Some? || name != CONTENT_TYPE then Held(r.headers, name)
               else TypeOr(Held(r.headers, name), DefaultType(c))
  {}

  lemma {:induction false} HeadersAreSent(calls: seq<Call>, name: string)
    ensures Held(Served(calls).headers, name) == HeaderSent(calls, name)
  {
    if calls != [] {
      var n := |calls| - 1;
      HeadersAreSent(calls[..n], name);
      BodyIsFirst(calls[..n]);
      if Answers(calls[n]) {
        AnswerCall(Served(calls[..n]), calls[n], name);
      } else {
        HeaderCall(Served(calls[..n]), calls[n], name);
      }
      HeaderSentNext(calls[..n], calls[n], name);
      assert calls[..n] + [calls[n]] == calls;
    }
  }

  /** What is sent under a name after one more call. */
  lemma {:induction false} HeaderSentNext(calls: seq<Call>, c: Call, name: string)
    ensures HeaderSent(calls + [c], name)
            == if !Answers(c) then Over(HeaderSent(calls, name), Sets(c, name))
               else if FirstAnswer(calls) < |calls| || name != CONTENT_TYPE then HeaderSent(calls, name)
               else TypeOr(HeaderSent(calls, name), DefaultType(c))
  {
    FirstAnswerNext(calls, c);
    if name != CONTENT_TYPE {
      HeaderSetNext(calls, c, name);
    } else if FirstAnswer(calls) < |calls| {
      SentBehind(calls, c, FirstAnswer(calls), name);
    } else if Answers(c) {
      SentWith(calls, c, name);
    } else {
      HeaderSetNext(calls, c, name);
    }
  }

  lemma {:induction false} FirstAnswerNext(calls: seq<Call>, c: Call)
    ensures FirstAnswer(calls + [c])
            == if FirstAnswer(calls) < |calls| || Answers(c) then FirstAnswer(calls) else |calls| + 1
  {
    assert (calls + [c])[..|calls|] == calls;
  }

  lemma SentBehind(calls: seq<Call>, c: Call, k: nat, name: string)
    requires k < |calls| && Answers(calls[k])
    ensures TypeSent(calls + [c], k, name) == Over(TypeSent(calls, k, name), Sets(c, name))
  {
    assert (calls + [c])[k + 1..] == calls[k + 1..] + [c] && (calls + [c])[..k] == calls[..k];
    HeaderSetNext(calls[k + 1..], c, name);
  }

  lemma {:induction false} SentWith(calls: seq<Call>, c: Call, name: string)
    requires Answers(c)
    ensures TypeSent(calls + [c], |calls|, name) == TypeOr(HeaderSet(calls, name), DefaultType(c))
  {
    assert (calls + [c])[|calls| + 1..] == [] && (calls + [c])[..|calls|] == calls;
  }

  lemma {:induction false} HeaderSetNext(calls: seq<Call>, c: Call, name: string)
    ensures HeaderSet(calls + [c], name) == Over(HeaderSet(calls, name), Sets(c, name))
  {
    assert (calls + [c])[..|calls|] == calls;
  }

  /** The response is the one of the template, read off the calls. */
  ghost predicate Amounts(calls: seq<Call>, t: Template, params: Params) {
    && LastStatus(calls) == t.status
    && FirstAnswer(calls) < |calls|
    && BodyOf(calls[FirstAnswer(calls)]) == JsonBody(Record(Fill(t.fields, params)))
    && (forall name :: HeaderSent(calls, name) == if name == CONTENT_TYPE then Some(JSON_TYPE) else None)
  }

  lemma {:induction false} AmountsExactly(calls: seq<Call>, t: Template, params: Params)
    ensures Served(calls) == Apply(t, params) <==> Amounts(calls, t, params)
  {
    StatusIsLast(calls);
    BodyIsFirst(calls);
    forall name ensures Held(Served(calls).headers, name) == HeaderSent(calls, name) { HeadersAreSent(calls, name); }
    SameHeaders(Served(calls).headers, Apply(t, params).headers);
  }

  lemma SameHeaders(a: map<string, string>, b: map<string, string>)
    ensures a == b <==> forall name :: Held(a, name) == Held(b, name)
  {
    if forall name :: Held(a, name) == Held(b, name) {
      forall name ensures name in a <==> name in b { assert Held(a, name) == Held(b, name); }
      forall name | name in a ensures a[name] == b[name] { assert Held(a, name) == Held(b, name); }
    }
  }

  // ----- when the template means what the handler does -----

  /** For every request of the route the handler's response is the template's. */
  ghost predicate Serves<R(!new)>(t: Template, h: (Params, R) -> seq<Call>, names: set<string>) {
    forall params: Params, rest: R | params.Keys == names :: Served(h(params, rest)) == Apply(t, params)
  }

  /** All calls of the handler amount to one JSON object of bare parameters and constants that are no markers. */
  ghost predicate Uniform<R(!new)>(h: (Params, R) -> seq<Call>, names: set<string>) {
    exists t: Template :: Clean(t.fields, names) && AmountTo(t, h, names)
  }

  ghost predicate AmountTo<R(!new)>(t: Template, h: (Params, R) -> seq<Call>, names: set<string>) {
    forall params: Params, rest: R | params.Keys == names :: Amounts(h(params, rest), t, params)
  }

  /** The first answer is the object that the mock saw last. */
  predicate CaptureFaithful(calls: seq<Call>) {
    var k, entries := FirstAnswer(calls), CapturedEntries(Captured(calls));
    k < |calls| && entries.Some? && BodyOf(calls[k]) == JsonBody(Record(entries.value))
  }

  lemma ServesByCalls<R(!new)>(t: Template, h: (Params, R) -> seq<Call>, names: set<string>)
    ensures Serves(t, h, names) <==> AmountTo(t, h, names)
  {
    forall params: Params, rest: R | params.Keys == names
      ensures Served(h(params, rest)) == Apply(t, params) <==> Amounts(h(params, rest), t, params)
    {
      AmountsExactly(h(params, rest), t, params);
    }
  }

  /**
   Probing yields a template that serves every request as the handler would exactly if the handler's
   calls are uniform and the mock captured faithfully.
   */
  lemma ProbeExactly<R(!new)>(h: (Params, R) -> seq<Call>, names: set<string>, blank: R)
    ensures var t := ProbeHandler(h, names, blank);
            (t.Some? && Serves(t.value, h, names))
            <==> (names != {} && Uniform(h, names) && CaptureFaithful(h(MarkerParams(names), blank)))
  {
    var calls, p := h(MarkerParams(names), blank), ProbeHandler(h, names, blank);
    assert MarkerParams(names).Keys == names;
    StatusIsLast(calls);
    if p.Some? && Serves(p.value, h, names) {
      GenerateSound(CapturedEntries(Captured(calls)).value, names);
      ServesByCalls(p.value, h, names);
      assert Amounts(calls, p.value, MarkerParams(names));
    }
    if names != {} && Uniform(h, names) && CaptureFaithful(calls) {
      var t: Template :| Clean(t.fields, names) && AmountTo(t, h, names);
      ServesByCalls(t, h, names);
      assert Amounts(calls, t, MarkerParams(names));
      GenerateFilled(t.fields, names);
      assert p == Some(t);
    }
  }

  /** The calls of a handler of the simple shape. */
  function SimpleCalls(t: Template, params: Params): seq<Call> {
    (if t.status == 200 then [] else [Status(t.status)]) + [Json(Record(Fill(t.fields, params)))]
  }

  lemma OneCall(a: Call)
    ensures Served([a]) == Respond(Response(200, map[], None), a) && Captured([a]) == Note(Capture(200, None), a)
  {
    assert [a][..0] == [];
  }

  lemma TwoCalls(a: Call, b: Call)
    ensures Served([a, b]) == Respond(Served([a]), b) && Captured([a, b]) == Note(Captured([a]), b)
  {
    assert [a, b][..1] == [a];
  }

  lemma StatusJson(code: nat, entries: seq<Entry>)
    ensures var r := Served([Status(code), Json(Record(entries))]);
            r == Response(code, map[CONTENT_TYPE := JSON_TYPE], Some(JsonBody(Record(entries))))
    ensures Captured([Status(code), Json(Record(entries))]) == Capture(code, Some(Record(entries)))
  {
    OneCall(Status(code));
    TwoCalls(Status(code), Json(Record(entries)));
  }

  lemma {:induction false} SimpleServed(t: Template, params: Params)
    ensures Served(SimpleCalls(t, params)) == Apply(t, params)
    ensures Captured(SimpleCalls(t, params)) == Capture(t.status, Some(Record(Fill(t.fields, params))))
  {
    var entries := Fill(t.fields, params);
    if t.status == 200 {
      OneJson(entries);
      assert SimpleCalls(t, params) == [Json(Record(entries))];
    } else {
      StatusJson(t.status, entries);
      assert SimpleCalls(t, params) == [Status(t.status), Json(Record(entries))];
    }
  }

  /** A handler that is a status and one `json` call of this kind is replaced by exactly that template. */
  lemma {:induction false} SimpleHandlerPreserved<R(!new)>(h: (Params, R) -> seq<Call>, t: Template,
                                                    names: set<string>, blank: R)
    requires names != {} && Clean(t.fields, names)
    requires forall params: Params, rest: R | params.Keys == names :: h(params, rest) == SimpleCalls(t, params)
    ensures ProbeHandler(h, names, blank) == Some(t) && Serves(t, h, names)
  {
    assert MarkerParams(names).Keys == names;
    forall params: Params, rest: R | params.Keys == names ensures Served(h(params, rest)) == Apply(t, params) {
      SimpleServed(t, params);
    }
    SimpleServed(t, MarkerParams(names));
    GenerateFilled(t.fields, names);
  }

  // ----- handlers that probing changes -----

  lemma OneJson(entries: seq<Entry>)
    ensures var calls := [Json(Record(entries))];
            Served(calls) == Response(200, map[CONTENT_TYPE := JSON_TYPE], Some(JsonBody(Record(entries))))
            && Captured(calls) == Capture(200, Some(Record(entries)))
  {
    assert [Json(Record(entries))][..0] == [];
  }

  lemma {:induction false} OneField(key: string, token: string, names: set<string>)
    ensures Generate([Entry(key, Scalar(token))], names) == Some([Field(key, Const(Scalar(token)))])
    ensures forall params: Params :: Fill([Field(key, Const(Scalar(token)))], params) == [Entry(key, Scalar(token))]
  {
    assert [Entry(key, Scalar(token))][..0] == [] && [Field(key, Const(Scalar(token)))][..0] == [];
    assert [] + [Field(key, Const(Scalar(token)))] == [Field(key, Const(Scalar(token)))];
  }

  /** A handler that answers differently for one parameter value. */
  function Branching(name: string, special: string, key: string): (Params, ()) -> seq<Call> {
    (params: Params, rest: ()) =>
      [Json(Record([Entry(key, Scalar(if name in params && params[name] == special then "true" else "false"))]))]
  }

  /** Its template freezes the branch the probe took, and is wrong for the special value. */
  lemma BranchingFrozen(name: string, special: string, key: string)
    requires special != Marker(name)
    ensures var h, t := Branching(name, special, key), ProbeHandler(Branching(name, special, key), {name}, ());
            && t == Some(Template(200, [Field(key, Const(Scalar("false")))]))
            && Served(h(map[name := special], ())) != Apply(t.value, map[name := special])
  {
    OneField(key, "false", {name});
    OneJson([Entry(key, Scalar("false"))]);
    OneJson([Entry(key, Scalar("true"))]);
    var params := MarkerParams({name});
    assert name in params && params[name] == Marker(name);
    assert "true"[0] != "false"[0];
  }

  /** A handler that sets a header loses it. */
  lemma HeaderDropped<R(!new)>(h: (Params, R) -> seq<Call>, names: set<string>, blank: R, params: Params, rest: R,
                               name: string)
    requires name != CONTENT_TYPE && params.Keys == names
    requires name in Served(h(params, rest)).headers
    ensures var t := ProbeHandler(h, names, blank); t.Some? ==> !Serves(t.value, h, names)
  {
    var t := ProbeHandler(h, names, blank);
    if t.Some? { assert name !in Apply(t.value, params).headers; }
  }

  /** A handler with one header call before its answer gets a template and is served without the header. */
  lemma HeaderLost<R(!new)>(h: (Params, R) -> seq<Call>, names: set<string>, blank: R, name: string, value: string,
                            key: string, token: string)
    requires names != {} && Lower(name) != CONTENT_TYPE && !Refused(name, value)
    requires forall params: Params, rest: R | params.Keys == names ::
               h(params, rest) == [SetHeader(name, value), Json(Record([Entry(key, Scalar(token))]))]
    ensures ProbeHandler(h, names, blank) == Some(Template(200, [Field(key, Const(Scalar(token)))]))
    ensures forall params: Params, rest: R | params.Keys == names :: Lower(name) in Served(h(params, rest)).headers
    ensures !Serves(Template(200, [Field(key, Const(Scalar(token)))]), h, names)
  {
    var first, second := SetHeader(name, value), Json(Record([Entry(key, Scalar(token))]));
    var params := MarkerParams(names);
    assert params.Keys == names;
    OneCall(first);
    TwoCalls(first, second);
    OneField(key, token, names);
    assert Lower(name) in Served(h(params, blank)).headers;
    HeaderDropped(h, names, blank, params, blank, Lower(name));
  }

  /** A handler that answers twice is served with its last answer instead of its first. */
  lemma SecondAnswerWins<R(!new)>(h: (Params, R) -> seq<Call>, names: set<string>, blank: R, key: string)
    requires names != {}
    requires forall params: Params, rest: R | params.Keys == names ::
               h(params, rest) == [Json(Record([Entry(key, Scalar("1"))])), Json(Record([Entry(key, Scalar("2"))]))]
    ensures ProbeHandler(h, names, blank) == Some(Template(200, [Field(key, Const(Scalar("2")))]))
    ensures Served(h(MarkerParams(names), blank)).body == Some(JsonBody(Record([Entry(key, Scalar("1"))])))
  {
    var one, two := Json(Record([Entry(key, Scalar("1"))])), Json(Record([Entry(key, Scalar("2"))]));
    assert MarkerParams(names).Keys == names;
    assert [one, two][..1] == [one];
    OneJson([Entry(key, Scalar("1"))]);
    OneField(key, "2", names);
  }
}
