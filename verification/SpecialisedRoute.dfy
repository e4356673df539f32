/**
 From a probed handler to the octets of its response: the template that probing generates, rendered
 natively for a request of the route, against the handler called on that request.
 */
module SpecialisedRoute {
  import opened Prelude
  import Json
  import FastPath
  import Rendering
  import Probe
  import QueryText

  /** A number, boolean or null as it stands in JSON text. */
  predicate Token(token: string) {
    token != "" && forall c | c in token :: Json.TokenChar(c)
  }

  lemma {:induction false} TokenEnds(token: string, rest: string)
    requires (forall c | c in token :: Json.TokenChar(c)) && Json.Delimited(rest)
    ensures Json.TokenEnd(token + rest) == |token|
    decreases |token|
  {
    if token != "" {
      assert token[0] in token && (token + rest)[1..] == token[1..] + rest;
      TokenEnds(token[1..], rest);
    } else {
      assert token + rest == rest;
    }
  }

  lemma TokenDenotes(token: string)
    requires Token(token)
    ensures Json.Denotes(token, Json.Scalar(token))
  {
    assert token[0] in token;
    forall rest: string | Json.Delimited(rest)
      ensures Json.ReadValue(token + rest) == Some((Json.Scalar(token), rest))
    {
      TokenEnds(token, rest);
      assert (token + rest)[0] == token[0] && (token + rest)[..|token|] == token && (token + rest)[|token|..] == rest;
    }
  }

  // ----- the generated template as fields of the native renderer -----

  function ValueOf(d: Probe.Datum): Json.Value
    requires !d.Complex?
  {
    match d
    case Text(s) => Json.Text(s)
    case Scalar(token) => Json.Scalar(token)
  }

  function TextOf(d: Probe.Datum): string
    requires !d.Complex?
  {
    match d
    case Text(s) => Json.Quote(s, false)
    case Scalar(token) => token
  }

  predicate Usable(f: Probe.Field) {
    f.slot.Const? ==> !f.slot.value.Complex? && (f.slot.value.Scalar? ==> Token(f.slot.value.token))
  }

  predicate AllUsable(fields: seq<Probe.Field>) {
    forall i | 0 <= i < |fields| :: Usable(fields[i])
  }

  function FieldOf(f: Probe.Field): Rendering.Field
    requires Usable(f)
  {
    match f.slot
    case ParamRef(name) => Rendering.ValueField(f.key, FastPath.Param(name))
    case Const(value) => Rendering.LiteralField(f.key, TextOf(value), ValueOf(value))
  }

  function FieldsOf(fields: seq<Probe.Field>): (r: seq<Rendering.Field>)
    requires AllUsable(fields)
    ensures |r| == |fields|
  {
    if fields == [] then [] else [FieldOf(fields[0])] + FieldsOf(fields[1..])
  }

  lemma {:induction false} TemplateDenotes(fields: seq<Probe.Field>)
    requires AllUsable(fields)
    ensures Rendering.LiteralsDenote(FieldsOf(fields))
  {
    if fields != [] {
      var f, rest := fields[0], FieldsOf(fields[1..]);
      assert Usable(f) && ([FieldOf(f)] + rest)[1..] == rest;
      TemplateDenotes(fields[1..]);
      if f.slot.Const? {
        match f.slot.value
        case Text(s) => Json.QuoteDenotes(s, false);
        case Scalar(token) => TokenDenotes(token);
      }
    }
  }

  // ----- the request object of the handler -----

  /** The parameters as the handler sees them. */
  function ParamsOf(q: FastPath.Request): Probe.Params {
    map n | n in q.names && FastPath.LastParam(q.names, q.values, n).Some?
      :: FastPath.LastParam(q.names, q.values, n).value
  }

  /** Every parameter of the route has one value, under a name that the handler may see. */
  predicate ParamsSafe(q: FastPath.Request) {
    forall n | n in q.names :: FastPath.Safe(FastPath.Param(n), q)
  }

  lemma {:induction false} Captured(names: seq<string>, values: seq<string>, n: string)
    requires |names| == |values| && n in names
    ensures FastPath.ParamValues(names, values, n) != []
  {
    if names[0] != n { Captured(names[1..], values[1..], n); }
  }

  lemma ParamSeen(q: FastPath.Request, n: string)
    requires n in q.names && FastPath.Safe(FastPath.Param(n), q)
    ensures n in ParamsOf(q) && FastPath.Resolve(FastPath.ParamSource(n), q) == FastPath.Single(ParamsOf(q)[n])
  {
    Captured(q.names, q.values, n);
    FastPath.ParamAgrees(q.names, q.values, n);
  }

  // ----- the rendered object against the handler's answer -----

  function MembersOf(entries: seq<Probe.Entry>): seq<Json.Member>
    requires forall i | 0 <= i < |entries| :: !entries[i].value.Complex?
  {
    if entries == [] then []
    else [Json.Member(entries[0].key, ValueOf(entries[0].value))] + MembersOf(entries[1..])
  }

  lemma {:induction false} FillFront(fields: seq<Probe.Field>, params: Probe.Params)
    requires fields != []
    ensures Probe.Fill(fields, params)
            == [Probe.Entry(fields[0].key, Probe.FillSlot(fields[0].slot, params))] + Probe.Fill(fields[1..], params)
  {
    var n := |fields| - 1;
    if n > 0 {
      FillFront(fields[..n], params);
      assert fields[..n][1..] == fields[1..][..n - 1];
    } else {
      assert fields[..0] == [] && fields[1..] == [];
    }
  }

  /** All parameters that the template mentions are the route's. */
  predicate Mentions(fields: seq<Probe.Field>, names: set<string>) {
    forall i | 0 <= i < |fields| :: fields[i].slot.ParamRef? ==> fields[i].slot.name in names
  }

  function NamesOf(q: FastPath.Request): set<string> {
    set n | n in q.names
  }

  lemma {:induction false} MembersFilled(fields: seq<Probe.Field>, q: FastPath.Request)
    requires AllUsable(fields) && Mentions(fields, NamesOf(q)) && ParamsSafe(q)
    ensures var entries := Probe.Fill(fields, ParamsOf(q));
            && (forall i | 0 <= i < |entries| :: !entries[i].value.Complex?)
            && Rendering.Present(FieldsOf(fields), q) == MembersOf(entries)
  {
    if fields != [] {
      var f, rest := fields[0], Probe.Fill(fields[1..], ParamsOf(q));
      MembersFilled(fields[1..], q);
      FillFront(fields, ParamsOf(q));
      HeadFilled(f, q);
      var entries := [Probe.Entry(f.key, Probe.FillSlot(f.slot, ParamsOf(q)))] + rest;
      assert entries[1..] == rest && FieldsOf(fields)[1..] == FieldsOf(fields[1..]);
    }
  }

  lemma HeadFilled(f: Probe.Field, q: FastPath.Request)
    requires Usable(f) && (f.slot.ParamRef? ==> f.slot.name in NamesOf(q)) && ParamsSafe(q)
    ensures var value, pieces := Probe.FillSlot(f.slot, ParamsOf(q)), Rendering.PieceOf(FieldOf(f), q);
            !value.Complex? && pieces != [] && pieces[0].value == ValueOf(value)
  {
    if f.slot.ParamRef? { ParamSeen(q, f.slot.name); }
  }

  lemma {:induction false} CleanMentions(fields: seq<Probe.Field>, names: set<string>)
    requires Probe.Clean(fields, names)
    ensures Mentions(fields, names)
  {
    if fields != [] { CleanMentions(fields[..|fields| - 1], names); }
  }

  /** What the client parses from the natively rendered body is the object that the handler answers with. */
  ghost predicate SameAnswer(response: Probe.Response, t: Probe.Template, body: string) {
    && response.status == t.status
    && response.body.Some? && response.body.value.JsonBody? && response.body.value.data.Record?
    && var entries := response.body.value.data.entries;
       (forall i | 0 <= i < |entries| :: !entries[i].value.Complex?)
       && Json.Parse(body) == Some(Json.Object(MembersOf(entries)))
  }

  /**
   If the handler is uniform and was captured faithfully, probing replaces it by a template, and the
   native rendering of this template answers each request of the route as the handler would.
   */
  lemma ProbedRoutePreserved<R(!new)>(h: (Probe.Params, R) -> seq<Probe.Call>, blank: R, rest: R, q: FastPath.Request)
    requires q.names != [] && ParamsSafe(q)
    requires Probe.Uniform(h, NamesOf(q)) && Probe.CaptureFaithful(h(Probe.MarkerParams(NamesOf(q)), blank))
    ensures var t := Probe.ProbeHandler(h, NamesOf(q), blank);
            && t.Some?
            && (AllUsable(t.value.fields) ==>
                  SameAnswer(Probe.Served(h(ParamsOf(q), rest)), t.value, Rendering.RenderObject(FieldsOf(t.value.fields), q)))
  {
    var names := NamesOf(q);
    assert q.names[0] in names;
    Probe.ProbeExactly(h, names, blank);
    var t := Probe.ProbeHandler(h, names, blank).value;
    forall n | n in names ensures n in ParamsOf(q) { ParamSeen(q, n); }
    assert ParamsOf(q).Keys == names;
    assert Probe.Served(h(ParamsOf(q), rest)) == Probe.Apply(t, ParamsOf(q));
    if AllUsable(t.fields) {
      Probe.GenerateSound(Probe.CapturedEntries(Probe.Captured(h(Probe.MarkerParams(names), blank))).value, names);
      CleanMentions(t.fields, names);
      RenderedAnswer(t, q);
    }
  }

  lemma RenderedAnswer(t: Probe.Template, q: FastPath.Request)
    requires AllUsable(t.fields) && Mentions(t.fields, NamesOf(q)) && ParamsSafe(q)
    ensures SameAnswer(Probe.Apply(t, ParamsOf(q)), t, Rendering.RenderObject(FieldsOf(t.fields), q))
  {
    MembersFilled(t.fields, q);
    TemplateDenotes(t.fields);
    Rendering.ObjectParsed(FieldsOf(t.fields), q);
  }

  // ----- the query of a request target -----

  /**
   For a target whose query both sides decode alike, the rendered query object parses to the object
   that the handler would have sent.
   */
  lemma TargetQueryPreserved(url: QueryText.AsciiText, lossy: bytes -> string)
    requires QueryText.Replacing(lossy) && QueryText.AllAlike(url)
    ensures var entries := QueryText.NativeEntries(url, lossy);
            && Rendering.Neat(Rendering.Buckets(entries))
            && Json.Parse(Rendering.RenderQuery(entries)).Some?
            && Json.Meaning(Json.Parse(Rendering.RenderQuery(entries)).value)
               == Rendering.QueryJs(QueryText.JsEntries(url))
  {
    var entries := QueryText.NativeEntries(url, lossy);
    QueryText.EntriesExactly(url, lossy);
    Rendering.QueryPreserved(entries);
    Json.DenotesParse(Rendering.RenderQuery(entries), Rendering.QueryMembers(entries));
  }
}
