/**
 The real and the mock response as objects whose methods update fields, and the generator's loop,
 each proved against the functions of `Probe`.
 */
module ProbeObjects {
  import opened Prelude
  import opened Probe

  class ResponseObject {
    var status: nat
    var headers: map<string, string>
    var body: Option<Body>

    function State(): Response
      reads this
    {
      Response(status, headers, body)
    }

    constructor ()
      ensures State() == Served([])
    {
      status, headers, body := 200, map[], None;
    }

    method SetStatus(code: nat)
      modifies this
      ensures State() == Respond(old(State()), Status(code))
    {
      status := code;
    }

    method Set(name: string, value: string)
      modifies this
      ensures State() == Respond(old(State()), SetHeader(name, value))
    {
      var headerName := Lower(name);
      if HasBreak(headerName) || HasBreak(value) { return; }
      headers := headers[headerName := value];
    }

    method SetType(value: string)
      modifies this
      ensures State() == Respond(old(State()), Type(value))
    {
      Set(CONTENT_TYPE, ContentType(value));
    }

    method Deliver(contentType: string, content: Body)
      modifies this
      ensures State() == Finish(old(State()), contentType, content)
    {
      if CONTENT_TYPE !in headers || headers[CONTENT_TYPE] == "" { headers := headers[CONTENT_TYPE := contentType]; }
      body := Some(content);
    }

    method SendJson(data: Payload)
      modifies this
      ensures State() == Respond(old(State()), Json(data))
    {
      if body.Some? { return; }
      Deliver(JSON_TYPE, JsonBody(data));
    }

    method SendAny(data: Payload)
      modifies this
      ensures State() == Respond(old(State()), Send(data))
    {
      if body.Some? { return; }
      if data.Octets? {
        Deliver(OCTET_TYPE, OctetBody(data));
      } else if data.Plain? {
        Deliver(TEXT_TYPE, TextBody(data.text));
      } else if data.Nothing? {
        body := Some(EmptyBody);
      } else {
        SendJson(data);
      }
    }
  }

  class MockResponse {
    var capturedStatus: nat
    var capturedData: Option<Payload>

    function State(): Capture
      reads this
    {
      Capture(capturedStatus, capturedData)
    }

    constructor ()
      ensures State() == Captured([])
    {
      capturedStatus, capturedData := 200, None;
    }

    method SetStatus(code: nat)
      modifies this
      ensures State() == Note(old(State()), Status(code))
    {
      capturedStatus := code;
    }

    method SendJson(data: Payload)
      modifies this
      ensures State() == Note(old(State()), Json(data))
    {
      capturedData := Some(data);
    }

    method SendAny(data: Payload)
      modifies this
      ensures State() == Note(old(State()), Send(data))
    {
      if data.Plain? {
        capturedData := Some(data);
      } else if data.Record? || data.Octets? || data.Array? {
        capturedData := Some(data);
      }
    }
  }

  /** The probe: the handler's calls are made on a fresh mock, and a template is generated from what it caught. */
  method Probed(calls: seq<Call>, names: set<string>) returns (t: Option<Template>)
    ensures t == TemplateFrom(Captured(calls), names)
  {
    var mock := new MockResponse();
    for i := 0 to |calls|
      invariant mock.State() == Captured(calls[..i])
      invariant fresh(mock)
    {
      assert calls[..i + 1][..i] == calls[..i];
      match calls[i] {
        case Status(code) => mock.SetStatus(code);
        case Json(data) => mock.SendJson(data);
        case Send(data) => mock.SendAny(data);
        case _ =>
      }
    }
    assert calls[..|calls|] == calls;
    var caught := mock.capturedData;
    if caught.None? || !(caught.value.Record? || caught.value.Octets?) { return None; }
    var fields := GenerateResolvedFields(caught.value.entries, names);
    return if fields.None? then None else Some(Template(mock.capturedStatus, fields.value));
  }

  /** The same calls on the real object. */
  method Performed(calls: seq<Call>) returns (response: ResponseObject)
    ensures fresh(response) && response.State() == Served(calls)
  {
    response := new ResponseObject();
    for i := 0 to |calls|
      invariant response.State() == Served(calls[..i])
      invariant fresh(response)
    {
      assert calls[..i + 1][..i] == calls[..i];
      match calls[i] {
        case Status(code) => response.SetStatus(code);
        case SetHeader(name, value) => response.Set(name, value);
        case Type(value) => response.SetType(value);
        case Json(data) => response.SendJson(data);
        case Send(data) => response.SendAny(data);
      }
    }
    assert calls[..|calls|] == calls;
  }

  lemma {:induction false} Undecided(entries: seq<Entry>, names: set<string>, i: nat)
    requires i <= |entries| && Generate(entries[..i], names).None?
    ensures Generate(entries, names).None?
  {
    if i < |entries| {
      assert entries[..|entries| - 1][..i] == entries[..i];
      Undecided(entries[..|entries| - 1], names, i);
    } else {
      assert entries[..i] == entries;
    }
  }

  /** Gives up at the first value that is no primitive. */
  method GenerateResolvedFields(entries: seq<Entry>, names: set<string>) returns (r: Option<seq<Field>>)
    ensures r == Generate(entries, names)
  {
    var fields := [];
    for i := 0 to |entries|
      invariant Generate(entries[..i], names) == Some(fields)
    {
      assert entries[..i + 1][..i] == entries[..i];
      var slot := SlotOf(entries[i].value, names);
      if slot.None? {
        Undecided(entries, names, i + 1);
        return None;
      }
      fields := fields + [Field(entries[i].key, slot.value)];
    }
    assert entries[..|entries|] == entries;
    return Some(fields);
  }
}
