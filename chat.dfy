/**
 * The `/api/chat` endpoint: validate the request, check that the backend answers, then stream
 * the relayed reply. Every call the gateway makes to the backend is recorded, in order.
 */
module Chat {
  import opened Wrappers
  import opened Text
  import opened EventStream
  import Relay
  import Settings
  import Readiness

  /** The request body's `message` and `model` fields; None when a field (or the whole body) is absent. */
  datatype ChatRequest = ChatRequest(message: Option<string>, model: Option<string>)

  /** The temperature passed to the backend: the built-in 0.7, or the stored text to be parsed as a float. */
  datatype Temperature = DefaultTemperature | StoredTemperature(text: string)

  /** The streaming chat call to the backend. */
  datatype BackendCall = BackendCall(model: string, prompt: string, system: string, temperature: Temperature)

  /** A call the gateway makes to the backend. */
  datatype Call = HealthProbe | OpenChat(request: BackendCall)

  /** The HTTP response: 400, 503, or a 200 event stream. */
  datatype Response = BadRequest(error: string) | Unavailable(error: string) | Streamed(events: seq<Event>)

  datatype Reply = Reply(response: Response, calls: seq<Call>)

  const MISSING_FIELDS: string := "message/model が必要"

  /** The 503 error text: the backend is not running, and where the startup log is. */
  function UnavailableError(log: string): (e: string)
    ensures EndsWith(e, Readiness.LOG_LABEL + log)
  {
    var e := "Ollama が起動していません。\n" + (Readiness.LOG_LABEL + log);
    assert e[|e| - |Readiness.LOG_LABEL + log|..] == Readiness.LOG_LABEL + log;
    e
  }

  /** `dbg("temperature") or 0.7`: a missing row and an empty value both fall back to the default. */
  function TemperatureSetting(settings: map<string, string>): (t: Temperature)
    ensures t.StoredTemperature? <==> Settings.TEMPERATURE in settings && settings[Settings.TEMPERATURE] != ""
    ensures t.StoredTemperature? ==> t.text == settings[Settings.TEMPERATURE]
  {
    match Settings.Lookup(settings, Settings.TEMPERATURE)
    case Some(v) => if v == "" then DefaultTemperature else StoredTemperature(v)
    case None => DefaultTemperature
  }

  /**
   * The reply of `chat` once the probe has answered: `gen` reads the temperature setting before
   * the chat call, so a stored temperature that does not parse is one error event and no call;
   * otherwise one chat call carrying `msg`, an empty system prompt and the temperature, whose
   * relay is the response.
   */
  function StreamedChat(model: string, msg: string, settings: map<string, string>,
                        temperatureError: Option<string>, backend: Relay.Backend): (r: Reply)
    ensures r.response.Streamed? && 1 <= |r.calls| <= 2 && r.calls[0] == HealthProbe
    ensures |r.calls| == 1 <==> TemperatureSetting(settings).StoredTemperature? && temperatureError.Some?
    ensures |r.calls| == 1 ==> r.response.events == [Error(temperatureError.value)]
    ensures |r.calls| == 2 ==>
      r.calls[1] == OpenChat(BackendCall(model, msg, "", TemperatureSetting(settings)))
      && r.response.events == Relay.Relayed(backend)
  {
    var temperature := TemperatureSetting(settings);
    if temperature.StoredTemperature? && temperatureError.Some? then
      Reply(Streamed([Error(temperatureError.value)]), [HealthProbe])
    else
      Reply(Streamed(Relay.Relayed(backend)), [HealthProbe, OpenChat(BackendCall(model, msg, "", temperature))])
  }

  /**
   * `chat`, with `healthy` the answer of its `ollama_ok()` probe, `settings` the settings table,
   * `temperatureError` the exception `float()` raises on a stored temperature that does not
   * parse, `backend` what the backend does once the chat call is made, and `log` the startup log
   * path. An empty (after stripping) message or an empty model is a 400 before any probe; a
   * valid request while the backend does not answer is a 503 naming the log, with no chat call;
   * otherwise the reply is a stream: one error event if the temperature does not parse, else
   * the relay of a chat call carrying the stripped message, an empty system prompt and the
   * stored temperature.
   */
  function HandleChat(req: ChatRequest, healthy: bool, settings: map<string, string>,
                      temperatureError: Option<string>, backend: Relay.Backend, log: string): (r: Reply)
    ensures r.response.BadRequest? <==>
      AllSpace(req.message.GetOr("")) || req.model.GetOr("") == ""
    ensures r.response.BadRequest? ==> r.calls == [] && r.response.error == MISSING_FIELDS
    ensures r.response.Unavailable? <==> !r.response.BadRequest? && !healthy
    ensures r.response.Unavailable? ==>
      r.calls == [HealthProbe] && EndsWith(r.response.error, Readiness.LOG_LABEL + log)
    ensures r.response.Streamed? ==> 1 <= |r.calls| <= 2 && r.calls[0] == HealthProbe
    ensures r.response.Streamed? ==>
      (|r.calls| == 1 <==> TemperatureSetting(settings).StoredTemperature? && temperatureError.Some?)
    ensures r.response.Streamed? && |r.calls| == 1 ==>
      TemperatureSetting(settings).StoredTemperature? && temperatureError.Some?
      && r.response.events == [Error(temperatureError.value)]
    ensures r.response.Streamed? && |r.calls| == 2 ==>
      r.calls[1] == OpenChat(BackendCall(req.model.value, Strip(req.message.value), "",
                                         TemperatureSetting(settings)))
      && r.response.events == Relay.Relayed(backend)
  {
    var msg := Strip(req.message.GetOr(""));
    var model := req.model.GetOr("");
    if msg == [] || model == [] then
      Reply(BadRequest(MISSING_FIELDS), [])
    else if !healthy then
      Reply(Unavailable(UnavailableError(log)), [HealthProbe])
    else
      StreamedChat(model, msg, settings, temperatureError, backend)
  }

  /**
   * A streamed reply always ends with exactly one terminal event, and a client reading the
   * response body recovers exactly the relayed events, in order.
   */
  lemma StreamedReply(req: ChatRequest, healthy: bool, settings: map<string, string>,
                      temperatureError: Option<string>, backend: Relay.Backend, log: string)
    requires HandleChat(req, healthy, settings, temperatureError, backend, log).response.Streamed?
    ensures var evs := HandleChat(req, healthy, settings, temperatureError, backend, log).response.events;
      Relay.EndsOnce(evs)
      && |ReadEvents(Stream(evs), [])| == |evs|
      && forall i :: 0 <= i < |evs| ==> DecodePayload(ReadEvents(Stream(evs), [])[i]) == Some(evs[i])
  {
    var r := HandleChat(req, healthy, settings, temperatureError, backend, log);
    var evs := r.response.events;
    if |r.calls| == 1 {
      assert evs == [Error(temperatureError.value)];
      assert Relay.EndsOnce(evs);
    } else {
      Relay.RelayEndsOnce(backend);
    }
    StreamRoundTrip(evs);
  }
}
