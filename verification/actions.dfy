/** The dispatch decision of `run_action` (`src/trigger.rs`): the url, topic
    and payload templates are interpolated with the action's own parameters,
    then the method and the fields present choose an HTTP request, an MQTT
    publish, a configuration error or nothing at all. Sending is not
    modelled: the result names what would be sent. */
module Actions {
  import opened Prelude
  import opened Config
  import opened Interpolation

  /** `TriggerError`: what a trigger's query or action can fail with. */
  datatype TriggerError =
    | ParameterFailed(cause: ParameterError)
    | EdgeFailed                      // the edge detector reported an error
    | NetworkFailed                   // the HTTP request could not be sent
    | MqttFailed                      // the MQTT client reported an error
    | Configuration(message: string)

  const NO_MQTT_SERVER: string := "mqtt trigger configured, but no mqtt server configured"

  /** What an action sends. */
  datatype Dispatch =
    | HttpRequest(verb: Method, url: string)
    | MqttPublish(broker: MqttConfig, topic: string, payload: string)
    | NoOp

  /** The fields a method needs: a url for HTTP, a topic and a payload for
      MQTT. */
  predicate HasRequiredFields(kind: Method, url: Option<string>, topic: Option<string>, payload: Option<string>) {
    if kind == Mqtt then topic.Some? && payload.Some? else url.Some?
  }

  /** The `match` of `run_action` on the interpolated fields. */
  function Select(
    kind: Method, url: Option<string>, topic: Option<string>, payload: Option<string>,
    mqtt: Option<MqttConfig>): (r: Result<Dispatch, TriggerError>)
    ensures r == Success(NoOp) <==> !HasRequiredFields(kind, url, topic, payload)
    ensures r.Failure? <==> kind == Mqtt && HasRequiredFields(kind, url, topic, payload) && mqtt.None?
    ensures r.Failure? ==> r.error == Configuration(NO_MQTT_SERVER)
    ensures r.Success? && r.value.HttpRequest? ==>
      kind != Mqtt && r.value.verb == kind && url == Some(r.value.url)
    ensures r.Success? && r.value.MqttPublish? ==>
      kind == Mqtt && mqtt == Some(r.value.broker)
      && topic == Some(r.value.topic) && payload == Some(r.value.payload)
  {
    match (kind, url, topic, payload)
    case (Put, Some(u), _, _) => Success(HttpRequest(Put, u))
    case (Post, Some(u), _, _) => Success(HttpRequest(Post, u))
    case (Get, Some(u), _, _) => Success(HttpRequest(Get, u))
    case (Mqtt, _, Some(t), Some(p)) =>
      if mqtt.Some? then Success(MqttPublish(mqtt.value, t, p))
      else Failure(Configuration(NO_MQTT_SERVER))
    case _ => Success(NoOp)
  }

  /** Some template of the action is present, so its parameters get resolved. */
  predicate HasTemplate(a: Action) {
    a.url.Some? || a.topic.Some? || a.payload.Some?
  }

  /** A template filled in with resolved parameters. */
  function Filled(template: Option<string>, ps: Params, env: Env): Option<string>
    requires AllResolve(ps, env)
  {
    InterpolateOption(template, ps, env).value
  }

  /** `run_action`, up to the send. */
  function RunAction(a: Action, env: Env, mqtt: Option<MqttConfig>): (r: Result<Dispatch, TriggerError>)
    ensures (r.Failure? && r.error.ParameterFailed?) <==> HasTemplate(a) && !AllResolve(a.params, env)
    ensures r.Failure? && r.error.ParameterFailed? ==>
      exists i :: 0 <= i < |a.params| && GetValue(a.params[i].definition, env) == Failure(r.error.cause)
    ensures AllResolve(a.params, env) ==>
      r == Select(a.kind, Filled(a.url, a.params, env), Filled(a.topic, a.params, env),
                  Filled(a.payload, a.params, env), mqtt)
    ensures !HasTemplate(a) ==> r == Select(a.kind, None, None, None, mqtt)
  {
    match InterpolateOption(a.url, a.params, env)
    case Failure(e) => Failure(ParameterFailed(e))
    case Success(url) =>
      match InterpolateOption(a.topic, a.params, env)
      case Failure(e) => Failure(ParameterFailed(e))
      case Success(topic) =>
        match InterpolateOption(a.payload, a.params, env)
        case Failure(e) => Failure(ParameterFailed(e))
        case Success(payload) => Select(a.kind, url, topic, payload, mqtt)
  }

  /** An MQTT action with a topic and a payload but no MQTT server configured
      is a configuration error, and nothing is sent. */
  lemma MqttWithoutServer(a: Action, env: Env)
    requires a.kind == Mqtt && a.topic.Some? && a.payload.Some?
    requires AllResolve(a.params, env)
    ensures RunAction(a, env, None) == Failure(Configuration(NO_MQTT_SERVER))
  {
  }

  /** An HTTP action needs only its url; topic, payload and the MQTT server
      play no part. */
  lemma HttpNeedsOnlyUrl(a: Action, env: Env, mqtt: Option<MqttConfig>)
    requires a.kind != Mqtt && a.url.Some?
    requires AllResolve(a.params, env)
    ensures RunAction(a, env, mqtt) == Success(HttpRequest(a.kind, Interpolate(a.url.value, a.params, env).value))
  {
  }

  /** An action missing the fields its method needs sends nothing and
      reports success. */
  lemma MissingFieldsIsNoOp(a: Action, env: Env, mqtt: Option<MqttConfig>)
    requires !HasRequiredFields(a.kind, a.url, a.topic, a.payload)
    requires AllResolve(a.params, env) || !HasTemplate(a)
    ensures RunAction(a, env, mqtt) == Success(NoOp)
  {
  }

  /** Interpolation errors win over dispatch: when some template is present
      and a parameter fails, the action fails with that parameter's error,
      whatever the method and whether or not the method uses the template. */
  lemma InterpolationErrorsFirst(a: Action, env: Env, mqtt: Option<MqttConfig>, i: nat)
    requires HasTemplate(a)
    requires i < |a.params| && GetValue(a.params[i].definition, env).Failure?
    ensures RunAction(a, env, mqtt).Failure? && RunAction(a, env, mqtt).error.ParameterFailed?
  {
  }
}
