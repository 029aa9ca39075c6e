/** The configuration shapes of the service (`src/config.rs`) and the
    resolution of one parameter definition to its string value
    (`Parameter::get_value`). The two collaborators a resolution consults,
    multicast DNS and the service-registry file, are inputs of type `Env`. */
module Config {
  import opened Prelude
  import opened Strings

  /** Why a parameter could not be resolved. */
  datatype ParameterError =
    | MdnsError         // the mDNS query itself failed
    | MdnsHostNotFound  // the query finished without finding the host
    | FilesystemError   // the registry file could not be read
    | MalformedService  // the registry file is not a list of services
    | ServiceNotFound   // no service in the registry file qualifies

  /** A parameter definition. `Registry` is the source's `service` variant:
      a lookup in a service-registry file. */
  datatype Parameter =
    | Mdns(service: string, host: string)
    | Value(value: string)
    | Registry(file: string, key: string, value: string)

  /** One entry of a service-registry file. */
  datatype Service = Service(targets: seq<string>, labels: map<string, string>)

  /** One `(name, definition)` entry of a parameter map. */
  datatype Binding = Binding(name: string, definition: Parameter)

  /** A parameter map, listed in the map's iteration order. That order is
      unspecified by the source, so every property below holds for all
      orders. */
  type Params = seq<Binding>

  datatype Method = Get | Put | Post | Mqtt

  /** The condition watched by a trigger: a query template, its parameters
      and the time window handed to the edge detector. */
  datatype Condition = Condition(params: Params, query: string, from: u64, to: u64)

  datatype Action = Action(
    kind: Method,  // the source's `method` field
    params: Params,
    url: Option<string>,
    topic: Option<string>,
    payload: Option<string>)

  datatype Trigger = Trigger(name: string, delay: u64, condition: Condition, action: Action)

  datatype MqttConfig = MqttConfig(host: string, port: Option<u16>)

  /** A socket address found by mDNS; `ip` is the address's own text. */
  datatype SocketAddr = V4(ip: string, port: u16) | V6(ip: string, port: u16)

  /** What the mDNS collaborator answers for `(service, host)`. */
  datatype MdnsAnswer = MdnsFailed | Resolved(addr: Option<SocketAddr>)

  /** What reading and parsing a registry file yields. */
  datatype RegistryFile = Unreadable | Malformed | Parsed(services: seq<Service>)

  /** The outside world as seen by parameter resolution. */
  datatype Env = Env(mdns: (string, string) -> MdnsAnswer, registry: string -> RegistryFile)

  /** The text of a socket address: `ip:port`, with an IPv6 address in
      brackets. */
  function AddrString(a: SocketAddr): string {
    match a
    case V4(ip, port) => ip + ":" + Decimal(port)
    case V6(ip, port) => "[" + ip + "]:" + Decimal(port)
  }

  /** The text after the last `:` of `s` (all of `s` when it has none). */
  function AfterLastColon(s: string): string
    decreases |s|
  {
    if |s| == 0 then ""
    else if s[|s| - 1] == ':' then ""
    else AfterLastColon(s[..|s| - 1]) + [s[|s| - 1]]
  }

  /** The text before the last `:` of `s` (empty when it has none). */
  function BeforeLastColon(s: string): string
    decreases |s|
  {
    if |s| == 0 then ""
    else if s[|s| - 1] == ':' then s[..|s| - 1]
    else BeforeLastColon(s[..|s| - 1])
  }

  lemma {:induction false} LastColonOf(x: string, t: string)
    requires ':' !in t
    ensures AfterLastColon(x + ":" + t) == t
    ensures BeforeLastColon(x + ":" + t) == x
    decreases |t|
  {
    var s := x + ":" + t;
    if |t| > 0 {
      assert s[..|s| - 1] == x + ":" + t[..|t| - 1];
      LastColonOf(x, t[..|t| - 1]);
      assert t == t[..|t| - 1] + [t[|t| - 1]];
    } else {
      assert s[|s| - 1] == ':';
      assert s[..|s| - 1] == x;
    }
  }

  /** The host part of a socket address's text: the IPv4 address, or the
      IPv6 address in brackets. */
  function HostText(a: SocketAddr): string {
    match a
    case V4(ip, _) => ip
    case V6(ip, _) => "[" + ip + "]"
  }

  /** The rendered address splits at its last colon into the host part and
      the decimal port, and the port reads back from it. */
  lemma AddrStringParts(a: SocketAddr)
    ensures BeforeLastColon(AddrString(a)) == HostText(a)
    ensures AllDigits(AfterLastColon(AddrString(a)))
    ensures ParseDecimal(AfterLastColon(AddrString(a))) == a.port
  {
    var d := Decimal(a.port);
    assert ':' !in d by {
      forall i | 0 <= i < |d| ensures d[i] != ':' {
        assert '0' <= d[i] <= '9';
      }
    }
    DecimalRoundTrip(a.port);
    match a
    case V4(ip, port) =>
      LastColonOf(ip, d);
    case V6(ip, port) =>
      assert AddrString(a) == ("[" + ip + "]") + ":" + d;
      LastColonOf("[" + ip + "]", d);
  }

  /** The `find_map` predicate: a service qualifies when its label `key` is
      `value` and it lists at least one target. */
  predicate Qualifies(s: Service, key: string, value: string) {
    key in s.labels && s.labels[key] == value && |s.targets| > 0
  }

  /** The first target of the first qualifying service, in file order. */
  function FindService(services: seq<Service>, key: string, value: string): (r: Option<string>)
    ensures r.None? <==> forall i :: 0 <= i < |services| ==> !Qualifies(services[i], key, value)
    ensures r.Some? ==>
      exists i :: 0 <= i < |services| && Qualifies(services[i], key, value)
        && r.value == services[i].targets[0]
        && (forall j :: 0 <= j < i ==> !Qualifies(services[j], key, value))
    decreases |services|
  {
    if |services| == 0 then None
    else if Qualifies(services[0], key, value) then Some(services[0].targets[0])
    else
      var r := FindService(services[1..], key, value);
      assert forall i :: 0 < i < |services| ==> services[i] == services[1..][i - 1];
      r
  }

  /** `Parameter::get_value`. */
  function GetValue(p: Parameter, env: Env): (r: Result<string, ParameterError>)
    ensures p.Value? ==> r == Success(p.value)
    ensures r.Failure? && (r.error.MdnsError? || r.error.MdnsHostNotFound?) ==> p.Mdns?
    ensures r.Failure? && !(r.error.MdnsError? || r.error.MdnsHostNotFound?) ==> p.Registry?
  {
    match p
    case Mdns(service, host) =>
      (match env.mdns(service, host)
       case MdnsFailed => Failure(MdnsError)
       case Resolved(None) => Failure(MdnsHostNotFound)
       case Resolved(Some(addr)) => Success(AddrString(addr)))
    case Value(value) => Success(value)
    case Registry(file, key, value) =>
      (match env.registry(file)
       case Unreadable => Failure(FilesystemError)
       case Malformed => Failure(MalformedService)
       case Parsed(services) =>
         (match FindService(services, key, value)
          case None => Failure(ServiceNotFound)
          case Some(target) => Success(target)))
  }

  /** An mDNS lookup fails with `MdnsHostNotFound` exactly when the
      collaborator found nothing, and otherwise yields the text of the found
      address: its host part before the last colon, its port after it. */
  lemma MdnsResolution(service: string, host: string, env: Env)
    ensures GetValue(Mdns(service, host), env) == Failure(MdnsHostNotFound)
      <==> env.mdns(service, host) == Resolved(None)
    ensures GetValue(Mdns(service, host), env).Success?
      <==> env.mdns(service, host).Resolved? && env.mdns(service, host).addr.Some?
    ensures env.mdns(service, host) == MdnsFailed ==> GetValue(Mdns(service, host), env) == Failure(MdnsError)
    ensures forall a :: env.mdns(service, host) == Resolved(Some(a)) ==>
      GetValue(Mdns(service, host), env) == Success(AddrString(a))
    ensures forall a :: env.mdns(service, host) == Resolved(Some(a)) ==>
      var r := GetValue(Mdns(service, host), env).value;
      BeforeLastColon(r) == HostText(a) && AllDigits(AfterLastColon(r)) && ParseDecimal(AfterLastColon(r)) == a.port
  {
    match env.mdns(service, host)
    case Resolved(Some(a)) => AddrStringParts(a);
    case _ =>
  }

  /** A registry lookup yields the first target of the first qualifying
      service in file order. */
  lemma RegistryFirstMatch(file: string, key: string, value: string, env: Env, i: nat)
    requires env.registry(file).Parsed?
    requires i < |env.registry(file).services|
    requires Qualifies(env.registry(file).services[i], key, value)
    requires forall j :: 0 <= j < i ==> !Qualifies(env.registry(file).services[j], key, value)
    ensures GetValue(Registry(file, key, value), env) == Success(env.registry(file).services[i].targets[0])
  {
    var services := env.registry(file).services;
    var r := FindService(services, key, value);
    var k :| 0 <= k < |services| && Qualifies(services[k], key, value)
      && r.value == services[k].targets[0]
      && forall j :: 0 <= j < k ==> !Qualifies(services[j], key, value);
    assert !(k < i);
    assert !(i < k);
  }

  /** A registry lookup in a readable, well-formed file fails exactly when no
      service qualifies, in particular when every service with the right
      label lists no targets. */
  lemma RegistryNotFound(file: string, key: string, value: string, env: Env)
    requires env.registry(file).Parsed?
    ensures GetValue(Registry(file, key, value), env) == Failure(ServiceNotFound)
      <==> forall i :: 0 <= i < |env.registry(file).services| ==>
             var s := env.registry(file).services[i];
             key in s.labels && s.labels[key] == value ==> |s.targets| == 0
  {
  }

  /** Reading and parsing errors are reported before any service is looked
      at, whatever the key and value. */
  lemma RegistryFileErrors(file: string, key: string, value: string, env: Env)
    ensures env.registry(file).Unreadable? ==> GetValue(Registry(file, key, value), env) == Failure(FilesystemError)
    ensures env.registry(file).Malformed? ==> GetValue(Registry(file, key, value), env) == Failure(MalformedService)
    ensures GetValue(Registry(file, key, value), env).Failure?
      <==> !env.registry(file).Parsed? || FindService(env.registry(file).services, key, value).None?
  {
  }

  /** Resolution depends on nothing but its own collaborator's answer: a
      static value on nothing, a registry lookup only on the contents of its
      file, an mDNS lookup only on the answer for its service and host. */
  lemma ResolutionDeterministic(p: Parameter, env1: Env, env2: Env)
    requires p.Mdns? ==> env1.mdns(p.service, p.host) == env2.mdns(p.service, p.host)
    requires p.Registry? ==> env1.registry(p.file) == env2.registry(p.file)
    ensures GetValue(p, env1) == GetValue(p, env2)
  {
  }
}
