/**
 * Choosing and configuring the endpoint a bucket notification is pushed to
 * (rgw/driver/rados/rgw_pubsub_push.cc): the schema of the endpoint URL
 * picks HTTP, AMQP or Kafka, and the endpoint arguments give each its
 * acknowledgement level and TLS settings. Every invalid argument throws a
 * configuration error, modelled as the error of a Result.
 */
module PubSubPush {
  import opened Wrappers
  import opened Strings

  /** RGWHTTPArgs: the endpoint arguments by name. */
  type Args = map<string, string>

  /** Which optional endpoints the gateway was built with. */
  datatype Build = Build(withAmqp: bool, withKafka: bool)

  /** The configuration errors the endpoints throw, by cause. */
  datatype ConfigError =
    | InvalidBoolean(name: string)
    | InvalidHttpAckLevel(value: string)
    | MissingAmqpExchange
    | InvalidAmqpAckLevel(value: string)
    | InvalidKafkaAckLevel(value: string)
    | InvalidVerifySsl(value: string)
    | ConnectionFailed(endpoint: string)
    | AmqpV10NotSupported
    | UnknownAmqpVersion(version: string)
    | UnknownSchema(endpoint: string)

  // ---------------------------------------------------------------------
  // Schemas

  datatype Schema = NoSchema | UnknownSchemaKind | Webhook | Amqp | Kafka

  /** The schema a URL scheme names, given what the gateway was built with. */
  function SchemaOfScheme(scheme: string, build: Build): (r: Schema)
    ensures r != NoSchema
    ensures r == Webhook <==> scheme == "http" || scheme == "https"
    ensures r == Amqp ==> build.withAmqp
    ensures r == Kafka ==> build.withKafka
  {
    if scheme == "http" || scheme == "https" then Webhook
    else if build.withAmqp && (scheme == "amqp" || scheme == "amqps") then Amqp
    else if build.withKafka && scheme == "kafka" then Kafka
    else UnknownSchemaKind
  }

  /**
   * get_schema: no schema for an empty endpoint, unknown without a colon,
   * otherwise what the text before the first colon names.
   */
  function GetSchema(endpoint: string, build: Build): (r: Schema)
    ensures r == NoSchema <==> endpoint == ""
    ensures endpoint != "" && ':' !in endpoint ==> r == UnknownSchemaKind
  {
    if endpoint == "" then NoSchema
    else
      match Find(endpoint, ':')
      case None => UnknownSchemaKind
      case Some(pos) => SchemaOfScheme(endpoint[..pos], build)
  }

  /** The schema of "scheme:rest" is the one the scheme names, whatever follows. */
  lemma SchemaOfUrl(scheme: string, rest: string, build: Build)
    requires ':' !in scheme
    ensures GetSchema(scheme + ":" + rest, build) == SchemaOfScheme(scheme, build)
  {
    var url := scheme + ":" + rest;
    FindAfterPrefix(scheme, rest);
    assert url[..|scheme|] == scheme;
  }

  lemma FindAfterPrefix(scheme: string, rest: string)
    requires ':' !in scheme
    ensures Find(scheme + ":" + rest, ':') == Some(|scheme|)
  {
    var url := scheme + ":" + rest;
    assert url[..|scheme|] == scheme;
    FindIsFirst(url, ':', |scheme|);
  }

  // ---------------------------------------------------------------------
  // Argument parsing

  /**
   * get_bool: the default when the argument is absent, its boolean value
   * when it parses, a configuration error otherwise. How RGWHTTPArgs parses
   * a boolean is the `parse` parameter.
   */
  function GetBool(args: Args, name: string, default: bool, parse: string -> Option<bool>): (r: Result<bool, ConfigError>)
    ensures name !in args ==> r == Ok(default)
    ensures name in args ==> (r.Ok? <==> parse(args[name]).Some?)
    ensures r.Err? ==> r.error == InvalidBoolean(name)
  {
    if name !in args then Ok(default)
    else
      match parse(args[name])
      case None => Err(InvalidBoolean(name))
      case Some(b) => Ok(b)
  }

  /**
   * atoi: leading white space, an optional sign, then as many digits as
   * there are; 0 when there are none.
   */
  function Atoi(s: string): (r: int)
    ensures r < 0 ==> var t := SkipSpaces(s); |t| > 0 && t[0] == '-'
    ensures (forall i :: 0 <= i < |s| ==> !IsDigit(s[i])) ==> r == 0
  {
    var t := SkipSpaces(s);
    if |t| > 0 && (t[0] == '-' || t[0] == '+') then
      var v: int := DigitsValue(LeadingDigits(t[1..]));
      if t[0] == '-' then -v else v
    else DigitsValue(LeadingDigits(t))
  }

  /** atoi reads back every number written in decimal. */
  lemma AtoiOfDecimalString(n: nat)
    ensures Atoi(DecimalString(n)) == n
  {
    var s := DecimalString(n);
    assert IsDigit(s[0]);
    assert !IsSpace(s[0]) && s[0] != '-' && s[0] != '+';
    assert SkipSpaces(s) == s;
    LeadingDigitsOfDigits(s);
    DigitsValueOfDecimalString(n);
  }

  /** RGWPubSubHTTPEndpoint's ack_level_t values, which are HTTP status codes otherwise. */
  const ACK_LEVEL_ANY: nat := 0
  const ACK_LEVEL_NON_ERROR: nat := 1

  /**
   * http-ack-level: "any" (the default) is 0, "non-error" is 1, anything
   * else is read with atoi into an unsigned int and must be a status code
   * from 100 up to 599.
   */
  function HttpAckLevel(args: Args): (r: Result<nat, ConfigError>)
    ensures "http-ack-level" !in args ==> r == Ok(ACK_LEVEL_ANY)
    ensures "http-ack-level" in args && args["http-ack-level"] == "any" ==> r == Ok(ACK_LEVEL_ANY)
    ensures "http-ack-level" in args && args["http-ack-level"] == "non-error" ==> r == Ok(ACK_LEVEL_NON_ERROR)
    ensures "http-ack-level" in args && args["http-ack-level"] != "any" && args["http-ack-level"] != "non-error" ==>
              var n := Atoi(args["http-ack-level"]);
              r == if 100 <= n < 600 then Ok(n as nat) else Err(InvalidHttpAckLevel(args["http-ack-level"]))
    ensures r.Ok? ==> r.value == ACK_LEVEL_ANY || r.value == ACK_LEVEL_NON_ERROR || 100 <= r.value < 600
    ensures r.Err? ==> "http-ack-level" in args && r.error == InvalidHttpAckLevel(args["http-ack-level"])
  {
    if "http-ack-level" !in args || args["http-ack-level"] == "any" then Ok(ACK_LEVEL_ANY)
    else if args["http-ack-level"] == "non-error" then Ok(ACK_LEVEL_NON_ERROR)
    else
      var n := Atoi(args["http-ack-level"]);
      // a negative value wraps around in the unsigned ack_level_t, far above 600
      if n < 100 || n >= 600 then Err(InvalidHttpAckLevel(args["http-ack-level"]))
      else Ok(n)
  }

  /** Every status code written in decimal is accepted as itself. */
  lemma HttpAckLevelOfStatusCode(args: Args, code: nat)
    requires 100 <= code < 600
    requires "http-ack-level" in args && args["http-ack-level"] == DecimalString(code)
    ensures HttpAckLevel(args) == Ok(code)
  {
    AtoiOfDecimalString(code);
    assert DecimalString(code)[0] != 'a' && DecimalString(code)[0] != 'n';
  }

  datatype AmqpAck = AmqpNone | AmqpBroker | AmqpRoutable

  /** amqp-ack-level: "broker" (the default), "none" or "routable". */
  function AmqpAckLevel(args: Args): (r: Result<AmqpAck, ConfigError>)
    ensures r == Ok(AmqpBroker) <==> "amqp-ack-level" !in args || args["amqp-ack-level"] == "broker"
    ensures r == Ok(AmqpNone) <==> "amqp-ack-level" in args && args["amqp-ack-level"] == "none"
    ensures r == Ok(AmqpRoutable) <==> "amqp-ack-level" in args && args["amqp-ack-level"] == "routable"
    ensures r.Err? ==> "amqp-ack-level" in args && r.error == InvalidAmqpAckLevel(args["amqp-ack-level"])
  {
    if "amqp-ack-level" !in args || args["amqp-ack-level"] == "broker" then Ok(AmqpBroker)
    else if args["amqp-ack-level"] == "none" then Ok(AmqpNone)
    else if args["amqp-ack-level"] == "routable" then Ok(AmqpRoutable)
    else Err(InvalidAmqpAckLevel(args["amqp-ack-level"]))
  }

  datatype KafkaAck = KafkaNone | KafkaBroker

  /** kafka-ack-level: "broker" (the default) or "none". */
  function KafkaAckLevel(args: Args): (r: Result<KafkaAck, ConfigError>)
    ensures r == Ok(KafkaBroker) <==> "kafka-ack-level" !in args || args["kafka-ack-level"] == "broker"
    ensures r == Ok(KafkaNone) <==> "kafka-ack-level" in args && args["kafka-ack-level"] == "none"
    ensures r.Err? ==> "kafka-ack-level" in args && r.error == InvalidKafkaAckLevel(args["kafka-ack-level"])
  {
    if "kafka-ack-level" !in args || args["kafka-ack-level"] == "broker" then Ok(KafkaBroker)
    else if args["kafka-ack-level"] == "none" then Ok(KafkaNone)
    else Err(InvalidKafkaAckLevel(args["kafka-ack-level"]))
  }

  function LowerChar(c: char): (r: char)
    ensures 'A' <= c <= 'Z' ==> 'a' <= r <= 'z'
    ensures !('A' <= c <= 'Z') ==> r == c
  {
    if 'A' <= c <= 'Z' then c - 'A' + 'a' else c
  }

  /** boost::algorithm::to_lower on ASCII letters. */
  function ToLower(s: string): (r: string)
    ensures |r| == |s| && forall i :: 0 <= i < |s| ==> r[i] == LowerChar(s[i])
  {
    if |s| == 0 then [] else [LowerChar(s[0])] + ToLower(s[1..])
  }

  /** Lower-casing twice is lower-casing once. */
  lemma ToLowerIdempotent(s: string)
    ensures ToLower(ToLower(s)) == ToLower(s)
  {
    var t := ToLower(ToLower(s));
    assert forall i :: 0 <= i < |s| ==> t[i] == ToLower(s)[i];
  }

  /** The AMQP verify-ssl argument: true when absent, else "true" or "false" in any case. */
  function AmqpVerifySsl(args: Args): (r: Result<bool, ConfigError>)
    ensures "verify-ssl" !in args ==> r == Ok(true)
    ensures "verify-ssl" in args ==>
              (r == Ok(true) <==> ToLower(args["verify-ssl"]) == "true")
              && (r == Ok(false) <==> ToLower(args["verify-ssl"]) == "false")
    ensures r.Err? ==> "verify-ssl" in args && r.error == InvalidVerifySsl(ToLower(args["verify-ssl"]))
  {
    if "verify-ssl" !in args then Ok(true)
    else
      var v := ToLower(args["verify-ssl"]);
      if v == "true" then Ok(true)
      else if v == "false" then Ok(false)
      else Err(InvalidVerifySsl(v))
  }

  /** The AMQP verify-ssl argument is read without regard to case. */
  lemma AmqpVerifySslIgnoresCase(args: Args)
    requires "verify-ssl" in args
    ensures AmqpVerifySsl(args["verify-ssl" := ToLower(args["verify-ssl"])]) == AmqpVerifySsl(args)
  {
    ToLowerIdempotent(args["verify-ssl"]);
  }

  // ---------------------------------------------------------------------
  // Endpoints

  /** The configuration each kind of endpoint keeps. */
  datatype Endpoint =
    | HttpEndpoint(url: string, verifySsl: bool, cloudevents: bool, httpAck: nat)
    | AmqpEndpoint(url: string, topic: string, exchange: string, amqpAck: AmqpAck, amqpVerifySsl: bool)
    | KafkaEndpoint(topic: string, kafkaAck: KafkaAck, useSsl: bool, kafkaVerifySsl: bool)

  /**
   * RGWPubSubHTTPEndpoint's constructor: verify-ssl (default true), then
   * cloudevents (default false), then the ack level.
   */
  function MakeHttpEndpoint(url: string, args: Args, parse: string -> Option<bool>): (r: Result<Endpoint, ConfigError>)
    ensures r.Ok? <==> (GetBool(args, "verify-ssl", true, parse).Ok?
                        && GetBool(args, "cloudevents", false, parse).Ok? && HttpAckLevel(args).Ok?)
    ensures r.Ok? ==> r.value == HttpEndpoint(url, GetBool(args, "verify-ssl", true, parse).value,
                                              GetBool(args, "cloudevents", false, parse).value,
                                              HttpAckLevel(args).value)
  {
    var verify := GetBool(args, "verify-ssl", true, parse);
    var cloudevents := GetBool(args, "cloudevents", false, parse);
    var ack := HttpAckLevel(args);
    if verify.Err? then Err(verify.error)
    else if cloudevents.Err? then Err(cloudevents.error)
    else if ack.Err? then Err(ack.error)
    else Ok(HttpEndpoint(url, verify.value, cloudevents.value, ack.value))
  }

  /**
   * RGWPubSubAMQPEndpoint's constructor: amqp-exchange is required, then
   * the ack level, then verify-ssl, then the connection (`connects` says
   * whether amqp::connect succeeds).
   */
  function MakeAmqpEndpoint(url: string, topic: string, args: Args, connects: bool): (r: Result<Endpoint, ConfigError>)
    ensures "amqp-exchange" !in args ==> r == Err(MissingAmqpExchange)
    ensures r.Ok? <==> "amqp-exchange" in args && AmqpAckLevel(args).Ok? && AmqpVerifySsl(args).Ok? && connects
    ensures r.Ok? ==> r.value == AmqpEndpoint(url, topic, args["amqp-exchange"], AmqpAckLevel(args).value,
                                              AmqpVerifySsl(args).value)
  {
    if "amqp-exchange" !in args then Err(MissingAmqpExchange)
    else
      var ack := AmqpAckLevel(args);
      var verify := AmqpVerifySsl(args);
      if ack.Err? then Err(ack.error)
      else if verify.Err? then Err(verify.error)
      else if !connects then Err(ConnectionFailed(url))
      else Ok(AmqpEndpoint(url, topic, args["amqp-exchange"], ack.value, verify.value))
  }

  /**
   * RGWPubSubKafkaEndpoint's constructor: the ack level, then use-ssl
   * (default false) and verify-ssl (default true), then the connection.
   */
  function MakeKafkaEndpoint(url: string, topic: string, args: Args, parse: string -> Option<bool>, connects: bool)
    : (r: Result<Endpoint, ConfigError>)
    ensures r.Ok? <==> (KafkaAckLevel(args).Ok? && GetBool(args, "use-ssl", false, parse).Ok?
                        && GetBool(args, "verify-ssl", true, parse).Ok? && connects)
    ensures r.Ok? ==> r.value == KafkaEndpoint(topic, KafkaAckLevel(args).value,
                                               GetBool(args, "use-ssl", false, parse).value,
                                               GetBool(args, "verify-ssl", true, parse).value)
  {
    var ack := KafkaAckLevel(args);
    var useSsl := GetBool(args, "use-ssl", false, parse);
    var verify := GetBool(args, "verify-ssl", true, parse);
    if ack.Err? then Err(ack.error)
    else if useSsl.Err? then Err(useSsl.error)
    else if verify.Err? then Err(verify.error)
    else if !connects then Err(ConnectionFailed(url))
    else Ok(KafkaEndpoint(topic, ack.value, useSsl.value, verify.value))
  }

  const AMQP_0_9_1: string := "0-9-1"
  const AMQP_1_0: string := "1-0"

  /**
   * RGWPubSubEndpoint::create: the schema picks the endpoint; AMQP only in
   * version 0-9-1 (the default); any other schema is an error.
   */
  function Create(url: string, topic: string, args: Args, build: Build, parse: string -> Option<bool>, connects: bool)
    : (r: Result<Endpoint, ConfigError>)
    ensures GetSchema(url, build) == Webhook ==> r == MakeHttpEndpoint(url, args, parse)
    ensures GetSchema(url, build) == Kafka ==> r == MakeKafkaEndpoint(url, topic, args, parse, connects)
    ensures GetSchema(url, build) in {NoSchema, UnknownSchemaKind} ==> r == Err(UnknownSchema(url))
    ensures GetSchema(url, build) == Amqp ==>
              r == (var version := if "amqp-version" in args then args["amqp-version"] else AMQP_0_9_1;
                    if version == AMQP_0_9_1 then MakeAmqpEndpoint(url, topic, args, connects)
                    else if version == AMQP_1_0 then Err(AmqpV10NotSupported)
                    else Err(UnknownAmqpVersion(version)))
    ensures r.Ok? ==> (r.value.HttpEndpoint? <==> GetSchema(url, build) == Webhook)
                      && (r.value.AmqpEndpoint? <==> GetSchema(url, build) == Amqp)
                      && (r.value.KafkaEndpoint? <==> GetSchema(url, build) == Kafka)
  {
    match GetSchema(url, build)
    case Webhook => MakeHttpEndpoint(url, args, parse)
    case Amqp =>
      var version := if "amqp-version" in args then args["amqp-version"] else AMQP_0_9_1;
      if version == AMQP_0_9_1 then MakeAmqpEndpoint(url, topic, args, connects)
      else if version == AMQP_1_0 then Err(AmqpV10NotSupported)
      else Err(UnknownAmqpVersion(version))
    case Kafka => MakeKafkaEndpoint(url, topic, args, parse, connects)
    case _ => Err(UnknownSchema(url))
  }

  /** An endpoint is only ever made for a URL whose scheme names a built-in schema. */
  lemma CreatedEndpointHasKnownScheme(url: string, topic: string, args: Args, build: Build,
                                      parse: string -> Option<bool>, connects: bool)
    requires Create(url, topic, args, build, parse, connects).Ok?
    ensures ':' in url
    ensures var scheme := url[..Find(url, ':').value];
            scheme in {"http", "https"} || (build.withAmqp && scheme in {"amqp", "amqps"})
            || (build.withKafka && scheme == "kafka")
  {
  }
}
