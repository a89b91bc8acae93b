/** `hl7_listener/messaging/settings.py`: the settings of each sink, with
    their defaults, and the map from the configured queue type to the
    settings class and messager class, indexed once at import. */
module MessagingSettings {
  import opened Results

  /** `QueueType` (hl7_listener/settings.py); OUTBOUND_QUEUE_TYPE defaults to NATS. */
  datatype QueueType = NATS | CLOUD

  const DefaultQueueType: QueueType := NATS

  const DefaultOutgoingSubject: string := "HL7.MESSAGES"

  datatype NatsSettings = NatsSettings(outgoingSubject: string, serverUrl: string, pilotMode: bool)

  datatype CloudMessagingSettings = CloudMessagingSettings(outboundQueueName: string, msgNamespace: string)

  datatype Settings = Nats(nats: NatsSettings) | Cloud(cloud: CloudMessagingSettings)

  /** The values the environment supplies for the settings fields, already
      converted to the field types; None where the variable is unset. */
  datatype Environment = Environment(
    natsOutgoingSubject: Option<string>,
    natsServerUrl: Option<string>,
    pilotMode: Option<bool>,
    outboundQueueName: Option<string>,
    msgNamespace: Option<string>)

  /** pydantic's ValidationError: the required fields that have no value,
      in declaration order. */
  datatype ValidationError = MissingFields(names: seq<string>)

  /** `NATSSettings()`, lines 20-23: NATS_SERVER_URL is required; the subject
      defaults to "HL7.MESSAGES" and PILOT_MODE to False. */
  function LoadNatsSettings(env: Environment): (r: Result<NatsSettings, ValidationError>)
    ensures r.Failure? <==> env.natsServerUrl.None?
    ensures r.Failure? ==> r.error == MissingFields(["NATS_SERVER_URL"])
    ensures r.Success? ==> r.value.serverUrl == env.natsServerUrl.value
    ensures r.Success? && env.natsOutgoingSubject.None? ==> r.value.outgoingSubject == "HL7.MESSAGES"
    ensures r.Success? && env.natsOutgoingSubject.Some? ==> r.value.outgoingSubject == env.natsOutgoingSubject.value
    ensures r.Success? ==> (r.value.pilotMode <==> env.pilotMode == Some(true))
  {
    if env.natsServerUrl.None? then Failure(MissingFields(["NATS_SERVER_URL"]))
    else
      var subject := if env.natsOutgoingSubject.Some? then env.natsOutgoingSubject.value else DefaultOutgoingSubject;
      var pilot := if env.pilotMode.Some? then env.pilotMode.value else false;
      Success(NatsSettings(subject, env.natsServerUrl.value, pilot))
  }

  /** `CloudMessagingSettings()`, lines 15-17: both fields are required. */
  function LoadCloudSettings(env: Environment): (r: Result<CloudMessagingSettings, ValidationError>)
    ensures r.Success? <==> env.outboundQueueName.Some? && env.msgNamespace.Some?
    ensures r.Success? ==>
              r.value == CloudMessagingSettings(env.outboundQueueName.value, env.msgNamespace.value)
    ensures r.Failure? ==>
              && ("OUTBOUND_QUEUE_NAME" in r.error.names <==> env.outboundQueueName.None?)
              && ("MSG_NAMESPACE" in r.error.names <==> env.msgNamespace.None?)
  {
    if env.outboundQueueName.Some? && env.msgNamespace.Some? then
      Success(CloudMessagingSettings(env.outboundQueueName.value, env.msgNamespace.value))
    else
      Failure(MissingFields(
        (if env.outboundQueueName.None? then ["OUTBOUND_QUEUE_NAME"] else [])
        + (if env.msgNamespace.None? then ["MSG_NAMESPACE"] else [])))
  }

  datatype SettingsClass = NATSSettingsClass | CloudMessagingSettingsClass

  datatype MessagerClass = NATSMessagerClass | CloudMessagerClass

  datatype ConfigEntry = ConfigEntry(settings: SettingsClass, messager: MessagerClass)

  /** MESSAGER_CONFIG_MAP, lines 26-29. */
  const MessagerConfigMap: map<QueueType, ConfigEntry> :=
    map[NATS := ConfigEntry(NATSSettingsClass, NATSMessagerClass),
        CLOUD := ConfigEntry(CloudMessagingSettingsClass, CloudMessagerClass)]

  /** Instantiating a settings class reads its fields from the environment. */
  function Instantiate(cls: SettingsClass, env: Environment): Result<Settings, ValidationError> {
    match cls
    case NATSSettingsClass =>
      (match LoadNatsSettings(env)
       case Success(s) => Success(Nats(s))
       case Failure(e) => Failure(e))
    case CloudMessagingSettingsClass =>
      (match LoadCloudSettings(env)
       case Success(s) => Success(Cloud(s))
       case Failure(e) => Failure(e))
  }

  /** Lines 32-33: `settings` and `messager` taken from the one entry keyed by
      OUTBOUND_QUEUE_TYPE. Every queue type has an entry, so the lookup never
      raises KeyError; instantiating the settings may raise ValidationError,
      and then no messager is created. */
  function Select(queueType: QueueType, env: Environment): (r: Result<(Settings, MessagerClass), ValidationError>)
    ensures queueType == NATS ==>
              (r.Success? <==> LoadNatsSettings(env).Success?)
              && (r.Success? ==> r.value == (Nats(LoadNatsSettings(env).value), NATSMessagerClass))
    ensures queueType == CLOUD ==>
              (r.Success? <==> LoadCloudSettings(env).Success?)
              && (r.Success? ==> r.value == (Cloud(LoadCloudSettings(env).value), CloudMessagerClass))
    // the settings and the messager always belong to the same sink
    ensures r.Success? ==> (r.value.0.Nats? <==> r.value.1 == NATSMessagerClass)
  {
    ConfigMapIsTotal();
    assert queueType.NATS? || queueType.CLOUD?;
    var entry := MessagerConfigMap[queueType];
    match Instantiate(entry.settings, env)
    case Success(s) => Success((s, entry.messager))
    case Failure(e) => Failure(e)
  }

  /** With OUTBOUND_QUEUE_TYPE left at its default the listener forwards over
      NATS, and starts exactly when NATS_SERVER_URL is set. */
  lemma DefaultSelectsNats(env: Environment)
    ensures Select(DefaultQueueType, env).Success? <==> env.natsServerUrl.Some?
    ensures Select(DefaultQueueType, env).Success? ==>
              Select(DefaultQueueType, env).value.1 == NATSMessagerClass
  {
  }

  /** The map has exactly one entry per queue type, and distinct queue types
      select distinct settings and messager classes. */
  lemma ConfigMapIsTotal()
    ensures MessagerConfigMap.Keys == {NATS, CLOUD}
    ensures MessagerConfigMap[NATS].settings != MessagerConfigMap[CLOUD].settings
    ensures MessagerConfigMap[NATS].messager != MessagerConfigMap[CLOUD].messager
  {
  }
}
