/** The conditions under which the heartbeat task exists, and the schedule
    it is registered with.

    The task is declared with three activation requirements, all of which
    must hold: a property that must equal "true" (and counts as "true" when
    absent), a property that must merely be present, and a bean type that
    must be registered. The environment they are evaluated against is the
    configuration (a map from keys to strings) and the set of registered
    bean types. */
module Activation {
  import opened Wrappers
  import opened Heartbeat
  import opened HeartbeatTrace

  type Properties = map<string, string>

  /** What activation requirements are evaluated against: the configured
      properties and the types for which a bean is available, supertypes
      included (so a concrete server bean makes `EmbeddedServerBean`
      available). */
  datatype Environment = Environment(properties: Properties, beans: set<string>)

  /** One declared activation requirement. */
  datatype Requirement =
    | PropertyEquals(key: string, expected: string, default: string)
    | PropertyPresent(key: string)
    | BeanPresent(beanType: string)

  const EnabledKey: string := "particle.heartbeat.enabled"
  const EmbeddedServerBean: string := "org.particleframework.runtime.server.EmbeddedServer"
  const IntervalKey: string := "particle.heartbeat.interval"
  const InitialDelayKey: string := "particle.heartbeat.initialDelay"
  const DefaultInterval: string := "15s"
  const DefaultInitialDelay: string := "5s"

  /** The value configured under `key`, if any. */
  function Lookup(properties: Properties, key: string): (r: Option<string>)
    ensures r.Some? <==> key in properties
    ensures r.Some? ==> r.value == properties[key]
  {
    if key in properties then Some(properties[key]) else None
  }

  /** The value configured under `key`, or `default` when it is absent. */
  function PropertyOr(properties: Properties, key: string, default: string): (r: string)
    ensures key in properties ==> r == properties[key]
    ensures key !in properties ==> r == default
  {
    Lookup(properties, key).GetOr(default)
  }

  /** Whether a single requirement is met by `env`. */
  predicate Holds(req: Requirement, env: Environment)
  {
    match req
    case PropertyEquals(key, expected, default) => PropertyOr(env.properties, key, default) == expected
    case PropertyPresent(key) => key in env.properties
    case BeanPresent(beanType) => beanType in env.beans
  }

  /** Whether every requirement of `reqs` is met, checked first to last and
      stopping at the first that fails. */
  function AllHold(reqs: seq<Requirement>, env: Environment): (r: bool)
    ensures r <==> forall i | 0 <= i < |reqs| :: Holds(reqs[i], env)
    decreases |reqs|
  {
    if reqs == [] then true
    else if !Holds(reqs[0], env) then false
    else AllHold(reqs[1..], env)
  }

  /** The heartbeat task's three declared requirements. The application-name
      key is a parameter: its literal value is defined outside this model. */
  function HeartbeatRequirements(applicationNameKey: string): (reqs: seq<Requirement>)
    ensures forall env :: AllHold(reqs, env) <==>
              && PropertyOr(env.properties, EnabledKey, "true") == "true"
              && applicationNameKey in env.properties
              && EmbeddedServerBean in env.beans
  {
    var reqs := [ PropertyEquals(EnabledKey, "true", "true"),
                  PropertyPresent(applicationNameKey),
                  BeanPresent(EmbeddedServerBean) ];
    assert forall env :: AllHold(reqs, env) <==> Holds(reqs[0], env) && Holds(reqs[1], env) && Holds(reqs[2], env) by {
      forall env
        ensures AllHold(reqs, env) <==> Holds(reqs[0], env) && Holds(reqs[1], env) && Holds(reqs[2], env)
      {
        assert AllHold(reqs, env) <==> forall i | 0 <= i < 3 :: Holds(reqs[i], env);
      }
    }
    reqs
  }

  /** Whether the heartbeat task is created in `env`. */
  function IsActive(env: Environment, applicationNameKey: string): bool
  {
    AllHold(HeartbeatRequirements(applicationNameKey), env)
  }

  /** The task is active exactly when the enabled flag is "true" or absent,
      the application name is configured, and an embedded server bean is
      registered. */
  lemma ActivationIff(env: Environment, applicationNameKey: string)
    ensures IsActive(env, applicationNameKey) <==>
            && (EnabledKey !in env.properties || env.properties[EnabledKey] == "true")
            && applicationNameKey in env.properties
            && EmbeddedServerBean in env.beans
  {
  }

  /** The requirements are evaluated independently of their order: any
      permutation of them yields the same verdict. */
  lemma AllHoldOrderIndependent(reqs: seq<Requirement>, other: seq<Requirement>, env: Environment)
    requires multiset(reqs) == multiset(other)
    ensures AllHold(reqs, env) == AllHold(other, env)
  {
    forall i | 0 <= i < |reqs|
      ensures reqs[i] in other
    {
      assert reqs[i] in multiset(reqs);
    }
    forall i | 0 <= i < |other|
      ensures other[i] in reqs
    {
      assert other[i] in multiset(other);
    }
  }

  /** The schedule the task's `pulsate` is registered with: the delay between
      firings and the delay before the first one, as configuration strings. */
  datatype ScheduleSpec = ScheduleSpec(fixedDelay: string, initialDelay: string)

  /** The schedule resolved from the configuration, falling back to the
      declared defaults for any key that is absent. */
  function ScheduleOf(properties: Properties): (s: ScheduleSpec)
    ensures IntervalKey !in properties ==> s.fixedDelay == "15s"
    ensures InitialDelayKey !in properties ==> s.initialDelay == "5s"
    ensures IntervalKey in properties ==> s.fixedDelay == properties[IntervalKey]
    ensures InitialDelayKey in properties ==> s.initialDelay == properties[InitialDelayKey]
  {
    ScheduleSpec(PropertyOr(properties, IntervalKey, DefaultInterval),
                 PropertyOr(properties, InitialDelayKey, DefaultInitialDelay))
  }

  /** The heartbeats published over `trace` in `env`: none when the task is
      not created, the task's own publications otherwise. */
  function Deploy<I, H>(env: Environment, applicationNameKey: string, trace: seq<Input<I, H>>)
    : (r: seq<HeartbeatEvent<I, H>>)
    ensures r == if IsActive(env, applicationNameKey) then Expected(None, trace) else []
    ensures |r| == if IsActive(env, applicationNameKey) then TicksAfterFirstStart(trace) else 0
  {
    RunPublishesExpected(NewTask<I>(), trace);
    HeartbeatCount(trace);
    if IsActive(env, applicationNameKey) then Run(NewTask(), trace).published else []
  }

  /** When heartbeats are disabled, or the application name is missing, or no
      embedded server is registered, no heartbeat is ever published,
      whatever events and ticks arrive. */
  lemma InactiveNeverPublishes<I, H>(env: Environment, applicationNameKey: string, trace: seq<Input<I, H>>)
    requires || PropertyOr(env.properties, EnabledKey, "true") != "true"
             || applicationNameKey !in env.properties
             || EmbeddedServerBean !in env.beans
    ensures Deploy(env, applicationNameKey, trace) == []
  {
  }
}
