# Heartbeat task and primitive configuration record

A Dafny model of the heartbeat task of the Particle runtime and of a
configuration-properties test fixture from the dependency-injection tests:

- **`HeartbeatTask`**, a singleton that sends a periodic heartbeat while the
  server is active. It holds one slot for the running `ServiceInstance`,
  initially empty. A `ServiceStartedEvent` overwrites the slot with the
  event's source. Each scheduled `pulsate` tick publishes one
  `HeartbeatEvent(instance, currentHealthStatus)` if the slot is filled and
  does nothing otherwise. The task exists only when three declared
  requirements hold: `particle.heartbeat.enabled` is `"true"` (and counts as
  `"true"` when absent), the application-name property is present, and an
  `EmbeddedServer` bean is available. Its schedule uses the
  `particle.heartbeat.interval` and `particle.heartbeat.initialDelay`
  properties, defaulting to `15s` and `5s`.
- **`MyPrimitiveConfig`**, a test fixture for `@ConfigurationProperties`
  binding: a record with two `int` properties, `port` (Java default 0) and
  `primitiveDefaultValue` (initialised to 9999), each with a getter and a
  setter.

The model is functional. The task state is an immutable datatype
(`Heartbeat.Task`, holding an `Option` slot). Inputs are a datatype of
service-started events and ticks, where each tick carries the health status
current at that tick. Every step returns the new state together with the
sequence of heartbeats it published. `Heartbeat.Run` folds a whole trace of
inputs. `HeartbeatTrace` gives independent history-based definitions:
`Latest` is the most recent started instance of a prefix, `Expected` is
what each tick ought to publish, and `TicksAfterFirstStart` counts ticks.
It proves that the fold agrees with them. `Activation` evaluates the
declared requirements against an environment made of a property map and the
set of types for which a bean is available, supertypes included.
`PrimitiveConfig` models the record, with both fields as 32-bit `Int32`
values.

Files: `wrappers.dfy` (Option), `heartbeat.dfy` (task state machine),
`heartbeat_trace.dfy` (trace properties), `activation.dfy` (requirements,
schedule defaults, deployment), `primitive_config.dfy` (the record).

## Model

| member | source | states |
|---|---|---|
| Heartbeat.NewTask | runtime/src/main/java/org/particleframework/health/HeartbeatTask.java:44 | a newly built task's slot holds no instance |
| Heartbeat.Pulsate | runtime/src/main/java/org/particleframework/health/HeartbeatTask.java:57-62 | a tick leaves the task unchanged and publishes at most one heartbeat. It publishes exactly one iff an instance is captured, and that heartbeat pairs the captured instance with the tick's health status |
| Heartbeat.OnApplicationEvent | runtime/src/main/java/org/particleframework/health/HeartbeatTask.java:64-67 | handling a service-started event makes the slot hold the event's source, whatever it held before |
| Heartbeat.Step | runtime/src/main/java/org/particleframework/health/HeartbeatTask.java:57-67 | a service-started event fills the slot with its source and publishes nothing; a tick behaves exactly as `pulsate` |
| Heartbeat.RepeatedStartIsIdempotent | runtime/src/main/java/org/particleframework/health/HeartbeatTask.java:65-67 | delivering the same instance twice in a row has the same effect as delivering it once |
| Heartbeat.CapturedTaskPulsesEveryTick | runtime/src/main/java/org/particleframework/health/HeartbeatTask.java:57-62 | once an instance is captured, n ticks publish n heartbeats, one per tick, in order, each for that instance and that tick's status; the slot stays as it was |
| HeartbeatTrace.RedundantStartChangesNothing | runtime/src/main/java/org/particleframework/health/HeartbeatTask.java:57-67 | a service-started event for the instance the slot already holds, with any ticks and events before and after it, leaves the final state and the published heartbeats exactly as without it |
| HeartbeatTrace.RunAppend | runtime/src/main/java/org/particleframework/health/HeartbeatTask.java:57-67 | processing two traces in sequence equals processing their concatenation: the state carries over and the publications concatenate |
| HeartbeatTrace.RunSlotIsLatest | runtime/src/main/java/org/particleframework/health/HeartbeatTask.java:44-67 | after any trace the slot holds the instance of the most recent service-started event, or its initial content if the trace holds none (latest wins) |
| HeartbeatTrace.RunPublishesExpected | runtime/src/main/java/org/particleframework/health/HeartbeatTask.java:57-67 | the published heartbeats are exactly, and in order, one per tick that has an earlier service-started event, each carrying the latest earlier instance and the tick's status |
| HeartbeatTrace.HeartbeatProvenance | runtime/src/main/java/org/particleframework/health/HeartbeatTask.java:57-67 | each heartbeat of a fresh task stems from a tick of the trace, carries that tick's status and the instance of the most recent service-started event before that tick |
| HeartbeatTrace.HeartbeatCount | runtime/src/main/java/org/particleframework/health/HeartbeatTask.java:57-67 | a fresh task publishes as many heartbeats as there are ticks after the first service-started event |
| HeartbeatTrace.RunCountFrom | runtime/src/main/java/org/particleframework/health/HeartbeatTask.java:57-67 | from a task with a filled slot every tick publishes once; from an empty slot only the ticks after the first service-started event do |
| HeartbeatTrace.NoHeartbeatBeforeStart | runtime/src/main/java/org/particleframework/health/HeartbeatTask.java:44-61 | a fresh task fed only ticks publishes nothing and its slot stays empty |
| Activation.PropertyOr | runtime/src/main/java/org/particleframework/health/HeartbeatTask.java:39 | a property's configured value is used when present and the declared default otherwise |
| Activation.AllHold | runtime/src/main/java/org/particleframework/health/HeartbeatTask.java:39-41 | a set of requirements is met iff every one of them is met |
| Activation.HeartbeatRequirements | runtime/src/main/java/org/particleframework/health/HeartbeatTask.java:39-41 | the declared requirement list is met in an environment iff the enabled flag (default `"true"`) is `"true"`, the application-name key is configured, and an `EmbeddedServer` bean is available |
| Activation.ActivationIff | runtime/src/main/java/org/particleframework/health/HeartbeatTask.java:39-41 | the task is active iff the enabled flag is absent or `"true"`, the application name is configured, and an `EmbeddedServer` bean is registered |
| Activation.AllHoldOrderIndependent | runtime/src/main/java/org/particleframework/health/HeartbeatTask.java:39-41 | the order in which requirements are listed does not change the verdict |
| Activation.ScheduleOf | runtime/src/main/java/org/particleframework/health/HeartbeatTask.java:56 | the fixed delay is `particle.heartbeat.interval` or `15s` when absent; the initial delay is `particle.heartbeat.initialDelay` or `5s` when absent |
| Activation.Deploy | runtime/src/main/java/org/particleframework/health/HeartbeatTask.java:38-42 | the singleton exists only when its requirements hold: an active deployment publishes exactly the history-defined heartbeats (as many as there are ticks after the first start), an inactive one publishes none |
| Activation.InactiveNeverPublishes | runtime/src/main/java/org/particleframework/health/HeartbeatTask.java:38-42 | if any of the three requirements fails, no heartbeat is ever published, whatever events and ticks arrive |
| PrimitiveConfig.New | inject-java/src/test/groovy/io/micronaut/inject/configproperties/MyPrimitiveConfig.java:23-24 | a new record reports port 0 and primitiveDefaultValue 9999 |
| PrimitiveConfig.SetPort | inject-java/src/test/groovy/io/micronaut/inject/configproperties/MyPrimitiveConfig.java:30-32 | after setPort(p), getPort() returns p and getPrimitiveDefaultValue() is unchanged |
| PrimitiveConfig.SetPrimitiveDefaultValue | inject-java/src/test/groovy/io/micronaut/inject/configproperties/MyPrimitiveConfig.java:38-40 | after setPrimitiveDefaultValue(v), getPrimitiveDefaultValue() returns v and getPort() is unchanged |
| PrimitiveConfig.SetGetIdentity | inject-java/src/test/groovy/io/micronaut/inject/configproperties/MyPrimitiveConfig.java:26-40 | setting a property to the value its getter returns leaves the record unchanged |
| PrimitiveConfig.LastSetWins | inject-java/src/test/groovy/io/micronaut/inject/configproperties/MyPrimitiveConfig.java:30-40 | a second call of the same setter overrides the first |
| PrimitiveConfig.SettersCommute | inject-java/src/test/groovy/io/micronaut/inject/configproperties/MyPrimitiveConfig.java:30-40 | the two setters touch independent fields, so their order does not matter |

The getters `GetPort` and `GetPrimitiveDefaultValue` are pure functions of
the record. They therefore cannot change it, and they have no row of their own.

## Left out

- Scheduler timing of `@Scheduled`: fixed-delay firing, no overlap, cancellation and error isolation belong to the scheduler, which is not part of this model. Only the declared default durations are modelled (`Activation.ScheduleOf`), and the ticks arrive as trace inputs.
- Concurrency of the `AtomicReference` slot: the model is sequential, and the slot is a plain `Option`.
- Event publisher behaviour: delivery order, synchronous dispatch, listener error isolation. Publication is modelled as appending to the output sequence.
- `CurrentHealthStatus` failures: the current status is an opaque value supplied with each tick.
- How `@Requires` is evaluated, how `${...:default}` placeholders are resolved and how `"15s"` is parsed into a duration. These are framework code outside this model. Durations stay configuration strings, and requirements are compared as plain strings.
- The literal value of `ApplicationConfiguration.APPLICATION_NAME` is not part of this model. It is a parameter (`applicationNameKey`).
- `@ConfigurationProperties` binding of `MyPrimitiveConfig` and dependency-injection construction: the binder and the container are not part of this model.
