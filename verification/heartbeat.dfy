/** The heartbeat task as a sequential state machine.

    The task owns a single slot for the running service instance. A
    service-started event overwrites the slot; each scheduled tick publishes
    one heartbeat carrying the slot's instance and the health status current
    at that tick, provided the slot is filled. Publication is modelled as the
    sequence of heartbeat events a step hands to the event publisher. */
module Heartbeat {
  import opened Wrappers

  /** The event published on a tick: the captured instance and the health
      status reported at that tick. */
  datatype HeartbeatEvent<I, H> = HeartbeatEvent(instance: I, status: H)

  /** The task's state: the instance slot (an atomic reference in the
      running system, a plain optional value here). */
  datatype Task<I> = Task(slot: Option<I>)

  /** What the task receives: a service-started event carrying its source
      instance, or a scheduler tick together with the current health status. */
  datatype Input<I, H> = ServiceStarted(source: I) | Tick(status: H)

  /** The state after one step and the heartbeats published by it. */
  datatype Outcome<I, H> = Outcome(task: Task<I>, published: seq<HeartbeatEvent<I, H>>)

  /** A freshly constructed task: its slot holds no instance. */
  function NewTask<I>(): (t: Task<I>)
    ensures t.slot.None?
  {
    Task(None)
  }

  /** One scheduled firing. Publishes exactly one heartbeat when an instance
      has been captured and nothing otherwise; the slot is left alone. */
  function Pulsate<I, H>(t: Task<I>, status: H): (r: Outcome<I, H>)
    ensures r.task == t
    ensures |r.published| <= 1
    ensures |r.published| == 1 <==> t.slot.Some?
    ensures forall e | e in r.published :: e.instance == t.slot.value && e.status == status
  {
    match t.slot
    case Some(instance) => Outcome(t, [HeartbeatEvent(instance, status)])
    case None => Outcome(t, [])
  }

  /** Handling a service-started event: the event's source replaces whatever
      the slot held before. The handler has no means of publishing. */
  function OnApplicationEvent<I>(t: Task<I>, source: I): (r: Task<I>)
    ensures r.slot == Some(source)
  {
    Task(Some(source))
  }

  /** Dispatches one input to the matching handler. A service-started event
      fills the slot and publishes nothing; a tick is a `Pulsate`. */
  function Step<I, H>(t: Task<I>, input: Input<I, H>): (r: Outcome<I, H>)
    ensures input.ServiceStarted? ==> r.task.slot == Some(input.source) && r.published == []
    ensures input.Tick? ==> r == Pulsate(t, input.status)
  {
    match input
    case ServiceStarted(source) => Outcome(OnApplicationEvent(t, source), [])
    case Tick(status) => Pulsate(t, status)
  }

  /** Feeds a whole trace of inputs to the task, front to back, and collects
      every heartbeat published along the way, in order. */
  function Run<I, H>(t: Task<I>, trace: seq<Input<I, H>>): (r: Outcome<I, H>)
    decreases |trace|
  {
    if trace == [] then Outcome(t, [])
    else
      var first := Step(t, trace[0]);
      var rest := Run(first.task, trace[1..]);
      Outcome(rest.task, first.published + rest.published)
  }

  /** Receiving the same instance twice in a row is the same as receiving it
      once: the second event neither publishes nor changes the slot. */
  lemma RepeatedStartIsIdempotent<I, H>(t: Task<I>, started: Input<I, H>)
    requires started.ServiceStarted?
    ensures Step(Step(t, started).task, started) == Step(t, started)
  {
  }

  /** A task that has captured an instance publishes, on every tick of a
      tick-only trace, one heartbeat for that instance paired with that
      tick's status, and its slot is never changed by the ticks. */
  lemma {:induction false} CapturedTaskPulsesEveryTick<I, H>(t: Task<I>, trace: seq<Input<I, H>>)
    requires t.slot.Some?
    requires forall j | 0 <= j < |trace| :: trace[j].Tick?
    ensures Run(t, trace).task == t
    ensures |Run(t, trace).published| == |trace|
    ensures forall k | 0 <= k < |trace| ::
              Run(t, trace).published[k] == HeartbeatEvent(t.slot.value, trace[k].status)
    decreases |trace|
  {
    if trace != [] {
      CapturedTaskPulsesEveryTick(t, trace[1..]);
    }
  }
}
