/** Properties of the heartbeat task over whole traces of interleaved
    service-started events and scheduler ticks.

    The task itself (`Heartbeat.Run`) is a left fold over the trace. This
    module gives independent, history-based reference definitions — the most
    recent service-started instance of a prefix, the heartbeats a tick ought
    to produce, the number of ticks after the first start — and proves that
    the fold agrees with them. */
module HeartbeatTrace {
  import opened Wrappers
  import opened Heartbeat

  /** The instance the most recent service-started event of `trace` carried,
      or `initial` if `trace` holds no such event. */
  function Latest<I, H>(initial: Option<I>, trace: seq<Input<I, H>>): Option<I>
    decreases |trace|
  {
    if trace == [] then initial
    else
      match trace[|trace| - 1]
      case ServiceStarted(source) => Some(source)
      case Tick(_) => Latest(initial, trace[..|trace| - 1])
  }

  /** The heartbeats `trace` ought to publish, defined tick by tick from its
      history: a tick publishes one heartbeat for the latest instance started
      before it, or nothing if none has been started. */
  function Expected<I, H>(initial: Option<I>, trace: seq<Input<I, H>>): seq<HeartbeatEvent<I, H>>
    decreases |trace|
  {
    if trace == [] then []
    else
      var before := trace[..|trace| - 1];
      var latest := Latest(initial, before);
      Expected(initial, before) +
        match trace[|trace| - 1]
        case Tick(status) => if latest.Some? then [HeartbeatEvent(latest.value, status)] else []
        case ServiceStarted(_) => []
  }

  /** The number of ticks in `trace`. */
  function CountTicks<I, H>(trace: seq<Input<I, H>>): nat
    decreases |trace|
  {
    if trace == [] then 0
    else (if trace[0].Tick? then 1 else 0) + CountTicks(trace[1..])
  }

  /** The number of ticks that come after the first service-started event of
      `trace` (zero when there is none). */
  function TicksAfterFirstStart<I, H>(trace: seq<Input<I, H>>): nat
    decreases |trace|
  {
    if trace == [] then 0
    else if trace[0].ServiceStarted? then CountTicks(trace[1..])
    else TicksAfterFirstStart(trace[1..])
  }

  /** Running two traces one after the other is running their concatenation:
      the state carries over and the publications are concatenated. */
  lemma {:induction false} RunAppend<I, H>(t: Task<I>, a: seq<Input<I, H>>, b: seq<Input<I, H>>)
    ensures Run(t, a + b).task == Run(Run(t, a).task, b).task
    ensures Run(t, a + b).published == Run(t, a).published + Run(Run(t, a).task, b).published
    decreases |a|
  {
    if a == [] {
      assert a + b == b;
    } else {
      assert (a + b)[1..] == a[1..] + b;
      RunAppend(Step(t, a[0]).task, a[1..], b);
    }
  }

  /** Running `trace` then one more input is one more step. */
  lemma RunSnoc<I, H>(t: Task<I>, trace: seq<Input<I, H>>)
    requires trace != []
    ensures var before := Run(t, trace[..|trace| - 1]);
            var last := Step(before.task, trace[|trace| - 1]);
            && Run(t, trace).task == last.task
            && Run(t, trace).published == before.published + last.published
  {
    var n := |trace| - 1;
    assert trace == trace[..n] + [trace[n]];
    RunAppend(t, trace[..n], [trace[n]]);
  }

  /** After any trace the slot holds the instance of the most recent
      service-started event (latest wins), or its initial content when the
      trace holds none. */
  lemma {:induction false} RunSlotIsLatest<I, H>(t: Task<I>, trace: seq<Input<I, H>>)
    ensures Run(t, trace).task.slot == Latest(t.slot, trace)
    decreases |trace|
  {
    if trace != [] {
      RunSnoc(t, trace);
      RunSlotIsLatest(t, trace[..|trace| - 1]);
    }
  }

  /** The task publishes exactly the heartbeats the history-based definition
      prescribes, in the same order. */
  lemma {:induction false} RunPublishesExpected<I, H>(t: Task<I>, trace: seq<Input<I, H>>)
    ensures Run(t, trace).published == Expected(t.slot, trace)
    decreases |trace|
  {
    if trace != [] {
      RunSnoc(t, trace);
      RunSlotIsLatest(t, trace[..|trace| - 1]);
      RunPublishesExpected(t, trace[..|trace| - 1]);
    }
  }

  /** Every heartbeat a fresh task publishes comes from some tick of the
      trace, carries the status of that tick, and names the instance of the
      most recent service-started event before that tick. */
  lemma {:induction false} HeartbeatProvenance<I, H>(trace: seq<Input<I, H>>, k: nat)
    requires k < |Run(NewTask(), trace).published|
    ensures exists j | 0 <= j < |trace| ::
              && trace[j].Tick?
              && Latest(None, trace[..j]) == Some(Run(NewTask(), trace).published[k].instance)
              && Run(NewTask(), trace).published[k].status == trace[j].status
  {
    RunPublishesExpected(NewTask<I>(), trace);
    ExpectedProvenance(trace, k);
  }

  /** `HeartbeatProvenance`, stated over the reference definition. */
  lemma {:induction false} ExpectedProvenance<I, H>(trace: seq<Input<I, H>>, k: nat)
    requires k < |Expected(None, trace)|
    ensures exists j | 0 <= j < |trace| ::
              && trace[j].Tick?
              && Latest(None, trace[..j]) == Some(Expected(None, trace)[k].instance)
              && Expected(None, trace)[k].status == trace[j].status
    decreases |trace|
  {
    var n := |trace| - 1;
    var before := trace[..n];
    if k < |Expected(None, before)| {
      ExpectedProvenance(before, k);
      var j :| 0 <= j < |before| && before[j].Tick?
               && Latest(None, before[..j]) == Some(Expected(None, before)[k].instance)
               && Expected(None, before)[k].status == before[j].status;
      assert before[..j] == trace[..j];
    } else {
      assert trace[..n] == before;
    }
  }

  /** The number of heartbeats a fresh task publishes is the number of ticks
      after the first service-started event. */
  lemma HeartbeatCount<I, H>(trace: seq<Input<I, H>>)
    ensures |Run(NewTask(), trace).published| == TicksAfterFirstStart(trace)
  {
    RunCountFrom(NewTask(), trace);
  }

  /** The count of heartbeats from any starting state: every tick counts once
      the slot is filled; before that, only ticks after the first start. */
  lemma {:induction false} RunCountFrom<I, H>(t: Task<I>, trace: seq<Input<I, H>>)
    ensures |Run(t, trace).published| ==
            if t.slot.Some? then CountTicks(trace) else TicksAfterFirstStart(trace)
    decreases |trace|
  {
    if trace != [] {
      RunCountFrom(Step(t, trace[0]).task, trace[1..]);
    }
  }

  /** No heartbeat is published by a fresh task over a trace without any
      service-started event, however many ticks it holds. */
  lemma {:induction false} NoHeartbeatBeforeStart<I, H>(trace: seq<Input<I, H>>)
    requires forall j | 0 <= j < |trace| :: trace[j].Tick?
    ensures Run(NewTask(), trace).published == []
    ensures Run(NewTask(), trace).task.slot.None?
    decreases |trace|
  {
    if trace != [] {
      NoHeartbeatBeforeStart(trace[1..]);
    }
  }

  /** A service-started event for the instance the slot already holds
      changes nothing: whatever ticks and events surround it, the final state
      and the published heartbeats are those of the trace without it. */
  lemma RedundantStartChangesNothing<I, H>(t: Task<I>, a: seq<Input<I, H>>, started: Input<I, H>,
                                           b: seq<Input<I, H>>)
    requires started.ServiceStarted?
    requires Latest(t.slot, a) == Some(started.source)
    ensures Run(t, a + [started] + b) == Run(t, a + b)
  {
    RunSlotIsLatest(t, a);
    assert a + [started] + b == a + ([started] + b);
    RunAppend(t, a, [started] + b);
    RunAppend(t, a, b);
    assert ([started] + b)[1..] == b;
    assert Step(Run(t, a).task, started).task == Run(t, a).task;
  }
}
