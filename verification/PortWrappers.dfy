/** The span wrapper and the communication-failure wrapper around a device protocol port, with the
    trace adapter's table of open spans (telemetry_otlp/traces.py, _protocol_otel_wrap.py,
    _protocol_comm_failure_wrap.py). */
module PortWrappers {
  import opened Floats
  import opened Options
  import opened RegisterMaps

  /** How a call of the port ends: a point or none, an error of one of the two typed families, any
      other exception, or an exception that a side channel let through. */
  datatype Outcome =
    | Returned(point: Option<Point>)
    | ReadError(kind: string, message: string)
    | WriteError(kind: string, message: string)
    | OtherError(kind: string)
    | SideChannelError

  /** What a side-channel callee does: it returns, raises one of the best-effort exceptions, or
      raises another one. */
  datatype Fault = Fine | BestEffort | Fatal

  // ---- the trace adapter ----

  datatype SpanEvent = SpanEvent(name: string, attributes: map<string, string>)

  datatype Span = Span(name: string, attributes: map<string, string>, events: seq<SpanEvent>)

  /** Open spans by identity, and the spans ended so far. */
  datatype Trace = Trace(active: map<string, Span>, ended: seq<Span>)

  function Started(t: Trace, id: string, name: string, attributes: map<string, string>): Trace {
    t.(active := t.active[id := Span(name, attributes, [])])
  }

  function Recorded(t: Trace, id: string, e: SpanEvent): Trace {
    if id !in t.active then t
    else
      var span := t.active[id];
      t.(active := t.active[id := span.(events := span.events + [e])])
  }

  function Ended(t: Trace, id: string): Trace {
    if id !in t.active then t
    else Trace(t.active - {id}, t.ended + [t.active[id]])
  }

  class OtlpTraceAdapter {
    var active: map<string, Span>
    var ended: seq<Span>

    function State(): Trace
      reads this
    {
      Trace(active, ended)
    }

    constructor ()
      ensures State() == Trace(map[], [])
    {
      active, ended := map[], [];
    }

    /** `start_span`: the SDK gives the span its identity, or raises before anything is stored. */
    method StartSpan(name: string, attributes: map<string, string>, id: string, fault: Fault)
      modifies this
      ensures State() == if fault.Fine? then Started(old(State()), id, name, attributes) else old(State())
    {
      if fault.Fine? {
        active := active[id := Span(name, attributes, [])];
      }
    }

    /** `end_span`: the span leaves the table before the SDK is told, so a fault there keeps it
        out. A span that is not open is passed over without a call. */
    method EndSpan(id: string, fault: Fault) returns (raised: Fault)
      modifies this
      ensures State() == if fault.Fine? then Ended(old(State()), id)
                         else old(State()).(active := old(active) - {id})
      ensures raised == if id in old(active) then fault else Fine
    {
      raised := Fine;
      if id in active {
        var span := active[id];
        active := active - {id};
        if fault.Fine? {
          ended := ended + [span];
        }
        raised := fault;
      }
    }

    method RecordEvent(id: string, e: SpanEvent, fault: Fault) returns (raised: Fault)
      modifies this
      ensures State() == if fault.Fine? then Recorded(old(State()), id, e) else old(State())
      ensures raised == if id in old(active) then fault else Fine
    {
      raised := Fine;
      if id in active {
        if fault.Fine? {
          var span := active[id];
          active := active[id := span.(events := span.events + [e])];
        }
        raised := fault;
      }
    }
  }

  // ---- the span wrapper ----

  datatype Operation = Reading | Writing

  /** What the trace port does during one call, and the identity it gives the span. */
  datatype TraceScript = TraceScript(id: string, start: Fault, error: Fault, latency: Fault, end: Fault)

  function SpanName(adapterType: string, op: Operation): string {
    "protocol." + adapterType + "." + (if op.Reading? then "read" else "write")
  }

  function SpanAttributes(adapterType: string, reference: Option<string>, target: string, op: Operation)
    : map<string, string>
  {
    var attributes := map["adapter_type" := adapterType, "target" := target,
                          "operation" := if op.Reading? then "read" else "write"];
    if reference.Some? then attributes["reference" := reference.value] else attributes
  }

  /** The error the wrapper puts on the span: a read's read error and a write's write error. */
  predicate Attributed(op: Operation, inner: Outcome) {
    (op.Reading? && inner.ReadError?) || (op.Writing? && inner.WriteError?)
  }

  function ErrorEvent(inner: Outcome): SpanEvent
    requires inner.ReadError? || inner.WriteError?
  {
    SpanEvent("error", map["exception.type" := inner.kind, "exception.message" := inner.message])
  }

  function LatencyEvent(latency: string): SpanEvent {
    SpanEvent("latency", map["latency_ms" := latency])
  }

  class OtelSpanWrappedPort {
    const trace: OtlpTraceAdapter?
    const adapterType: string
    const reference: Option<string>

    constructor (trace: OtlpTraceAdapter?, adapterType: string, reference: Option<string>)
      ensures this.trace == trace && this.adapterType == adapterType && this.reference == reference
    {
      this.trace, this.adapterType, this.reference := trace, adapterType, reference;
    }

    /** `_call_with_span_read` and `_call_with_span_write`, which differ in the error they catch.
        `inner` is what the wrapped port's call comes to if it is made; `called` says whether it
        was; `latency` is the rounded duration. */
    method CallWithSpan(op: Operation, target: string, inner: Outcome, script: TraceScript, latency: string)
      returns (outcome: Outcome, called: bool)
      modifies if trace == null then {} else {trace}
      ensures trace == null ==> outcome == inner && called
      ensures trace != null ==>
                (outcome, called, trace.State())
                == WithSpan(old(trace.State()), SpanName(adapterType, op),
                            SpanAttributes(adapterType, reference, target, op), op, inner, script, latency)
    {
      // _safe_start_span
      var span: Option<string> := None;
      if trace != null {
        trace.StartSpan(SpanName(adapterType, op), SpanAttributes(adapterType, reference, target, op),
                        script.id, script.start);
        if script.start.Fatal? {
          return SideChannelError, false;
        }
        span := if script.start.Fine? then Some(script.id) else None;
      }
      // try the wrapped call; except the operation's own error: _record_exception, then raise
      outcome, called := inner, true;
      if Attributed(op, inner) && span.Some? {
        var raised := trace.RecordEvent(span.value, ErrorEvent(inner), script.error);
        if raised.Fatal? {
          outcome := SideChannelError;
        }
      }
      // finally: _safe_end_span
      if span.Some? {
        var raised := trace.RecordEvent(span.value, LatencyEvent(latency), script.latency);
        if raised.Fatal? {
          return SideChannelError, called;
        }
        raised := trace.EndSpan(span.value, script.end);
        if raised.Fatal? {
          outcome := SideChannelError;
        }
      }
    }
  }

  /** One wrapped call: its outcome, whether the wrapped port was called, and the trace after it. */
  function WithSpan(t: Trace, name: string, attributes: map<string, string>, op: Operation, inner: Outcome,
                    script: TraceScript, latency: string): (Outcome, bool, Trace)
  {
    if script.start.Fatal? then (SideChannelError, false, t)
    else if script.start.BestEffort? then (inner, true, t)
    else
      var t0 := Started(t, script.id, name, attributes);
      var t1 := if Attributed(op, inner) && script.error.Fine? then Recorded(t0, script.id, ErrorEvent(inner))
                else t0;
      var pending := if Attributed(op, inner) && script.error.Fatal? then SideChannelError else inner;
      if script.latency.Fatal? then (SideChannelError, true, t1)
      else
        var t2 := if script.latency.Fine? then Recorded(t1, script.id, LatencyEvent(latency)) else t1;
        var t3 := if script.end.Fine? then Ended(t2, script.id) else t2.(active := t2.active - {script.id});
        (if script.end.Fatal? then SideChannelError else pending, true, t3)
  }

  /** The calls that are made to the trace port during one wrapped call, as to their faults. */
  predicate SomeFatal(op: Operation, inner: Outcome, script: TraceScript) {
    || script.start.Fatal?
    || (script.start.Fine? &&
        ((Attributed(op, inner) && script.error.Fatal?) || script.latency.Fatal? || script.end.Fatal?))
  }

  /** The wrapper is transparent exactly when no exception outside the best-effort tuple comes from
      a trace call it makes. */
  lemma TransparentExactly(t: Trace, name: string, attributes: map<string, string>, op: Operation,
                           inner: Outcome, script: TraceScript, latency: string)
    requires !inner.SideChannelError?
    ensures var r := WithSpan(t, name, attributes, op, inner, script, latency);
            && ((r.0 == inner && r.1) <==> !SomeFatal(op, inner, script))
            && (SomeFatal(op, inner, script) ==> r.0.SideChannelError?)
            && (r.1 <==> !script.start.Fatal?)
  {
  }

  /** The table of open spans is as before exactly when the new span's identity was not in it, or
      no span was opened; and the `latency` event did not raise past the best-effort tuple, which
      would leave the span open. */
  lemma BalancedExactly(t: Trace, name: string, attributes: map<string, string>, op: Operation,
                        inner: Outcome, script: TraceScript, latency: string)
    ensures WithSpan(t, name, attributes, op, inner, script, latency).2.active == t.active <==>
            || !script.start.Fine?
            || (!script.latency.Fatal? && script.id !in t.active)
            || (script.latency.Fatal? && script.id in t.active
                && t.active[script.id] == Span(name, attributes,
                     if Attributed(op, inner) && script.error.Fine? then [ErrorEvent(inner)] else []))
  {
    if script.start.Fine? {
      var r := WithSpan(t, name, attributes, op, inner, script, latency).2.active;
      if script.latency.Fatal? {
        assert script.id in r;
        if script.id in t.active && t.active[script.id] == r[script.id] {
          assert r == t.active;
        }
      } else {
        assert script.id !in r;
        if script.id !in t.active {
          assert r == t.active;
        }
      }
    }
  }

  /** The span a call ends, if it does: its start and its end went well, and the `latency` event did
      not raise past the best-effort tuple. It carries the error, if there was one to attribute, and
      then the latency, each unless recording it raised. */
  function SpanEnded(name: string, attributes: map<string, string>, op: Operation, inner: Outcome,
                     script: TraceScript, latency: string): seq<Span>
  {
    if !script.start.Fine? || script.latency.Fatal? || !script.end.Fine? then []
    else [Span(name, attributes,
            (if Attributed(op, inner) && script.error.Fine? then [ErrorEvent(inner)] else [])
            + (if script.latency.Fine? then [LatencyEvent(latency)] else []))]
  }

  /** The span of a call, part by part: what it is called, which attributes it has, and which events
      in which order. A read's read error and a write's write error go on it, nothing else does. */
  lemma SpanParts(adapterType: string, reference: Option<string>, target: string, op: Operation, inner: Outcome,
                  script: TraceScript, latency: string)
    requires script.start.Fine? && !script.latency.Fatal? && script.end.Fine?
    ensures var spans := SpanEnded(SpanName(adapterType, op), SpanAttributes(adapterType, reference, target, op), op,
                           inner, script, latency);
            && |spans| == 1
            && var span, kind := spans[0], if op == Reading then "read" else "write";
            && span.name == "protocol." + adapterType + "." + kind
            && span.attributes.Keys
               == {"adapter_type", "target", "operation"} + (if reference.Some? then {"reference"} else {})
            && span.attributes["adapter_type"] == adapterType && span.attributes["target"] == target
            && span.attributes["operation"] == kind
            && (reference.Some? ==> span.attributes["reference"] == reference.value)
            && (HasError(span) <==> ((op.Reading? && inner.ReadError?) || (op.Writing? && inner.WriteError?))
                                    && script.error.Fine?)
            && (HasError(span) ==>
                  span.events[0]
                  == SpanEvent("error", map["exception.type" := inner.kind, "exception.message" := inner.message]))
            && span.events[if HasError(span) then 1 else 0..]
               == if script.latency.Fine? then [SpanEvent("latency", map["latency_ms" := latency])] else []
  {
  }

  predicate HasError(span: Span) {
    span.events != [] && span.events[0].name == "error"
  }

  /** Whatever the side channels do, a call adds to the spans ended just its own, and no other. */
  lemma SpanTellsTheCall(t: Trace, name: string, attributes: map<string, string>, op: Operation,
                         inner: Outcome, script: TraceScript, latency: string)
    ensures WithSpan(t, name, attributes, op, inner, script, latency).2.ended
            == t.ended + SpanEnded(name, attributes, op, inner, script, latency)
  {
    if script.start.Fine? && !script.latency.Fatal? {
      var t0 := Started(t, script.id, name, attributes);
      assert t0.active[script.id] == Span(name, attributes, []);
      var errors := if Attributed(op, inner) && script.error.Fine? then [ErrorEvent(inner)] else [];
      var t1 := if errors == [] then t0 else Recorded(t0, script.id, ErrorEvent(inner));
      assert t1.active[script.id] == Span(name, attributes, errors);
      if script.latency.Fine? {
        var t2 := Recorded(t1, script.id, LatencyEvent(latency));
        assert t2.active[script.id] == Span(name, attributes, errors + [LatencyEvent(latency)]);
      } else {
        assert errors + [] == errors;
      }
    }
  }

  // ---- the communication-failure wrapper ----

  datatype Alarm = Alarm(
    alarmId: string, runId: string, simulationTimeMs: int, target: string, code: string, severity: string,
    message: string, status: string, faultId: Option<string>)

  /** What the alarm side channel does: the identity source gives `id` or raises; the sink keeps
      the alarm or not, and returns or raises. */
  datatype AlarmScript = AlarmScript(id: string, source: Fault, kept: bool, sink: Fault)

  function CommLostAlarm(id: string, runId: string, target: string, kind: string, message: string, now: int): Alarm {
    Alarm(id, runId, now, target, "adapter_communication_lost", "warning", kind + ": " + message, "active", None)
  }

  /** `_missing_point`. */
  function MissingPoint(runId: string, target: string, now: int): Point {
    Point(runId, 0, now, target, "", Number(false, 0, 1), "", Missing, "comm_failure." + target, 0)
  }

  class CommFailureGuardedPort {
    const wrapped: OtelSpanWrappedPort
    const runId: string
    var alarms: seq<Alarm>

    constructor (wrapped: OtelSpanWrappedPort, runId: string)
      ensures this.wrapped == wrapped && this.runId == runId && alarms == []
    {
      this.wrapped, this.runId := wrapped, runId;
      alarms := [];
    }

    /** `_emit_comm_lost_alarm`. */
    method EmitCommLostAlarm(target: string, kind: string, message: string, now: int, script: AlarmScript)
      returns (raised: Fault)
      modifies this
      ensures alarms == old(alarms) + (if script.source.Fine? && script.kept
                                       then [CommLostAlarm(script.id, runId, target, kind, message, now)] else [])
      ensures raised == if script.source.Fine? then script.sink else script.source
    {
      if !script.source.Fine? {
        return script.source;
      }
      if script.kept {
        alarms := alarms + [CommLostAlarm(script.id, runId, target, kind, message, now)];
      }
      return script.sink;
    }

    /** `read`: `now` is the time the clock gives, None if reading it raises. */
    method ReadTarget(target: string, inner: Outcome, spans: TraceScript, latency: string, now: Option<int>,
                      script: AlarmScript)
      returns (outcome: Outcome)
      modifies this, if wrapped.trace == null then {} else {wrapped.trace}
      ensures wrapped.trace == null ==>
                (outcome, alarms) == Guarded(old(alarms), runId, target, inner, now, script)
      ensures wrapped.trace != null ==>
                var r := WithSpan(old(wrapped.trace.State()), SpanName(wrapped.adapterType, Reading),
                           SpanAttributes(wrapped.adapterType, wrapped.reference, target, Reading), Reading,
                           inner, spans, latency);
                && wrapped.trace.State() == r.2
                && (outcome, alarms) == Guarded(old(alarms), runId, target, r.0, now, script)
    {
      var called;
      outcome, called := wrapped.CallWithSpan(Reading, target, inner, spans, latency);
      match outcome
      case ReadError(kind, message) =>
        if now.None? { return SideChannelError; }
        var raised := EmitCommLostAlarm(target, kind, message, now.value, script);
        outcome := if raised.Fatal? then SideChannelError
                   else Returned(Some(MissingPoint(runId, target, now.value)));
      case _ =>
    }

    /** `write` passes through. */
    method WriteTarget(target: string, inner: Outcome, spans: TraceScript, latency: string)
      returns (outcome: Outcome)
      modifies if wrapped.trace == null then {} else {wrapped.trace}
      ensures wrapped.trace == null ==> outcome == inner
      ensures wrapped.trace != null ==>
                var r := WithSpan(old(wrapped.trace.State()), SpanName(wrapped.adapterType, Writing),
                           SpanAttributes(wrapped.adapterType, wrapped.reference, target, Writing), Writing,
                           inner, spans, latency);
                outcome == r.0 && wrapped.trace.State() == r.2
      ensures alarms == old(alarms)
    {
      var called;
      outcome, called := wrapped.CallWithSpan(Writing, target, inner, spans, latency);
    }
  }

  /** One guarded read: its outcome and the alarms after it. */
  function Guarded(alarms: seq<Alarm>, runId: string, target: string, inner: Outcome, now: Option<int>,
                   script: AlarmScript): (Outcome, seq<Alarm>)
  {
    if !inner.ReadError? then (inner, alarms)
    else if now.None? then (SideChannelError, alarms)
    else
      var kept := if script.source.Fine? && script.kept
                  then [CommLostAlarm(script.id, runId, target, inner.kind, inner.message, now.value)] else [];
      var fatal := script.source.Fatal? || (script.source.Fine? && script.sink.Fatal?);
      (if fatal then SideChannelError else Returned(Some(MissingPoint(runId, target, now.value))), alarms + kept)
  }

  // ---- runs of both wrappers ----

  /** One call: what the innermost port does and what the side channels do meanwhile. */
  datatype Call = Call(
    op: Operation, target: string, inner: Outcome, spans: TraceScript, latency: string, now: Option<int>,
    alarm: AlarmScript)

  datatype Wrapped = Wrapped(trace: Trace, alarms: seq<Alarm>, outcomes: seq<Outcome>)

  /** One call through the communication-failure wrapper around the span wrapper. */
  function CallBoth(w: Wrapped, adapterType: string, reference: Option<string>, runId: string, c: Call): Wrapped {
    var r := WithSpan(w.trace, SpanName(adapterType, c.op), SpanAttributes(adapterType, reference, c.target, c.op),
                      c.op, c.inner, c.spans, c.latency);
    var (outcome, alarms) :=
      if c.op.Reading? then Guarded(w.alarms, runId, c.target, r.0, c.now, c.alarm) else (r.0, w.alarms);
    Wrapped(r.2, alarms, w.outcomes + [outcome])
  }

  function RunBoth(t: Trace, adapterType: string, reference: Option<string>, runId: string, calls: seq<Call>): Wrapped {
    if calls == [] then Wrapped(t, [], [])
    else CallBoth(RunBoth(t, adapterType, reference, runId, calls[..|calls| - 1]), adapterType, reference, runId,
                  calls[|calls| - 1])
  }

  predicate FailedRead(c: Call) {
    c.op.Reading? && c.inner.ReadError?
  }

  /** The clock, or the alarm channel, raises past the best-effort tuple. */
  predicate AlarmPathFatal(c: Call) {
    c.now.None? || c.alarm.source.Fatal? || (c.alarm.source.Fine? && c.alarm.sink.Fatal?)
  }

  /** A side channel's exception reaches the caller. */
  predicate Escapes(c: Call) {
    SomeFatal(c.op, c.inner, c.spans) || (FailedRead(c) && AlarmPathFatal(c))
  }

  /** What a caller gets to see. */
  function Surfaced(runId: string, c: Call): Outcome {
    if Escapes(c) then SideChannelError
    else if FailedRead(c) then Returned(Some(MissingPoint(runId, c.target, c.now.value)))
    else c.inner
  }

  /** The alarm of a call: at most one, for a read error that gets through the span wrapper, with
      the missing point's time. A sink that keeps the alarm and then raises has kept it. */
  function AlarmsOf(runId: string, c: Call): seq<Alarm> {
    if FailedRead(c) && !SomeFatal(c.op, c.inner, c.spans) && c.now.Some? && c.alarm.source.Fine? && c.alarm.kept
    then [CommLostAlarm(c.alarm.id, runId, c.target, c.inner.kind, c.inner.message, c.now.value)]
    else []
  }

  function AllAlarms(runId: string, calls: seq<Call>): seq<Alarm> {
    if calls == [] then [] else AllAlarms(runId, calls[..|calls| - 1]) + AlarmsOf(runId, calls[|calls| - 1])
  }

  /** `SideChannelError` stands for what the side channels raise, never for the innermost port. */
  ghost predicate InnerOutcomes(calls: seq<Call>) {
    forall i :: 0 <= i < |calls| ==> !calls[i].inner.SideChannelError?
  }

  lemma CallSurfaces(w: Wrapped, adapterType: string, reference: Option<string>, runId: string, c: Call)
    requires !c.inner.SideChannelError?
    ensures var w' := CallBoth(w, adapterType, reference, runId, c);
            && w'.outcomes == w.outcomes + [Surfaced(runId, c)]
            && w'.alarms == w.alarms + AlarmsOf(runId, c)
  {
    var name, attributes := SpanName(adapterType, c.op), SpanAttributes(adapterType, reference, c.target, c.op);
    TransparentExactly(w.trace, name, attributes, c.op, c.inner, c.spans, c.latency);
  }

  /** In every run, whatever the side channels raise, each call surfaces by its own circumstances
      alone: as the innermost outcome, as a missing point for a read error, or as a side channel's
      exception that is not a best-effort one. Every alarm that was kept stays, in order, also when
      calls after it, or the sink that kept it, raise. */
  lemma {:induction false} RunSurfaces(t: Trace, adapterType: string, reference: Option<string>,
                                       runId: string, calls: seq<Call>)
    requires InnerOutcomes(calls)
    ensures var w := RunBoth(t, adapterType, reference, runId, calls);
            && |w.outcomes| == |calls|
            && (forall i :: 0 <= i < |calls| ==> w.outcomes[i] == Surfaced(runId, calls[i]))
            && w.alarms == AllAlarms(runId, calls)
  {
    if calls != [] {
      var n := |calls| - 1;
      RunSurfaces(t, adapterType, reference, runId, calls[..n]);
      CallSurfaces(RunBoth(t, adapterType, reference, runId, calls[..n]), adapterType, reference, runId, calls[n]);
    }
  }

  ghost predicate Caused(runId: string, alarms: seq<Alarm>, calls: seq<Call>, at: seq<nat>) {
    && |at| == |alarms|
    && (forall k, l :: 0 <= k < l < |at| ==> at[k] < at[l])
    && (forall k :: 0 <= k < |at| ==> at[k] < |calls| && CausedBy(runId, alarms[k], calls[at[k]]))
  }

  /** What a caller gets for a failed read: a zero of quality Missing for its target and run, at the
      time the clock gave. */
  predicate IsMissingAt(runId: string, target: string, now: Option<int>, outcome: Outcome) {
    && outcome.Returned? && outcome.point.Some?
    && var p := outcome.point.value;
    && p.quality == Missing && p.value == Number(false, 0, 1)
    && p.deviceId == target && p.runId == runId && Some(p.simulationTime) == now
    && p.metric == "" && p.unit == "" && p.source == "comm_failure." + target && p.tick == p.sequence == 0
  }

  /** In every run a failed read whose side channels raise nothing but best-effort exceptions gives
      such a point, and its alarm, if it is kept, is the last one after the call and of the same time,
      target and run. */
  lemma FailedReadIsMissing(t: Trace, adapterType: string, reference: Option<string>, runId: string,
                            calls: seq<Call>, i: nat)
    requires InnerOutcomes(calls) && i < |calls| && calls[i].op.Reading? && calls[i].inner.ReadError?
    requires !Escapes(calls[i])
    ensures var c, w := calls[i], RunBoth(t, adapterType, reference, runId, calls);
            && |w.outcomes| == |calls| && IsMissingAt(runId, c.target, c.now, w.outcomes[i])
            && (c.alarm.source.Fine? && c.alarm.kept ==>
                  var alarms := AllAlarms(runId, calls[..i + 1]);
                  alarms != [] && alarms <= w.alarms && CausedBy(runId, alarms[|alarms| - 1], c))
  {
    RunSurfaces(t, adapterType, reference, runId, calls);
    SurfacesMissing(runId, calls[i]);
    AlarmsGrow(runId, calls, i + 1);
    AlarmOfLast(runId, calls[..i + 1]);
  }

  lemma SurfacesMissing(runId: string, c: Call)
    requires c.op.Reading? && c.inner.ReadError? && !Escapes(c)
    ensures IsMissingAt(runId, c.target, c.now, Surfaced(runId, c))
  {
  }

  lemma AlarmOfLast(runId: string, calls: seq<Call>)
    requires calls != []
    ensures var c, alarms := calls[|calls| - 1], AllAlarms(runId, calls);
            c.op.Reading? && c.inner.ReadError? && !Escapes(c) && c.alarm.source.Fine? && c.alarm.kept
            ==> alarms != [] && CausedBy(runId, alarms[|alarms| - 1], c)
  {
  }

  lemma {:induction false} AlarmsGrow(runId: string, calls: seq<Call>, i: nat)
    requires i <= |calls|
    ensures AllAlarms(runId, calls[..i]) <= AllAlarms(runId, calls)
  {
    if i == |calls| {
      assert calls[..i] == calls;
    } else {
      var n := |calls| - 1;
      AlarmsGrow(runId, calls[..n], i);
      assert calls[..n][..i] == calls[..i];
    }
  }

  /** The alarm of a failed read, field by field. */
  predicate CausedBy(runId: string, alarm: Alarm, c: Call) {
    && c.op.Reading? && c.inner.ReadError?
    && alarm.code == "adapter_communication_lost" && alarm.severity == "warning" && alarm.status == "active"
    && alarm.target == c.target && Some(alarm.simulationTimeMs) == c.now && alarm.runId == runId
    && alarm.message == c.inner.kind + ": " + c.inner.message
    && alarm.alarmId == c.alarm.id && alarm.faultId == None
  }

  /** Each alarm has a failed read of its own, in order, and says of it what it should. */
  lemma {:induction false} AlarmsHaveCauses(runId: string, calls: seq<Call>) returns (at: seq<nat>)
    ensures Caused(runId, AllAlarms(runId, calls), calls, at)
  {
    if calls == [] {
      at := [];
    } else {
      var n := |calls| - 1;
      at := AlarmsHaveCauses(runId, calls[..n]);
      var alarms, more := AllAlarms(runId, calls[..n]), AlarmsOf(runId, calls[n]);
      CausesGrow(runId, alarms, calls, at);
      if more == [] {
        assert alarms + more == alarms;
      } else {
        OneMoreCause(runId, alarms, more[0], calls, at);
        assert alarms + more == alarms + [more[0]];
        at := at + [n];
      }
    }
  }

  lemma OneMoreCause(runId: string, alarms: seq<Alarm>, alarm: Alarm, calls: seq<Call>, at: seq<nat>)
    requires calls != [] && Caused(runId, alarms, calls, at) && CausedBy(runId, alarm, calls[|calls| - 1])
    requires forall k :: 0 <= k < |at| ==> at[k] < |calls| - 1
    ensures Caused(runId, alarms + [alarm], calls, at + [|calls| - 1])
  {
  }

  lemma CausesGrow(runId: string, alarms: seq<Alarm>, calls: seq<Call>, at: seq<nat>)
    requires calls != [] && Caused(runId, alarms, calls[..|calls| - 1], at)
    ensures Caused(runId, alarms, calls, at)
    ensures forall k :: 0 <= k < |at| ==> at[k] < |calls| - 1
  {
    var before := calls[..|calls| - 1];
    forall k | 0 <= k < |at| ensures CausedBy(runId, alarms[k], calls[at[k]]) {
      assert CausedBy(runId, alarms[k], before[at[k]]);
    }
  }

  // ---- open spans over a run ----

  /** The spans a run leaves open: their `latency` event raised past the best-effort tuple. */
  function LeftOpen(calls: seq<Call>): set<string> {
    set i | 0 <= i < |calls| && calls[i].spans.start.Fine? && calls[i].spans.latency.Fatal? :: calls[i].spans.id
  }

  /** The trace SDK gives every span an identity of its own. */
  ghost predicate FreshIds(t: Trace, calls: seq<Call>) {
    && (forall i :: 0 <= i < |calls| ==> calls[i].spans.id !in t.active)
    && (forall i, j :: 0 <= i < j < |calls| ==> calls[i].spans.id != calls[j].spans.id)
  }

  lemma SpanStays(t: Trace, name: string, attributes: map<string, string>, op: Operation, inner: Outcome,
                  script: TraceScript, latency: string)
    requires script.id !in t.active
    ensures var active := WithSpan(t, name, attributes, op, inner, script, latency).2.active;
            && active.Keys == t.active.Keys
                 + (if script.start.Fine? && script.latency.Fatal? then {script.id} else {})
            && forall id :: id in t.active ==> active[id] == t.active[id]
  {
    BalancedExactly(t, name, attributes, op, inner, script, latency);
  }

  lemma CallLeavesOpen(w: Wrapped, adapterType: string, reference: Option<string>, runId: string, c: Call)
    requires c.spans.id !in w.trace.active
    ensures var active := CallBoth(w, adapterType, reference, runId, c).trace.active;
            && active.Keys == w.trace.active.Keys
                 + (if c.spans.start.Fine? && c.spans.latency.Fatal? then {c.spans.id} else {})
            && forall id :: id in w.trace.active ==> active[id] == w.trace.active[id]
  {
    SpanStays(w.trace, SpanName(adapterType, c.op), SpanAttributes(adapterType, reference, c.target, c.op), c.op,
              c.inner, c.spans, c.latency);
  }

  /** After any run the open spans are those open before, unchanged, and those whose `latency` event
      raised past the best-effort tuple: no other fault leaves a span open. */
  lemma {:induction false} RunLeavesOpenExactly(t: Trace, adapterType: string, reference: Option<string>,
                                                runId: string, calls: seq<Call>)
    requires FreshIds(t, calls)
    ensures var active := RunBoth(t, adapterType, reference, runId, calls).trace.active;
            && active.Keys == t.active.Keys + LeftOpen(calls)
            && forall id :: id in t.active ==> active[id] == t.active[id]
  {
    if calls != [] {
      var n := |calls| - 1;
      RunLeavesOpenExactly(t, adapterType, reference, runId, calls[..n]);
      LeftOpenOneMore(calls);
      FreshOfLeftOpen(t, calls);
      CallLeavesOpen(RunBoth(t, adapterType, reference, runId, calls[..n]), adapterType, reference, runId, calls[n]);
    }
  }

  lemma LeftOpenOneMore(calls: seq<Call>)
    requires calls != []
    ensures var n := |calls| - 1;
            LeftOpen(calls) == LeftOpen(calls[..n])
              + (if calls[n].spans.start.Fine? && calls[n].spans.latency.Fatal? then {calls[n].spans.id} else {})
  {
    var n := |calls| - 1;
    forall id | id in LeftOpen(calls[..n]) ensures id in LeftOpen(calls) {
      var i :| 0 <= i < n && calls[..n][i].spans.start.Fine? && calls[..n][i].spans.latency.Fatal?
               && calls[..n][i].spans.id == id;
      assert calls[i].spans.id == id;
    }
    var last := if calls[n].spans.start.Fine? && calls[n].spans.latency.Fatal? then {calls[n].spans.id} else {};
    forall id | id in LeftOpen(calls) ensures id in LeftOpen(calls[..n]) + last {
      var i :| 0 <= i <= n && calls[i].spans.start.Fine? && calls[i].spans.latency.Fatal? && calls[i].spans.id == id;
      if i < n { assert calls[..n][i] == calls[i]; }
    }
  }

  lemma FreshOfLeftOpen(t: Trace, calls: seq<Call>)
    requires calls != [] && FreshIds(t, calls)
    ensures calls[|calls| - 1].spans.id !in t.active.Keys + LeftOpen(calls[..|calls| - 1])
  {
    var n := |calls| - 1;
    forall i | 0 <= i < n ensures calls[..n][i].spans.id != calls[n].spans.id {
      assert calls[..n][i] == calls[i];
    }
  }

  /** The spans that calls end, in order. */
  function AllSpans(adapterType: string, reference: Option<string>, calls: seq<Call>): seq<Span> {
    if calls == [] then []
    else
      var c := calls[|calls| - 1];
      AllSpans(adapterType, reference, calls[..|calls| - 1])
      + SpanEnded(SpanName(adapterType, c.op), SpanAttributes(adapterType, reference, c.target, c.op), c.op,
                  c.inner, c.spans, c.latency)
  }

  /** Over any run, whatever raises and whatever identities the spans get, the spans ended are those
      ended before and then one for each call that ends its own, in the order of the calls, with the
      call's own name, attributes and events: no call's span ends twice or takes another's events. */
  lemma {:induction false} RunEndsExactly(t: Trace, adapterType: string, reference: Option<string>,
                                          runId: string, calls: seq<Call>)
    ensures RunBoth(t, adapterType, reference, runId, calls).trace.ended
            == t.ended + AllSpans(adapterType, reference, calls)
  {
    if calls != [] {
      var n := |calls| - 1;
      var c := calls[n];
      RunEndsExactly(t, adapterType, reference, runId, calls[..n]);
      SpanTellsTheCall(RunBoth(t, adapterType, reference, runId, calls[..n]).trace, SpanName(adapterType, c.op),
                       SpanAttributes(adapterType, reference, c.target, c.op), c.op, c.inner, c.spans, c.latency);
    }
  }

  /** A span that stays open: nothing is wrong but the `latency` event, which raises past the
      best-effort tuple. */
  lemma SpanCanStayOpen(t: Trace, name: string, attributes: map<string, string>, op: Operation,
                        point: Option<Point>, id: string, latency: string)
    requires id !in t.active
    ensures id in WithSpan(t, name, attributes, op, Returned(point), TraceScript(id, Fine, Fine, Fatal, Fine),
                           latency).2.active
  {
    SpanStays(t, name, attributes, op, Returned(point), TraceScript(id, Fine, Fine, Fatal, Fine), latency);
  }

  /** Side channels raise nothing but best-effort exceptions. */
  ghost predicate Tame(calls: seq<Call>) {
    forall i :: 0 <= i < |calls| ==> !Escapes(calls[i])
  }

  lemma {:induction false} TameRunBalances(t: Trace, adapterType: string, reference: Option<string>,
                                           runId: string, calls: seq<Call>)
    requires Tame(calls) && forall i :: 0 <= i < |calls| ==> calls[i].spans.id !in t.active
    ensures RunBoth(t, adapterType, reference, runId, calls).trace.active == t.active
  {
    if calls != [] {
      var n := |calls| - 1;
      var c := calls[n];
      TameRunBalances(t, adapterType, reference, runId, calls[..n]);
      assert !Escapes(c);
      SpanStays(RunBoth(t, adapterType, reference, runId, calls[..n]).trace, SpanName(adapterType, c.op),
                SpanAttributes(adapterType, reference, c.target, c.op), c.op, c.inner, c.spans, c.latency);
    }
  }

  /** In every run whose side channels fail only in the best-effort ways, each call comes to what
      the innermost port's call came to, except that a read error becomes one missing point and at
      most one alarm of the same time; and the spans open after it are those open before. */
  lemma RunIsTransparent(t: Trace, adapterType: string, reference: Option<string>, runId: string, calls: seq<Call>)
    requires Tame(calls) && InnerOutcomes(calls) && forall i :: 0 <= i < |calls| ==> calls[i].spans.id !in t.active
    ensures var w := RunBoth(t, adapterType, reference, runId, calls);
            && w.trace.active == t.active
            && |w.outcomes| == |calls|
            && (forall i :: 0 <= i < |calls| ==>
                  w.outcomes[i] == if FailedRead(calls[i])
                                   then Returned(Some(MissingPoint(runId, calls[i].target, calls[i].now.value)))
                                   else calls[i].inner)
            && w.alarms == AllAlarms(runId, calls)
  {
    RunSurfaces(t, adapterType, reference, runId, calls);
    TameRunBalances(t, adapterType, reference, runId, calls);
    forall i | 0 <= i < |calls| ensures Surfaced(runId, calls[i]) ==
      if FailedRead(calls[i]) then Returned(Some(MissingPoint(runId, calls[i].target, calls[i].now.value)))
      else calls[i].inner
    {
      assert !Escapes(calls[i]);
    }
  }
}
