/** The buffer of inbound master writes, its capture, and the capture's materialization into
    replayable commands (adapters/driving/_inbound_command_buffer.py). */
module InboundBuffer {
  import opened Floats
  import opened Sorting

  type Payload = map<string, Decimal>

  datatype Pending = Pending(target: string, commandType: string, payload: Payload, sequence: nat)

  datatype Capture =
    Capture(tick: int, target: string, commandType: string, payload: Payload, sequence: nat)

  datatype CommandResult = Ignored

  datatype Command = Command(
    id: string, simulationTime: int, target: string, commandType: string, payload: Payload,
    validationStatus: string, result: CommandResult)

  datatype ScenarioCommand =
    ScenarioCommand(simulationTime: int, target: string, commandType: string, payload: Payload)

  datatype Buffer = Buffer(pending: seq<Pending>, captured: seq<Capture>, next: nat)

  const EMPTY := Buffer([], [], 0)

  // ---- what the operations compute ----

  function Enqueued(b: Buffer, target: string, commandType: string, payload: Payload): Buffer {
    b.(pending := b.pending + [Pending(target, commandType, payload, b.next)], next := b.next + 1)
  }

  predicate Earlier(x: Pending, y: Pending) {
    x.sequence < y.sequence
  }

  function CaptureOf(p: Pending, now: int): Capture {
    Capture(now, p.target, p.commandType, p.payload, p.sequence)
  }

  function CommandOf(p: Pending, now: int): Command {
    Command(CommandId(p.sequence), now, p.target, p.commandType, p.payload, VALIDATION_STATUS, Ignored)
  }

  const ID_PREFIX: string := "inbound-cmd-"
  const VALIDATION_STATUS: string := "inbound"

  function CommandId(sequence: nat): string {
    ID_PREFIX + Digits(sequence)
  }

  function Captures(ps: seq<Pending>, now: int): seq<Capture> {
    seq(|ps|, i requires 0 <= i < |ps| => CaptureOf(ps[i], now))
  }

  function Commands(ps: seq<Pending>, now: int): seq<Command> {
    seq(|ps|, i requires 0 <= i < |ps| => CommandOf(ps[i], now))
  }

  function Drained(b: Buffer, now: int): Buffer {
    HandedOver(b, Sort(b.pending, Earlier), now)
  }

  function HandedOver(b: Buffer, writes: seq<Pending>, now: int): Buffer {
    Buffer([], b.captured + Captures(writes, now), b.next)
  }

  function DrainedCommands(b: Buffer, now: int): seq<Command> {
    Commands(Sort(b.pending, Earlier), now)
  }

  /** Decimal digits, as in Python's formatting of a non-negative integer. */
  function Digits(n: nat): string {
    if n < 10 then [Digit(n)] else Digits(n / 10) + [Digit(n % 10)]
  }

  function Digit(n: nat): char
    requires n < 10
  {
    "0123456789"[n]
  }

  predicate ReplaysBefore(x: Capture, y: Capture) {
    x.tick < y.tick || (x.tick == y.tick && x.sequence < y.sequence)
  }

  function ScenarioCommandOf(c: Capture): ScenarioCommand {
    ScenarioCommand(c.tick, c.target, c.commandType, c.payload)
  }

  function ScenarioCommands(cs: seq<Capture>): seq<ScenarioCommand> {
    seq(|cs|, i requires 0 <= i < |cs| => ScenarioCommandOf(cs[i]))
  }

  /** `materialize_inbound_writes`. */
  function Materialize(captures: seq<Capture>): seq<ScenarioCommand> {
    ScenarioCommands(Sort(captures, ReplaysBefore))
  }

  // ---- the buffer object ----

  class InboundCommandBuffer {
    var pending: seq<Pending>
    var captured: seq<Capture>
    var nextSequence: nat

    function State(): Buffer
      reads this
    {
      Buffer(pending, captured, nextSequence)
    }

    constructor ()
      ensures State() == EMPTY
    {
      pending, captured, nextSequence := [], [], 0;
    }

    method Enqueue(target: string, commandType: string, payload: Payload) returns (sequence: nat)
      modifies this
      ensures State() == Enqueued(old(State()), target, commandType, payload)
      ensures sequence == old(nextSequence)
    {
      sequence := nextSequence;
      nextSequence := nextSequence + 1;
      pending := pending + [Pending(target, commandType, payload, sequence)];
    }

    method DrainDue(now: int) returns (commands: seq<Command>)
      modifies this
      ensures State() == Drained(old(State()), now)
      ensures commands == DrainedCommands(old(State()), now)
    {
      var writes := Sort(pending, Earlier);
      pending := [];
      commands := [];
      for i := 0 to |writes|
        invariant pending == [] && nextSequence == old(nextSequence)
        invariant captured == old(captured) + Captures(writes[..i], now)
        invariant commands == Commands(writes[..i], now)
      {
        captured := captured + [CaptureOf(writes[i], now)];
        commands := commands + [CommandOf(writes[i], now)];
        assert Captures(writes[..i + 1], now) == Captures(writes[..i], now) + [CaptureOf(writes[i], now)];
      }
      assert writes[..|writes|] == writes;
    }

    method GetCapture() returns (captures: seq<Capture>)
      ensures captures == State().captured
    {
      captures := captured;
    }
  }

  // ---- runs ----

  /** One atomic step on the buffer. The server thread enqueues and the tick loop drains, each
      under the lock, in any interleaving. */
  datatype Event = Enqueue(target: string, commandType: string, payload: Payload) | Drain(now: int)

  /** The buffer together with every command it has handed to the tick loop. */
  datatype Live = Live(buffer: Buffer, handed: seq<Command>)

  function Step(l: Live, e: Event): Live {
    match e
    case Enqueue(target, commandType, payload) =>
      l.(buffer := Enqueued(l.buffer, target, commandType, payload))
    case Drain(now) =>
      Live(Drained(l.buffer, now), l.handed + DrainedCommands(l.buffer, now))
  }

  function Run(events: seq<Event>): Live {
    if events == [] then Live(EMPTY, [])
    else Step(Run(events[..|events| - 1]), events[|events| - 1])
  }

  /** The writes that were enqueued, in order of arrival. */
  function Arrivals(events: seq<Event>): seq<(string, string, Payload)> {
    if events == [] then []
    else
      var e := events[|events| - 1];
      Arrivals(events[..|events| - 1])
      + (if e.Enqueue? then [(e.target, e.commandType, e.payload)] else [])
  }

  /** Captured and pending writes carry the arrival numbers 0, 1, 2, ... in order, and every
      handed-over command belongs to the captured write at its place. */
  ghost predicate Numbered(l: Live) {
    NumberedBuffer(l.buffer) && AllHanded(l.handed, l.buffer.captured)
  }

  predicate HandedAs(c: Command, w: Capture) {
    c == CommandOf(Pending(w.target, w.commandType, w.payload, w.sequence), w.tick)
  }

  lemma NumberedPendingIsSorted(l: Live)
    requires Numbered(l)
    ensures Sort(l.buffer.pending, Earlier) == l.buffer.pending
  {
    SortKeeps(l.buffer.pending, Earlier);
  }

  lemma CapturesAt(ps: seq<Pending>, now: int, i: nat)
    requires i < |ps|
    ensures |Captures(ps, now)| == |ps| && Captures(ps, now)[i] == CaptureOf(ps[i], now)
  {
  }

  lemma CommandsAt(ps: seq<Pending>, now: int, i: nat)
    requires i < |ps|
    ensures |Commands(ps, now)| == |ps| && Commands(ps, now)[i] == CommandOf(ps[i], now)
  {
  }

  /** A command and the capture of the same write. */
  lemma HandedAsCaptured(p: Pending, now: int)
    ensures HandedAs(CommandOf(p, now), CaptureOf(p, now))
  {
  }

  ghost predicate NumberedBuffer(b: Buffer) {
    && b.next == |b.captured| + |b.pending|
    && (forall i :: 0 <= i < |b.captured| ==> b.captured[i].sequence == i)
    && (forall i :: 0 <= i < |b.pending| ==> b.pending[i].sequence == |b.captured| + i)
  }

  ghost predicate AllHanded(cs: seq<Command>, ws: seq<Capture>) {
    |cs| == |ws| && forall i :: 0 <= i < |cs| ==> HandedAs(cs[i], ws[i])
  }

  lemma DrainKeepsNumbers(b: Buffer, now: int)
    requires NumberedBuffer(b) && Sort(b.pending, Earlier) == b.pending
    ensures NumberedBuffer(Drained(b, now))
  {
    var n, b' := |b.captured|, Drained(b, now);
    var added := Captures(b.pending, now);
    forall i | 0 <= i < n + |b.pending| ensures (b.captured + added)[i].sequence == i {
      if i >= n { CapturesAt(b.pending, now, i - n); }
    }
  }

  lemma HandedMore(cs: seq<Command>, ws: seq<Capture>, ps: seq<Pending>, now: int)
    requires AllHanded(cs, ws)
    ensures AllHanded(cs + Commands(ps, now), ws + Captures(ps, now))
  {
    var n := |cs|;
    forall i | 0 <= i < n + |ps| ensures HandedAs((cs + Commands(ps, now))[i], (ws + Captures(ps, now))[i]) {
      if i >= n {
        CapturesAt(ps, now, i - n);
        CommandsAt(ps, now, i - n);
        HandedAsCaptured(ps[i - n], now);
      }
    }
  }

  lemma NumberedDrain(l: Live, now: int)
    requires Numbered(l)
    ensures Numbered(Step(l, Drain(now)))
  {
    NumberedPendingIsSorted(l);
    DrainKeepsNumbers(l.buffer, now);
    HandedMore(l.handed, l.buffer.captured, l.buffer.pending, now);
  }

  lemma NumberedStep(l: Live, e: Event)
    requires Numbered(l)
    ensures Numbered(Step(l, e))
  {
    if e.Drain? {
      NumberedDrain(l, e.now);
    }
  }

  /** Every reachable state is numbered, and so draining never reorders anything. */
  lemma {:induction false} RunIsNumbered(events: seq<Event>)
    ensures Numbered(Run(events))
    ensures Sort(Run(events).buffer.pending, Earlier) == Run(events).buffer.pending
  {
    if events != [] {
      RunIsNumbered(events[..|events| - 1]);
      NumberedStep(Run(events[..|events| - 1]), events[|events| - 1]);
    }
    NumberedPendingIsSorted(Run(events));
  }

  /** The write with arrival number `i`: drained if it is below the number captured, else pending. */
  function WriteAt(b: Buffer, i: nat): (string, string, Payload)
    requires i < |b.captured| + |b.pending|
  {
    if i < |b.captured| then (b.captured[i].target, b.captured[i].commandType, b.captured[i].payload)
    else
      var p := b.pending[i - |b.captured|];
      (p.target, p.commandType, p.payload)
  }

  /** Draining moves writes from pending to captured and leaves each at its place. */
  lemma DrainKeepsWrites(b: Buffer, now: int, i: nat)
    requires i < |b.captured| + |b.pending|
    ensures var b' := HandedOver(b, b.pending, now);
            |b'.captured| == |b.captured| + |b.pending| && b'.pending == [] && WriteAt(b', i) == WriteAt(b, i)
  {
    var n, cs := |b.captured|, Captures(b.pending, now);
    if i < n {
      assert (b.captured + cs)[i] == b.captured[i];
    } else {
      CapturesAt(b.pending, now, i - n);
      assert (b.captured + cs)[i] == cs[i - n];
    }
  }

  /** The i-th write to arrive is the i-th of the captured writes followed by the pending ones. */
  predicate Holds(b: Buffer, arrivals: seq<(string, string, Payload)>) {
    && |b.captured| + |b.pending| == |arrivals|
    && forall i :: 0 <= i < |arrivals| ==> WriteAt(b, i) == arrivals[i]
  }

  lemma EnqueueHolds(b: Buffer, arrivals: seq<(string, string, Payload)>, t: string, c: string, p: Payload)
    requires Holds(b, arrivals)
    ensures Holds(Enqueued(b, t, c, p), arrivals + [(t, c, p)])
  {
    var b' := Enqueued(b, t, c, p);
    forall i | 0 <= i < |arrivals| ensures WriteAt(b', i) == arrivals[i] {
      assert WriteAt(b, i) == arrivals[i];
    }
  }

  lemma DrainHolds(b: Buffer, arrivals: seq<(string, string, Payload)>, now: int)
    requires Holds(b, arrivals) && Sort(b.pending, Earlier) == b.pending
    ensures Holds(Drained(b, now), arrivals)
  {
    forall i | 0 <= i < |arrivals|
      ensures |Drained(b, now).captured| == |arrivals| && WriteAt(Drained(b, now), i) == arrivals[i]
    {
      assert WriteAt(b, i) == arrivals[i];
      DrainKeepsWrites(b, now, i);
    }
  }

  /** Nothing is lost, duplicated or reordered, whatever the interleaving. */
  lemma {:induction false} EveryWriteOnce(events: seq<Event>)
    ensures Holds(Run(events).buffer, Arrivals(events))
  {
    if events != [] {
      var prefix := events[..|events| - 1];
      EveryWriteOnce(prefix);
      RunIsNumbered(prefix);
      match events[|events| - 1]
      case Enqueue(t, c, p) => EnqueueHolds(Run(prefix).buffer, Arrivals(prefix), t, c, p);
      case Drain(now) => DrainHolds(Run(prefix).buffer, Arrivals(prefix), now);
    }
  }

  lemma DigitsApart(m: nat, n: nat)
    requires m != n
    ensures Digits(m) != Digits(n)
    decreases m
  {
    if m >= 10 && n >= 10 {
      if m / 10 != n / 10 { DigitsApart(m / 10, n / 10); }
      LongDigitsApart(m, n);
    } else {
      DigitsLength(m);
      DigitsLength(n);
    }
  }

  lemma LongDigitsApart(m: nat, n: nat)
    requires m != n && m >= 10 && n >= 10
    requires m / 10 != n / 10 ==> Digits(m / 10) != Digits(n / 10)
    ensures Digits(m) != Digits(n)
  {
    var s, t := Digits(m), Digits(n);
    if m / 10 != n / 10 {
      assert s[..|s| - 1] == Digits(m / 10) && t[..|t| - 1] == Digits(n / 10);
    } else {
      assert m % 10 != n % 10;
      assert s[|s| - 1] == Digit(m % 10) && t[|t| - 1] == Digit(n % 10);
    }
  }

  lemma DigitsLength(n: nat)
    ensures n < 10 ==> |Digits(n)| == 1
    ensures n >= 10 ==> |Digits(n)| >= 2
  {
    if n >= 10 {
      DigitsLength(n / 10);
    }
  }

  /** No two commands of a run share an identity. */
  lemma CommandIdsUnique(events: seq<Event>, i: nat, j: nat)
    requires i < j < |Run(events).handed|
    ensures Run(events).handed[i].id != Run(events).handed[j].id
  {
    RunIsNumbered(events);
    var l := Run(events);
    HandedId(l.handed[i], l.buffer.captured[i]);
    HandedId(l.handed[j], l.buffer.captured[j]);
    IdsApart(i, j);
  }

  lemma HandedId(c: Command, w: Capture)
    requires HandedAs(c, w)
    ensures c.id == CommandId(w.sequence)
  {
  }

  lemma IdsApart(m: nat, n: nat)
    requires m != n
    ensures CommandId(m) != CommandId(n)
  {
    DigitsApart(m, n);
    assert CommandId(m)[|ID_PREFIX|..] == Digits(m) && CommandId(n)[|ID_PREFIX|..] == Digits(n);
  }

  /** Only the characters '0' to '9'. */
  predicate IsNumeral(s: string) {
    s != "" && forall i :: 0 <= i < |s| ==> '0' <= s[i] <= '9'
  }

  /** What a string of decimal digits reads as, in base ten. */
  function InBaseTen(s: string): int {
    if s == "" then 0 else 10 * InBaseTen(s[..|s| - 1]) + (s[|s| - 1] as int - '0' as int)
  }

  lemma DigitReads(n: nat)
    requires n < 10
    ensures '0' <= Digit(n) <= '9' && Digit(n) as int - '0' as int == n
  {
  }

  /** `Digits` is the decimal numeral: its digits read in base ten as the number, and the first is 0
      only for zero itself. */
  lemma {:induction false} DigitsExactly(n: nat)
    ensures IsNumeral(Digits(n)) && InBaseTen(Digits(n)) == n
    ensures Digits(n)[0] == '0' ==> n == 0
  {
    if n < 10 {
      DigitReads(n);
      assert InBaseTen("") == 0 && Digits(n)[..0] == "";
    } else {
      DigitsExactly(n / 10);
      DigitReads(n % 10);
      assert Digits(n)[..|Digits(n)| - 1] == Digits(n / 10);
    }
  }

  /** In every run the k-th command handed over is the k-th write to arrive, under the identity
      "inbound-cmd-" and the decimal numeral of k, with the status of an inbound command. */
  lemma HandedExactly(events: seq<Event>, k: nat)
    requires k < |Run(events).handed|
    ensures var c := Run(events).handed[k];
            && |c.id| > 12 && c.id[..12] == "inbound-cmd-"
            && IsNumeral(c.id[12..]) && InBaseTen(c.id[12..]) == k && (c.id[12] == '0' ==> k == 0)
            && c.validationStatus == "inbound" && c.result == Ignored
            && k < |Arrivals(events)| && (c.target, c.commandType, c.payload) == Arrivals(events)[k]
  {
    var l := Run(events);
    RunIsNumbered(events);
    EveryWriteOnce(events);
    assert HandedAs(l.handed[k], l.buffer.captured[k]);
    assert WriteAt(l.buffer, k) == Arrivals(events)[k];
    DigitsExactly(k);
    IdParts(k);
  }

  lemma IdParts(n: nat)
    ensures CommandId(n)[..12] == "inbound-cmd-" && CommandId(n)[12..] == Digits(n)
  {
    assert |ID_PREFIX| == 12;
  }

  /** A drain hands over everything that is pending, at its own time, after what was handed over
      before, and leaves nothing. */
  lemma DrainHandsOver(l: Live, now: int)
    requires Numbered(l)
    ensures var r := Step(l, Drain(now));
            && r.buffer.pending == [] && |r.handed| == |l.buffer.captured| + |l.buffer.pending|
            && |l.handed| <= |r.handed| && r.handed[..|l.handed|] == l.handed
            && forall i :: |l.handed| <= i < |r.handed| ==>
                 var c := r.handed[i];
                 c.simulationTime == now && (c.target, c.commandType, c.payload) == WriteAt(l.buffer, i)
  {
    NumberedPendingIsSorted(l);
    var ps, r := l.buffer.pending, Step(l, Drain(now));
    assert r.handed == l.handed + Commands(ps, now);
    forall i | |l.handed| <= i < |r.handed|
      ensures r.handed[i].simulationTime == now
      ensures (r.handed[i].target, r.handed[i].commandType, r.handed[i].payload) == WriteAt(l.buffer, i)
    {
      HandedNext(l, now, i);
    }
  }

  lemma HandedNext(l: Live, now: int, i: nat)
    requires |l.handed| == |l.buffer.captured| <= i < |l.handed| + |l.buffer.pending|
    ensures var cs := l.handed + Commands(l.buffer.pending, now);
            && |cs| == |l.handed| + |l.buffer.pending| && cs[i].simulationTime == now
            && (cs[i].target, cs[i].commandType, cs[i].payload) == WriteAt(l.buffer, i)
  {
    CommandsAt(l.buffer.pending, now, i - |l.handed|);
  }

  // ---- replay ----

  /** A command as a scenario would schedule it. */
  function Scheduled(c: Command): ScenarioCommand {
    ScenarioCommand(c.simulationTime, c.target, c.commandType, c.payload)
  }

  /** What the live run handed over at simulation time `t`, in order. */
  function HandedAt(cs: seq<Command>, t: int): seq<ScenarioCommand> {
    if cs == [] then []
    else
      var c := cs[|cs| - 1];
      HandedAt(cs[..|cs| - 1], t) + (if c.simulationTime == t then [Scheduled(c)] else [])
  }

  /** What a materialized stream schedules at simulation time `t`, in order. */
  function ScheduledAt(cs: seq<ScenarioCommand>, t: int): seq<ScenarioCommand> {
    if cs == [] then []
    else
      var c := cs[|cs| - 1];
      ScheduledAt(cs[..|cs| - 1], t) + (if c.simulationTime == t then [c] else [])
  }

  lemma {:induction false} HandedIsCaptured(handed: seq<Command>, captured: seq<Capture>, t: int)
    requires |handed| == |captured|
    requires forall i :: 0 <= i < |handed| ==> HandedAs(handed[i], captured[i])
    ensures HandedAt(handed, t) == ScheduledAt(ScenarioCommands(captured), t)
  {
    if handed != [] {
      var n := |handed| - 1;
      HandedIsCaptured(handed[..n], captured[..n], t);
      assert ScenarioCommands(captured)[..n] == ScenarioCommands(captured[..n]);
    }
  }

  lemma {:induction false} ReplayOrder()
    ensures WeakOrder(ReplaysBefore)
  {
  }

  /** The stream of captures as they come. */
  function CapturedAt(cs: seq<Capture>, t: int): seq<ScenarioCommand> {
    ScheduledAt(ScenarioCommands(cs), t)
  }

  lemma CapturedAppend(cs: seq<Capture>, c: Capture, t: int)
    ensures CapturedAt(cs + [c], t) == CapturedAt(cs, t) + (if c.tick == t then [ScenarioCommandOf(c)] else [])
  {
    assert ScenarioCommands(cs + [c])[..|cs|] == ScenarioCommands(cs);
  }

  /** Inserting the write that arrived last puts it last among the writes of its tick. */
  lemma {:induction false} InsertLatest(s: seq<Capture>, x: Capture, t: int)
    requires forall i :: 0 <= i < |s| ==> s[i].sequence < x.sequence
    ensures CapturedAt(Insert(s, x, ReplaysBefore), t)
            == CapturedAt(s, t) + (if x.tick == t then [ScenarioCommandOf(x)] else [])
  {
    CapturedAppend(s, x, t);
    if s != [] && ReplaysBefore(x, s[|s| - 1]) {
      var n := |s| - 1;
      InsertLatest(s[..n], x, t);
      CapturedAppend(Insert(s[..n], x, ReplaysBefore), s[n], t);
      CapturedAppend(s[..n], s[n], t);
      Split(s);
    }
  }

  lemma SortedAreOriginals(cs: seq<Capture>, bound: nat)
    requires forall i :: 0 <= i < |cs| ==> cs[i].sequence < bound
    ensures forall i :: 0 <= i < |Sort(cs, ReplaysBefore)| ==> Sort(cs, ReplaysBefore)[i].sequence < bound
  {
    var s := Sort(cs, ReplaysBefore);
    ReplayOrder();
    SortSorts(cs, ReplaysBefore);
    forall i | 0 <= i < |s| ensures s[i].sequence < bound {
      assert s[i] in multiset(s);
      assert s[i] in cs;
    }
  }

  lemma {:induction false} SortKeepsTickOrder(captured: seq<Capture>, t: int)
    requires forall i, j :: 0 <= i < j < |captured| ==> captured[i].sequence < captured[j].sequence
    ensures CapturedAt(Sort(captured, ReplaysBefore), t) == CapturedAt(captured, t)
  {
    if captured != [] {
      var n := |captured| - 1;
      SortKeepsTickOrder(captured[..n], t);
      SortedAreOriginals(captured[..n], captured[n].sequence);
      InsertLatest(Sort(captured[..n], ReplaysBefore), captured[n], t);
      CapturedAppend(captured[..n], captured[n], t);
      Split(captured);
    }
  }

  lemma NumberedReplay(l: Live, t: int)
    requires Numbered(l)
    ensures ScheduledAt(Materialize(l.buffer.captured), t) == HandedAt(l.handed, t)
  {
    SortKeepsTickOrder(l.buffer.captured, t);
    HandedIsCaptured(l.handed, l.buffer.captured, t);
  }

  /** Replay equals live: for every interleaving of enqueues and drains and every time `t`, the
      commands scheduled for `t` in the materialized capture are, in order, those the live run
      handed over at `t`. Drain times may even go back. */
  lemma ReplayEqualsLive(events: seq<Event>, t: int)
    ensures ScheduledAt(Materialize(Run(events).buffer.captured), t) == HandedAt(Run(events).handed, t)
  {
    RunIsNumbered(events);
    NumberedReplay(Run(events), t);
  }

  /** The capture may be handed over in any order: materializing sorts it out. */
  lemma MaterializeIgnoresOrder(events: seq<Event>, captures: seq<Capture>)
    requires multiset(captures) == multiset(Run(events).buffer.captured)
    ensures Materialize(captures) == Materialize(Run(events).buffer.captured)
  {
    var original := Run(events).buffer.captured;
    RunIsNumbered(events);
    ReplayOrder();
    forall x, y | x in captures && y in captures && x != y
      ensures ReplaysBefore(x, y) || ReplaysBefore(y, x)
    {
      assert x in multiset(original) && y in multiset(original);
      assert x in original && y in original;
    }
    SortIgnoresOrder(captures, original, ReplaysBefore);
  }

  function ScheduledAll(cs: seq<Command>): seq<ScenarioCommand> {
    seq(|cs|, i requires 0 <= i < |cs| => Scheduled(cs[i]))
  }

  predicate TimesNeverGoBack(cs: seq<Command>) {
    forall i, j :: 0 <= i < j < |cs| ==> cs[i].simulationTime <= cs[j].simulationTime
  }

  lemma InOrderReplays(l: Live)
    requires Numbered(l) && TimesNeverGoBack(l.handed)
    ensures Sort(l.buffer.captured, ReplaysBefore) == l.buffer.captured
  {
    var captured := l.buffer.captured;
    forall i, j | 0 <= i < j < |captured| ensures !ReplaysBefore(captured[j], captured[i]) {
      assert HandedAs(l.handed[i], captured[i]) && HandedAs(l.handed[j], captured[j]);
      assert l.handed[i].simulationTime <= l.handed[j].simulationTime;
    }
    SortKeeps(captured, ReplaysBefore);
  }

  lemma MaterializedInOrder(captures: seq<Capture>, i: nat, j: nat)
    requires i < j < |Materialize(captures)|
    ensures Materialize(captures)[i].simulationTime <= Materialize(captures)[j].simulationTime
  {
    ReplayOrder();
    SortSorts(captures, ReplaysBefore);
    var s := Sort(captures, ReplaysBefore);
    assert !ReplaysBefore(s[j], s[i]);
  }

  /** The whole materialized stream is the live stream exactly when time never went back between
      the commands handed over. */
  lemma HandedOrderDecides(events: seq<Event>)
    ensures Materialize(Run(events).buffer.captured) == ScheduledAll(Run(events).handed)
            <==> TimesNeverGoBack(Run(events).handed)
  {
    RunIsNumbered(events);
    var captured, handed := Run(events).buffer.captured, Run(events).handed;
    assert ScenarioCommands(captured) == ScheduledAll(handed);
    if TimesNeverGoBack(handed) {
      InOrderReplays(Run(events));
    } else {
      var i, j :| 0 <= i < j < |handed| && handed[i].simulationTime > handed[j].simulationTime;
      var m := Materialize(captured);
      if m == ScheduledAll(handed) {
        MaterializedInOrder(captured, i, j);
      }
    }
  }

  /** How many writes have been enqueued since the last drain. */
  function Waiting(events: seq<Event>): nat {
    if events == [] then 0
    else if events[|events| - 1].Enqueue? then Waiting(events[..|events| - 1]) + 1
    else 0
  }

  /** The times of the drains that find a write waiting, in order. */
  function DrainTimes(events: seq<Event>): seq<int> {
    if events == [] then []
    else
      var e, before := events[|events| - 1], events[..|events| - 1];
      if e.Drain? && Waiting(before) > 0 then DrainTimes(before) + [e.now] else DrainTimes(before)
  }

  predicate NeverGoesBack(times: seq<int>) {
    forall i, j :: 0 <= i < j < |times| ==> times[i] <= times[j]
  }

  /** The times of the handed commands go back just when those of the drains that handed them over
      do, and the latest of both is the same. */
  ghost predicate TimesAgree(handed: seq<Command>, times: seq<int>) {
    && (handed == [] <==> times == [])
    && (handed != [] ==> handed[|handed| - 1].simulationTime == times[|times| - 1])
    && (TimesNeverGoBack(handed) <==> NeverGoesBack(times))
  }

  lemma LaterTime(times: seq<int>, t: int)
    ensures NeverGoesBack(times + [t]) <==> NeverGoesBack(times) && (times != [] ==> times[|times| - 1] <= t)
  {
    var ts := times + [t];
    if NeverGoesBack(ts) {
      forall i, j | 0 <= i < j < |times| ensures times[i] <= times[j] {
        assert ts[i] <= ts[j];
      }
      if times != [] { assert ts[|times| - 1] <= ts[|times|]; }
    }
  }

  lemma LaterCommands(handed: seq<Command>, more: seq<Command>, t: int)
    requires more != [] && forall i :: 0 <= i < |more| ==> more[i].simulationTime == t
    ensures TimesNeverGoBack(handed + more)
      <==> TimesNeverGoBack(handed) && (handed != [] ==> handed[|handed| - 1].simulationTime <= t)
  {
    var all, n := handed + more, |handed|;
    if TimesNeverGoBack(all) {
      forall i, j | 0 <= i < j < n ensures handed[i].simulationTime <= handed[j].simulationTime {
        assert all[i].simulationTime <= all[j].simulationTime;
      }
      if n > 0 {
        assert all[n - 1].simulationTime <= all[n].simulationTime;
        assert all[n] == more[0];
      }
    } else {
      var i, j :| 0 <= i < j < |all| && all[i].simulationTime > all[j].simulationTime;
      if TimesNeverGoBack(handed) && i < n && j >= n {
        assert all[j] == more[j - n];
        assert handed[i].simulationTime <= handed[n - 1].simulationTime;
      }
    }
  }

  lemma MoreTimesAgree(handed: seq<Command>, times: seq<int>, more: seq<Command>, t: int)
    requires TimesAgree(handed, times)
    requires more != [] && forall i :: 0 <= i < |more| ==> more[i].simulationTime == t
    ensures TimesAgree(handed + more, times + [t])
  {
    LaterTime(times, t);
    LaterCommands(handed, more, t);
    assert (handed + more)[|handed + more| - 1] == more[|more| - 1];
  }

  lemma CommandTimes(ps: seq<Pending>, now: int)
    ensures |Commands(ps, now)| == |ps|
    ensures forall i :: 0 <= i < |ps| ==> Commands(ps, now)[i].simulationTime == now
  {
    forall i | 0 <= i < |ps| ensures Commands(ps, now)[i].simulationTime == now {
      CommandsAt(ps, now, i);
    }
  }

  lemma DrainTimesAgree(handed: seq<Command>, times: seq<int>, ps: seq<Pending>, now: int)
    requires TimesAgree(handed, times)
    ensures TimesAgree(handed + Commands(ps, now), if ps != [] then times + [now] else times)
  {
    CommandTimes(ps, now);
    if ps != [] {
      MoreTimesAgree(handed, times, Commands(ps, now), now);
    } else {
      assert handed + Commands(ps, now) == handed;
    }
  }

  ghost predicate Timed(events: seq<Event>) {
    && |Run(events).buffer.pending| == Waiting(events)
    && TimesAgree(Run(events).handed, DrainTimes(events))
  }

  lemma OneMore(before: seq<Event>, e: Event)
    ensures Run(before + [e]) == Step(Run(before), e)
    ensures Waiting(before + [e]) == if e.Enqueue? then Waiting(before) + 1 else 0
    ensures DrainTimes(before + [e])
            == if e.Drain? && Waiting(before) > 0 then DrainTimes(before) + [e.now] else DrainTimes(before)
  {
    assert (before + [e])[..|before|] == before;
  }

  lemma TimedStep(before: seq<Event>, e: Event)
    requires Timed(before)
    ensures Timed(before + [e])
  {
    OneMore(before, e);
    RunIsNumbered(before);
    if e.Drain? {
      var l := Run(before);
      NumberedPendingIsSorted(l);
      DrainTimesAgree(l.handed, DrainTimes(before), l.buffer.pending, e.now);
    }
  }

  lemma {:induction false} RunTimesAgree(events: seq<Event>)
    ensures Timed(events)
  {
    if events != [] {
      var before, e := events[..|events| - 1], events[|events| - 1];
      RunTimesAgree(before);
      assert events == before + [e];
      TimedStep(before, e);
    }
  }

  /** The whole materialized stream is the live stream exactly when time never goes back from one
      drain that finds a write waiting to the next. Drains of an empty buffer do not matter. */
  lemma WholeReplayExactly(events: seq<Event>)
    ensures Materialize(Run(events).buffer.captured) == ScheduledAll(Run(events).handed)
            <==> NeverGoesBack(DrainTimes(events))
  {
    HandedOrderDecides(events);
    RunTimesAgree(events);
  }

  ghost predicate DrainsInOrder(events: seq<Event>) {
    forall i, j :: 0 <= i < j < |events| && events[i].Drain? && events[j].Drain? ==> events[i].now <= events[j].now
  }

  lemma {:induction false} DrainTimesAreDrains(events: seq<Event>, t: int)
    requires t in DrainTimes(events)
    ensures exists i :: 0 <= i < |events| && events[i] == Drain(t)
  {
    var n := |events| - 1;
    if events[n] != Drain(t) {
      DrainTimesAreDrains(events[..n], t);
      var i :| 0 <= i < n && events[..n][i] == Drain(t);
      assert events[i] == Drain(t);
    }
  }

  lemma {:induction false} InOrderDrainTimes(events: seq<Event>)
    requires DrainsInOrder(events)
    ensures NeverGoesBack(DrainTimes(events))
  {
    if events != [] {
      var n := |events| - 1;
      var times := DrainTimes(events[..n]);
      InOrderDrainTimes(events[..n]);
      if events[n].Drain? {
        LaterTime(times, events[n].now);
        if times != [] {
          DrainTimesAreDrains(events[..n], times[|times| - 1]);
        }
      }
    }
  }

  /** So a run whose drain times never decrease, as a tick loop's do not, is replayed as a whole. */
  lemma OrderedRunReplaysWhole(events: seq<Event>)
    requires DrainsInOrder(events)
    ensures Materialize(Run(events).buffer.captured) == ScheduledAll(Run(events).handed)
  {
    InOrderDrainTimes(events);
    WholeReplayExactly(events);
  }

  /** A run that is not replayed as a whole: the second write is drained at an earlier time. */
  lemma WholeReplayCanFail(target: string, commandType: string, payload: Payload)
    ensures var write := Enqueue(target, commandType, payload);
            var l := Run([write, Drain(5), write, Drain(3)]);
            Materialize(l.buffer.captured) != ScheduledAll(l.handed)
  {
    var write := Enqueue(target, commandType, payload);
    var events := [write] + [Drain(5)] + [write] + [Drain(3)];
    assert [write][..0] == [];
    OneMore([write], Drain(5));
    OneMore([write] + [Drain(5)], write);
    OneMore([write] + [Drain(5)] + [write], Drain(3));
    assert DrainTimes(events)[0] == 5 && DrainTimes(events)[1] == 3;
    WholeReplayExactly(events);
    assert events == [write, Drain(5), write, Drain(3)];
  }
}
