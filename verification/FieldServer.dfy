/** The Modbus field server at work (device_server_modbus/_adapter.py): the refresh push and the
    write hook as the objects run them, and the whole pipeline as a system of atomic steps in
    which ticks, single window pushes, master requests and drains fall in any order. */
module FieldServer {
  import opened Floats
  import opened Options
  import opened ServerConfig
  import opened RegisterMaps
  import opened WriteMap
  import opened InboundBuffer
  import opened Sorting

  /** `_FC_WRITE_HOLDING`. */
  const FC_WRITE_HOLDING: set<int> := {6, 16, 23}

  /** The codes with which a master writes holding registers; 22, the mask write, is the one the
      hook lets pass. */
  const FC_MASTER_WRITES: set<int> := {6, 16, 22, 23}

  /** `_FC_READ_HOLDING_REGISTERS` and `_FC_READ_DISCRETE_INPUTS`: the codes under which the server
      itself sets values. */
  const FC_READ_HOLDING := 3
  const FC_READ_DISCRETE := 2

  // ---- the hook and the push ----

  function InboundPayload(d: DecodedWrite): Payload {
    map["value" := d.value]
  }

  function EnqueuedAll(b: Buffer, ds: seq<DecodedWrite>): Buffer {
    if ds == [] then b
    else
      var d := ds[|ds| - 1];
      Enqueued(EnqueuedAll(b, ds[..|ds| - 1]), d.targetDeviceId, d.commandType, InboundPayload(d))
  }

  /** What the hook decodes from an access to the holding block. */
  function Hooked(writable: seq<WritableMapping>, fc: int, address: int, values: seq<int>): seq<DecodedWrite> {
    if fc in FC_WRITE_HOLDING then DecodeAll(writable, address, values) else []
  }

  function Bits(flags: seq<bool>): (bits: seq<int>)
    ensures |bits| == |flags|
    ensures forall i :: 0 <= i < |flags| ==> if flags[i] then bits[i] == 1 else bits[i] == 0
  {
    seq(|flags|, i requires 0 <= i < |flags| => if flags[i] then 1 else 0)
  }

  class ModbusServer {
    const registerMap: RegisterMap
    const decoder: InboundWriteDecoder
    const buffer: InboundCommandBuffer
    const holding: array<Word>
    const inputs: array<bool>

    ghost predicate Valid()
      reads this, registerMap
    {
      && registerMap.Valid()
      && inputs.Length == |registerMap.readMappings|
      && forall i :: 0 <= i < |registerMap.readMappings| ==>
           && 0 <= registerMap.readMappings[i].address
           && registerMap.readMappings[i].address + 2 <= holding.Length
    }

    /** `_build_device` and the server's fields: zeroed blocks, one discrete input per mapping. */
    constructor (config: Config, registerMap: RegisterMap, buffer: InboundCommandBuffer)
      requires Accepted(config) && registerMap.Valid() && registerMap.readMappings == config.registerMap
      ensures Valid() && fresh(holding) && fresh(inputs)
      ensures this.registerMap == registerMap && this.buffer == buffer
      ensures decoder.writable == Writable(config.writeMap)
      ensures holding[..] == Zeros(HoldingCount(config))
      ensures inputs[..] == seq(|config.registerMap|, _ => false)
    {
      BlockCoversExactly(config);
      this.registerMap := registerMap;
      this.buffer := buffer;
      decoder := new InboundWriteDecoder(config);
      holding := new Word[HoldingCount(config)](_ => 0);
      inputs := new bool[|config.registerMap|](_ => false);
    }

    /** The datastore's write of consecutive registers. */
    method SetHolding(address: int, values: seq<Word>)
      requires 0 <= address && address + |values| <= holding.Length
      modifies holding
      ensures holding[..] == WriteWords(old(holding[..]), address, values)
    {
      for i := 0 to |values|
        invariant holding[..] == WriteWords(old(holding[..]), address, values[..i])
      {
        WriteOneMore(old(holding[..]), address, values, i);
        holding[address + i] := values[i];
      }
      assert values[..|values|] == values;
    }

    method SetInputs(values: seq<bool>)
      requires |values| == inputs.Length
      modifies inputs
      ensures inputs[..] == values
    {
      for i := 0 to |values|
        invariant inputs[..i] == values[..i]
      {
        inputs[i] := values[i];
      }
    }

    /** `_on_register_access`: `setValues` is None for a read. */
    method OnRegisterAccess(fc: int, address: int, setValues: Option<seq<int>>)
      modifies buffer
      ensures buffer.State() == EnqueuedAll(old(buffer.State()),
                if setValues.Some? && (fc == 6 || fc == 16 || fc == 23)
                then DecodeAll(decoder.writable, address, setValues.value) else [])
    {
      if setValues.Some? && fc in FC_WRITE_HOLDING {
        var writes := decoder.Decode(address, setValues.value);
        for i := 0 to |writes|
          invariant buffer.State() == EnqueuedAll(old(buffer.State()), writes[..i])
        {
          assert writes[..i + 1][..i] == writes[..i];
          var _ := buffer.Enqueue(writes[i].targetDeviceId, writes[i].commandType, map["value" := writes[i].value]);
        }
        assert writes[..|writes|] == writes;
      }
    }

    /** `_push`, when nothing else happens between its awaits: the read windows and the discrete
        inputs of one snapshot, every other register left as it is. The datastore calls the hook
        with the values set and a read code, which enqueues nothing. */
    method Push()
      requires Valid()
      modifies holding, inputs, buffer
      ensures AllFit(old(holding[..]), RefreshWindows(registerMap.readMappings, registerMap.projection.latest))
      ensures holding[..] == WriteWindows(old(holding[..]),
                RefreshWindows(registerMap.readMappings, registerMap.projection.latest))
      ensures inputs[..] == DiscreteRange(registerMap.readMappings, registerMap.projection.latest, 0, inputs.Length)
      ensures buffer.State() == old(buffer.State())
    {
      var windows, flags := registerMap.RefreshFrame(inputs.Length);
      assert AllFit(holding[..], windows);
      SetWindows(windows);
      OnRegisterAccess(FC_READ_DISCRETE, 0, Some(Bits(flags)));
      SetInputs(flags);
    }

    /** The windows one after the other, each shown to the hook first. */
    method SetWindows(windows: seq<Window>)
      requires AllFit(holding[..], windows)
      modifies holding, buffer
      ensures holding[..] == WriteWindows(old(holding[..]), windows)
      ensures buffer.State() == old(buffer.State())
    {
      ghost var block := holding[..];
      for i := 0 to |windows|
        invariant holding[..] == WriteWindows(block, windows[..i])
        invariant buffer.State() == old(buffer.State())
      {
        OneMoreWritten(block, windows, i);
        OnRegisterAccess(FC_READ_HOLDING, windows[i].address, Some(windows[i].words));
        SetHolding(windows[i].address, windows[i].words);
      }
      assert windows[..|windows|] == windows;
    }

    /** A master's write as the datastore serves it: refused outside the block before the hook
        sees it, else seen by the hook and stored. */
    method MasterWrites(fc: int, address: int, words: seq<Word>) returns (accepted: bool)
      requires fc in FC_MASTER_WRITES
      modifies holding, buffer
      ensures accepted <==> 0 <= address && address + |words| <= holding.Length
      ensures accepted ==>
                && holding[..] == WriteWords(old(holding[..]), address, words)
                && buffer.State() == EnqueuedAll(old(buffer.State()), Hooked(decoder.writable, fc, address, words))
      ensures !accepted ==> holding[..] == old(holding[..]) && buffer.State() == old(buffer.State())
    {
      accepted := 0 <= address && address + |words| <= holding.Length;
      if accepted {
        OnRegisterAccess(fc, address, Some(words));
        SetHolding(address, words);
      }
    }
  }

  // ---- the system ----

  /** A master's request to write registers. */
  datatype MasterWrite = MasterWrite(fc: int, address: int, words: seq<Word>)

  /** The request the server is in: the hook still has `todo` to enqueue before the words are
      stored. Each enqueue takes the buffer's lock anew, so a drain may fall between two. */
  datatype Request = Idle | InHook(write: MasterWrite, todo: seq<DecodedWrite>)

  /** The refresh task: `next` is the window to be pushed next, out of the windows of the snapshot
      that was taken when `seen` ticks had been projected. */
  datatype Push = Resting | Pushing(windows: seq<Window>, flags: seq<bool>, next: nat, seen: nat)

  /** Of a read window: how many ticks the snapshot pushed to it last had seen, and how many master
      writes had been stored by then. */
  datatype Shown = Shown(ticks: nat, since: nat)

  /** The last four fields record history and do not influence the others. */
  datatype State = State(
    frame: Frame, block: seq<Word>, inputs: seq<bool>, push: Push, request: Request, live: Live,
    ticks: seq<seq<Point>>, log: seq<MasterWrite>, shown: seq<Shown>, complete: nat)

  datatype Event =
    | Tick(points: seq<Point>)
    | BeginPush | PushWindow | EndPush | PushFails
    | Receive(write: MasterWrite) | HookEnqueues | Store
    | DrainDue(now: int)

  function Init(c: Config): State
    requires Accepted(c)
  {
    BlockCoversExactly(c);
    State(map[], Zeros(HoldingCount(c)), seq(|c.registerMap|, _ => false), Resting, Idle, Live(EMPTY, []),
          [], [], seq(|c.registerMap|, _ => Shown(0, 0)), 0)
  }

  /** What the datastore takes: a write code, the one register that codes 6 and 22 write, and a
      range within the block. */
  predicate Acceptable(s: State, w: MasterWrite) {
    && w.fc in FC_MASTER_WRITES
    && (w.fc in {6, 22} ==> |w.words| == 1)
    && Fits(s.block, w.address, |w.words|)
  }

  /** The run's commands after the hook has seen values set under `fc`. */
  function Hook(c: Config, l: Live, fc: int, address: int, values: seq<int>): Live {
    l.(buffer := EnqueuedAll(l.buffer, Hooked(Writable(c.writeMap), fc, address, values)))
  }

  /** One step; a step whose moment has not come changes nothing. Pushing and storing share the
      server's loop thread, so a window is not pushed while a master's request is in the hook. The
      datastore shows the hook what the push sets, too. */
  function Step(c: Config, s: State, e: Event): State {
    match e
    case Tick(points) =>
      s.(frame := if points == [] then s.frame else Updated(s.frame, points), ticks := s.ticks + [points])
    case BeginPush =>
      if !s.push.Resting? || !s.request.Idle? then s
      else s.(push := Pushing(RefreshWindows(c.registerMap, s.frame),
                              DiscreteRange(c.registerMap, s.frame, 0, |c.registerMap|), 0, |s.ticks|))
    case PushWindow =>
      if !s.push.Pushing? || !s.request.Idle? || s.push.next >= |s.push.windows| then s
      else
        var w := s.push.windows[s.push.next];
        if !Fits(s.block, w.address, |w.words|) || s.push.next >= |s.shown| then s
        else s.(block := WriteWords(s.block, w.address, w.words),
                live := Hook(c, s.live, FC_READ_HOLDING, w.address, w.words),
                push := s.push.(next := s.push.next + 1),
                shown := s.shown[s.push.next := Shown(s.push.seen, |s.log|)])
    case EndPush =>
      if !s.push.Pushing? || !s.request.Idle? || s.push.next < |s.push.windows| then s
      else s.(inputs := s.push.flags, live := Hook(c, s.live, FC_READ_DISCRETE, 0, Bits(s.push.flags)),
              push := Resting, complete := s.push.seen)
    case PushFails =>
      s.(push := Resting)
    case Receive(w) =>
      if !s.request.Idle? || !Acceptable(s, w) then s
      else s.(request := InHook(w, Hooked(Writable(c.writeMap), w.fc, w.address, w.words)))
    case HookEnqueues =>
      if !s.request.InHook? || s.request.todo == [] then s
      else
        var d := s.request.todo[0];
        s.(live := InboundBuffer.Step(s.live, Enqueue(d.targetDeviceId, d.commandType, InboundPayload(d))),
           request := s.request.(todo := s.request.todo[1..]))
    case Store =>
      if !s.request.InHook? || s.request.todo != [] then s
      else
        var w := s.request.write;
        if !Fits(s.block, w.address, |w.words|) then s
        else s.(block := WriteWords(s.block, w.address, w.words), request := Idle, log := s.log + [w])
    case DrainDue(now) =>
      s.(live := InboundBuffer.Step(s.live, Drain(now)))
  }

  function Run(c: Config, events: seq<Event>): State
    requires Accepted(c)
  {
    if events == [] then Init(c)
    else Step(c, Run(c, events[..|events| - 1]), events[|events| - 1])
  }

  /** The loop thread does one thing at a time: while a request is in the hook no push begins, goes on or
      ends and no other request comes in, and its words are stored only when nothing is left to
      enqueue; a push neither begins twice nor ends early; and what is no write of the datastore's, or
      not within the block, is not received. */
  lemma OneAtATime(c: Config, s: State, w: MasterWrite)
    ensures s.request.InHook? ==>
              Step(c, s, BeginPush) == Step(c, s, PushWindow) == Step(c, s, EndPush) == Step(c, s, Receive(w)) == s
    ensures s.request.InHook? && s.request.todo != [] ==> Step(c, s, Store) == s
    ensures s.request.InHook? && s.request.todo == [] ==> Step(c, s, HookEnqueues) == s
    ensures s.request.Idle? ==> Step(c, s, HookEnqueues) == Step(c, s, Store) == s
    ensures s.push.Pushing? ==> Step(c, s, BeginPush) == s
    ensures s.push.Pushing? && s.push.next < |s.push.windows| ==> Step(c, s, EndPush) == s
    ensures s.push.Pushing? && s.push.next >= |s.push.windows| ==> Step(c, s, PushWindow) == s
    ensures s.push.Resting? ==> Step(c, s, PushWindow) == Step(c, s, EndPush) == s
    ensures w.fc != 6 && w.fc != 16 && w.fc != 22 && w.fc != 23 ==> Step(c, s, Receive(w)) == s
    ensures (w.fc == 6 || w.fc == 22) && |w.words| != 1 ==> Step(c, s, Receive(w)) == s
    ensures w.address < 0 || w.address + |w.words| > |s.block| ==> Step(c, s, Receive(w)) == s
  {
  }

  // ---- what every reachable state satisfies ----

  predicate Covers(w: MasterWrite, a: int) {
    w.address <= a < w.address + |w.words|
  }

  predicate Touches(w: MasterWrite, address: int) {
    Covers(w, address) || Covers(w, address + 1)
  }

  /** The word that a master stored last in a register, 0 if none ever did. */
  function LastWord(log: seq<MasterWrite>, a: int): Word {
    if log == [] then 0
    else
      var w := log[|log| - 1];
      if Covers(w, a) then w.words[a - w.address] else LastWord(log[..|log| - 1], a)
  }

  ghost predicate Untouched(log: seq<MasterWrite>, since: nat, address: int) {
    forall k :: since <= k < |log| ==> !Touches(log[k], address)
  }

  ghost predicate Shape(c: Config, s: State) {
    && Accepted(c)
    && |s.block| == HoldingCount(c)
    && |s.shown| == |c.registerMap|
    && s.frame == FrameAfter(s.ticks)
    && s.complete <= |s.ticks|
    && (s.request.InHook? ==> Acceptable(s, s.request.write))
    && (s.push.Pushing? ==>
          && s.complete <= s.push.seen <= |s.ticks|
          && s.push.windows == RefreshWindows(c.registerMap, FrameAfter(s.ticks[..s.push.seen]))
          && s.push.flags == DiscreteRange(c.registerMap, FrameAfter(s.ticks[..s.push.seen]), 0, |c.registerMap|)
          && s.push.next <= |s.push.windows|)
  }

  lemma ShapeStep(c: Config, s: State, e: Event)
    requires Shape(c, s)
    ensures Shape(c, Step(c, s, e))
  {
    match e
    case Tick(points) => ShapeTick(c, s, points);
    case BeginPush => assert s.ticks[..|s.ticks|] == s.ticks;
    case PushWindow => ShapePush(c, s);
    case Store => ShapeStore(c, s);
    case _ =>
  }

  lemma ShapeTick(c: Config, s: State, points: seq<Point>)
    requires Shape(c, s)
    ensures Shape(c, Step(c, s, Tick(points)))
  {
    assert (s.ticks + [points])[..|s.ticks|] == s.ticks;
    if s.push.Pushing? {
      assert (s.ticks + [points])[..s.push.seen] == s.ticks[..s.push.seen];
    }
  }

  lemma ShapePush(c: Config, s: State)
    requires Shape(c, s)
    ensures Shape(c, Step(c, s, PushWindow))
  {
  }

  lemma ShapeStore(c: Config, s: State)
    requires Shape(c, s)
    ensures Shape(c, Step(c, s, Store))
  {
  }

  lemma {:induction false} RunShape(c: Config, events: seq<Event>)
    requires Accepted(c)
    ensures Shape(c, Run(c, events))
  {
    BlockCoversExactly(c);
    if events != [] {
      RunShape(c, events[..|events| - 1]);
      ShapeStep(c, Run(c, events[..|events| - 1]), events[|events| - 1]);
    }
  }

  /** The points of the ticks among the events. */
  function TicksOf(events: seq<Event>): seq<seq<Point>> {
    if events == [] then []
    else
      var e := events[|events| - 1];
      TicksOf(events[..|events| - 1]) + (if e.Tick? then [e.points] else [])
  }

  /** No tick is lost: the ticks a state has seen are those of the run, in order, and its frame is that
      of all of them. */
  lemma {:induction false} EveryTickSeen(c: Config, events: seq<Event>)
    requires Accepted(c)
    ensures Run(c, events).ticks == TicksOf(events)
    ensures Run(c, events).frame == FrameAfter(TicksOf(events))
  {
    RunShape(c, events);
    if events != [] {
      EveryTickSeen(c, events[..|events| - 1]);
    }
  }

  // ---- setpoints ----

  /** Outside the read windows the block holds what masters stored. */
  ghost predicate SetpointsKept(c: Config, s: State) {
    forall a :: 0 <= a < |s.block| && !Occupied(a, ReadAddresses(c.registerMap)) ==>
                  s.block[a] == LastWord(s.log, a)
  }

  lemma SetpointsStep(c: Config, s: State, e: Event)
    requires Shape(c, s) && SetpointsKept(c, s)
    ensures SetpointsKept(c, Step(c, s, e))
  {
    var s' := Step(c, s, e);
    if e.PushWindow? && s' != s {
      var k := s.push.next;
      var address := c.registerMap[k].address;
      assert ReadAddresses(c.registerMap)[k] == address;
      forall a | 0 <= a < |s'.block| && !Occupied(a, ReadAddresses(c.registerMap))
        ensures s'.block[a] == LastWord(s'.log, a)
      {
        assert !InWindow(a, address);
        assert s'.block[a] == s.block[a];
      }
    } else if e.Store? && s' != s {
      assert s'.log[..|s.log|] == s.log;
    }
  }

  lemma {:induction false} RunKeepsSetpoints(c: Config, events: seq<Event>)
    requires Accepted(c)
    ensures SetpointsKept(c, Run(c, events))
  {
    if events != [] {
      var prefix := events[..|events| - 1];
      RunKeepsSetpoints(c, prefix);
      RunShape(c, prefix);
      SetpointsStep(c, Run(c, prefix), events[|events| - 1]);
    }
  }

  /** Setpoints survive the refresh: in every run both registers of a write window hold the last
      word a master stored there, or 0. */
  lemma SetpointsSurvive(c: Config, events: seq<Event>, k: nat)
    requires Accepted(c) && k < |c.writeMap|
    ensures var s, a := Run(c, events), c.writeMap[k].address;
            && 0 <= a && a + 1 < |s.block|
            && s.block[a] == LastWord(s.log, a)
            && s.block[a + 1] == LastWord(s.log, a + 1)
  {
    RunShape(c, events);
    RunKeepsSetpoints(c, events);
    BlockCoversExactly(c);
    DisjointWindows(c);
    var a := c.writeMap[k].address;
    forall r | r == a || r == a + 1 ensures !Occupied(r, ReadAddresses(c.registerMap)) {
      forall i | 0 <= i < |c.registerMap| ensures !InWindow(r, ReadAddresses(c.registerMap)[i]) {
        assert Apart(c.registerMap[i].address, a);
      }
    }
  }

  // ---- read windows ----

  ghost predicate WindowsKept(c: Config, s: State) {
    && |s.shown| == |c.registerMap|
    && (forall i :: 0 <= i < |s.shown| ==> WindowKept(c, s, i))
    && (s.push.Pushing? ==> forall i :: 0 <= i < s.push.next && i < |s.shown| ==> s.shown[i].ticks == s.push.seen)
  }

  /** A read window no master wrote to since it was pushed last shows both words of the frame that
      was pushed, which is no older than that of the last push completed. */
  ghost predicate WindowKept(c: Config, s: State, i: nat)
    requires i < |s.shown| == |c.registerMap|
  {
    var m, shown := c.registerMap[i], s.shown[i];
    && shown.since <= |s.log|
    && s.complete <= shown.ticks <= |s.ticks|
    && 0 <= m.address && m.address + 2 <= |s.block|
    && (Untouched(s.log, shown.since, m.address) ==>
          s.block[m.address..m.address + 2] == WindowWords(FrameAfter(s.ticks[..shown.ticks]), m))
  }

  lemma WindowsTick(c: Config, s: State, points: seq<Point>)
    requires Shape(c, s) && WindowsKept(c, s)
    ensures WindowsKept(c, Step(c, s, Tick(points)))
  {
    var s' := Step(c, s, Tick(points));
    forall i | 0 <= i < |s'.shown| ensures WindowKept(c, s', i) {
      assert WindowKept(c, s, i);
      assert s'.ticks[..s'.shown[i].ticks] == s.ticks[..s.shown[i].ticks];
    }
  }

  lemma WindowsPush(c: Config, s: State)
    requires Shape(c, s) && WindowsKept(c, s)
    ensures WindowsKept(c, Step(c, s, PushWindow))
  {
    var s' := Step(c, s, PushWindow);
    if s' != s {
      var k := s.push.next;
      DisjointWindows(c);
      forall i | 0 <= i < |s'.shown| ensures WindowKept(c, s', i) {
        assert WindowKept(c, s, i);
        var a, b := c.registerMap[i].address, c.registerMap[k].address;
        if i != k {
          assert Apart(a, b);
          WriteElsewhere(s.block, b, s.push.windows[k].words, a);
        } else {
          assert s'.block[a..a + 2] == s.push.windows[k].words;
        }
      }
    }
  }

  lemma WindowsStore(c: Config, s: State)
    requires Shape(c, s) && WindowsKept(c, s)
    ensures WindowsKept(c, Step(c, s, Store))
  {
    var s' := Step(c, s, Store);
    if s' != s {
      var w := s.request.write;
      forall i | 0 <= i < |s'.shown| ensures WindowKept(c, s', i) {
        assert WindowKept(c, s, i);
        var a := c.registerMap[i].address;
        if Untouched(s'.log, s'.shown[i].since, a) {
          assert s'.log[|s.log|] == w;
          forall k | s.shown[i].since <= k < |s.log| ensures !Touches(s.log[k], a) {
            assert s'.log[k] == s.log[k];
          }
          UntouchedKeeps(s.block, w, a);
        }
      }
    }
  }

  lemma UntouchedKeeps(block: seq<Word>, w: MasterWrite, a: int)
    requires Fits(block, w.address, |w.words|) && 0 <= a <= |block| - 2 && !Touches(w, a)
    ensures WriteWords(block, w.address, w.words)[a..a + 2] == block[a..a + 2]
  {
    if w.words == [] {
      assert WriteWords(block, w.address, w.words) == block;
    } else {
      WriteElsewhere(block, w.address, w.words, a);
    }
  }

  lemma WindowsStep(c: Config, s: State, e: Event)
    requires Shape(c, s) && WindowsKept(c, s)
    ensures WindowsKept(c, Step(c, s, e))
  {
    match e
    case Tick(points) => WindowsTick(c, s, points);
    case PushWindow => WindowsPush(c, s);
    case Store => WindowsStore(c, s);
    case _ => WindowsElse(c, s, e);
  }

  /** Steps that leave the block, the ticks and the record of pushes alone. */
  lemma WindowsElse(c: Config, s: State, e: Event)
    requires Shape(c, s) && WindowsKept(c, s) && !e.Tick? && !e.PushWindow? && !e.Store?
    ensures WindowsKept(c, Step(c, s, e))
  {
    var s' := Step(c, s, e);
    assert s'.block == s.block && s'.ticks == s.ticks && s'.log == s.log && s'.shown == s.shown;
    forall i | 0 <= i < |s'.shown| ensures WindowKept(c, s', i) {
      assert WindowKept(c, s, i);
    }
  }

  lemma WindowsInit(c: Config)
    requires Accepted(c)
    ensures WindowsKept(c, Init(c))
  {
    var s := Init(c);
    BlockCoversExactly(c);
    forall i | 0 <= i < |s.shown| ensures WindowKept(c, s, i) {
      var m := c.registerMap[i];
      assert s.ticks[..0] == [];
      assert s.block[m.address..m.address + 2] == [0, 0];
    }
  }

  lemma {:induction false} RunKeepsWindows(c: Config, events: seq<Event>)
    requires Accepted(c)
    ensures WindowsKept(c, Run(c, events))
  {
    if events == [] {
      WindowsInit(c);
    } else {
      var prefix := events[..|events| - 1];
      RunKeepsWindows(c, prefix);
      RunShape(c, prefix);
      WindowsStep(c, Run(c, prefix), events[|events| - 1]);
    }
  }

  /** No tearing and bounded age: in every run, a read window that no master wrote to since it was
      pushed last holds the two words of one value, the last point emitted for its device and
      metric in the first `n` ticks, where `n` is no less than the number of ticks the last push
      completed had seen. */
  lemma ReadWindowShowsOneFrame(c: Config, events: seq<Event>, k: nat)
    requires Accepted(c) && k < |c.registerMap|
    ensures var s, m := Run(c, events), c.registerMap[k];
            && |s.shown| == |c.registerMap| && 0 <= m.address && m.address + 2 <= |s.block|
            && s.complete <= s.shown[k].ticks <= |s.ticks|
            && (Untouched(s.log, s.shown[k].since, m.address) ==>
                  s.block[m.address..m.address + 2]
                  == PointWords(LastEmitted(Emitted(s.ticks[..s.shown[k].ticks]), (m.deviceId, m.metric))))
  {
    RunKeepsWindows(c, events);
    var s, m := Run(c, events), c.registerMap[k];
    assert WindowKept(c, s, k);
    FrameHoldsLastEmitted(s.ticks[..s.shown[k].ticks], (m.deviceId, m.metric));
  }

  // ---- discrete inputs ----

  /** The inputs are the flags of the snapshot of the last push completed. */
  ghost predicate InputsKept(c: Config, s: State) {
    && s.complete <= |s.ticks|
    && s.inputs == DiscreteRange(c.registerMap, FrameAfter(s.ticks[..s.complete]), 0, |c.registerMap|)
  }

  lemma InputsStep(c: Config, s: State, e: Event)
    requires Shape(c, s) && InputsKept(c, s)
    ensures InputsKept(c, Step(c, s, e))
  {
    if e.Tick? {
      assert (s.ticks + [e.points])[..s.complete] == s.ticks[..s.complete];
    }
  }

  lemma {:induction false} RunKeepsInputs(c: Config, events: seq<Event>)
    requires Accepted(c)
    ensures InputsKept(c, Run(c, events))
  {
    if events == [] {
      assert Init(c).ticks[..0] == [];
      assert Init(c).inputs == DiscreteRange(c.registerMap, map[], 0, |c.registerMap|);
    } else {
      RunKeepsInputs(c, events[..|events| - 1]);
      RunShape(c, events[..|events| - 1]);
      InputsStep(c, Run(c, events[..|events| - 1]), events[|events| - 1]);
    }
  }

  /** In every run discrete input `k` is set exactly when the last point emitted for the device and
      metric of mapping `k`, in the ticks that the last push completed had seen, is of valid quality.
      Before the first push is complete it is not set. */
  lemma InputsShowQuality(c: Config, events: seq<Event>, k: nat)
    requires Accepted(c) && k < |c.registerMap|
    ensures var s := Run(c, events);
            && |s.inputs| == |c.registerMap| && s.complete <= |s.ticks|
            && (s.inputs[k] <==> LastIsValid(s.ticks[..s.complete], c.registerMap[k]))
            && (s.complete == 0 ==> !s.inputs[k])
  {
    RunKeepsInputs(c, events);
    var s := Run(c, events);
    FlagsShowQuality(c.registerMap, s.ticks[..s.complete], |c.registerMap|, k);
    if s.complete == 0 { assert s.ticks[..0] == []; }
  }

  // ---- commands ----

  type Arrival = (string, string, Payload)

  function ArrivalOf(d: DecodedWrite): Arrival {
    (d.targetDeviceId, d.commandType, InboundPayload(d))
  }

  function ArrivalsOf(ds: seq<DecodedWrite>): seq<Arrival> {
    seq(|ds|, i requires 0 <= i < |ds| => ArrivalOf(ds[i]))
  }

  /** The commands that master writes stand for, in order. */
  function CommandsOf(c: Config, log: seq<MasterWrite>): seq<Arrival> {
    if log == [] then []
    else
      var w := log[|log| - 1];
      CommandsOf(c, log[..|log| - 1])
      + ArrivalsOf(Hooked(Writable(c.writeMap), w.fc, w.address, w.words))
  }

  /** The captured writes followed by the pending ones. */
  function Contents(b: Buffer): seq<Arrival> {
    seq(|b.captured| + |b.pending|, i requires 0 <= i < |b.captured| + |b.pending| => WriteAt(b, i))
  }

  function Received(s: State): seq<MasterWrite> {
    s.log + (if s.request.InHook? then [s.request.write] else [])
  }

  function Todo(s: State): seq<DecodedWrite> {
    if s.request.InHook? then s.request.todo else []
  }

  ghost predicate CommandsKept(c: Config, s: State) {
    && Numbered(s.live)
    && Contents(s.live.buffer) + ArrivalsOf(Todo(s)) == CommandsOf(c, Received(s))
  }

  lemma CommandsReceive(c: Config, s: State, w: MasterWrite)
    requires CommandsKept(c, s) && s.request.Idle? && Acceptable(s, w)
    ensures CommandsKept(c, Step(c, s, Receive(w)))
  {
    var s' := Step(c, s, Receive(w));
    assert Received(s) == s.log;
    assert Received(s')[..|s.log|] == s.log;
    assert ArrivalsOf(Todo(s)) == [];
  }

  lemma CommandsEnqueue(c: Config, s: State)
    requires CommandsKept(c, s) && s.request.InHook? && s.request.todo != []
    ensures CommandsKept(c, Step(c, s, HookEnqueues))
  {
    var s' := Step(c, s, HookEnqueues);
    var d := s.request.todo[0];
    NumberedStep(s.live, Enqueue(d.targetDeviceId, d.commandType, InboundPayload(d)));
    ContentsEnqueued(s.live.buffer, d);
    assert ArrivalsOf(Todo(s)) == [ArrivalOf(d)] + ArrivalsOf(Todo(s'));
    assert Received(s') == Received(s);
  }

  lemma ContentsEnqueued(b: Buffer, d: DecodedWrite)
    ensures Contents(Enqueued(b, d.targetDeviceId, d.commandType, InboundPayload(d))) == Contents(b) + [ArrivalOf(d)]
  {
    var b' := Enqueued(b, d.targetDeviceId, d.commandType, InboundPayload(d));
    forall i | 0 <= i < |b.captured| + |b.pending| ensures WriteAt(b', i) == WriteAt(b, i) {
    }
  }

  lemma CommandsDrain(c: Config, s: State, now: int)
    requires CommandsKept(c, s)
    ensures CommandsKept(c, Step(c, s, DrainDue(now)))
  {
    NumberedStep(s.live, Drain(now));
    NumberedPendingIsSorted(s.live);
    DrainKeepsContents(s.live.buffer, now);
  }

  lemma DrainKeepsContents(b: Buffer, now: int)
    requires Sort(b.pending, Earlier) == b.pending
    ensures Contents(Drained(b, now)) == Contents(b)
  {
    var b', n := Drained(b, now), |b.captured| + |b.pending|;
    forall i | 0 <= i < n ensures |b'.captured| == n && b'.pending == [] && WriteAt(b', i) == WriteAt(b, i) {
      DrainKeepsWrites(b, now, i);
    }
  }

  /** The hook takes what the server itself sets for what it is: only the write codes count. */
  lemma HookPassesReadCodes(c: Config, l: Live, fc: int, address: int, values: seq<int>)
    requires fc == FC_READ_HOLDING || fc == FC_READ_DISCRETE
    ensures Hook(c, l, fc, address, values) == l
  {
    assert fc !in FC_WRITE_HOLDING;
    assert Hooked(Writable(c.writeMap), fc, address, values) == [];
  }

  lemma PushAddsNoCommand(c: Config, s: State, e: Event)
    requires CommandsKept(c, s) && (e.PushWindow? || e.EndPush?)
    ensures CommandsKept(c, Step(c, s, e)) && Step(c, s, e).live == s.live
  {
    var s' := Step(c, s, e);
    if s' != s {
      if e.PushWindow? {
        var w := s.push.windows[s.push.next];
        HookPassesReadCodes(c, s.live, FC_READ_HOLDING, w.address, w.words);
      } else {
        HookPassesReadCodes(c, s.live, FC_READ_DISCRETE, 0, Bits(s.push.flags));
      }
      assert Received(s') == Received(s) && Todo(s') == Todo(s);
    }
  }

  lemma CommandsStep(c: Config, s: State, e: Event)
    requires CommandsKept(c, s)
    ensures CommandsKept(c, Step(c, s, e))
  {
    match e
    case Receive(w) =>
      if s.request.Idle? && Acceptable(s, w) { CommandsReceive(c, s, w); }
    case HookEnqueues =>
      if s.request.InHook? && s.request.todo != [] { CommandsEnqueue(c, s); }
    case DrainDue(now) => CommandsDrain(c, s, now);
    case PushWindow | EndPush => PushAddsNoCommand(c, s, e);
    case Store =>
      var s' := Step(c, s, e);
      assert Received(s') == Received(s);
      assert Todo(s') == Todo(s);
    case _ =>
  }

  lemma {:induction false} RunKeepsCommands(c: Config, events: seq<Event>)
    requires Accepted(c)
    ensures CommandsKept(c, Run(c, events))
  {
    if events != [] {
      RunKeepsCommands(c, events[..|events| - 1]);
      CommandsStep(c, Run(c, events[..|events| - 1]), events[|events| - 1]);
    }
  }

  /** Commands come from master writes alone, and all of them: in every run the writes captured,
      pending and still in the hook are, in order and one for one, the finite setpoint windows
      that masters wrote in full with codes 6, 16 and 23. No push ever adds one. */
  lemma CommandsAreMasterWrites(c: Config, events: seq<Event>)
    requires Accepted(c)
    ensures var s := Run(c, events);
            Contents(s.live.buffer) + ArrivalsOf(Todo(s)) == CommandsOf(c, Received(s))
  {
    RunKeepsCommands(c, events);
  }

  lemma {:induction false} CommandsGrow(c: Config, log: seq<MasterWrite>, i: nat)
    requires i <= |log|
    ensures CommandsOf(c, log[..i]) <= CommandsOf(c, log)
  {
    if i == |log| {
      assert log[..i] == log;
    } else {
      var n := |log| - 1;
      CommandsGrow(c, log[..n], i);
      assert log[..n][..i] == log[..i];
    }
  }

  /** In every run request `i` adds its own commands right after those of the requests before it. */
  lemma RequestAddsCommands(c: Config, events: seq<Event>, i: nat)
    requires Accepted(c) && i < |Received(Run(c, events))|
    ensures var s := Run(c, events);
            var w := Received(s)[i];
            var upTo := CommandsOf(c, Received(s)[..i + 1]);
            && upTo == CommandsOf(c, Received(s)[..i])
                       + ArrivalsOf(Hooked(Writable(c.writeMap), w.fc, w.address, w.words))
            && upTo <= Contents(s.live.buffer) + ArrivalsOf(Todo(s))
  {
    var s := Run(c, events);
    assert Received(s)[..i + 1][..i] == Received(s)[..i];
    CommandsAreMasterWrites(c, events);
    CommandsGrow(c, Received(s), i + 1);
  }

  /** Between requests, captured and pending writes are the commands of the writes stored. */
  lemma IdleContents(c: Config, events: seq<Event>)
    requires Accepted(c) && Run(c, events).request.Idle?
    ensures Contents(Run(c, events).live.buffer) == CommandsOf(c, Run(c, events).log)
  {
    var s := Run(c, events);
    CommandsAreMasterWrites(c, events);
    assert Contents(s.live.buffer) + ArrivalsOf(Todo(s)) == Contents(s.live.buffer);
    assert s.log + [] == s.log;
  }

  /** What the tick loop was handed, command by command, is what masters wrote, in order. */
  lemma HandedAreMasterWrites(c: Config, events: seq<Event>, k: nat)
    requires Accepted(c) && k < |Run(c, events).live.handed|
    ensures var s := Run(c, events);
            var h, all := s.live.handed[k], CommandsOf(c, Received(s));
            k < |all| && (h.target, h.commandType, h.payload) == all[k]
  {
    RunKeepsCommands(c, events);
    var s := Run(c, events);
    assert HandedAs(s.live.handed[k], s.live.buffer.captured[k]);
    assert CommandsOf(c, Received(s))[k] == Contents(s.live.buffer)[k];
  }

  /** In every run a drain hands over, at its own time and in order, all that was captured or pending
      and not handed over yet. */
  lemma DrainInRun(c: Config, events: seq<Event>, now: int)
    requires Accepted(c)
    ensures var l, r := Run(c, events).live, Run(c, events + [DrainDue(now)]).live;
            && r.buffer.pending == [] && |r.handed| == |Contents(l.buffer)| && |l.handed| <= |r.handed|
            && r.handed[..|l.handed|] == l.handed
            && forall i :: |l.handed| <= i < |r.handed| ==>
                 var h := r.handed[i];
                 h.simulationTime == now && (h.target, h.commandType, h.payload) == Contents(l.buffer)[i]
  {
    RunKeepsCommands(c, events);
    DrainHandsOver(Run(c, events).live, now);
    var more := events + [DrainDue(now)];
    assert more[..|more| - 1] == events;
  }

  /** The run can be replayed: whatever ticks, pushes, requests and drains fell in between, the
      capture schedules for each time `t` just what the tick loop was handed at `t`. */
  lemma FieldRunReplays(c: Config, events: seq<Event>, t: int)
    requires Accepted(c)
    ensures var l := Run(c, events).live;
            ScheduledAt(Materialize(l.buffer.captured), t) == HandedAt(l.handed, t)
  {
    RunKeepsCommands(c, events);
    NumberedReplay(Run(c, events).live, t);
  }

  // ---- a request on its own ----

  function Steps(c: Config, s: State, events: seq<Event>): State {
    if events == [] then s
    else Step(c, Steps(c, s, events[..|events| - 1]), events[|events| - 1])
  }

  lemma {:induction false} HookRuns(c: Config, s: State, n: nat)
    requires s.request.InHook? && n <= |s.request.todo|
    ensures var r := Steps(c, s, seq(n, _ => HookEnqueues));
            && r == s.(request := s.request.(todo := s.request.todo[n..]), live := r.live)
            && r.live.buffer == EnqueuedAll(s.live.buffer, s.request.todo[..n])
            && r.live.handed == s.live.handed
  {
    if n > 0 {
      HookRuns(c, s, n - 1);
      assert seq(n, _ => HookEnqueues)[..n - 1] == seq(n - 1, _ => HookEnqueues);
      assert s.request.todo[..n][..n - 1] == s.request.todo[..n - 1];
    }
  }

  /** When nothing falls in between, a request's steps do what the objects do in one call. */
  lemma RequestRuns(c: Config, s: State, w: MasterWrite)
    requires s.request.Idle? && Acceptable(s, w)
    ensures var ds := Hooked(Writable(c.writeMap), w.fc, w.address, w.words);
            var r := Step(c, Steps(c, Step(c, s, Receive(w)), seq(|ds|, _ => HookEnqueues)), Store);
            && r.block == WriteWords(s.block, w.address, w.words)
            && r.live.buffer == EnqueuedAll(s.live.buffer, ds)
            && r == s.(block := r.block, live := r.live, log := s.log + [w])
  {
    var ds := Hooked(Writable(c.writeMap), w.fc, w.address, w.words);
    HookRuns(c, Step(c, s, Receive(w)), |ds|);
    assert ds[..|ds|] == ds;
  }

  lemma {:induction false} RunThen(c: Config, events: seq<Event>, more: seq<Event>)
    requires Accepted(c)
    ensures Run(c, events + more) == Steps(c, Run(c, events), more)
  {
    if more == [] {
      assert events + more == events;
    } else {
      var n := |more| - 1;
      RunThen(c, events, more[..n]);
      assert (events + more)[..|events + more| - 1] == events + more[..n];
    }
  }

  /** The steps of a request for which the hook enqueues `n` commands. */
  function RequestEvents(w: MasterWrite, n: nat): seq<Event> {
    [Receive(w)] + seq(n, _ => HookEnqueues) + [Store]
  }

  lemma StepsSplit(c: Config, s: State, e: Event, events: seq<Event>, last: Event)
    ensures Steps(c, s, [e] + events + [last]) == Step(c, Steps(c, Step(c, s, e), events), last)
  {
    StepsFrom(c, s, e, events);
    assert ([e] + events + [last])[..|events| + 1] == [e] + events;
  }

  lemma {:induction false} StepsFrom(c: Config, s: State, e: Event, events: seq<Event>)
    ensures Steps(c, s, [e] + events) == Steps(c, Step(c, s, e), events)
  {
    if events == [] {
      assert [e] + events == [e] && [e][..0] == [];
    } else {
      var n := |events| - 1;
      StepsFrom(c, s, e, events[..n]);
      assert ([e] + events)[..|events|] == [e] + events[..n];
    }
  }

  /** What a request adds to any run when nothing falls in between: its words are stored, its commands
      follow those before, and nothing else changes. */
  lemma RequestInRun(c: Config, events: seq<Event>, w: MasterWrite)
    requires Accepted(c) && Run(c, events).request.Idle? && Acceptable(Run(c, events), w)
    ensures var ds := Hooked(Writable(c.writeMap), w.fc, w.address, w.words);
            var s, r := Run(c, events), Run(c, events + RequestEvents(w, |ds|));
            && r.block == WriteWords(s.block, w.address, w.words)
            && Contents(r.live.buffer) == Contents(s.live.buffer) + ArrivalsOf(ds)
            && r == s.(block := r.block, live := r.live, log := s.log + [w])
  {
    var ds := Hooked(Writable(c.writeMap), w.fc, w.address, w.words);
    var s, more := Run(c, events), RequestEvents(w, |ds|);
    RequestRuns(c, s, w);
    StepsSplit(c, s, Receive(w), seq(|ds|, _ => HookEnqueues), Store);
    RunThen(c, events, more);
    IdleContents(c, events);
    IdleContents(c, events + more);
    assert (s.log + [w])[..|s.log|] == s.log;
  }

  // ---- a push on its own ----

  lemma WindowsFit(c: Config, s: State)
    requires Shape(c, s)
    ensures AllFit(s.block, RefreshWindows(c.registerMap, s.frame))
  {
    BlockCoversExactly(c);
  }

  /** The state when the first `n` windows of an undisturbed push are written. */
  ghost predicate PushedSoFar(c: Config, s: State, n: nat, r: State) {
    var windows := RefreshWindows(c.registerMap, s.frame);
    && n <= |windows| && AllFit(s.block, windows[..n])
    && r.block == WriteWindows(s.block, windows[..n])
    && |r.shown| == |s.shown|
    && (forall i :: 0 <= i < n && i < |r.shown| ==> r.shown[i] == Shown(|s.ticks|, |s.log|))
    && r.push == Pushing(windows, DiscreteRange(c.registerMap, s.frame, 0, |c.registerMap|), n, |s.ticks|)
    && r == s.(block := r.block, push := r.push, shown := r.shown)
  }

  lemma OneMoreWindow(c: Config, s: State, n: nat, r: State)
    requires Shape(c, s) && s.request.Idle? && n < |c.registerMap| && PushedSoFar(c, s, n, r)
    ensures PushedSoFar(c, s, n + 1, Step(c, r, PushWindow))
  {
    WindowsFit(c, s);
    var windows := RefreshWindows(c.registerMap, s.frame);
    assert windows[..n + 1][..n] == windows[..n];
    HookPassesReadCodes(c, r.live, FC_READ_HOLDING, windows[n].address, windows[n].words);
  }

  lemma {:induction false} WindowsRun(c: Config, s: State, n: nat)
    requires Shape(c, s) && s.push.Resting? && s.request.Idle? && n <= |c.registerMap|
    ensures PushedSoFar(c, s, n, Steps(c, Step(c, s, BeginPush), seq(n, _ => PushWindow)))
  {
    if n > 0 {
      WindowsRun(c, s, n - 1);
      assert seq(n, _ => PushWindow)[..n - 1] == seq(n - 1, _ => PushWindow);
      OneMoreWindow(c, s, n - 1, Steps(c, Step(c, s, BeginPush), seq(n - 1, _ => PushWindow)));
    }
  }

  /** After a push has failed the next one starts afresh, with the frame of that moment; what the failed
      one had written stays. */
  lemma FailedPushRestarts(c: Config, s: State)
    requires s.request.Idle?
    ensures Step(c, Step(c, s, PushFails), BeginPush)
            == s.(push := Pushing(RefreshWindows(c.registerMap, s.frame),
                                  DiscreteRange(c.registerMap, s.frame, 0, |c.registerMap|), 0, |s.ticks|))
  {
  }

  /** When nothing falls in between, the steps of a push do what `Push` does in one call: the
      windows and the flags of one snapshot, and no command. */
  lemma PushRuns(c: Config, s: State)
    requires Shape(c, s) && s.push.Resting? && s.request.Idle?
    ensures var windows := RefreshWindows(c.registerMap, s.frame);
            var pushed := Steps(c, Step(c, s, BeginPush), seq(|c.registerMap|, _ => PushWindow));
            var r := Step(c, pushed, EndPush);
            && AllFit(s.block, windows)
            && r.block == WriteWindows(s.block, windows)
            && r.inputs == DiscreteRange(c.registerMap, s.frame, 0, |c.registerMap|)
            && r.live == s.live && r.push.Resting? && r.complete == |s.ticks|
            && r == s.(block := r.block, inputs := r.inputs, shown := r.shown, complete := r.complete)
  {
    var n := |c.registerMap|;
    var windows := RefreshWindows(c.registerMap, s.frame);
    WindowsRun(c, s, n);
    assert windows[..n] == windows;
    var pushed := Steps(c, Step(c, s, BeginPush), seq(n, _ => PushWindow));
    HookPassesReadCodes(c, pushed.live, FC_READ_DISCRETE, 0, Bits(pushed.push.flags));
  }
}
