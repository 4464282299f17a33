/** The last-value projection and the registers rendered from it
    (adapters/driving/_field_current_value.py, device_server_modbus/_register_map.py). */
module RegisterMaps {
  import opened Floats
  import opened Options
  import opened ServerConfig

  datatype Quality = Valid | Stale | Estimated | Limited | Invalid | NotANumber | Missing | FaultInjected

  datatype Point = Point(
    runId: string, tick: int, simulationTime: int, deviceId: string, metric: string, value: Decimal,
    unit: string, quality: Quality, source: string, sequence: int)

  type Key = (string, string)
  type Frame = map<Key, Point>

  function KeyOf(p: Point): Key {
    (p.deviceId, p.metric)
  }

  // ---- the projection ----

  /** A frame after further points, the last of a key winning. */
  function Updated(frame: Frame, points: seq<Point>): Frame {
    if points == [] then frame
    else
      var p := points[|points| - 1];
      Updated(frame, points[..|points| - 1])[KeyOf(p) := p]
  }

  class CurrentValueProjection {
    var latest: Frame

    constructor ()
      ensures latest == map[]
    {
      latest := map[];
    }

    method UpdateFromTick(points: seq<Point>)
      modifies this
      ensures latest == Updated(old(latest), points)
    {
      if points == [] {
        return;
      }
      var updated := latest;
      for i := 0 to |points|
        invariant latest == old(latest)
        invariant updated == Updated(old(latest), points[..i])
      {
        updated := updated[(points[i].deviceId, points[i].metric) := points[i]];
        assert points[..i + 1][..i] == points[..i];
      }
      assert points[..|points|] == points;
      latest := updated;
    }

    method Latest(deviceId: string, metric: string) returns (point: Option<Point>)
      ensures point == Find(latest, (deviceId, metric))
    {
      point := Find(latest, (deviceId, metric));
    }

    method Snapshot() returns (frame: Frame)
      ensures frame == latest
    {
      frame := latest;
    }
  }

  function Find(frame: Frame, key: Key): Option<Point> {
    if key in frame then Some(frame[key]) else None
  }

  /** The frame after a history of ticks. */
  function FrameAfter(ticks: seq<seq<Point>>): Frame {
    if ticks == [] then map[]
    else Updated(FrameAfter(ticks[..|ticks| - 1]), ticks[|ticks| - 1])
  }

  /** The points of all ticks in the order they were emitted. */
  function Emitted(ticks: seq<seq<Point>>): seq<Point> {
    if ticks == [] then [] else Emitted(ticks[..|ticks| - 1]) + ticks[|ticks| - 1]
  }

  /** The last point ever emitted for a key, looked for from the end. */
  function LastEmitted(points: seq<Point>, key: Key): Option<Point> {
    if points == [] then None
    else
      var p := points[|points| - 1];
      if KeyOf(p) == key then Some(p) else LastEmitted(points[..|points| - 1], key)
  }

  lemma {:induction false} UpdatedTwice(frame: Frame, a: seq<Point>, b: seq<Point>)
    ensures Updated(Updated(frame, a), b) == Updated(frame, a + b)
    decreases |b|
  {
    if b == [] {
      assert a + b == a;
    } else {
      var n := |b| - 1;
      UpdatedTwice(frame, a, b[..n]);
      assert (a + b)[..|a + b| - 1] == a + b[..n];
    }
  }

  lemma {:induction false} UpdatedIsLast(points: seq<Point>, key: Key)
    ensures Find(Updated(map[], points), key) == LastEmitted(points, key)
  {
    if points != [] {
      UpdatedIsLast(points[..|points| - 1], key);
    }
  }

  lemma {:induction false} FrameIsUpdated(ticks: seq<seq<Point>>)
    ensures FrameAfter(ticks) == Updated(map[], Emitted(ticks))
  {
    if ticks != [] {
      var n := |ticks| - 1;
      FrameIsUpdated(ticks[..n]);
      UpdatedTwice(map[], Emitted(ticks[..n]), ticks[n]);
    }
  }

  /** After any history of ticks the projection holds, for each key, the last point emitted. */
  lemma FrameHoldsLastEmitted(ticks: seq<seq<Point>>, key: Key)
    ensures Find(FrameAfter(ticks), key) == LastEmitted(Emitted(ticks), key)
  {
    FrameIsUpdated(ticks);
    UpdatedIsLast(Emitted(ticks), key);
  }

  // ---- registers ----

  function PointWords(point: Option<Point>): seq<Word>
    ensures |PointWords(point)| == 2
  {
    if point.None? then [0, 0]
    else
      var (high, low) := EncodeFloat32(point.value.value);
      [high, low]
  }

  /** `_window_words`. */
  function WindowWords(frame: Frame, m: RegisterMapping): seq<Word>
    ensures |WindowWords(frame, m)| == 2
  {
    PointWords(Find(frame, (m.deviceId, m.metric)))
  }

  /** The address topology: which mapping a register belongs to and which of its words it is. */
  function Topology(rs: seq<RegisterMapping>): map<int, (RegisterMapping, nat)> {
    if rs == [] then map[]
    else
      var m := rs[|rs| - 1];
      Topology(rs[..|rs| - 1])[m.address := (m, 0)][m.address + 1 := (m, 1)]
  }

  /** `_holding_at`. */
  function HoldingAt(topology: map<int, (RegisterMapping, nat)>, frame: Frame, address: int): Word {
    if address !in topology then 0
    else
      var (m, word) := topology[address];
      if (m.deviceId, m.metric) !in frame then 0
      else
        var (high, low) := EncodeFloat32(frame[(m.deviceId, m.metric)].value);
        if word == 0 then high else low
  }

  function DiscreteTopology(rs: seq<RegisterMapping>): map<int, RegisterMapping> {
    map i | 0 <= i < |rs| :: rs[i]
  }

  /** `_discrete_at`. */
  function DiscreteAt(discrete: map<int, RegisterMapping>, frame: Frame, index: int): bool {
    if index !in discrete then false
    else
      var point := Find(frame, (discrete[index].deviceId, discrete[index].metric));
      point.Some? && point.value.quality.Valid?
  }

  function HoldingRange(rs: seq<RegisterMapping>, frame: Frame, address: int, count: nat): seq<Word> {
    seq<Word>(count, i requires 0 <= i < count => HoldingAt(Topology(rs), frame, address + i))
  }

  function DiscreteRange(rs: seq<RegisterMapping>, frame: Frame, address: int, count: nat): seq<bool> {
    seq(count, i requires 0 <= i < count => DiscreteAt(DiscreteTopology(rs), frame, address + i))
  }

  /** The address of a window and its two words. */
  datatype Window = Window(address: int, words: seq<Word>)

  function RefreshWindows(rs: seq<RegisterMapping>, frame: Frame): seq<Window> {
    seq(|rs|, i requires 0 <= i < |rs| => Window(rs[i].address, WindowWords(frame, rs[i])))
  }

  class RegisterMap {
    const projection: CurrentValueProjection
    const readMappings: seq<RegisterMapping>
    var holding: map<int, (RegisterMapping, nat)>
    var discrete: map<int, RegisterMapping>

    ghost predicate Valid()
      reads this
    {
      && holding == Topology(readMappings)
      && discrete == DiscreteTopology(readMappings)
    }

    constructor (config: Config, projection: CurrentValueProjection)
      ensures Valid()
      ensures this.projection == projection && readMappings == config.registerMap
    {
      this.projection := projection;
      this.readMappings := config.registerMap;
      holding, discrete := map[], map[];
      new;
      var rs := config.registerMap;
      for index := 0 to |rs|
        invariant holding == Topology(rs[..index])
        invariant discrete == DiscreteTopology(rs[..index])
      {
        holding := holding[rs[index].address := (rs[index], 0)];
        holding := holding[rs[index].address + 1 := (rs[index], 1)];
        discrete := discrete[index := rs[index]];
        assert rs[..index + 1][..index] == rs[..index];
      }
      assert rs[..|rs|] == rs;
    }

    /** `holding_registers`: one snapshot for all of them. */
    method HoldingRegisters(address: int, count: nat) returns (words: seq<Word>)
      requires Valid()
      ensures words == HoldingRange(readMappings, projection.latest, address, count)
    {
      var frame := projection.Snapshot();
      var topology := holding;
      words := seq<Word>(count, i requires 0 <= i < count => HoldingAt(topology, frame, address + i));
    }

    method DiscreteInputs(address: int, count: nat) returns (flags: seq<bool>)
      requires Valid()
      ensures flags == DiscreteRange(readMappings, projection.latest, address, count)
    {
      var frame := projection.Snapshot();
      var mappings := discrete;
      flags := seq(count, i requires 0 <= i < count => DiscreteAt(mappings, frame, address + i));
    }

    method Render(holdingCount: nat, discreteCount: nat) returns (words: seq<Word>, flags: seq<bool>)
      requires Valid()
      ensures words == HoldingRange(readMappings, projection.latest, 0, holdingCount)
      ensures flags == DiscreteRange(readMappings, projection.latest, 0, discreteCount)
    {
      var frame := projection.Snapshot();
      var topology, mappings := holding, discrete;
      words := seq<Word>(holdingCount, i requires 0 <= i < holdingCount => HoldingAt(topology, frame, i));
      flags := seq(discreteCount, i requires 0 <= i < discreteCount => DiscreteAt(mappings, frame, i));
    }

    method RefreshFrame(discreteCount: nat) returns (windows: seq<Window>, flags: seq<bool>)
      requires Valid()
      ensures windows == RefreshWindows(readMappings, projection.latest)
      ensures flags == DiscreteRange(readMappings, projection.latest, 0, discreteCount)
    {
      var frame := projection.Snapshot();
      var mappings := discrete;
      windows := seq(|readMappings|, i requires 0 <= i < |readMappings| =>
        Window(readMappings[i].address, WindowWords(frame, readMappings[i])));
      flags := seq(discreteCount, i requires 0 <= i < discreteCount => DiscreteAt(mappings, frame, i));
    }
  }

  // ---- writing words into a block ----

  predicate Fits(block: seq<Word>, address: int, count: nat) {
    0 <= address && address + count <= |block|
  }

  function WriteWords(block: seq<Word>, address: int, words: seq<Word>): seq<Word>
    requires Fits(block, address, |words|)
    ensures |WriteWords(block, address, words)| == |block|
  {
    block[..address] + words + block[address + |words|..]
  }

  /** Writing word by word. */
  lemma WriteOneMore(block: seq<Word>, address: int, words: seq<Word>, i: nat)
    requires Fits(block, address, |words|) && i < |words|
    ensures WriteWords(block, address, words[..i + 1])
            == WriteWords(block, address, words[..i])[address + i := words[i]]
  {
    assert words[..i + 1] == words[..i] + [words[i]];
  }

  /** A window next to what is written keeps its words. */
  lemma WriteElsewhere(block: seq<Word>, address: int, words: seq<Word>, a: int)
    requires Fits(block, address, |words|) && 0 <= a <= |block| - 2
    requires a + 2 <= address || address + |words| <= a
    ensures WriteWords(block, address, words)[a..a + 2] == block[a..a + 2]
  {
  }

  predicate AllFit(block: seq<Word>, windows: seq<Window>) {
    forall i :: 0 <= i < |windows| ==> Fits(block, windows[i].address, |windows[i].words|)
  }

  function WriteWindows(block: seq<Word>, windows: seq<Window>): seq<Word>
    requires AllFit(block, windows)
    ensures |WriteWindows(block, windows)| == |block|
  {
    if windows == [] then block
    else
      var w := windows[|windows| - 1];
      var before := WriteWindows(block, windows[..|windows| - 1]);
      WriteWords(before, w.address, w.words)
  }

  lemma OneMoreWritten(block: seq<Word>, windows: seq<Window>, i: nat)
    requires AllFit(block, windows) && i < |windows|
    ensures AllFit(block, windows[..i]) && AllFit(block, windows[..i + 1])
    ensures WriteWindows(block, windows[..i + 1])
            == WriteWords(WriteWindows(block, windows[..i]), windows[i].address, windows[i].words)
  {
    assert windows[..i + 1][..i] == windows[..i];
  }

  function Zeros(count: nat): seq<Word> {
    seq(count, _ => 0)
  }

  // ---- the sparse refresh against the full rendering ----

  lemma {:induction false} RefreshAt(rs: seq<RegisterMapping>, frame: Frame, count: nat, a: nat)
    requires a < count
    requires forall i :: 0 <= i < |rs| ==> 0 <= rs[i].address && rs[i].address + 2 <= count
    ensures AllFit(Zeros(count), RefreshWindows(rs, frame))
    ensures WriteWindows(Zeros(count), RefreshWindows(rs, frame))[a] == HoldingAt(Topology(rs), frame, a)
  {
    if rs != [] {
      var n := |rs| - 1;
      RefreshAt(rs[..n], frame, count, a);
      var ws := RefreshWindows(rs, frame);
      assert ws[..n] == RefreshWindows(rs[..n], frame);
      assert AllFit(Zeros(count), ws[..n]);
      LastWindowAt(WriteWindows(Zeros(count), ws[..n]), rs, frame, a);
    }
  }

  /** The last window overrides the topology and the block alike. */
  lemma LastWindowAt(block: seq<Word>, rs: seq<RegisterMapping>, frame: Frame, a: nat)
    requires rs != [] && a < |block| && Fits(block, rs[|rs| - 1].address, 2)
    requires block[a] == HoldingAt(Topology(rs[..|rs| - 1]), frame, a)
    ensures var m := rs[|rs| - 1];
            WriteWords(block, m.address, WindowWords(frame, m))[a] == HoldingAt(Topology(rs), frame, a)
  {
    TopologyLast(rs, a);
    WindowOverrides(block, rs[|rs| - 1], Topology(rs), Topology(rs[..|rs| - 1]), frame, a);
  }

  /** `t` is the topology that maps the window of `m` to it and is `before` elsewhere. */
  predicate Extends(t: map<int, (RegisterMapping, nat)>, before: map<int, (RegisterMapping, nat)>,
                    m: RegisterMapping, a: int) {
    if a == m.address then a in t && t[a] == (m, 0)
    else if a == m.address + 1 then a in t && t[a] == (m, 1)
    else (a in t <==> a in before) && (a in t ==> t[a] == before[a])
  }

  lemma WindowOverrides(block: seq<Word>, m: RegisterMapping, t: map<int, (RegisterMapping, nat)>,
                        before: map<int, (RegisterMapping, nat)>, frame: Frame, a: nat)
    requires a < |block| && Fits(block, m.address, 2) && Extends(t, before, m, a)
    requires block[a] == HoldingAt(before, frame, a)
    ensures WriteWords(block, m.address, WindowWords(frame, m))[a] == HoldingAt(t, frame, a)
  {
    WrittenAt(block, m.address, WindowWords(frame, m), a);
    if a == m.address {
      HoldingOfWindow(t, frame, a, m, 0);
    } else if a == m.address + 1 {
      HoldingOfWindow(t, frame, a, m, 1);
    }
  }

  lemma WrittenAt(block: seq<Word>, address: int, words: seq<Word>, a: nat)
    requires Fits(block, address, |words|) && a < |block|
    ensures WriteWords(block, address, words)[a]
            == if address <= a < address + |words| then words[a - address] else block[a]
  {
  }

  lemma TopologyLast(rs: seq<RegisterMapping>, a: int)
    requires rs != []
    ensures Extends(Topology(rs), Topology(rs[..|rs| - 1]), rs[|rs| - 1], a)
  {
  }

  lemma HoldingOfWindow(t: map<int, (RegisterMapping, nat)>, frame: Frame, a: int, m: RegisterMapping, word: nat)
    requires word < 2 && a in t && t[a] == (m, word)
    ensures HoldingAt(t, frame, a) == WindowWords(frame, m)[word]
  {
  }

  /** Writing the refresh frame's windows into a zeroed block gives, at every address, what the
      full rendering gives. (Where windows overlap both let the later mapping win.) */
  lemma RefreshRefinesRender(rs: seq<RegisterMapping>, frame: Frame, count: nat)
    requires forall i :: 0 <= i < |rs| ==> 0 <= rs[i].address && rs[i].address + 2 <= count
    ensures AllFit(Zeros(count), RefreshWindows(rs, frame))
    ensures WriteWindows(Zeros(count), RefreshWindows(rs, frame)) == HoldingRange(rs, frame, 0, count)
  {
    var windows := RefreshWindows(rs, frame);
    assert AllFit(Zeros(count), windows);
    forall a | 0 <= a < count
      ensures WriteWindows(Zeros(count), windows)[a] == HoldingRange(rs, frame, 0, count)[a]
    {
      RefreshAt(rs, frame, count, a);
    }
  }

  /** In a profile with disjoint windows every mapping is found at both its registers. */
  lemma {:induction false} TopologyOfDisjoint(rs: seq<RegisterMapping>, k: nat)
    requires k < |rs|
    requires forall i, j :: 0 <= i < j < |rs| ==> Apart(rs[i].address, rs[j].address)
    ensures rs[k].address in Topology(rs) && Topology(rs)[rs[k].address] == (rs[k], 0)
    ensures rs[k].address + 1 in Topology(rs) && Topology(rs)[rs[k].address + 1] == (rs[k], 1)
  {
    var n := |rs| - 1;
    if k < n {
      TopologyOfDisjoint(rs[..n], k);
      assert Apart(rs[k].address, rs[n].address);
    }
  }

  lemma {:induction false} TopologyOutside(rs: seq<RegisterMapping>, a: int)
    requires forall i :: 0 <= i < |rs| ==> !InWindow(a, rs[i].address)
    ensures a !in Topology(rs)
  {
    if rs != [] {
      TopologyOutside(rs[..|rs| - 1], a);
      assert !InWindow(a, rs[|rs| - 1].address);
    }
  }

  lemma WindowShows(rs: seq<RegisterMapping>, frame: Frame, k: nat)
    requires k < |rs|
    requires forall i, j :: 0 <= i < j < |rs| ==> Apart(rs[i].address, rs[j].address)
    ensures HoldingAt(Topology(rs), frame, rs[k].address) == WindowWords(frame, rs[k])[0]
    ensures HoldingAt(Topology(rs), frame, rs[k].address + 1) == WindowWords(frame, rs[k])[1]
  {
    TopologyOfDisjoint(rs, k);
  }

  lemma WindowRendered(rs: seq<RegisterMapping>, frame: Frame, k: nat, count: nat)
    requires k < |rs| && 0 <= rs[k].address && rs[k].address + 2 <= count
    requires forall i, j :: 0 <= i < j < |rs| ==> Apart(rs[i].address, rs[j].address)
    ensures HoldingRange(rs, frame, 0, count)[rs[k].address..rs[k].address + 2] == WindowWords(frame, rs[k])
  {
    WindowShows(rs, frame, k);
    var a, w := rs[k].address, WindowWords(frame, rs[k]);
    assert w == [w[0], w[1]];
  }

  /** After any history of ticks, an accepted profile renders each read window as the encoding of
      the last point ever emitted for its device and metric, and every other register as 0. */
  lemma RenderShowsLastEmitted(c: Config, ticks: seq<seq<Point>>, count: nat)
    requires Disjoint(Addresses(c))
    requires forall i :: 0 <= i < |c.registerMap| ==>
               0 <= c.registerMap[i].address && c.registerMap[i].address + 2 <= count
    ensures var words := HoldingRange(c.registerMap, FrameAfter(ticks), 0, count);
            && (forall k :: 0 <= k < |c.registerMap| ==>
                  var m := c.registerMap[k];
                  words[m.address..m.address + 2]
                  == PointWords(LastEmitted(Emitted(ticks), (m.deviceId, m.metric))))
            && (forall a :: 0 <= a < count && !Occupied(a, ReadAddresses(c.registerMap)) ==> words[a] == 0)
  {
    var rs, frame := c.registerMap, FrameAfter(ticks);
    DisjointWindows(c);
    forall k | 0 <= k < |rs|
      ensures HoldingRange(rs, frame, 0, count)[rs[k].address..rs[k].address + 2]
              == PointWords(LastEmitted(Emitted(ticks), (rs[k].deviceId, rs[k].metric)))
    {
      WindowRendered(rs, frame, k, count);
      FrameHoldsLastEmitted(ticks, (rs[k].deviceId, rs[k].metric));
    }
    forall a | 0 <= a < count && !Occupied(a, ReadAddresses(rs))
      ensures HoldingRange(rs, frame, 0, count)[a] == 0
    {
      UnmappedIsZero(rs, frame, a);
    }
  }

  lemma UnmappedIsZero(rs: seq<RegisterMapping>, frame: Frame, a: int)
    requires !Occupied(a, ReadAddresses(rs))
    ensures HoldingAt(Topology(rs), frame, a) == 0
  {
    forall i | 0 <= i < |rs| ensures !InWindow(a, rs[i].address) {
      assert ReadAddresses(rs)[i] == rs[i].address;
    }
    TopologyOutside(rs, a);
  }

  /** The last point emitted for a mapping's device and metric, if it is valid. */
  ghost predicate LastIsValid(ticks: seq<seq<Point>>, m: RegisterMapping) {
    match LastEmitted(Emitted(ticks), (m.deviceId, m.metric))
    case None => false
    case Some(p) => p.quality == Quality.Valid
  }

  /** After any history of ticks, discrete input `k` is set exactly when there is a mapping `k` and the
      last point ever emitted for its device and metric is of valid quality. */
  lemma FlagsShowQuality(rs: seq<RegisterMapping>, ticks: seq<seq<Point>>, count: nat, k: nat)
    requires k < count
    ensures DiscreteRange(rs, FrameAfter(ticks), 0, count)[k] <==> k < |rs| && LastIsValid(ticks, rs[k])
  {
    if k < |rs| {
      FrameHoldsLastEmitted(ticks, (rs[k].deviceId, rs[k].metric));
    }
  }
}
