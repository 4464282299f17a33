/** The allowlisted `str` to `Decimal` coercion of a scenario document (scenario_yaml.py).

    The methods follow the code function by function. What they compute is stated against `Apply`,
    an interpreter of the allowlist written as a schema, and what the documentation promises of the
    coercion is proved of `Apply` path by path. */
module ScenarioCoercion {
  import opened Floats
  import opened Options

  /** A document as the YAML or JSON reader returns it. */
  datatype Yaml =
    | Map(entries: map<string, Yaml>)
    | List(items: seq<Yaml>)
    | Str(text: string)
    | Dec(value: Decimal)
    | Bool(flag: bool)
    | Int(int_value: int)
    | Float(double: Double)
    | Null

  /** NotDecimal is the typed coercion error. Unhashable is the bare TypeError of looking up a list
      or a mapping in a frozenset. */
  datatype Result<+T> = Ok(value: T) | NotDecimal | Unhashable

  /** `Decimal(text)`, None standing for InvalidOperation. */
  type Parser = string -> Option<Decimal>

  // ---- the allowlist ----

  const DEVICE_DECIMAL_PARAMS: set<string> :=
    BATTERY_PARAMS + LIMIT_PARAMS + CHARGER_PARAMS + TRANSFORMER_PARAMS + WIND_PARAMS + DIESEL_PARAMS

  const BATTERY_PARAMS: set<string> := {
    "rated_power_kw", "capacity_kwh", "initial_soc_pct", "min_soc_pct", "max_soc_pct", "max_charge_kw" }
  const LIMIT_PARAMS: set<string> := {
    "max_discharge_kw", "charge_efficiency", "discharge_efficiency", "ramp_kw_per_s",
    "nominal_voltage_v", "max_import_kw", "max_export_kw" }
  const CHARGER_PARAMS: set<string> := { "battery_capacity_kwh", "cv_phase_start_soc", "initial_soc" }
  const TRANSFORMER_PARAMS: set<string> := {
    "primary_voltage_v", "turns_ratio", "no_load_loss_kw", "load_loss_kw" }
  const WIND_PARAMS: set<string> := {
    "cut_in_speed_ms", "rated_speed_ms", "cut_out_speed_ms", "min_wind_speed_ms", "max_wind_speed_ms" }
  const DIESEL_PARAMS: set<string> := {
    "max_power_kw", "min_start_power_kw", "min_stop_power_kw", "fuel_capacity_l", "initial_fuel_l",
    "fuel_per_kwh_l" }

  const DEVICE_DECIMAL_BLOCKS: set<string> := { "thermal", "health", "dc_bus", "reactive" }

  const GRID_MODEL_DECIMAL_FIELDS: set<string> := {
    "nominal_frequency_hz", "frequency_sensitivity_hz_per_kw", "frequency_clamp_min_hz",
    "frequency_clamp_max_hz", "nominal_voltage_v", "voltage_sensitivity_v_per_kw",
    "voltage_clamp_min_v", "voltage_clamp_max_v" }

  const LOAD_EVENT_DECIMAL_FIELDS: set<string> := { "start_s", "duration_s", "power_kw" }

  const PAYLOAD_DECIMAL_KEYS: set<string> := { "value", "power_kw" }

  const COMMAND_DECIMAL_VALUE_TYPES: set<string> := { "set_charge_power", "set_power_kw" }

  /** The allowlist as a value: most of what follows holds for any allowlist whose blocks are not
      also fields. */
  datatype Allowlist = Allowlist(
    params: set<string>,
    blocks: set<string>,
    grid: set<string>,
    events: set<string>,
    payload: set<string>,
    types: set<string>)
  {
    predicate Separate() {
      params !! blocks
    }
  }

  const ALLOWLIST := Allowlist(
    DEVICE_DECIMAL_PARAMS, DEVICE_DECIMAL_BLOCKS, GRID_MODEL_DECIMAL_FIELDS,
    LOAD_EVENT_DECIMAL_FIELDS, PAYLOAD_DECIMAL_KEYS, COMMAND_DECIMAL_VALUE_TYPES)

  /** What to do with a node: nothing, read it as a decimal, or go on below it. `Command` goes on
      below `payload` when the entry's `type` is one of the given. */
  datatype Schema =
    | Decimals
    | Fields(fields: map<string, Schema>)
    | Values(each: Schema)
    | Items(item: Schema)
    | Command(types: set<string>, payload: Schema)

  function DecimalFields(names: set<string>): Schema {
    Fields(map k | k in names :: Decimals)
  }

  /** Named fields that are decimals, and named blocks all of whose fields are. */
  function FieldsAndBlocks(names: set<string>, blocks: set<string>): Schema {
    Fields((map k | k in names :: Decimals) + (map b | b in blocks :: Values(Decimals)))
  }

  function Device(a: Allowlist): Schema {
    Fields(map["params" := FieldsAndBlocks(a.params, a.blocks)])
  }

  function LoadProfile(): Schema {
    Fields(map["tick_values" := Items(Decimals)])
  }

  function Rule(a: Allowlist): Schema {
    Fields(map["action" := Fields(map["payload" := DecimalFields(a.payload)])])
  }

  function Agent(a: Allowlist): Schema {
    Fields(map["params" := Fields(map["rules" := Items(Rule(a))])])
  }

  function CommandEntry(a: Allowlist): Schema {
    Command(a.types, DecimalFields(a.payload))
  }

  function Scenario(a: Allowlist): Schema {
    Fields(map[
      "devices" := Items(Device(a)),
      "grid_model" := DecimalFields(a.grid),
      "load_events" := Items(DecimalFields(a.events)),
      "load_profiles" := Items(LoadProfile()),
      "agents" := Values(Agent(a)),
      "commands" := Items(CommandEntry(a))])
  }

  // ---- interpreting a schema ----

  predicate HasTypeIn(types: set<string>, m: map<string, Yaml>) {
    "type" in m && m["type"].Str? && m["type"].text in types
  }

  /** Lists and mappings cannot be looked up in a set. */
  predicate UnhashableType(m: map<string, Yaml>) {
    "type" in m && (m["type"].List? || m["type"].Map?)
  }

  /** The schema that applies to what mapping `m` holds under `k`. */
  function Under(s: Schema, m: map<string, Yaml>, k: string): (r: Option<Schema>)
    ensures r.Some? ==> r.value < s
  {
    match s
    case Fields(fields) => if k in fields then Some(fields[k]) else None
    case Values(each) => Some(each)
    case Command(types, payload) => if k == "payload" && HasTypeIn(types, m) then Some(payload) else None
    case _ => None
  }

  function Read(parse: Parser, text: string): Result<Yaml> {
    match parse(text)
    case Some(d) => Ok(Dec(d))
    case None => NotDecimal
  }

  function Apply(parse: Parser, s: Schema, y: Yaml): Result<Yaml>
    decreases s, 1
  {
    match y
    case Str(text) => if s.Decimals? then Read(parse, text) else Ok(y)
    case Map(m) =>
      if s.Command? && UnhashableType(m) then Unhashable
      else GatherMap(map k | k in m :: ApplyUnder(parse, s, m, k))
    case List(items) =>
      if s.Items? then GatherList(ApplyAll(parse, s.item, items)) else Ok(y)
    case _ => Ok(y)
  }

  function ApplyUnder(parse: Parser, s: Schema, m: map<string, Yaml>, k: string): Result<Yaml>
    requires k in m
    decreases s, 0
  {
    var below := Under(s, m, k);
    if below.Some? then Apply(parse, below.value, m[k]) else Ok(m[k])
  }

  function ApplyAll(parse: Parser, s: Schema, items: seq<Yaml>): (rs: seq<Result<Yaml>>)
    ensures |rs| == |items|
    ensures forall i :: 0 <= i < |items| ==> rs[i] == Apply(parse, s, items[i])
    decreases s, |items| + 2
  {
    if items == [] then [] else [Apply(parse, s, items[0])] + ApplyAll(parse, s, items[1..])
  }

  /** Every entry, or the error: the keys of one mapping never fail in two ways that the order of
      keys would have to choose between, since only `commands` can be Unhashable and it comes last. */
  function GatherMap(rs: map<string, Result<Yaml>>): Result<Yaml> {
    if forall k :: k in rs ==> rs[k].Ok? then Ok(Map(map k | k in rs :: rs[k].value))
    else if exists k :: k in rs && rs[k].NotDecimal? then NotDecimal
    else Unhashable
  }

  /** Every item, or the error of the first item that has one. */
  function GatherList(rs: seq<Result<Yaml>>): Result<Yaml> {
    if forall i :: 0 <= i < |rs| ==> rs[i].Ok? then Ok(List(seq(|rs|, i requires 0 <= i < |rs| => rs[i].value)))
    else FirstError(rs)
  }

  function FirstError(rs: seq<Result<Yaml>>): Result<Yaml>
    requires exists i :: 0 <= i < |rs| && !rs[i].Ok?
  {
    if !rs[0].Ok? then rs[0] else FirstError(rs[1..])
  }

  // ---- paths ----

  datatype Step = Key(key: string) | Index(index: nat)

  type Path = seq<Step>

  function Child(y: Yaml, step: Step): Option<Yaml> {
    match step
    case Key(k) => if y.Map? && k in y.entries then Some(y.entries[k]) else None
    case Index(i) => if y.List? && i < |y.items| then Some(y.items[i]) else None
  }

  function At(y: Yaml, p: Path): Option<Yaml>
    decreases |p|
  {
    if p == [] then Some(y)
    else
      var c := Child(y, p[0]);
      if c.Some? then At(c.value, p[1..]) else None
  }

  /** A node without what is below it: its keys, its length, or the leaf itself. Two documents with
      the same node at every path are the same document. */
  datatype Node = MapNode(keys: set<string>) | ListNode(length: nat) | Leaf(leaf: Yaml)

  function NodeOf(y: Yaml): Node {
    if y.Map? then MapNode(y.entries.Keys) else if y.List? then ListNode(|y.items|) else Leaf(y)
  }

  function NodeAt(y: Yaml, p: Path): Option<Node> {
    var found := At(y, p);
    if found.Some? then Some(NodeOf(found.value)) else None
  }

  /** The schema for the child at `step`. */
  function Below(s: Schema, y: Yaml, step: Step): Option<Schema> {
    match step
    case Key(k) => if y.Map? then Under(s, y.entries, k) else None
    case Index(_) => if s.Items? then Some(s.item) else None
  }

  /** The schema `s` leads to along `p` in `y`, with the node found there. */
  function Reach(s: Schema, y: Yaml, p: Path): Option<(Schema, Yaml)>
    decreases |p|
  {
    if p == [] then Some((s, y))
    else
      var c, below := Child(y, p[0]), Below(s, y, p[0]);
      if c.Some? && below.Some? then Reach(below.value, c.value, p[1..]) else None
  }

  /** A string that has to become a decimal. */
  predicate Wanted(met: Option<(Schema, Yaml)>) {
    met.Some? && met.value.0.Decimals? && met.value.1.Str?
  }

  /** A command whose `type` cannot be looked up. */
  predicate Untypable(met: Option<(Schema, Yaml)>) {
    met.Some? && met.value.0.Command? && met.value.1.Map? && UnhashableType(met.value.1.entries)
  }

  predicate Fine(parse: Parser, met: Option<(Schema, Yaml)>) {
    !Untypable(met) && (Wanted(met) ==> parse(met.value.1.text).Some?)
  }

  /** What applying a schema does to one child. */
  lemma ChildApplied(parse: Parser, s: Schema, y: Yaml, step: Step)
    requires Apply(parse, s, y).Ok? && Child(y, step).Some?
    ensures var c, below := Child(y, step).value, Below(s, y, step);
            var c' := Child(Apply(parse, s, y).value, step);
            if below.Some?
            then Apply(parse, below.value, c).Ok? && c' == Some(Apply(parse, below.value, c).value)
            else c' == Some(c)
  {
    match step
    case Key(k) =>
      var rs := map j | j in y.entries :: ApplyUnder(parse, s, y.entries, j);
      assert rs[k].Ok? && Apply(parse, s, y).value == Map(map j | j in rs :: rs[j].value);
    case Index(i) =>
      if s.Items? {
        var rs := ApplyAll(parse, s.item, y.items);
        GatherListOk(rs);
        assert rs[i] == Apply(parse, s.item, y.items[i]);
      }
  }

  lemma {:induction false} FirstErrorIsError(rs: seq<Result<Yaml>>)
    requires exists i :: 0 <= i < |rs| && !rs[i].Ok?
    ensures exists i :: 0 <= i < |rs| && FirstError(rs) == rs[i] && !rs[i].Ok?
  {
    if rs[0].Ok? {
      FirstErrorIsError(rs[1..]);
    }
  }

  lemma GatherListOk(rs: seq<Result<Yaml>>)
    ensures GatherList(rs).Ok? <==> forall i :: 0 <= i < |rs| ==> rs[i].Ok?
  {
    if exists i :: 0 <= i < |rs| && !rs[i].Ok? {
      FirstErrorIsError(rs);
    }
  }

  lemma NodeApplied(parse: Parser, s: Schema, y: Yaml)
    requires Apply(parse, s, y).Ok?
    ensures Fine(parse, Some((s, y)))
    ensures var v := Apply(parse, s, y).value;
            NodeOf(v) == if s.Decimals? && y.Str? then Leaf(Dec(parse(y.text).value)) else NodeOf(y)
  {
    if y.List? && s.Items? {
      GatherListOk(ApplyAll(parse, s.item, y.items));
    } else if y.Map? {
      assert Apply(parse, s, y).value.entries.Keys == y.entries.Keys;
    }
  }

  /** A coercion that succeeds changes exactly the wanted strings: the decimal each spells stands
      at its path, and every other path holds the node it held. */
  lemma {:induction false} ChangesExactly(parse: Parser, s: Schema, y: Yaml, p: Path)
    requires Apply(parse, s, y).Ok?
    ensures var met, v := Reach(s, y, p), Apply(parse, s, y).value;
            && Fine(parse, met)
            && NodeAt(v, p) == if Wanted(met) then Some(Leaf(Dec(parse(met.value.1.text).value))) else NodeAt(y, p)
    decreases |p|
  {
    var v := Apply(parse, s, y).value;
    NodeApplied(parse, s, y);
    if p != [] {
      var c := Child(y, p[0]);
      if c.Some? {
        ChildApplied(parse, s, y, p[0]);
        var below := Below(s, y, p[0]);
        if below.Some? {
          ChangesExactly(parse, below.value, c.value, p[1..]);
        }
      }
    }
  }

  /** A coercion that fails does so for a reason that can be pointed at. */
  lemma {:induction false} FailsForAReason(parse: Parser, s: Schema, y: Yaml) returns (p: Path)
    requires !Apply(parse, s, y).Ok?
    ensures !Fine(parse, Reach(s, y, p))
    ensures if Apply(parse, s, y).NotDecimal? then Wanted(Reach(s, y, p)) else Untypable(Reach(s, y, p))
    decreases s
  {
    match y
    case Str(_) => p := [];
    case Map(m) =>
      if s.Command? && UnhashableType(m) {
        p := [];
      } else {
        var k := FailingKey(parse, s, m);
        var q := FailsForAReason(parse, Under(s, m, k).value, m[k]);
        ReachDown(s, y, Key(k), q);
        p := [Key(k)] + q;
      }
    case List(items) =>
      var i := FailingItem(parse, s.item, items);
      var q := FailsForAReason(parse, s.item, items[i]);
      ReachDown(s, y, Index(i), q);
      p := [Index(i)] + q;
  }

  lemma FailingKey(parse: Parser, s: Schema, m: map<string, Yaml>) returns (k: string)
    requires !Apply(parse, s, Map(m)).Ok? && !(s.Command? && UnhashableType(m))
    ensures k in m && Under(s, m, k).Some?
    ensures Apply(parse, Under(s, m, k).value, m[k]) == Apply(parse, s, Map(m))
  {
    k :| k in m && ApplyUnder(parse, s, m, k) == Apply(parse, s, Map(m));
  }

  lemma FailingItem(parse: Parser, s: Schema, items: seq<Yaml>) returns (i: nat)
    requires !Apply(parse, Items(s), List(items)).Ok?
    ensures i < |items| && Apply(parse, s, items[i]) == Apply(parse, Items(s), List(items))
  {
    GatherListOk(ApplyAll(parse, s, items));
    FirstErrorIsError(ApplyAll(parse, s, items));
    i :| 0 <= i < |items| && Apply(parse, s, items[i]) == Apply(parse, Items(s), List(items));
  }

  lemma ReachDown(s: Schema, y: Yaml, step: Step, q: Path)
    requires Child(y, step).Some? && Below(s, y, step).Some?
    ensures Reach(s, y, [step] + q) == Reach(Below(s, y, step).value, Child(y, step).value, q)
  {
    assert ([step] + q)[1..] == q;
  }

  /** The schema for each key is the same before and after. */
  lemma UnderApplied(parse: Parser, s: Schema, m: map<string, Yaml>, k: string)
    requires Apply(parse, s, Map(m)).Ok?
    ensures Under(s, Apply(parse, s, Map(m)).value.entries, k) == Under(s, m, k)
  {
    assert Apply(parse, s, Map(m)).value.entries.Keys == m.Keys;
  }

  /** The entries of a coerced mapping, one by one. */
  lemma EntryApplied(parse: Parser, s: Schema, m: map<string, Yaml>, k: string)
    requires Apply(parse, s, Map(m)).Ok? && k in m
    ensures var v := Apply(parse, s, Map(m)).value;
            && v.Map? && v.entries.Keys == m.Keys
            && (if Under(s, m, k).Some? then Apply(parse, Under(s, m, k).value, m[k]) == Ok(v.entries[k])
                else v.entries[k] == m[k])
  {
    ChildApplied(parse, s, Map(m), Key(k));
    NodeApplied(parse, s, Map(m));
  }

  lemma UnchangedEntries(parse: Parser, s: Schema, m: map<string, Yaml>)
    requires !(s.Command? && UnhashableType(m))
    requires forall k :: k in m && Under(s, m, k).Some? ==> Apply(parse, Under(s, m, k).value, m[k]) == Ok(m[k])
    ensures Apply(parse, s, Map(m)) == Ok(Map(m))
  {
    var rs := map k | k in m :: ApplyUnder(parse, s, m, k);
    assert (map k | k in rs :: rs[k].value) == m;
  }

  /** Coercing what is already coerced changes nothing. */
  lemma {:induction false} Idempotent(parse: Parser, s: Schema, y: Yaml)
    requires Apply(parse, s, y).Ok?
    ensures Apply(parse, s, Apply(parse, s, y).value) == Apply(parse, s, y)
    decreases s
  {
    var v := Apply(parse, s, y).value;
    match y
    case Map(m) => IdempotentMap(parse, s, m);
    case List(items) =>
      if s.Items? {
        GatherListOk(ApplyAll(parse, s.item, items));
        forall i | 0 <= i < |items| ensures Apply(parse, s.item, v.items[i]) == Ok(v.items[i]) {
          Idempotent(parse, s.item, items[i]);
        }
        GatherListOk(ApplyAll(parse, s.item, v.items));
        assert Apply(parse, s, v).value.items == v.items;
      }
    case _ =>
  }

  lemma {:induction false} IdempotentMap(parse: Parser, s: Schema, m: map<string, Yaml>)
    requires Apply(parse, s, Map(m)).Ok?
    ensures Apply(parse, s, Apply(parse, s, Map(m)).value) == Apply(parse, s, Map(m))
    decreases s, 0
  {
    NodeApplied(parse, s, Map(m));
    var v := Apply(parse, s, Map(m)).value;
    forall k | k in v.entries && Under(s, v.entries, k).Some?
      ensures Apply(parse, Under(s, v.entries, k).value, v.entries[k]) == Ok(v.entries[k])
    {
      UnderApplied(parse, s, m, k);
      EntryApplied(parse, s, m, k);
      Idempotent(parse, Under(s, m, k).value, m[k]);
    }
    if "type" in m { EntryApplied(parse, s, m, "type"); }
    UnchangedEntries(parse, s, v.entries);
  }

  // ---- the allowlist as a list of paths ----

  predicate StringAt(y: Yaml, p: Path) {
    At(y, p).Some? && At(y, p).value.Str?
  }

  predicate KeyIn(step: Step, names: set<string>) {
    step.Key? && step.key in names
  }

  predicate FieldOrBlockPath(names: set<string>, blocks: set<string>, p: Path) {
    || (|p| == 1 && KeyIn(p[0], names))
    || (|p| == 2 && KeyIn(p[0], blocks) && p[1].Key?)
  }

  predicate PayloadPath(a: Allowlist, p: Path) {
    |p| == 2 && p[0] == Key("payload") && KeyIn(p[1], a.payload)
  }

  /** The paths whose strings are decimals. */
  predicate Allowed(a: Allowlist, raw: Yaml, p: Path) {
    || (|p| > 3 && p[0] == Key("devices") && p[1].Index? && p[2] == Key("params")
        && FieldOrBlockPath(a.params, a.blocks, p[3..]))
    || (|p| == 2 && p[0] == Key("grid_model") && KeyIn(p[1], a.grid))
    || (|p| == 3 && p[0] == Key("load_events") && p[1].Index? && KeyIn(p[2], a.events))
    || (|p| == 4 && p[0] == Key("load_profiles") && p[1].Index? && p[2] == Key("tick_values") && p[3].Index?)
    || (|p| > 6 && p[0] == Key("agents") && p[1].Key? && p[2] == Key("params") && p[3] == Key("rules")
        && p[4].Index? && p[5] == Key("action") && PayloadPath(a, p[6..]))
    || (|p| > 2 && p[0] == Key("commands") && p[1].Index? && PayloadPath(a, p[2..]) && DecimalCommand(a, raw, p[..2]))
  }

  /** Only commands of these types carry numbers. */
  predicate DecimalCommand(a: Allowlist, raw: Yaml, entry: Path) {
    && At(raw, entry).Some? && At(raw, entry).value.Map?
    && match TypeOf(At(raw, entry).value.entries)
       case Some(Str(text)) => text in a.types
       case _ => false
  }

  function TypeOf(command: map<string, Yaml>): Option<Yaml> {
    if "type" in command then Some(command["type"]) else None
  }

  predicate UntypableCommand(raw: Yaml, p: Path) {
    && |p| == 2 && p[0] == Key("commands") && p[1].Index?
    && At(raw, p).Some? && At(raw, p).value.Map?
    && match TypeOf(At(raw, p).value.entries)
       case Some(List(_)) => true
       case Some(Map(_)) => true
       case _ => false
  }

  predicate NoCommand(met: Option<(Schema, Yaml)>) {
    met.Some? ==> !met.value.0.Command?
  }

  lemma {:induction false} ReachIsAt(s: Schema, y: Yaml, p: Path)
    requires Reach(s, y, p).Some?
    ensures At(y, p) == Some(Reach(s, y, p).value.1)
    decreases |p|
  {
    if p != [] {
      ReachIsAt(Below(s, y, p[0]).value, Child(y, p[0]).value, p[1..]);
    }
  }

  lemma DecimalsReach(y: Yaml, p: Path)
    ensures Wanted(Reach(Decimals, y, p)) <==> p == [] && StringAt(y, p)
    ensures NoCommand(Reach(Decimals, y, p))
  {
  }

  lemma FieldsReach(names: set<string>, y: Yaml, p: Path)
    ensures Wanted(Reach(DecimalFields(names), y, p)) <==> |p| == 1 && KeyIn(p[0], names) && StringAt(y, p)
    ensures NoCommand(Reach(DecimalFields(names), y, p))
  {
    if p != [] && Child(y, p[0]).Some? {
      DecimalsReach(Child(y, p[0]).value, p[1..]);
    }
  }

  lemma BlockReach(y: Yaml, p: Path)
    ensures Wanted(Reach(Values(Decimals), y, p)) <==> |p| == 1 && p[0].Key? && StringAt(y, p)
    ensures NoCommand(Reach(Values(Decimals), y, p))
  {
    if p != [] && Child(y, p[0]).Some? {
      DecimalsReach(Child(y, p[0]).value, p[1..]);
    }
  }

  lemma FieldsAndBlocksReach(names: set<string>, blocks: set<string>, y: Yaml, p: Path)
    requires names !! blocks
    ensures Wanted(Reach(FieldsAndBlocks(names, blocks), y, p))
      <==> FieldOrBlockPath(names, blocks, p) && StringAt(y, p)
    ensures NoCommand(Reach(FieldsAndBlocks(names, blocks), y, p))
  {
    if p != [] && Child(y, p[0]).Some? {
      DecimalsReach(Child(y, p[0]).value, p[1..]);
      BlockReach(Child(y, p[0]).value, p[1..]);
    }
  }

  predicate Long(names: set<string>) {
    forall k :: k in names ==> |k| > 8
  }

  lemma LongBattery()
    ensures Long(BATTERY_PARAMS + LIMIT_PARAMS)
  {
  }

  lemma LongCharger()
    ensures Long(CHARGER_PARAMS + TRANSFORMER_PARAMS)
  {
  }

  lemma LongGenerator()
    ensures Long(WIND_PARAMS + DIESEL_PARAMS)
  {
  }

  lemma ShortBlocks()
    ensures forall k :: k in DEVICE_DECIMAL_BLOCKS ==> |k| <= 8
  {
  }

  lemma BlocksAreNotFields()
    ensures ALLOWLIST.Separate()
  {
    LongBattery();
    LongCharger();
    LongGenerator();
    ShortBlocks();
    forall k | k in DEVICE_DECIMAL_PARAMS ensures |k| > 8 {
      assert k in BATTERY_PARAMS + LIMIT_PARAMS || k in CHARGER_PARAMS + TRANSFORMER_PARAMS
          || k in WIND_PARAMS + DIESEL_PARAMS;
    }
  }

  lemma DeviceReach(a: Allowlist, y: Yaml, p: Path)
    requires a.Separate()
    ensures Wanted(Reach(Device(a), y, p))
      <==> |p| > 1 && p[0] == Key("params") && StringAt(y, p)
           && FieldOrBlockPath(a.params, a.blocks, p[1..])
    ensures NoCommand(Reach(Device(a), y, p))
  {
    if p != [] && Child(y, p[0]).Some? {
      FieldsAndBlocksReach(a.params, a.blocks, Child(y, p[0]).value, p[1..]);
    }
  }

  lemma ItemsReach(y: Yaml, p: Path)
    ensures Wanted(Reach(Items(Decimals), y, p)) <==> |p| == 1 && p[0].Index? && StringAt(y, p)
    ensures NoCommand(Reach(Items(Decimals), y, p))
  {
    if p != [] && Child(y, p[0]).Some? {
      DecimalsReach(Child(y, p[0]).value, p[1..]);
    }
  }

  /** One step along a path. */
  lemma Through(s: Schema, y: Yaml, p: Path)
    ensures p != [] ==>
      var c, below := Child(y, p[0]), Below(s, y, p[0]);
      && Reach(s, y, p) == (if c.Some? && below.Some? then Reach(below.value, c.value, p[1..]) else None)
      && StringAt(y, p) == (c.Some? && StringAt(c.value, p[1..]))
  {
  }

  lemma LoadProfileReach(y: Yaml, p: Path)
    ensures Wanted(Reach(LoadProfile(), y, p))
      <==> |p| == 2 && p[0] == Key("tick_values") && p[1].Index? && StringAt(y, p)
    ensures NoCommand(Reach(LoadProfile(), y, p))
  {
    if p != [] && Child(y, p[0]).Some? {
      ItemsReach(Child(y, p[0]).value, p[1..]);
    }
  }

  lemma PayloadReach(a: Allowlist, y: Yaml, p: Path)
    ensures Wanted(Reach(Fields(map["payload" := DecimalFields(a.payload)]), y, p))
      <==> PayloadPath(a, p) && StringAt(y, p)
    ensures NoCommand(Reach(Fields(map["payload" := DecimalFields(a.payload)]), y, p))
  {
    if p != [] && Child(y, p[0]).Some? {
      FieldsReach(a.payload, Child(y, p[0]).value, p[1..]);
    }
  }

  lemma CommandReach(a: Allowlist, y: Yaml, p: Path)
    ensures Wanted(Reach(CommandEntry(a), y, p))
      <==> PayloadPath(a, p) && StringAt(y, p) && y.Map? && HasTypeIn(a.types, y.entries)
    ensures Untypable(Reach(CommandEntry(a), y, p)) <==> p == [] && y.Map? && UnhashableType(y.entries)
  {
    if p != [] && Child(y, p[0]).Some? {
      FieldsReach(a.payload, Child(y, p[0]).value, p[1..]);
    }
  }

  lemma RuleReach(a: Allowlist, y: Yaml, p: Path)
    ensures Wanted(Reach(Rule(a), y, p))
      <==> |p| > 1 && p[0] == Key("action") && PayloadPath(a, p[1..]) && StringAt(y, p)
    ensures NoCommand(Reach(Rule(a), y, p))
  {
    if p != [] && Child(y, p[0]).Some? {
      PayloadReach(a, Child(y, p[0]).value, p[1..]);
    }
  }

  predicate RulesPath(a: Allowlist, p: Path) {
    |p| > 3 && p[0] == Key("rules") && p[1].Index? && p[2] == Key("action") && PayloadPath(a, p[3..])
  }

  lemma RulesReach(a: Allowlist, y: Yaml, p: Path)
    ensures Wanted(Reach(Fields(map["rules" := Items(Rule(a))]), y, p)) <==> RulesPath(a, p) && StringAt(y, p)
    ensures NoCommand(Reach(Fields(map["rules" := Items(Rule(a))]), y, p))
  {
    if p != [] && Child(y, p[0]).Some? {
      Through(Items(Rule(a)), Child(y, p[0]).value, p[1..]);
      if |p| > 1 && Child(Child(y, p[0]).value, p[1]).Some? {
        RuleReach(a, Child(Child(y, p[0]).value, p[1]).value, p[1..][1..]);
        if |p| > 2 { assert p[1..][1..][1..] == p[3..]; }
      }
    }
  }

  lemma AgentReach(a: Allowlist, y: Yaml, p: Path)
    ensures Wanted(Reach(Agent(a), y, p))
      <==> |p| > 4 && p[0] == Key("params") && RulesPath(a, p[1..]) && StringAt(y, p)
    ensures NoCommand(Reach(Agent(a), y, p))
  {
    if p != [] && Child(y, p[0]).Some? {
      RulesReach(a, Child(y, p[0]).value, p[1..]);
    }
  }

  function Section(a: Allowlist, name: string): Option<Schema> {
    match name
    case "devices" => Some(Items(Device(a)))
    case "grid_model" => Some(DecimalFields(a.grid))
    case "load_events" => Some(Items(DecimalFields(a.events)))
    case "load_profiles" => Some(Items(LoadProfile()))
    case "agents" => Some(Values(Agent(a)))
    case "commands" => Some(Items(CommandEntry(a)))
    case _ => None
  }

  lemma UnderScenario(a: Allowlist, m: map<string, Yaml>, name: string)
    ensures Under(Scenario(a), m, name) == Section(a, name)
  {
  }

  /** Two steps along a path. */
  lemma Twice(s: Schema, t: Schema, y: Yaml, p: Path)
    requires |p| > 1 && Below(s, y, p[0]) == Some(t)
    ensures var c := At(y, p[..2]);
            if c.Some?
            then && Child(y, p[0]).Some?
                 && StringAt(y, p) == StringAt(c.value, p[2..])
                 && var b := Below(t, Child(y, p[0]).value, p[1]);
                    Reach(s, y, p) == if b.Some? then Reach(b.value, c.value, p[2..]) else None
            else !StringAt(y, p) && Reach(s, y, p) == None
  {
    Through(s, y, p);
    assert p[..2][1..] == [p[1]];
    if Child(y, p[0]).Some? {
      var c := Child(y, p[0]).value;
      Through(t, c, p[1..]);
      assert p[1..][0] == p[1] && p[1..][1..] == p[2..] && [p[1]][1..] == [];
      assert At(c, [p[1]]) == Child(c, p[1]);
    }
  }

  /** The schema says exactly what the list of paths says. */
  lemma AllowedExactly(a: Allowlist, y: Yaml, p: Path)
    requires a.Separate()
    requires y.Map?
    ensures Wanted(Reach(Scenario(a), y, p)) <==> Allowed(a, y, p) && StringAt(y, p)
    ensures Untypable(Reach(Scenario(a), y, p)) <==> UntypableCommand(y, p)
  {
    if p == [] || p[0].Index? || Section(a, p[0].key) == None {
      OutsideSections(a, y, p);
    } else if p[0].key == "grid_model" {
      UnderScenario(a, y.entries, p[0].key);
      GridModelAllowed(a, y, p);
    } else if |p| == 1 {
      SectionItself(a, y, p);
    } else {
      UnderScenario(a, y.entries, p[0].key);
      Twice(Scenario(a), Section(a, p[0].key).value, y, p);
      if |p| == 2 { assert p[..2] == p; }
      if At(y, p[..2]).Some? {
        EntryAllowed(a, y, p, At(y, p[..2]).value);
      }
    }
  }

  lemma OutsideSections(a: Allowlist, y: Yaml, p: Path)
    requires y.Map? && (p == [] || p[0].Index? || Section(a, p[0].key) == None)
    ensures !Wanted(Reach(Scenario(a), y, p)) && !Untypable(Reach(Scenario(a), y, p))
    ensures !Allowed(a, y, p) && !UntypableCommand(y, p)
  {
    if p != [] && p[0].Key? {
      UnderScenario(a, y.entries, p[0].key);
      Through(Scenario(a), y, p);
    }
  }

  lemma SectionItself(a: Allowlist, y: Yaml, p: Path)
    requires y.Map? && |p| == 1 && p[0].Key? && Section(a, p[0].key).Some?
    ensures !Wanted(Reach(Scenario(a), y, p)) && !Untypable(Reach(Scenario(a), y, p))
    ensures !Allowed(a, y, p) && !UntypableCommand(y, p)
  {
    UnderScenario(a, y.entries, p[0].key);
    Through(Scenario(a), y, p);
  }

  lemma GridModelAllowed(a: Allowlist, y: Yaml, p: Path)
    requires y.Map? && p != [] && p[0] == Key("grid_model")
    requires Under(Scenario(a), y.entries, "grid_model") == Section(a, "grid_model")
    ensures Wanted(Reach(Scenario(a), y, p)) <==> Allowed(a, y, p) && StringAt(y, p)
    ensures !Untypable(Reach(Scenario(a), y, p))
  {
    if Child(y, p[0]).Some? {
      FieldsReach(a.grid, Child(y, p[0]).value, p[1..]);
    }
  }

  /** The schema for an entry of a section, at the step that leads to it. */
  function Entry(a: Allowlist, section: string, step: Step): Option<Schema> {
    if section == "agents" then (if step.Key? then Some(Agent(a)) else None)
    else if step.Key? || Section(a, section) == None || !Section(a, section).value.Items? then None
    else Some(Section(a, section).value.item)
  }

  lemma EntryAllowed(a: Allowlist, y: Yaml, p: Path, entry: Yaml)
    requires a.Separate()
    requires y.Map? && |p| > 1 && p[0].Key? && p[0].key != "grid_model"
    requires At(y, p[..2]) == Some(entry) && StringAt(y, p) == StringAt(entry, p[2..])
    requires var s := Entry(a, p[0].key, p[1]);
             Reach(Scenario(a), y, p) == if s.Some? then Reach(s.value, entry, p[2..]) else None
    ensures Wanted(Reach(Scenario(a), y, p)) <==> Allowed(a, y, p) && StringAt(y, p)
    ensures Untypable(Reach(Scenario(a), y, p)) <==> UntypableCommand(y, p)
  {
    var q := p[2..];
    match p[0].key
    case "devices" =>
      DeviceReach(a, entry, q);
      if |p| > 3 { assert q[1..] == p[3..]; }
    case "load_events" => FieldsReach(a.events, entry, q);
    case "load_profiles" => LoadProfileReach(entry, q);
    case "agents" =>
      AgentReach(a, entry, q);
      if |p| > 6 { assert q[1..][3..] == p[6..]; }
    case "commands" =>
      CommandReach(a, entry, q);
      if |p| == 2 { assert p[..2] == p; }
    case _ =>
  }

  /** A scenario that coerces changes at the allowed paths that hold strings, and nowhere else. */
  lemma CoercesExactly(a: Allowlist, parse: Parser, raw: map<string, Yaml>, p: Path)
    requires a.Separate()
    requires Apply(parse, Scenario(a), Map(raw)).Ok?
    ensures var y, v := Map(raw), Apply(parse, Scenario(a), Map(raw)).value;
            if Allowed(a, y, p) && StringAt(y, p)
            then parse(At(y, p).value.text).Some?
                 && NodeAt(v, p) == Some(Leaf(Dec(parse(At(y, p).value.text).value)))
            else NodeAt(v, p) == NodeAt(y, p)
  {
    AllowedExactly(a, Map(raw), p);
    ChangesExactly(parse, Scenario(a), Map(raw), p);
    if Wanted(Reach(Scenario(a), Map(raw), p)) {
      ReachIsAt(Scenario(a), Map(raw), p);
    }
  }

  /** An allowed string that is no decimal. */
  predicate Malformed(a: Allowlist, parse: Parser, raw: Yaml, p: Path) {
    Allowed(a, raw, p) && StringAt(raw, p) && parse(At(raw, p).value.text).None?
  }

  ghost predicate EveryStringParses(a: Allowlist, parse: Parser, raw: Yaml) {
    forall p: Path :: !Malformed(a, parse, raw, p)
  }

  ghost predicate EveryTypeHashable(raw: Yaml) {
    forall p: Path :: !UntypableCommand(raw, p)
  }

  lemma MalformedExactly(a: Allowlist, parse: Parser, raw: map<string, Yaml>, p: Path)
    requires a.Separate()
    ensures var met := Reach(Scenario(a), Map(raw), p);
            Malformed(a, parse, Map(raw), p) <==> Wanted(met) && parse(met.value.1.text).None?
  {
    AllowedExactly(a, Map(raw), p);
    if Wanted(Reach(Scenario(a), Map(raw), p)) {
      ReachIsAt(Scenario(a), Map(raw), p);
    }
  }

  /** It coerces exactly when every allowed string is a decimal and every command's `type` can be
      looked up; the typed error comes only when the first is not so, the bare one only when the
      second is not. */
  lemma SucceedsExactly(a: Allowlist, parse: Parser, raw: map<string, Yaml>)
    requires a.Separate()
    ensures Apply(parse, Scenario(a), Map(raw)).Ok?
      <==> EveryStringParses(a, parse, Map(raw)) && EveryTypeHashable(Map(raw))
    ensures Apply(parse, Scenario(a), Map(raw)).NotDecimal? ==> !EveryStringParses(a, parse, Map(raw))
    ensures Apply(parse, Scenario(a), Map(raw)).Unhashable? ==> !EveryTypeHashable(Map(raw))
  {
    var y := Map(raw);
    if Apply(parse, Scenario(a), y).Ok? {
      forall p: Path ensures !Malformed(a, parse, y, p) && !UntypableCommand(y, p) {
        MalformedExactly(a, parse, raw, p);
        AllowedExactly(a, y, p);
        ChangesExactly(parse, Scenario(a), y, p);
      }
    } else {
      var p := FailsForAReason(parse, Scenario(a), y);
      MalformedExactly(a, parse, raw, p);
      AllowedExactly(a, y, p);
    }
  }

  // ---- the code ----

  lemma MapDone(parse: Parser, s: Schema, m: map<string, Yaml>, result: map<string, Yaml>)
    requires !(s.Command? && UnhashableType(m))
    requires result.Keys == m.Keys
    requires forall k :: k in m ==> ApplyUnder(parse, s, m, k) == Ok(result[k])
    ensures Apply(parse, s, Map(m)) == Ok(Map(result))
  {
    var rs := map k | k in m :: ApplyUnder(parse, s, m, k);
    assert (map k | k in rs :: rs[k].value) == result;
  }

  lemma MapFails(parse: Parser, s: Schema, m: map<string, Yaml>, k: string)
    requires k in m && ApplyUnder(parse, s, m, k).NotDecimal?
    requires !(s.Command? && UnhashableType(m))
    ensures Apply(parse, s, Map(m)) == NotDecimal
  {
    var rs := map k | k in m :: ApplyUnder(parse, s, m, k);
    assert rs[k].NotDecimal?;
  }

  lemma DecimalApplied(parse: Parser, y: Yaml)
    ensures Apply(parse, Decimals, y) == if y.Str? then Read(parse, y.text) else Ok(y)
  {
    if y.Map? { UnchangedEntries(parse, Decimals, y.entries); }
  }

  /** `_coerce_decimal_fields`, which the payload comprehensions repeat. */
  method CoerceDecimalFields(parse: Parser, entry: map<string, Yaml>, names: set<string>) returns (r: Result<Yaml>)
    ensures r == Apply(parse, DecimalFields(names), Map(entry))
    ensures !r.Unhashable?
    ensures r.Ok? ==> r.value.Map?
  {
    var s := DecimalFields(names);
    var result: map<string, Yaml> := map[];
    var todo := entry.Keys;
    while todo != {}
      invariant todo <= entry.Keys && result.Keys == entry.Keys - todo
      invariant forall k :: k in result ==> ApplyUnder(parse, s, entry, k) == Ok(result[k])
      decreases todo
    {
      var k :| k in todo;
      todo := todo - {k};
      var value := entry[k];
      if k in names && value.Str? {
        match parse(value.text)
        case Some(d) => value := Dec(d);
        case None =>
          MapFails(parse, s, entry, k);
          return NotDecimal;
      }
      DecimalApplied(parse, entry[k]);
      result := result[k := value];
    }
    MapDone(parse, s, entry, result);
    r := Ok(Map(result));
  }

  /** `_coerce_block_decimals` */
  method CoerceBlockDecimals(parse: Parser, block: map<string, Yaml>) returns (r: Result<Yaml>)
    ensures r == Apply(parse, Values(Decimals), Map(block))
    ensures !r.Unhashable?
  {
    var result: map<string, Yaml> := map[];
    var todo := block.Keys;
    while todo != {}
      invariant todo <= block.Keys && result.Keys == block.Keys - todo
      invariant forall k :: k in result ==> ApplyUnder(parse, Values(Decimals), block, k) == Ok(result[k])
      decreases todo
    {
      var k :| k in todo;
      todo := todo - {k};
      var value := block[k];
      if value.Str? {
        match parse(value.text)
        case Some(d) => value := Dec(d);
        case None =>
          MapFails(parse, Values(Decimals), block, k);
          return NotDecimal;
      }
      DecimalApplied(parse, block[k]);
      result := result[k := value];
    }
    MapDone(parse, Values(Decimals), block, result);
    r := Ok(Map(result));
  }

  /** What a schema for mappings or lists does to a node of another kind. */
  lemma OtherKind(parse: Parser, s: Schema, y: Yaml)
    requires if s.Items? then !y.List? else !y.Map? && !s.Decimals?
    ensures Apply(parse, s, y) == Ok(y)
  {
    if y.Map? { UnchangedEntries(parse, s, y.entries); }
  }

  /** A schema with one more field does one thing more. */
  lemma MoreFields(parse: Parser, fields: map<string, Schema>, k: string, s: Schema, m: map<string, Yaml>)
    requires k !in fields && Apply(parse, Fields(fields), Map(m)).Ok?
    ensures var done := Apply(parse, Fields(fields), Map(m)).value;
            && done.Map? && (k in m ==> k in done.entries && done.entries[k] == m[k])
            && Apply(parse, Fields(fields[k := s]), Map(m)) ==
               if k !in m then Ok(done)
               else match Apply(parse, s, m[k])
                    case Ok(v) => Ok(Map(done.entries[k := v]))
                    case error => error
  {
    var done := Apply(parse, Fields(fields), Map(m)).value.entries;
    NodeApplied(parse, Fields(fields), Map(m));
    var t := Fields(fields[k := s]);
    forall j | j in m
      ensures j in done
      ensures if j == k then done[j] == m[j] else ApplyUnder(parse, t, m, j) == Ok(done[j])
    {
      EntryApplied(parse, Fields(fields), m, j);
    }
    if k !in m {
      MapDone(parse, t, m, done);
    } else if Apply(parse, s, m[k]).Ok? {
      MapDone(parse, t, m, done[k := Apply(parse, s, m[k]).value]);
    } else {
      assert ApplyUnder(parse, t, m, k) == Apply(parse, s, m[k]);
      var rs := map j | j in m :: ApplyUnder(parse, t, m, j);
      assert forall j :: j in rs && j != k ==> rs[j].Ok?;
    }
  }

  lemma OneField(parse: Parser, k: string, s: Schema, m: map<string, Yaml>)
    ensures Apply(parse, Fields(map[k := s]), Map(m)) ==
            if k !in m then Ok(Map(m))
            else match Apply(parse, s, m[k])
                 case Ok(v) => Ok(Map(m[k := v]))
                 case error => error
  {
    UnchangedEntries(parse, Fields(map[]), m);
    MoreFields(parse, map[], k, s, m);
    assert map[][k := s] == map[k := s];
  }

  lemma FieldsFail(parse: Parser, names: set<string>, blocks: set<string>, m: map<string, Yaml>)
    requires names !! blocks && Apply(parse, DecimalFields(names), Map(m)).NotDecimal?
    ensures Apply(parse, FieldsAndBlocks(names, blocks), Map(m)) == NotDecimal
  {
    var k :| k in m && ApplyUnder(parse, DecimalFields(names), m, k).NotDecimal?;
    MapFails(parse, FieldsAndBlocks(names, blocks), m, k);
  }

  /** `_coerce_device`. The block names are a set, so the loop takes them in any order. */
  method CoerceDevice(a: Allowlist, parse: Parser, entry: Yaml) returns (r: Result<Yaml>)
    requires a.Separate()
    ensures r == Apply(parse, Device(a), entry)
    ensures !r.Unhashable?
  {
    if !entry.Map? { return Ok(entry); }
    ghost var s := FieldsAndBlocks(a.params, a.blocks);
    OneField(parse, "params", s, entry.entries);
    if "params" !in entry.entries { return Ok(entry); }
    if !entry.entries["params"].Map? {
      OtherKind(parse, s, entry.entries["params"]);
      assert entry.entries["params" := entry.entries["params"]] == entry.entries;
      return Ok(entry);
    }
    var params := CoerceParams(parse, entry.entries["params"].entries, a.params, a.blocks);
    if !params.Ok? { return params; }
    return Ok(Map(entry.entries["params" := params.value]));
  }

  method CoerceParams(parse: Parser, params: map<string, Yaml>, names: set<string>, blocks: set<string>)
    returns (r: Result<Yaml>)
    requires names !! blocks
    ensures r == Apply(parse, FieldsAndBlocks(names, blocks), Map(params))
    ensures !r.Unhashable?
  {
    ghost var s := FieldsAndBlocks(names, blocks);
    var fields := CoerceDecimalFields(parse, params, names);
    if !fields.Ok? {
      FieldsFail(parse, names, blocks, params);
      return fields;
    }
    var coerced := fields.value.entries;
    forall k | k in params
      ensures k in coerced
      ensures k !in blocks ==> ApplyUnder(parse, s, params, k) == Ok(coerced[k])
      ensures k in blocks ==> coerced[k] == params[k]
    {
      EntryApplied(parse, DecimalFields(names), params, k);
    }
    NodeApplied(parse, DecimalFields(names), Map(params));
    var todo := blocks;
    while todo != {}
      invariant todo <= blocks && coerced.Keys == params.Keys
      invariant forall k :: k in params && k !in todo ==> ApplyUnder(parse, s, params, k) == Ok(coerced[k])
      invariant forall k :: k in params && k in todo ==> coerced[k] == params[k]
      decreases todo
    {
      var b :| b in todo;
      todo := todo - {b};
      if b in coerced {
        if coerced[b].Map? {
          var block := CoerceBlockDecimals(parse, coerced[b].entries);
          if !block.Ok? {
            MapFails(parse, s, params, b);
            return block;
          }
          coerced := coerced[b := block.value];
        } else {
          OtherKind(parse, Values(Decimals), params[b]);
        }
      }
    }
    MapDone(parse, s, params, coerced);
    r := Ok(Map(coerced));
  }

  lemma {:induction false} FirstErrorAt(rs: seq<Result<Yaml>>, i: nat)
    requires i < |rs| && !rs[i].Ok? && forall j :: 0 <= j < i ==> rs[j].Ok?
    ensures FirstError(rs) == rs[i]
  {
    if i > 0 {
      FirstErrorAt(rs[1..], i - 1);
    }
  }

  lemma ListFails(parse: Parser, s: Schema, items: seq<Yaml>, i: nat)
    requires i < |items| && !Apply(parse, s, items[i]).Ok?
    requires forall j :: 0 <= j < i ==> Apply(parse, s, items[j]).Ok?
    ensures Apply(parse, Items(s), List(items)) == Apply(parse, s, items[i])
  {
    var rs := ApplyAll(parse, s, items);
    assert !rs[i].Ok?;
    FirstErrorAt(rs, i);
  }

  lemma ListDone(parse: Parser, s: Schema, items: seq<Yaml>, done: seq<Yaml>)
    requires |done| == |items| && forall i :: 0 <= i < |items| ==> Apply(parse, s, items[i]) == Ok(done[i])
    ensures Apply(parse, Items(s), List(items)) == Ok(List(done))
  {
    var rs := ApplyAll(parse, s, items);
    assert seq(|rs|, i requires 0 <= i < |rs| => rs[i].value) == done;
  }

  /** The entries that stand in lists. */
  datatype Kind = DeviceEntry | LoadEvent | LoadProfileEntry | TickValue | RuleEntry | CommandKind

  function SchemaOf(a: Allowlist, kind: Kind): Schema {
    match kind
    case DeviceEntry => Device(a)
    case LoadEvent => DecimalFields(a.events)
    case LoadProfileEntry => LoadProfile()
    case TickValue => Decimals
    case RuleEntry => Rule(a)
    case CommandKind => CommandEntry(a)
  }

  /** The list comprehensions, from the first item to the last. */
  method CoerceEach(a: Allowlist, parse: Parser, kind: Kind, items: seq<Yaml>) returns (r: Result<Yaml>)
    requires a.Separate()
    ensures r == Apply(parse, Items(SchemaOf(a, kind)), List(items))
    ensures kind != CommandKind ==> !r.Unhashable?
    decreases kind != TickValue, 2
  {
    var done: seq<Yaml> := [];
    for i := 0 to |items|
      invariant |done| == i
      invariant forall j :: 0 <= j < i ==> Apply(parse, SchemaOf(a, kind), items[j]) == Ok(done[j])
    {
      var entry := CoerceEntry(a, parse, kind, items[i]);
      if !entry.Ok? {
        ListFails(parse, SchemaOf(a, kind), items, i);
        return entry;
      }
      done := done + [entry.value];
    }
    ListDone(parse, SchemaOf(a, kind), items, done);
    r := Ok(List(done));
  }

  method CoerceEntry(a: Allowlist, parse: Parser, kind: Kind, entry: Yaml) returns (r: Result<Yaml>)
    requires a.Separate()
    ensures r == Apply(parse, SchemaOf(a, kind), entry)
    ensures kind != CommandKind ==> !r.Unhashable?
    decreases kind != TickValue, 1
  {
    match kind
    case DeviceEntry => r := CoerceDevice(a, parse, entry);
    case LoadEvent => r := CoerceLoadEvent(a, parse, entry);
    case LoadProfileEntry => r := CoerceLoadProfile(a, parse, entry);
    case TickValue => r := CoerceTickValue(parse, entry);
    case RuleEntry => r := CoerceRule(a, parse, entry);
    case CommandKind => r := CoerceCommand(a, parse, entry);
  }

  method CoerceLoadEvent(a: Allowlist, parse: Parser, entry: Yaml) returns (r: Result<Yaml>)
    ensures r == Apply(parse, DecimalFields(a.events), entry)
    ensures !r.Unhashable?
  {
    if entry.Map? {
      r := CoerceDecimalFields(parse, entry.entries, a.events);
    } else {
      OtherKind(parse, DecimalFields(a.events), entry);
      r := Ok(entry);
    }
  }

  method CoerceTickValue(parse: Parser, value: Yaml) returns (r: Result<Yaml>)
    ensures r == Apply(parse, Decimals, value)
    ensures !r.Unhashable?
  {
    DecimalApplied(parse, value);
    r := if value.Str? then Read(parse, value.text) else Ok(value);
  }

  method CoerceLoadProfile(a: Allowlist, parse: Parser, entry: Yaml) returns (r: Result<Yaml>)
    requires a.Separate()
    ensures r == Apply(parse, LoadProfile(), entry)
    ensures !r.Unhashable?
    decreases true, 0
  {
    if !entry.Map? { return Ok(entry); }
    OneField(parse, "tick_values", Items(Decimals), entry.entries);
    if "tick_values" !in entry.entries { return Ok(entry); }
    var ticks := entry.entries["tick_values"];
    if ticks.List? {
      var values := CoerceEach(a, parse, TickValue, ticks.items);
      if !values.Ok? { return values; }
      return Ok(Map(entry.entries["tick_values" := values.value]));
    }
    OtherKind(parse, Items(Decimals), ticks);
    assert entry.entries["tick_values" := ticks] == entry.entries;
    return Ok(entry);
  }

  /** The `payload` of a rule's action. */
  method CoercePayload(a: Allowlist, parse: Parser, action: map<string, Yaml>) returns (r: Result<Yaml>)
    ensures r == Apply(parse, Fields(map["payload" := DecimalFields(a.payload)]), Map(action))
    ensures !r.Unhashable?
  {
    OneField(parse, "payload", DecimalFields(a.payload), action);
    if "payload" !in action { return Ok(Map(action)); }
    if action["payload"].Map? {
      var payload := CoerceDecimalFields(parse, action["payload"].entries, a.payload);
      if !payload.Ok? { return payload; }
      return Ok(Map(action["payload" := payload.value]));
    }
    OtherKind(parse, DecimalFields(a.payload), action["payload"]);
    assert action["payload" := action["payload"]] == action;
    return Ok(Map(action));
  }

  method CoerceRule(a: Allowlist, parse: Parser, rule: Yaml) returns (r: Result<Yaml>)
    ensures r == Apply(parse, Rule(a), rule)
    ensures !r.Unhashable?
  {
    if !rule.Map? { return Ok(rule); }
    ghost var s := Fields(map["payload" := DecimalFields(a.payload)]);
    OneField(parse, "action", s, rule.entries);
    if "action" !in rule.entries { return Ok(rule); }
    var action := rule.entries["action"];
    if action.Map? {
      var coerced := CoercePayload(a, parse, action.entries);
      if !coerced.Ok? { return coerced; }
      return Ok(Map(rule.entries["action" := coerced.value]));
    }
    OtherKind(parse, s, action);
    assert rule.entries["action" := action] == rule.entries;
    return Ok(rule);
  }

  method CoerceCommand(a: Allowlist, parse: Parser, entry: Yaml) returns (r: Result<Yaml>)
    ensures r == Apply(parse, CommandEntry(a), entry)
  {
    if !entry.Map? { return Ok(entry); }
    var m := entry.entries;
    if UnhashableType(m) { return Unhashable; }
    if !HasTypeIn(a.types, m) {
      UnchangedEntries(parse, CommandEntry(a), m);
      return Ok(entry);
    }
    if "payload" in m && m["payload"].Map? {
      var payload := CoerceDecimalFields(parse, m["payload"].entries, a.payload);
      if payload.Ok? {
        MapDone(parse, CommandEntry(a), m, m["payload" := payload.value]);
        return Ok(Map(m["payload" := payload.value]));
      }
      MapFails(parse, CommandEntry(a), m, "payload");
      return payload;
    }
    if "payload" in m { OtherKind(parse, DecimalFields(a.payload), m["payload"]); }
    UnchangedEntries(parse, CommandEntry(a), m);
    return Ok(entry);
  }

  method CoerceAgent(a: Allowlist, parse: Parser, entry: Yaml) returns (r: Result<Yaml>)
    requires a.Separate()
    ensures r == Apply(parse, Agent(a), entry)
    ensures !r.Unhashable?
  {
    if !entry.Map? { return Ok(entry); }
    ghost var s := Fields(map["rules" := Items(Rule(a))]);
    OneField(parse, "params", s, entry.entries);
    if "params" !in entry.entries { return Ok(entry); }
    var params := entry.entries["params"];
    if params.Map? {
      var coerced := CoerceAgentParams(a, parse, params.entries);
      if !coerced.Ok? { return coerced; }
      return Ok(Map(entry.entries["params" := coerced.value]));
    }
    OtherKind(parse, s, params);
    assert entry.entries["params" := params] == entry.entries;
    return Ok(entry);
  }

  method CoerceAgentParams(a: Allowlist, parse: Parser, params: map<string, Yaml>) returns (r: Result<Yaml>)
    requires a.Separate()
    ensures r == Apply(parse, Fields(map["rules" := Items(Rule(a))]), Map(params))
    ensures !r.Unhashable?
  {
    OneField(parse, "rules", Items(Rule(a)), params);
    if "rules" !in params { return Ok(Map(params)); }
    if params["rules"].List? {
      var rules := CoerceEach(a, parse, RuleEntry, params["rules"].items);
      if !rules.Ok? { return rules; }
      return Ok(Map(params["rules" := rules.value]));
    }
    OtherKind(parse, Items(Rule(a)), params["rules"]);
    assert params["rules" := params["rules"]] == params;
    return Ok(Map(params));
  }

  method CoerceAgents(a: Allowlist, parse: Parser, agents: map<string, Yaml>) returns (r: Result<Yaml>)
    requires a.Separate()
    ensures r == Apply(parse, Values(Agent(a)), Map(agents))
    ensures !r.Unhashable?
  {
    var result: map<string, Yaml> := map[];
    var todo := agents.Keys;
    while todo != {}
      invariant todo <= agents.Keys && result.Keys == agents.Keys - todo
      invariant forall k :: k in result ==> ApplyUnder(parse, Values(Agent(a)), agents, k) == Ok(result[k])
      decreases todo
    {
      var k :| k in todo;
      todo := todo - {k};
      var agent := CoerceAgent(a, parse, agents[k]);
      if !agent.Ok? {
        MapFails(parse, Values(Agent(a)), agents, k);
        return agent;
      }
      result := result[k := agent.value];
    }
    MapDone(parse, Values(Agent(a)), agents, result);
    r := Ok(Map(result));
  }

  function Placed(result: map<string, Yaml>, name: string, section: Result<Yaml>): Result<map<string, Yaml>> {
    match section
    case Ok(v) => Ok(result[name := v])
    case NotDecimal => NotDecimal
    case Unhashable => Unhashable
  }

  /** One section, if it is there and of the right kind. */
  method CoerceSection(a: Allowlist, parse: Parser, name: string, result: map<string, Yaml>)
    returns (r: Result<map<string, Yaml>>)
    requires a.Separate() && Section(a, name).Some?
    ensures r == if name in result then Placed(result, name, Apply(parse, Section(a, name).value, result[name]))
                 else Ok(result)
    ensures name != "commands" ==> !r.Unhashable?
  {
    if name !in result { return Ok(result); }
    var section := result[name];
    var s := Section(a, name).value;
    if if s.Items? then !section.List? else !section.Map? {
      OtherKind(parse, s, section);
      assert result[name := section] == result;
      return Ok(result);
    }
    var coerced := CoerceSectionValue(a, parse, name, section);
    r := Placed(result, name, coerced);
  }

  method CoerceSectionValue(a: Allowlist, parse: Parser, name: string, section: Yaml) returns (r: Result<Yaml>)
    requires a.Separate() && Section(a, name).Some?
    requires if Section(a, name).value.Items? then section.List? else section.Map?
    ensures r == Apply(parse, Section(a, name).value, section)
    ensures name != "commands" ==> !r.Unhashable?
  {
    match name
    case "grid_model" => r := CoerceDecimalFields(parse, section.entries, a.grid);
    case "agents" => r := CoerceAgents(a, parse, section.entries);
    case "devices" => r := CoerceEach(a, parse, DeviceEntry, section.items);
    case "load_events" => r := CoerceEach(a, parse, LoadEvent, section.items);
    case "load_profiles" => r := CoerceEach(a, parse, LoadProfileEntry, section.items);
    case "commands" => r := CoerceEach(a, parse, CommandKind, section.items);
  }

  const SECTIONS: seq<string> := ["devices", "grid_model", "load_events", "load_profiles", "agents", "commands"]

  predicate Covers(a: Allowlist, known: map<string, Schema>, n: nat) {
    && n <= |SECTIONS|
    && (forall k :: k in known ==> Section(a, k) == Some(known[k]) && k in SECTIONS[..n])
    && (forall i :: 0 <= i < n ==> SECTIONS[i] in known)
  }

  lemma SectionFails(a: Allowlist, parse: Parser, k: string, raw: map<string, Yaml>)
    requires k in raw && Section(a, k).Some? && Apply(parse, Section(a, k).value, raw[k]).NotDecimal?
    ensures Apply(parse, Scenario(a), Map(raw)) == NotDecimal
  {
    UnderScenario(a, raw, k);
    MapFails(parse, Scenario(a), raw, k);
  }

  lemma SectionsAreNames(a: Allowlist)
    ensures forall i :: 0 <= i < |SECTIONS| ==> Section(a, SECTIONS[i]).Some?
    ensures forall k :: Section(a, k).Some? ==> k in SECTIONS
    ensures forall i, j :: 0 <= i < j < |SECTIONS| ==> SECTIONS[i] != SECTIONS[j]
  {
  }

  lemma AllSections(a: Allowlist, parse: Parser, known: map<string, Schema>, raw: map<string, Yaml>)
    requires Covers(a, known, |SECTIONS|)
    ensures Apply(parse, Fields(known), Map(raw)) == Apply(parse, Scenario(a), Map(raw))
  {
    SectionsAreNames(a);
    forall k | k in raw ensures ApplyUnder(parse, Fields(known), raw, k) == ApplyUnder(parse, Scenario(a), raw, k) {
      UnderScenario(a, raw, k);
    }
    assert (map k | k in raw :: ApplyUnder(parse, Fields(known), raw, k))
        == (map k | k in raw :: ApplyUnder(parse, Scenario(a), raw, k));
  }

  /** `known` is the schema of the first `i` sections, and `result` what they have made of `raw`. */
  predicate SoFar(a: Allowlist, parse: Parser, known: map<string, Schema>, i: nat,
                  raw: map<string, Yaml>, result: map<string, Yaml>) {
    Covers(a, known, i) && Apply(parse, Fields(known), Map(raw)) == Ok(Map(result))
  }

  /** What the next section's step comes to, with the sections before it done. */
  lemma OneMoreSection(a: Allowlist, parse: Parser, known: map<string, Schema>, i: nat,
                       raw: map<string, Yaml>, result: map<string, Yaml>, step: Result<map<string, Yaml>>)
    requires i < |SECTIONS| && SoFar(a, parse, known, i, raw, result) && Section(a, SECTIONS[i]).Some?
    requires var name := SECTIONS[i];
             step == if name in result then Placed(result, name, Apply(parse, Section(a, name).value, result[name]))
                     else Ok(result)
    ensures var more := known[SECTIONS[i] := Section(a, SECTIONS[i]).value];
            match step
            case Ok(next) => SoFar(a, parse, more, i + 1, raw, next)
            case NotDecimal => Apply(parse, Scenario(a), Map(raw)) == NotDecimal
            case Unhashable => Covers(a, more, i + 1) && Apply(parse, Fields(more), Map(raw)) == Unhashable
  {
    var name := SECTIONS[i];
    CoversMore(a, known, i);
    MoreFields(parse, known, name, Section(a, name).value, raw);
    NodeApplied(parse, Fields(known), Map(raw));
    if name in raw && Apply(parse, Section(a, name).value, raw[name]).NotDecimal? {
      SectionFails(a, parse, name, raw);
    }
  }

  lemma CoversMore(a: Allowlist, known: map<string, Schema>, i: nat)
    requires i < |SECTIONS| && Covers(a, known, i) && Section(a, SECTIONS[i]).Some?
    ensures SECTIONS[i] !in known
    ensures Covers(a, known[SECTIONS[i] := Section(a, SECTIONS[i]).value], i + 1)
  {
    SectionsAreNames(a);
    assert SECTIONS[..i + 1] == SECTIONS[..i] + [SECTIONS[i]];
  }

  /** `_coerce_decimals`: the six sections one after the other. */
  method CoerceDecimals(a: Allowlist, parse: Parser, raw: map<string, Yaml>) returns (r: Result<Yaml>)
    requires a.Separate()
    ensures r == Apply(parse, Scenario(a), Map(raw))
  {
    var result := raw;
    ghost var known: map<string, Schema> := map[];
    UnchangedEntries(parse, Fields(known), raw);
    SectionsAreNames(a);
    for i := 0 to |SECTIONS|
      invariant SoFar(a, parse, known, i, raw, result)
    {
      var step := CoerceSection(a, parse, SECTIONS[i], result);
      OneMoreSection(a, parse, known, i, raw, result, step);
      known := known[SECTIONS[i] := Section(a, SECTIONS[i]).value];
      match step
      case Ok(next) => result := next;
      case NotDecimal => return NotDecimal;
      case Unhashable =>
        LastSection(i);
        AllSections(a, parse, known, raw);
        return Unhashable;
    }
    AllSections(a, parse, known, raw);
    r := Ok(Map(result));
  }

  lemma LastSection(i: nat)
    requires i < |SECTIONS| && SECTIONS[i] == "commands"
    ensures i == |SECTIONS| - 1
  {
  }

  /** What `read_scenario_yaml` and `coerce_scenario_mapping` do with the mapping. */
  method CoerceScenarioMapping(parse: Parser, raw: map<string, Yaml>) returns (r: Result<Yaml>)
    ensures r == Apply(parse, Scenario(ALLOWLIST), Map(raw))
  {
    BlocksAreNotFields();
    r := CoerceDecimals(ALLOWLIST, parse, raw);
  }

  // ---- which error ----

  lemma {:induction false} FirstErrorIndex(rs: seq<Result<Yaml>>) returns (i: nat)
    requires exists i :: 0 <= i < |rs| && !rs[i].Ok?
    ensures i < |rs| && !rs[i].Ok? && FirstError(rs) == rs[i] && forall j :: 0 <= j < i ==> rs[j].Ok?
  {
    if !rs[0].Ok? {
      i := 0;
    } else {
      var k := FirstErrorIndex(rs[1..]);
      i := k + 1;
    }
  }

  /** Item `i` is the first with an error, and the error is the bare one. */
  ghost predicate BareItem(parse: Parser, s: Schema, items: seq<Yaml>, i: nat) {
    i < |items| && Apply(parse, s, items[i]).Unhashable? && forall j :: 0 <= j < i ==> Apply(parse, s, items[j]).Ok?
  }

  lemma BareList(parse: Parser, s: Schema, items: seq<Yaml>) returns (i: nat)
    requires Apply(parse, Items(s), List(items)).Unhashable?
    ensures BareItem(parse, s, items, i)
  {
    var rs := ApplyAll(parse, s, items);
    GatherListOk(rs);
    i := FirstErrorIndex(rs);
  }

  /** A command ends in the bare error exactly when its `type` is a list or a mapping. */
  lemma BareCommand(a: Allowlist, parse: Parser, y: Yaml)
    ensures Apply(parse, CommandEntry(a), y).Unhashable? <==> y.Map? && UnhashableType(y.entries)
  {
    if Apply(parse, CommandEntry(a), y).Unhashable? {
      var q := FailsForAReason(parse, CommandEntry(a), y);
      CommandReach(a, y, q);
    }
  }

  /** A section fails with the typed error only for a malformed string in it, and with the bare
      error only if it is `commands`. */
  lemma SectionFailure(a: Allowlist, parse: Parser, raw: map<string, Yaml>, k: string) returns (p: Path)
    requires a.Separate() && k in raw && !ApplyUnder(parse, Scenario(a), raw, k).Ok?
    ensures p != [] && p[0] == Key(k)
    ensures if ApplyUnder(parse, Scenario(a), raw, k).NotDecimal?
            then Malformed(a, parse, Map(raw), p) else k == "commands"
  {
    UnderScenario(a, raw, k);
    var s := Section(a, k).value;
    var q := FailsForAReason(parse, s, raw[k]);
    ReachDown(Scenario(a), Map(raw), Key(k), q);
    p := [Key(k)] + q;
    MalformedExactly(a, parse, raw, p);
    AllowedExactly(a, Map(raw), p);
  }

  /** A section that is coerced has no malformed string. */
  lemma SectionFine(a: Allowlist, parse: Parser, raw: map<string, Yaml>, k: string, p: Path)
    requires a.Separate() && k in raw && ApplyUnder(parse, Scenario(a), raw, k).Ok? && p != [] && p[0] == Key(k)
    ensures !Malformed(a, parse, Map(raw), p)
  {
    UnderScenario(a, raw, k);
    MalformedExactly(a, parse, raw, p);
    Through(Scenario(a), Map(raw), p);
    if Section(a, k).Some? {
      ChangesExactly(parse, Section(a, k).value, raw[k], p[1..]);
    }
  }

  predicate HasCommands(raw: map<string, Yaml>) {
    "commands" in raw && raw["commands"].List?
  }

  lemma CommandsApplied(a: Allowlist, parse: Parser, raw: map<string, Yaml>)
    requires "commands" in raw
    ensures ApplyUnder(parse, Scenario(a), raw, "commands") == Apply(parse, Items(CommandEntry(a)), raw["commands"])
  {
    UnderScenario(a, raw, "commands");
  }

  lemma CommandPath(a: Allowlist, raw: map<string, Yaml>, i: nat, q: Path)
    requires HasCommands(raw) && i < |raw["commands"].items|
    ensures Reach(Scenario(a), Map(raw), [Key("commands"), Index(i)] + q)
            == Reach(CommandEntry(a), raw["commands"].items[i], q)
  {
    var commands := raw["commands"];
    UnderScenario(a, raw, "commands");
    ReachDown(Items(CommandEntry(a)), commands, Index(i), q);
    ReachDown(Scenario(a), Map(raw), Key("commands"), [Index(i)] + q);
    assert [Key("commands"), Index(i)] + q == [Key("commands")] + ([Index(i)] + q);
  }

  /** A command fails with the typed error only for a malformed string in it. */
  lemma CommandFailure(a: Allowlist, parse: Parser, raw: map<string, Yaml>, i: nat) returns (p: Path)
    requires a.Separate() && HasCommands(raw) && i < |raw["commands"].items|
    requires Apply(parse, CommandEntry(a), raw["commands"].items[i]).NotDecimal?
    ensures |p| > 1 && p[0] == Key("commands") && p[1] == Index(i) && Malformed(a, parse, Map(raw), p)
  {
    var q := FailsForAReason(parse, CommandEntry(a), raw["commands"].items[i]);
    CommandPath(a, raw, i, q);
    p := [Key("commands"), Index(i)] + q;
    MalformedExactly(a, parse, raw, p);
  }

  lemma CommandFine(a: Allowlist, parse: Parser, raw: map<string, Yaml>, i: nat, p: Path)
    requires a.Separate() && HasCommands(raw) && i < |raw["commands"].items|
    requires Apply(parse, CommandEntry(a), raw["commands"].items[i]).Ok?
    requires |p| > 1 && p[0] == Key("commands") && p[1] == Index(i)
    ensures !Malformed(a, parse, Map(raw), p)
  {
    MalformedExactly(a, parse, raw, p);
    CommandPath(a, raw, i, p[2..]);
    assert p == [Key("commands"), Index(i)] + p[2..];
    ChangesExactly(parse, CommandEntry(a), raw["commands"].items[i], p[2..]);
  }

  /** What lies at `p` is coerced before command `i`: it is in another section or in a command
      before. */
  predicate BeforeCommand(p: Path, i: nat) {
    p != [] && (p[0] != Key("commands") || (|p| > 1 && p[1].Index? && p[1].index < i))
  }

  /** Command `i` has a `type` that cannot be looked up, and every string that is coerced before it
      is a decimal. */
  ghost predicate BareAt(a: Allowlist, parse: Parser, raw: Yaml, i: nat) {
    && UntypableCommand(raw, [Key("commands"), Index(i)])
    && forall p: Path :: BeforeCommand(p, i) ==> !Malformed(a, parse, raw, p)
  }

  lemma UntypableIs(raw: map<string, Yaml>, i: nat)
    ensures UntypableCommand(Map(raw), [Key("commands"), Index(i)]) <==>
            HasCommands(raw) && i < |raw["commands"].items| && raw["commands"].items[i].Map?
            && UnhashableType(raw["commands"].items[i].entries)
  {
    var p := [Key("commands"), Index(i)];
    assert p[1..] == [Index(i)] && p[1..][1..] == [];
    if "commands" in raw {
      assert At(Map(raw), p) == At(raw["commands"], [Index(i)]);
      if raw["commands"].List? && i < |raw["commands"].items| {
        assert At(raw["commands"], [Index(i)]) == At(raw["commands"].items[i], []);
      }
    }
  }

  lemma BareFound(a: Allowlist, parse: Parser, raw: map<string, Yaml>) returns (i: nat)
    requires a.Separate() && Apply(parse, Scenario(a), Map(raw)).Unhashable?
    ensures BareAt(a, parse, Map(raw), i)
  {
    forall k | k in raw && k != "commands" ensures ApplyUnder(parse, Scenario(a), raw, k).Ok? {
      OnlyCommandsAreBare(a, parse, raw, k);
    }
    assert "commands" in raw && ApplyUnder(parse, Scenario(a), raw, "commands").Unhashable?;
    CommandsApplied(a, parse, raw);
    if !raw["commands"].List? {
      OtherKind(parse, Items(CommandEntry(a)), raw["commands"]);
    }
    i := BareList(parse, CommandEntry(a), raw["commands"].items);
    BareCommand(a, parse, raw["commands"].items[i]);
    UntypableIs(raw, i);
    forall p: Path | BeforeCommand(p, i) ensures !Malformed(a, parse, Map(raw), p) {
      NothingBefore(a, parse, raw, i, p);
    }
  }

  lemma OnlyCommandsAreBare(a: Allowlist, parse: Parser, raw: map<string, Yaml>, k: string)
    requires a.Separate() && k in raw && k != "commands" && Apply(parse, Scenario(a), Map(raw)).Unhashable?
    ensures ApplyUnder(parse, Scenario(a), raw, k).Ok?
  {
    if ApplyUnder(parse, Scenario(a), raw, k).NotDecimal? {
      MapFails(parse, Scenario(a), raw, k);
    } else if ApplyUnder(parse, Scenario(a), raw, k).Unhashable? {
      var _ := SectionFailure(a, parse, raw, k);
    }
  }

  lemma NothingBefore(a: Allowlist, parse: Parser, raw: map<string, Yaml>, i: nat, p: Path)
    requires a.Separate() && HasCommands(raw) && BareItem(parse, CommandEntry(a), raw["commands"].items, i)
    requires forall k :: k in raw && k != "commands" ==> ApplyUnder(parse, Scenario(a), raw, k).Ok?
    requires BeforeCommand(p, i)
    ensures !Malformed(a, parse, Map(raw), p)
  {
    if p[0] == Key("commands") {
      CommandFine(a, parse, raw, p[1].index, p);
    } else if p[0].Key? && p[0].key in raw {
      SectionFine(a, parse, raw, p[0].key, p);
    }
  }

  lemma BareRaised(a: Allowlist, parse: Parser, raw: map<string, Yaml>, i: nat)
    requires a.Separate() && BareAt(a, parse, Map(raw), i)
    ensures Apply(parse, Scenario(a), Map(raw)).Unhashable?
  {
    UntypableIs(raw, i);
    CommandsApplied(a, parse, raw);
    BareCommands(a, parse, raw, i);
    forall k | k in raw && k != "commands" ensures !ApplyUnder(parse, Scenario(a), raw, k).NotDecimal? {
      NoTypedError(a, parse, raw, i, k);
    }
    BareMap(parse, Scenario(a), raw, "commands");
  }

  lemma NoTypedError(a: Allowlist, parse: Parser, raw: map<string, Yaml>, i: nat, k: string)
    requires a.Separate() && BareAt(a, parse, Map(raw), i) && k in raw && k != "commands"
    ensures !ApplyUnder(parse, Scenario(a), raw, k).NotDecimal?
  {
    if ApplyUnder(parse, Scenario(a), raw, k).NotDecimal? {
      var p := SectionFailure(a, parse, raw, k);
    }
  }

  lemma BareMap(parse: Parser, s: Schema, m: map<string, Yaml>, name: string)
    requires !s.Command? && name in m && ApplyUnder(parse, s, m, name).Unhashable?
    requires forall k :: k in m && k != name ==> !ApplyUnder(parse, s, m, k).NotDecimal?
    ensures Apply(parse, s, Map(m)).Unhashable?
  {
    var rs := map k | k in m :: ApplyUnder(parse, s, m, k);
    assert rs[name].Unhashable?;
  }

  lemma {:induction false} BareCommands(a: Allowlist, parse: Parser, raw: map<string, Yaml>, i: nat)
    requires a.Separate() && BareAt(a, parse, Map(raw), i)
    requires HasCommands(raw) && i < |raw["commands"].items|
    ensures Apply(parse, Items(CommandEntry(a)), raw["commands"]).Unhashable?
    decreases i
  {
    var items := raw["commands"].items;
    UntypableIs(raw, i);
    BareCommand(a, parse, items[i]);
    if j: nat :| j < i && !Apply(parse, CommandEntry(a), items[j]).Ok? {
      if Apply(parse, CommandEntry(a), items[j]).NotDecimal? {
        var p := CommandFailure(a, parse, raw, j);
      } else {
        BareCommand(a, parse, items[j]);
        UntypableIs(raw, j);
        forall p: Path | BeforeCommand(p, j) ensures !Malformed(a, parse, Map(raw), p) {
          assert BeforeCommand(p, i);
        }
        BareCommands(a, parse, raw, j);
      }
    } else {
      ListFails(parse, CommandEntry(a), items, i);
    }
  }

  /** Which error comes back: the bare one exactly when some command's `type` cannot be looked up
      and every string coerced before that command is a decimal, so that a malformed string in any
      other section, or in an earlier command, is reported in its place; else the typed one. */
  lemma BareErrorExactly(a: Allowlist, parse: Parser, raw: map<string, Yaml>)
    requires a.Separate()
    ensures Apply(parse, Scenario(a), Map(raw)).Unhashable? <==> exists i :: BareAt(a, parse, Map(raw), i)
    ensures Apply(parse, Scenario(a), Map(raw)).NotDecimal?
      <==> !EveryStringParses(a, parse, Map(raw)) && forall i :: !BareAt(a, parse, Map(raw), i)
  {
    var y := Map(raw);
    if Apply(parse, Scenario(a), y).Unhashable? {
      var i := BareFound(a, parse, raw);
    }
    if i :| BareAt(a, parse, y, i) {
      BareRaised(a, parse, raw, i);
    }
    SucceedsExactly(a, parse, raw);
  }

  const WITNESS_SCENARIO: map<string, Yaml> := map["commands" := List([Map(map["type" := List([])])])]

  /** A scenario that raises the bare error: one command whose `type` is an empty list. */
  lemma CommandTypeCanRaise(a: Allowlist, parse: Parser)
    ensures Apply(parse, Scenario(a), Map(WITNESS_SCENARIO)).Unhashable?
  {
    var commands := [Map(map["type" := List([])])];
    ListFails(parse, CommandEntry(a), commands, 0);
    UnderScenario(a, WITNESS_SCENARIO, "commands");
    BareMap(parse, Scenario(a), WITNESS_SCENARIO, "commands");
  }

  const TWO_FAULTS: map<string, Yaml> := map[
    "grid_model" := Map(map["nominal_frequency_hz" := Str("x")]),
    "commands" := List([Map(map["type" := List([])])])]

  /** A scenario with both faults that gets the typed error: a frequency that is no number, and a
      command whose `type` is an empty list. */
  lemma TypedErrorComesFirst(parse: Parser)
    requires parse("x").None?
    ensures Apply(parse, Scenario(ALLOWLIST), Map(TWO_FAULTS)) == NotDecimal
    ensures UntypableCommand(Map(TWO_FAULTS), [Key("commands"), Index(0)])
  {
    FrequencyIsCoerced();
    TwoFaults();
    MalformedFrequency(ALLOWLIST, parse, "nominal_frequency_hz", TWO_FAULTS);
  }

  lemma TwoFaults()
    ensures "grid_model" in TWO_FAULTS && TWO_FAULTS["grid_model"] == Map(map["nominal_frequency_hz" := Str("x")])
    ensures UntypableCommand(Map(TWO_FAULTS), [Key("commands"), Index(0)])
  {
    UntypableIs(TWO_FAULTS, 0);
  }

  lemma FrequencyIsCoerced()
    ensures "nominal_frequency_hz" in GRID_MODEL_DECIMAL_FIELDS
  {
  }

  lemma MalformedFrequency(a: Allowlist, parse: Parser, field: string, raw: map<string, Yaml>)
    requires parse("x").None? && field in a.grid
    requires "grid_model" in raw && raw["grid_model"] == Map(map[field := Str("x")])
    ensures Apply(parse, Scenario(a), Map(raw)) == NotDecimal
  {
    MapFails(parse, DecimalFields(a.grid), map[field := Str("x")], field);
    SectionFails(a, parse, "grid_model", raw);
  }
}
