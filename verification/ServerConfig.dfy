/** The Modbus server's profile and its validation (device_server_modbus/_config.py). */
module ServerConfig {
  import opened Options

  datatype RegisterMapping = RegisterMapping(deviceId: string, metric: string, address: int)

  datatype WritableMapping = WritableMapping(address: int, targetDeviceId: string, commandType: string)

  datatype Config = Config(
    bindHost: string, bindPort: int, registerMap: seq<RegisterMapping>, unitId: int,
    writeMap: seq<WritableMapping>)

  datatype ConfigError =
    | EmptyBindHost | InvalidPort | InvalidUnitId | EmptyRegisterMap
    | InvalidAddress(address: int)
    | EmptyWriteField | InvalidWriteAddress(address: int)
    | RegisterOverlap(address: int)

  const MAX_ADDRESS := 65534

  function ReadAddresses(rs: seq<RegisterMapping>): seq<int> {
    seq(|rs|, i requires 0 <= i < |rs| => rs[i].address)
  }

  function WriteAddresses(ws: seq<WritableMapping>): seq<int> {
    seq(|ws|, i requires 0 <= i < |ws| => ws[i].address)
  }

  /** The first registers of all windows, those that are read before those that are written. */
  function Addresses(c: Config): seq<int> {
    ReadAddresses(c.registerMap) + WriteAddresses(c.writeMap)
  }

  /** A window is the register at its address and the one after it. */
  predicate InWindow(register: int, address: int) {
    register == address || register == address + 1
  }

  predicate Apart(a: int, b: int) {
    a + 1 < b || b + 1 < a
  }

  /** No register belongs to two windows. */
  ghost predicate Disjoint(addresses: seq<int>) {
    forall i, j :: 0 <= i < j < |addresses| ==> Apart(addresses[i], addresses[j])
  }

  ghost predicate Occupied(register: int, addresses: seq<int>) {
    exists i :: 0 <= i < |addresses| && InWindow(register, addresses[i])
  }

  /** Both registers of the window have an address of 16 bits. */
  predicate InRange(address: int) {
    0 <= address && address + 1 <= 0xFFFF
  }

  predicate ValidWrite(w: WritableMapping) {
    w.targetDeviceId != "" && w.commandType != "" && InRange(w.address)
  }

  predicate ValidReads(rs: seq<RegisterMapping>) {
    forall i :: 0 <= i < |rs| ==> InRange(rs[i].address)
  }

  predicate ValidWrites(ws: seq<WritableMapping>) {
    forall i :: 0 <= i < |ws| ==> ValidWrite(ws[i])
  }

  /** The fields that are checked before the maps. */
  predicate ValidHeader(c: Config) {
    c.bindHost != "" && 1 <= c.bindPort <= 65535 && 1 <= c.unitId <= 247 && c.registerMap != []
  }

  ghost predicate Accepted(c: Config) {
    ValidHeader(c) && ValidReads(c.registerMap) && ValidWrites(c.writeMap) && Disjoint(Addresses(c))
  }

  /** Read address `k` is the first out of range, and the error names it. */
  predicate FirstBadRead(rs: seq<RegisterMapping>, k: nat, error: Option<ConfigError>) {
    && k < |rs| && ValidReads(rs[..k]) && !InRange(rs[k].address)
    && error == Some(InvalidAddress(rs[k].address))
  }

  /** Write window `k` is the first with a fault, of which an empty field comes first. */
  predicate FirstBadWrite(ws: seq<WritableMapping>, k: nat, error: Option<ConfigError>) {
    && k < |ws| && ValidWrites(ws[..k]) && !ValidWrite(ws[k])
    && error == Some(if ws[k].targetDeviceId == "" || ws[k].commandType == ""
                     then EmptyWriteField else InvalidWriteAddress(ws[k].address))
  }

  /** `_validate_addresses`: the first read address out of range. */
  method ValidateAddresses(rs: seq<RegisterMapping>) returns (error: Option<ConfigError>)
    ensures error.None? <==> ValidReads(rs)
    ensures error.Some? ==> exists k :: FirstBadRead(rs, k, error)
  {
    for i := 0 to |rs|
      invariant ValidReads(rs[..i])
    {
      if !(0 <= rs[i].address <= MAX_ADDRESS) {
        assert FirstBadRead(rs, i, Some(InvalidAddress(rs[i].address)));
        return Some(InvalidAddress(rs[i].address));
      }
    }
    assert rs[..|rs|] == rs;
    return None;
  }

  /** `_validate_write_map`: the first write window with an empty field or an address out of range. */
  method ValidateWriteMap(ws: seq<WritableMapping>) returns (error: Option<ConfigError>)
    ensures error.None? <==> ValidWrites(ws)
    ensures error.Some? ==> exists k :: FirstBadWrite(ws, k, error)
  {
    for i := 0 to |ws|
      invariant ValidWrites(ws[..i])
    {
      var w := ws[i];
      if w.targetDeviceId == "" || w.commandType == "" {
        assert FirstBadWrite(ws, i, Some(EmptyWriteField));
        return Some(EmptyWriteField);
      }
      if !(0 <= w.address <= MAX_ADDRESS) {
        assert FirstBadWrite(ws, i, Some(InvalidWriteAddress(w.address)));
        return Some(InvalidWriteAddress(w.address));
      }
    }
    assert ws[..|ws|] == ws;
    return None;
  }

  /** Window `k` is the first that meets an earlier one, and `register` is the first of its
      registers that does. */
  ghost predicate FirstOverlap(addresses: seq<int>, k: nat, register: int) {
    && k < |addresses|
    && Disjoint(addresses[..k])
    && InWindow(register, addresses[k])
    && Occupied(register, addresses[..k])
    && (register == addresses[k] + 1 ==> !Occupied(addresses[k], addresses[..k]))
  }

  /** `_validate_no_overlap`. */
  method ValidateNoOverlap(addresses: seq<int>) returns (error: Option<ConfigError>)
    ensures error.None? <==> Disjoint(addresses)
    ensures error.Some? ==>
              error.value.RegisterOverlap? && exists k :: FirstOverlap(addresses, k, error.value.address)
  {
    var occupied: set<int> := {};
    for i := 0 to |addresses|
      invariant forall r :: r in occupied <==> Occupied(r, addresses[..i])
      invariant Disjoint(addresses[..i])
    {
      for offset := 0 to 2
        invariant forall r :: r in occupied <==>
                              Occupied(r, addresses[..i]) || (addresses[i] <= r < addresses[i] + offset)
        invariant offset > 0 ==> !Occupied(addresses[i], addresses[..i])
        invariant offset > 1 ==> !Occupied(addresses[i] + 1, addresses[..i])
      {
        var register := addresses[i] + offset;
        if register in occupied {
          assert FirstOverlap(addresses, i, register);
          OverlapIsNotDisjoint(addresses, i, register);
          return Some(RegisterOverlap(register));
        }
        occupied := occupied + {register};
      }
      ExtendDisjoint(addresses, i);
      ExtendOccupied(addresses, i);
    }
    assert addresses[..|addresses|] == addresses;
    return None;
  }

  lemma OverlapIsNotDisjoint(addresses: seq<int>, k: nat, register: int)
    requires FirstOverlap(addresses, k, register)
    ensures !Disjoint(addresses)
  {
    var i :| 0 <= i < k && InWindow(register, addresses[..k][i]);
    assert !Apart(addresses[i], addresses[k]);
  }

  lemma ExtendDisjoint(addresses: seq<int>, k: nat)
    requires k < |addresses| && Disjoint(addresses[..k])
    requires !Occupied(addresses[k], addresses[..k]) && !Occupied(addresses[k] + 1, addresses[..k])
    ensures Disjoint(addresses[..k + 1])
  {
    forall i | 0 <= i < k ensures Apart(addresses[i], addresses[k]) {
      assert !InWindow(addresses[k], addresses[..k][i]);
      assert !InWindow(addresses[k] + 1, addresses[..k][i]);
    }
    var p := addresses[..k + 1];
    forall i, j | 0 <= i < j < |p| ensures Apart(p[i], p[j]) {
      if j < k {
        assert addresses[..k][i] == p[i] && addresses[..k][j] == p[j];
      }
    }
  }

  lemma ExtendOccupied(addresses: seq<int>, k: nat)
    requires k < |addresses|
    ensures forall r :: Occupied(r, addresses[..k + 1]) <==>
                        Occupied(r, addresses[..k]) || InWindow(r, addresses[k])
  {
    forall r
      ensures Occupied(r, addresses[..k + 1]) <==> Occupied(r, addresses[..k]) || InWindow(r, addresses[k])
    {
      if Occupied(r, addresses[..k]) {
        var i :| 0 <= i < k && InWindow(r, addresses[..k][i]);
        assert InWindow(r, addresses[..k + 1][i]);
      }
      if InWindow(r, addresses[k]) {
        assert InWindow(r, addresses[..k + 1][k]);
      }
      if Occupied(r, addresses[..k + 1]) {
        var i :| 0 <= i < k + 1 && InWindow(r, addresses[..k + 1][i]);
        if i < k {
          assert InWindow(r, addresses[..k][i]);
        }
      }
    }
  }

  /** The constructor's validation: it accepts exactly the profiles whose fields and addresses are
      in range and whose windows are pairwise disjoint, and stops at the first fault. */
  method Validate(c: Config) returns (error: Option<ConfigError>)
    ensures error.None? <==> Accepted(c)
    ensures c.bindHost == "" ==> error == Some(EmptyBindHost)
    ensures c.bindHost != "" && !(1 <= c.bindPort <= 65535) ==> error == Some(InvalidPort)
    ensures c.bindHost != "" && 1 <= c.bindPort <= 65535 && !(1 <= c.unitId <= 247) ==>
              error == Some(InvalidUnitId)
    ensures c.bindHost != "" && 1 <= c.bindPort <= 65535 && 1 <= c.unitId <= 247 && c.registerMap == [] ==>
              error == Some(EmptyRegisterMap)
    ensures ValidHeader(c) && !ValidReads(c.registerMap) ==> exists k :: FirstBadRead(c.registerMap, k, error)
    ensures ValidHeader(c) && ValidReads(c.registerMap) && !ValidWrites(c.writeMap) ==>
              exists k :: FirstBadWrite(c.writeMap, k, error)
    ensures ValidHeader(c) && ValidReads(c.registerMap) && ValidWrites(c.writeMap) && error.Some? ==>
              error.value.RegisterOverlap? && exists k :: FirstOverlap(Addresses(c), k, error.value.address)
  {
    if c.bindHost == "" { return Some(EmptyBindHost); }
    if !(1 <= c.bindPort <= 65535) { return Some(InvalidPort); }
    if !(1 <= c.unitId <= 247) { return Some(InvalidUnitId); }
    if c.registerMap == [] { return Some(EmptyRegisterMap); }
    error := ValidateAddresses(c.registerMap);
    if error.Some? { return; }
    error := ValidateWriteMap(c.writeMap);
    if error.Some? { return; }
    error := ValidateNoOverlap(Addresses(c));
  }

  // ---- the holding block ----

  function Largest(xs: seq<int>): int
    requires xs != []
  {
    if |xs| == 1 then xs[0]
    else
      var m := Largest(xs[..|xs| - 1]);
      if m < xs[|xs| - 1] then xs[|xs| - 1] else m
  }

  /** `_holding_register_count`. */
  function HoldingCount(c: Config): int
    requires c.registerMap != []
  {
    Largest(Addresses(c)) + 2
  }

  lemma {:induction false} LargestIsLargest(xs: seq<int>)
    requires xs != []
    ensures Largest(xs) in xs
    ensures forall i :: 0 <= i < |xs| ==> xs[i] <= Largest(xs)
  {
    if |xs| > 1 {
      var n := |xs| - 1;
      LargestIsLargest(xs[..n]);
      assert forall i :: 0 <= i < n ==> xs[..n][i] == xs[i];
    }
  }

  /** The block is just long enough: it covers every read and write window, and its last register
      belongs to one of them. */
  lemma BlockCoversExactly(c: Config)
    requires Accepted(c)
    ensures 2 <= HoldingCount(c) <= 0x1_0000
    ensures forall i :: 0 <= i < |c.registerMap| ==> c.registerMap[i].address + 2 <= HoldingCount(c)
    ensures forall i :: 0 <= i < |c.writeMap| ==> c.writeMap[i].address + 2 <= HoldingCount(c)
    ensures Occupied(HoldingCount(c) - 1, Addresses(c))
  {
    var xs := Addresses(c);
    LargestIsLargest(xs);
    var k :| 0 <= k < |xs| && xs[k] == Largest(xs);
    assert InWindow(HoldingCount(c) - 1, xs[k]);
    forall i | 0 <= i < |c.registerMap| ensures c.registerMap[i].address + 2 <= HoldingCount(c) {
      assert xs[i] == c.registerMap[i].address;
    }
    forall i | 0 <= i < |c.writeMap| ensures c.writeMap[i].address + 2 <= HoldingCount(c) {
      assert xs[|c.registerMap| + i] == c.writeMap[i].address;
    }
  }

  /** Windows of one profile, by role. */
  lemma DisjointWindows(c: Config)
    requires Disjoint(Addresses(c))
    ensures forall i, j :: 0 <= i < j < |c.registerMap| ==>
              Apart(c.registerMap[i].address, c.registerMap[j].address)
    ensures forall i, j :: 0 <= i < j < |c.writeMap| ==> Apart(c.writeMap[i].address, c.writeMap[j].address)
    ensures forall i, j :: 0 <= i < |c.registerMap| && 0 <= j < |c.writeMap| ==>
              Apart(c.registerMap[i].address, c.writeMap[j].address)
  {
    var xs, n := Addresses(c), |c.registerMap|;
    assert forall i :: 0 <= i < n ==> xs[i] == c.registerMap[i].address;
    assert forall i :: 0 <= i < |c.writeMap| ==> xs[n + i] == c.writeMap[i].address;
    forall i, j | 0 <= i < j < |c.writeMap| ensures Apart(c.writeMap[i].address, c.writeMap[j].address) {
      assert Apart(xs[n + i], xs[n + j]);
    }
    forall i, j | 0 <= i < n && 0 <= j < |c.writeMap|
      ensures Apart(c.registerMap[i].address, c.writeMap[j].address)
    {
      assert Apart(xs[i], xs[n + j]);
    }
  }
}
