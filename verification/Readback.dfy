/** What the field server's setpoint windows read as, against the commands masters have given
    (device_server_modbus/_adapter.py). */
module Readback {
  import opened Floats
  import opened Options
  import opened ServerConfig
  import opened RegisterMaps
  import opened WriteMap
  import InboundBuffer
  import opened FieldServer

  // ---- what a log of writes leaves in two registers ----

  function WordAt(w: MasterWrite, a: int): Word
    requires Covers(w, a)
  {
    w.words[a - w.address]
  }

  /** Write `i` is the last to store in register `a`. */
  predicate LastCovering(log: seq<MasterWrite>, i: nat, a: int) {
    i < |log| && Covers(log[i], a) && forall l :: i < l < |log| ==> !Covers(log[l], a)
  }

  /** Write `j` stores in register `a`, and the last write after it to do so, if there is one, stores
      the same word again. */
  predicate SameAgain(log: seq<MasterWrite>, j: nat, a: int) {
    && j < |log| && Covers(log[j], a)
    && forall i :: j < i < |log| && LastCovering(log, i, a) ==> WordAt(log[i], a) == WordAt(log[j], a)
  }

  lemma {:induction false} LastWordIs(log: seq<MasterWrite>, j: nat, a: int)
    requires LastCovering(log, j, a)
    ensures LastWord(log, a) == WordAt(log[j], a)
  {
    var n := |log| - 1;
    if j < n {
      LastWordIs(log[..n], j, a);
    }
  }

  lemma {:induction false} LastCoveringExists(log: seq<MasterWrite>, j: nat, a: int) returns (i: nat)
    requires j < |log| && Covers(log[j], a)
    ensures j <= i && LastCovering(log, i, a)
    decreases |log| - j
  {
    if l: nat :| j < l < |log| && Covers(log[l], a) {
      i := LastCoveringExists(log, l, a);
    } else {
      i := j;
    }
  }

  lemma OneLast(log: seq<MasterWrite>, i: nat, l: nat, a: int)
    requires LastCovering(log, i, a) && LastCovering(log, l, a)
    ensures i == l
  {
  }

  lemma KeptExactly(log: seq<MasterWrite>, j: nat, a: int)
    requires j < |log| && Covers(log[j], a)
    ensures LastWord(log, a) == WordAt(log[j], a) <==> SameAgain(log, j, a)
  {
    var i := LastCoveringExists(log, j, a);
    LastWordIs(log, i, a);
    forall l | j < l < |log| && LastCovering(log, l, a) ensures l == i {
      OneLast(log, i, l, a);
    }
  }

  lemma {:induction false} NeverStored(log: seq<MasterWrite>, a: int)
    requires forall i :: 0 <= i < |log| ==> !Covers(log[i], a)
    ensures LastWord(log, a) == 0
  {
    if log != [] {
      NeverStored(log[..|log| - 1], a);
    }
  }

  // ---- commands given for a window ----

  /** The write gives a command for the window: by its code, by covering it and by its pattern. */
  predicate Gives(w: MasterWrite, m: WritableMapping) {
    w.fc in FC_WRITE_HOLDING && Decodable(m, w.address, w.words)
  }

  function ValueGiven(w: MasterWrite, m: WritableMapping): Decimal
    requires Gives(w, m)
  {
    ValueIn(m, w.address, w.words).value
  }

  /** Write `j` is the last that gave a command for the window. */
  predicate LastGiving(log: seq<MasterWrite>, m: WritableMapping, j: nat) {
    j < |log| && Gives(log[j], m) && forall i :: j < i < |log| ==> !Gives(log[i], m)
  }

  ghost predicate NoneGives(log: seq<MasterWrite>, m: WritableMapping) {
    forall i :: 0 <= i < |log| ==> !Gives(log[i], m)
  }

  lemma {:induction false} LastGivingExists(log: seq<MasterWrite>, m: WritableMapping, i: nat) returns (j: nat)
    requires i < |log| && Gives(log[i], m)
    ensures LastGiving(log, m, j)
    decreases |log| - i
  {
    if l: nat :| i < l < |log| && Gives(log[l], m) {
      j := LastGivingExists(log, m, l);
    } else {
      j := i;
    }
  }

  /** The two registers of a value, as the server encodes it. */
  function ValueWords(v: Decimal): seq<Word> {
    [EncodeFloat32(v).0, EncodeFloat32(v).1]
  }

  lemma ValueAndWords(high: Word, low: Word)
    requires DecodeFloat32(high, low).Some?
    ensures ValueWords(DecodeFloat32(high, low).value) == [high, low]
  {
    DecodeRefusesExactly(high, low);
    RoundTrip(high, low);
  }

  /** The words that give a command are the encoding of its value. */
  lemma GivenWords(w: MasterWrite, m: WritableMapping)
    requires Gives(w, m)
    ensures Covers(w, m.address) && Covers(w, m.address + 1)
    ensures ValueWords(ValueGiven(w, m)) == [WordAt(w, m.address), WordAt(w, m.address + 1)]
  {
    var high, low := WordAt(w, m.address), WordAt(w, m.address + 1);
    assert ValueIn(m, w.address, w.words) == DecodeFloat32(high, low);
    ValueAndWords(high, low);
  }

  /** The words last stored in the window's two registers. */
  function LastWords(log: seq<MasterWrite>, m: WritableMapping): seq<Word> {
    [LastWord(log, m.address), LastWord(log, m.address + 1)]
  }

  /** Of each of the window's registers, the last write to store there after write `j`, if there is
      one, stored the word of write `j` again. */
  predicate Undisturbed(log: seq<MasterWrite>, m: WritableMapping, j: nat) {
    SameAgain(log, j, m.address) && SameAgain(log, j, m.address + 1)
  }

  lemma PairKept(log: seq<MasterWrite>, m: WritableMapping, j: nat, given: seq<Word>)
    requires j < |log| && Covers(log[j], m.address) && Covers(log[j], m.address + 1)
    requires given == [WordAt(log[j], m.address), WordAt(log[j], m.address + 1)]
    ensures LastWords(log, m) == given <==> Undisturbed(log, m, j)
  {
    var a, w := m.address, log[j];
    KeptExactly(log, j, a);
    KeptExactly(log, j, a + 1);
    BothKept(LastWord(log, a), LastWord(log, a + 1), WordAt(w, a), WordAt(w, a + 1),
             SameAgain(log, j, a), SameAgain(log, j, a + 1), given);
  }

  lemma BothKept(x: Word, y: Word, u: Word, v: Word, p: bool, q: bool, given: seq<Word>)
    requires given == [u, v] && (x == u <==> p) && (y == v <==> q)
    ensures [x, y] == given <==> p && q
  {
    if [x, y] == given {
      assert [x, y][0] == u && [x, y][1] == v;
    }
  }

  lemma LogReadsBack(log: seq<MasterWrite>, m: WritableMapping, j: nat)
    requires j < |log| && Gives(log[j], m)
    ensures LastWords(log, m) == ValueWords(ValueGiven(log[j], m)) <==> Undisturbed(log, m, j)
  {
    GivenWords(log[j], m);
    PairKept(log, m, j, ValueWords(ValueGiven(log[j], m)));
  }

  lemma UndisturbedWhenUntouched(log: seq<MasterWrite>, m: WritableMapping, j: nat)
    requires j < |log| && Gives(log[j], m) && Untouched(log, j + 1, m.address)
    ensures Undisturbed(log, m, j)
  {
    GivenWords(log[j], m);
    SameWhenUntouched(log, j, m.address, m.address);
    SameWhenUntouched(log, j, m.address, m.address + 1);
  }

  lemma SameWhenUntouched(log: seq<MasterWrite>, j: nat, address: int, a: int)
    requires j < |log| && Covers(log[j], a) && InWindow(a, address) && Untouched(log, j + 1, address)
    ensures SameAgain(log, j, a)
  {
    forall i | j < i < |log| ensures !LastCovering(log, i, a) {
      assert !Touches(log[i], address);
    }
  }

  // ---- every run ----

  /** The window's two registers hold the words. */
  ghost predicate ReadsAs(s: State, m: WritableMapping, words: seq<Word>) {
    && 0 <= m.address && m.address + 2 <= |s.block|
    && s.block[m.address..m.address + 2] == words
  }

  lemma ReadsLastWords(c: Config, events: seq<Event>, k: nat)
    requires Accepted(c) && k < |c.writeMap|
    ensures ReadsAs(Run(c, events), c.writeMap[k], LastWords(Run(c, events).log, c.writeMap[k]))
  {
    SetpointsSurvive(c, events, k);
    var s, m := Run(c, events), c.writeMap[k];
    TwoWords(s.block, m.address, LastWord(s.log, m.address), LastWord(s.log, m.address + 1));
  }

  lemma TwoWords(block: seq<Word>, a: int, x: Word, y: Word)
    requires 0 <= a && a + 2 <= |block| && block[a] == x && block[a + 1] == y
    ensures block[a..a + 2] == [x, y]
  {
  }

  /** In every run a setpoint window reads as a command given for it, be it the last or not, exactly
      when, of each of its two registers, the last write to store there since, if there is one,
      stored the command's own word again. */
  lemma ReadbackExactly(c: Config, events: seq<Event>, k: nat, j: nat)
    requires Accepted(c) && k < |c.writeMap| && j < |Run(c, events).log|
    requires Gives(Run(c, events).log[j], c.writeMap[k])
    ensures var s, m := Run(c, events), c.writeMap[k];
            ReadsAs(s, m, ValueWords(ValueGiven(s.log[j], m))) <==> Undisturbed(s.log, m, j)
  {
    ReadsLastWords(c, events, k);
    LogReadsBack(Run(c, events).log, c.writeMap[k], j);
  }

  /** Every write to the window gave a command for it. */
  ghost predicate OnlyCommands(log: seq<MasterWrite>, m: WritableMapping) {
    forall i :: 0 <= i < |log| && Touches(log[i], m.address) ==> Gives(log[i], m)
  }

  /** Where every write to a setpoint window covers it with a finite pattern under a code the hook
      decodes, the window reads as the last command given for it in every run, and as zero before
      the first. */
  lemma WholeWritesReadBack(c: Config, events: seq<Event>, k: nat)
    requires Accepted(c) && k < |c.writeMap| && OnlyCommands(Run(c, events).log, c.writeMap[k])
    ensures var s, m := Run(c, events), c.writeMap[k];
            if NoneGives(s.log, m) then ReadsAs(s, m, [0, 0])
            else exists j: nat :: LastGiving(s.log, m, j) && ReadsAs(s, m, ValueWords(ValueGiven(s.log[j], m)))
  {
    var s, m := Run(c, events), c.writeMap[k];
    ReadsLastWords(c, events, k);
    if NoneGives(s.log, m) {
      forall i | 0 <= i < |s.log| ensures !Touches(s.log[i], m.address) {
      }
      NeverStored(s.log, m.address);
      NeverStored(s.log, m.address + 1);
    } else {
      var i :| 0 <= i < |s.log| && Gives(s.log[i], m);
      var j := LastGivingExists(s.log, m, i);
      UndisturbedWhenUntouched(s.log, m, j);
      LogReadsBack(s.log, m, j);
    }
  }

  // ---- the last command in the buffer ----

  /** The last command for a device and type, out of many. */
  function LastFor(all: seq<Arrival>, target: string, commandType: string): Option<InboundBuffer.Payload> {
    if all == [] then None
    else
      var last := all[|all| - 1];
      if last.0 == target && last.1 == commandType then Some(last.2)
      else LastFor(all[..|all| - 1], target, commandType)
  }

  lemma {:induction false} LastForAppended(xs: seq<Arrival>, ys: seq<Arrival>, target: string, commandType: string)
    ensures LastFor(xs + ys, target, commandType)
            == if LastFor(ys, target, commandType).Some? then LastFor(ys, target, commandType)
               else LastFor(xs, target, commandType)
  {
    if ys == [] {
      assert xs + ys == xs;
    } else {
      var n := |ys| - 1;
      LastForAppended(xs, ys[..n], target, commandType);
      assert (xs + ys)[..|xs + ys| - 1] == xs + ys[..n];
    }
  }

  lemma {:induction false} LastForNone(all: seq<Arrival>, target: string, commandType: string)
    requires forall i :: 0 <= i < |all| ==> !(all[i].0 == target && all[i].1 == commandType)
    ensures LastFor(all, target, commandType).None?
  {
    if all != [] {
      LastForNone(all[..|all| - 1], target, commandType);
    }
  }

  lemma LastForOnly(all: seq<Arrival>, i: nat)
    requires i < |all|
    requires forall l :: i < l < |all| ==> !(all[l].0 == all[i].0 && all[l].1 == all[i].1)
    ensures LastFor(all, all[i].0, all[i].1) == Some(all[i].2)
  {
    assert all == all[..i + 1] + all[i + 1..];
    LastForNone(all[i + 1..], all[i].0, all[i].1);
    LastForAppended(all[..i + 1], all[i + 1..], all[i].0, all[i].1);
  }

  /** No other window commands the same device and type. */
  ghost predicate OwnCommand(ws: seq<WritableMapping>, m: WritableMapping) {
    forall i :: 0 <= i < |ws| && ws[i] != m ==>
                  !(ws[i].targetDeviceId == m.targetDeviceId && ws[i].commandType == m.commandType)
  }

  function CommandedBy(c: Config, w: MasterWrite): seq<Arrival> {
    ArrivalsOf(Hooked(Writable(c.writeMap), w.fc, w.address, w.words))
  }

  function Commanded(w: MasterWrite, m: WritableMapping): Option<InboundBuffer.Payload> {
    if Gives(w, m) then Some(map["value" := ValueGiven(w, m)]) else None
  }

  /** What one write commands for a window that has its command to itself. */
  lemma OneWriteCommands(c: Config, m: WritableMapping, w: MasterWrite)
    requires Accepted(c) && m in c.writeMap && OwnCommand(c.writeMap, m)
    ensures LastFor(CommandedBy(c, w), m.targetDeviceId, m.commandType) == Commanded(w, m)
  {
    var all := CommandedBy(c, w);
    if w.fc in FC_WRITE_HOLDING {
      var ms := DecodesExactly(c, w.address, w.words);
      forall i | 0 <= i < |ms| && ms[i] != m
        ensures !(all[i].0 == m.targetDeviceId && all[i].1 == m.commandType)
      {
        assert ms[i] in ms;
        var l :| 0 <= l < |c.writeMap| && c.writeMap[l] == ms[i];
      }
      if Gives(w, m) {
        assert m in ms;
        var i :| 0 <= i < |ms| && ms[i] == m;
        forall l | i < l < |ms| ensures ms[l] != m {
          assert ms[i].address < ms[l].address;
        }
        LastForOnly(all, i);
      } else {
        assert m !in ms;
        LastForNone(all, m.targetDeviceId, m.commandType);
      }
    }
  }

  /** The command of the last write that gives one for the window. */
  function LastGiven(log: seq<MasterWrite>, m: WritableMapping): Option<InboundBuffer.Payload> {
    if log == [] then None
    else if Gives(log[|log| - 1], m) then Commanded(log[|log| - 1], m)
    else LastGiven(log[..|log| - 1], m)
  }

  lemma {:induction false} LastCommandIs(c: Config, log: seq<MasterWrite>, m: WritableMapping)
    requires Accepted(c) && m in c.writeMap && OwnCommand(c.writeMap, m)
    ensures LastFor(CommandsOf(c, log), m.targetDeviceId, m.commandType) == LastGiven(log, m)
  {
    if log != [] {
      var n := |log| - 1;
      LastCommandIs(c, log[..n], m);
      OneWriteCommands(c, m, log[n]);
      LastForAppended(CommandsOf(c, log[..n]), CommandedBy(c, log[n]), m.targetDeviceId, m.commandType);
    }
  }

  lemma {:induction false} LastGivenIs(log: seq<MasterWrite>, m: WritableMapping) returns (j: nat)
    requires LastGiven(log, m).Some?
    ensures LastGiving(log, m, j) && LastGiven(log, m) == Commanded(log[j], m)
  {
    var n := |log| - 1;
    if Gives(log[n], m) {
      j := n;
    } else {
      j := LastGivenIs(log[..n], m);
      forall i | j < i <= n ensures !Gives(log[i], m) {
        if i < n { assert log[..n][i] == log[i]; }
      }
    }
  }

  /** In every run, between requests, a setpoint window that has its command to itself reads as the
      last command captured or pending for its device and type exactly when what was stored in its
      registers since, if anything, is what that command stored. */
  lemma SetpointShowsLastCommand(c: Config, events: seq<Event>, k: nat, v: Decimal) returns (j: nat)
    requires Accepted(c) && k < |c.writeMap| && OwnCommand(c.writeMap, c.writeMap[k])
    requires Run(c, events).request.Idle?
    requires LastFor(Contents(Run(c, events).live.buffer), c.writeMap[k].targetDeviceId, c.writeMap[k].commandType)
             == Some(map["value" := v])
    ensures var s, m := Run(c, events), c.writeMap[k];
            && LastGiving(s.log, m, j) && ValueGiven(s.log[j], m) == v
            && (ReadsAs(s, m, ValueWords(v)) <==> Undisturbed(s.log, m, j))
  {
    var log, m := Run(c, events).log, c.writeMap[k];
    IdleContents(c, events);
    LastCommandIs(c, log, m);
    j := LastGivenIs(log, m);
    SameValue(v, ValueGiven(log[j], m));
    ReadbackExactly(c, events, k, j);
  }

  lemma SameValue(v: Decimal, w: Decimal)
    requires map["value" := v] == map["value" := w]
    ensures v == w
  {
    assert map["value" := v]["value"] == map["value" := w]["value"];
  }

  // ---- how reading back fails ----

  /** A write that changes the first word of a window and gives no command: of one register, of one
      register under the mask code, or of both with the pattern of a NaN. */
  predicate Breaks(w: MasterWrite, address: int) {
    w.address == address
    && ((w.fc == 6 && w.words == [0]) || (w.fc == 22 && w.words == [0]) || (w.fc == 16 && w.words == [0x7FC0, 0]))
  }

  lemma RefusedDecodesNothing(c: Config, address: int, words: seq<Word>)
    requires Accepted(c) && |words| == 2 && DecodeFloat32(words[0], words[1]).None?
    ensures DecodeAll(Writable(c.writeMap), address, words) == []
  {
    forall m | Covered(m, address, 2) ensures !Decodable(m, address, words) {
      assert ValueIn(m, address, words) == DecodeFloat32(words[0], words[1]);
    }
    NothingDecoded(Writable(c.writeMap), address, words);
  }

  lemma BreakingIsNoCommand(c: Config, m: WritableMapping, w: MasterWrite)
    requires Accepted(c) && Breaks(w, m.address)
    ensures Hooked(Writable(c.writeMap), w.fc, w.address, w.words) == []
    ensures !Gives(w, m)
  {
    if w.fc == 6 {
      SingleRegisterDecodesNothing(Writable(c.writeMap), w.address, 0);
    } else if w.fc == 16 {
      DecodeRefusesExactly(0x7FC0, 0);
      RefusedDecodesNothing(c, w.address, w.words);
    }
  }

  /** A setpoint of 1.0, given with code 16 or 23. */
  function Setpoint(m: WritableMapping, fc: int): MasterWrite {
    MasterWrite(fc, m.address, [0x3F80, 0])
  }

  /** What the setpoint commands. */
  function One(m: WritableMapping): Arrival {
    (m.targetDeviceId, m.commandType, map["value" := DecodeFloat32(0x3F80, 0).value])
  }

  lemma SetpointGives(c: Config, k: nat, fc: int)
    requires Accepted(c) && k < |c.writeMap| && fc in {16, 23}
    ensures var m := c.writeMap[k];
            && Gives(Setpoint(m, fc), m)
            && ArrivalsOf(Hooked(Writable(c.writeMap), fc, m.address, [0x3F80, 0])) == [One(m)]
  {
    DecodeRefusesExactly(0x3F80, 0);
    OneWindowDecodes(c, k, [0x3F80, 0]);
  }

  lemma AtFirst(c: Config)
    requires Accepted(c)
    ensures var s := Run(c, []);
            s.request.Idle? && s.log == [] && Contents(s.live.buffer) == [] && |s.block| == HoldingCount(c)
  {
    BlockCoversExactly(c);
  }

  lemma AfterSetpoint(c: Config, k: nat, fc: int)
    requires Accepted(c) && k < |c.writeMap| && fc in {16, 23}
    ensures var w := Setpoint(c.writeMap[k], fc);
            var s := Run(c, RequestEvents(w, 1));
            && s.request.Idle? && s.log == [w] && Contents(s.live.buffer) == [One(c.writeMap[k])]
            && |s.block| == HoldingCount(c)
  {
    var w := Setpoint(c.writeMap[k], fc);
    AtFirst(c);
    SetpointGives(c, k, fc);
    BlockCoversExactly(c);
    RequestInRun(c, [], w);
    assert [] + RequestEvents(w, 1) == RequestEvents(w, 1);
    assert [] + [One(c.writeMap[k])] == [One(c.writeMap[k])];
  }

  lemma AfterBreaking(c: Config, k: nat, fc: int, w: MasterWrite)
    requires Accepted(c) && k < |c.writeMap| && fc in {16, 23} && Breaks(w, c.writeMap[k].address)
    ensures var setpoint := Setpoint(c.writeMap[k], fc);
            var s := Run(c, RequestEvents(setpoint, 1) + RequestEvents(w, 0));
            s.log == [setpoint, w] && Contents(s.live.buffer) == [One(c.writeMap[k])]
  {
    var before := RequestEvents(Setpoint(c.writeMap[k], fc), 1);
    AfterSetpoint(c, k, fc);
    BreakingIsNoCommand(c, c.writeMap[k], w);
    BreakingFits(c, k, w, Run(c, before));
    RequestInRun(c, before, w);
    assert ArrivalsOf([]) == [];
  }

  lemma BreakingFits(c: Config, k: nat, w: MasterWrite, s: State)
    requires Accepted(c) && k < |c.writeMap| && Breaks(w, c.writeMap[k].address) && |s.block| == HoldingCount(c)
    ensures Acceptable(s, w)
  {
    BlockCoversExactly(c);
  }

  /** After any of the three writes that follow a setpoint its window reads as something else, while
      the setpoint is still the last command. */
  lemma ReadbackCanFail(c: Config, k: nat, fc: int, w: MasterWrite)
    requires Accepted(c) && k < |c.writeMap| && fc in {16, 23} && Breaks(w, c.writeMap[k].address)
    ensures var m := c.writeMap[k];
            var setpoint := Setpoint(m, fc);
            var s := Run(c, RequestEvents(setpoint, 1) + RequestEvents(w, 0));
            && s.log == [setpoint, w] && LastGiving(s.log, m, 0)
            && Contents(s.live.buffer) == [One(m)]
            && !ReadsAs(s, m, ValueWords(ValueGiven(setpoint, m)))
  {
    var m := c.writeMap[k];
    var setpoint := Setpoint(m, fc);
    SetpointGives(c, k, fc);
    BreakingIsNoCommand(c, m, w);
    AfterBreaking(c, k, fc, w);
    WordChanges([setpoint, w], m, setpoint, w);
    ReadbackExactly(c, RequestEvents(setpoint, 1) + RequestEvents(w, 0), k, 0);
  }

  lemma WordChanges(log: seq<MasterWrite>, m: WritableMapping, setpoint: MasterWrite, w: MasterWrite)
    requires log == [setpoint, w] && setpoint.words == [0x3F80, 0] && setpoint.address == m.address
    requires Breaks(w, m.address) && Gives(setpoint, m) && !Gives(w, m)
    ensures LastGiving(log, m, 0) && !Undisturbed(log, m, 0)
  {
    assert LastCovering(log, 1, m.address) && WordAt(log[1], m.address) != WordAt(log[0], m.address);
  }
}
