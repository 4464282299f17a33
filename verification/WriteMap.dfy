/** Decoding a master's write into setpoint commands (device_server_modbus/_write_map.py). */
module WriteMap {
  import opened Floats
  import opened Options
  import opened ServerConfig
  import opened Sorting

  datatype DecodedWrite = DecodedWrite(targetDeviceId: string, commandType: string, value: Decimal)

  predicate LowerAddress(x: WritableMapping, y: WritableMapping) {
    x.address < y.address
  }

  /** The decoder's topology: the windows by ascending address. */
  function Writable(ws: seq<WritableMapping>): seq<WritableMapping> {
    Sort(ws, LowerAddress)
  }

  /** Both registers of the window lie in the written range. */
  predicate Covered(m: WritableMapping, address: int, count: nat) {
    address <= m.address && m.address + 2 <= address + count
  }

  function ValueIn(m: WritableMapping, address: int, values: seq<int>): Option<Decimal>
    requires Covered(m, address, |values|)
  {
    DecodeFloat32(values[m.address - address], values[m.address - address + 1])
  }

  /** The window is written in full with a finite pattern. */
  predicate Decodable(m: WritableMapping, address: int, values: seq<int>) {
    Covered(m, address, |values|) && ValueIn(m, address, values).Some?
  }

  function DecodedFrom(m: WritableMapping, address: int, values: seq<int>): DecodedWrite
    requires Decodable(m, address, values)
  {
    DecodedWrite(m.targetDeviceId, m.commandType, ValueIn(m, address, values).value)
  }

  function DecodeAll(ws: seq<WritableMapping>, address: int, values: seq<int>): seq<DecodedWrite> {
    if ws == [] then []
    else
      var m := ws[|ws| - 1];
      DecodeAll(ws[..|ws| - 1], address, values)
      + (if Decodable(m, address, values) then [DecodedFrom(m, address, values)] else [])
  }

  class InboundWriteDecoder {
    const writable: seq<WritableMapping>

    constructor (config: Config)
      ensures writable == Writable(config.writeMap)
    {
      writable := Writable(config.writeMap);
    }

    predicate HasWritable() {
      writable != []
    }

    method Decode(address: int, values: seq<int>) returns (decoded: seq<DecodedWrite>)
      ensures decoded == DecodeAll(writable, address, values)
    {
      var end := address + |values|;
      decoded := [];
      for i := 0 to |writable|
        invariant decoded == DecodeAll(writable[..i], address, values)
      {
        var m := writable[i];
        assert writable[..i + 1][..i] == writable[..i];
        if m.address < address || m.address + 2 > end {
          continue;
        }
        var offset := m.address - address;
        var value := DecodeFloat32(values[offset], values[offset + 1]);
        if value.None? {
          continue;
        }
        decoded := decoded + [DecodedWrite(m.targetDeviceId, m.commandType, value.value)];
      }
      assert writable[..|writable|] == writable;
    }
  }

  // ---- what a write decodes to ----

  /** The windows a write decodes, in the order in which they are decoded. */
  function DecodableOf(ws: seq<WritableMapping>, address: int, values: seq<int>): seq<WritableMapping> {
    if ws == [] then []
    else
      var m := ws[|ws| - 1];
      DecodableOf(ws[..|ws| - 1], address, values) + (if Decodable(m, address, values) then [m] else [])
  }

  lemma {:induction false} DecodedOneByOne(ws: seq<WritableMapping>, address: int, values: seq<int>)
    ensures var ms, ds := DecodableOf(ws, address, values), DecodeAll(ws, address, values);
            && |ds| == |ms|
            && (forall m :: m in ms <==> m in ws && Decodable(m, address, values))
            && forall i :: 0 <= i < |ms| ==>
                 Decodable(ms[i], address, values) && ds[i] == DecodedFrom(ms[i], address, values)
  {
    if ws != [] {
      DecodedOneByOne(ws[..|ws| - 1], address, values);
      Split(ws);
    }
  }

  lemma {:induction false} DecodedAscending(ws: seq<WritableMapping>, address: int, values: seq<int>)
    requires forall i, j :: 0 <= i < j < |ws| ==> ws[i].address < ws[j].address
    ensures var ms := DecodableOf(ws, address, values);
            forall i, j :: 0 <= i < j < |ms| ==> ms[i].address < ms[j].address
  {
    if ws != [] {
      var n := |ws| - 1;
      DecodedAscending(ws[..n], address, values);
      DecodedOneByOne(ws[..n], address, values);
      var ms := DecodableOf(ws[..n], address, values);
      forall i | 0 <= i < |ms| ensures ms[i].address < ws[n].address {
        assert ms[i] in ws[..n];
        var k :| 0 <= k < n && ws[k] == ms[i];
        assert ws[k].address < ws[n].address;
      }
      AppendAscending(ms, ws[n]);
    }
  }

  lemma AppendAscending(ms: seq<WritableMapping>, m: WritableMapping)
    requires forall i, j :: 0 <= i < j < |ms| ==> ms[i].address < ms[j].address
    requires forall i :: 0 <= i < |ms| ==> ms[i].address < m.address
    ensures forall i, j :: 0 <= i < j < |ms + [m]| ==> (ms + [m])[i].address < (ms + [m])[j].address
  {
  }

  lemma WritableAscending(ws: seq<WritableMapping>)
    requires forall i, j :: 0 <= i < j < |ws| ==> Apart(ws[i].address, ws[j].address)
    ensures var s := Writable(ws);
            && (forall i, j :: 0 <= i < j < |s| ==> s[i].address + 1 < s[j].address)
            && (forall m :: m in s <==> m in ws)
  {
    var s := Writable(ws);
    SortSorts(ws, LowerAddress);
    forall m ensures m in s <==> m in ws {
      assert m in multiset(s) <==> m in multiset(ws);
    }
    forall i, j | 0 <= i < j < |s| ensures s[i].address + 1 < s[j].address {
      assert !LowerAddress(s[j], s[i]);
      PlacesApart(ws, s, i, j);
    }
  }

  lemma PlacesApart(ws: seq<WritableMapping>, s: seq<WritableMapping>, i: nat, j: nat)
    requires forall i, j :: 0 <= i < j < |ws| ==> Apart(ws[i].address, ws[j].address)
    requires multiset(s) == multiset(ws) && i < j < |s|
    ensures Apart(s[i].address, s[j].address)
  {
    if s[i] == s[j] {
      TwiceInOne(s, i, j);
      TwiceMeansTwoPlaces(ws, s[i]);
      assert false;
    }
    assert s[i] in multiset(s) && s[j] in multiset(s);
    assert s[i] in ws && s[j] in ws;
    var k :| 0 <= k < |ws| && ws[k] == s[i];
    var l :| 0 <= l < |ws| && ws[l] == s[j];
    if k < l { assert Apart(ws[k].address, ws[l].address); } else { assert Apart(ws[l].address, ws[k].address); }
  }

  lemma TwiceInOne<T>(s: seq<T>, i: nat, j: nat)
    requires i < j < |s| && s[i] == s[j]
    ensures multiset(s)[s[i]] >= 2
  {
    assert s == s[..i] + [s[i]] + s[i + 1..j] + [s[j]] + s[j + 1..];
  }

  lemma {:induction false} TwiceMeansTwoPlaces<T>(s: seq<T>, x: T)
    requires multiset(s)[x] >= 2
    ensures exists i, j :: 0 <= i < j < |s| && s[i] == x && s[j] == x
  {
    var n := |s| - 1;
    Split(s);
    if s[n] == x {
      assert x in multiset(s[..n]);
      var i :| 0 <= i < n && s[..n][i] == x;
      assert s[i] == x && s[n] == x;
    } else {
      TwiceMeansTwoPlaces(s[..n], x);
      var i, j :| 0 <= i < j < n && s[..n][i] == x && s[..n][j] == x;
      assert s[i] == x && s[j] == x;
    }
  }

  /** A write decodes to one command per window that it covers in full with a finite pattern, no
      other, by ascending address. `ms` are those windows. */
  lemma DecodesExactly(c: Config, address: int, values: seq<int>) returns (ms: seq<WritableMapping>)
    requires Disjoint(Addresses(c))
    ensures forall m :: m in ms <==> m in c.writeMap && Decodable(m, address, values)
    ensures forall i, j :: 0 <= i < j < |ms| ==> ms[i].address < ms[j].address
    ensures var ds := DecodeAll(Writable(c.writeMap), address, values);
            |ds| == |ms| && forall i :: 0 <= i < |ms| ==> ds[i] == DecodedFrom(ms[i], address, values)
  {
    var ws := Writable(c.writeMap);
    DisjointWindows(c);
    WritableAscending(c.writeMap);
    ms := DecodableOf(ws, address, values);
    DecodedOneByOne(ws, address, values);
    DecodedAscending(ws, address, values);
  }

  lemma OutOfOrder(ms: seq<WritableMapping>)
    requires |ms| > 1 && ms[0].address == ms[1].address
    ensures !(forall i, j :: 0 <= i < j < |ms| ==> ms[i].address < ms[j].address)
  {
    assert !(ms[0].address < ms[1].address);
  }

  lemma OneWindow(ms: seq<WritableMapping>, m: WritableMapping)
    requires m in ms
    requires forall i, j :: 0 <= i < j < |ms| ==> ms[i].address < ms[j].address
    requires forall i :: 0 <= i < |ms| ==> ms[i].address == m.address
    ensures ms == [m]
  {
    var i :| 0 <= i < |ms| && ms[i] == m;
    if |ms| > 1 {
      OutOfOrder(ms);
    }
  }

  /** Two words at a window's address decode to that window and no other. */
  lemma OneWindowDecodes(c: Config, k: nat, words: seq<nat>)
    requires Disjoint(Addresses(c)) && k < |c.writeMap| && |words| == 2
    requires DecodeFloat32(words[0], words[1]).Some?
    ensures var m := c.writeMap[k];
            DecodeAll(Writable(c.writeMap), m.address, words)
              == [DecodedWrite(m.targetDeviceId, m.commandType, DecodeFloat32(words[0], words[1]).value)]
  {
    var m := c.writeMap[k];
    var ms := DecodesExactly(c, m.address, words);
    FirstTwo(m, words);
    forall i | 0 <= i < |ms| ensures ms[i].address == m.address {
      assert ms[i] in ms;
    }
    OneWindow(ms, m);
    var ds := DecodeAll(Writable(c.writeMap), m.address, words);
    assert |ds| == 1 && ds[0] == DecodedFrom(m, m.address, words);
  }

  lemma FirstTwo(m: WritableMapping, words: seq<nat>)
    requires |words| == 2 && DecodeFloat32(words[0], words[1]).Some?
    ensures Decodable(m, m.address, words)
    ensures DecodedFrom(m, m.address, words)
            == DecodedWrite(m.targetDeviceId, m.commandType, DecodeFloat32(words[0], words[1]).value)
  {
  }

  /** The order in which a profile lists its write windows does not matter. */
  lemma DecodeIgnoresListOrder(c: Config, ws: seq<WritableMapping>, address: int, values: seq<int>)
    requires Disjoint(Addresses(c))
    requires multiset(ws) == multiset(c.writeMap)
    ensures DecodeAll(Writable(ws), address, values) == DecodeAll(Writable(c.writeMap), address, values)
  {
    DisjointWindows(c);
    forall x, y | x in ws && y in ws && x != y ensures LowerAddress(x, y) || LowerAddress(y, x) {
      assert x in multiset(c.writeMap) && y in multiset(c.writeMap);
      var k :| 0 <= k < |c.writeMap| && c.writeMap[k] == x;
      var l :| 0 <= l < |c.writeMap| && c.writeMap[l] == y;
      if k < l { assert Apart(x.address, y.address); } else { assert Apart(y.address, x.address); }
    }
    SortIgnoresOrder(ws, c.writeMap, LowerAddress);
  }

  lemma {:induction false} NothingDecoded(ws: seq<WritableMapping>, address: int, values: seq<int>)
    requires forall m :: m in ws ==> !Decodable(m, address, values)
    ensures DecodeAll(ws, address, values) == []
  {
    if ws != [] {
      NothingDecoded(ws[..|ws| - 1], address, values);
    }
  }

  /** A write of one register never decodes to anything. */
  lemma {:induction false} SingleRegisterDecodesNothing(ws: seq<WritableMapping>, address: int, value: int)
    ensures DecodeAll(ws, address, [value]) == []
  {
    if ws != [] {
      SingleRegisterDecodesNothing(ws[..|ws| - 1], address, value);
    }
  }
}
