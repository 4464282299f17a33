/** The comma-separated form in which a run's adapter names are stored
    (persistence_postgres/run_repository.py, hexagon/core/domain/run.py). */
module AdapterNames {
  import opened Sorting
  import opened Strings

  /** `[a-z0-9_]+` */
  predicate ValidName(name: string) {
    name != "" && forall i :: 0 <= i < |name| ==> ValidChar(name[i])
  }

  predicate ValidChar(c: char) {
    'a' <= c <= 'z' || '0' <= c <= '9' || c == '_'
  }

  predicate AllValid(names: seq<string>) {
    forall i :: 0 <= i < |names| ==> ValidName(names[i])
  }

  const ALPHABET: string := "abcdefgh" + "ijklmnop" + "qrstuvwxyz" + "0123456789" + "_"

  /** A name is valid exactly when it is not empty and made of these 37 characters. */
  lemma ValidExactly(name: string)
    ensures ValidName(name) <==> |name| > 0 && forall i :: 0 <= i < |name| ==> name[i] in ALPHABET
  {
    forall i | 0 <= i < |name| ensures ValidChar(name[i]) <==> name[i] in ALPHABET {
      CharacterListed(name[i]);
    }
  }

  lemma CharacterListed(c: char)
    ensures ValidChar(c) <==> c in ALPHABET
  {
    Listed("abcdefgh", 'a', c);
    Listed("ijklmnop", 'i', c);
    Listed("qrstuvwxyz", 'q', c);
    Listed("0123456789", '0', c);
    Listed("_", '_', c);
  }

  /** A list of consecutive characters. */
  lemma Listed(list: string, first: char, c: char)
    requires forall i :: 0 <= i < |list| ==> list[i] as int == first as int + i
    ensures c in list <==> first as int <= c as int < first as int + |list|
  {
    if first as int <= c as int < first as int + |list| {
      assert list[c as int - first as int] == c;
    }
  }

  function WithoutDuplicates(names: seq<string>): (r: seq<string>)
    ensures NoDuplicates(r)
    ensures forall x :: x in r <==> x in names
  {
    if names == [] then []
    else
      var n := |names| - 1;
      var r := WithoutDuplicates(names[..n]);
      assert forall x :: x in names <==> x in names[..n] || x == names[n];
      if names[n] in r then r else r + [names[n]]
  }

  datatype Canonicalized = Names(names: seq<string>) | InvalidName

  /** `canonical_enabled_adapters`: each name checked, then `sorted(set(names))`. */
  function CanonicalNames(names: seq<string>): Canonicalized {
    if !AllValid(names) then InvalidName else Names(Sort(WithoutDuplicates(names), Less))
  }

  function Join(names: seq<string>): string {
    if names == [] then ""
    else if |names| == 1 then names[0]
    else names[0] + "," + Join(names[1..])
  }

  /** Where the first comma is, or the length if there is none. */
  function FirstComma(s: string): (i: nat)
    ensures i <= |s|
    ensures i < |s| ==> s[i] == ','
    ensures ',' !in s[..i]
  {
    if s == "" || s[0] == ',' then 0
    else
      var i := FirstComma(s[1..]);
      assert s[..1 + i] == [s[0]] + s[1..][..i];
      1 + i
  }

  /** Python's `split(",")`. */
  function SplitCommas(s: string): seq<string>
    decreases |s|
  {
    var i := FirstComma(s);
    if i == |s| then [s] else [s[..i]] + SplitCommas(s[i + 1..])
  }

  datatype Encoded = Text(s: string) | EncodeInvalidName | EncodeNonCanonical

  datatype Decoded = Tuple(names: seq<string>) | DecodeInvalidName | DecodeNonCanonical

  /** `_encode_enabled_adapters`. */
  function Encode(names: seq<string>): Encoded {
    match CanonicalNames(names)
    case InvalidName => EncodeInvalidName
    case Names(canonical) => if canonical != names then EncodeNonCanonical else Text(Join(names))
  }

  /** `_decode_enabled_adapters`. */
  function Decode(raw: string): Decoded {
    if raw == "" then Tuple([])
    else
      var names := SplitCommas(raw);
      match CanonicalNames(names)
      case InvalidName => DecodeInvalidName
      case Names(canonical) => if canonical != names then DecodeNonCanonical else Tuple(names)
  }

  /** Valid names in strictly ascending order. */
  ghost predicate Canonical(names: seq<string>) {
    AllValid(names) && Ascending(names)
  }

  lemma AscendingHasNoDuplicates(names: seq<string>)
    requires Ascending(names)
    ensures NoDuplicates(names)
  {
    forall i, j | 0 <= i < j < |names| ensures names[i] != names[j] {
      LessOrEqualOrGreater(names[i], names[j]);
    }
  }

  lemma {:induction false} NoDuplicatesStays(names: seq<string>)
    requires NoDuplicates(names)
    ensures WithoutDuplicates(names) == names
  {
    if names != [] {
      var n := |names| - 1;
      NoDuplicatesStays(names[..n]);
      assert names[n] !in names[..n];
      Split(names);
    }
  }

  /** A tuple is its own canonical form exactly when it is canonical. */
  lemma CanonicalExactly(names: seq<string>)
    ensures CanonicalNames(names) == Names(names) <==> Canonical(names)
  {
    if AllValid(names) {
      SortAscends(WithoutDuplicates(names));
      if Ascending(names) {
        AscendingHasNoDuplicates(names);
        NoDuplicatesStays(names);
        forall i, j | 0 <= i < j < |names| ensures !Less(names[j], names[i]) {
          LessOrEqualOrGreater(names[i], names[j]);
        }
        SortKeeps(names, Less);
      }
    }
  }

  /** Encoding accepts exactly the canonical tuples. */
  lemma EncodesExactly(names: seq<string>)
    ensures Encode(names).Text? <==> Canonical(names)
    ensures Encode(names).EncodeInvalidName? <==> !AllValid(names)
  {
    CanonicalExactly(names);
  }

  lemma {:induction false} CommaSplits(a: string, b: string)
    requires ',' !in a
    ensures FirstComma(a + "," + b) == |a|
    ensures FirstComma(a) == |a|
  {
    if a != "" {
      assert ',' !in a[1..];
      CommaSplits(a[1..], b);
      assert (a + "," + b)[1..] == a[1..] + "," + b;
    } else {
      assert a + "," + b == "," + b;
    }
  }

  lemma {:induction false} SplitOfJoin(names: seq<string>)
    requires names != [] && AllValid(names)
    ensures SplitCommas(Join(names)) == names
  {
    assert ',' !in names[0];
    if |names| == 1 {
      CommaSplits(names[0], "");
    } else {
      CommaSplits(names[0], Join(names[1..]));
      var s := names[0] + "," + Join(names[1..]);
      assert s[..|names[0]|] == names[0];
      assert s[|names[0]| + 1..] == Join(names[1..]);
      SplitOfJoin(names[1..]);
    }
  }

  lemma {:induction false} JoinOfSplit(s: string)
    ensures SplitCommas(s) != [] && Join(SplitCommas(s)) == s
    decreases |s|
  {
    var i := FirstComma(s);
    if i < |s| {
      JoinOfSplit(s[i + 1..]);
      assert s == s[..i] + "," + s[i + 1..];
      JoinOneMore(s[..i], SplitCommas(s[i + 1..]));
      assert SplitCommas(s) == [s[..i]] + SplitCommas(s[i + 1..]);
    } else {
      assert SplitCommas(s) == [s];
    }
  }

  lemma JoinOneMore(name: string, names: seq<string>)
    requires names != []
    ensures Join([name] + names) == name + "," + Join(names)
  {
    assert ([name] + names)[1..] == names;
  }

  /** A canonical tuple survives being stored, the empty one included. */
  lemma EncodeThenDecode(names: seq<string>)
    requires Canonical(names)
    ensures Encode(names).Text? && Decode(Encode(names).s) == Tuple(names)
  {
    CanonicalExactly(names);
    if names != [] {
      SplitOfJoin(names);
      assert Join(names) != "" by {
        assert names[0] != "";
      }
    }
  }

  /** A stored string that is accepted stands for a canonical tuple and is what that tuple is
      stored as. */
  lemma DecodeThenEncode(raw: string)
    requires Decode(raw).Tuple?
    ensures Canonical(Decode(raw).names) && Encode(Decode(raw).names) == Text(raw)
  {
    CanonicalExactly(Decode(raw).names);
    JoinOfSplit(raw);
  }

  /** Decoding accepts exactly the strings that canonical tuples are stored as. */
  lemma DecodesExactly(raw: string)
    ensures Decode(raw).Tuple? <==> exists names :: Canonical(names) && raw == Join(names)
    ensures Decode(raw).DecodeInvalidName? <==>
            raw != "" && exists i :: 0 <= i < |SplitCommas(raw)| && !ValidName(SplitCommas(raw)[i])
  {
    if Decode(raw).Tuple? {
      DecodeThenEncode(raw);
      EncodesExactly(Decode(raw).names);
    }
    if exists names :: Canonical(names) && raw == Join(names) {
      var names :| Canonical(names) && raw == Join(names);
      EncodeThenDecode(names);
    }
  }
}
