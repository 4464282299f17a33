/** Detection of import cycles (tools/arch_check.py, AC-NO-CYCLES). */
module ImportCycles {
  import opened Options
  import opened Strings

  /** Each module of the package with the modules it imports directly. */
  type Graph = map<string, set<string>>

  type Oracle = (string, string) -> Option<seq<string>>

  /** Imports stay within the package and no module imports itself. */
  ghost predicate WellFormed(g: Graph) {
    forall a, b :: a in g && b in g[a] ==> b in g && a != b
  }

  predicate Edge(g: Graph, a: string, b: string) {
    a in g && b in g[a]
  }

  ghost predicate IsWalk(g: Graph, w: seq<string>) {
    forall i :: 0 <= i < |w| - 1 ==> Edge(g, w[i], w[i + 1])
  }

  ghost predicate WalkFromTo(g: Graph, w: seq<string>, a: string, b: string) {
    w != [] && w[0] == a && w[|w| - 1] == b && IsWalk(g, w)
  }

  ghost predicate ClosedWalk(g: Graph, w: seq<string>) {
    |w| >= 2 && w[0] == w[|w| - 1] && IsWalk(g, w)
  }

  ghost predicate Acyclic(g: Graph) {
    forall w :: !ClosedWalk(g, w)
  }

  /** `find_shortest_chain` finds a shortest chain of imports wherever there is a chain. */
  ghost predicate FindsShortest(g: Graph, chain: Oracle) {
    forall a, b :: a in g && b in g && a != b ==>
      match chain(a, b)
      case Some(w) => WalkFromTo(g, w, a, b) && forall v :: WalkFromTo(g, v, a, b) ==> |w| <= |v|
      case None => forall v :: !WalkFromTo(g, v, a, b)
  }

  // ---- canonical rotation ----

  function Rotated(c: seq<string>, k: nat): seq<string>
    requires k <= |c|
  {
    c[k..] + c[..k]
  }

  /** The index of the least name, the first of several. */
  function MinIndex(c: seq<string>): nat
    requires c != []
    ensures MinIndex(c) < |c|
  {
    if |c| == 1 then 0
    else
      var i := MinIndex(c[..|c| - 1]);
      if Less(c[|c| - 1], c[i]) then |c| - 1 else i
  }

  /** A closed cycle without the repetition of its start at its end. */
  function Opened(c: seq<string>): seq<string> {
    if |c| > 1 && c[0] == c[|c| - 1] then c[..|c| - 1] else c
  }

  /** `_canonical_cycle`. */
  function Canonical(c: seq<string>): seq<string> {
    var o := Opened(c);
    if o == [] then o else Rotated(o, MinIndex(o))
  }

  ghost predicate IsRotation(c: seq<string>, d: seq<string>) {
    exists k :: 0 <= k <= |c| && d == Rotated(c, k)
  }

  /** A closed cycle that meets no module twice but its start. */
  predicate SimpleCycle(c: seq<string>) {
    |c| > 1 && c[0] == c[|c| - 1] && NoDuplicates(c[..|c| - 1])
  }

  lemma {:induction false} MinIndexIsLeast(c: seq<string>, j: nat)
    requires j < |c|
    ensures c[j] == c[MinIndex(c)] || Less(c[MinIndex(c)], c[j])
  {
    if |c| > 1 {
      var n := |c| - 1;
      var i := MinIndex(c[..n]);
      LessOrEqualOrGreater(c[n], c[i]);
      if j < n {
        MinIndexIsLeast(c[..n], j);
        if Less(c[n], c[i]) && Less(c[i], c[j]) {
          LessTransitive(c[n], c[i], c[j]);
        }
      }
    }
  }

  lemma RotatedTwice(c: seq<string>, i: nat, j: nat)
    requires i <= |c| && j <= |c|
    ensures Rotated(Rotated(c, i), j) == Rotated(c, if i + j <= |c| then i + j else i + j - |c|)
  {
    if i + j <= |c| {
      assert Rotated(c, i)[j..] == c[i + j..] + c[..i];
      assert Rotated(c, i)[..j] == c[i..i + j];
      assert c[..i] + c[i..i + j] == c[..i + j];
    } else {
      var k := i + j - |c|;
      assert Rotated(c, i)[j..] == c[k..i];
      assert Rotated(c, i)[..j] == c[i..] + c[..k];
      assert c[k..i] + c[i..] == c[k..];
    }
  }

  lemma RotationBack(c: seq<string>, d: seq<string>)
    requires IsRotation(c, d)
    ensures IsRotation(d, c)
  {
    var k :| 0 <= k <= |c| && d == Rotated(c, k);
    RotatedTwice(c, k, |c| - k);
    assert Rotated(c, |c|) == c;
    assert c == Rotated(d, |c| - k);
  }

  lemma RotationTwice(c: seq<string>, d: seq<string>, e: seq<string>)
    requires IsRotation(c, d) && IsRotation(d, e)
    ensures IsRotation(c, e)
  {
    var i :| 0 <= i <= |c| && d == Rotated(c, i);
    var j :| 0 <= j <= |d| && e == Rotated(d, j);
    RotatedTwice(c, i, j);
  }

  lemma RotationSameModules(c: seq<string>, d: seq<string>)
    requires IsRotation(c, d)
    ensures |c| == |d| && forall x :: x in c <==> x in d
  {
    var k :| 0 <= k <= |c| && d == Rotated(c, k);
    assert c == c[..k] + c[k..];
  }

  /** A rotation of a simple cycle is settled by what it starts with. */
  lemma SameStartSameRotation(c: seq<string>, i: nat, j: nat)
    requires c != [] && NoDuplicates(c) && i < |c| && j < |c|
    requires Rotated(c, i)[0] == Rotated(c, j)[0]
    ensures i == j
  {
    assert c[i] == c[j];
  }

  /** Only a repeated start at the end is dropped from a cycle. What is left is not empty; the canonical
      form is a rotation of it, and no module comes before its first. */
  lemma CanonicalIsRotation(c: seq<string>)
    requires c != []
    ensures Opened(c) != [] && (c == Opened(c) || c == Opened(c) + [c[0]])
    ensures IsRotation(Opened(c), Canonical(c))
    ensures forall x :: x in Opened(c) ==> Canonical(c)[0] == x || Less(Canonical(c)[0], x)
  {
    var o := Opened(c);
    assert Canonical(c) == Rotated(o, MinIndex(o));
    forall x | x in o ensures o[MinIndex(o)] == x || Less(o[MinIndex(o)], x) {
      var j :| 0 <= j < |o| && o[j] == x;
      MinIndexIsLeast(o, j);
    }
  }

  lemma LeastStart(c: seq<string>, d: seq<string>)
    requires c != [] && d != []
    requires forall x :: x in c <==> x in d
    ensures c[MinIndex(c)] == d[MinIndex(d)]
  {
    var x, y := c[MinIndex(c)], d[MinIndex(d)];
    assert x in d && y in c;
    var j :| 0 <= j < |d| && d[j] == x;
    var k :| 0 <= k < |c| && c[k] == y;
    MinIndexIsLeast(d, j);
    MinIndexIsLeast(c, k);
    LessOrEqualOrGreater(x, y);
  }

  /** Two simple closed cycles have the same canonical form exactly when one is a rotation of the
      other. */
  lemma CanonicalAgreesExactly(c: seq<string>, d: seq<string>)
    requires SimpleCycle(c) && SimpleCycle(d)
    ensures Canonical(c) == Canonical(d) <==> IsRotation(Opened(c), Opened(d))
  {
    var o, p := Opened(c), Opened(d);
    CanonicalIsRotation(c);
    CanonicalIsRotation(d);
    if Canonical(c) == Canonical(d) {
      RotationBack(p, Canonical(d));
      RotationTwice(o, Canonical(c), p);
    }
    if IsRotation(o, p) {
      RotationSameModules(o, p);
      LeastStart(o, p);
      RotationTwice(o, p, Canonical(d));
      CanonicalFromStart(o, Canonical(d));
    }
  }

  lemma CanonicalFromStart(o: seq<string>, r: seq<string>)
    requires o != [] && NoDuplicates(o)
    requires IsRotation(o, r) && r[0] == o[MinIndex(o)]
    ensures r == Rotated(o, MinIndex(o))
  {
    var k :| 0 <= k <= |o| && r == Rotated(o, k);
    if k == |o| {
      assert r == Rotated(o, 0);
      SameStartSameRotation(o, 0, MinIndex(o));
    } else {
      SameStartSameRotation(o, k, MinIndex(o));
    }
  }

  // ---- chains ----

  /** A shortest chain meets no module twice. */
  lemma ShortestIsSimple(g: Graph, w: seq<string>, a: string, b: string)
    requires WalkFromTo(g, w, a, b)
    requires forall v :: WalkFromTo(g, v, a, b) ==> |w| <= |v|
    ensures NoDuplicates(w)
  {
    forall i, j | 0 <= i < j < |w| ensures w[i] != w[j] {
      if w[i] == w[j] {
        var v := w[..i] + w[j..];
        forall k | 0 <= k < |v| - 1 ensures Edge(g, v[k], v[k + 1]) {
          if k < i {
            assert v[k] == w[k] && v[k + 1] == w[k + 1];
          } else {
            assert v[k] == w[k - i + j] && v[k + 1] == w[k - i + j + 1];
          }
        }
        assert WalkFromTo(g, v, a, b);
      }
    }
  }

  /** An import and a shortest chain back make a simple cycle of imports. */
  lemma ImportAndChain(g: Graph, a: string, b: string, w: seq<string>)
    requires WellFormed(g) && Edge(g, a, b)
    requires WalkFromTo(g, w, b, a)
    requires forall v :: WalkFromTo(g, v, b, a) ==> |w| <= |v|
    ensures ClosedWalk(g, [a] + w) && SimpleCycle([a] + w)
  {
    var c := [a] + w;
    ShortestIsSimple(g, w, b, a);
    forall i | 0 <= i < |c| - 1 ensures Edge(g, c[i], c[i + 1]) {
      if i > 0 {
        assert Edge(g, w[i - 1], w[i]);
      }
    }
    var o := c[..|c| - 1];
    forall i, j | 0 <= i < j < |o| ensures o[i] != o[j] {
      assert o[j] == w[j - 1];
      if i == 0 {
        assert w[j - 1] != w[|w| - 1];
      } else {
        assert o[i] == w[i - 1];
      }
    }
  }

  // ---- the check ----

  datatype Violation = Violation(importer: string, imported: string, cycle: seq<string>)

  ghost predicate RealCycle(g: Graph, v: Violation) {
    && ClosedWalk(g, v.cycle) && SimpleCycle(v.cycle)
    && v.cycle[0] == v.importer && v.cycle[1] == v.imported
  }

  /** The canonical forms of the cycles reported. */
  function Keys(violations: seq<Violation>): (keys: seq<seq<string>>)
    ensures |keys| == |violations|
  {
    seq(|violations|, i requires 0 <= i < |violations| => Canonical(violations[i].cycle))
  }

  predicate Reported(violations: seq<Violation>, cycle: seq<string>) {
    Canonical(cycle) in Keys(violations)
  }

  /** An import that lies on a cycle has its shortest cycle reported. */
  ghost predicate ImportChecked(g: Graph, chain: Oracle, violations: seq<Violation>, a: string, b: string) {
    Edge(g, a, b) && chain(b, a).Some? ==> Reported(violations, [a] + chain(b, a).value)
  }

  /** The first `n` of some importers, and the first `n` imports of one, have been checked. */
  ghost predicate ImportersChecked(g: Graph, chain: Oracle, vs: seq<Violation>, importers: seq<string>, n: nat) {
    forall k, b :: 0 <= k < n && k < |importers| ==> ImportChecked(g, chain, vs, importers[k], b)
  }

  ghost predicate ImportsChecked(g: Graph, chain: Oracle, vs: seq<Violation>, a: string, imports: seq<string>, n: nat) {
    forall k :: 0 <= k < n && k < |imports| ==> ImportChecked(g, chain, vs, a, imports[k])
  }

  ghost predicate AllReal(g: Graph, vs: seq<Violation>) {
    forall k :: 0 <= k < |vs| ==> RealCycle(g, vs[k])
  }

  lemma ImportersCheckedGrows(g: Graph, chain: Oracle, vs: seq<Violation>, v: Violation, importers: seq<string>, i: nat)
    requires ImportersChecked(g, chain, vs, importers, i)
    ensures ImportersChecked(g, chain, vs + [v], importers, i)
  {
    forall k, b | 0 <= k < i && k < |importers| ensures ImportChecked(g, chain, vs + [v], importers[k], b) {
      assert ImportChecked(g, chain, vs, importers[k], b);
      KeysGrow(vs, v);
    }
  }

  lemma ImportsCheckedGrows(g: Graph, chain: Oracle, vs: seq<Violation>, v: Violation,
                            a: string, imports: seq<string>, j: nat)
    requires ImportsChecked(g, chain, vs, a, imports, j) && j < |imports|
    requires ImportChecked(g, chain, vs + [v], a, imports[j])
    ensures ImportsChecked(g, chain, vs + [v], a, imports, j + 1)
  {
    forall k | 0 <= k < j ensures ImportChecked(g, chain, vs + [v], a, imports[k]) {
      assert ImportChecked(g, chain, vs, a, imports[k]);
      KeysGrow(vs, v);
    }
  }

  lemma ImporterChecked(g: Graph, chain: Oracle, vs: seq<Violation>, importers: seq<string>, i: nat,
                        imports: seq<string>)
    requires i < |importers| && importers[i] in g
    requires forall b :: b in imports <==> b in g[importers[i]]
    requires ImportersChecked(g, chain, vs, importers, i)
    requires ImportsChecked(g, chain, vs, importers[i], imports, |imports|)
    ensures ImportersChecked(g, chain, vs, importers, i + 1)
  {
    forall b ensures ImportChecked(g, chain, vs, importers[i], b) {
      if b in g[importers[i]] {
        assert b in imports;
      }
    }
  }

  ghost predicate SeenAre(seen: set<seq<string>>, keys: seq<seq<string>>) {
    (forall c :: c in seen <==> c in keys) && NoDuplicates(keys)
  }

  lemma SeenGrows(seen: set<seq<string>>, keys: seq<seq<string>>, key: seq<string>)
    requires SeenAre(seen, keys) && key !in seen
    ensures SeenAre(seen + {key}, keys + [key])
  {
    var ks := keys + [key];
    forall i, j | 0 <= i < j < |ks| ensures ks[i] != ks[j] {
      assert ks[i] in keys;
    }
  }

  lemma KeysGrow(violations: seq<Violation>, v: Violation)
    ensures Keys(violations + [v]) == Keys(violations) + [Canonical(v.cycle)]
    ensures forall c :: Reported(violations, c) ==> Reported(violations + [v], c)
    ensures Reported(violations + [v], v.cycle)
  {
    assert Keys(violations + [v]) == Keys(violations) + [Canonical(v.cycle)];
  }

  /** How far the check has come: `i` importers done, and `j` imports of the next one, `a`. */
  ghost predicate Progress(g: Graph, chain: Oracle, seen: set<seq<string>>, vs: seq<Violation>,
                           importers: seq<string>, i: nat, a: string, imports: seq<string>, j: nat) {
    && SeenAre(seen, Keys(vs)) && AllReal(g, vs)
    && ImportersChecked(g, chain, vs, importers, i)
    && ImportsChecked(g, chain, vs, a, imports, j)
  }

  lemma NothingNew(g: Graph, chain: Oracle, seen: set<seq<string>>, vs: seq<Violation>,
                   importers: seq<string>, i: nat, a: string, imports: seq<string>, j: nat)
    requires Progress(g, chain, seen, vs, importers, i, a, imports, j) && j < |imports|
    requires var found := chain(imports[j], a); found.Some? ==> Canonical([a] + found.value) in seen
    ensures Progress(g, chain, seen, vs, importers, i, a, imports, j + 1)
  {
  }

  lemma NewCycle(g: Graph, chain: Oracle, seen: set<seq<string>>, vs: seq<Violation>,
                 importers: seq<string>, i: nat, a: string, imports: seq<string>, j: nat, v: Violation)
    requires Progress(g, chain, seen, vs, importers, i, a, imports, j) && j < |imports|
    requires RealCycle(g, v) && Canonical(v.cycle) !in seen
    requires chain(imports[j], a).Some? && v.cycle == [a] + chain(imports[j], a).value
    ensures Progress(g, chain, seen + {Canonical(v.cycle)}, vs + [v], importers, i, a, imports, j + 1)
  {
    SeenGrows(seen, Keys(vs), Canonical(v.cycle));
    KeysGrow(vs, v);
    ImportersCheckedGrows(g, chain, vs, v, importers, i);
    ImportsCheckedGrows(g, chain, vs, v, a, imports, j);
  }

  lemma ChainIsReal(g: Graph, chain: Oracle, a: string, b: string)
    requires WellFormed(g) && FindsShortest(g, chain)
    requires Edge(g, a, b) && chain(b, a).Some?
    ensures RealCycle(g, Violation(a, b, [a] + chain(b, a).value))
  {
    ImportAndChain(g, a, b, chain(b, a).value);
  }

  /** By importer, then by imported module. */
  predicate Before(x: Violation, y: Violation) {
    Less(x.importer, y.importer) || (x.importer == y.importer && Less(x.imported, y.imported))
  }

  ghost predicate InOrder(vs: seq<Violation>) {
    forall i, j :: 0 <= i < j < |vs| ==> Before(vs[i], vs[j])
  }

  /** Reports so far are for importers that are done, or for imports of `a` that are. */
  ghost predicate SoFar(vs: seq<Violation>, done: seq<string>, a: string, imports: seq<string>) {
    forall k :: 0 <= k < |vs| ==> vs[k].importer in done || (vs[k].importer == a && vs[k].imported in imports)
  }

  lemma OrderGrows(vs: seq<Violation>, v: Violation, importers: seq<string>, i: nat, imports: seq<string>, j: nat)
    requires Ascending(importers) && Ascending(imports) && i < |importers| && j < |imports|
    requires InOrder(vs) && SoFar(vs, importers[..i], importers[i], imports[..j])
    requires v.importer == importers[i] && v.imported == imports[j]
    ensures InOrder(vs + [v]) && SoFar(vs + [v], importers[..i], importers[i], imports[..j + 1])
  {
    SoFarGrows(vs, importers[..i], importers[i], imports, j);
    forall k | 0 <= k < |vs| ensures Before(vs[k], v) {
      if vs[k].importer in importers[..i] {
        var m :| 0 <= m < i && importers[m] == vs[k].importer;
        assert Less(importers[m], importers[i]);
      } else {
        var m :| 0 <= m < j && imports[m] == vs[k].imported;
        assert Less(imports[m], imports[j]);
      }
    }
    assert imports[..j + 1][j] == imports[j];
  }

  lemma SoFarGrows(vs: seq<Violation>, done: seq<string>, a: string, imports: seq<string>, j: nat)
    requires j < |imports| && SoFar(vs, done, a, imports[..j])
    ensures SoFar(vs, done, a, imports[..j + 1])
  {
    assert imports[..j + 1] == imports[..j] + [imports[j]];
  }

  lemma ImporterDone(vs: seq<Violation>, importers: seq<string>, i: nat, imports: seq<string>)
    requires i < |importers| && SoFar(vs, importers[..i], importers[i], imports)
    ensures SoFar(vs, importers[..i + 1], "", [])
  {
    assert importers[..i + 1] == importers[..i] + [importers[i]];
  }

  /** `_check_no_cycles`, with the cycles found in the order they are yielded: nothing is reported
      exactly when the imports are acyclic, every report is a simple cycle of real imports, no two
      reports are rotations of each other, reports are in ascending order, and every import on a
      cycle is accounted for. */
  method CheckNoCycles(g: Graph, chain: Oracle) returns (violations: seq<Violation>)
    requires WellFormed(g) && FindsShortest(g, chain)
    ensures violations == [] <==> Acyclic(g)
    ensures forall i :: 0 <= i < |violations| ==> RealCycle(g, violations[i])
    ensures forall i, j :: 0 <= i < j < |violations| ==>
              !IsRotation(Opened(violations[i].cycle), Opened(violations[j].cycle))
    ensures InOrder(violations)
    ensures forall a, b :: Edge(g, a, b) && chain(b, a).Some? ==>
              exists i :: 0 <= i < |violations|
                          && IsRotation(Opened(violations[i].cycle), Opened([a] + chain(b, a).value))
  {
    var seen: set<seq<string>> := {};
    violations := [];
    var importers := SortedElements(g.Keys);
    for i := 0 to |importers|
      invariant SeenAre(seen, Keys(violations)) && AllReal(g, violations)
      invariant ImportersChecked(g, chain, violations, importers, i)
      invariant InOrder(violations) && SoFar(violations, importers[..i], "", [])
    {
      var importer := importers[i];
      assert importer in importers;
      var imports := SortedElements(g[importer]);
      for j := 0 to |imports|
        invariant Progress(g, chain, seen, violations, importers, i, importer, imports, j)
        invariant InOrder(violations) && SoFar(violations, importers[..i], importer, imports[..j])
      {
        var imported := imports[j];
        assert imported in imports;
        var found := chain(imported, importer);
        SoFarGrows(violations, importers[..i], importer, imports, j);
        if found.None? {
          NothingNew(g, chain, seen, violations, importers, i, importer, imports, j);
          continue;
        }
        var cycle := [importer] + found.value;
        if Canonical(cycle) in seen {
          NothingNew(g, chain, seen, violations, importers, i, importer, imports, j);
          continue;
        }
        var violation := Violation(importer, imported, cycle);
        ChainIsReal(g, chain, importer, imported);
        NewCycle(g, chain, seen, violations, importers, i, importer, imports, j, violation);
        OrderGrows(violations, violation, importers, i, imports, j);
        seen := seen + {Canonical(cycle)};
        violations := violations + [violation];
      }
      ImporterChecked(g, chain, violations, importers, i, imports);
      assert imports[..|imports|] == imports;
      ImporterDone(violations, importers, i, imports);
    }
    ReportsAreDistinct(g, violations);
    ReportsAreComplete(g, chain, importers, violations);
  }

  lemma ReportsAreDistinct(g: Graph, violations: seq<Violation>)
    requires forall k :: 0 <= k < |violations| ==> RealCycle(g, violations[k])
    requires NoDuplicates(Keys(violations))
    ensures forall i, j :: 0 <= i < j < |violations| ==>
              !IsRotation(Opened(violations[i].cycle), Opened(violations[j].cycle))
  {
    forall i, j | 0 <= i < j < |violations|
      ensures !IsRotation(Opened(violations[i].cycle), Opened(violations[j].cycle))
    {
      assert Keys(violations)[i] != Keys(violations)[j];
      CanonicalAgreesExactly(violations[i].cycle, violations[j].cycle);
    }
  }

  lemma ReportsAreComplete(g: Graph, chain: Oracle, importers: seq<string>, violations: seq<Violation>)
    requires WellFormed(g) && FindsShortest(g, chain)
    requires forall a :: a in g ==> a in importers
    requires AllReal(g, violations)
    requires ImportersChecked(g, chain, violations, importers, |importers|)
    ensures violations == [] <==> Acyclic(g)
    ensures forall a, b :: Edge(g, a, b) && chain(b, a).Some? ==>
              exists i :: 0 <= i < |violations|
                          && IsRotation(Opened(violations[i].cycle), Opened([a] + chain(b, a).value))
  {
    forall a, b | Edge(g, a, b) && chain(b, a).Some?
      ensures exists i :: 0 <= i < |violations|
                          && IsRotation(Opened(violations[i].cycle), Opened([a] + chain(b, a).value))
    {
      assert a in importers;
      var k :| 0 <= k < |importers| && importers[k] == a;
      assert ImportChecked(g, chain, violations, importers[k], b);
      var i :| 0 <= i < |violations| && Keys(violations)[i] == Canonical([a] + chain(b, a).value);
      ImportAndChain(g, a, b, chain(b, a).value);
      CanonicalAgreesExactly(violations[i].cycle, [a] + chain(b, a).value);
    }
    if violations != [] {
      assert ClosedWalk(g, violations[0].cycle);
    } else {
      forall w ensures !ClosedWalk(g, w) {
        if ClosedWalk(g, w) {
          ClosedWalkHasChain(g, chain, w);
        }
      }
    }
  }

  lemma ClosedWalkHasChain(g: Graph, chain: Oracle, w: seq<string>)
    requires WellFormed(g) && FindsShortest(g, chain)
    requires ClosedWalk(g, w)
    ensures Edge(g, w[0], w[1]) && chain(w[1], w[0]).Some?
  {
    var back := w[1..];
    forall k | 0 <= k < |back| - 1 ensures Edge(g, back[k], back[k + 1]) {
      assert back[k] == w[k + 1] && back[k + 1] == w[k + 2];
    }
    assert Edge(g, w[0], w[1]);
    assert WalkFromTo(g, back, w[1], w[0]);
  }
}
