/** Cyclomatic complexity with an explicit worklist (tools/arch_check.py, AC-ADAPTER-LIGHTWEIGHT). */
module Complexity {

  /** A syntax tree, by what the count looks at. `Branch` stands for if, for, while, except and the
      conditional expression; `Scope` for nested functions and classes; `Plain` for the rest. A node
      with several fields keeps them apart, since only some of them count. */
  datatype Ast =
    | Branch(children: seq<Ast>)
    | BoolOp(op: Ast, values: seq<Ast>)
    | Match(subject: Ast, cases: seq<Ast>)
    | Comprehension(target: Ast, iter: Ast, ifs: seq<Ast>)
    | Scope(children: seq<Ast>)
    | Plain(children: seq<Ast>)

  /** `ast.iter_child_nodes`: the nodes of all fields, in order. */
  function Children(n: Ast): (cs: seq<Ast>)
    ensures forall c :: c in cs ==> c < n
  {
    match n
    case Branch(cs) => cs
    case BoolOp(op, values) => [op] + values
    case Match(subject, cases) => [subject] + cases
    case Comprehension(target, iter, ifs) => [target, iter] + ifs
    case Scope(cs) => cs
    case Plain(cs) => cs
  }

  /** What a visited node adds. A chain of boolean operators adds one per operator; Python builds
      it from two values at least. */
  function Weight(n: Ast): int {
    match n
    case Branch(_) => 1
    case BoolOp(_, values) => |values| - 1
    case Match(_, cases) => |cases|
    case Comprehension(_, _, ifs) => |ifs|
    case _ => 0
  }

  /** What the worklist descends into: not into nested scopes, which have a count of their own. */
  function Below(n: Ast): (cs: seq<Ast>)
    ensures forall c :: c in cs ==> c < n
  {
    if n.Scope? then [] else Children(n)
  }

  // ---- the structural definition ----

  /** The count of a tree: its own weight and the counts of what is below it. */
  function Count(n: Ast): int
    decreases n, 0
  {
    Weight(n) + CountBelow(n, |Below(n)|)
  }

  /** The counts of the first `k` nodes below. */
  function CountBelow(n: Ast, k: nat): int
    requires k <= |Below(n)|
    decreases n, 0, k
  {
    if k == 0 then 0
    else
      assert Below(n)[k - 1] in Below(n);
      CountBelow(n, k - 1) + Count(Below(n)[k - 1])
  }

  function CountAll(ns: seq<Ast>): int {
    if ns == [] then 0 else CountAll(ns[..|ns| - 1]) + Count(ns[|ns| - 1])
  }

  /** The number of nodes the worklist can meet in a tree. */
  function Size(n: Ast): nat
    ensures Size(n) >= 1
    decreases n, 0
  {
    1 + SizeBelow(n, |Below(n)|)
  }

  function SizeBelow(n: Ast, k: nat): nat
    requires k <= |Below(n)|
    decreases n, 0, k
  {
    if k == 0 then 0
    else
      assert Below(n)[k - 1] in Below(n);
      SizeBelow(n, k - 1) + Size(Below(n)[k - 1])
  }

  function SizeAll(ns: seq<Ast>): nat {
    if ns == [] then 0 else SizeAll(ns[..|ns| - 1]) + Size(ns[|ns| - 1])
  }

  lemma {:induction false} BelowIsAll(n: Ast, k: nat)
    requires k <= |Below(n)|
    ensures CountBelow(n, k) == CountAll(Below(n)[..k])
    ensures SizeBelow(n, k) == SizeAll(Below(n)[..k])
  {
    if k > 0 {
      BelowIsAll(n, k - 1);
      assert Below(n)[..k][..k - 1] == Below(n)[..k - 1];
    }
  }

  lemma CountUnfolds(n: Ast)
    ensures Count(n) == Weight(n) + CountAll(Below(n))
    ensures Size(n) == 1 + SizeAll(Below(n))
  {
    BelowIsAll(n, |Below(n)|);
    assert Below(n)[..|Below(n)|] == Below(n);
  }

  lemma {:induction false} AllConcat(a: seq<Ast>, b: seq<Ast>)
    ensures CountAll(a + b) == CountAll(a) + CountAll(b)
    ensures SizeAll(a + b) == SizeAll(a) + SizeAll(b)
    decreases |b|
  {
    if b == [] {
      assert a + b == a;
    } else {
      var n := |b| - 1;
      AllConcat(a, b[..n]);
      assert (a + b)[..|a + b| - 1] == a + b[..n];
    }
  }

  /** What each kind of node adds to what its parts count: one for a branch, one per operand after
      the first, one per case, one per condition of a comprehension, nothing for the rest, and nothing
      at all, its inside included, for a nested scope. */
  lemma CountsByKind(n: Ast)
    ensures match n
            case Branch(cs) => Count(n) == 1 + CountAll(cs)
            case BoolOp(op, values) => Count(n) == |values| - 1 + Count(op) + CountAll(values)
            case Match(subject, cases) => Count(n) == |cases| + Count(subject) + CountAll(cases)
            case Comprehension(target, iter, ifs) =>
              Count(n) == |ifs| + Count(target) + Count(iter) + CountAll(ifs)
            case Scope(_) => Count(n) == 0
            case Plain(cs) => Count(n) == CountAll(cs)
  {
    CountUnfolds(n);
    match n
    case BoolOp(op, values) => CountFirst(op, values);
    case Match(subject, cases) => CountFirst(subject, cases);
    case Comprehension(target, iter, ifs) => CountFirstTwo(target, iter, ifs);
    case _ => NoneCount();
  }

  lemma NoneCount()
    ensures CountAll([]) == 0
  {
  }

  lemma CountFirst(x: Ast, rest: seq<Ast>)
    ensures CountAll([x] + rest) == Count(x) + CountAll(rest)
  {
    AllConcat([x], rest);
    assert [x][..0] == [];
  }

  lemma CountFirstTwo(x: Ast, y: Ast, rest: seq<Ast>)
    ensures CountAll([x, y] + rest) == Count(x) + Count(y) + CountAll(rest)
  {
    var others := [y] + rest;
    Regrouped(x, y, rest, others);
    CountFirst(x, others);
    CountFirst(y, rest);
  }

  lemma Regrouped<T>(x: T, y: T, rest: seq<T>, others: seq<T>)
    requires others == [y] + rest
    ensures [x, y] + rest == [x] + others
  {
  }

  // ---- the worklist ----

  /** `_cyclomatic_complexity` over `_iter_function_body_skip_nested`: a stack of nodes, the last
      one popped first. It ends, and the count is one more than the structural count of the body. */
  method CyclomaticComplexity(body: seq<Ast>) returns (complexity: int)
    ensures complexity == 1 + CountAll(body)
  {
    complexity := 1;
    var stack := body;
    while stack != []
      invariant complexity + CountAll(stack) == 1 + CountAll(body)
      decreases SizeAll(stack)
    {
      var node := stack[|stack| - 1];
      ghost var rest := stack[..|stack| - 1];
      stack := stack[..|stack| - 1];
      CountUnfolds(node);
      match node {
        case Branch(_) => complexity := complexity + 1;
        case BoolOp(_, values) => complexity := complexity + (|values| - 1);
        case Match(_, cases) => complexity := complexity + |cases|;
        case Comprehension(_, _, ifs) => complexity := complexity + |ifs|;
        case _ =>
      }
      if node.Scope? {
        continue;
      }
      AllConcat(rest, Children(node));
      stack := stack + Children(node);
    }
  }

  // ---- any order of visits ----

  /** Taking the node at place `i` off the worklist and putting what is below it back in any order
      `below` of it. */
  function Visited(work: seq<Ast>, i: nat, below: seq<Ast>): seq<Ast>
    requires i < |work|
  {
    work[..i] + work[i + 1..] + below
  }

  /** A visiting order: at each step the place taken and the order in which nodes go back. */
  type Schedule = seq<(nat, seq<Ast>)>

  ghost predicate Follows(work: seq<Ast>, schedule: Schedule)
    decreases |schedule|
  {
    if schedule == [] then work == []
    else
      var (i, below) := schedule[0];
      && i < |work|
      && multiset(below) == multiset(Below(work[i]))
      && Follows(Visited(work, i, below), schedule[1..])
  }

  function ScheduledCount(work: seq<Ast>, schedule: Schedule): int
    requires Follows(work, schedule)
    decreases |schedule|
  {
    if schedule == [] then 0
    else
      var (i, below) := schedule[0];
      Weight(work[i]) + ScheduledCount(Visited(work, i, below), schedule[1..])
  }

  lemma AllAppend(a: seq<Ast>, x: Ast)
    ensures CountAll(a + [x]) == CountAll(a) + Count(x)
    ensures SizeAll(a + [x]) == SizeAll(a) + Size(x)
  {
    assert (a + [x])[..|a|] == a;
  }

  lemma AllAround(a: seq<Ast>, x: Ast, b: seq<Ast>)
    ensures CountAll((a + [x]) + b) == Count(x) + CountAll(a + b)
    ensures SizeAll((a + [x]) + b) == Size(x) + SizeAll(a + b)
  {
    AllConcat(a + [x], b);
    AllAppend(a, x);
    AllConcat(a, b);
  }

  lemma TakenOut(work: seq<Ast>, i: nat)
    requires i < |work|
    ensures CountAll(work) == Count(work[i]) + CountAll(work[..i] + work[i + 1..])
    ensures SizeAll(work) == Size(work[i]) + SizeAll(work[..i] + work[i + 1..])
  {
    Parts(work, i);
    AllAround(work[..i], work[i], work[i + 1..]);
  }

  lemma Parts<T>(work: seq<T>, i: nat)
    requires i < |work|
    ensures work == (work[..i] + [work[i]]) + work[i + 1..]
  {
  }

  lemma TakenOutContents<T>(work: seq<T>, i: nat)
    requires i < |work|
    ensures multiset(work[..i] + work[i + 1..]) == multiset(work) - multiset{work[i]}
  {
    assert work == work[..i] + [work[i]] + work[i + 1..];
  }

  lemma {:induction false} CountIgnoresOrder(a: seq<Ast>, b: seq<Ast>)
    requires multiset(a) == multiset(b)
    ensures CountAll(a) == CountAll(b) && SizeAll(a) == SizeAll(b)
    decreases |a|
  {
    SameLength(a, b);
    if a != [] {
      var i := SamePlace(a, b);
      var rest, others := a[..0] + a[1..], b[..i] + b[i + 1..];
      assert |rest| < |a|;
      CountIgnoresOrder(rest, others);
      SameCounts(a, b, i);
    }
  }

  lemma SameCounts(a: seq<Ast>, b: seq<Ast>, i: nat)
    requires a != [] && i < |b| && b[i] == a[0]
    requires CountAll(a[..0] + a[1..]) == CountAll(b[..i] + b[i + 1..])
    requires SizeAll(a[..0] + a[1..]) == SizeAll(b[..i] + b[i + 1..])
    ensures CountAll(a) == CountAll(b) && SizeAll(a) == SizeAll(b)
  {
    TakenOutIs(a, 0, a[0], a[..0] + a[1..]);
    TakenOutIs(b, i, a[0], b[..i] + b[i + 1..]);
  }

  lemma TakenOutIs(work: seq<Ast>, i: nat, x: Ast, rest: seq<Ast>)
    requires i < |work| && x == work[i] && rest == work[..i] + work[i + 1..]
    ensures CountAll(work) == Count(x) + CountAll(rest)
    ensures SizeAll(work) == Size(x) + SizeAll(rest)
  {
    TakenOut(work, i);
  }

  lemma SameLength<T>(a: seq<T>, b: seq<T>)
    requires multiset(a) == multiset(b)
    ensures |a| == |b|
  {
    assert |a| == |multiset(a)| == |multiset(b)| == |b|;
  }

  lemma SamePlace<T>(a: seq<T>, b: seq<T>) returns (i: nat)
    requires a != [] && multiset(a) == multiset(b)
    ensures i < |b| && b[i] == a[0]
    ensures multiset(a[..0] + a[1..]) == multiset(b[..i] + b[i + 1..])
  {
    assert a[0] in multiset(b);
    i :| 0 <= i < |b| && b[i] == a[0];
    TakenOutContents(a, 0);
    TakenOutContents(b, i);
  }

  lemma VisitKeepsCount(work: seq<Ast>, i: nat, below: seq<Ast>)
    requires i < |work| && multiset(below) == multiset(Below(work[i]))
    ensures CountAll(work) == Weight(work[i]) + CountAll(Visited(work, i, below))
    ensures SizeAll(work) == 1 + SizeAll(Visited(work, i, below))
  {
    TakenOut(work, i);
    AllConcat(work[..i] + work[i + 1..], below);
    CountIgnoresOrder(below, Below(work[i]));
    CountUnfolds(work[i]);
  }

  /** Whatever the order of visits, the weights met add up to the structural count, and as many
      nodes are visited as there are outside nested scopes. */
  lemma {:induction false} AnyOrderCountsTheSame(work: seq<Ast>, schedule: Schedule)
    requires Follows(work, schedule)
    ensures ScheduledCount(work, schedule) == CountAll(work)
    ensures |schedule| == SizeAll(work)
    decreases |schedule|
  {
    if schedule != [] {
      var (i, below) := schedule[0];
      VisitKeepsCount(work, i, below);
      AnyOrderCountsTheSame(Visited(work, i, below), schedule[1..]);
    }
  }
}
