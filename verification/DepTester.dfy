/** The dependency-ordered test of all tables and its cleanup (tdi_python/tdicli.py). */
module DepTester {

  type Id = nat

  /** What the traversal asks of a table; `frontend` says whether its CLI leaf was set up. */
  datatype Table = Table(hasKeys: bool, noUsage: bool, frontend: bool)

  datatype Graph = Graph(tables: map<Id, Table>, deps: map<Id, seq<Id>>) {
    function DepsOf(t: Id): seq<Id> { if t in deps then deps[t] else [] }

    predicate Eligible(t: Id) { t in tables && tables[t].hasKeys && !tables[t].noUsage }

    predicate IsPath(p: seq<Id>) {
      p != [] && forall i :: 0 <= i < |p| - 1 ==> p[i + 1] in DepsOf(p[i])
    }

    predicate EligiblePath(p: seq<Id>) {
      IsPath(p) && forall i :: 0 <= i < |p| ==> Eligible(p[i])
    }

    /** No eligible table depends on itself, directly or through other eligible ones; cycles
        through tables that are not tested do no harm. */
    ghost predicate Acyclic() {
      forall p :: EligiblePath(p) && 2 <= |p| ==> p[0] != p[|p| - 1]
    }

    /** `t` can be reached from `s` through eligible tables only. */
    ghost predicate Reaches(s: Id, t: Id) {
      exists p :: EligiblePath(p) && p[0] == s && p[|p| - 1] == t
    }

    ghost predicate ReachedFrom(roots: seq<Id>, t: Id) {
      exists r :: r in roots && Reaches(r, t)
    }

    /** Every dependency of the table is known and has a leaf. */
    predicate DepsHaveLeaves(t: Id) {
      forall d :: d in DepsOf(t) ==> d in tables && tables[d].frontend
    }

    /** No duplicates, only eligible tables whose dependencies have leaves, and each after all its
        eligible dependencies. */
    ghost predicate InOrder(tested: seq<Id>) {
      && (forall i, j :: 0 <= i < j < |tested| ==> tested[i] != tested[j])
      && (forall i :: 0 <= i < |tested| ==> Eligible(tested[i]) && DepsHaveLeaves(tested[i]))
      && (forall i, d :: 0 <= i < |tested| && d in DepsOf(tested[i]) && Eligible(d) ==> d in tested[..i])
    }
  }

  lemma PathIsDistinct(g: Graph, p: seq<Id>)
    requires g.Acyclic() && g.EligiblePath(p)
    ensures forall i, j :: 0 <= i < j < |p| ==> p[i] != p[j]
  {
    forall i, j | 0 <= i < j < |p|
      ensures p[i] != p[j]
    {
      assert g.EligiblePath(p[i..j + 1]);
    }
  }

  lemma {:induction false} DistinctFits(p: seq<Id>, s: set<Id>)
    requires forall i, j :: 0 <= i < j < |p| ==> p[i] != p[j]
    requires forall i :: 0 <= i < |p| ==> p[i] in s
    ensures |p| <= |s|
  {
    if p != [] {
      var last := p[|p| - 1];
      DistinctFits(p[..|p| - 1], s - {last});
    }
  }

  /** On a path of an acyclic graph there is room for every further table. */
  lemma PathFits(g: Graph, p: seq<Id>)
    requires g.Acyclic() && g.EligiblePath(p)
    ensures |p| <= |g.tables|
  {
    PathIsDistinct(g, p);
    DistinctFits(p, g.tables.Keys);
  }

  lemma ReachesItself(g: Graph, t: Id)
    requires g.Eligible(t)
    ensures g.Reaches(t, t)
  {
    assert g.EligiblePath([t]);
    assert [t][0] == t;
  }

  lemma ReachesThroughDep(g: Graph, s: Id, d: Id, t: Id)
    requires g.Eligible(s) && d in g.DepsOf(s) && g.Reaches(d, t)
    ensures g.Reaches(s, t)
  {
    var p :| g.EligiblePath(p) && p[0] == d && p[|p| - 1] == t;
    assert g.EligiblePath([s] + p);
    assert ([s] + p)[0] == s;
  }

  lemma NoWayBack(g: Graph, s: Id, d: Id, t: Id)
    requires g.Acyclic() && g.Eligible(s) && d in g.DepsOf(s) && g.Reaches(d, t)
    ensures t != s
  {
    var p :| g.EligiblePath(p) && p[0] == d && p[|p| - 1] == t;
    assert g.EligiblePath([s] + p);
    assert ([s] + p)[|p|] == t;
  }

  lemma AppendKeepsOrder(g: Graph, tested: seq<Id>, t: Id)
    requires g.InOrder(tested) && g.Eligible(t) && t !in tested && g.DepsHaveLeaves(t)
    requires forall d :: d in g.DepsOf(t) && g.Eligible(d) ==> d in tested
    ensures g.InOrder(tested + [t])
  {
    var all := tested + [t];
    forall i, d | 0 <= i < |all| && d in g.DepsOf(all[i]) && g.Eligible(d)
      ensures d in all[..i]
    {
      if i < |tested| {
        assert all[..i] == tested[..i];
      } else {
        assert all[..i] == tested;
      }
    }
  }

  /** Whatever is reached from a tested table is tested. */
  lemma {:induction false} TestedIsClosed(g: Graph, tested: seq<Id>, p: seq<Id>)
    requires g.InOrder(tested) && g.EligiblePath(p) && p[0] in tested
    ensures p[|p| - 1] in tested
    decreases |p|
  {
    if |p| > 1 {
      var i :| 0 <= i < |tested| && tested[i] == p[0];
      assert p[1] in tested[..i];
      assert g.EligiblePath(p[1..]);
      TestedIsClosed(g, tested, p[1..]);
    }
  }

  lemma AllTested(g: Graph, tested: seq<Id>, roots: seq<Id>)
    requires g.InOrder(tested) && forall r :: r in roots && g.Eligible(r) ==> r in tested
    ensures forall t :: g.ReachedFrom(roots, t) ==> t in tested
  {
    forall t | g.ReachedFrom(roots, t)
      ensures t in tested
    {
      var r :| r in roots && g.Reaches(r, t);
      var p :| g.EligiblePath(p) && p[0] == r && p[|p| - 1] == t;
      TestedIsClosed(g, tested, p);
    }
  }

  // ---------- What a call leaves behind ----------

  /** What one call adds to `before`: only what is reached from the leaf, in order. */
  ghost predicate Grown(g: Graph, before: seq<Id>, tested: seq<Id>, leaf: Id) {
    && before <= tested && g.InOrder(tested)
    && forall i :: |before| <= i < |tested| ==> g.Reaches(leaf, tested[i])
  }

  /** Every dependency is a known table with a leaf. */
  ghost predicate DepsKnown(g: Graph) {
    forall t, d :: t in g.tables && d in g.DepsOf(t) ==> d in g.tables && g.tables[d].frontend
  }

  /** Every table tested since `before` passed its own test. */
  ghost predicate NewPassed(outcome: Id -> int, before: seq<Id>, tested: seq<Id>) {
    forall i :: |before| <= i < |tested| ==> outcome(tested[i]) == 0
  }

  /** A table tested since `before` is over a failed dependency only if that was tested before. */
  ghost predicate NewOverOld(g: Graph, outcome: Id -> int, before: seq<Id>, tested: seq<Id>) {
    forall i, d :: |before| <= i < |tested| && d in g.DepsOf(tested[i]) && g.Eligible(d) && outcome(d) != 0 ==>
      d in before
  }

  /** Every eligible dependency of a tested table passed its own test. */
  ghost predicate PassedBelow(g: Graph, outcome: Id -> int, tested: seq<Id>) {
    NewOverOld(g, outcome, [], tested)
  }

  /** Every dependency is known, has a leaf and was tested, whatever came of it. */
  predicate DepsTested(g: Graph, leaf: Id, tested: seq<Id>) {
    forall d :: d in g.DepsOf(leaf) ==> d in g.tables && g.tables[d].frontend && d in tested
  }

  lemma NothingAdded(g: Graph, outcome: Id -> int, tested: seq<Id>, leaf: Id)
    requires g.InOrder(tested)
    ensures Grown(g, tested, tested, leaf)
    ensures NewPassed(outcome, tested, tested) && NewOverOld(g, outcome, tested, tested)
  {
  }

  /** Two calls in a row, the first of which returned 0. */
  lemma ThenAdded(g: Graph, outcome: Id -> int, first: seq<Id>, before: seq<Id>, tested: seq<Id>)
    requires first <= before <= tested && NewPassed(outcome, first, before)
    requires NewOverOld(g, outcome, first, before) && NewOverOld(g, outcome, before, tested)
    ensures NewOverOld(g, outcome, first, tested)
    ensures NewPassed(outcome, first, tested) <==> NewPassed(outcome, before, tested)
  {
    forall i, d | |before| <= i < |tested| && d in g.DepsOf(tested[i]) && g.Eligible(d) && outcome(d) != 0
      ensures d in first
    {
      var k :| 0 <= k < |before| && before[k] == d;
      assert before[k] == first[k];
    }
    assert forall i :: |first| <= i < |before| ==> tested[i] == before[i];
  }

  /** A table whose dependencies are tested is added after all tables since `first` passed. */
  lemma TableAdded(g: Graph, outcome: Id -> int, first: seq<Id>, tested: seq<Id>, leaf: Id)
    requires first <= tested && NewPassed(outcome, first, tested) && NewOverOld(g, outcome, first, tested)
    requires forall d :: d in g.DepsOf(leaf) && g.Eligible(d) ==> d in tested
    ensures NewOverOld(g, outcome, first, tested + [leaf])
    ensures NewPassed(outcome, first, tested + [leaf]) <==> outcome(leaf) == 0
  {
    var all := tested + [leaf];
    assert all[|tested|] == leaf;
    forall i, d | |first| <= i < |all| && d in g.DepsOf(all[i]) && g.Eligible(d) && outcome(d) != 0
      ensures d in first
    {
      if i == |tested| {
        var k :| 0 <= k < |tested| && tested[k] == d;
        assert tested[k] == first[k];
      }
    }
  }

  lemma OneMoreTested(g: Graph, first: seq<Id>, tested: seq<Id>, leaf: Id)
    requires Grown(g, first, tested, leaf) && g.Eligible(leaf) && leaf !in tested && g.DepsHaveLeaves(leaf)
    requires forall d :: d in g.DepsOf(leaf) && g.Eligible(d) ==> d in tested
    ensures Grown(g, first, tested + [leaf], leaf)
  {
    AppendKeepsOrder(g, tested, leaf);
    ReachesItself(g, leaf);
  }

  /** The chain of calls that leads to `leaf`. */
  predicate Chain(g: Graph, path: seq<Id>, leaf: Id) {
    path != [] ==> g.EligiblePath(path) && leaf in g.DepsOf(path[|path| - 1])
  }

  lemma DeeperPath(g: Graph, path: seq<Id>, leaf: Id)
    requires g.Acyclic() && g.Eligible(leaf) && Chain(g, path, leaf)
    ensures |path| < |g.tables|
    ensures forall d :: d in g.DepsOf(leaf) ==> Chain(g, path + [leaf], d)
  {
    assert g.EligiblePath(path + [leaf]);
    PathFits(g, path + [leaf]);
  }

  lemma ReachedFromLeaf(g: Graph, first: seq<Id>, before: seq<Id>, tested: seq<Id>, leaf: Id, dep: Id)
    requires g.Acyclic() && g.Eligible(leaf) && dep in g.DepsOf(leaf)
    requires Grown(g, first, before, leaf) && leaf !in before && Grown(g, before, tested, dep)
    ensures Grown(g, first, tested, leaf) && leaf !in tested
  {
    forall i | |before| <= i < |tested|
      ensures g.Reaches(leaf, tested[i]) && tested[i] != leaf
    {
      ReachesThroughDep(g, leaf, dep, tested[i]);
      NoWayBack(g, leaf, dep, tested[i]);
    }
  }

  /** What a call comes back with; an unknown table id raises. */
  datatype Result = Status(sts: int) | KeyError

  /** `a | b` on Python's unbounded integers, where a negative one has infinitely many sign bits. */
  function BitOr(a: int, b: int): (r: int)
    ensures r == 0 <==> a == 0 && b == 0
    decreases if a < 0 then -a else a
  {
    if a == 0 then b
    else if a == -1 then -1
    else 2 * BitOr(a / 2, b / 2) + if a % 2 == 1 || b % 2 == 1 then 1 else 0
  }

  /** Bit `k` of the two's complement form. */
  predicate Bit(v: int, k: nat)
    decreases k
  {
    if k == 0 then v % 2 == 1 else Bit(v / 2, k - 1)
  }

  lemma {:induction false} BitOrAt(a: int, b: int, k: nat)
    ensures Bit(BitOr(a, b), k) <==> Bit(a, k) || Bit(b, k)
    decreases k
  {
    if a == 0 || a == -1 {
      ConstantBits(k);
    } else if k > 0 {
      BitOrAt(a / 2, b / 2, k - 1);
      HalfOf(BitOr(a / 2, b / 2), if a % 2 == 1 || b % 2 == 1 then 1 else 0);
    } else {
      HalfOf(BitOr(a / 2, b / 2), if a % 2 == 1 || b % 2 == 1 then 1 else 0);
    }
  }

  lemma HalfOf(h: int, bit: int)
    requires 0 <= bit <= 1
    ensures (2 * h + bit) / 2 == h && (2 * h + bit) % 2 == bit
  {
  }

  lemma {:induction false} ConstantBits(k: nat)
    ensures !Bit(0, k) && Bit(-1, k)
    decreases k
  {
    if k > 0 {
      ConstantBits(k - 1);
    }
  }

  ghost predicate UnknownDep(g: Graph) {
    exists t, d :: t in g.deps && d in g.deps[t] && d !in g.tables
  }

  ghost predicate MissingLeaf(g: Graph) {
    exists t, d :: t in g.deps && d in g.deps[t] && d in g.tables && !g.tables[d].frontend
  }

  /** A call raises only because of an unknown dependency, and returns a failure only because a
      dependency has no leaf, which is -1, or because the test of a table tested by it failed. */
  ghost predicate Explained(g: Graph, outcome: Id -> int, before: seq<Id>, tested: seq<Id>, r: Result) {
    match r
    case KeyError => UnknownDep(g)
    case Status(sts) =>
      sts == 0 || (sts == -1 && MissingLeaf(g)) || exists k :: |before| <= k < |tested| && outcome(tested[k]) == sts
  }

  lemma BadDepExplains(g: Graph, outcome: Id -> int, before: seq<Id>, tested: seq<Id>, leaf: Id, d: Id)
    requires d in g.DepsOf(leaf)
    ensures d !in g.tables ==> Explained(g, outcome, before, tested, KeyError)
    ensures d in g.tables && !g.tables[d].frontend ==> Explained(g, outcome, before, tested, Status(-1))
  {
  }

  lemma StillExplained(g: Graph, outcome: Id -> int, first: seq<Id>, before: seq<Id>, tested: seq<Id>, r: Result)
    requires first <= before <= tested && Explained(g, outcome, before, tested, r)
    ensures Explained(g, outcome, first, tested, r)
  {
  }

  lemma ExplainedMeans(g: Graph, outcome: Id -> int, before: seq<Id>, tested: seq<Id>, r: Result)
    requires Explained(g, outcome, before, tested, r)
    ensures r.KeyError? ==> UnknownDep(g)
    ensures r.Status? && (forall x :: outcome(x) == 0 || outcome(x) == -1) ==> r.sts == 0 || r.sts == -1
  {
  }

  lemma ZeroIsExplained(g: Graph, outcome: Id -> int, before: seq<Id>, tested: seq<Id>)
    ensures Explained(g, outcome, before, tested, Status(0))
  {
  }

  lemma OutcomeExplains(g: Graph, outcome: Id -> int, before: seq<Id>, tested: seq<Id>, t: Id)
    requires before <= tested
    ensures Explained(g, outcome, before, tested + [t], Status(outcome(t)))
  {
    assert (tested + [t])[|tested|] == t;
  }

  /** In terms of the tables' own attributes: only tables with keys whose type is not excluded are
      tested, each once, with dependencies that all have leaves, and each after those of them that
      are to be tested. */
  ghost predicate RightlyTested(tables: map<Id, Table>, deps: map<Id, seq<Id>>, tested: seq<Id>) {
    && (forall t :: t in tested ==> t in tables && tables[t].hasKeys && !tables[t].noUsage)
    && (forall i, j :: 0 <= i < j < |tested| ==> tested[i] != tested[j])
    && (forall i, d :: 0 <= i < |tested| && tested[i] in deps && d in deps[tested[i]] ==>
          d in tables && tables[d].frontend && (!tables[d].hasKeys || tables[d].noUsage || d in tested[..i]))
  }

  lemma InOrderIsRight(g: Graph, tested: seq<Id>)
    requires g.InOrder(tested)
    ensures RightlyTested(g.tables, g.deps, tested)
  {
    forall i, d | 0 <= i < |tested| && tested[i] in g.deps && d in g.deps[tested[i]]
      ensures d in g.tables && g.tables[d].frontend
      ensures !g.tables[d].hasKeys || g.tables[d].noUsage || d in tested[..i]
    {
      assert d in g.DepsOf(tested[i]) && g.DepsHaveLeaves(tested[i]);
      assert g.Eligible(d) <==> g.tables[d].hasKeys && !g.tables[d].noUsage;
    }
  }

  lemma ReachesEachRoot(g: Graph, roots: seq<Id>)
    ensures forall t :: t in roots && t in g.tables && g.tables[t].hasKeys && !g.tables[t].noUsage ==>
              g.ReachedFrom(roots, t)
  {
    forall t | t in roots && t in g.tables && g.tables[t].hasKeys && !g.tables[t].noUsage
      ensures g.ReachedFrom(roots, t)
    {
      ReachesItself(g, t);
    }
  }

  // ---------- Several leaves in turn ----------

  /** An earlier leaf reaches `d`, a later one reaches a table `t` that depends on `d`. */
  ghost predicate Crossed(g: Graph, roots: seq<Id>, i: nat, j: nat, d: Id, t: Id) {
    i < j < |roots| && g.Reaches(roots[i], d) && g.Reaches(roots[j], t) && d in g.DepsOf(t)
  }

  ghost predicate NoneCrossed(g: Graph, roots: seq<Id>) {
    forall i, j, d, t :: !Crossed(g, roots, i, j, d, t)
  }

  /** Of all tests that of `f` alone fails. */
  ghost predicate OnlyFails(outcome: Id -> int, f: Id) {
    forall x :: outcome(x) == 0 <==> x != f
  }

  /** Before leaf `n`: what was tested so far was reached, and is over a failed dependency only
      where the leaves cross. */
  ghost predicate OverIsCrossed(g: Graph, outcome: Id -> int, roots: seq<Id>, n: nat, tested: seq<Id>)
    requires n <= |roots|
  {
    && (forall t :: t in tested ==> exists i :: 0 <= i < n && g.Reaches(roots[i], t))
    && (forall t, d :: t in tested && d in g.DepsOf(t) && g.Eligible(d) && outcome(d) != 0 ==>
          exists i, j :: Crossed(g, roots, i, j, d, t))
  }

  lemma NextLeafOver(g: Graph, outcome: Id -> int, roots: seq<Id>, n: nat, before: seq<Id>, tested: seq<Id>)
    requires n < |roots| && OverIsCrossed(g, outcome, roots, n, before)
    requires Grown(g, before, tested, roots[n]) && NewOverOld(g, outcome, before, tested)
    ensures OverIsCrossed(g, outcome, roots, n + 1, tested)
  {
    hide Graph.Reaches, Graph.Eligible, Graph.InOrder, Graph.DepsOf;
    forall k | 0 <= k < |tested|
      ensures exists i :: 0 <= i < n + 1 && g.Reaches(roots[i], tested[k])
    {
      if k < |before| {
        assert tested[k] in before;
      }
    }
    forall k, d | 0 <= k < |tested| && d in g.DepsOf(tested[k]) && g.Eligible(d) && outcome(d) != 0
      ensures exists i, j :: Crossed(g, roots, i, j, d, tested[k])
    {
      if k < |before| {
        assert tested[k] in before;
      } else {
        var i :| 0 <= i < n && g.Reaches(roots[i], d);
        assert Crossed(g, roots, i, n, d, tested[k]);
      }
    }
  }

  lemma UncrossedPassBelow(g: Graph, outcome: Id -> int, roots: seq<Id>, n: nat, tested: seq<Id>)
    requires n <= |roots| && OverIsCrossed(g, outcome, roots, n, tested)
    ensures NoneCrossed(g, roots) ==> PassedBelow(g, outcome, tested)
  {
  }

  /** Before leaf `n`, if the test of `f` alone fails: `f` was tested once it was reached, and from
      then on all that was reached. */
  ghost predicate TestedPast(g: Graph, roots: seq<Id>, n: nat, f: Id, tested: seq<Id>)
    requires n <= |roots|
  {
    && (forall i :: 0 <= i < n && g.Reaches(roots[i], f) ==> f in tested)
    && (forall i, j, t :: 0 <= i < j < n && g.Reaches(roots[i], f) && g.Reaches(roots[j], t) ==> t in tested)
  }

  lemma ReachedIsTested(g: Graph, tested: seq<Id>, r: Id, t: Id)
    requires g.InOrder(tested) && g.Reaches(r, t) && r in tested
    ensures t in tested
  {
    var p :| g.EligiblePath(p) && p[0] == r && p[|p| - 1] == t;
    TestedIsClosed(g, tested, p);
  }

  lemma ReachedAreEligible(g: Graph, s: Id, t: Id)
    requires g.Reaches(s, t)
    ensures g.Eligible(s) && g.Eligible(t)
  {
  }

  lemma NextLeafPast(g: Graph, outcome: Id -> int, roots: seq<Id>, n: nat, f: Id,
                     before: seq<Id>, tested: seq<Id>, done: bool)
    requires n < |roots| && OnlyFails(outcome, f) && TestedPast(g, roots, n, f, before)
    requires Grown(g, before, tested, roots[n])
    requires NewPassed(outcome, before, tested) ==> done
    requires done && g.Eligible(roots[n]) ==> roots[n] in tested
    ensures TestedPast(g, roots, n + 1, f, tested)
  {
    hide Graph.Reaches, Graph.Eligible, Graph.InOrder;
    GrownKeeps(g, before, tested, roots[n]);
    if g.Reaches(roots[n], f) && f !in tested {
      ReachedAreEligible(g, roots[n], f);
      ReachedIsTested(g, tested, roots[n], f);
    }
    forall i, t | 0 <= i < n && g.Reaches(roots[i], f) && g.Reaches(roots[n], t)
      ensures t in tested
    {
      ReachedAreEligible(g, roots[n], t);
      NotTestedTwice(g, before, tested, roots[n], f);
      ReachedIsTested(g, tested, roots[n], t);
    }
  }

  lemma GrownKeeps(g: Graph, before: seq<Id>, tested: seq<Id>, leaf: Id)
    requires Grown(g, before, tested, leaf)
    ensures g.InOrder(tested) && forall t :: t in before ==> t in tested
  {
  }

  lemma NotTestedTwice(g: Graph, before: seq<Id>, tested: seq<Id>, leaf: Id, f: Id)
    requires Grown(g, before, tested, leaf) && f in before
    ensures forall k :: |before| <= k < |tested| ==> tested[k] != f
  {
    var i :| 0 <= i < |before| && before[i] == f;
    assert tested[i] == f;
  }

  lemma CrossedIsOver(g: Graph, outcome: Id -> int, roots: seq<Id>, tested: seq<Id>,
                      i: nat, j: nat, f: Id, t: Id)
    requires Crossed(g, roots, i, j, f, t) && OnlyFails(outcome, f)
    requires TestedPast(g, roots, |roots|, f, tested)
    ensures !PassedBelow(g, outcome, tested)
  {
    ReachedAreEligible(g, roots[i], f);
    hide Graph.Reaches, Graph.Eligible;
    assert t in tested;
    var k :| 0 <= k < |tested| && tested[k] == t;
  }

  // ---------- The traversal ----------

  function Reverse(s: seq<Id>): seq<Id> {
    if s == [] then [] else Reverse(s[1..]) + [s[0]]
  }

  class DepTester {
    const g: Graph
    const outcome: Id -> int   // status of testing one table, the entries themselves being opaque
    var tested: seq<Id>

    constructor (graph: Graph, testAllAdds: Id -> int)
      ensures g == graph && outcome == testAllAdds && tested == []
    {
      g, outcome, tested := graph, testAllAdds, [];
    }

    /** `path` is the chain of calls that led here.  A call tests no table over a dependency that
        failed in this call; but one that failed in an earlier call counts as tested. */
    method TestTable(leaf: Id, ghost path: seq<Id>) returns (r: Result)
      requires g.Acyclic() && g.InOrder(tested) && leaf in g.tables && Chain(g, path, leaf)
      modifies this
      ensures Grown(g, old(tested), tested, leaf)
      ensures r == Status(0) && g.Eligible(leaf) ==> leaf in tested
      ensures NewOverOld(g, outcome, old(tested), tested)
      ensures r == Status(0) ==> NewPassed(outcome, old(tested), tested)
      ensures DepsKnown(g) ==> r.Status? && (NewPassed(outcome, old(tested), tested) ==> r == Status(0))
      ensures Explained(g, outcome, old(tested), tested, r)
      ensures leaf in old(tested) ==> tested == old(tested) && r == Status(0)
      ensures g.Eligible(leaf) && leaf !in old(tested) && DepsTested(g, leaf, old(tested)) ==>
                tested == old(tested) + [leaf] && r == Status(outcome(leaf))
      decreases |g.tables| - |path|, 1
    {
      hide DepsKnown, NewPassed, NewOverOld, DepsTested, Grown, Chain, Explained;
      hide Graph.Acyclic, Graph.InOrder, Graph.Reaches;
      NothingAdded(g, outcome, tested, leaf);
      ZeroIsExplained(g, outcome, tested, tested);
      if leaf in tested {
        return Status(0);
      }
      if !g.tables[leaf].hasKeys {
        return Status(0);
      }
      if g.tables[leaf].noUsage {
        return Status(0);
      }
      DeeperPath(g, path, leaf);
      r := TestDeps(leaf, path);
      if r != Status(0) {
        return r;
      }
      OneMoreTested(g, old(tested), tested, leaf);
      StartsWith(g, old(tested), tested, leaf);
      TableAdded(g, outcome, old(tested), tested, leaf);
      OutcomeExplains(g, outcome, old(tested), tested, leaf);
      tested := tested + [leaf];
      r := Status(outcome(leaf));
    }

    /** The loop over the dependencies of a table that is to be tested. */
    method TestDeps(leaf: Id, ghost path: seq<Id>) returns (r: Result)
      requires g.Acyclic() && g.InOrder(tested) && g.Eligible(leaf) && leaf !in tested
      requires Chain(g, path, leaf) && |path| < |g.tables|
      modifies this
      ensures Grown(g, old(tested), tested, leaf) && leaf !in tested
      ensures r == Status(0) ==> g.DepsHaveLeaves(leaf)
      ensures r == Status(0) ==> forall d :: d in g.DepsOf(leaf) && g.Eligible(d) ==> d in tested
      ensures NewOverOld(g, outcome, old(tested), tested)
      ensures r == Status(0) ==> NewPassed(outcome, old(tested), tested)
      ensures DepsKnown(g) ==> r.Status? && (NewPassed(outcome, old(tested), tested) ==> r == Status(0))
      ensures Explained(g, outcome, old(tested), tested, r)
      ensures DepsTested(g, leaf, old(tested)) ==> tested == old(tested) && r == Status(0)
      decreases |g.tables| - |path|, 0
    {
      hide NewPassed, NewOverOld, Grown, Chain, Explained;
      hide Graph.Acyclic, Graph.InOrder, Graph.Reaches, Graph.Eligible;
      NothingAdded(g, outcome, tested, leaf);
      DeeperPath(g, path, leaf);
      EligibleIsKnown(g, leaf);
      var deps := g.DepsOf(leaf);
      for i := 0 to |deps|
        invariant Grown(g, old(tested), tested, leaf) && leaf !in tested && g.InOrder(tested)
        invariant forall j :: 0 <= j < i ==> deps[j] in g.tables && g.tables[deps[j]].frontend
        invariant forall j :: 0 <= j < i && g.Eligible(deps[j]) ==> deps[j] in tested
        invariant NewPassed(outcome, old(tested), tested) && NewOverOld(g, outcome, old(tested), tested)
        invariant DepsTested(g, leaf, old(tested)) ==> tested == old(tested)
      {
        var dep := deps[i];
        BadDepExplains(g, outcome, old(tested), tested, leaf, dep);
        if dep !in g.tables {
          return KeyError;
        }
        if !g.tables[dep].frontend {
          return Status(-1);
        }
        ghost var before := tested;
        r := TestTable(dep, path + [leaf]);
        GrownKeeps(g, before, tested, dep);
        StartsWith(g, old(tested), before, leaf);
        StartsWith(g, before, tested, dep);
        ThenAdded(g, outcome, old(tested), before, tested);
        StillExplained(g, outcome, old(tested), before, tested, r);
        ReachedFromLeaf(g, old(tested), before, tested, leaf, dep);
        if r != Status(0) {
          return r;
        }
      }
      r := Status(0);
      ZeroIsExplained(g, outcome, old(tested), tested);
    }

    /** All leaves in turn.  When nothing fails, the tested tables are exactly those reached from
        a leaf through eligible tables, and all of them passed.  Whatever fails, no table is
        tested over a failed dependency if no two leaves cross; and if two do cross, and all
        dependencies are known, then the failure of the dependency they cross at is passed over. */
    method DepTest(roots: seq<Id>) returns (r: Result)
      requires g.Acyclic() && tested == [] && forall t :: t in roots ==> t in g.tables
      modifies this
      ensures g.InOrder(tested)
      ensures forall t :: t in tested ==> g.ReachedFrom(roots, t)
      ensures r == Status(0) ==> forall t :: g.ReachedFrom(roots, t) ==> t in tested
      ensures r == Status(0) ==> NewPassed(outcome, [], tested)
      ensures DepsKnown(g) ==> r.Status? && (NewPassed(outcome, [], tested) ==> r == Status(0))
      ensures RightlyTested(g.tables, g.deps, tested)
      ensures r == Status(0) ==>
                forall t :: t in roots && g.tables[t].hasKeys && !g.tables[t].noUsage ==> t in tested
      ensures r.KeyError? ==> UnknownDep(g)
      ensures r.Status? && (forall x :: outcome(x) == 0 || outcome(x) == -1) ==> r.sts == 0 || r.sts == -1
      ensures NoneCrossed(g, roots) ==> PassedBelow(g, outcome, tested)
      ensures forall i, j, f, t :: Crossed(g, roots, i, j, f, t) && DepsKnown(g) && OnlyFails(outcome, f) ==>
                !PassedBelow(g, outcome, tested)
    {
      hide NewPassed, NewOverOld, PassedBelow, Grown, DepsKnown, OnlyFails, OverIsCrossed, TestedPast;
      hide Crossed, NoneCrossed, Graph.Acyclic, Graph.InOrder, Graph.Reaches, Graph.ReachedFrom, Graph.Eligible;
      hide RightlyTested, UnknownDep, Explained;
      var sts := 0;
      NothingTested(g, outcome, roots);
      for i := 0 to |roots|
        invariant g.InOrder(tested) && OverIsCrossed(g, outcome, roots, i, tested)
        invariant sts == 0 ==> forall j :: 0 <= j < i && g.Eligible(roots[j]) ==> roots[j] in tested
        invariant sts == 0 ==> NewPassed(outcome, [], tested)
        invariant DepsKnown(g) && NewPassed(outcome, [], tested) ==> sts == 0
        invariant (forall x :: outcome(x) == 0 || outcome(x) == -1) ==> sts == 0 || sts == -1
        invariant forall f :: DepsKnown(g) && OnlyFails(outcome, f) ==> TestedPast(g, roots, i, f, tested)
      {
        ghost var before := tested;
        r := TestTable(roots[i], []);
        GrownKeeps(g, before, tested, roots[i]);
        StartsWith(g, before, tested, roots[i]);
        NextLeafOver(g, outcome, roots, i, before, tested);
        InOrderIsRight(g, tested);
        ExplainedMeans(g, outcome, before, tested, r);
        if r.KeyError? {
          OnlyReached(g, outcome, roots, i + 1, tested);
          UncrossedPassBelow(g, outcome, roots, i + 1, tested);
          return r;
        }
        forall f | DepsKnown(g) && OnlyFails(outcome, f)
          ensures TestedPast(g, roots, i + 1, f, tested)
        {
          NextLeafPast(g, outcome, roots, i, f, before, tested, r == Status(0));
        }
        PassedInTurn(outcome, before, tested);
        sts := BitOr(sts, r.sts);
      }
      r := Status(sts);
      InOrderIsRight(g, tested);
      ReachesEachRoot(g, roots);
      OnlyReached(g, outcome, roots, |roots|, tested);
      UncrossedPassBelow(g, outcome, roots, |roots|, tested);
      forall i, j, f, t | Crossed(g, roots, i, j, f, t) && DepsKnown(g) && OnlyFails(outcome, f)
        ensures !PassedBelow(g, outcome, tested)
      {
        CrossedIsOver(g, outcome, roots, tested, i, j, f, t);
      }
      if sts == 0 {
        AllTested(g, tested, roots);
      }
    }

    /** Reverses the list in place and clears the tables in that order. */
    method Cleanup() returns (cleared: seq<Id>)
      requires g.InOrder(tested)
      modifies this
      ensures tested == Reverse(old(tested)) == cleared
      ensures DependentsFirst(g, cleared)
    {
      CleanupVisitsDependentsFirst(g, tested);
      tested := Reverse(tested);
      cleared := tested;
    }
  }

  lemma StartsWith(g: Graph, before: seq<Id>, tested: seq<Id>, leaf: Id)
    requires Grown(g, before, tested, leaf)
    ensures before <= tested
  {
  }

  lemma EligibleIsKnown(g: Graph, t: Id)
    requires g.Eligible(t)
    ensures t in g.tables
  {
  }

  lemma NothingTested(g: Graph, outcome: Id -> int, roots: seq<Id>)
    ensures g.InOrder([]) && NewPassed(outcome, [], []) && OverIsCrossed(g, outcome, roots, 0, [])
    ensures forall f :: TestedPast(g, roots, 0, f, [])
  {
  }

  lemma PassedInTurn(outcome: Id -> int, before: seq<Id>, tested: seq<Id>)
    requires before <= tested
    ensures NewPassed(outcome, [], tested) <==> NewPassed(outcome, [], before) && NewPassed(outcome, before, tested)
  {
    assert forall i :: 0 <= i < |before| ==> tested[i] == before[i];
  }

  lemma OnlyReached(g: Graph, outcome: Id -> int, roots: seq<Id>, n: nat, tested: seq<Id>)
    requires n <= |roots| && OverIsCrossed(g, outcome, roots, n, tested)
    ensures forall t :: t in tested ==> g.ReachedFrom(roots, t)
  {
    hide Graph.Reaches;
    forall t | t in tested
      ensures g.ReachedFrom(roots, t)
    {
      var i :| 0 <= i < n && g.Reaches(roots[i], t);
      assert roots[i] in roots;
    }
  }

  /** Table 2 depends on table 3. */
  const PAIR := Graph(map[2 := Table(true, false, true), 3 := Table(true, false, true)], map[2 := [3]])

  lemma PairIsAcyclic()
    ensures PAIR.Acyclic()
  {
    forall p | PAIR.EligiblePath(p) && 2 <= |p|
      ensures p[0] != p[|p| - 1]
    {
      assert p[1] in PAIR.DepsOf(p[0]) && (|p| > 2 ==> p[2] in PAIR.DepsOf(p[1]));
    }
  }

  lemma PairIsTestable()
    ensures forall t :: t == 2 || t == 3 ==> t in PAIR.tables && PAIR.Eligible(t) && Chain(PAIR, [], t)
    ensures DepsTested(PAIR, 3, []) && DepsTested(PAIR, 2, [3])
  {
  }

  /** The test of table 3 fails, and table 2 is tested over it all the same. */
  method FailedDependencyIsPassedOver() returns (first: Result, second: Result, tested: seq<Id>)
    ensures first == Status(-1) && second == Status(0) && tested == [3, 2]
  {
    PairIsAcyclic();
    PairIsTestable();
    hide Graph.Acyclic, Graph.InOrder, Graph.Eligible, Graph.DepsOf, DepsTested, Chain;
    hide Grown, NewPassed, NewOverOld, DepsKnown, Explained, OverIsCrossed, TestedPast;
    var t := new DepTester(PAIR, id => if id == 3 then -1 else 0);
    NothingTested(PAIR, t.outcome, []);
    first := t.TestTable(3, []);
    GrownKeeps(PAIR, [], t.tested, 3);
    assert t.tested == [3];
    second := t.TestTable(2, []);
    tested := t.tested;
  }

  /** No table comes after one of its eligible dependencies. */
  ghost predicate DependentsFirst(g: Graph, order: seq<Id>) {
    forall i, j :: 0 <= i < |order| && 0 <= j < |order| && g.Eligible(order[j]) && order[j] in g.DepsOf(order[i]) ==>
      i < j
  }

  lemma {:induction false} ReverseAt(s: seq<Id>, k: nat)
    requires k < |s|
    ensures |Reverse(s)| == |s| && Reverse(s)[k] == s[|s| - 1 - k]
  {
    if |s| > 1 {
      ReverseAt(s[1..], if k < |s| - 1 then k else 0);
    }
  }

  /** Undoing in the reverse order of testing clears every table before those it depends on. */
  lemma CleanupVisitsDependentsFirst(g: Graph, tested: seq<Id>)
    requires g.InOrder(tested)
    ensures |Reverse(tested)| == |tested| && DependentsFirst(g, Reverse(tested))
  {
    var r, n := Reverse(tested), |tested|;
    if n > 0 {
      ReverseAt(tested, 0);
    }
    forall i, j | 0 <= i < n && 0 <= j < n && g.Eligible(r[j]) && r[j] in g.DepsOf(r[i])
      ensures i < j
    {
      ReverseAt(tested, i);
      ReverseAt(tested, j);
      assert tested[n - 1 - j] in tested[..n - 1 - i];
    }
  }
}
