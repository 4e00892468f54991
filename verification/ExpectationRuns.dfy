/**
  What calls, new expectations and new prerequisites do to a set of expectations, as steps
  between snapshots, and what holds over whole runs of such steps.
 */
module ExpectationRuns {
  import opened PrerequisiteGraph

  datatype Snapshot<T> = Snapshot(graph: Graph<T>, satisfied: set<T>, called: set<T>, retired: set<T>)

  ghost predicate Valid<T>(s: Snapshot<T>) {
    Closed(s.graph) && s.satisfied <= s.graph.Keys && s.called <= s.graph.Keys && s.retired <= s.graph.Keys
  }

  /** Nothing is retired before its prerequisites. */
  ghost predicate RetiredDownward<T>(g: Graph<T>, retired: set<T>) {
    forall n | n in retired && n in g :: g[n] <= retired
  }

  /** An expectation that is satisfied and has been called has only satisfied and retired
      prerequisites. */
  ghost predicate CalledAfterPrerequisites<T>(g: Graph<T>, sat: set<T>, called: set<T>, retired: set<T>) {
    forall n | n in sat && n in called :: Below(g, n) <= sat && Below(g, n) <= retired
  }

  ghost predicate InOrder<T>(s: Snapshot<T>) {
    RetiredDownward(s.graph, s.retired) && CalledAfterPrerequisites(s.graph, s.satisfied, s.called, s.retired)
  }

  // ---------------------------------------------------------------------------
  // Retiring
  // ---------------------------------------------------------------------------

  /** Retiring from a does not look beyond what is retired already. */
  ghost function Pruned<T>(g: Graph<T>, retired: set<T>, a: T): Graph<T> {
    map n | n in g :: if n == a || n !in retired then g[n] else {}
  }

  /** What is retired once the prerequisites of a have been. */
  ghost function AfterRetiring<T>(g: Graph<T>, retired: set<T>, a: T): set<T> {
    if a in retired then retired else retired + Below(Pruned(g, retired, a), a)
  }

  lemma {:induction false} PrunedPathIsPath<T>(g: Graph<T>, retired: set<T>, a: T, x: T, b: T, k: nat)
    requires Path(Pruned(g, retired, a), x, b, k)
    ensures Path(g, x, b, k)
  {
    if k > 0 {
      var h := Pruned(g, retired, a);
      var y :| y in h[x] && Path(h, y, b, k - 1);
      PrunedPathIsPath(g, retired, a, y, b, k - 1);
      assert y in g[x];
    }
  }

  /** When nothing is retired before its prerequisites, what is not looked at is retired. */
  lemma RetiringReachesAll<T>(g: Graph<T>, retired: set<T>, a: T)
    requires Closed(g) && a in g && RetiredDownward(g, retired)
    ensures AfterRetiring(g, retired, a) == retired + Below(g, a)
    ensures RetiredDownward(g, AfterRetiring(g, retired, a))
  {
    var h, after := Pruned(g, retired, a), AfterRetiring(g, retired, a);
    forall b | b in Below(h, a) ensures b in Below(g, a) {
      var k: nat :| Path(h, a, b, k);
      PrunedPathIsPath(g, retired, a, a, b, k);
    }
    forall n | n in g && (n in after || n == a) ensures g[n] <= after {
      if n !in retired {
        StepsStayBelow(h, a, n);
      }
    }
    forall b | b in Below(g, a) ensures b in after {
      var k: nat :| Path(g, a, b, k);
      ClosedSetHoldsPath(g, a, b, k, after);
    }
  }

  lemma StepsStayBelow<T>(g: Graph<T>, a: T, n: T)
    requires Closed(g) && n in g && (n == a || Reaches(g, a, n))
    ensures g[n] <= Below(g, a)
  {
    forall y | y in g[n] ensures y in Below(g, a) {
      ReachesFirstStep(g, n, y);
      if n != a {
        ReachesTransitive(g, a, n, y);
      }
    }
  }

  // ---------------------------------------------------------------------------
  // Steps
  // ---------------------------------------------------------------------------

  /** A new expectation, without prerequisites. */
  ghost predicate IsCreation<T>(s: Snapshot<T>, e: T, s': Snapshot<T>) {
    && e !in s.graph && s'.graph == s.graph[e := {}]
    && s'.satisfied - {e} == s.satisfied && s'.called == s.called && s'.retired == s.retired
  }

  /** A call that matches the arguments of e. An active expectation whose prerequisites are
      satisfied takes it: as an excess call, or retiring its prerequisites and maybe itself. */
  ghost predicate IsCall<T>(s: Snapshot<T>, e: T, s': Snapshot<T>) {
    && e in s.graph
    && if e in s.retired || !AllSatisfied(s.graph, s.satisfied, e) then s' == s
       else
         var after := AfterRetiring(s.graph, s.retired, e);
         && s'.graph == s.graph && s'.called == s.called + {e} && s'.satisfied - {e} == s.satisfied - {e}
         && ((s'.retired == s.retired && e !in s'.satisfied) || s'.retired == after || s'.retired == after + {e})
  }

  /** l becomes a prerequisite of e. */
  ghost predicate IsAddition<T>(s: Snapshot<T>, e: T, l: T, s': Snapshot<T>) {
    e in s.graph && l in s.graph && s' == s.(graph := WithEdge(s.graph, e, l))
  }

  /** e or something that depends on it is satisfied and has been called. */
  ghost predicate Relied<T>(s: Snapshot<T>, e: T) {
    exists n | n in s.satisfied && n in s.called :: n == e || Reaches(s.graph, n, e)
  }

  /** The prerequisite l comes in time for e: it closes no cycle, is retired if e is, and is
      done with all that it needs if e has been relied on. */
  ghost predicate InTime<T>(s: Snapshot<T>, e: T, l: T) {
    && l != e && !Reaches(s.graph, l, e)
    && (e in s.retired ==> l in s.retired)
    && (Relied(s, e) ==> {l} + Below(s.graph, l) <= s.satisfied * s.retired)
  }

  lemma CreationKeepsOrder<T>(s: Snapshot<T>, e: T, s': Snapshot<T>)
    requires Valid(s) && Acyclic(s.graph) && InOrder(s) && IsCreation(s, e, s')
    ensures Valid(s') && Acyclic(s'.graph) && InOrder(s')
  {
    hide Reaches;
    forall n, b | Reaches(s'.graph, n, b) ensures Reaches(s.graph, n, b) && b in s.graph {
      CreationAddsNoPath(s, e, s', n, b);
    }
    forall n | n in s'.satisfied && n in s'.called
      ensures Below(s'.graph, n) <= s'.satisfied && Below(s'.graph, n) <= s'.retired
    {
      assert n in s.satisfied;
      assert Below(s'.graph, n) <= Below(s.graph, n);
    }
  }

  lemma CreationAddsNoPath<T>(s: Snapshot<T>, e: T, s': Snapshot<T>, a: T, b: T)
    requires Valid(s) && IsCreation(s, e, s') && Reaches(s'.graph, a, b)
    ensures Reaches(s.graph, a, b) && b in s.graph
  {
    var k: nat :| Path(s'.graph, a, b, k);
    PathWithout(s.graph, e, a, b, k);
    PathEndsInside(s.graph, a, b, k);
  }

  lemma {:induction false} PathWithout<T>(g: Graph<T>, e: T, a: T, b: T, k: nat)
    requires Closed(g) && e !in g && Path(g[e := {}], a, b, k)
    ensures Path(g, a, b, k)
  {
    if k > 0 {
      var x :| x in g[e := {}][a] && Path(g[e := {}], x, b, k - 1);
      PathWithout(g, e, x, b, k - 1);
    }
  }

  /** A call of an unretired expectation e changes nothing below an expectation that was
      called before: everything there is retired, so e is not. */
  lemma CallKeepsOrder<T>(s: Snapshot<T>, e: T, s': Snapshot<T>)
    requires Valid(s) && Acyclic(s.graph) && InOrder(s) && IsCall(s, e, s') && s'.satisfied <= s.graph.Keys
    ensures Valid(s') && Acyclic(s'.graph) && InOrder(s')
  {
    hide Reaches, AfterRetiring;
    if s' != s {
      var g := s.graph;
      RetiringReachesAll(g, s.retired, e);
      StepsStayBelow(g, e, e);
      forall n | n in s'.satisfied && n in s'.called ensures Below(g, n) <= s'.satisfied && Below(g, n) <= s'.retired {
        if n != e {
          assert n in s'.satisfied - {e} && n in s.called;
        }
        assert e !in Below(g, n) && Below(g, n) <= s.satisfied;
        assert Below(g, n) <= s'.satisfied - {e};
      }
    }
  }

  /** Adding a prerequisite keeps the graph acyclic and the order if and only if it comes in
      time. */
  lemma AdditionKeepsOrder<T>(s: Snapshot<T>, e: T, l: T, s': Snapshot<T>)
    requires Valid(s) && Acyclic(s.graph) && InOrder(s) && IsAddition(s, e, l, s')
    ensures Valid(s')
    ensures Acyclic(s'.graph) && InOrder(s') <==> InTime(s, e, l)
  {
    hide Reaches, Acyclic;
    var g, g' := s.graph, s'.graph;
    EdgeKeepsAcyclic(g, e, l);
    assert RetiredDownward(g', s.retired) <==> (e in s.retired ==> l in s.retired) by {
      assert forall n | n in g && n != e :: g'[n] == g[n];
      assert g'[e] == g[e] + {l};
    }
    if Acyclic(g') {
      forall n | n in g
        ensures Below(g', n) == Below(g, n) + if n == e || Reaches(g, n, e) then {l} + Below(g, l) else {}
      {
        BelowWithEdge(g, e, l, n);
      }
    }
  }

  /** What a new prerequisite adds below a node. */
  lemma BelowWithEdge<T>(g: Graph<T>, e: T, l: T, n: T)
    requires Closed(g) && e in g && l in g && n in g
    ensures Below(WithEdge(g, e, l), n) == Below(g, n) + if n == e || Reaches(g, n, e) then {l} + Below(g, l) else {}
  {
    var g' := WithEdge(g, e, l);
    forall b | b in Below(g', n) && b !in Below(g, n)
      ensures (n == e || Reaches(g, n, e)) && b in {l} + Below(g, l)
    {
      var k: nat :| Path(g', n, b, k);
      NewPathSplits(g, e, l, n, b, k);
    }
    forall b | b in Below(g, n) ensures b in Below(g', n) {
      ReachesKept(g, e, l, n, b);
    }
    if n == e || Reaches(g, n, e) {
      ReachesFirstStep(g', e, l);
      if n != e {
        ReachesKept(g, e, l, n, e);
        ReachesTransitive(g', n, e, l);
      }
      forall b | b in Below(g, l) ensures b in Below(g', n) {
        ReachesKept(g, e, l, l, b);
        ReachesTransitive(g', n, l, b);
      }
    }
  }

  lemma ReachesKept<T>(g: Graph<T>, e: T, l: T, a: T, b: T)
    requires e in g && Reaches(g, a, b)
    ensures Reaches(WithEdge(g, e, l), a, b)
  {
    var k: nat :| Path(g, a, b, k);
    PathKept(g, e, l, a, b, k);
  }

  /** For an expectation that was never called, is active and is nobody's prerequisite, every
      other expectation comes in time. */
  lemma NewExpectationIsInTime<T>(s: Snapshot<T>, e: T, l: T)
    requires e !in s.called && e !in s.retired && l != e
    requires forall n | n in s.graph :: e !in s.graph[n]
    ensures InTime(s, e, l)
  {
    forall n ensures !Reaches(s.graph, n, e) {
      NewExpectationIsUnreachable(s.graph, n, e);
    }
  }

  /** Nothing leads to an expectation that is nobody's prerequisite. */
  lemma NewExpectationIsUnreachable<T>(g: Graph<T>, a: T, e: T)
    requires forall n | n in g :: e !in g[n]
    ensures !Reaches(g, a, e)
  {
    if Reaches(g, a, e) {
      var k: nat :| Path(g, a, e, k);
      PathNeedsLastEdge(g, a, e, k);
    }
  }

  lemma {:induction false} PathNeedsLastEdge<T>(g: Graph<T>, a: T, e: T, k: nat)
    requires Path(g, a, e, k)
    ensures exists n | n in g :: e in g[n]
  {
    if k > 0 {
      var x :| x in g[a] && Path(g, x, e, k - 1);
      PathNeedsLastEdge(g, x, e, k - 1);
    }
  }

  // ---------------------------------------------------------------------------
  // Runs
  // ---------------------------------------------------------------------------

  /** A new expectation, a call, or a prerequisite that comes in time. */
  ghost predicate Next<T>(s: Snapshot<T>, s': Snapshot<T>) {
    && s'.satisfied <= s'.graph.Keys
    && exists e | e in s'.graph ::
      || IsCreation(s, e, s') || IsCall(s, e, s')
      || exists l | l in s'.graph :: IsAddition(s, e, l, s') && InTime(s, e, l)
  }

  ghost predicate IsRun<T>(states: seq<Snapshot<T>>) {
    && states != [] && states[0] == Snapshot(map[], {}, {}, {})
    && forall i :: 0 < i < |states| ==> Next(states[i - 1], states[i])
  }

  /** Expectations, prerequisites and calls may alternate: as long as every prerequisite comes
      in time, the two queries agree on every expectation in every state. */
  lemma {:induction false} QueriesAgreeInRuns<T>(states: seq<Snapshot<T>>, i: nat)
    requires IsRun(states) && i < |states|
    ensures var s := states[i];
      && Valid(s) && Acyclic(s.graph) && InOrder(s)
      && forall a | a in s.graph ::
           AllSatisfied(s.graph, s.satisfied, a) <==> Witnesses(s.graph, s.satisfied, s.called, a) == {}
  {
    hide Acyclic, InOrder, Valid, AllSatisfied, Witnesses, Next;
    if i == 0 {
      NoExpectations(states[0]);
    } else {
      QueriesAgreeInRuns(states, i - 1);
      NextKeepsOrder(states[i - 1], states[i]);
    }
    var s := states[i];
    forall a | a in s.graph
      ensures AllSatisfied(s.graph, s.satisfied, a) <==> Witnesses(s.graph, s.satisfied, s.called, a) == {}
    {
      OrderGivesAgreement(s, a);
    }
  }

  lemma NoExpectations<T>(s: Snapshot<T>)
    requires s == Snapshot(map[], {}, {}, {})
    ensures Valid(s) && Acyclic(s.graph) && InOrder(s)
  {
  }

  lemma NextKeepsOrder<T>(s: Snapshot<T>, s': Snapshot<T>)
    requires Valid(s) && Acyclic(s.graph) && InOrder(s) && Next(s, s')
    ensures Valid(s') && Acyclic(s'.graph) && InOrder(s')
  {
    hide Acyclic, InOrder, Valid, IsCreation, IsCall, IsAddition, InTime;
    var e :| e in s'.graph &&
      (IsCreation(s, e, s') || IsCall(s, e, s') || exists l | l in s'.graph :: IsAddition(s, e, l, s') && InTime(s, e, l));
    if IsCreation(s, e, s') {
      CreationKeepsOrder(s, e, s');
    } else if IsCall(s, e, s') {
      CallLeavesGraph(s, e, s');
      CallKeepsOrder(s, e, s');
    } else {
      var l :| l in s'.graph && IsAddition(s, e, l, s') && InTime(s, e, l);
      AdditionKeepsOrder(s, e, l, s');
    }
  }

  lemma CallLeavesGraph<T>(s: Snapshot<T>, e: T, s': Snapshot<T>)
    requires IsCall(s, e, s')
    ensures s'.graph == s.graph
  {
  }

  lemma OrderGivesAgreement<T>(s: Snapshot<T>, a: T)
    requires Valid(s) && InOrder(s) && a in s.graph
    ensures AllSatisfied(s.graph, s.satisfied, a) <==> Witnesses(s.graph, s.satisfied, s.called, a) == {}
  {
    QueriesAgree(s.graph, s.satisfied, s.called, a);
  }
}
