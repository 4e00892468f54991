/**
  Expectations with prerequisites: the three worklist traversals of ExpectationBase, the
  handling of a call, and the growth of the prerequisite graph through sequences.

  The parameter nodes, ghost everywhere, is any set of expectations that holds the receiver
  and is closed under immediate prerequisites.
 */
module Expectations {
  import opened PrerequisiteGraph
  import opened ExpectationRuns

  class ExpectationBase {
    var immediatePrerequisites: set<ExpectationBase>
    var callCount: nat
    var retired: bool
    const minCalls: nat
    const maxCalls: nat
    const retiresOnSaturation: bool

    /** The cardinality Between(min, max), with the bounds forced into range. */
    constructor (min: int, max: int, retiresOnSaturation: bool)
      ensures callCount == 0 && !retired && immediatePrerequisites == {}
      ensures this.retiresOnSaturation == retiresOnSaturation
      ensures minCalls == if min >= 0 then min else 0
      ensures maxCalls == if max >= minCalls then max else minCalls
    {
      var lo := if min >= 0 then min else 0;
      this.minCalls := lo;
      this.maxCalls := if max >= lo then max else lo;
      this.retiresOnSaturation := retiresOnSaturation;
      immediatePrerequisites := {};
      callCount := 0;
      retired := false;
    }

    predicate IsSatisfied()
      reads this
    {
      minCalls <= callCount <= maxCalls
    }

    predicate IsSaturated()
      reads this
    {
      callCount >= maxCalls
    }

    /** Retires the prerequisites that are reached through unretired ones; these are all, when
        nothing is retired before its prerequisites. */
    method RetireAllPreRequisites(ghost nodes: set<ExpectationBase>)
      requires this in nodes && Closed(GraphOf(nodes))
      modifies nodes`retired
      ensures Retired(nodes) == AfterRetiring(GraphOf(nodes), old(Retired(nodes)), this)
      ensures old(RetiredDownward(GraphOf(nodes), Retired(nodes))) ==>
        RetiredDownward(GraphOf(nodes), Retired(nodes)) &&
        Retired(nodes) == old(Retired(nodes)) + Below(GraphOf(nodes), this)
      ensures GraphOf(nodes) == old(GraphOf(nodes))
      ensures Satisfied(nodes) == old(Satisfied(nodes)) && Called(nodes) == old(Called(nodes))
    {
      hide Owed, Reaches, Path, RetiredDownward;
      ghost var g := GraphOf(nodes);
      ghost var retired0 := Retired(nodes);
      if RetiredDownward(g, retired0) {
        RetiringReachesAll(g, retired0, this);
      }
      if retired {
        return;
      }
      ghost var h := Pruned(g, retired0, this);
      assert Closed(h) && h.Keys == g.Keys && forall x | x in g && (x == this || x !in retired0) :: h[x] == g[x];
      hide Pruned;
      OwedAtStart(h, retired0, this, [this]);
      var expectations: seq<ExpectationBase> := [this];
      while expectations != []
        invariant GraphOf(nodes) == g
        invariant Satisfied(nodes) == old(Satisfied(nodes)) && Called(nodes) == old(Called(nodes))
        invariant forall x | x in expectations :: x in nodes && h[x] == g[x] && (x == this || Reaches(h, this, x))
        invariant retired0 <= Retired(nodes) <= retired0 + Below(h, this)
        invariant Owed(h, Retired(nodes), this, expectations, {})
        decreases nodes - Retired(nodes), |expectations|
      {
        var exp := expectations[|expectations| - 1];
        ghost var stack0, retired1 := expectations, Retired(nodes);
        expectations := expectations[..|expectations| - 1];
        assert stack0 == expectations + [exp];
        var rest := exp.immediatePrerequisites;
        OwedAfterPop(h, retired1, this, expectations, exp);
        while rest != {}
          invariant GraphOf(nodes) == g && rest <= g[exp]
          invariant Satisfied(nodes) == old(Satisfied(nodes)) && Called(nodes) == old(Called(nodes))
          invariant forall x | x in expectations :: x in nodes && h[x] == g[x] && (x == this || Reaches(h, this, x))
          invariant retired0 <= retired1 <= Retired(nodes) <= retired0 + Below(h, this)
          invariant Owed(h, Retired(nodes), this, expectations, {exp}) && g[exp] <= Retired(nodes) + rest
          invariant Retired(nodes) == retired1 ==> |expectations| < |stack0|
        {
          var next :| next in rest;
          ghost var retired2 := Retired(nodes);
          OwedAfterVisit(h, retired2, this, expectations, exp, next);
          StepBelow(h, this, exp, next);
          if !next.retired {
            next.Retire(nodes);
            expectations := expectations + [next];
          }
          assert Retired(nodes) == retired2 + {next};
          rest := rest - {next};
        }
        OwedAfterAll(h, Retired(nodes), this, expectations, exp);
      }
      NothingOwed(h, Retired(nodes), this);
    }

    method Retire(ghost nodes: set<ExpectationBase>)
      requires this in nodes
      modifies this`retired
      ensures Retired(nodes) == old(Retired(nodes)) + {this}
      ensures GraphOf(nodes) == old(GraphOf(nodes))
      ensures Satisfied(nodes) == old(Satisfied(nodes)) && Called(nodes) == old(Called(nodes))
    {
      retired := true;
    }

    method IncrementCallCount(ghost nodes: set<ExpectationBase>)
      requires this in nodes
      modifies this`callCount
      ensures callCount == old(callCount) + 1
      ensures Called(nodes) == old(Called(nodes)) + {this}
      ensures Satisfied(nodes) - {this} == old(Satisfied(nodes)) - {this}
      ensures GraphOf(nodes) == old(GraphOf(nodes)) && Retired(nodes) == old(Retired(nodes))
    {
      callCount := callCount + 1;
    }

    /** True if and only if all transitive prerequisites are satisfied. */
    method AllPrerequisitesAreSatisfied(ghost nodes: set<ExpectationBase>) returns (all: bool)
      requires this in nodes && Closed(GraphOf(nodes)) && Acyclic(GraphOf(nodes))
      ensures all <==> AllSatisfied(GraphOf(nodes), Satisfied(nodes), this)
    {
      hide Covered, StackWeight, Reaches, Path;
      ghost var g, sat := GraphOf(nodes), Satisfied(nodes);
      var expectations: seq<ExpectationBase> := [this];
      CoveredAtStart(g, Below(g, this), sat, this);
      while expectations != []
        invariant forall x | x in expectations :: x in nodes && (x == this || Reaches(g, this, x))
        invariant Covered(g, Below(g, this), sat, expectations, {})
        decreases StackWeight(g, expectations)
      {
        var exp := expectations[|expectations| - 1];
        ghost var stack0 := expectations;
        expectations := expectations[..|expectations| - 1];
        assert stack0 == expectations + [exp];
        StackWeightPush(g, expectations, exp);
        CoveredAfterPop(g, Below(g, this), sat, expectations, exp);
        var rest := exp.immediatePrerequisites;
        while rest != {}
          invariant rest <= g[exp]
          invariant forall x | x in expectations :: x in nodes && (x == this || Reaches(g, this, x))
          invariant Covered(g, Below(g, this), sat, expectations, rest)
          invariant StackWeight(g, expectations) + SumWeights(g, exp, rest) < StackWeight(g, stack0)
        {
          var next :| next in rest;
          StepBelow(g, this, exp, next);
          if !next.IsSatisfied() {
            assert next in Below(g, this);
            return false;
          }
          SumWeightsRemove(g, exp, rest, next);
          StackWeightPush(g, expectations, next);
          CoveredAfterPush(g, Below(g, this), sat, expectations, rest, next);
          expectations := expectations + [next];
          rest := rest - {next};
        }
      }
      CoveredAtEnd(g, Below(g, this), sat);
      return true;
    }

    /** Adds to result the unsatisfied prerequisites met when looking only through satisfied
        prerequisites with call count 0. */
    method FindUnsatisfiedPrerequisites(result0: set<ExpectationBase>, ghost nodes: set<ExpectationBase>)
      returns (result: set<ExpectationBase>)
      requires this in nodes && Closed(GraphOf(nodes)) && Acyclic(GraphOf(nodes))
      ensures result == result0 + Witnesses(GraphOf(nodes), Satisfied(nodes), Called(nodes), this)
    {
      hide Covered, StackWeight, Reaches, Path;
      ghost var g := GraphOf(nodes);
      ghost var h := Transparent(g, Satisfied(nodes), Called(nodes), this);
      ghost var all := Witnesses(g, Satisfied(nodes), Called(nodes), this);
      result := result0;
      var expectations: seq<ExpectationBase> := [this];
      CoveredAtStart(h, all, result, this);
      while expectations != []
        invariant forall x | x in expectations :: x in nodes && h[x] == g[x] && (x == this || Reaches(h, this, x))
        invariant result0 <= result <= result0 + all
        invariant Covered(h, all, result, expectations, {})
        decreases StackWeight(g, expectations)
      {
        var exp := expectations[|expectations| - 1];
        ghost var stack0 := expectations;
        expectations := expectations[..|expectations| - 1];
        assert stack0 == expectations + [exp];
        StackWeightPush(g, expectations, exp);
        CoveredAfterPop(h, all, result, expectations, exp);
        var rest := exp.immediatePrerequisites;
        while rest != {}
          invariant rest <= g[exp]
          invariant forall x | x in expectations :: x in nodes && h[x] == g[x] && (x == this || Reaches(h, this, x))
          invariant result0 <= result <= result0 + all
          invariant Covered(h, all, result, expectations, rest)
          invariant StackWeight(g, expectations) + SumWeights(g, exp, rest) < StackWeight(g, stack0)
        {
          var next :| next in rest;
          StepBelow(h, this, exp, next);
          TransparentReaches(g, Satisfied(nodes), Called(nodes), this, this, next);
          SumWeightsRemove(g, exp, rest, next);
          if next.IsSatisfied() {
            if next.callCount == 0 {
              StackWeightPush(g, expectations, next);
              CoveredAfterPush(h, all, result, expectations, rest, next);
              expectations := expectations + [next];
            } else {
              CoveredAfterSkip(h, all, result, expectations, rest, next);
            }
          } else {
            CoveredAfterFind(h, all, result, expectations, rest, next);
            result := result + {next};
          }
          rest := rest - {next};
        }
      }
      CoveredAtEnd(h, all, result);
    }

    /** Whether this expectation takes the next call that matches its arguments, and the
        bookkeeping it then does. */
    method HandleCall(ghost nodes: set<ExpectationBase>) returns (handled: bool, excess: bool)
      requires this in nodes && Closed(GraphOf(nodes)) && Acyclic(GraphOf(nodes))
      modifies nodes`retired, this`callCount
      ensures IsCall(old(View(nodes)), this, View(nodes))
      ensures old(InOrder(View(nodes))) ==> InOrder(View(nodes))
      ensures handled <==> !old(retired) && old(AllSatisfied(GraphOf(nodes), Satisfied(nodes), this))
      ensures excess <==> handled && old(callCount) >= maxCalls
      ensures callCount == old(callCount) + if handled then 1 else 0
      ensures Retired(nodes) ==
                (if handled && old(callCount) < maxCalls then AfterRetiring(GraphOf(nodes), old(Retired(nodes)), this)
                 else old(Retired(nodes))) +
                (if handled && retiresOnSaturation && callCount == maxCalls then {this} else {})
    {
      hide AfterRetiring, InOrder, AllSatisfied, RetiredDownward, Acyclic;
      ghost var before := View(nodes);
      if retired {
        return false, false;
      }
      handled := AllPrerequisitesAreSatisfied(nodes);
      if !handled {
        return false, false;
      }
      excess := IsSaturated();
      IncrementCallCount(nodes);
      if !excess {
        RetireAllPreRequisites(nodes);
        if retiresOnSaturation && IsSaturated() {
          Retire(nodes);
        }
      }
      if InOrder(before) {
        CallKeepsOrder(before, this, View(nodes));
      }
    }

    /** What n calls of a new expectation do, when its prerequisites are satisfied. All calls
        after the first maxCalls are excess calls; but with retirement on saturation, and unless
        no call is allowed at all, they are refused. */
    method TakeCalls(n: nat, ghost nodes: set<ExpectationBase>) returns (handled: seq<bool>, excess: seq<bool>)
      requires this in nodes && Closed(GraphOf(nodes)) && Acyclic(GraphOf(nodes))
      requires callCount == 0 && !retired && AllSatisfied(GraphOf(nodes), Satisfied(nodes), this)
      modifies nodes`retired, this`callCount
      ensures |handled| == |excess| == n
      ensures var retires := retiresOnSaturation && maxCalls > 0;
        && (forall i :: 0 <= i < n ==> (handled[i] <==> i < maxCalls || !retires))
        && (forall i :: 0 <= i < n ==> (excess[i] <==> i >= maxCalls && !retires))
        && (retired <==> retires && n >= maxCalls)
        && callCount == (if retires && n > maxCalls then maxCalls else n)
        && (this in Satisfied(nodes) <==> minCalls <= callCount && (n <= maxCalls || retires))
      ensures Retired(nodes) - {this} ==
        if n > 0 && maxCalls > 0 then AfterRetiring(GraphOf(nodes), old(Retired(nodes)), this) - {this}
        else old(Retired(nodes)) - {this}
    {
      hide AfterRetiring, AllSatisfied, Acyclic, InOrder, IsCall, RetiredDownward;
      ghost var g, sat, before := GraphOf(nodes), Satisfied(nodes), Retired(nodes);
      ghost var retires := retiresOnSaturation && maxCalls > 0;
      handled, excess := [], [];
      for i := 0 to n
        invariant |handled| == |excess| == i && GraphOf(nodes) == g
        invariant forall k :: 0 <= k < i ==> (handled[k] <==> k < maxCalls || !retires)
        invariant forall k :: 0 <= k < i ==> (excess[k] <==> k >= maxCalls && !retires)
        invariant retired <==> retires && i >= maxCalls
        invariant callCount == if retires && i > maxCalls then maxCalls else i
        invariant Satisfied(nodes) - {this} == sat - {this}
        invariant Retired(nodes) - {this} ==
          if i > 0 && maxCalls > 0 then AfterRetiring(g, before, this) - {this} else before - {this}
        invariant this !in before && (i == 0 ==> Retired(nodes) == before)
      {
        ghost var retired0 := Retired(nodes);
        OthersDecide(g, sat, Satisfied(nodes), this);
        if !retired {
          NotItsOwnPrerequisite(g, retired0, this);
          if i > 0 && maxCalls > 0 {
            RetiringAgain(g, before, retired0, this);
          }
        }
        var h, e := HandleCall(nodes);
        assert retired <==> this in Retired(nodes);
        handled, excess := handled + [h], excess + [e];
      }
    }
  }

  /** Whether the prerequisites of a are satisfied does not depend on a. */
  lemma OthersDecide<T>(g: Graph<T>, sat: set<T>, sat': set<T>, a: T)
    requires Acyclic(g) && a in g && sat - {a} == sat' - {a}
    ensures AllSatisfied(g, sat, a) <==> AllSatisfied(g, sat', a)
  {
    assert a !in Below(g, a);
    assert Below(g, a) <= sat <==> Below(g, a) <= sat - {a};
    assert Below(g, a) <= sat' <==> Below(g, a) <= sat' - {a};
  }

  /** Retiring the prerequisites of a once more retires nothing. */
  lemma RetiringAgain<T>(g: Graph<T>, before: set<T>, retired: set<T>, a: T)
    requires Closed(g) && Acyclic(g) && a in g && a !in before && a !in retired
    requires retired - {a} == AfterRetiring(g, before, a) - {a}
    ensures AfterRetiring(g, retired, a) == retired
  {
    forall b | b in before ensures b in retired {
      assert b in AfterRetiring(g, before, a) - {a};
    }
    forall b | b in Below(Pruned(g, retired, a), a) ensures b in retired {
      PrunedFurther(g, before, retired, a, b);
      assert b in AfterRetiring(g, before, a) - {a};
    }
  }

  lemma NotItsOwnPrerequisite<T>(g: Graph<T>, retired: set<T>, a: T)
    requires Acyclic(g) && a in g && a !in retired
    ensures a !in AfterRetiring(g, retired, a)
  {
    if a in Below(Pruned(g, retired, a), a) {
      PrunedFurther(g, retired, retired, a, a);
    }
  }

  lemma PrunedFurther<T>(g: Graph<T>, before: set<T>, retired: set<T>, a: T, b: T)
    requires Acyclic(g) && a in g && a !in before && before <= retired
    requires b in g && Reaches(Pruned(g, retired, a), a, b)
    ensures b in Below(Pruned(g, before, a), a) && b != a
  {
    var k: nat :| Path(Pruned(g, retired, a), a, b, k);
    PrunedPathInLarger(g, before, retired, a, a, b, k);
    PrunedPathIsPath(g, retired, a, a, b, k);
    assert Reaches(g, a, b);
  }

  lemma {:induction false} PrunedPathInLarger<T>(g: Graph<T>, before: set<T>, retired: set<T>, a: T, x: T, b: T, k: nat)
    requires before <= retired && Path(Pruned(g, retired, a), x, b, k)
    ensures Path(Pruned(g, before, a), x, b, k)
  {
    if k > 0 {
      var y :| y in Pruned(g, retired, a)[x] && Path(Pruned(g, retired, a), y, b, k - 1);
      PrunedPathInLarger(g, before, retired, a, y, b, k - 1);
      assert y in Pruned(g, before, a)[x];
    }
  }

  ghost function GraphOf(nodes: set<ExpectationBase>): Graph<ExpectationBase>
    reads nodes
  {
    map n | n in nodes :: n.immediatePrerequisites
  }

  ghost function Satisfied(nodes: set<ExpectationBase>): set<ExpectationBase>
    reads nodes
  {
    set n | n in nodes && n.minCalls <= n.callCount <= n.maxCalls
  }

  ghost function Called(nodes: set<ExpectationBase>): set<ExpectationBase>
    reads nodes
  {
    set n | n in nodes && n.callCount > 0
  }

  ghost function Retired(nodes: set<ExpectationBase>): set<ExpectationBase>
    reads nodes
  {
    set n | n in nodes && n.retired
  }

  ghost function View(nodes: set<ExpectationBase>): Snapshot<ExpectationBase>
    reads nodes
  {
    Snapshot(GraphOf(nodes), Satisfied(nodes), Called(nodes), Retired(nodes))
  }

  lemma StepBelow<T>(g: Graph<T>, a: T, x: T, y: T)
    requires a in g && x in g && y in g[x] && (x == a || Reaches(g, a, x))
    ensures Reaches(g, a, y)
  {
    ReachesFirstStep(g, x, y);
    if x != a {
      ReachesTransitive(g, a, x, y);
    }
  }

  /** Expectations that have not been called are in order. */
  lemma FreshNodesAreInOrder(nodes: set<ExpectationBase>)
    requires forall n | n in nodes :: n.callCount == 0 && !n.retired
    ensures InOrder(View(nodes))
  {
  }

  /** A newly constructed expectation joins the others in a creation step. */
  lemma NewExpectationJoins(nodes: set<ExpectationBase>, e: ExpectationBase)
    requires e !in nodes && e.callCount == 0 && !e.retired && e.immediatePrerequisites == {}
    ensures IsCreation(View(nodes), e, View(nodes + {e}))
  {
  }

  // ---------------------------------------------------------------------------
  // Sequences
  // ---------------------------------------------------------------------------

  class Sequence {
    var lastExpectation: ExpectationBase?

    constructor ()
      ensures lastExpectation == null
    {
      lastExpectation := null;
    }

    /** Makes the last expectation of the sequence a prerequisite of e, and e the last one. */
    method AddExpectation(e: ExpectationBase, ghost nodes: set<ExpectationBase>)
      requires e in nodes && (lastExpectation != null ==> lastExpectation in nodes)
      requires Closed(GraphOf(nodes)) && Acyclic(GraphOf(nodes))
      modifies this, e`immediatePrerequisites
      ensures lastExpectation == e
      ensures if old(lastExpectation) == null || old(lastExpectation) == e then View(nodes) == old(View(nodes))
              else IsAddition<ExpectationBase>(old(View(nodes)), e, old(lastExpectation), View(nodes))
      ensures Closed(GraphOf(nodes))
      ensures Acyclic(GraphOf(nodes)) <==>
              old(lastExpectation) == null || old(lastExpectation) == e ||
              !Reaches<ExpectationBase>(old(GraphOf(nodes)), old(lastExpectation), e)
      // a prerequisite that does not come in time breaks the order, and only such a one
      ensures old(InOrder(View(nodes))) ==>
              (Acyclic(GraphOf(nodes)) && InOrder(View(nodes)) <==>
               old(lastExpectation) == null || old(lastExpectation) == e ||
               InTime<ExpectationBase>(old(View(nodes)), e, old(lastExpectation)))
    {
      hide Acyclic, InOrder, InTime, Reaches;
      ghost var before := View(nodes);
      if lastExpectation != e {
        if lastExpectation != null {
          EdgeKeepsAcyclic<ExpectationBase>(GraphOf(nodes), e, lastExpectation);
          e.immediatePrerequisites := e.immediatePrerequisites + {lastExpectation};
          if InOrder(before) {
            AdditionKeepsOrder<ExpectationBase>(before, e, lastExpectation, View(nodes));
          }
        }
        lastExpectation := e;
      }
      assert lastExpectation == e;
    }
  }

  /** A run on which the queries disagree: a takes a call, and only then is b made its
      prerequisite, and a that of c. */
  method DisagreeingRun() returns (c: ExpectationBase, all: bool, unsatisfied: set<ExpectationBase>)
    ensures !all && unsatisfied == {}
  {
    var a, b, third, nodes := CallBeforeSequences();
    c := third;
    hide Acyclic, AllSatisfied, Witnesses;
    CalledTooEarly(GraphOf(nodes), Satisfied(nodes), Called(nodes), a, b, c);
    all := c.AllPrerequisitesAreSatisfied(nodes);
    unsatisfied := c.FindUnsatisfiedPrerequisites({}, nodes);
  }

  method CallBeforeSequences()
    returns (a: ExpectationBase, b: ExpectationBase, c: ExpectationBase, ghost nodes: set<ExpectationBase>)
    ensures a != c && nodes == {a, b, c} && Closed(GraphOf(nodes)) && Acyclic(GraphOf(nodes))
    ensures c.immediatePrerequisites == {a} && a.immediatePrerequisites == {b}
    ensures a.IsSatisfied() && a.callCount == 1 && !b.IsSatisfied()
  {
    hide Acyclic, AllSatisfied, InOrder, IsCall, AfterRetiring;
    a := new ExpectationBase(1, 1, false);
    b := new ExpectationBase(1, 1, false);
    c := new ExpectationBase(1, 1, false);
    nodes := {a, b, c};
    NoPrerequisites(nodes);
    ghost var g := GraphOf(nodes);
    var handled, _ := a.HandleCall(nodes);
    assert handled && GraphOf(nodes) == g;
    TwoInSequence(b, a, nodes);
    TwoInSequence(a, c, nodes);
  }

  /** A sequence of two expectations, the second of which is nobody's prerequisite yet. */
  method TwoInSequence(x: ExpectationBase, y: ExpectationBase, ghost nodes: set<ExpectationBase>)
    requires x in nodes && y in nodes && x != y
    requires Closed(GraphOf(nodes)) && Acyclic(GraphOf(nodes))
    requires forall n | n in nodes :: y !in n.immediatePrerequisites
    modifies nodes`immediatePrerequisites
    ensures forall n | n in nodes ::
      n.immediatePrerequisites == old(n.immediatePrerequisites) + if n == y then {x} else {}
    ensures Closed(GraphOf(nodes)) && Acyclic(GraphOf(nodes))
  {
    hide Acyclic, Reaches, InOrder, InTime;
    NewExpectationIsUnreachable(GraphOf(nodes), x, y);
    var sequence := new Sequence();
    sequence.AddExpectation(x, nodes);
    sequence.AddExpectation(y, nodes);
    assert forall n | n in nodes :: n.immediatePrerequisites == GraphOf(nodes)[n];
  }

  lemma NoPrerequisites(nodes: set<ExpectationBase>)
    requires forall n | n in nodes :: n.immediatePrerequisites == {}
    ensures Closed(GraphOf(nodes)) && Acyclic(GraphOf(nodes))
    ensures forall n | n in nodes :: AllSatisfied(GraphOf(nodes), Satisfied(nodes), n)
  {
    forall n, b | n in nodes ensures !Reaches(GraphOf(nodes), n, b) {
      ReachesFirstStep(GraphOf(nodes), n, b);
    }
  }

  /** c needs a, and a, which is satisfied and was called, needs b, which is not satisfied. */
  lemma CalledTooEarly<T>(g: Graph<T>, sat: set<T>, called: set<T>, a: T, b: T, c: T)
    requires a in g && b in g && c in g && a != c
    requires g[c] == {a} && g[a] == {b} && a in sat && a in called && b !in sat
    ensures !AllSatisfied(g, sat, c) && Witnesses(g, sat, called, c) == {}
  {
    ReachesFirstStep(g, a, b);
    ReachesFirstStep(g, c, b);
    assert b in Below(g, c);
    var h := Transparent(g, sat, called, c);
    forall x | x in Below(h, c) ensures x in sat {
      ReachesFirstStep(h, c, x);
      if x != a {
        ReachesFirstStep(h, a, x);
      }
    }
  }
}
