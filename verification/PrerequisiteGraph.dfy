/**
  Finite directed graphs as maps from a node to its immediate prerequisites: paths,
  acyclicity, and the weight that bounds a traversal which keeps no visited set.
 */
module PrerequisiteGraph {

  type Graph<T> = map<T, set<T>>

  ghost predicate Closed<T>(g: Graph<T>) {
    forall n | n in g :: g[n] <= g.Keys
  }

  /** A path of k + 1 edges from a to b. */
  ghost predicate Path<T>(g: Graph<T>, a: T, b: T, k: nat) {
    a in g && if k == 0 then b in g[a] else exists x | x in g[a] :: Path(g, x, b, k - 1)
  }

  /** b is a transitive prerequisite of a. */
  ghost predicate Reaches<T>(g: Graph<T>, a: T, b: T) {
    exists k: nat :: Path(g, a, b, k)
  }

  ghost predicate Acyclic<T>(g: Graph<T>) {
    forall n | n in g :: !Reaches(g, n, n)
  }

  /** All transitive prerequisites of a. */
  ghost function Below<T>(g: Graph<T>, a: T): set<T> {
    set b | b in g && Reaches(g, a, b)
  }

  lemma {:induction false} PathsJoin<T>(g: Graph<T>, a: T, b: T, c: T, j: nat, k: nat)
    requires Path(g, a, b, j) && Path(g, b, c, k)
    ensures Path(g, a, c, j + k + 1)
  {
    if j > 0 {
      var x :| x in g[a] && Path(g, x, b, j - 1);
      PathsJoin(g, x, b, c, j - 1, k);
    } else {
      assert b in g[a];
    }
  }

  lemma ReachesTransitive<T>(g: Graph<T>, a: T, b: T, c: T)
    requires Reaches(g, a, b) && Reaches(g, b, c)
    ensures Reaches(g, a, c)
  {
    var j: nat :| Path(g, a, b, j);
    var k: nat :| Path(g, b, c, k);
    PathsJoin(g, a, b, c, j, k);
  }

  lemma {:induction false} PathEndsInside<T>(g: Graph<T>, a: T, b: T, k: nat)
    requires Closed(g) && Path(g, a, b, k)
    ensures b in g
  {
    if k > 0 {
      var x :| x in g[a] && Path(g, x, b, k - 1);
      PathEndsInside(g, x, b, k - 1);
    }
  }

  /** One step, or one step followed by a path. */
  lemma ReachesFirstStep<T>(g: Graph<T>, a: T, b: T)
    requires a in g
    ensures Reaches(g, a, b) <==> b in g[a] || exists x | x in g[a] :: Reaches(g, x, b)
  {
    if b in g[a] {
      assert Path(g, a, b, 0);
    }
    if x :| x in g[a] && Reaches(g, x, b) {
      var k: nat :| Path(g, x, b, k);
      assert Path(g, a, b, k + 1);
    }
    if Reaches(g, a, b) {
      var k: nat :| Path(g, a, b, k);
      if k > 0 {
        var x :| x in g[a] && Path(g, x, b, k - 1);
      }
    }
  }

  /** A set that holds the prerequisites of a and those of its own members holds all that a reaches. */
  lemma {:induction false} ClosedSetHoldsPath<T>(g: Graph<T>, a: T, b: T, k: nat, s: set<T>)
    requires Path(g, a, b, k) && g[a] <= s
    requires forall n | n in s && n in g :: g[n] <= s
    ensures b in s
  {
    if k > 0 {
      var x :| x in g[a] && Path(g, x, b, k - 1);
      ClosedSetHoldsPath(g, x, b, k - 1, s);
    }
  }

  lemma BelowShrinks<T>(g: Graph<T>, a: T, x: T)
    requires Closed(g) && Acyclic(g) && a in g && x in g[a]
    ensures Below(g, x) < Below(g, a)
  {
    ReachesFirstStep(g, a, x);
    forall b | b in Below(g, x) ensures b in Below(g, a) {
      ReachesTransitive(g, a, x, b);
    }
    assert x in Below(g, a) && x !in Below(g, x);
  }

  // ---------------------------------------------------------------------------
  // Traversal weight
  // ---------------------------------------------------------------------------

  /** The number of paths that start at a, the empty one included. */
  ghost function Weight<T>(g: Graph<T>, a: T): nat
    requires Closed(g) && Acyclic(g) && a in g
    decreases Below(g, a), 1
  {
    1 + SumWeights(g, a, g[a])
  }

  ghost function SumWeights<T>(g: Graph<T>, a: T, s: set<T>): nat
    requires Closed(g) && Acyclic(g) && a in g && s <= g[a]
    decreases Below(g, a), 0, s
  {
    if s == {} then 0 else
      var x :| x in s;
      BelowShrinks(g, a, x);
      Weight(g, x) + SumWeights(g, a, s - {x})
  }

  lemma {:induction false} SumWeightsRemove<T>(g: Graph<T>, a: T, s: set<T>, y: T)
    requires Closed(g) && Acyclic(g) && a in g && s <= g[a] && y in s
    ensures SumWeights(g, a, s) == Weight(g, y) + SumWeights(g, a, s - {y})
    decreases s
  {
    var x :| x in s && SumWeights(g, a, s) == Weight(g, x) + SumWeights(g, a, s - {x});
    if x != y {
      SumWeightsRemove(g, a, s - {x}, y);
      SumWeightsRemove(g, a, s - {y}, x);
      assert s - {x} - {y} == s - {y} - {x};
    }
  }

  ghost function StackWeight<T>(g: Graph<T>, stack: seq<T>): nat
    requires Closed(g) && Acyclic(g)
    requires forall x | x in stack :: x in g
  {
    if stack == [] then 0 else
      StackWeight(g, stack[..|stack| - 1]) + Weight(g, stack[|stack| - 1])
  }

  lemma StackWeightPush<T>(g: Graph<T>, stack: seq<T>, x: T)
    requires Closed(g) && Acyclic(g) && x in g
    requires forall y | y in stack :: y in g
    ensures StackWeight(g, stack + [x]) == StackWeight(g, stack) + Weight(g, x)
  {
    assert (stack + [x])[..|stack|] == stack;
  }

  // ---------------------------------------------------------------------------
  // What a worklist still leads to
  // ---------------------------------------------------------------------------

  /** n is still ahead of the worklist: below something stacked, or among or below rest. */
  ghost predicate Ahead<T>(g: Graph<T>, stack: seq<T>, rest: set<T>, n: T) {
    || (exists x | x in stack :: Reaches(g, x, n))
    || n in rest
    || (exists x | x in rest :: Reaches(g, x, n))
  }

  /** Every target is done or still ahead. */
  ghost predicate Covered<T>(g: Graph<T>, targets: set<T>, done: set<T>, stack: seq<T>, rest: set<T>) {
    forall n | n in targets && n !in done :: Ahead(g, stack, rest, n)
  }

  lemma CoveredAtStart<T>(g: Graph<T>, targets: set<T>, done: set<T>, a: T)
    requires targets <= Below(g, a)
    ensures Covered(g, targets, done, [a], {})
  {
    assert a in [a];
  }

  lemma CoveredAtEnd<T>(g: Graph<T>, targets: set<T>, done: set<T>)
    requires Covered(g, targets, done, [], {})
    ensures targets <= done
  {
  }

  lemma CoveredAfterPop<T>(g: Graph<T>, targets: set<T>, done: set<T>, stack: seq<T>, x: T)
    requires x in g && Covered(g, targets, done, stack + [x], {})
    ensures Covered(g, targets, done, stack, g[x])
  {
    forall n | n in targets && n !in done ensures Ahead(g, stack, g[x], n) {
      ReachesFirstStep(g, x, n);
    }
  }

  lemma CoveredAfterPush<T>(g: Graph<T>, targets: set<T>, done: set<T>, stack: seq<T>, rest: set<T>, y: T)
    requires y in rest && Covered(g, targets, done, stack, rest) && (y in targets ==> y in done)
    ensures Covered(g, targets, done, stack + [y], rest - {y})
  {
    forall n | n in targets && n !in done ensures Ahead(g, stack + [y], rest - {y}, n) {
      if x :| x in stack && Reaches(g, x, n) {
        assert x in stack + [y];
      } else if x :| x in rest && Reaches(g, x, n) {
        assert x == y ==> y in stack + [y];
      }
    }
  }

  lemma CoveredAfterFind<T>(g: Graph<T>, targets: set<T>, done: set<T>, stack: seq<T>, rest: set<T>, y: T)
    requires y in rest && y in g && g[y] == {} && Covered(g, targets, done, stack, rest)
    ensures Covered(g, targets, done + {y}, stack, rest - {y})
  {
    CoveredAfterSkip(g, targets, done + {y}, stack, rest, y);
  }

  lemma CoveredAfterSkip<T>(g: Graph<T>, targets: set<T>, done: set<T>, stack: seq<T>, rest: set<T>, y: T)
    requires y in rest && y in g && g[y] == {}
    requires Covered(g, targets, done, stack, rest) && (y in targets ==> y in done)
    ensures Covered(g, targets, done, stack, rest - {y})
  {
    forall n | n in targets && n !in done ensures Ahead(g, stack, rest - {y}, n) {
      ReachesFirstStep(g, y, n);
    }
  }

  // ---------------------------------------------------------------------------
  // What the retiring worklist still owes
  // ---------------------------------------------------------------------------

  /** A node with prerequisites that are not retired is neither retired nor a, or is stacked,
      or is exempt. */
  ghost predicate Owed<T>(g: Graph<T>, retired: set<T>, a: T, stack: seq<T>, exempt: set<T>) {
    forall n | n in g && (n in retired || n == a) && n !in stack && n !in exempt :: g[n] <= retired
  }

  lemma OwedAtStart<T>(g: Graph<T>, retired: set<T>, a: T, stack: seq<T>)
    requires forall n | n in retired && n in g :: g[n] <= retired
    requires a in retired || a in stack
    ensures Owed(g, retired, a, stack, {})
  {
  }

  lemma OwedAfterAll<T>(g: Graph<T>, retired: set<T>, a: T, stack: seq<T>, exp: T)
    requires Owed(g, retired, a, stack, {exp}) && exp in g && g[exp] <= retired
    ensures Owed(g, retired, a, stack, {})
  {
  }

  lemma OwedAfterPop<T>(g: Graph<T>, retired: set<T>, a: T, stack: seq<T>, exp: T)
    requires Owed(g, retired, a, stack + [exp], {})
    ensures Owed(g, retired, a, stack, {exp})
  {
  }

  lemma OwedAfterVisit<T>(g: Graph<T>, retired: set<T>, a: T, stack: seq<T>, exp: T, y: T)
    requires Owed(g, retired, a, stack, {exp})
    ensures Owed(g, retired + {y}, a, if y in retired then stack else stack + [y], {exp})
  {
  }

  lemma NothingOwed<T>(g: Graph<T>, retired: set<T>, a: T)
    requires Closed(g) && a in g && Owed(g, retired, a, [], {})
    ensures Below(g, a) <= retired
    ensures forall n | n in g && n in retired :: g[n] <= retired
  {
    forall b | b in Below(g, a) ensures b in retired {
      var k: nat :| Path(g, a, b, k);
      ClosedSetHoldsPath(g, a, b, k, retired);
    }
  }

  // ---------------------------------------------------------------------------
  // Adding one edge
  // ---------------------------------------------------------------------------

  ghost function WithEdge<T>(g: Graph<T>, e: T, l: T): Graph<T>
    requires e in g
  {
    g[e := g[e] + {l}]
  }

  lemma {:induction false} PathKept<T>(g: Graph<T>, e: T, l: T, a: T, b: T, k: nat)
    requires e in g && Path(g, a, b, k)
    ensures Path(WithEdge(g, e, l), a, b, k)
  {
    if k > 0 {
      var x :| x in g[a] && Path(g, x, b, k - 1);
      PathKept(g, e, l, x, b, k - 1);
      assert x in WithEdge(g, e, l)[a];
    }
  }

  lemma {:induction false} NewPathSplits<T>(g: Graph<T>, e: T, l: T, a: T, b: T, k: nat)
    requires Closed(g) && e in g && l in g && Path(WithEdge(g, e, l), a, b, k)
    ensures Reaches(g, a, b) || ((a == e || Reaches(g, a, e)) && (b == l || Reaches(g, l, b)))
  {
    var g' := WithEdge(g, e, l);
    if k == 0 {
      ReachesFirstStep(g, a, b);
    } else {
      var x :| x in g'[a] && Path(g', x, b, k - 1);
      NewPathSplits(g, e, l, x, b, k - 1);
      if x in g[a] {
        ReachesFirstStep(g, a, b);
        ReachesFirstStep(g, a, e);
      }
    }
  }

  /** The edge from e to l closes a cycle exactly when l is e or already leads to e. */
  lemma EdgeKeepsAcyclic<T>(g: Graph<T>, e: T, l: T)
    requires Closed(g) && Acyclic(g) && e in g && l in g
    ensures Acyclic(WithEdge(g, e, l)) <==> l != e && !Reaches(g, l, e)
  {
    var g' := WithEdge(g, e, l);
    if !Acyclic(g') {
      var n :| n in g' && Reaches(g', n, n);
      var k: nat :| Path(g', n, n, k);
      NewPathSplits(g, e, l, n, n, k);
      if l != n && n != e {
        ReachesTransitive(g, l, n, e);
      }
    }
    if l == e || Reaches(g, l, e) {
      ReachesFirstStep(g', e, l);
      if l != e {
        var k: nat :| Path(g, l, e, k);
        PathKept(g, e, l, l, e, k);
        ReachesTransitive(g', e, l, e);
      }
    }
  }

  // ---------------------------------------------------------------------------
  // The two satisfaction queries on values
  // ---------------------------------------------------------------------------

  /** Every transitive prerequisite of a is satisfied. */
  ghost predicate AllSatisfied<T>(g: Graph<T>, sat: set<T>, a: T) {
    Below(g, a) <= sat
  }

  /** Only a itself and satisfied prerequisites that were never called are looked through. */
  ghost function Transparent<T>(g: Graph<T>, sat: set<T>, called: set<T>, a: T): Graph<T> {
    map n | n in g :: if n == a || (n in sat && n !in called) then g[n] else {}
  }

  /** The unsatisfied prerequisites of a that are reached in this way. */
  ghost function Witnesses<T>(g: Graph<T>, sat: set<T>, called: set<T>, a: T): set<T> {
    Below(Transparent(g, sat, called, a), a) - sat
  }

  /** A satisfied expectation that has been called has only satisfied prerequisites. */
  ghost predicate CalledInOrder<T>(g: Graph<T>, sat: set<T>, called: set<T>) {
    forall n | n in g && n in sat && n in called :: Below(g, n) <= sat
  }

  lemma {:induction false} TransparentPathIsPath<T>(g: Graph<T>, sat: set<T>, called: set<T>, a: T, x: T, b: T, k: nat)
    requires Path(Transparent(g, sat, called, a), x, b, k)
    ensures Path(g, x, b, k)
  {
    if k > 0 {
      var h := Transparent(g, sat, called, a);
      var y :| y in h[x] && Path(h, y, b, k - 1);
      TransparentPathIsPath(g, sat, called, a, y, b, k - 1);
      assert y in g[x];
    }
  }

  lemma TransparentReaches<T>(g: Graph<T>, sat: set<T>, called: set<T>, a: T, x: T, b: T)
    requires Reaches(Transparent(g, sat, called, a), x, b)
    ensures Reaches(g, x, b)
  {
    var k: nat :| Path(Transparent(g, sat, called, a), x, b, k);
    TransparentPathIsPath(g, sat, called, a, x, b, k);
  }

  /** What the search finds is an unsatisfied transitive prerequisite. */
  lemma FoundIsUnsatisfied<T>(g: Graph<T>, sat: set<T>, called: set<T>, a: T)
    requires a in g
    ensures Witnesses(g, sat, called, a) <= Below(g, a) - sat
  {
    hide Reaches;
    forall b | b in Witnesses(g, sat, called, a) ensures b in Below(g, a) {
      TransparentReaches(g, sat, called, a, a, b);
    }
  }

  /** Along a path to an unsatisfied node, the first unsatisfied node is a witness. */
  lemma {:induction false} WitnessOnPath<T>(g: Graph<T>, sat: set<T>, called: set<T>, a: T, x: T, b: T, k: nat) returns (w: T)
    requires Closed(g) && CalledInOrder(g, sat, called)
    requires Path(g, x, b, k) && b !in sat && (x == a || (x in sat && x !in called))
    ensures w in g && w !in sat && Reaches(Transparent(g, sat, called, a), x, w)
  {
    var h := Transparent(g, sat, called, a);
    PathEndsInside(g, x, b, k);
    if k == 0 {
      w := b;
      ReachesFirstStep(h, x, w);
    } else {
      var y :| y in g[x] && Path(g, y, b, k - 1);
      if y !in sat {
        w := y;
      } else {
        assert y in called ==> b in Below(g, y);
        w := WitnessOnPath(g, sat, called, a, y, b, k - 1);
      }
      ReachesFirstStep(h, x, w);
    }
  }

  /** The search for unsatisfied prerequisites, although it does not look through everything,
      comes back empty exactly when all prerequisites are satisfied. */
  lemma QueriesAgree<T>(g: Graph<T>, sat: set<T>, called: set<T>, a: T)
    requires Closed(g) && CalledInOrder(g, sat, called) && a in g
    ensures AllSatisfied(g, sat, a) <==> Witnesses(g, sat, called, a) == {}
  {
    FoundIsUnsatisfied(g, sat, called, a);
    if !AllSatisfied(g, sat, a) {
      var b :| b in Below(g, a) && b !in sat;
      var k: nat :| Path(g, a, b, k);
      var w := WitnessOnPath(g, sat, called, a, a, b, k);
      assert w in Witnesses(g, sat, called, a);
    }
  }

  /** A node with unsatisfied transitive prerequisites shows one of its immediate prerequisites
      to the search: an unsatisfied one, or one that was never called and has the same trouble. */
  ghost predicate TroubleShows<T>(g: Graph<T>, sat: set<T>, called: set<T>, n: T)
    requires n in g
  {
    AllSatisfied(g, sat, n) ||
    exists y | y in g[n] :: y !in sat || (y !in called && !AllSatisfied(g, sat, y))
  }

  /** Where trouble shows everywhere, the search meets an unsatisfied node. */
  lemma {:induction false} TroubleIsFound<T>(g: Graph<T>, sat: set<T>, called: set<T>, a: T, x: T) returns (w: T)
    requires Closed(g) && Acyclic(g) && x in g && !AllSatisfied(g, sat, x)
    requires x == a || (x in sat && x !in called)
    requires forall n | n in g :: TroubleShows(g, sat, called, n)
    ensures w in g && w !in sat && Reaches(Transparent(g, sat, called, a), x, w)
    decreases Below(g, x)
  {
    hide Reaches;
    assert TroubleShows(g, sat, called, x);
    var y :| y in g[x] && (y !in sat || (y !in called && !AllSatisfied(g, sat, y)));
    if y !in sat {
      w := y;
    } else {
      BelowShrinks(g, x, y);
      w := TroubleIsFound(g, sat, called, a, y);
    }
    ReachesFirstStep(Transparent(g, sat, called, a), x, w);
  }

  /** A node where the search finds something shows its trouble. */
  lemma FoundTroubleShows<T>(g: Graph<T>, sat: set<T>, called: set<T>, n: T)
    requires Closed(g) && Acyclic(g) && n in g && Witnesses(g, sat, called, n) != {}
    ensures TroubleShows(g, sat, called, n)
  {
    hide Reaches;
    var h := Transparent(g, sat, called, n);
    var w :| w in Witnesses(g, sat, called, n);
    ReachesFirstStep(h, n, w);
    if w !in g[n] {
      var y :| y in h[n] && Reaches(h, y, w);
      ReachesFirstStep(h, y, w);
      ReachesFirstStep(g, n, y);
      assert y != n;
      TransparentReaches(g, sat, called, n, y, w);
      assert w in Below(g, y);
    }
  }

  /** The two queries agree on all nodes if and only if all trouble shows one step down. */
  lemma AgreementIsExact<T>(g: Graph<T>, sat: set<T>, called: set<T>)
    requires Closed(g) && Acyclic(g)
    ensures (forall n | n in g :: TroubleShows(g, sat, called, n)) <==>
            (forall a | a in g :: AllSatisfied(g, sat, a) <==> Witnesses(g, sat, called, a) == {})
  {
    hide Reaches, Acyclic, TroubleShows;
    if forall n | n in g :: TroubleShows(g, sat, called, n) {
      forall a | a in g ensures AllSatisfied(g, sat, a) <==> Witnesses(g, sat, called, a) == {} {
        FoundIsUnsatisfied(g, sat, called, a);
        if !AllSatisfied(g, sat, a) {
          var w := TroubleIsFound(g, sat, called, a, a);
          assert w in Witnesses(g, sat, called, a);
        }
      }
    }
    if forall a | a in g :: AllSatisfied(g, sat, a) <==> Witnesses(g, sat, called, a) == {} {
      forall n | n in g ensures TroubleShows(g, sat, called, n) {
        if AllSatisfied(g, sat, n) {
          SatisfiedShows(g, sat, called, n);
        } else {
          FoundTroubleShows(g, sat, called, n);
        }
      }
    }
  }

  lemma SatisfiedShows<T>(g: Graph<T>, sat: set<T>, called: set<T>, n: T)
    requires n in g && AllSatisfied(g, sat, n)
    ensures TroubleShows(g, sat, called, n)
  {
  }
}
