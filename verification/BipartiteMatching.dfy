/**
  Maximum bipartite matching between elements (left) and matchers (right), and the
  two checks of UnorderedElementsAre that rest on it.

  The graph and the pure theory of matchings come first; MaxBipartiteMatchState is the
  mutable search state, proved to end in a matching that no other matching exceeds.
 */
module BipartiteMatching {
  import opened Common

  /** The edges between elements and matchers, as a flat vector, row after row. */
  datatype MatchMatrix = MatchMatrix(matched: seq<bool>, lhsSize: nat, rhsSize: nat) {
    ghost predicate Valid() {
      |matched| == lhsSize * rhsSize
    }

    function LhsSize(): nat { lhsSize }

    function RhsSize(): nat { rhsSize }

    function SpaceIndex(l: nat, r: nat): (i: nat)
      requires l < lhsSize && r < rhsSize
      ensures i < lhsSize * rhsSize
    {
      CellsBefore(l, r, lhsSize, rhsSize);
      l * rhsSize + r
    }

    predicate HasEdge(l: nat, r: nat)
      requires Valid() && l < LhsSize() && r < RhsSize()
    {
      matched[SpaceIndex(l, r)]
    }

    function SetEdge(l: nat, r: nat, b: bool): (g: MatchMatrix)
      requires Valid() && l < LhsSize() && r < RhsSize()
      ensures g.Valid() && g.LhsSize() == LhsSize() && g.RhsSize() == RhsSize()
    {
      this.(matched := matched[SpaceIndex(l, r) := b])
    }

    ghost predicate Edge(l: int, r: int) {
      Valid() && 0 <= l < LhsSize() && 0 <= r < RhsSize() && HasEdge(l, r)
    }
  }

  function NoEdges(lhsSize: nat, rhsSize: nat): (g: MatchMatrix)
    ensures g.Valid() && g.LhsSize() == lhsSize && g.RhsSize() == rhsSize
  {
    MatchMatrix(seq(lhsSize * rhsSize, _ => false), lhsSize, rhsSize)
  }

  lemma CellsBefore(l: nat, r: nat, lhsSize: nat, rhsSize: nat)
    requires l < lhsSize && r < rhsSize
    ensures 0 <= l * rhsSize + r < lhsSize * rhsSize
  {
    ProductAtLeast(lhsSize, rhsSize, l + 1, rhsSize);
    ProductAtLeast(l, rhsSize, 0, 0);
    assert (l + 1) * rhsSize == l * rhsSize + rhsSize;
  }

  /** Setting an edge changes that edge and no other, and a new matrix has none. */
  lemma EdgesAreSet(g: MatchMatrix, l: nat, r: nat, b: bool, l': nat, r': nat)
    requires g.Valid() && l < g.LhsSize() && r < g.RhsSize() && l' < g.LhsSize() && r' < g.RhsSize()
    ensures g.SetEdge(l, r, b).HasEdge(l', r') == if l == l' && r == r' then b else g.HasEdge(l', r')
    ensures !NoEdges(g.LhsSize(), g.RhsSize()).HasEdge(l', r')
  {
    var n := g.RhsSize();
    if l < l' {
      CellsBefore(l, r, l', n);
    } else if l' < l {
      CellsBefore(l', r', l, n);
    }
  }

  type Pair = (int, int)

  /** Stands for the size_t value -1, which is never an index. */
  const UNUSED: int := -1

  // ---------------------------------------------------------------------------
  // Matchings and the covering argument
  // ---------------------------------------------------------------------------

  /** A set of edges of which no two share an element or a matcher. */
  ghost predicate IsMatching(g: MatchMatrix, m: set<Pair>) {
    && (forall p :: p in m ==> g.Edge(p.0, p.1))
    && (forall p, q :: p in m && q in m && (p.0 == q.0 || p.1 == q.1) ==> p == q)
  }

  ghost function Lefts(m: set<Pair>): set<int> { set p | p in m :: p.0 }

  ghost function Rights(m: set<Pair>): set<int> { set p | p in m :: p.1 }

  ghost function Below(n: nat): (s: set<int>)
    ensures |s| == n
    ensures forall i :: i in s <==> 0 <= i < n
  {
    if n == 0 then {} else Below(n - 1) + {n - 1}
  }

  lemma SubMatching(g: MatchMatrix, m: set<Pair>, p: Pair)
    requires IsMatching(g, m) && p in m
    ensures IsMatching(g, m - {p})
    ensures Lefts(m) == Lefts(m - {p}) + {p.0} && p.0 !in Lefts(m - {p})
    ensures Rights(m) == Rights(m - {p}) + {p.1} && p.1 !in Rights(m - {p})
  {
  }

  lemma {:induction false} SidesHaveSameSize(g: MatchMatrix, m: set<Pair>)
    requires IsMatching(g, m)
    ensures |Lefts(m)| == |m| == |Rights(m)|
    decreases m
  {
    hide IsMatching;
    if m != {} {
      var p: Pair :| p in m;
      SubMatching(g, m, p);
      SidesHaveSameSize(g, m - {p});
    }
  }

  lemma PartOfMatching(g: MatchMatrix, m: set<Pair>, part: set<Pair>)
    requires IsMatching(g, m) && part <= m
    ensures IsMatching(g, part)
    ensures forall p :: p in part ==> g.Edge(p.0, p.1)
  {
  }

  /** Every edge touches a chosen element or a chosen matcher. */
  ghost predicate IsCover(g: MatchMatrix, elements: set<int>, matchers: set<int>) {
    forall l, r :: g.Edge(l, r) ==> l in elements || r in matchers
  }

  /** Weak duality: no matching is larger than a vertex cover. */
  lemma CoverBoundsMatching(g: MatchMatrix, m: set<Pair>, elements: set<int>, matchers: set<int>)
    requires IsMatching(g, m) && IsCover(g, elements, matchers)
    ensures |m| <= |elements| + |matchers|
  {
    hide MatchMatrix.HasEdge;
    var m1 := set p | p in m && p.0 in elements;
    var m2 := m - m1;
    PartOfMatching(g, m, m1);
    PartOfMatching(g, m, m2);
    hide IsMatching;
    SidesHaveSameSize(g, m1);
    SidesHaveSameSize(g, m2);
    SubsetSize(Lefts(m1), elements);
    SubsetSize(Rights(m2), matchers);
    assert m == m1 + m2;
  }

  lemma {:induction false} SubsetSize<T>(a: set<T>, b: set<T>)
    requires a <= b
    ensures |a| <= |b|
    ensures |a| == |b| ==> a == b
  {
    assert b == a + (b - a);
  }

  // ---------------------------------------------------------------------------
  // The search state as values
  // ---------------------------------------------------------------------------

  /** left and right refer to each other, along edges of the graph only. */
  ghost predicate Mutual(g: MatchMatrix, left: seq<int>, right: seq<int>) {
    && |left| == g.LhsSize() && |right| == g.RhsSize()
    && (forall l :: 0 <= l < |left| && left[l] != UNUSED ==>
          0 <= left[l] < |right| && right[left[l]] == l && g.Edge(l, left[l]))
    && (forall r :: 0 <= r < |right| && right[r] != UNUSED ==>
          0 <= right[r] < |left| && left[right[r]] == r)
  }

  /** right with the entry of matcher r released, when r is a matcher. */
  ghost function Released(right: seq<int>, r: int): seq<int> {
    if 0 <= r < |right| then right[r := UNUSED] else right
  }

  /** Every neighbour of element l lies in s. */
  ghost predicate NeighboursIn(g: MatchMatrix, l: int, s: set<int>) {
    forall r :: g.Edge(l, r) ==> r in s
  }

  /** Matchers that are all taken, and whose partners have no neighbour outside: a search
      that enters such a set never leaves it. */
  ghost predicate Dead(g: MatchMatrix, right: seq<int>, d: set<int>) {
    forall r :: r in d ==>
      0 <= r < |right| && right[r] != UNUSED && NeighboursIn(g, right[r], d)
  }

  ghost function Seen(seen: seq<bool>): set<int> {
    set r | 0 <= r < |seen| && seen[r]
  }

  ghost function Unseen(seen: seq<bool>): set<int> {
    set r | 0 <= r < |seen| && !seen[r]
  }

  /** The matchers seen since before are taken, and their partners lead to seen matchers only. */
  ghost predicate Explored(g: MatchMatrix, right: seq<int>, before: set<int>, after: set<int>) {
    && before <= after
    && forall r :: r in after && r !in before ==>
         0 <= r < |right| && right[r] != UNUSED && NeighboursIn(g, right[r], after)
  }

  lemma ExploredChain(g: MatchMatrix, right: seq<int>, before: set<int>, mid: set<int>, r: int, after: set<int>)
    requires Explored(g, right, before, mid) && Explored(g, right, mid + {r}, after)
    requires 0 <= r < |right| && right[r] != UNUSED && NeighboursIn(g, right[r], after)
    ensures Explored(g, right, before, after)
  {
  }

  lemma UnseenShrinks(before: seq<bool>, after: seq<bool>, r: int)
    requires |before| == |after| && Seen(before) <= Seen(after)
    requires r in Seen(after) && r !in Seen(before)
    ensures Unseen(after) < Unseen(before)
  {
    forall k | k in Unseen(after) ensures k in Unseen(before) {
      assert k !in Seen(after);
    }
    assert r in Unseen(before) && r !in Unseen(after);
  }

  /** The pairs recorded in left. */
  ghost function Pairs(left: seq<int>): (s: set<Pair>)
    ensures forall p :: p in s <==> 0 <= p.0 < |left| && left[p.0] == p.1 >= 0
  {
    if left == [] then {} else
      var n := |left| - 1;
      Pairs(left[..n]) + if left[n] >= 0 then {(n, left[n])} else {}
  }

  lemma NoPairs()
    ensures Pairs([]) == {} && Elements([]) == {}
  {
  }

  lemma NextPair(left: seq<int>, next: int)
    ensures Pairs(left + [next]) == if next >= 0 then Pairs(left) + {(|left|, next)} else Pairs(left)
    ensures (|left|, next) !in Pairs(left)
  {
    assert (left + [next])[..|left|] == left;
  }

  /** Linking element l to a released matcher r restores the mutual references, except at
      the matcher l leaves. */
  lemma LinkRestoresMutual(g: MatchMatrix, l: nat, r: nat, left: seq<int>, right: seq<int>)
    requires r < |right| && Mutual(g, left, right[r := UNUSED]) && g.Edge(l, r)
    ensures Mutual(g, left[l := r], Released(right[r := l], left[l]))
  {
    var right' := right[r := UNUSED];
    var left2, right2 := left[l := r], Released(right[r := l], left[l]);
    assert left[l] != r;
    forall k | 0 <= k < |right2| && right2[k] != UNUSED
      ensures 0 <= right2[k] < |left| && left2[right2[k]] == k
    {
      assert k != r ==> right2[k] == right'[k];
    }
    forall k | 0 <= k < |left| && left2[k] != UNUSED
      ensures 0 <= left2[k] < |right| && right2[left2[k]] == k && g.Edge(k, left2[k])
    {
      assert k != l ==> right'[left[k]] == k && (left[l] != UNUSED ==> right'[left[l]] == l);
    }
  }

  /** What one successful augmentation from element l does: l becomes matched, nobody is
      released, and only partners of matchers outside seen and dead move. */
  ghost predicate Augmented(g: MatchMatrix, l: nat, seen: set<int>, dead: set<int>,
                            left: seq<int>, right: seq<int>, left': seq<int>, right': seq<int>)
  {
    && l < |left| == |left'| && |right| == |right'|
    && Mutual(g, left', Released(right', left[l]))
    && left'[l] != UNUSED && left'[l] != left[l]
    && (forall k :: 0 <= k < |left| && k != l ==> (left'[k] == UNUSED <==> left[k] == UNUSED))
    && (forall k :: 0 <= k < |left| && k != l && (left[k] == UNUSED || left[k] in seen) ==> left'[k] == left[k])
    && (forall r :: 0 <= r < |right| && right[r] != UNUSED ==> right'[r] != UNUSED)
    && (forall r :: 0 <= r < |right| && (r in seen || r in dead) ==> right'[r] == right[r])
  }

  /** A free matcher ends the search at once. */
  lemma LinkFree(g: MatchMatrix, l: nat, r: nat, seen: set<int>, dead: set<int>, left: seq<int>, right: seq<int>)
    requires Mutual(g, left, right) && Dead(g, right, dead)
    requires g.Edge(l, r) && r !in seen && right[r] == UNUSED
    ensures Augmented(g, l, seen, dead, left, right, left[l := r], right[r := l])
  {
    assert right[r := UNUSED] == right;
    LinkRestoresMutual(g, l, r, left, right);
  }

  lemma AugmentedWeaken(g: MatchMatrix, l: nat, seen: set<int>, seen0: set<int>, r: int, dead: set<int>,
                        left: seq<int>, right: seq<int>, left': seq<int>, right': seq<int>)
    requires Augmented(g, l, seen + {r}, dead, left, right, left', right') && seen0 <= seen
    ensures Augmented(g, l, seen0 + {r}, dead, left, right, left', right')
  {
  }

  /** A taken matcher ends the search once its partner has been matched elsewhere. */
  lemma LinkMoved(g: MatchMatrix, l: nat, r: nat, seen: set<int>, dead: set<int>,
                  left: seq<int>, right: seq<int>, left': seq<int>, right': seq<int>)
    requires Mutual(g, left, right) && g.Edge(l, r) && r !in seen && r !in dead
    requires left[l] == UNUSED || left[l] in seen
    requires 0 <= right[r] < |left| && Augmented(g, right[r], seen + {r}, dead, left, right, left', right')
    ensures Augmented(g, l, seen, dead, left, right, left'[l := r], right'[r := l])
  {
    assert left[right[r]] == r && left'[l] == left[l];
    assert Released(right', r) == right'[r := UNUSED];
    LinkRestoresMutual(g, l, r, left', right');
  }

  /** What holds after the first n elements have been tried: those left unmatched have only
      dead neighbours, and the others have not been touched. */
  ghost predicate Certificate(g: MatchMatrix, left: seq<int>, right: seq<int>, dead: set<int>, n: nat) {
    && Mutual(g, left, right) && Dead(g, right, dead)
    && (forall l :: n <= l < |left| ==> left[l] == UNUSED)
    && (forall l :: 0 <= l < n && l < |left| && left[l] == UNUSED ==> NeighboursIn(g, l, dead))
  }

  lemma CertificateAtStart(g: MatchMatrix, left: seq<int>, right: seq<int>)
    requires |left| == g.LhsSize() && |right| == g.RhsSize()
    requires (forall l :: 0 <= l < |left| ==> left[l] == UNUSED) && (forall r :: 0 <= r < |right| ==> right[r] == UNUSED)
    ensures Certificate(g, left, right, {}, 0)
  {
  }

  lemma CertificateAllowsTrial(g: MatchMatrix, left: seq<int>, right: seq<int>, dead: set<int>, n: nat)
    requires Certificate(g, left, right, dead, n)
    ensures Mutual(g, left, right) && Dead(g, right, dead)
    ensures n < |left| ==> left[n] == UNUSED
    ensures forall l :: 0 <= l < |left| ==> left[l] == UNUSED || left[l] >= 0
  {
  }

  lemma CertificateAfterSuccess(g: MatchMatrix, left: seq<int>, right: seq<int>, dead: set<int>, n: nat,
                                left': seq<int>, right': seq<int>)
    requires Certificate(g, left, right, dead, n) && n < |left|
    requires Augmented(g, n, {}, dead, left, right, left', right')
    ensures Certificate(g, left', right', dead, n + 1)
  {
  }

  lemma CertificateAfterFailure(g: MatchMatrix, left: seq<int>, right: seq<int>, dead: set<int>, n: nat, seen: set<int>)
    requires Certificate(g, left, right, dead, n) && n < |left|
    requires NeighboursIn(g, n, seen) && Explored(g, right, {}, seen)
    ensures Certificate(g, left, right, dead + seen, n + 1)
  {
  }

  class MaxBipartiteMatchState {
    const graph: MatchMatrix
    const left: array<int>
    const right: array<int>

    constructor (g: MatchMatrix)
      requires g.Valid()
      ensures graph == g && fresh(left) && fresh(right) && left != right
      ensures left.Length == g.LhsSize() && right.Length == g.RhsSize()
      ensures forall l :: 0 <= l < left.Length ==> left[l] == UNUSED
      ensures forall r :: 0 <= r < right.Length ==> right[r] == UNUSED
    {
      graph := g;
      left := new int[g.LhsSize()](_ => UNUSED);
      right := new int[g.RhsSize()](_ => UNUSED);
    }

    ghost predicate Shape()
    {
      && graph.Valid() && left != right
      && left.Length == graph.LhsSize() && right.Length == graph.RhsSize()
    }

    /** Depth-first search for a free matcher from element ilhs. dead is any set the search
        cannot succeed through; it is only used to state what stays in place. */
    method TryAugment(ilhs: nat, seen: array<bool>, ghost dead: set<int>) returns (found: bool)
      requires Shape() && seen.Length == right.Length && ilhs < left.Length
      requires Mutual(graph, left[..], right[..])
      requires left[ilhs] == UNUSED || seen[left[ilhs]]
      requires Dead(graph, right[..], dead)
      modifies left, right, seen
      // success: one more element is matched, and seen and dead matchers stay in place
      ensures found ==> Augmented(graph, ilhs, Seen(old(seen[..])), dead,
                                  old(left[..]), old(right[..]), left[..], right[..])
      ensures NeighboursIn(graph, ilhs, dead) ==> !found
      // failure: nothing moves, and what was seen is closed under alternating steps
      ensures !found ==> left[..] == old(left[..]) && right[..] == old(right[..])
      ensures !found ==> NeighboursIn(graph, ilhs, Seen(seen[..]))
      ensures !found ==> Explored(graph, right[..], Seen(old(seen[..])), Seen(seen[..]))
      decreases Unseen(seen[..])
    {
      for irhs := 0 to right.Length
        invariant left[..] == old(left[..]) && right[..] == old(right[..])
        invariant forall r :: r < irhs && graph.Edge(ilhs, r) ==> r in Seen(seen[..])
        invariant Explored(graph, right[..], Seen(old(seen[..])), Seen(seen[..]))
      {
        if seen[irhs] || !graph.HasEdge(ilhs, irhs) {
          continue;
        }
        ghost var before := Seen(seen[..]);
        assert irhs !in before;
        seen[irhs] := true;
        assert Seen(seen[..]) == before + {irhs};
        UnseenShrinks(old(seen[..]), seen[..], irhs);
        found := right[irhs] == UNUSED;
        ghost var seen0 := Seen(old(seen[..]));
        if found {
          LinkFree(graph, ilhs, irhs, seen0, dead, left[..], right[..]);
        } else {
          found := TryAugment(right[irhs], seen, dead);
          if found {
            AugmentedWeaken(graph, old(right[irhs]), before, seen0, irhs, dead, old(left[..]), old(right[..]), left[..], right[..]);
            LinkMoved(graph, ilhs, irhs, seen0, dead, old(left[..]), old(right[..]), left[..], right[..]);
          }
        }
        if found {
          left[ilhs] := irhs;
          right[irhs] := ilhs;
          return;
        }
        ExploredChain(graph, right[..], Seen(old(seen[..])), before, irhs, Seen(seen[..]));
      }
      found := false;
    }

    /** Tries every element once, and returns the edges of the resulting matching in the
        order of their elements. */
    method Compute() returns (result: seq<Pair>)
      requires Shape()
      requires forall l :: 0 <= l < left.Length ==> left[l] == UNUSED
      requires forall r :: 0 <= r < right.Length ==> right[r] == UNUSED
      modifies left, right
      ensures IsMatching(graph, Elements(result))
      ensures forall i, j :: 0 <= i < j < |result| ==> result[i].0 < result[j].0
      ensures forall m :: IsMatching(graph, m) ==> |m| <= |result|
    {
      hide Certificate, Mutual, Dead, Explored, Augmented, NeighboursIn, IsMatching;
      var seen := new bool[right.Length];
      ghost var dead: set<int> := {};
      CertificateAtStart(graph, left[..], right[..]);
      for ilhs := 0 to left.Length
        invariant Certificate(graph, left[..], right[..], dead, ilhs)
      {
        ghost var left0, right0 := left[..], right[..];
        forall r | 0 <= r < seen.Length { seen[r] := false; }
        assert Seen(seen[..]) == {} && left[..] == left0 && right[..] == right0;
        CertificateAllowsTrial(graph, left0, right0, dead, ilhs);
        var found := TryAugment(ilhs, seen, dead);
        if found {
          CertificateAfterSuccess(graph, left0, right0, dead, ilhs, left[..], right[..]);
        } else {
          CertificateAfterFailure(graph, left[..], right[..], dead, ilhs, Seen(seen[..]));
          dead := dead + Seen(seen[..]);
        }
      }
      CertificateAllowsTrial(graph, left[..], right[..], dead, left.Length);
      Certified(graph, left[..], right[..], dead);
      result := MatchedPairs();
    }

    method MatchedPairs() returns (result: seq<Pair>)
      requires forall l :: 0 <= l < left.Length ==> left[l] == UNUSED || left[l] >= 0
      ensures Elements(result) == Pairs(left[..]) && |result| == |Pairs(left[..])|
      ensures forall i, j :: 0 <= i < j < |result| ==> result[i].0 < result[j].0
    {
      hide Pairs, Elements;
      result := [];
      NoPairs();
      for ilhs := 0 to left.Length
        invariant Elements(result) == Pairs(left[..ilhs]) && |result| == |Pairs(left[..ilhs])|
        invariant forall p :: p in result ==> 0 <= p.0 < ilhs
        invariant forall i, j :: 0 <= i < j < |result| ==> result[i].0 < result[j].0
      {
        assert left[..ilhs + 1] == left[..ilhs] + [left[ilhs]];
        NextPair(left[..ilhs], left[ilhs]);
        if left[ilhs] == UNUSED {
          continue;
        }
        ElementsAppend(result, (ilhs, left[ilhs]));
        result := result + [(ilhs, left[ilhs])];
      }
      assert left[..left.Length] == left[..];
    }
  }

  ghost function Elements(s: seq<Pair>): set<Pair> { set p | p in s }

  /** When every unmatched element has only dead neighbours, the recorded pairs are a
      matching of maximum size: dead matchers and the elements matched elsewhere cover all edges. */
  lemma Certified(g: MatchMatrix, left: seq<int>, right: seq<int>, dead: set<int>)
    requires Certificate(g, left, right, dead, |left|)
    ensures IsMatching(g, Pairs(left))
    ensures forall m :: IsMatching(g, m) ==> |m| <= |Pairs(left)|
  {
    PairsMatch(g, left, right);
    LiveAndDeadCount(g, left, right, dead);
    forall m | IsMatching(g, m) ensures |m| <= |Pairs(left)| {
      CoveredByCertificate(g, left, right, dead);
      CoverBoundsMatching(g, m, Live(left, dead), dead);
    }
  }

  /** The elements matched outside dead. */
  ghost function Live(left: seq<int>, dead: set<int>): set<int> {
    set l | 0 <= l < |left| && left[l] != UNUSED && left[l] !in dead
  }

  lemma PairsMatch(g: MatchMatrix, left: seq<int>, right: seq<int>)
    requires Mutual(g, left, right)
    ensures IsMatching(g, Pairs(left))
  {
    forall p, q | p in Pairs(left) && q in Pairs(left) && (p.0 == q.0 || p.1 == q.1) ensures p == q {
      assert right[p.1] == p.0 && right[q.1] == q.0;
    }
  }

  lemma LiveAndDeadCount(g: MatchMatrix, left: seq<int>, right: seq<int>, dead: set<int>)
    requires Mutual(g, left, right) && Dead(g, right, dead) && IsMatching(g, Pairs(left))
    ensures |Pairs(left)| == |Live(left, dead)| + |dead|
  {
    var m1 := set p | p in Pairs(left) && p.1 !in dead;
    var m2 := Pairs(left) - m1;
    assert |m1| == |Live(left, dead)| by {
      SidesHaveSameSize(g, m1);
      LiveLefts(left, dead, m1);
    }
    assert |m2| == |dead| by {
      SidesHaveSameSize(g, m2);
      DeadRights(left, right, dead, m2);
    }
  }

  lemma LiveLefts(left: seq<int>, dead: set<int>, m: set<Pair>)
    requires forall p :: p in m <==> p in Pairs(left) && p.1 !in dead
    requires forall l :: 0 <= l < |left| && left[l] != UNUSED ==> left[l] >= 0
    ensures Lefts(m) == Live(left, dead)
  {
    forall l | l in Live(left, dead) ensures l in Lefts(m) {
      assert (l, left[l]) in m;
    }
  }

  lemma DeadRights(left: seq<int>, right: seq<int>, dead: set<int>, m: set<Pair>)
    requires forall p :: p in m <==> p in Pairs(left) && p.1 in dead
    requires forall r :: r in dead ==> 0 <= r < |right| && 0 <= right[r] < |left| && left[right[r]] == r
    ensures Rights(m) == dead
  {
    forall r | r in dead ensures r in Rights(m) {
      assert (right[r], r) in m;
    }
  }

  lemma CoveredByCertificate(g: MatchMatrix, left: seq<int>, right: seq<int>, dead: set<int>)
    requires Certificate(g, left, right, dead, |left|)
    ensures IsCover(g, Live(left, dead), dead)
  {
    forall l, r | g.Edge(l, r) && l !in Live(left, dead) ensures r in dead {
      if left[l] != UNUSED {
        assert right[left[l]] == l;
      }
    }
  }

  /** Edges of a maximum matching of g. */
  method FindMaxBipartiteMatching(g: MatchMatrix) returns (result: seq<Pair>)
    requires g.Valid()
    ensures IsMatching(g, Elements(result))
    ensures forall i, j :: 0 <= i < j < |result| ==> result[i].0 < result[j].0
    ensures forall m :: IsMatching(g, m) ==> |m| <= |result|
  {
    var state := new MaxBipartiteMatchState(g);
    result := state.Compute();
  }

  /** A top-level success adds exactly one pair: the tried element joins the matched ones. */
  lemma SuccessAddsOnePair(g: MatchMatrix, l: nat, dead: set<int>, left: seq<int>, right: seq<int>,
                           left': seq<int>, right': seq<int>)
    requires Mutual(g, left, right) && l < |left| && left[l] == UNUSED
    requires Augmented(g, l, {}, dead, left, right, left', right')
    ensures Matched(left') == Matched(left) + {l}
    ensures |Pairs(left')| == |Pairs(left)| + 1
  {
    MatchedJoins(left, l, left');
    PairCount(g, left, right);
    PairCount(g, left', Released(right', left[l]));
  }

  lemma MatchedJoins(left: seq<int>, l: nat, left': seq<int>)
    requires l < |left| == |left'| && left[l] == UNUSED && left'[l] != UNUSED
    requires forall k :: 0 <= k < |left| && k != l ==> (left'[k] == UNUSED <==> left[k] == UNUSED)
    ensures Matched(left') == Matched(left) + {l} && l !in Matched(left)
  {
  }

  /** The elements that have a partner. */
  ghost function Matched(left: seq<int>): set<int> {
    set l | 0 <= l < |left| && left[l] != UNUSED
  }

  lemma PairCount(g: MatchMatrix, left: seq<int>, right: seq<int>)
    requires Mutual(g, left, right)
    ensures |Pairs(left)| == |Matched(left)|
  {
    PairsMatch(g, left, right);
    SidesHaveSameSize(g, Pairs(left));
    assert Live(left, {}) == Matched(left);
    LiveLefts(left, {}, Pairs(left));
  }

  // ---------------------------------------------------------------------------
  // The checks of UnorderedElementsAre
  // ---------------------------------------------------------------------------

  /** The match flags: Superset, Subset, or both for an exact match. */
  datatype Flags = Flags(superset: bool, subset: bool)

  /** A matching that uses every matcher when Superset is asked, and every element when
      Subset is asked. */
  ghost predicate IsPairing(g: MatchMatrix, flags: Flags, m: set<Pair>) {
    && IsMatching(g, m)
    && (flags.superset ==> Rights(m) == Below(g.RhsSize()))
    && (flags.subset ==> Lefts(m) == Below(g.LhsSize()))
  }

  ghost predicate PairingExists(g: MatchMatrix, flags: Flags) {
    exists m :: IsPairing(g, flags, m)
  }

  lemma PairingSize(g: MatchMatrix, flags: Flags, m: set<Pair>)
    requires IsMatching(g, m)
    ensures IsPairing(g, flags, m) <==>
      (flags.superset ==> |m| >= g.RhsSize()) && (flags.subset ==> |m| >= g.LhsSize())
  {
    SidesHaveSameSize(g, m);
    SubsetSize(Rights(m), Below(g.RhsSize()));
    SubsetSize(Lefts(m), Below(g.LhsSize()));
  }

  lemma ElementsAppend(s: seq<Pair>, last: Pair)
    requires forall p :: p in s ==> p != last
    ensures Elements(s + [last]) == Elements(s) + {last} && last !in Elements(s)
  {
  }

  lemma {:induction false} DistinctSize(s: seq<Pair>)
    requires forall i, j :: 0 <= i < j < |s| ==> s[i].0 < s[j].0
    ensures |Elements(s)| == |s|
  {
    if s != [] {
      var init, last := s[..|s| - 1], s[|s| - 1];
      DistinctSize(init);
      assert s == init + [last];
      ElementsAppend(init, last);
    }
  }

  method FindPairing(g: MatchMatrix, flags: Flags) returns (ok: bool)
    requires g.Valid()
    ensures ok <==> PairingExists(g, flags)
  {
    var matches := FindMaxBipartiteMatching(g);
    var maxFlow := |matches|;
    ghost var best := Elements(matches);
    DistinctSize(matches);
    PairingSize(g, flags, best);
    if PairingExists(g, flags) {
      ghost var m :| IsPairing(g, flags, m);
      PairingSize(g, flags, m);
    }
    if flags.superset && maxFlow < g.RhsSize() {
      return false;
    }
    if flags.subset && maxFlow < g.LhsSize() {
      return false;
    }
    return true;
  }

  /** Matcher r matches one of the first n elements. */
  ghost predicate MatcherUsable(g: MatchMatrix, r: int, n: int) {
    exists l :: l < n && g.Edge(l, r)
  }

  /** Element l is matched by one of the first n matchers. */
  ghost predicate ElementUsable(g: MatchMatrix, l: int, n: int) {
    exists r :: r < n && g.Edge(l, r)
  }

  lemma UsableExtends(g: MatchMatrix, l: nat, r: nat)
    requires g.Valid() && l < g.LhsSize() && r < g.RhsSize()
    ensures ElementUsable(g, l, r + 1) <==> ElementUsable(g, l, r) || g.HasEdge(l, r)
    ensures MatcherUsable(g, r, l + 1) <==> MatcherUsable(g, r, l) || g.HasEdge(l, r)
  {
    assert g.HasEdge(l, r) <==> g.Edge(l, r);
  }

  /** The size condition and the row and column conditions that VerifyMatchMatrix tests. */
  ghost predicate PassesVerification(g: MatchMatrix, flags: Flags) {
    || (g.LhsSize() == 0 && g.RhsSize() == 0)
    || (&& (flags == Flags(true, true) ==> g.LhsSize() == g.RhsSize())
        && (flags.superset ==> forall r :: 0 <= r < g.RhsSize() ==> MatcherUsable(g, r, g.LhsSize()))
        && (flags.subset ==> forall l :: 0 <= l < g.LhsSize() ==> ElementUsable(g, l, g.RhsSize())))
  }

  method VerifyMatchMatrix(g: MatchMatrix, flags: Flags) returns (result: bool)
    requires g.Valid()
    ensures result <==> PassesVerification(g, flags)
  {
    if g.LhsSize() == 0 && g.RhsSize() == 0 {
      return true;
    }
    if flags == Flags(true, true) && g.LhsSize() != g.RhsSize() {
      return false;
    }
    result := true;
    var elementMatched := new bool[g.LhsSize()](_ => false);
    var matcherMatched := new bool[g.RhsSize()](_ => false);
    for ilhs := 0 to g.LhsSize()
      invariant forall l :: 0 <= l < elementMatched.Length ==>
                  (elementMatched[l] <==> l < ilhs && ElementUsable(g, l, g.RhsSize()))
      invariant forall r :: 0 <= r < matcherMatched.Length ==> (matcherMatched[r] <==> MatcherUsable(g, r, ilhs))
    {
      for irhs := 0 to g.RhsSize()
        invariant forall l :: 0 <= l < elementMatched.Length && l != ilhs ==>
                    (elementMatched[l] <==> l < ilhs && ElementUsable(g, l, g.RhsSize()))
        invariant elementMatched[ilhs] <==> ElementUsable(g, ilhs, irhs)
        invariant forall r :: 0 <= r < matcherMatched.Length ==>
                    (matcherMatched[r] <==> MatcherUsable(g, r, if r < irhs then ilhs + 1 else ilhs))
      {
        UsableExtends(g, ilhs, irhs);
        var matched := g.HasEdge(ilhs, irhs);
        elementMatched[ilhs] := elementMatched[ilhs] || matched;
        matcherMatched[irhs] := matcherMatched[irhs] || matched;
      }
    }
    if flags.superset {
      for mi := 0 to matcherMatched.Length
        invariant result <==> forall r :: 0 <= r < mi ==> matcherMatched[r]
      {
        result := result && matcherMatched[mi];
      }
    }
    ghost var sofar := result;
    if flags.subset {
      for ei := 0 to elementMatched.Length
        invariant result <==> sofar && forall l :: 0 <= l < ei ==> elementMatched[l]
      {
        result := result && elementMatched[ei];
      }
    }
  }

  /** A matrix that fails the early check has no pairing. */
  lemma RejectedMatrixHasNoPairing(g: MatchMatrix, flags: Flags)
    requires g.Valid() && PairingExists(g, flags)
    ensures PassesVerification(g, flags)
  {
    hide MatchMatrix.HasEdge;
    var m :| IsPairing(g, flags, m);
    forall r | r in Rights(m) ensures MatcherUsable(g, r, g.LhsSize()) {
      var p: Pair :| p in m && p.1 == r;
      assert g.Edge(p.0, r);
    }
    forall l | l in Lefts(m) ensures ElementUsable(g, l, g.RhsSize()) {
      var p: Pair :| p in m && p.0 == l;
      assert g.Edge(l, p.1);
    }
    SidesHaveSameSize(g, m);
  }

  /** The verdict of MatchAndExplain: the early check never changes it. */
  method MatchAndExplain(g: MatchMatrix, flags: Flags) returns (ok: bool)
    requires g.Valid()
    ensures ok <==> PairingExists(g, flags)
  {
    ok := VerifyMatchMatrix(g, flags);
    if ok {
      ok := FindPairing(g, flags);
    } else if PairingExists(g, flags) {
      RejectedMatrixHasNoPairing(g, flags);
    }
  }
}
