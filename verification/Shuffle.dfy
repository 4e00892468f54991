/**
  The in-place shuffle of gtest: which elements it moves, and that the sequences of choices made
  by the generator correspond one to one with the orderings of the range.
 */
module Shuffle {
  import opened Bits
  import opened Bytes
  import opened Common

  // ---------------------------------------------------------------------------
  // The generator
  // ---------------------------------------------------------------------------

  const MAX_RANGE: int := 0x8000_0000

  function NextState(state: Word): (next: Word)
    ensures next < 0x8000_0000
  {
    ((1103515245 * state + 12345) % TWO_TO_32) % MAX_RANGE
  }

  class Random {
    var state: Word

    constructor (seed: Word)
      ensures state == seed
    {
      state := seed;
    }

    method Generate(range: nat) returns (r: nat)
      requires 0 < range <= MAX_RANGE
      modifies this
      ensures r < range && state == NextState(old(state)) && r == state % range
    {
      state := NextState(state);
      r := state % range;
    }
  }

  // ---------------------------------------------------------------------------
  // Choices
  // ---------------------------------------------------------------------------

  /** One choice for each width from the given one down to 2. */
  ghost predicate Choices(cs: seq<nat>, width: nat) {
    && |cs| == (if width < 2 then 0 else width - 1)
    && forall k :: 0 <= k < |cs| ==> cs[k] < width - k
  }

  /** The choices that the generator makes from a state. */
  function Drawn(state: Word, width: nat): (cs: seq<nat>)
    ensures Choices(cs, width)
    decreases width
  {
    if width < 2 then [] else [NextState(state) % width] + Drawn(NextState(state), width - 1)
  }

  function StateAfter(state: Word, width: nat): Word
    decreases width
  {
    if width < 2 then state else StateAfter(NextState(state), width - 1)
  }

  function Swap<T>(s: seq<T>, i: nat, j: nat): (t: seq<T>)
    requires i < |s| && j < |s|
    ensures |t| == |s|
  {
    s[i := s[j]][j := s[i]]
  }

  /** The range of the given width from begin on, shuffled by the choices. */
  function Shuffled<T>(s: seq<T>, begin: nat, width: nat, cs: seq<nat>): (t: seq<T>)
    requires begin + width <= |s| && Choices(cs, width)
    ensures |t| == |s|
    decreases width
  {
    if width < 2 then s
    else Shuffled(Swap(s, begin + cs[0], begin + width - 1), begin, width - 1, cs[1..])
  }

  /** The first choice, and what is left after it. */
  lemma FirstStep<T>(s: seq<T>, begin: nat, width: nat, cs: seq<nat>)
    requires width >= 2 && begin + width <= |s| && |cs| > 0
    ensures Choices(cs, width) <==> cs[0] < width && Choices(cs[1..], width - 1)
    ensures Choices(cs, width) ==>
      var t := Swap(s, begin + cs[0], begin + width - 1);
      t[begin + width - 1] == s[begin + cs[0]] &&
      Shuffled(s, begin, width, cs) == Shuffled(t, begin, width - 1, cs[1..])
  {
    FirstAndRest(cs, width);
  }

  lemma FirstAndRest(cs: seq<nat>, width: nat)
    requires width >= 2
    ensures Choices(cs, width) ==> |cs| > 0
    ensures |cs| > 0 ==> (Choices(cs, width) <==> cs[0] < width && Choices(cs[1..], width - 1))
  {
    if |cs| > 0 && cs[0] < width && Choices(cs[1..], width - 1) {
      assert forall k :: 0 < k < |cs| ==> cs[k] == cs[1..][k - 1];
    }
  }

  // ---------------------------------------------------------------------------
  // The shuffle permutes the range and nothing else
  // ---------------------------------------------------------------------------

  /** t is s with the elements of the range in some order. */
  ghost predicate IsOrdering<T>(t: seq<T>, s: seq<T>, begin: nat, width: nat) {
    && |t| == |s| && begin + width <= |s|
    && t[..begin] == s[..begin] && t[begin + width..] == s[begin + width..]
    && multiset(t[begin..begin + width]) == multiset(s[begin..begin + width])
  }

  lemma SwapReorders<T>(s: seq<T>, i: nat, j: nat, begin: nat, width: nat)
    requires begin <= i < begin + width <= |s| && begin <= j < begin + width
    ensures IsOrdering(Swap(s, i, j), s, begin, width)
  {
    hide Swap;
    SwapInRange(s, i, j, begin, begin + width);
    SwapKeepsElements(s[begin..begin + width], i - begin, j - begin);
  }

  lemma SwapInRange<T>(s: seq<T>, i: nat, j: nat, begin: nat, end: nat)
    requires begin <= i < end <= |s| && begin <= j < end
    ensures var t := Swap(s, i, j);
      && t[..begin] == s[..begin] && t[end..] == s[end..]
      && t[begin..end] == Swap(s[begin..end], i - begin, j - begin)
  {
  }

  lemma SwapKeepsElements<T>(r: seq<T>, i: nat, j: nat)
    requires i < |r| && j < |r|
    ensures multiset(Swap(r, i, j)) == multiset(r)
  {
  }

  /** An ordering of a shorter range, followed by an element that stays, orders the range. */
  lemma WidenOrdering<T>(t: seq<T>, s: seq<T>, begin: nat, width: nat)
    requires width > 0 && begin + width <= |s| && IsOrdering(t, s, begin, width - 1)
    ensures IsOrdering(t, s, begin, width) && t[begin + width - 1] == s[begin + width - 1]
  {
    var m := begin + width - 1;
    assert t[m] == t[m..][0] && s[m] == s[m..][0];
    assert t[m + 1..] == t[m..][1..] && s[m + 1..] == s[m..][1..];
    assert t[begin..m + 1] == t[begin..m] + [t[m]];
    assert s[begin..m + 1] == s[begin..m] + [s[m]];
  }

  lemma OrderingsCompose<T>(t: seq<T>, u: seq<T>, s: seq<T>, begin: nat, width: nat)
    requires IsOrdering(u, s, begin, width)
    ensures IsOrdering(t, u, begin, width) <==> IsOrdering(t, s, begin, width)
  {
  }

  /** Whatever is chosen, the range is permuted, and its last element is the one chosen first. */
  lemma {:induction false} OnlyRangeMoves<T>(s: seq<T>, begin: nat, width: nat, cs: seq<nat>)
    requires begin + width <= |s| && Choices(cs, width)
    ensures IsOrdering(Shuffled(s, begin, width, cs), s, begin, width)
    ensures width >= 2 ==> Shuffled(s, begin, width, cs)[begin + width - 1] == s[begin + cs[0]]
    decreases width
  {
    if width < 2 {
      assert IsOrdering(s, s, begin, width);
    } else {
      hide IsOrdering, Shuffled, Choices, Swap;
      FirstAndRest(cs, width);
      FirstStep(s, begin, width, cs);
      var s' := Swap(s, begin + cs[0], begin + width - 1);
      SwapReorders(s, begin + cs[0], begin + width - 1, begin, width);
      OnlyRangeMoves(s', begin, width - 1, cs[1..]);
      var t := Shuffled(s', begin, width - 1, cs[1..]);
      WidenOrdering(t, s', begin, width);
      OrderingsCompose(t, s', s, begin, width);
    }
  }

  // ---------------------------------------------------------------------------
  // Choices and orderings correspond
  // ---------------------------------------------------------------------------

  ghost predicate Distinct<T>(s: seq<T>, begin: nat, width: nat) {
    begin + width <= |s| && forall i, j :: begin <= i < j < begin + width ==> s[i] != s[j]
  }

  /** Different choices order distinct elements differently. */
  lemma {:induction false} ChoicesDetermined<T>(s: seq<T>, begin: nat, width: nat, cs: seq<nat>, ds: seq<nat>)
    requires Distinct(s, begin, width) && Choices(cs, width) && Choices(ds, width)
    requires Shuffled(s, begin, width, cs) == Shuffled(s, begin, width, ds)
    ensures cs == ds
    decreases width
  {
    if width >= 2 {
      OnlyRangeMoves(s, begin, width, cs);
      OnlyRangeMoves(s, begin, width, ds);
      assert cs[0] == ds[0];
      ChoicesDetermined(Swap(s, begin + cs[0], begin + width - 1), begin, width - 1, cs[1..], ds[1..]);
      assert cs == [cs[0]] + cs[1..] && ds == [ds[0]] + ds[1..];
    }
  }

  /** Every ordering of the range is reached, also with repeated elements. */
  lemma {:induction false} EveryOrderingIsReached<T>(s: seq<T>, begin: nat, width: nat, t: seq<T>) returns (cs: seq<nat>)
    requires IsOrdering(t, s, begin, width)
    ensures Choices(cs, width) && Shuffled(s, begin, width, cs) == t
    decreases width
  {
    hide IsOrdering, Choices, Shuffled, Swap;
    OrderingFits(t, s, begin, width);
    if width < 2 {
      cs := [];
      NothingToShuffle(s, begin, width);
      SameSingleton(t, s, begin, width);
    } else {
      var c := ChosenFirst(s, begin, width, t);
      LastIsPlaced(s, begin, width, t, c);
      var rest := EveryOrderingIsReached(Swap(s, begin + c, begin + width - 1), begin, width - 1, t);
      cs := [c] + rest;
      assert cs[1..] == rest;
      FirstStep(s, begin, width, cs);
    }
  }

  lemma NothingToShuffle<T>(s: seq<T>, begin: nat, width: nat)
    requires width < 2 && begin + width <= |s|
    ensures Choices([], width) && Shuffled(s, begin, width, []) == s
  {
  }

  lemma OrderingFits<T>(t: seq<T>, s: seq<T>, begin: nat, width: nat)
    requires IsOrdering(t, s, begin, width)
    ensures |t| == |s| && begin + width <= |s|
  {
  }

  lemma SameSingleton<T>(t: seq<T>, s: seq<T>, begin: nat, width: nat)
    requires IsOrdering(t, s, begin, width) && width < 2
    ensures t == s
  {
    var m := begin + width;
    assert t == t[..begin] + t[begin..m] + t[m..] && s == s[..begin] + s[begin..m] + s[m..];
    if width == 1 {
      assert t[begin..m] == [t[begin]] && s[begin..m] == [s[begin]];
      assert t[begin] in multiset(s[begin..m]);
    }
  }

  /** The element that must come last stands somewhere in the range. */
  lemma ChosenFirst<T>(s: seq<T>, begin: nat, width: nat, t: seq<T>) returns (c: nat)
    requires IsOrdering(t, s, begin, width) && width > 0
    ensures c < width && s[begin + c] == t[begin + width - 1]
  {
    var r := s[begin..begin + width];
    assert t[begin..begin + width][width - 1] == t[begin + width - 1];
    assert t[begin + width - 1] in multiset(t[begin..begin + width]);
    assert t[begin + width - 1] in r;
    c :| 0 <= c < width && r[c] == t[begin + width - 1];
  }

  /** What is left to do after the swap that puts the last element into its place. */
  lemma LastIsPlaced<T>(s: seq<T>, begin: nat, width: nat, t: seq<T>, c: nat)
    requires IsOrdering(t, s, begin, width) && c < width && s[begin + c] == t[begin + width - 1]
    ensures IsOrdering(t, Swap(s, begin + c, begin + width - 1), begin, width - 1)
  {
    var s' := Swap(s, begin + c, begin + width - 1);
    assert s'[begin + width - 1] == s[begin + c];
    hide IsOrdering;
    SwapReorders(s, begin + c, begin + width - 1, begin, width);
    OrderingsCompose(t, s', s, begin, width);
    NarrowOrdering(t, s', begin, width);
  }

  lemma NarrowOrdering<T>(t: seq<T>, s: seq<T>, begin: nat, width: nat)
    requires width > 0 && IsOrdering(t, s, begin, width) && t[begin + width - 1] == s[begin + width - 1]
    ensures IsOrdering(t, s, begin, width - 1)
  {
    LastStays(t, s, begin, begin + width - 1);
  }

  lemma LastStays<T>(t: seq<T>, s: seq<T>, begin: nat, m: nat)
    requires |t| == |s| && begin <= m < |s| && t[m] == s[m] && t[m + 1..] == s[m + 1..]
    requires multiset(t[begin..m + 1]) == multiset(s[begin..m + 1])
    ensures t[m..] == s[m..] && multiset(t[begin..m]) == multiset(s[begin..m])
  {
    AtLast(t, begin, m);
    AtLast(s, begin, m);
    SameWithoutLast(t[begin..m], s[begin..m], t[m]);
  }

  lemma AtLast<T>(s: seq<T>, begin: nat, m: nat)
    requires begin <= m < |s|
    ensures s[begin..m + 1] == s[begin..m] + [s[m]] && s[m..] == [s[m]] + s[m + 1..]
  {
  }

  lemma SameWithoutLast<T>(a: seq<T>, b: seq<T>, last: T)
    requires multiset(a + [last]) == multiset(b + [last])
    ensures multiset(a) == multiset(b)
  {
    assert multiset(a) == multiset(a + [last]) - multiset{last};
    assert multiset(b) == multiset(b + [last]) - multiset{last};
  }

  // ---------------------------------------------------------------------------
  // Counting
  // ---------------------------------------------------------------------------

  /** The choice sequences for a width; with c, those whose first choice is below c. */
  ghost function AllChoices(width: nat): set<seq<nat>>
    decreases width, 0
  {
    if width < 2 then {[]} else Starting(width, width)
  }

  ghost function Starting(width: nat, c: nat): set<seq<nat>>
    requires width >= 2
    decreases width - 1, c + 1
  {
    if c == 0 then {} else Starting(width, c - 1) + Prepended(c - 1, AllChoices(width - 1))
  }

  ghost function Prepended(c: nat, sets: set<seq<nat>>): set<seq<nat>> {
    set cs | cs in sets :: [c] + cs
  }

  lemma {:induction false} AllChoicesAreAll(width: nat, cs: seq<nat>)
    ensures cs in AllChoices(width) <==> Choices(cs, width)
    decreases width, 0
  {
    if width >= 2 {
      StartingAreAll(width, width, cs);
    }
  }

  lemma {:induction false} StartingAreAll(width: nat, c: nat, cs: seq<nat>)
    requires width >= 2 && c <= width
    ensures cs in Starting(width, c) <==> Choices(cs, width) && cs[0] < c
    decreases width - 1, c + 1
  {
    hide AllChoices;
    if c > 0 {
      StartingAreAll(width, c - 1, cs);
      if |cs| > 0 {
        AllChoicesAreAll(width - 1, cs[1..]);
        FirstAndRest(cs, width);
        PrependedIff(c - 1, AllChoices(width - 1), cs);
      }
    }
  }

  lemma PrependedIff(c: nat, sets: set<seq<nat>>, cs: seq<nat>)
    requires |cs| > 0
    ensures cs in Prepended(c, sets) <==> cs[0] == c && cs[1..] in sets
  {
    assert cs == [cs[0]] + cs[1..];
    assert forall ds :: ([c] + ds)[1..] == ds;
  }

  lemma {:induction false} PrependedCount(c: nat, sets: set<seq<nat>>)
    ensures |Prepended(c, sets)| == |sets|
  {
    if sets == {} {
      assert Prepended(c, sets) == {};
    } else {
      var ds :| ds in sets;
      PrependedCount(c, sets - {ds});
      PrependedIff(c, sets - {ds}, [c] + ds);
      assert ([c] + ds)[1..] == ds;
      assert Prepended(c, sets) == Prepended(c, sets - {ds}) + {[c] + ds};
    }
  }

  /** There are width! choice sequences. */
  lemma {:induction false} ChoicesCount(width: nat)
    ensures |AllChoices(width)| == Factorial(width)
    decreases width, 0
  {
    if width >= 2 {
      StartingCount(width, width);
    } else {
      assert Factorial(0) == Factorial(1) == 1;
    }
  }

  lemma {:induction false} StartingCount(width: nat, c: nat)
    requires width >= 2 && c <= width
    ensures |Starting(width, c)| == c * Factorial(width - 1)
    decreases width - 1, c + 1
  {
    hide AllChoices, Factorial, Prepended;
    if c > 0 {
      StartingCount(width, c - 1);
      ChoicesCount(width - 1);
      PrependedCount(c - 1, AllChoices(width - 1));
      NewStarts(width, c);
      Distribute(c, Factorial(width - 1));
    }
  }

  lemma NewStarts(width: nat, c: nat)
    requires width >= 2 && 0 < c <= width
    ensures |Starting(width, c)| == |Starting(width, c - 1)| + |Prepended(c - 1, AllChoices(width - 1))|
  {
    hide AllChoices, Prepended;
    var before, added := Starting(width, c - 1), Prepended(c - 1, AllChoices(width - 1));
    forall cs | cs in before ensures cs !in added {
      StartingAreAll(width, c - 1, cs);
      FirstAndRest(cs, width);
      PrependedIff(c - 1, AllChoices(width - 1), cs);
    }
    assert before !! added;
  }

  lemma Distribute(c: int, f: int)
    ensures (c - 1) * f + f == c * f
  {
  }

  ghost function Results<T>(s: seq<T>, begin: nat, width: nat, sets: set<seq<nat>>): set<seq<T>>
    requires begin + width <= |s| && forall cs :: cs in sets ==> Choices(cs, width)
  {
    set cs | cs in sets :: Shuffled(s, begin, width, cs)
  }

  lemma {:induction false} ResultsCount<T>(s: seq<T>, begin: nat, width: nat, sets: set<seq<nat>>)
    requires Distinct(s, begin, width) && forall cs :: cs in sets ==> Choices(cs, width)
    ensures |Results(s, begin, width, sets)| == |sets|
  {
    hide Shuffled, Choices;
    if sets == {} {
      assert Results(s, begin, width, sets) == {};
    } else {
      var ds :| ds in sets;
      var fewer, t := Results(s, begin, width, sets - {ds}), Shuffled(s, begin, width, ds);
      ResultsCount(s, begin, width, sets - {ds});
      forall cs | cs in sets - {ds} ensures Shuffled(s, begin, width, cs) != t {
        if Shuffled(s, begin, width, cs) == t {
          ChoicesDetermined(s, begin, width, cs, ds);
        }
      }
      assert t !in fewer;
      assert Results(s, begin, width, sets) == fewer + {t};
    }
  }

  /** The orderings of a range of distinct elements are exactly the results of the width! choice
      sequences, which are all different. */
  lemma OrderingsAreResults<T(!new)>(s: seq<T>, begin: nat, width: nat)
    requires Distinct(s, begin, width)
    ensures forall cs :: cs in AllChoices(width) <==> Choices(cs, width)
    ensures var results := Results(s, begin, width, AllChoices(width));
      |results| == Factorial(width) && forall t :: t in results <==> IsOrdering(t, s, begin, width)
  {
    hide Shuffled, IsOrdering, AllChoices, Choices, Factorial;
    forall cs ensures cs in AllChoices(width) <==> Choices(cs, width) {
      AllChoicesAreAll(width, cs);
    }
    ChoicesCount(width);
    ResultsCount(s, begin, width, AllChoices(width));
    var results := Results(s, begin, width, AllChoices(width));
    forall t ensures t in results <==> IsOrdering(t, s, begin, width) {
      if t in results {
        var cs :| cs in AllChoices(width) && t == Shuffled(s, begin, width, cs);
        OnlyRangeMoves(s, begin, width, cs);
      }
      if IsOrdering(t, s, begin, width) {
        var cs := EveryOrderingIsReached(s, begin, width, t);
        assert cs in AllChoices(width);
      }
    }
  }

  /** A whole vector without repeated elements: every ordering comes from exactly one sequence of
      choices. */
  lemma OneChoicePerOrdering<T>(s: seq<T>, t: seq<T>) returns (cs: seq<nat>)
    requires multiset(t) == multiset(s) && forall x :: x in s ==> multiset(s)[x] == 1
    ensures Choices(cs, |s|) && Shuffled(s, 0, |s|, cs) == t
    ensures forall ds :: Choices(ds, |s|) && Shuffled(s, 0, |s|, ds) == t ==> ds == cs
  {
    hide Shuffled, Choices;
    assert |t| == |multiset(t)| == |multiset(s)| == |s|;
    assert t[0..|s|] == t && s[0..|s|] == s;
    cs := EveryOrderingIsReached(s, 0, |s|, t);
    forall i, j | 0 <= i < j < |s| ensures s[i] != s[j] {
      if s[i] == s[j] {
        OccursTwice(s, i, j);
      }
    }
    forall ds | Choices(ds, |s|) && Shuffled(s, 0, |s|, ds) == t ensures ds == cs {
      ChoicesDetermined(s, 0, |s|, cs, ds);
    }
  }

  lemma OccursTwice<T>(s: seq<T>, i: nat, j: nat)
    requires i < j < |s| && s[i] == s[j]
    ensures multiset(s)[s[i]] >= 2
  {
    assert s == s[..j] + s[j..];
    assert s[i] in s[..j] && s[j] in s[j..];
  }

  // ---------------------------------------------------------------------------
  // The shuffle
  // ---------------------------------------------------------------------------

  /** One turn of the loop. */
  lemma ShuffleStep<T>(s: seq<T>, begin: nat, width: nat, state: Word)
    requires width >= 2 && begin + width <= |s|
    ensures var next, selected := NextState(state), begin + NextState(state) % width;
      && StateAfter(state, width) == StateAfter(next, width - 1)
      && Shuffled(s, begin, width, Drawn(state, width))
      == Shuffled(Swap(s, selected, begin + width - 1), begin, width - 1, Drawn(next, width - 1))
  {
    hide NextState, Swap;
    var cs := Drawn(state, width);
    assert cs[1..] == Drawn(NextState(state), width - 1);
    FirstStep(s, begin, width, cs);
  }

  lemma NoTurn<T>(s: seq<T>, begin: nat, width: nat, state: Word)
    requires width < 2 && begin + width <= |s|
    ensures StateAfter(state, width) == state && Shuffled(s, begin, width, Drawn(state, width)) == s
  {
  }

  /** Shuffles a range of the elements in place, unless it is not a range of the vector. */
  method ShuffleRange<T>(random: Random, begin: int, end: int, v: array<T>) returns (ok: bool)
    requires v.Length < MAX_RANGE
    modifies random, v
    ensures ok <==> 0 <= begin <= end <= v.Length
    ensures ok ==> random.state == StateAfter(old(random.state), end - begin)
    ensures ok ==> v[..] == Shuffled(old(v[..]), begin, end - begin, Drawn(old(random.state), end - begin))
    ensures !ok ==> v[..] == old(v[..]) && random.state == old(random.state)
  {
    hide Shuffled, Drawn, StateAfter, NextState, Choices;
    var size := v.Length;
    if !(0 <= begin <= size) {
      return false;
    }
    if !(begin <= end <= size) {
      return false;
    }
    var rangeWidth := end - begin;
    while rangeWidth >= 2
      invariant 0 <= rangeWidth <= end - begin
      invariant StateAfter(random.state, rangeWidth) == StateAfter(old(random.state), end - begin)
      invariant Shuffled(v[..], begin, rangeWidth, Drawn(random.state, rangeWidth))
             == Shuffled(old(v[..]), begin, end - begin, Drawn(old(random.state), end - begin))
    {
      ghost var s := v[..];
      ShuffleStep(s, begin, rangeWidth, random.state);
      var lastInRange := begin + rangeWidth - 1;
      var choice := random.Generate(rangeWidth);
      var selected := begin + choice;
      v[selected], v[lastInRange] := v[lastInRange], v[selected];
      assert v[..] == Swap(s, selected, lastInRange);
      rangeWidth := rangeWidth - 1;
    }
    NoTurn(v[..], begin, rangeWidth, random.state);
    return true;
  }

  function AllShuffled<T>(s: seq<T>, state: Word): seq<T> {
    Shuffled(s, 0, |s|, Drawn(state, |s|))
  }

  lemma AllReordered<T>(s: seq<T>, state: Word)
    ensures multiset(AllShuffled(s, state)) == multiset(s)
  {
    OnlyRangeMoves(s, 0, |s|, Drawn(state, |s|));
    var t := AllShuffled(s, state);
    assert t[0..|s|] == t && s[0..|s|] == s;
  }

  /** Shuffles all elements. */
  method ShuffleAll<T>(random: Random, v: array<T>)
    requires v.Length < MAX_RANGE
    modifies random, v
    ensures v[..] == AllShuffled(old(v[..]), old(random.state))
    ensures random.state == StateAfter(old(random.state), v.Length)
    ensures multiset(v[..]) == multiset(old(v[..]))
  {
    ghost var s, state := v[..], random.state;
    var ok := ShuffleRange(random, 0, v.Length, v);
    AllReordered(s, state);
  }

  /** The state in which the generator comes to the k-th suite. */
  ghost function StateBefore(state: Word, tests: seq<array<int>>, k: nat): Word
    requires k <= |tests|
  {
    if k == 0 then state else StateAfter(StateBefore(state, tests, k - 1), tests[k - 1].Length)
  }

  /** Shuffles the death test suites, then the other suites, then the tests of every suite: the
      death test suites still come first. */
  method ShuffleTests(random: Random, suites: array<int>, lastDeathTestSuite: int, tests: seq<array<int>>)
    requires -1 <= lastDeathTestSuite < suites.Length < MAX_RANGE
    requires forall k :: 0 <= k < |tests| ==> tests[k] != suites && tests[k].Length < MAX_RANGE
    requires forall k, m :: 0 <= k < m < |tests| ==> tests[k] != tests[m]
    modifies random, suites, tests
    ensures var d, n := lastDeathTestSuite + 1, suites.Length;
      && multiset(suites[..d]) == multiset(old(suites[..d]))
      && multiset(suites[d..]) == multiset(old(suites[d..]))
      && suites[..] == BothShuffled(old(suites[..]), d, old(random.state))
      && var between := StateAfter(StateAfter(old(random.state), d), n - d);
        && random.state == StateBefore(between, tests, |tests|)
        && forall k :: 0 <= k < |tests| ==>
          && multiset(tests[k][..]) == multiset(old(tests[k][..]))
          && tests[k][..] == AllShuffled(old(tests[k][..]), StateBefore(between, tests, k))
  {
    hide AllShuffled, StateAfter, BothShuffled;
    ShuffleSuites(random, suites, lastDeathTestSuite);
    ghost var between := random.state;
    ShuffleInside(random, tests);
    forall k | 0 <= k < |tests| ensures multiset(tests[k][..]) == multiset(old(tests[k][..])) {
      AllReordered(old(tests[k][..]), StateBefore(between, tests, k));
    }
  }

  /** The loop over the suites. */
  method ShuffleInside(random: Random, tests: seq<array<int>>)
    requires forall k :: 0 <= k < |tests| ==> tests[k].Length < MAX_RANGE
    requires forall k, m :: 0 <= k < m < |tests| ==> tests[k] != tests[m]
    modifies random, tests
    ensures random.state == StateBefore(old(random.state), tests, |tests|)
    ensures forall k :: 0 <= k < |tests| ==>
      tests[k][..] == AllShuffled(old(tests[k][..]), StateBefore(old(random.state), tests, k))
  {
    hide AllShuffled, StateAfter;
    for i := 0 to |tests|
      invariant random.state == StateBefore(old(random.state), tests, i)
      invariant forall k :: 0 <= k < i ==>
        tests[k][..] == AllShuffled(old(tests[k][..]), StateBefore(old(random.state), tests, k))
      invariant forall k :: i <= k < |tests| ==> tests[k][..] == old(tests[k][..])
    {
      ShuffleAll(random, tests[i]);
    }
  }

  /** Both ranges of the suites, shuffled one after the other. */
  ghost function BothShuffled(s: seq<int>, d: nat, state: Word): seq<int>
    requires d <= |s|
  {
    Shuffled(Shuffled(s, 0, d, Drawn(state, d)), d, |s| - d, Drawn(StateAfter(state, d), |s| - d))
  }

  method ShuffleSuites(random: Random, suites: array<int>, lastDeathTestSuite: int)
    requires -1 <= lastDeathTestSuite < suites.Length < MAX_RANGE
    modifies random, suites
    ensures var d := lastDeathTestSuite + 1;
      && multiset(suites[..d]) == multiset(old(suites[..d]))
      && multiset(suites[d..]) == multiset(old(suites[d..]))
      && suites[..] == BothShuffled(old(suites[..]), d, old(random.state))
      && random.state == StateAfter(StateAfter(old(random.state), d), suites.Length - d)
  {
    hide Shuffled, Drawn, StateAfter, IsOrdering, Choices;
    var d := lastDeathTestSuite + 1;
    ghost var s, state := suites[..], random.state;
    var ok := ShuffleRange(random, 0, d, suites);
    OnlyRangeMoves(s, 0, d, Drawn(state, d));
    ghost var t, state' := suites[..], random.state;
    ok := ShuffleRange(random, d, suites.Length, suites);
    OnlyRangeMoves(t, d, suites.Length - d, Drawn(state', suites.Length - d));
    TwoRanges(s, t, suites[..], d);
    assert suites[..d] == suites[..][..d] && suites[d..] == suites[..][d..];
    assert old(suites[..d]) == s[..d] && old(suites[d..]) == s[d..];
  }

  /** Two adjacent ranges are ordered one after the other. */
  lemma TwoRanges<T>(s: seq<T>, t: seq<T>, u: seq<T>, d: nat)
    requires d <= |s| && IsOrdering(t, s, 0, d) && IsOrdering(u, t, d, |s| - d)
    ensures |u| == |s| && multiset(u[..d]) == multiset(s[..d]) && multiset(u[d..]) == multiset(s[d..])
  {
    assert t[0..d] == t[..d] && s[0..d] == s[..d];
    assert u[d..d + (|s| - d)] == u[d..] && t[d..d + (|s| - d)] == t[d..];
  }
}
