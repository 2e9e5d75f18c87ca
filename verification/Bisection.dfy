/** Batch-then-bisect search over an opaque test of a list of removals, beside the
    one-at-a-time loop it replaced. */
module Bisection {
  import opened Ordering

  /** `accepted` and `kept` as a search leaves them, and every list it tested, in order. */
  datatype Outcome<T> = Outcome(accepted: seq<T>, kept: seq<T>, tests: seq<seq<T>>)

  function Bisect<T>(test: seq<T> -> bool, accepted: seq<T>, group: seq<T>): Outcome<T>
    decreases |group|
  {
    if group == [] then Outcome(accepted, [], [])
    else if test(accepted + group) then Outcome(accepted + group, [], [accepted + group])
    else if |group| == 1 then Outcome(accepted, group, [accepted + group])
    else
      var left := Bisect(test, accepted, group[..|group| / 2]);
      var right := Bisect(test, left.accepted, group[|group| / 2..]);
      Outcome(right.accepted, left.kept + right.kept, [accepted + group] + left.tests + right.tests)
  }

  /** One test per candidate, in order, kept out when red. */
  function Greedy<T>(test: seq<T> -> bool, accepted: seq<T>, group: seq<T>): Outcome<T>
    decreases |group|
  {
    if group == [] then Outcome(accepted, [], [])
    else
      var ok := test(accepted + [group[0]]);
      var rest := Greedy(test, if ok then accepted + [group[0]] else accepted, group[1..]);
      Outcome(rest.accepted, (if ok then [] else [group[0]]) + rest.kept, [accepted + [group[0]]] + rest.tests)
  }

  lemma {:induction false} BisectExtends<T>(test: seq<T> -> bool, accepted: seq<T>, group: seq<T>)
    ensures accepted <= Bisect(test, accepted, group).accepted
    decreases |group|
  {
    if |group| > 1 && !test(accepted + group) {
      BisectExtends(test, accepted, group[..|group| / 2]);
      var left := Bisect(test, accepted, group[..|group| / 2]).accepted;
      BisectExtends(test, left, group[|group| / 2..]);
    }
  }

  lemma MultisetSplits<T>(s: seq<T>, k: nat)
    requires k <= |s|
    ensures multiset(s) == multiset(s[..k]) + multiset(s[k..])
  {
    assert s == s[..k] + s[k..];
  }

  lemma MultisetConcat<T>(s: seq<T>, t: seq<T>)
    ensures multiset(s + t) == multiset(s) + multiset(t)
  {
  }

  lemma AddBalances<T>(before: multiset<T>, mid: multiset<T>, after: multiset<T>,
                       first: multiset<T>, second: multiset<T>, keptFirst: multiset<T>, keptSecond: multiset<T>)
    requires mid + keptFirst == before + first && after + keptSecond == mid + second
    ensures after + (keptFirst + keptSecond) == before + (first + second)
  {
    forall x ensures (after + (keptFirst + keptSecond))[x] == (before + (first + second))[x] {
      assert (mid + keptFirst)[x] == (before + first)[x] && (after + keptSecond)[x] == (mid + second)[x];
    }
  }

  lemma {:induction false} BisectPartitions<T>(test: seq<T> -> bool, accepted: seq<T>, group: seq<T>)
    ensures var o := Bisect(test, accepted, group);
            multiset(o.accepted) + multiset(o.kept) == multiset(accepted) + multiset(group)
    decreases |group|
  {
    if |group| > 1 && !test(accepted + group) {
      var first, second := group[..|group| / 2], group[|group| / 2..];
      var left := Bisect(test, accepted, first);
      var right := Bisect(test, left.accepted, second);
      BisectPartitions(test, accepted, first);
      BisectPartitions(test, left.accepted, second);
      MultisetSplits(group, |group| / 2);
      MultisetConcat(left.kept, right.kept);
      AddBalances(multiset(accepted), multiset(left.accepted), multiset(right.accepted),
                  multiset(first), multiset(second), multiset(left.kept), multiset(right.kept));
    }
  }

  /** A group that keeps nothing went through as one batch, so a failing group always keeps something:
      its second half would repeat the very test that failed. */
  lemma {:induction false} FailingGroupKeeps<T>(test: seq<T> -> bool, accepted: seq<T>, group: seq<T>)
    requires group != []
    ensures Bisect(test, accepted, group).kept == [] <==> test(accepted + group)
    decreases |group|
  {
    if |group| > 1 && !test(accepted + group) {
      var first, second := group[..|group| / 2], group[|group| / 2..];
      var left := Bisect(test, accepted, first);
      FailingGroupKeeps(test, accepted, first);
      FailingGroupKeeps(test, left.accepted, second);
      if left.kept == [] {
        assert group == first + second;
        Regroup(accepted, first, second);
      }
    }
  }

  // ---------------------------------------------------------------- test bound

  function Pow2(n: nat): nat { if n == 0 then 1 else 2 * Pow2(n - 1) }

  function CeilLog2(n: nat): nat { if n <= 1 then 0 else 1 + CeilLog2((n + 1) / 2) }

  /** `CeilLog2(n)` is the least exponent whose power of two reaches `n`. */
  lemma {:induction false} CeilLog2IsLeast(n: nat)
    requires n >= 1
    ensures n <= Pow2(CeilLog2(n))
    ensures n >= 2 ==> Pow2(CeilLog2(n) - 1) < n
  {
    if n >= 2 { CeilLog2IsLeast((n + 1) / 2); }
  }

  /** The most tests a search may spend that keeps `kept` of its candidates: one, and two at each of
      `depth` levels of halving for every candidate kept. */
  function Budget(kept: nat, depth: nat): nat { if kept == 0 then 1 else Budget(kept - 1, depth) + 2 * depth }

  lemma {:induction false} BudgetClosed(kept: nat, depth: nat)
    ensures Budget(kept, depth) == 1 + 2 * kept * depth
  {
    if kept > 0 {
      BudgetClosed(kept - 1, depth);
      assert kept * depth == (kept - 1) * depth + depth;
    }
  }

  lemma {:induction false} BudgetDeepens(kept: nat, depth: nat)
    ensures Budget(kept, depth + 1) == Budget(kept, depth) + 2 * kept
  {
    if kept > 0 { BudgetDeepens(kept - 1, depth); }
  }

  lemma {:induction false} BudgetSums(left: nat, right: nat, depth: nat)
    ensures Budget(left, depth) + Budget(right, depth) == Budget(left + right, depth) + 1
  {
    if left > 0 { BudgetSums(left - 1, right, depth); }
  }

  lemma HalvesFit(n: nat, depth: nat)
    requires 2 <= n <= Pow2(depth)
    ensures depth > 0 && n / 2 <= Pow2(depth - 1) && n - n / 2 <= Pow2(depth - 1)
  {
  }

  lemma BudgetIsPositive(kept: nat, depth: nat)
    ensures Budget(kept, depth) >= 1
  {
  }

  lemma SplitStaysWithin(left: nat, right: nat, tests: nat, keptLeft: nat, keptRight: nat, depth: nat)
    requires depth > 0 && keptLeft + keptRight > 0 && tests == 1 + left + right
    requires left <= Budget(keptLeft, depth - 1) && right <= Budget(keptRight, depth - 1)
    ensures tests <= Budget(keptLeft + keptRight, depth)
  {
    BudgetSums(keptLeft, keptRight, depth - 1);
    BudgetDeepens(keptLeft + keptRight, depth - 1);
  }

  lemma SplitCounts<T>(test: seq<T> -> bool, accepted: seq<T>, group: seq<T>)
    requires |group| > 1 && !test(accepted + group)
    ensures var left := Bisect(test, accepted, group[..|group| / 2]);
            var right := Bisect(test, left.accepted, group[|group| / 2..]);
            var o := Bisect(test, accepted, group);
            |o.kept| == |left.kept| + |right.kept| && |o.tests| == 1 + |left.tests| + |right.tests|
  {
  }

  lemma StopsAtOneTest<T>(test: seq<T> -> bool, accepted: seq<T>, group: seq<T>)
    requires |group| == 1 || (group != [] && test(accepted + group))
    ensures |Bisect(test, accepted, group).tests| == 1
  {
  }

  lemma {:induction false} TestsWithinBudget<T>(test: seq<T> -> bool, accepted: seq<T>, group: seq<T>, depth: nat)
    requires group != [] && |group| <= Pow2(depth)
    ensures var o := Bisect(test, accepted, group); |o.tests| <= Budget(|o.kept|, depth)
    decreases |group|
  {
    hide Budget, Pow2, Bisect;
    if |group| == 1 || test(accepted + group) {
      StopsAtOneTest(test, accepted, group);
      BudgetIsPositive(|Bisect(test, accepted, group).kept|, depth);
    } else {
      FailingGroupKeeps(test, accepted, group);
      var first, second := group[..|group| / 2], group[|group| / 2..];
      var left := Bisect(test, accepted, first);
      var right := Bisect(test, left.accepted, second);
      HalvesFit(|group|, depth);
      TestsWithinBudget(test, accepted, first, depth - 1);
      TestsWithinBudget(test, left.accepted, second, depth - 1);
      SplitCounts(test, accepted, group);
      SplitStaysWithin(|left.tests|, |right.tests|, |Bisect(test, accepted, group).tests|, |left.kept|, |right.kept|,
        depth);
    }
  }

  /** O(1) tests when nothing is kept, O(k log n) when k candidates are. */
  lemma TestBound<T>(test: seq<T> -> bool, accepted: seq<T>, group: seq<T>)
    requires group != []
    ensures var o := Bisect(test, accepted, group);
            && |o.tests| <= 1 + 2 * |o.kept| * CeilLog2(|group|)
            && (o.kept == [] <==> |o.tests| == 1 && o.accepted == accepted + group)
  {
    FailingGroupKeeps(test, accepted, group);
    CeilLog2IsLeast(|group|);
    TestsWithinBudget(test, accepted, group, CeilLog2(|group|));
    BudgetClosed(|Bisect(test, accepted, group).kept|, CeilLog2(|group|));
  }

  // ------------------------------------------------- equivalence with the loop

  ghost predicate SameVerdict<T>(a: Outcome<T>, b: Outcome<T>) { a.accepted == b.accepted && a.kept == b.kept }

  /** Every prefix of `accepted` longer than `from` passes on its own. */
  ghost predicate PrefixesPass<T>(test: seq<T> -> bool, from: nat, accepted: seq<T>) {
    forall i :: from < i <= |accepted| ==> test(accepted[..i])
  }

  function Step<T>(test: seq<T> -> bool, accepted: seq<T>, x: T): seq<T> {
    if test(accepted + [x]) then accepted + [x] else accepted
  }

  lemma {:induction false} GreedySplits<T>(test: seq<T> -> bool, accepted: seq<T>, first: seq<T>, second: seq<T>)
    ensures var left := Greedy(test, accepted, first);
            var right := Greedy(test, left.accepted, second);
            var o := Greedy(test, accepted, first + second);
            o.accepted == right.accepted && o.kept == left.kept + right.kept
    decreases |first|
  {
    if first == [] {
      assert first + second == second;
    } else {
      var next := Step(test, accepted, first[0]);
      GreedySplits(test, next, first[1..], second);
      assert (first + second)[1..] == first[1..] + second;
      var refused := if test(accepted + [first[0]]) then [] else [first[0]];
      var l, r := Greedy(test, next, first[1..]).kept,
        Greedy(test, Greedy(test, accepted, first).accepted, second).kept;
      Regroup(refused, l, r);
    }
  }

  lemma {:induction false} GreedyTakesPassingPrefixes<T>(test: seq<T> -> bool, accepted: seq<T>, group: seq<T>)
    requires PrefixesPass(test, |accepted|, accepted + group)
    ensures SameVerdict(Greedy(test, accepted, group), Outcome(accepted + group, [], []))
    decreases |group|
  {
    if group == [] {
      assert accepted + group == accepted;
    } else {
      var next := accepted + [group[0]];
      assert (accepted + group)[..|accepted| + 1] == next;
      assert next + group[1..] == accepted + group;
      GreedyTakesPassingPrefixes(test, next, group[1..]);
    }
  }

  lemma {:induction false} GreedyPrefixesPass<T>(test: seq<T> -> bool, accepted: seq<T>, group: seq<T>)
    ensures accepted <= Greedy(test, accepted, group).accepted
    ensures PrefixesPass(test, |accepted|, Greedy(test, accepted, group).accepted)
    decreases |group|
  {
    if group != [] {
      var next := Step(test, accepted, group[0]);
      GreedyPrefixesPass(test, next, group[1..]);
      var all := Greedy(test, accepted, group).accepted;
      assert all == Greedy(test, next, group[1..]).accepted;
      if |next| == |accepted| + 1 {
        assert all[..|accepted| + 1] == next;
      }
    }
  }

  lemma PrefixOfPrefix<T>(test: seq<T> -> bool, from: nat, short: seq<T>, long: seq<T>)
    requires short <= long && PrefixesPass(test, from, long)
    ensures PrefixesPass(test, from, short)
  {
    forall i | from < i <= |short| ensures test(short[..i]) {
      assert short[..i] == long[..i];
    }
  }

  lemma {:induction false} BisectFollowsGreedy<T>(test: seq<T> -> bool, accepted: seq<T>, group: seq<T>)
    requires PrefixesPass(test, |accepted|, Bisect(test, accepted, group).accepted)
    ensures SameVerdict(Bisect(test, accepted, group), Greedy(test, accepted, group))
    decreases |group|
  {
    if group == [] {
    } else if test(accepted + group) {
      GreedyTakesPassingPrefixes(test, accepted, group);
    } else if |group| == 1 {
      assert [group[0]] == group && group[1..] == [];
      assert group + [] == group;
    } else {
      var first, second := group[..|group| / 2], group[|group| / 2..];
      assert group == first + second;
      var left := Bisect(test, accepted, first);
      BisectExtends(test, accepted, first);
      BisectExtends(test, left.accepted, second);
      PrefixOfPrefix(test, |accepted|, left.accepted, Bisect(test, left.accepted, second).accepted);
      BisectFollowsGreedy(test, accepted, first);
      BisectFollowsGreedy(test, left.accepted, second);
      GreedySplits(test, accepted, first, second);
    }
  }

  /** For an arbitrary test the search and the loop reach the same verdict exactly when every
      growing prefix of what the search accepted passes on its own. */
  lemma BisectEqualsGreedyIff<T>(test: seq<T> -> bool, candidates: seq<T>)
    ensures var o := Bisect(test, [], candidates);
            SameVerdict(o, Greedy(test, [], candidates)) <==> PrefixesPass(test, 0, o.accepted)
  {
    GreedyPrefixesPass(test, [], candidates);
    if PrefixesPass(test, 0, Bisect(test, [], candidates).accepted) {
      BisectFollowsGreedy(test, [], candidates);
    }
  }

  lemma {:induction false} BisectEndsPassing<T>(test: seq<T> -> bool, accepted: seq<T>, group: seq<T>)
    ensures var o := Bisect(test, accepted, group);
            o.accepted == accepted || test(o.accepted)
    decreases |group|
  {
    if |group| > 1 && !test(accepted + group) {
      var left := Bisect(test, accepted, group[..|group| / 2]).accepted;
      BisectEndsPassing(test, accepted, group[..|group| / 2]);
      BisectEndsPassing(test, left, group[|group| / 2..]);
    }
  }

  /** `a` selects some of the entries of `b`. */
  ghost predicate Selects<T>(a: seq<T>, b: seq<T>) { multiset(a) <= multiset(b) }

  /** Accepting more never turns a failing test into a passing one. */
  ghost predicate Monotone<T(!new)>(test: seq<T> -> bool, candidates: seq<T>) {
    forall a, b :: Selects(a, b) && Selects(b, candidates) && test(b) ==> test(a)
  }

  lemma PrefixSelects<T>(s: seq<T>, i: nat)
    requires i <= |s|
    ensures Selects(s[..i], s)
  {
    MultisetSplits(s, i);
  }

  lemma Addend<T>(a: multiset<T>, b: multiset<T>)
    ensures a <= a + b
  {
  }

  lemma BisectSplitsCandidates<T>(test: seq<T> -> bool, candidates: seq<T>)
    ensures var o := Bisect(test, [], candidates);
            && multiset(o.accepted) + multiset(o.kept) == multiset(candidates)
            && |o.accepted| + |o.kept| == |candidates|
  {
    var o := Bisect(test, [], candidates);
    BisectPartitions(test, [], candidates);
    var none: seq<T> := [];
    assert multiset(none) + multiset(candidates) == multiset(candidates);
    assert |multiset(o.accepted) + multiset(o.kept)| == |multiset(o.accepted)| + |multiset(o.kept)|;
    assert |multiset(candidates)| == |candidates| && |multiset(o.accepted)| == |o.accepted| &&
      |multiset(o.kept)| == |o.kept|;
  }

  lemma BisectSelects<T>(test: seq<T> -> bool, candidates: seq<T>)
    ensures Selects(Bisect(test, [], candidates).accepted, candidates)
  {
    var o := Bisect(test, [], candidates);
    BisectSplitsCandidates(test, candidates);
    Addend(multiset(o.accepted), multiset(o.kept));
  }

  /** Under a monotone test the search keeps and accepts exactly what the loop does, in its order. */
  lemma MonotoneBisectEqualsGreedy<T(!new)>(test: seq<T> -> bool, candidates: seq<T>)
    requires Monotone(test, candidates)
    ensures SameVerdict(Bisect(test, [], candidates), Greedy(test, [], candidates))
  {
    var o := Bisect(test, [], candidates);
    BisectSelects(test, candidates);
    BisectEndsPassing(test, [], candidates);
    forall i | 0 < i <= |o.accepted| ensures test(o.accepted[..i]) {
      PrefixSelects(o.accepted, i);
    }
    BisectEqualsGreedyIff(test, candidates);
  }

  /** Each candidate passes or fails by itself. */
  ghost predicate Independent<T(!new)>(test: seq<T> -> bool, good: T -> bool) {
    forall s :: test(s) <==> forall x :: x in s ==> good(x)
  }

  lemma IndependentIsMonotone<T(!new)>(test: seq<T> -> bool, good: T -> bool, candidates: seq<T>)
    requires Independent(test, good)
    ensures Monotone(test, candidates)
  {
    forall a: seq<T>, b: seq<T> | Selects(a, b) && Selects(b, candidates) && test(b) ensures test(a) {
      forall x | x in a ensures good(x) {
        assert x in multiset(a) && x in multiset(b);
      }
    }
  }

  lemma {:induction false} GreedySorts<T(!new)>(test: seq<T> -> bool, good: T -> bool, accepted: seq<T>, group: seq<T>)
      returns (passed: seq<nat>, failed: seq<nat>)
    requires Independent(test, good) && forall x :: x in accepted ==> good(x)
    ensures var o := Greedy(test, accepted, group);
            accepted <= o.accepted && Picked(group, passed, o.accepted[|accepted|..]) && Picked(group, failed, o.kept)
    ensures forall i :: 0 <= i < |group| ==> (i in passed <==> good(group[i])) && (i in failed <==> !good(group[i]))
    decreases |group|
  {
    hide Picked, Independent, Greedy;
    passed, failed := [], [];
    GreedyStep(test, good, accepted, group);
    if group == [] {
      NothingPicked(group);
    } else {
      var x, later := group[0], if good(group[0]) then accepted + [group[0]] else accepted;
      var o, rest := Greedy(test, accepted, group), Greedy(test, later, group[1..]);
      passed, failed := GreedySorts(test, good, later, group[1..]);
      PickedCons(x, group[1..], good(x), passed, rest.accepted[|later|..]);
      PickedCons(x, group[1..], !good(x), failed, rest.kept);
      passed := (if good(x) then [0] else []) + Later(passed);
      failed := (if good(x) then [] else [0]) + Later(failed);
      assert [x] + group[1..] == group;
      assert o.accepted[|accepted|..] == (if good(x) then [x] else []) + rest.accepted[|later|..];
    }
  }

  lemma GreedyStep<T(!new)>(test: seq<T> -> bool, good: T -> bool, accepted: seq<T>, group: seq<T>)
    requires Independent(test, good) && forall x :: x in accepted ==> good(x)
    ensures var o := Greedy(test, accepted, group);
            if group == [] then o.accepted[|accepted|..] == [] && o.kept == [] && o.accepted == accepted
            else
              var later := if good(group[0]) then accepted + [group[0]] else accepted;
              var rest := Greedy(test, later, group[1..]);
              && o.accepted == rest.accepted && (forall x :: x in later ==> good(x))
              && o.kept == (if good(group[0]) then [] else [group[0]]) + rest.kept
  {
    if group != [] {
      var next := accepted + [group[0]];
      assert next[|accepted|] == group[0] && forall y :: y in next ==> y in accepted || y == group[0];
    }
  }

  /** Where each candidate passes or fails by itself the search tells the two apart: it accepts exactly those that pass
      and keeps exactly those that fail, each list in its order. */
  lemma IndependentBisect<T(!new)>(test: seq<T> -> bool, good: T -> bool, candidates: seq<T>)
      returns (passed: seq<nat>, failed: seq<nat>)
    requires Independent(test, good)
    ensures var o := Bisect(test, [], candidates);
            Picked(candidates, passed, o.accepted) && Picked(candidates, failed, o.kept)
    ensures forall i :: 0 <= i < |candidates| ==>
              (i in passed <==> good(candidates[i])) && (i in failed <==> !good(candidates[i]))
  {
    IndependentIsMonotone(test, good, candidates);
    MonotoneBisectEqualsGreedy(test, candidates);
    hide Independent, Bisect, Greedy;
    passed, failed := GreedySorts(test, good, [], candidates);
    assert Greedy(test, [], candidates).accepted[0..] == Greedy(test, [], candidates).accepted;
  }

  /** Whatever the test, a kept candidate failed on top of some prefix of what was accepted. */
  lemma {:induction false} KeptFailed<T>(test: seq<T> -> bool, accepted: seq<T>, group: seq<T>, x: T) returns (n: nat)
    requires x in Bisect(test, accepted, group).kept
    ensures n <= |Bisect(test, accepted, group).accepted| && !test(Bisect(test, accepted, group).accepted[..n] + [x])
    decreases |group|
  {
    n := |accepted|;
    if |group| == 1 {
      assert group == [x] && accepted[..n] == accepted;
    } else {
      var first, second := group[..|group| / 2], group[|group| / 2..];
      var left := Bisect(test, accepted, first);
      var right := Bisect(test, left.accepted, second);
      if x in left.kept {
        n := KeptFailed(test, accepted, first, x);
        BisectExtends(test, left.accepted, second);
        assert left.accepted[..n] == right.accepted[..n];
      } else {
        n := KeptFailed(test, left.accepted, second, x);
      }
    }
  }

  /** Under a monotone test the accepted list is maximal: no selection of the candidates that holds it and more
      passes. */
  lemma MonotoneAcceptsMaximal<T(!new)>(test: seq<T> -> bool, candidates: seq<T>, more: seq<T>)
    requires Monotone(test, candidates) && Selects(more, candidates)
    requires multiset(Bisect(test, [], candidates).accepted) < multiset(more)
    ensures !test(more)
  {
    hide Bisect;
    var o := Bisect(test, [], candidates);
    BisectSplitsCandidates(test, candidates);
    var x := BeyondAccepted(multiset(o.accepted), multiset(o.kept), multiset(more));
    var n := KeptFailed(test, [], candidates, x);
    PrefixSelects(o.accepted, n);
    OneMoreSelects(o.accepted[..n], o.accepted, more, x);
  }

  lemma BeyondAccepted<T>(accepted: multiset<T>, kept: multiset<T>, more: multiset<T>) returns (x: T)
    requires accepted < more <= accepted + kept
    ensures accepted[x] < more[x] && x in kept
  {
    x :| accepted[x] < more[x];
    assert more[x] <= (accepted + kept)[x];
  }

  lemma OneMoreSelects<T>(prefix: seq<T>, accepted: seq<T>, more: seq<T>, x: T)
    requires Selects(prefix, accepted) && Selects(accepted, more) && multiset(accepted)[x] < multiset(more)[x]
    ensures Selects(prefix + [x], more)
  {
    assert multiset(prefix + [x]) == multiset(prefix) + multiset{x};
  }

  /** Without monotonicity the verdicts can differ: here only the pair passes. */
  lemma NonMonotoneDiffers()
    ensures exists test: seq<int> -> bool :: !SameVerdict(Bisect(test, [], [1, 2]), Greedy(test, [], [1, 2]))
  {
    var test := (s: seq<int>) => |s| == 2;
    assert [] + [1, 2] == [1, 2];
    GreedyPrefixesPass(test, [], [1, 2]);
    assert Bisect(test, [], [1, 2]).accepted == [1, 2];
    assert [1, 2][..1] == [1];
  }

  // --------------------------------------------------------- the last good test

  /** The last test in the log that passed, or `initial` if none did. */
  ghost function LastPassing<T>(test: seq<T> -> bool, tests: seq<seq<T>>, initial: seq<T>): seq<T> {
    if tests == [] then initial
    else if test(tests[|tests| - 1]) then tests[|tests| - 1]
    else LastPassing(test, tests[..|tests| - 1], initial)
  }

  lemma {:induction false} LastPassingConcat<T>(test: seq<T> -> bool, a: seq<seq<T>>, b: seq<seq<T>>, initial: seq<T>)
    ensures LastPassing(test, a + b, initial) == LastPassing(test, b, LastPassing(test, a, initial))
    decreases |b|
  {
    if b == [] {
      assert a + b == a;
    } else {
      assert (a + b)[..|a + b| - 1] == a + b[..|b| - 1];
      LastPassingConcat(test, a, b[..|b| - 1], initial);
    }
  }

  lemma LastPassingSingle<T>(test: seq<T> -> bool, a: seq<T>, initial: seq<T>)
    ensures LastPassing(test, [a], initial) == if test(a) then a else initial
  {
    assert [a][..0] == [];
  }

  /** Whatever the test, the accepted list is the argument of the last test that passed. */
  lemma {:induction false} AcceptedIsLastPassing<T>(test: seq<T> -> bool, accepted: seq<T>, group: seq<T>)
    ensures var o := Bisect(test, accepted, group); LastPassing(test, o.tests, accepted) == o.accepted
    decreases |group|
  {
    if group != [] {
      var whole := accepted + group;
      LastPassingSingle(test, whole, accepted);
      if |group| > 1 && !test(whole) {
        var left := Bisect(test, accepted, group[..|group| / 2]);
        var right := Bisect(test, left.accepted, group[|group| / 2..]);
        AcceptedIsLastPassing(test, accepted, group[..|group| / 2]);
        AcceptedIsLastPassing(test, left.accepted, group[|group| / 2..]);
        LastPassingConcat(test, [whole], left.tests, accepted);
        LastPassingConcat(test, [whole] + left.tests, right.tests, accepted);
      }
    }
  }
}
