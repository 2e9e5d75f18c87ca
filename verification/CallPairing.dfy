/** Pairing the call sites of one matched method pair: greedy over the best-scoring candidates. */
module CallPairing {
  import opened Ordering

  datatype CallSite = CallSite(name: string, args: seq<string>, flags: seq<string>)

  /** The spelling table and the two rankings of a candidate pair. */
  datatype Rules = Rules(
    nameKeys: string -> seq<string>,
    similarity: (CallSite, CallSite) -> int,
    blockAffinity: (CallSite, CallSite) -> int
  )

  datatype Candidate = Candidate(rubyIdx: nat, tsIdx: nat, score: int, block: int)

  /** A TS name that is language punctuation, never the port of a Ruby call. */
  const HOMONYM := "call"

  predicate Compatible(rules: Rules, ruby: CallSite, ts: CallSite) {
    ts.name in rules.nameKeys(ruby.name) && ts.name != HOMONYM
  }

  function CandidateOf(rules: Rules, rubySites: seq<CallSite>, tsSites: seq<CallSite>, r: nat, t: nat): Candidate
    requires r < |rubySites| && t < |tsSites|
  {
    Candidate(r, t, rules.similarity(rubySites[r], tsSites[t]), rules.blockAffinity(rubySites[r], tsSites[t]))
  }

  /** Best score first, then block agreement, then Ruby and TS source order. */
  predicate Before(a: Candidate, b: Candidate) {
    || a.score > b.score
    || (a.score == b.score &&
        (a.block > b.block || (a.block == b.block &&
          (a.rubyIdx < b.rubyIdx || (a.rubyIdx == b.rubyIdx && a.tsIdx <= b.tsIdx)))))
  }

  lemma BeforeOrders(s: seq<Candidate>)
    ensures TotalPreorder(Before) && NoTies(Before, s)
  {
  }

  /** `candidates` lists, in some order and without repeats, every compatible pair of sites. */
  ghost predicate Enumerates(rules: Rules, rubySites: seq<CallSite>, tsSites: seq<CallSite>,
                             candidates: seq<Candidate>) {
    && Distinct(candidates)
    && (forall c :: c in candidates ==> IsCandidate(rules, rubySites, tsSites, c))
    && (forall r, t :: 0 <= r < |rubySites| && 0 <= t < |tsSites| && Compatible(rules, rubySites[r], tsSites[t]) ==>
          CandidateOf(rules, rubySites, tsSites, r, t) in candidates)
  }

  ghost predicate IsCandidate(rules: Rules, rubySites: seq<CallSite>, tsSites: seq<CallSite>, c: Candidate) {
    && c.rubyIdx < |rubySites| && c.tsIdx < |tsSites|
    && Compatible(rules, rubySites[c.rubyIdx], tsSites[c.tsIdx])
    && c == CandidateOf(rules, rubySites, tsSites, c.rubyIdx, c.tsIdx)
  }

  predicate Clash(a: Candidate, b: Candidate) { a.rubyIdx == b.rubyIdx || a.tsIdx == b.tsIdx }

  predicate Free(c: Candidate, taken: seq<Candidate>) { forall d :: d in taken ==> !Clash(c, d) }

  /** The candidates the greedy pass takes from a sorted list. */
  function Chosen(sorted: seq<Candidate>): seq<Candidate> {
    if sorted == [] then []
    else
      var taken, last := Chosen(sorted[..|sorted| - 1]), sorted[|sorted| - 1];
      if Free(last, taken) then taken + [last] else taken
  }

  function Matching(candidates: seq<Candidate>): seq<Candidate> { Chosen(SortBy(Before, candidates)) }

  /** The pairs, in Ruby source order. */
  function InRubyOrder(rubySites: seq<CallSite>, tsSites: seq<CallSite>, matched: map<nat, nat>,
                       n: nat): seq<(CallSite, CallSite)>
    requires n <= |rubySites| && forall r :: r in matched ==> matched[r] < |tsSites|
  {
    if n == 0 then []
    else
      InRubyOrder(rubySites, tsSites, matched, n - 1) +
      if n - 1 in matched then [(rubySites[n - 1], tsSites[matched[n - 1]])] else []
  }

  /** `matched` holds exactly the chosen pairs. */
  ghost predicate Records(matched: map<nat, nat>, chosen: seq<Candidate>) {
    && (forall c :: c in chosen ==> c.rubyIdx in matched && matched[c.rubyIdx] == c.tsIdx)
    && (forall r :: r in matched ==> exists c :: c in chosen && c.rubyIdx == r)
  }

  /** Every compatible pair of an earlier Ruby site, or of Ruby site `r` and a TS site before `t`, once. */
  ghost predicate EnumeratesTo(rules: Rules, rubySites: seq<CallSite>, tsSites: seq<CallSite>,
                               candidates: seq<Candidate>, r: nat, t: nat)
    requires r <= |rubySites| && t <= |tsSites|
  {
    && Distinct(candidates)
    && (forall c :: c in candidates ==>
          IsCandidate(rules, rubySites, tsSites, c) && (c.rubyIdx < r || (c.rubyIdx == r && c.tsIdx < t)))
    && (forall i, j | 0 <= i < |rubySites| && 0 <= j < |tsSites| && (i < r || (i == r && j < t)) ::
          Compatible(rules, rubySites[i], tsSites[j]) ==> CandidateOf(rules, rubySites, tsSites, i, j) in candidates)
  }

  lemma EnumerateOne(rules: Rules, rubySites: seq<CallSite>, tsSites: seq<CallSite>, candidates: seq<Candidate>,
                     r: nat, t: nat)
    requires r < |rubySites| && t < |tsSites| && EnumeratesTo(rules, rubySites, tsSites, candidates, r, t)
    ensures if Compatible(rules, rubySites[r], tsSites[t])
            then var more := candidates + [CandidateOf(rules, rubySites, tsSites, r, t)];
                 EnumeratesTo(rules, rubySites, tsSites, more, r, t + 1)
            else EnumeratesTo(rules, rubySites, tsSites, candidates, r, t + 1)
  {
    hide Compatible;
  }

  lemma EnumerateRow(rules: Rules, rubySites: seq<CallSite>, tsSites: seq<CallSite>, candidates: seq<Candidate>,
                     r: nat)
    requires r < |rubySites| && EnumeratesTo(rules, rubySites, tsSites, candidates, r, |tsSites|)
    ensures EnumeratesTo(rules, rubySites, tsSites, candidates, r + 1, 0)
  {
    hide Compatible, CandidateOf;
  }

  method Enumerate(rules: Rules, rubySites: seq<CallSite>, tsSites: seq<CallSite>) returns (candidates: seq<Candidate>)
    ensures Enumerates(rules, rubySites, tsSites, candidates)
  {
    candidates := [];
    for r := 0 to |rubySites|
      invariant EnumeratesTo(rules, rubySites, tsSites, candidates, r, 0)
    {
      hide *;
      for t := 0 to |tsSites|
        invariant EnumeratesTo(rules, rubySites, tsSites, candidates, r, t)
      {
        EnumerateOne(rules, rubySites, tsSites, candidates, r, t);
        if Compatible(rules, rubySites[r], tsSites[t]) {
          candidates := candidates + [CandidateOf(rules, rubySites, tsSites, r, t)];
        }
      }
      EnumerateRow(rules, rubySites, tsSites, candidates, r);
    }
  }

  ghost predicate TakenAre(taken: seq<Candidate>, ruby: set<nat>, ts: set<nat>) {
    && (forall r :: r in ruby <==> exists c :: c in taken && c.rubyIdx == r)
    && (forall t :: t in ts <==> exists c :: c in taken && c.tsIdx == t)
  }

  lemma TakenGrows(taken: seq<Candidate>, ruby: set<nat>, ts: set<nat>, matched: map<nat, nat>, c: Candidate)
    requires TakenAre(taken, ruby, ts) && Records(matched, taken)
    ensures Free(c, taken) <==> c.rubyIdx !in ruby && c.tsIdx !in ts
    ensures TakenAre(taken + [c], ruby + {c.rubyIdx}, ts + {c.tsIdx})
    ensures Free(c, taken) ==> Records(matched[c.rubyIdx := c.tsIdx], taken + [c])
  {
    assert forall d :: d in taken + [c] <==> d in taken || d == c;
    if Free(c, taken) {
      forall d | d in taken ensures !Clash(c, d) {}
    }
  }

  /** One pass over the sorted candidates, taking each whose two sites are both free. */
  method TakeGreedily(sorted: seq<Candidate>) returns (matched: map<nat, nat>)
    ensures Records(matched, Chosen(sorted))
  {
    hide Free, TakenAre, Records;
    var takenRuby: set<nat>, takenTs: set<nat> := {}, {};
    matched := map[];
    NothingTaken();
    for i := 0 to |sorted|
      invariant TakenAre(Chosen(sorted[..i]), takenRuby, takenTs) && Records(matched, Chosen(sorted[..i]))
    {
      assert sorted[..i + 1][..i] == sorted[..i];
      var c := sorted[i];
      TakenGrows(Chosen(sorted[..i]), takenRuby, takenTs, matched, c);
      if c.rubyIdx in takenRuby || c.tsIdx in takenTs {
        continue;
      }
      takenRuby, takenTs := takenRuby + {c.rubyIdx}, takenTs + {c.tsIdx};
      matched := matched[c.rubyIdx := c.tsIdx];
    }
    assert sorted[..|sorted|] == sorted;
  }

  lemma NothingTaken()
    ensures TakenAre([], {}, {}) && Records(map[], [])
  {
  }

  /** The pairs list, in Ruby source order, the matching chosen from an enumeration of the candidates. */
  ghost predicate PairedBy(rules: Rules, rubySites: seq<CallSite>, tsSites: seq<CallSite>, candidates: seq<Candidate>,
                           matched: map<nat, nat>, pairs: seq<(CallSite, CallSite)>) {
    && Enumerates(rules, rubySites, tsSites, candidates) && Records(matched, Matching(candidates))
    && (forall r :: r in matched ==> matched[r] < |tsSites|)
    && pairs == InRubyOrder(rubySites, tsSites, matched, |rubySites|)
  }

  lemma {:induction false} ChosenMembers(sorted: seq<Candidate>)
    ensures forall c :: c in Chosen(sorted) ==> c in sorted
  {
    if sorted != [] { ChosenMembers(sorted[..|sorted| - 1]); }
  }

  // ---------------------------------------------------------------- stability

  /** A choice of candidates in which no site is used twice and every candidate left out has lost
      a site to a chosen one that stands before it. */
  ghost predicate StableMatching(sorted: seq<Candidate>, m: set<Candidate>) {
    && (forall c :: c in m ==> c in sorted)
    && (forall c, d :: c in m && d in m && c != d ==> !Clash(c, d))
    && (forall i :: 0 <= i < |sorted| && sorted[i] !in m ==> Blocked(sorted, m, i))
  }

  ghost predicate Blocked(sorted: seq<Candidate>, m: set<Candidate>, i: nat)
    requires i < |sorted|
  {
    exists j :: 0 <= j < i && sorted[j] in m && Clash(sorted[i], sorted[j])
  }

  ghost function Picks(s: seq<Candidate>): set<Candidate> { set c | c in s }

  lemma {:induction false} ChosenNeverClash(sorted: seq<Candidate>)
    ensures forall c, d :: c in Chosen(sorted) && d in Chosen(sorted) && c != d ==> !Clash(c, d)
  {
    if sorted != [] { ChosenNeverClash(sorted[..|sorted| - 1]); }
  }

  lemma {:induction false} UnchosenAreBlocked(sorted: seq<Candidate>, i: nat)
    requires i < |sorted| && sorted[i] !in Chosen(sorted)
    ensures Blocked(sorted, Picks(Chosen(sorted)), i)
  {
    var init, last := sorted[..|sorted| - 1], sorted[|sorted| - 1];
    var m := Picks(Chosen(sorted));
    assert Picks(Chosen(init)) <= m;
    if i < |init| {
      UnchosenAreBlocked(init, i);
      var j :| 0 <= j < i && init[j] in Picks(Chosen(init)) && Clash(init[i], init[j]);
      assert sorted[j] in m;
    } else {
      var d :| d in Chosen(init) && Clash(last, d);
      ChosenMembers(init);
      var j :| 0 <= j < |init| && init[j] == d;
      assert sorted[j] in m;
    }
  }

  lemma ChosenIsStable(sorted: seq<Candidate>)
    ensures StableMatching(sorted, Picks(Chosen(sorted)))
  {
    hide Clash, Chosen;
    ChosenMembers(sorted);
    ChosenNeverClash(sorted);
    forall i | 0 <= i < |sorted| && sorted[i] !in Picks(Chosen(sorted))
      ensures Blocked(sorted, Picks(Chosen(sorted)), i) {
      UnchosenAreBlocked(sorted, i);
    }
  }

  /** A sorted candidate list has only one stable matching, so the greedy choice is determined by
      stability alone. */
  lemma StableIsUnique(sorted: seq<Candidate>, m: set<Candidate>, n: set<Candidate>)
    requires StableMatching(sorted, m) && StableMatching(sorted, n)
    ensures m == n
  {
    forall c ensures c in m <==> c in n {
      if c in m || c in n {
        var i :| 0 <= i < |sorted| && sorted[i] == c;
        StableAgree(sorted, m, n, i);
      }
    }
  }

  lemma {:induction false} StableAgree(sorted: seq<Candidate>, m: set<Candidate>, n: set<Candidate>, i: nat)
    requires StableMatching(sorted, m) && StableMatching(sorted, n) && i < |sorted|
    ensures sorted[i] in m <==> sorted[i] in n
  {
    forall j | 0 <= j < i ensures sorted[j] in m <==> sorted[j] in n { StableAgree(sorted, m, n, j); }
    if sorted[i] !in n { assert Blocked(sorted, n, i); }
    if sorted[i] !in m { assert Blocked(sorted, m, i); }
  }

  /** The verdict does not depend on the order the candidates were enumerated in. */
  lemma MatchingIgnoresEnumeration(rules: Rules, rubySites: seq<CallSite>, tsSites: seq<CallSite>,
                                   candidates: seq<Candidate>, others: seq<Candidate>)
    requires Enumerates(rules, rubySites, tsSites, candidates) && Enumerates(rules, rubySites, tsSites, others)
    ensures Matching(candidates) == Matching(others)
  {
    hide Compatible, Before;
    SameMembersSameCounts(candidates, others);
    BeforeOrders(candidates);
    SortIgnoresOrder(Before, candidates, others);
  }

  // ---------------------------------------------------------------- maximality

  ghost function RubyNamed(rubySites: seq<CallSite>, name: string): set<nat> {
    set r: nat | r < |rubySites| && rubySites[r].name == name
  }

  /** The TS sites a Ruby call of this name may pair with. */
  ghost function SpelledFor(rules: Rules, tsSites: seq<CallSite>, name: string): set<nat> {
    set t: nat | t < |tsSites| && Compatible(rules, CallSite(name, [], []), tsSites[t])
  }

  /** No other Ruby name of the body may pair with those sites. */
  ghost predicate Exclusive(rules: Rules, rubySites: seq<CallSite>, tsSites: seq<CallSite>, name: string) {
    forall r: nat, t ::
      (r < |rubySites| && t in SpelledFor(rules, tsSites, name) && Compatible(rules, rubySites[r], tsSites[t])) ==>
        r in RubyNamed(rubySites, name)
  }

  ghost function PairedNamed(rubySites: seq<CallSite>, matched: map<nat, nat>, name: string): set<nat> {
    set r | r in matched && r in RubyNamed(rubySites, name)
  }

  /** An injective map has as many images as keys. */
  lemma {:induction false} InjectiveImage(keys: set<nat>, m: map<nat, nat>, image: set<nat>)
    requires forall k :: k in keys ==> k in m && m[k] in image
    requires forall t :: t in image ==> exists k :: k in keys && m[k] == t
    requires forall k, l :: k in keys && l in keys && k != l ==> m[k] != m[l]
    ensures |keys| == |image|
  {
    if keys == {} {
      assert image == {};
    } else {
      var k :| k in keys;
      InjectiveImage(keys - {k}, m, image - {m[k]});
    }
  }

  function Min(a: nat, b: nat): nat { if a <= b then a else b }

  /** Some endpoint set of an exclusive name is used up: a free Ruby site and a free TS site never both remain. */
  lemma OneSideExhausted(rules: Rules, rubySites: seq<CallSite>, tsSites: seq<CallSite>, candidates: seq<Candidate>,
                         name: string, r: nat, t: nat)
    requires Enumerates(rules, rubySites, tsSites, candidates) && Exclusive(rules, rubySites, tsSites, name)
    requires r in RubyNamed(rubySites, name) && t in SpelledFor(rules, tsSites, name)
    ensures exists d ::
              && d in Matching(candidates)
              && d.rubyIdx in RubyNamed(rubySites, name)
              && (d.rubyIdx == r || d.tsIdx == t)
  {
    hide Chosen, SortBy, Before;
    var sorted := SortBy(Before, candidates);
    SameElements(sorted, candidates);
    ChosenIsStable(sorted);
    ChosenMembers(sorted);
    assert Compatible(rules, rubySites[r], tsSites[t]);
    var c := CandidateOf(rules, rubySites, tsSites, r, t);
    assert c in candidates;
    if c !in Matching(candidates) {
      var i :| 0 <= i < |sorted| && sorted[i] == c;
      assert Blocked(sorted, Picks(Chosen(sorted)), i);
      var j :| 0 <= j < i && sorted[j] in Picks(Chosen(sorted)) && Clash(c, sorted[j]);
      var d := sorted[j];
      assert d in candidates && IsCandidate(rules, rubySites, tsSites, d);
    }
  }

  /** A name whose TS spellings no other Ruby name of the body shares pairs exactly as many sites as
      the scarcer side has. */
  lemma PairsTheScarcerSide(rules: Rules, rubySites: seq<CallSite>, tsSites: seq<CallSite>, candidates: seq<Candidate>,
                            matched: map<nat, nat>, name: string)
    requires Enumerates(rules, rubySites, tsSites, candidates) && Records(matched, Matching(candidates))
    requires Exclusive(rules, rubySites, tsSites, name)
    ensures |PairedNamed(rubySites, matched, name)| ==
            Min(|RubyNamed(rubySites, name)|, |SpelledFor(rules, tsSites, name)|)
  {
    hide Matching, Exclusive, Compatible;
    var rs, ts, paired := RubyNamed(rubySites, name), SpelledFor(rules, tsSites, name),
      PairedNamed(rubySites, matched, name);
    var used := set r | r in paired :: matched[r];
    MatchedIsSound(rules, rubySites, tsSites, candidates, matched, name);
    InjectiveImage(paired, matched, used);
    SubsetSize(paired, rs);
    SubsetSize(used, ts);
    if paired != rs && used != ts {
      var r :| r in rs && r !in paired;
      var t :| t in ts && t !in used;
      OneSideExhausted(rules, rubySites, tsSites, candidates, name, r, t);
      assert false;
    }
  }

  /** The recorded matching is injective and pairs only compatible sites. */
  lemma MatchedIsSound(rules: Rules, rubySites: seq<CallSite>, tsSites: seq<CallSite>, candidates: seq<Candidate>,
                       matched: map<nat, nat>, name: string)
    requires Enumerates(rules, rubySites, tsSites, candidates) && Records(matched, Matching(candidates))
    ensures forall r :: r in matched ==>
      r < |rubySites| && matched[r] < |tsSites| && Compatible(rules, rubySites[r], tsSites[matched[r]])
    ensures forall r, s :: r in matched && s in matched && r != s ==> matched[r] != matched[s]
    ensures forall r :: r in PairedNamed(rubySites, matched, name) ==> matched[r] in SpelledFor(rules, tsSites, name)
  {
    hide Chosen, SortBy, Before;
    var sorted := SortBy(Before, candidates);
    SameElements(sorted, candidates);
    ChosenMembers(sorted);
    ChosenNeverClash(sorted);
    forall r | r in matched
      ensures r < |rubySites| && matched[r] < |tsSites| && Compatible(rules, rubySites[r], tsSites[matched[r]])
    {
      var c :| c in Chosen(sorted) && c.rubyIdx == r;
      assert c in candidates;
    }
    forall r, s | r in matched && s in matched && r != s ensures matched[r] != matched[s] {
      var c :| c in Chosen(sorted) && c.rubyIdx == r;
      var d :| d in Chosen(sorted) && d.rubyIdx == s;
      assert !Clash(c, d);
    }
  }

  /** Best first: a compatible pair left unmatched has lost a site to a matched pair ahead of it. Ahead is more
      similar; as similar and of a greater block affinity; or as good in both and earlier in source order. */
  lemma BestGoFirst(rules: Rules, rubySites: seq<CallSite>, tsSites: seq<CallSite>, candidates: seq<Candidate>,
                    matched: map<nat, nat>, r: nat, t: nat) returns (q: nat)
    requires Enumerates(rules, rubySites, tsSites, candidates) && Records(matched, Matching(candidates))
    requires r < |rubySites| && t < |tsSites|
    requires tsSites[t].name in rules.nameKeys(rubySites[r].name) && tsSites[t].name != "call"
    requires !(r in matched && matched[r] == t)
    ensures q in matched && q < |rubySites| && matched[q] < |tsSites| && (q == r || matched[q] == t)
    ensures var more := rules.similarity(rubySites[q], tsSites[matched[q]]);
            var less := rules.similarity(rubySites[r], tsSites[t]);
            var moreBlock := rules.blockAffinity(rubySites[q], tsSites[matched[q]]);
            var lessBlock := rules.blockAffinity(rubySites[r], tsSites[t]);
            (more > less || (more == less &&
             (moreBlock > lessBlock || (moreBlock == lessBlock && (q < r || (q == r && matched[q] < t))))))
  {
    var c := CandidateOf(rules, rubySites, tsSites, r, t);
    assert Compatible(rules, rubySites[r], tsSites[t]) && c in candidates;
    BeforeOrders(candidates);
    hide *;
    SortBySorted(Before, candidates);
    SameElements(SortBy(Before, candidates), candidates);
    var d := Blocker(SortBy(Before, candidates), matched, c);
    CandidatesAre(rules, rubySites, tsSites, candidates, c);
    CandidatesAre(rules, rubySites, tsSites, candidates, d);
    q := d.rubyIdx;
    BeforeMeans(rules, rubySites, tsSites, d, c);
  }

  /** The chosen candidate an unmatched one lost to. */
  lemma Blocker(sorted: seq<Candidate>, matched: map<nat, nat>, c: Candidate) returns (d: Candidate)
    requires Sorted(Before, sorted) && Records(matched, Chosen(sorted))
    requires c in sorted && !(c.rubyIdx in matched && matched[c.rubyIdx] == c.tsIdx)
    ensures d in sorted && d.rubyIdx in matched && matched[d.rubyIdx] == d.tsIdx && Clash(c, d) && Before(d, c)
  {
    hide Before, Chosen, Clash;
    assert c !in Chosen(sorted);
    var i :| 0 <= i < |sorted| && sorted[i] == c;
    UnchosenAreBlocked(sorted, i);
    var j :| 0 <= j < i && sorted[j] in Picks(Chosen(sorted)) && Clash(sorted[i], sorted[j]);
    d := sorted[j];
  }

  lemma CandidatesAre(rules: Rules, rubySites: seq<CallSite>, tsSites: seq<CallSite>, candidates: seq<Candidate>,
                      c: Candidate)
    requires Enumerates(rules, rubySites, tsSites, candidates) && c in candidates
    ensures IsCandidate(rules, rubySites, tsSites, c)
  {
    hide IsCandidate;
  }

  lemma BeforeMeans(rules: Rules, rubySites: seq<CallSite>, tsSites: seq<CallSite>, d: Candidate, c: Candidate)
    requires IsCandidate(rules, rubySites, tsSites, d) && IsCandidate(rules, rubySites, tsSites, c)
    requires Before(d, c) && Clash(c, d) && (d.rubyIdx, d.tsIdx) != (c.rubyIdx, c.tsIdx)
    ensures d.rubyIdx < |rubySites| && d.tsIdx < |tsSites| && c.rubyIdx < |rubySites| && c.tsIdx < |tsSites|
    ensures d.rubyIdx == c.rubyIdx || d.tsIdx == c.tsIdx
    ensures var more := rules.similarity(rubySites[d.rubyIdx], tsSites[d.tsIdx]);
            var less := rules.similarity(rubySites[c.rubyIdx], tsSites[c.tsIdx]);
            var moreBlock := rules.blockAffinity(rubySites[d.rubyIdx], tsSites[d.tsIdx]);
            var lessBlock := rules.blockAffinity(rubySites[c.rubyIdx], tsSites[c.tsIdx]);
            (more > less || (more == less &&
             (moreBlock > lessBlock || (moreBlock == lessBlock &&
              (d.rubyIdx < c.rubyIdx || (d.rubyIdx == c.rubyIdx && d.tsIdx < c.tsIdx))))))
  {
    hide Compatible;
  }

  /** The pairs of a matching, in Ruby source order, by the sites they come from. */
  lemma {:induction false} OrderOf(rubySites: seq<CallSite>, tsSites: seq<CallSite>, matched: map<nat, nat>, n: nat)
      returns (order: seq<nat>)
    requires n <= |rubySites| && forall r :: r in matched ==> matched[r] < |tsSites|
    ensures |order| == |InRubyOrder(rubySites, tsSites, matched, n)|
    ensures forall r :: r in order <==> r in matched && r < n
    ensures forall i, j :: 0 <= i < j < |order| ==> order[i] < order[j]
    ensures forall i :: 0 <= i < |order| ==>
      order[i] < |rubySites| && order[i] in matched &&
      InRubyOrder(rubySites, tsSites, matched, n)[i] == (rubySites[order[i]], tsSites[matched[order[i]]])
  {
    if n == 0 {
      order := [];
    } else {
      order := OrderOf(rubySites, tsSites, matched, n - 1);
      assert forall i :: 0 <= i < |order| ==> order[i] in order;
      if n - 1 in matched { order := order + [n - 1]; }
    }
  }

  /** The pairs, in Ruby source order, of a matching that joins compatible sites only, no site twice, and leaves a
      compatible pair out only where one of its sites went to a better pair. */
  method PairCallSites(rules: Rules, rubySites: seq<CallSite>, tsSites: seq<CallSite>)
      returns (pairs: seq<(CallSite, CallSite)>, ghost matched: map<nat, nat>, ghost order: seq<nat>)
    ensures exists candidates, m :: PairedBy(rules, rubySites, tsSites, candidates, m, pairs)
    ensures exists candidates :: PairedBy(rules, rubySites, tsSites, candidates, matched, pairs)
    ensures forall r :: r in matched ==>
      r < |rubySites| && matched[r] < |tsSites| && tsSites[matched[r]].name in rules.nameKeys(rubySites[r].name) &&
      tsSites[matched[r]].name != "call"
    ensures forall r, s :: r in matched && s in matched && r != s ==> matched[r] != matched[s]
    ensures forall r: nat, t: nat | r < |rubySites| && t < |tsSites| ::
      tsSites[t].name in rules.nameKeys(rubySites[r].name) && tsSites[t].name != "call" &&
      !(r in matched && matched[r] == t) ==>
        exists q ::
            q in matched && (q == r || matched[q] == t) &&
            var more, less := rules.similarity(rubySites[q], tsSites[matched[q]]),
                              rules.similarity(rubySites[r], tsSites[t]);
            var moreBlock := rules.blockAffinity(rubySites[q], tsSites[matched[q]]);
            var lessBlock := rules.blockAffinity(rubySites[r], tsSites[t]);
            (more > less || (more == less &&
              (moreBlock > lessBlock || (moreBlock == lessBlock && (q < r || (q == r && matched[q] < t))))))
    ensures |order| == |pairs| && (forall r :: r in order <==> r in matched)
    ensures forall i, j :: 0 <= i < j < |order| ==> order[i] < order[j]
    ensures forall i :: 0 <= i < |order| ==>
      order[i] in matched && pairs[i] == (rubySites[order[i]], tsSites[matched[order[i]]])
  {
    hide *;
    var candidates := Enumerate(rules, rubySites, tsSites);
    var sorted := SortBy(Before, candidates);
    var found := TakeGreedily(sorted);
    matched := found;
    MatchingIs(candidates);
    SoundNames(rules, rubySites, tsSites, candidates, found);
    pairs := [];
    NothingInOrder(rubySites, tsSites, found);
    for r := 0 to |rubySites|
      invariant pairs == InRubyOrder(rubySites, tsSites, found, r)
    {
      InOrderStep(rubySites, tsSites, found, r);
      if r in found {
        pairs := pairs + [(rubySites[r], tsSites[found[r]])];
      }
    }
    order := OrderOf(rubySites, tsSites, found, |rubySites|);
    PairedByParts(rules, rubySites, tsSites, candidates, found, pairs);
    forall r: nat, t: nat | r < |rubySites| && t < |tsSites| &&
        tsSites[t].name in rules.nameKeys(rubySites[r].name) && tsSites[t].name != "call" &&
        !(r in found && found[r] == t)
      ensures exists q ::
            q in found && (q == r || found[q] == t) &&
            var more, less := rules.similarity(rubySites[q], tsSites[found[q]]),
                              rules.similarity(rubySites[r], tsSites[t]);
            var moreBlock := rules.blockAffinity(rubySites[q], tsSites[found[q]]);
            var lessBlock := rules.blockAffinity(rubySites[r], tsSites[t]);
            (more > less || (more == less &&
              (moreBlock > lessBlock || (moreBlock == lessBlock && (q < r || (q == r && found[q] < t))))))
    {
      var q := BestGoFirst(rules, rubySites, tsSites, candidates, found, r, t);
    }
  }

  lemma MatchingIs(candidates: seq<Candidate>)
    ensures Matching(candidates) == Chosen(SortBy(Before, candidates))
  {
  }

  lemma SoundNames(rules: Rules, rubySites: seq<CallSite>, tsSites: seq<CallSite>, candidates: seq<Candidate>,
                   matched: map<nat, nat>)
    requires Enumerates(rules, rubySites, tsSites, candidates) && Records(matched, Matching(candidates))
    ensures forall r :: r in matched ==>
      r < |rubySites| && matched[r] < |tsSites| && tsSites[matched[r]].name in rules.nameKeys(rubySites[r].name) &&
      tsSites[matched[r]].name != "call"
    ensures forall r, s :: r in matched && s in matched && r != s ==> matched[r] != matched[s]
  {
    MatchedIsSound(rules, rubySites, tsSites, candidates, matched, "");
    hide Matching, Enumerates, Records, PairedNamed, SpelledFor;
  }

  lemma NothingInOrder(rubySites: seq<CallSite>, tsSites: seq<CallSite>, matched: map<nat, nat>)
    requires forall r :: r in matched ==> matched[r] < |tsSites|
    ensures InRubyOrder(rubySites, tsSites, matched, 0) == []
  {
  }

  lemma InOrderStep(rubySites: seq<CallSite>, tsSites: seq<CallSite>, matched: map<nat, nat>, r: nat)
    requires r < |rubySites| && forall q :: q in matched ==> matched[q] < |tsSites|
    ensures InRubyOrder(rubySites, tsSites, matched, r + 1) ==
            if r in matched then InRubyOrder(rubySites, tsSites, matched, r) + [(rubySites[r], tsSites[matched[r]])]
            else InRubyOrder(rubySites, tsSites, matched, r)
  {
  }

  lemma PairedByParts(rules: Rules, rubySites: seq<CallSite>, tsSites: seq<CallSite>, candidates: seq<Candidate>,
                      matched: map<nat, nat>, pairs: seq<(CallSite, CallSite)>)
    requires Enumerates(rules, rubySites, tsSites, candidates) && Records(matched, Matching(candidates))
    requires forall r :: r in matched ==> matched[r] < |tsSites|
    requires pairs == InRubyOrder(rubySites, tsSites, matched, |rubySites|)
    ensures PairedBy(rules, rubySites, tsSites, candidates, matched, pairs)
  {
    hide Enumerates, Records, Matching, InRubyOrder;
  }

  function CountNamed(pairs: seq<(CallSite, CallSite)>, name: string): nat {
    if pairs == [] then 0
    else CountNamed(pairs[..|pairs| - 1], name) + if pairs[|pairs| - 1].0.name == name then 1 else 0
  }

  lemma {:induction false} OutputCounts(rubySites: seq<CallSite>, tsSites: seq<CallSite>, matched: map<nat, nat>,
                                        n: nat, name: string)
    requires n <= |rubySites| && forall r :: r in matched ==> matched[r] < |tsSites|
    ensures CountNamed(InRubyOrder(rubySites, tsSites, matched, n), name) ==
            |UpTo(PairedNamed(rubySites, matched, name), n)|
  {
    if n == 0 {
      assert UpTo(PairedNamed(rubySites, matched, name), 0) == {};
    } else {
      OutputCounts(rubySites, tsSites, matched, n - 1, name);
      var pairs := InRubyOrder(rubySites, tsSites, matched, n - 1);
      UpToOneMore(PairedNamed(rubySites, matched, name), n - 1);
      assert n - 1 in PairedNamed(rubySites, matched, name) <==> n - 1 in matched && rubySites[n - 1].name == name;
      hide CountNamed, UpTo, PairedNamed;
      if n - 1 in matched {
        CountPush(pairs, (rubySites[n - 1], tsSites[matched[n - 1]]), name);
      } else {
        assert pairs + [] == pairs;
      }
    }
  }

  ghost function UpTo(all: set<nat>, n: nat): set<nat> { set r | r in all && r < n }

  lemma UpToOneMore(all: set<nat>, n: nat)
    ensures |UpTo(all, n + 1)| == |UpTo(all, n)| + if n in all then 1 else 0
  {
    assert UpTo(all, n + 1) == if n in all then UpTo(all, n) + {n} else UpTo(all, n);
  }

  lemma CountPush(pairs: seq<(CallSite, CallSite)>, last: (CallSite, CallSite), name: string)
    ensures CountNamed(pairs + [last], name) == CountNamed(pairs, name) + if last.0.name == name then 1 else 0
  {
    assert (pairs + [last])[..|pairs + [last]| - 1] == pairs;
  }

  /** The emitted list itself holds min(#Ruby, #TS) pairs of such a name. */
  lemma OutputPairsTheScarcerSide(rules: Rules, rubySites: seq<CallSite>, tsSites: seq<CallSite>,
                                  candidates: seq<Candidate>,
                                  matched: map<nat, nat>, pairs: seq<(CallSite, CallSite)>, name: string)
    requires PairedBy(rules, rubySites, tsSites, candidates, matched, pairs)
    requires Exclusive(rules, rubySites, tsSites, name)
    ensures CountNamed(pairs, name) == Min(|RubyNamed(rubySites, name)|, |SpelledFor(rules, tsSites, name)|)
  {
    hide Matching, Exclusive, Compatible, InRubyOrder, CountNamed;
    PairsTheScarcerSide(rules, rubySites, tsSites, candidates, matched, name);
    OutputCounts(rubySites, tsSites, matched, |rubySites|, name);
    var paired := PairedNamed(rubySites, matched, name);
    assert UpTo(paired, |rubySites|) == paired;
  }
}
