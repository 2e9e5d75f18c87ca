/** The bounded same-file helper closure of the call-parity comparison. */
module CallClosure {
  import opened Ordering

  /** What one TS file records: each method's calls, and per owner the names it only ever
      read off another object. */
  datatype SameFile = SameFile(calls: map<string, seq<string>>, foreign: string -> set<string>)

  /** One body under comparison: its name, its own calls, and the file it stands in. */
  datatype Body = Body(tsName: string, tsCalls: seq<string>, file: SameFile)

  /** The extractor's synthesized name, never a same-file callee. */
  const SYNTHETIC := "constructor"

  function CallsOf(b: Body, owner: string): seq<string> {
    if owner == b.tsName then b.tsCalls else if owner in b.file.calls then b.file.calls[owner] else []
  }

  /** `owner` makes a call the walk may resolve: not synthetic, not foreign to that owner, not the body itself. */
  predicate Edge(b: Body, owner: string, name: string) {
    && name in CallsOf(b, owner)
    && name != SYNTHETIC && name != b.tsName && name !in b.file.foreign(owner)
    && name in b.file.calls
  }

  /** The names resolved within `depth` hops. */
  ghost function Reach(b: Body, depth: nat): (r: set<string>)
    ensures r <= b.file.calls.Keys && b.tsName !in r
  {
    if depth == 0 then {}
    else set name | name in b.file.calls && ReachedFrom(b, Reach(b, depth - 1), name)
  }

  ghost predicate ReachedFrom(b: Body, owners: set<string>, name: string) {
    exists owner :: (owner == b.tsName || owner in owners) && Edge(b, owner, name)
  }

  /** The entries of one breadth-first round that lead somewhere. */
  ghost predicate Leads(b: Body, entries: seq<(string, string)>, name: string) {
    exists i :: 0 <= i < |entries| && entries[i].0 == name && Edge(b, entries[i].1, name)
  }

  /** The round about to be walked at `hop`: calls of owners already reached, and all those of the newest. */
  ghost predicate Frontier(b: Body, hop: nat, frontier: seq<(string, string)>) {
    && (forall i :: 0 <= i < |frontier| ==>
          && (frontier[i].1 == b.tsName || frontier[i].1 in Reach(b, hop))
          && frontier[i].0 in CallsOf(b, frontier[i].1))
    && (forall name :: ReachedFrom(b, Reach(b, hop), name) ==> name in Reach(b, hop) || Leads(b, frontier, name))
  }

  lemma {:induction false} ReachGrows(b: Body, depth: nat)
    ensures Reach(b, depth) <= Reach(b, depth + 1)
  {
    if depth > 0 {
      ReachGrows(b, depth - 1);
      forall name | name in Reach(b, depth) ensures ReachedFrom(b, Reach(b, depth), name) {
        var owner :| (owner == b.tsName || owner in Reach(b, depth - 1)) && Edge(b, owner, name);
      }
    }
  }

  /** Deeper closures only add names. */
  lemma {:induction false} ReachMonotone(b: Body, shallow: nat, deep: nat)
    requires shallow <= deep
    ensures Reach(b, shallow) <= Reach(b, deep)
    decreases deep
  {
    if shallow < deep {
      ReachMonotone(b, shallow, deep - 1);
      ReachGrows(b, deep - 1);
    }
  }

  lemma {:induction false} ReachStable(b: Body, depth: nat, deeper: nat)
    requires Reach(b, depth) == Reach(b, depth + 1) && depth <= deeper
    ensures Reach(b, deeper) == Reach(b, depth)
    decreases deeper
  {
    if depth < deeper { ReachStable(b, depth, deeper - 1); }
  }

  /** An exhausted round adds nothing at any greater depth. */
  lemma ExhaustedIsFull(b: Body, hop: nat, deeper: nat)
    requires Frontier(b, hop, []) && hop <= deeper
    ensures Reach(b, deeper) == Reach(b, hop)
  {
    ReachGrows(b, hop);
    forall name | name in Reach(b, hop + 1) ensures name in Reach(b, hop) {
      assert ReachedFrom(b, Reach(b, hop), name);
      assert !Leads(b, [], name);
    }
    ReachStable(b, hop, deeper);
  }

  lemma RoundReaches(b: Body, hop: nat, frontier: seq<(string, string)>, reached: set<string>)
    requires Frontier(b, hop, frontier)
    requires forall name :: name in reached <==> name in Reach(b, hop) || Leads(b, frontier, name)
    ensures reached == Reach(b, hop + 1)
  {
    ReachGrows(b, hop);
    forall name ensures name in reached <==> name in Reach(b, hop + 1) {
      if Leads(b, frontier, name) {
        var i :| 0 <= i < |frontier| && frontier[i].0 == name && Edge(b, frontier[i].1, name);
        assert ReachedFrom(b, Reach(b, hop), name);
      }
    }
  }

  lemma NextFrontier(b: Body, hop: nat, next: seq<(string, string)>)
    requires forall i :: 0 <= i < |next| ==> next[i].1 in Reach(b, hop + 1) && next[i].0 in CallsOf(b, next[i].1)
    requires forall owner, name :: owner in Reach(b, hop + 1) - Reach(b, hop) && name in CallsOf(b, owner) ==>
      (name, owner) in next
    ensures Frontier(b, hop + 1, next)
  {
    forall name | ReachedFrom(b, Reach(b, hop + 1), name) ensures name in Reach(b, hop + 1) || Leads(b, next, name) {
      var owner :| (owner == b.tsName || owner in Reach(b, hop + 1)) && Edge(b, owner, name);
      if owner == b.tsName || owner in Reach(b, hop) {
        assert ReachedFrom(b, Reach(b, hop), name);
      } else {
        var i :| 0 <= i < |next| && next[i] == (name, owner);
        assert next[i].0 == name && Edge(b, next[i].1, name);
      }
    }
  }

  method ReachedSameFileMethods(b: Body, depth: int) returns (reached: set<string>)
    ensures reached == Reach(b, if depth < 0 then 0 else depth)
    ensures forall name :: name in reached <==> PathTo(b, if depth < 0 then 0 else depth, name)
  {
    hide Reach, Edge, CallsOf, Leads, Frontier, ReachedFrom, PathTo;
    ReachIsPaths(b, if depth < 0 then 0 else depth);
    reached := {};
    var visited := {b.tsName};
    var frontier := seq(|b.tsCalls|, i requires 0 <= i < |b.tsCalls| => (b.tsCalls[i], b.tsName));
    FirstRound(b, frontier);
    var hop := 0;
    while hop < depth && |frontier| > 0
      invariant 0 <= hop && (depth >= 0 ==> hop <= depth) && (depth < 0 ==> hop == 0)
      invariant Frontier(b, hop, frontier) && reached == Reach(b, hop)
      invariant Visits(b, visited, reached)
    {
      var next;
      reached, visited, next := Round(b, hop, frontier, reached, visited);
      frontier := next;
      hop := hop + 1;
    }
    if hop < depth { ExhaustedIsFull(b, hop, depth); }
  }

  lemma FirstRound(b: Body, frontier: seq<(string, string)>)
    requires |frontier| == |b.tsCalls| && forall i :: 0 <= i < |frontier| ==> frontier[i] == (b.tsCalls[i], b.tsName)
    ensures Frontier(b, 0, frontier) && Reach(b, 0) == {}
  {
    forall name | ReachedFrom(b, Reach(b, 0), name) ensures Leads(b, frontier, name) {
      var i :| 0 <= i < |b.tsCalls| && b.tsCalls[i] == name;
      assert frontier[i].0 == name && Edge(b, frontier[i].1, name);
    }
  }

  /** The visited names are the body's own, the reached ones, and some the file does not define. */
  ghost predicate Visits(b: Body, visited: set<string>, reached: set<string>) {
    && b.tsName in visited && reached <= visited
    && forall name :: name in visited && name != b.tsName && name in b.file.calls ==> name in reached
  }

  /** The round's first `i` entries are walked. */
  ghost predicate Walked(b: Body, before: set<string>, frontier: seq<(string, string)>, i: nat, reached: set<string>,
                         visited: set<string>, next: seq<(string, string)>)
    requires i <= |frontier|
  {
    && Visits(b, visited, reached)
    && (forall name :: name in reached <==> name in before || Leads(b, frontier[..i], name))
    && (forall j :: 0 <= j < |next| ==>
          next[j].1 in reached && next[j].1 != b.tsName && next[j].0 in CallsOf(b, next[j].1))
    && (forall owner, name :: owner in reached - before && name in CallsOf(b, owner) ==> (name, owner) in next)
    && b.tsName !in reached && reached <= b.file.calls.Keys
  }

  /** An entry is passed over: synthetic, foreign to its owner, met before, or not the file's. */
  lemma PassOver(b: Body, before: set<string>, frontier: seq<(string, string)>, i: nat, reached: set<string>,
                 visited: set<string>, next: seq<(string, string)>, name: string, owner: string)
    requires i < |frontier| && frontier[i] == (name, owner) && Walked(b, before, frontier, i, reached, visited, next)
    ensures name == SYNTHETIC || name in b.file.foreign(owner) || name in visited ==>
              Walked(b, before, frontier, i + 1, reached, visited, next)
    ensures name !in b.file.calls ==> Walked(b, before, frontier, i + 1, reached, visited + {name}, next)
  {
    hide Leads, CallsOf;
    LeadsOneMore(b, frontier, i);
  }

  /** An entry reaches a method of the file, whose calls join the next round. */
  lemma ReachOne(b: Body, before: set<string>, frontier: seq<(string, string)>, i: nat, reached: set<string>,
                 visited: set<string>, next: seq<(string, string)>, name: string, owner: string,
                 more: seq<(string, string)>)
    requires i < |frontier| && frontier[i] == (name, owner) && Walked(b, before, frontier, i, reached, visited, next)
    requires Edge(b, owner, name) && name !in visited
    requires forall entry :: entry in more <==> entry in next || (entry.1 == name && entry.0 in b.file.calls[name])
    ensures Walked(b, before, frontier, i + 1, reached + {name}, visited + {name}, more)
  {
    assert CallsOf(b, name) == b.file.calls[name];
    LeadsOneMore(b, frontier, i);
    hide Leads, CallsOf, Edge;
  }

  /** One hop of the walk. */
  method Round(b: Body, ghost hop: nat, frontier: seq<(string, string)>, before: set<string>, seen: set<string>)
      returns (reached: set<string>, visited: set<string>, next: seq<(string, string)>)
    requires Frontier(b, hop, frontier) && before == Reach(b, hop) && Visits(b, seen, before)
    ensures reached == Reach(b, hop + 1) && Visits(b, visited, reached) && Frontier(b, hop + 1, next)
  {
    reached, visited, next := before, seen, [];
    assert Walked(b, before, frontier, 0, reached, visited, next);
    hide Walked, Visits, Leads, Reach, ReachedFrom, CallsOf;
    for i := 0 to |frontier|
      invariant Walked(b, before, frontier, i, reached, visited, next)
    {
      var (name, owner) := frontier[i];
      PassOver(b, before, frontier, i, reached, visited, next, name, owner);
      if name == SYNTHETIC || name in b.file.foreign(owner) || name in visited {
        continue;
      }
      if name in b.file.calls {
        ghost var waiting := next;
        next := PushCalls(next, b.file.calls[name], name);
        NotItself(b, visited, reached, before, frontier, i, waiting, name);
        ReachOne(b, before, frontier, i, reached, visited, waiting, name, owner, next);
        reached := reached + {name};
      }
      visited := visited + {name};
    }
    RoundOver(b, hop, frontier, reached, visited, next);
  }

  lemma NotItself(b: Body, visited: set<string>, reached: set<string>, before: set<string>,
                  frontier: seq<(string, string)>, i: nat, next: seq<(string, string)>, name: string)
    requires i <= |frontier| && Walked(b, before, frontier, i, reached, visited, next) && name !in visited
    ensures name != b.tsName
  {
  }

  lemma RoundOver(b: Body, hop: nat, frontier: seq<(string, string)>, reached: set<string>, visited: set<string>,
                  next: seq<(string, string)>)
    requires Frontier(b, hop, frontier) && Walked(b, Reach(b, hop), frontier, |frontier|, reached, visited, next)
    ensures reached == Reach(b, hop + 1) && Visits(b, visited, reached) && Frontier(b, hop + 1, next)
  {
    hide Reach, ReachedFrom, Leads, CallsOf, Visits, Frontier;
    assert frontier[..|frontier|] == frontier;
    RoundReaches(b, hop, frontier, reached);
    NextFrontier(b, hop, next);
  }

  lemma LeadsOneMore(b: Body, frontier: seq<(string, string)>, i: nat)
    requires i < |frontier|
    ensures forall name :: Leads(b, frontier[..i + 1], name) <==>
      Leads(b, frontier[..i], name) || (frontier[i].0 == name && Edge(b, frontier[i].1, name))
  {
    hide Edge;
    var more, less := frontier[..i + 1], frontier[..i];
    forall name ensures Leads(b, more, name) <==>
      Leads(b, less, name) || (frontier[i].0 == name && Edge(b, frontier[i].1, name)) {
      if Leads(b, less, name) {
        var j :| 0 <= j < |less| && less[j].0 == name && Edge(b, less[j].1, name);
        assert more[j] == less[j];
      }
      if Leads(b, more, name) {
        var j :| 0 <= j < |more| && more[j].0 == name && Edge(b, more[j].1, name);
        assert j < i ==> less[j] == more[j];
      }
      if frontier[i].0 == name && Edge(b, frontier[i].1, name) { assert more[i].0 == name && Edge(b, more[i].1, name); }
    }
  }

  method PushCalls(next: seq<(string, string)>, calls: seq<string>, owner: string) returns (r: seq<(string, string)>)
    ensures forall entry :: entry in r <==> entry in next || (entry.1 == owner && entry.0 in calls)
  {
    r := next;
    for i := 0 to |calls|
      invariant forall entry :: entry in r <==> entry in next || (entry.1 == owner && entry.0 in calls[..i])
    {
      r := r + [(calls[i], owner)];
    }
  }

  // --------------------------------------------------------------------- paths

  /** A chain of resolvable calls out of the body, no edge foreign to its own owner. */
  ghost predicate Path(b: Body, p: seq<string>) {
    && p != [] && Edge(b, b.tsName, p[0])
    && forall i :: 0 < i < |p| ==> Edge(b, p[i - 1], p[i])
  }

  ghost predicate PathTo(b: Body, bound: nat, name: string) {
    exists p :: Path(b, p) && |p| <= bound && p[|p| - 1] == name
  }

  /** The names some path of at most `bound` edges ends at are exactly `names`. */
  ghost predicate EndsAre(b: Body, bound: nat, names: set<string>) {
    forall name :: name in names <==> PathTo(b, bound, name)
  }

  /** The closure at a depth is exactly the ends of the call paths of at most that many edges. */
  lemma {:induction false} ReachIsPaths(b: Body, depth: nat)
    ensures forall name :: name in Reach(b, depth) <==> PathTo(b, depth, name)
  {
    if depth == 0 {
      forall name ensures !PathTo(b, 0, name) {}
    } else {
      ReachIsPaths(b, depth - 1);
      hide *;
      forall name ensures name in Reach(b, depth) <==> PathTo(b, depth, name) { PathsOneDeeper(b, depth - 1, name); }
    }
  }

  lemma PathsOneDeeper(b: Body, depth: nat, name: string)
    requires forall owner :: owner in Reach(b, depth) <==> PathTo(b, depth, owner)
    ensures name in Reach(b, depth + 1) <==> PathTo(b, depth + 1, name)
  {
    hide Edge, PathTo;
    var shorter := Reach(b, depth);
    if name in Reach(b, depth + 1) { PathExtends(b, depth, shorter, name); }
    if PathTo(b, depth + 1, name) { PathShortens(b, depth, shorter, name); }
  }

  lemma PathExtends(b: Body, bound: nat, shorter: set<string>, name: string)
    requires EndsAre(b, bound, shorter) && ReachedFrom(b, shorter, name)
    ensures PathTo(b, bound + 1, name)
  {
    hide Edge;
    var owner :| (owner == b.tsName || owner in shorter) && Edge(b, owner, name);
    if owner == b.tsName {
      assert Path(b, [name]);
    } else {
      assert PathTo(b, bound, owner);
      var p :| Path(b, p) && |p| <= bound && p[|p| - 1] == owner;
      var q := p + [name];
      forall i | 0 < i < |q| ensures Edge(b, q[i - 1], q[i]) {
        if i < |p| { assert Edge(b, p[i - 1], p[i]); }
      }
      assert Path(b, q);
    }
  }

  lemma PathShortens(b: Body, bound: nat, shorter: set<string>, name: string)
    requires EndsAre(b, bound, shorter) && PathTo(b, bound + 1, name)
    ensures ReachedFrom(b, shorter, name) && name in b.file.calls
  {
    var p :| Path(b, p) && |p| <= bound + 1 && p[|p| - 1] == name;
    EdgeResolves(b, p);
    hide Edge;
    if |p| > 1 {
      var q := p[..|p| - 1];
      forall i | 0 < i < |q| ensures Edge(b, q[i - 1], q[i]) {
        assert Edge(b, p[i - 1], p[i]);
      }
      assert Path(b, q);
      assert PathTo(b, bound, q[|q| - 1]);
      assert Edge(b, q[|q| - 1], name);
    }
  }

  lemma EdgeResolves(b: Body, p: seq<string>)
    requires Path(b, p)
    ensures p[|p| - 1] in b.file.calls
  {
    hide CallsOf;
    if |p| > 1 { assert Edge(b, p[|p| - 2], p[|p| - 1]); }
  }

  /** What a path is: the file defines every name on it, none is the synthesized one or the body's own, the first is
      called by the body and each other by the one before, and no caller only ever reads the name off another object. */
  lemma PathIff(b: Body, p: seq<string>)
    requires p != []
    ensures Path(b, p) <==>
      && (forall i :: 0 <= i < |p| ==> p[i] in b.file.calls && p[i] != "constructor" && p[i] != b.tsName)
      && p[0] in b.tsCalls && p[0] !in b.file.foreign(b.tsName)
      && forall i | 0 < i < |p| && p[i - 1] in b.file.calls ::
           p[i] in b.file.calls[p[i - 1]] && p[i] !in b.file.foreign(p[i - 1])
  {
    CallsOfOthers(b);
    hide CallsOf;
    if Path(b, p) {
      forall i | 0 <= i < |p| ensures p[i] in b.file.calls && p[i] != "constructor" && p[i] != b.tsName {
        assert if i == 0 then Edge(b, b.tsName, p[i]) else Edge(b, p[i - 1], p[i]);
      }
    }
  }

  lemma CallsOfOthers(b: Body)
    ensures CallsOf(b, b.tsName) == b.tsCalls
    ensures forall owner :: owner in b.file.calls && owner != b.tsName ==> CallsOf(b, owner) == b.file.calls[owner]
  {
  }

  // ---------------------------------------------------------------- saturation

  lemma {:induction false} GrowsOrStops(b: Body, depth: nat)
    ensures Reach(b, depth) == Reach(b, depth + 1) || |Reach(b, depth + 1)| > depth
  {
    hide Reach;
    ReachGrows(b, depth);
    if Reach(b, depth) != Reach(b, depth + 1) {
      ProperSubsetSmaller(Reach(b, depth), Reach(b, depth + 1));
      if depth > 0 {
        GrowsOrStops(b, depth - 1);
        if Reach(b, depth - 1) == Reach(b, depth) { ReachStable(b, depth - 1, depth + 1); }
      }
    }
  }

  /** Once the depth reaches the number of methods the file defines, the bound no longer cuts anything:
      the closure is the ends of all call paths, however long. */
  lemma DeepEnoughIsFullClosure(b: Body, depth: nat)
    requires depth >= |b.file.calls.Keys|
    ensures forall name :: name in Reach(b, depth) <==> exists p :: Path(b, p) && p[|p| - 1] == name
  {
    hide Reach, Edge;
    GrowsOrStops(b, depth);
    SubsetSize(Reach(b, depth + 1), b.file.calls.Keys);
    ReachIsPaths(b, depth);
    forall p | Path(b, p) ensures p[|p| - 1] in Reach(b, depth) {
      ReachIsPaths(b, |p|);
      assert PathTo(b, |p|, p[|p| - 1]);
      if |p| <= depth { ReachMonotone(b, |p|, depth); } else { ReachStable(b, depth, |p|); }
    }
  }
}
