/** The strip-and-recompile codemod: splicing cast removals into a text, and the
    batch-then-bisect search for the removals a typecheck tolerates. */
module StripAsAny {
  import opened Bisection
  import opened Ordering

  /** One removable cast: `replacement` stands in for `text[start..end]`. */
  datatype CastSpan = CastSpan(start: nat, end: nat, replacement: string, member: string)

  ghost function Elems<T>(s: seq<T>): set<T> {
    set x | x in s
  }

  // ---------------------------------------------------------------- splicing

  function Prefix(s: string, n: nat): string { if n <= |s| then s[..n] else s }

  function Suffix(s: string, n: nat): string { if n <= |s| then s[n..] else [] }

  function RemoveCast(text: string, span: CastSpan): string {
    Prefix(text, span.start) + span.replacement + Suffix(text, span.end)
  }

  predicate StartsLater(a: CastSpan, b: CastSpan) { a.start >= b.start }

  function ApplyInOrder(text: string, spans: seq<CastSpan>): string
    decreases |spans|
  {
    if spans == [] then text else ApplyInOrder(RemoveCast(text, spans[0]), spans[1..])
  }

  /** The text `ApplyCasts` computes. */
  function Applied(text: string, spans: seq<CastSpan>): string {
    ApplyInOrder(text, SortBy(StartsLater, spans))
  }

  method ApplyCasts(text: string, spans: seq<CastSpan>) returns (out: string)
    ensures out == Applied(text, spans)
  {
    out := text;
    var sorted := SortBy(StartsLater, spans);
    for i := 0 to |sorted|
      invariant ApplyInOrder(out, sorted[i..]) == Applied(text, spans)
    {
      out := RemoveCast(out, sorted[i]);
      assert sorted[i..][1..] == sorted[i + 1..];
    }
  }

  ghost predicate WellPlaced(text: string, spans: set<CastSpan>) {
    forall s :: s in spans ==> s.start < s.end <= |text|
  }

  ghost predicate Apart(s: CastSpan, t: CastSpan) { s.end <= t.start || t.end <= s.start }

  ghost predicate Disjoint(spans: set<CastSpan>) {
    forall s, t :: s in spans && t in spans && s != t ==> Apart(s, t)
  }

  /** Simultaneous substitution: read the original left to right, emit a span's
      replacement where one starts and skip its text, copy every other character. */
  ghost function Substitute(text: string, pos: nat, spans: set<CastSpan>): string
    requires pos <= |text| && WellPlaced(text, spans)
    decreases |text| - pos
  {
    if pos == |text| then []
    else if exists s :: s in spans && s.start == pos then
      var s :| s in spans && s.start == pos;
      s.replacement + Substitute(text, s.end, spans)
    else [text[pos]] + Substitute(text, pos + 1, spans)
  }

  lemma {:induction false} SubstituteAt(text: string, spans: set<CastSpan>, s: CastSpan)
    requires WellPlaced(text, spans) && Disjoint(spans) && s in spans
    ensures Substitute(text, s.start, spans) == s.replacement + Substitute(text, s.end, spans)
  {
    forall t | t in spans && t.start == s.start ensures t == s {
      assert t == s || Apart(s, t);
    }
  }

  lemma {:induction false} SubstituteCopies(text: string, spans: set<CastSpan>, i: nat, j: nat)
    requires WellPlaced(text, spans) && i <= j <= |text|
    requires forall s :: s in spans ==> !(i <= s.start < j)
    ensures Substitute(text, i, spans) == text[i..j] + Substitute(text, j, spans)
    decreases j - i
  {
    if i < j {
      SubstituteCopies(text, spans, i + 1, j);
      assert !exists s :: s in spans && s.start == i;
      var rest := Substitute(text, j, spans);
      assert text[i..j] + rest == [text[i]] + (text[i + 1..j] + rest);
    } else {
      assert text[i..j] + Substitute(text, j, spans) == Substitute(text, j, spans);
    }
  }

  /** Applying the rest of a descending list finishes the substitution of everything left of `b`. */
  lemma {:induction false} ApplyInOrderSubstitutes(text: string, all: set<CastSpan>, rest: seq<CastSpan>, b: nat)
    requires WellPlaced(text, all) && Disjoint(all) && b <= |text|
    requires forall s :: s in rest ==> s in all && s.end <= b
    requires forall s :: s in all && s.start < b ==> s in rest
    requires Sorted(StartsLater, rest)
    requires Distinct(rest)
    ensures ApplyInOrder(text[..b] + Substitute(text, b, all), rest) == Substitute(text, 0, all)
    decreases |rest|
  {
    if rest == [] {
      SubstituteCopies(text, all, 0, b);
      assert text[0..b] == text[..b];
    } else {
      var s, tail := rest[0], Substitute(text, b, all);
      assert s in rest;
      var out := text[..b] + tail;
      assert Prefix(out, s.start) == text[..s.start];
      assert Suffix(out, s.end) == text[s.end..b] + tail;
      forall t | t in all ensures !(s.end <= t.start < b) {
        if t.start < b {
          assert t in rest;
          assert StartsLater(s, t);
        }
      }
      SubstituteCopies(text, all, s.end, b);
      SubstituteAt(text, all, s);
      assert RemoveCast(out, s) == text[..s.start] + Substitute(text, s.start, all);
      forall t | t in rest[1..] ensures t in all && t.end <= s.start {
        assert StartsLater(s, t) && t != s && t in rest;
        assert Apart(s, t);
      }
      forall t | t in all && t.start < s.start ensures t in rest[1..] {
        assert t in rest && t != s;
      }
      ApplyInOrderSubstitutes(text, all, rest[1..], s.start);
    }
  }

  lemma StartsLaterOrders()
    ensures TotalPreorder(StartsLater)
  {
  }

  /** End-to-start application of disjoint removals is the simultaneous substitution,
      whatever order the removals are listed in. */
  lemma AppliedIsSimultaneous(text: string, spans: seq<CastSpan>)
    requires WellPlaced(text, Elems(spans)) && Disjoint(Elems(spans))
    requires Distinct(spans)
    ensures Applied(text, spans) == Substitute(text, 0, Elems(spans))
  {
    var sorted := SortBy(StartsLater, spans);
    StartsLaterOrders();
    SortBySorted(StartsLater, spans);
    SameElements(sorted, spans);
    DistinctSurvives(spans, sorted);
    assert text == text[..|text|] + Substitute(text, |text|, Elems(spans));
    ApplyInOrderSubstitutes(text, Elems(spans), sorted, |text|);
  }

  /** A span left of everything read no longer matters further on. */
  lemma {:induction false} SubstitutePast(text: string, pos: nat, s: CastSpan, spans: set<CastSpan>)
    requires pos <= |text| && WellPlaced(text, spans + {s}) && Disjoint(spans + {s}) && s.end <= pos
    requires forall t :: t in spans ==> s.end <= t.start
    ensures Substitute(text, pos, spans + {s}) == Substitute(text, pos, spans)
    decreases |text| - pos
  {
    if pos < |text| {
      var all := spans + {s};
      assert forall t :: t in all <==> t in spans || t == s;
      DisjointPart(spans, s);
      hide Disjoint;
      if t :| t in spans && t.start == pos {
        SubstituteAt(text, spans, t);
        SubstituteAt(text, all, t);
        hide Substitute;
        SubstitutePast(text, t.end, s, spans);
      } else {
        SubstitutePast(text, pos + 1, s, spans);
      }
    }
  }

  lemma DisjointPart(spans: set<CastSpan>, s: CastSpan)
    requires Disjoint(spans + {s})
    ensures Disjoint(spans)
  {
  }

  /** The leftmost cast's text gives way to its replacement, and what stands left and right of it is what the other
      casts leave: with no cast at all, the text. */
  lemma LeftmostApplied(text: string, s: CastSpan, rest: seq<CastSpan>)
    requires Distinct(rest) && Disjoint(Elems(rest)) && s.start < s.end <= |text|
    requires forall t :: t in rest ==> s.end <= t.start < t.end <= |text|
    ensures Applied(text, []) == text
    ensures s.end <= |Applied(text, rest)| && Applied(text, rest)[..s.end] == text[..s.end]
    ensures Applied(text, [s] + rest) == text[..s.start] + s.replacement + Applied(text, rest)[s.end..]
  {
    AppliedNothing(text);
    var spans := Elems(rest);
    LeftmostStands(text, s, rest);
    hide *;
    AppliedIsSimultaneous(text, rest);
    AppliedIsSimultaneous(text, [s] + rest);
    LeftmostSubstituted(text, s, spans);
    var right := Substitute(text, s.end, spans);
    assert (text[..s.end] + right)[s.end..] == right && (text[..s.end] + right)[..s.end] == text[..s.end];
  }

  lemma LeftmostStands(text: string, s: CastSpan, rest: seq<CastSpan>)
    requires Distinct(rest) && Disjoint(Elems(rest)) && s.start < s.end <= |text|
    requires forall t :: t in rest ==> s.end <= t.start < t.end <= |text|
    ensures Elems([s] + rest) == Elems(rest) + {s} && Distinct([s] + rest)
    ensures WellPlaced(text, Elems(rest) + {s}) && Disjoint(Elems(rest) + {s}) && WellPlaced(text, Elems(rest))
    ensures forall t :: t in Elems(rest) ==> s.end <= t.start
  {
    assert ([s] + rest)[0] == s && ([s] + rest)[1..] == rest;
    forall t | t in Elems(rest) ensures Apart(s, t) && Apart(t, s) { assert t in rest; }
  }

  lemma LeftmostSubstituted(text: string, s: CastSpan, spans: set<CastSpan>)
    requires WellPlaced(text, spans + {s}) && Disjoint(spans + {s}) && forall t :: t in spans ==> s.end <= t.start
    ensures var right := Substitute(text, s.end, spans);
            && Substitute(text, 0, spans) == text[..s.end] + right
            && Substitute(text, 0, spans + {s}) == text[..s.start] + s.replacement + right
  {
    var all := spans + {s};
    assert forall t :: t in all ==> t in spans || t == s;
    hide Disjoint;
    SubstituteCopies(text, spans, 0, s.end);
    SubstituteCopies(text, all, 0, s.start);
    SubstituteAt(text, all, s);
    SubstitutePast(text, s.end, s, spans);
    hide Substitute, WellPlaced;
    assert text[0..s.end] == text[..s.end] && text[0..s.start] == text[..s.start];
    Regroup(text[..s.start], s.replacement, Substitute(text, s.end, spans));
  }

  // ------------------------------------------------- outermost of nested casts

  predicate StrictlyEncloses(outer: CastSpan, inner: CastSpan) {
    && outer.start <= inner.start && inner.end <= outer.end
    && (outer.start < inner.start || inner.end < outer.end)
  }

  predicate Nested(span: CastSpan, spans: seq<CastSpan>) {
    exists other :: other in spans && StrictlyEncloses(other, span)
  }

  /** The filter that ends `findCandidateCasts`. */
  function Outermost(spans: seq<CastSpan>): seq<CastSpan> {
    OutermostOf(spans, spans)
  }

  function OutermostOf(some: seq<CastSpan>, all: seq<CastSpan>): seq<CastSpan> {
    if some == [] then []
    else (if Nested(some[0], all) then [] else [some[0]]) + OutermostOf(some[1..], all)
  }

  lemma {:induction false} OutermostOfPicks(some: seq<CastSpan>, all: seq<CastSpan>) returns (at: seq<nat>)
    ensures Picked(some, at, OutermostOf(some, all))
    ensures forall i :: 0 <= i < |some| ==> (i in at <==> !Nested(some[i], all))
  {
    hide Nested, Picked;
    at := [];
    if some == [] {
      assert OutermostOf(some, all) == [];
      NothingPicked(some);
    } else {
      var rest := OutermostOfPicks(some[1..], all);
      at := (if Nested(some[0], all) then [] else [0]) + Later(rest);
      PickedCons(some[0], some[1..], !Nested(some[0], all), rest, OutermostOf(some[1..], all));
      assert [some[0]] + some[1..] == some;
    }
  }

  /** The filter keeps, in their order, the spans that no other reaches around, be it on one side only. */
  lemma OutermostPicks(spans: seq<CastSpan>) returns (at: seq<nat>)
    ensures Picked(spans, at, Outermost(spans))
    ensures forall i | 0 <= i < |spans| ::
              i in at <==>
                forall other | other in spans && other.start <= spans[i].start && spans[i].end <= other.end ::
                  other.start == spans[i].start && other.end == spans[i].end
  {
    at := OutermostOfPicks(spans, spans);
    hide OutermostOf, Picked;
  }

  lemma {:induction false} OutermostOfMembers(some: seq<CastSpan>, all: seq<CastSpan>)
    ensures forall s :: s in OutermostOf(some, all) <==> s in some && !Nested(s, all)
  {
    if some != [] { OutermostOfMembers(some[1..], all); }
  }

  lemma {:induction false} OutermostOfDistinct(some: seq<CastSpan>, all: seq<CastSpan>)
    requires Distinct(some)
    ensures Distinct(OutermostOf(some, all))
  {
    if some != [] {
      OutermostOfDistinct(some[1..], all);
      OutermostOfMembers(some[1..], all);
      assert some[0] !in some[1..];
    }
  }

  /** Syntax-tree spans: any two are nested, equal in extent or apart; and no extent repeats. */
  ghost predicate Laminar(spans: seq<CastSpan>) {
    forall i, j :: 0 <= i < |spans| && 0 <= j < |spans| && i != j ==>
      StrictlyEncloses(spans[i], spans[j]) || StrictlyEncloses(spans[j], spans[i]) || Apart(spans[i], spans[j])
  }

  /** Walking outwards from a span ends at one no other encloses. */
  lemma {:induction false} OutermostEncloser(spans: seq<CastSpan>, span: CastSpan, bound: nat) returns (top: CastSpan)
    requires span in spans && (forall s :: s in spans ==> s.end <= bound) && span.start <= span.end
    ensures top in spans && !Nested(top, spans)
    ensures top == span || StrictlyEncloses(top, span)
    decreases bound - span.end + span.start
  {
    if Nested(span, spans) {
      var outer :| outer in spans && StrictlyEncloses(outer, span);
      top := OutermostEncloser(spans, outer, bound);
    } else {
      top := span;
    }
  }

  /** What the filter keeps is safe to splice together, and nothing is dropped that a kept span does not cover. */
  lemma OutermostSelects(text: string, spans: seq<CastSpan>)
    requires Laminar(spans) && WellPlaced(text, Elems(spans))
    ensures Disjoint(Elems(Outermost(spans))) && WellPlaced(text, Elems(Outermost(spans)))
    ensures Distinct(Outermost(spans))
    ensures forall s :: s in spans && s !in Outermost(spans) ==>
      exists top :: top in Outermost(spans) && StrictlyEncloses(top, s)
  {
    var kept := Outermost(spans);
    forall i, j | 0 <= i < j < |spans| ensures spans[i] != spans[j] {
      assert spans[i] in Elems(spans);
    }
    OutermostOfMembers(spans, spans);
    OutermostOfDistinct(spans, spans);
    forall s, t | s in Elems(kept) && t in Elems(kept) && s != t ensures Apart(s, t) {
      assert s in spans && t in spans;
      var i :| 0 <= i < |spans| && spans[i] == s;
      var j :| 0 <= j < |spans| && spans[j] == t;
      assert !Nested(s, spans) && !Nested(t, spans);
      assert !StrictlyEncloses(s, t) && !StrictlyEncloses(t, s);
    }
    forall s | s in Elems(kept) ensures s.start < s.end <= |text| { assert s in Elems(spans); }
    forall s | s in spans && s !in kept ensures exists top :: top in kept && StrictlyEncloses(top, s) {
      assert s in Elems(spans);
      forall t | t in spans ensures t.end <= |text| { assert t in Elems(spans); }
      var top := OutermostEncloser(spans, s, |text|);
      assert top in kept;
    }
  }

  // ------------------------------------------------------- spans of a syntax tree

  /** What a node of the tree offers for removal: nothing, itself when it is the parentheses around a cast that binds
      tightly enough without them, or the text behind its operand when it is a cast that needs its parentheses. */
  datatype Cast = NoCast | Unwrap(replacement: string, member: string) | DropAs(member: string)

  datatype Node = Node(start: nat, end: nat, cast: Cast, children: seq<Node>)

  /** Children lie in their parent, in order and apart. Parentheses enclose their operand strictly; the text of a cast
      behind its operand is not empty, and the type it names offers nothing. */
  ghost predicate Parsed(n: Node) {
    && n.start <= n.end
    && (forall c :: c in n.children ==> Parsed(c) && n.start <= c.start && c.end <= n.end)
    && (forall i, j :: 0 <= i < j < |n.children| ==> n.children[i].end <= n.children[j].start)
    && match n.cast
       case NoCast => true
       case Unwrap(_, _) => n.start < n.end && forall c :: c in n.children ==> n.start < c.start && c.end < n.end
       case DropAs(_) =>
         n.children != [] && n.children[0].end < n.end && SpansOfAll(n.children[1..]) == []
  }

  /** The spans offered, each node's before its children's. */
  function SpansOf(n: Node): seq<CastSpan> {
    (match n.cast
     case NoCast => []
     case Unwrap(replacement, member) => [CastSpan(n.start, n.end, replacement, member)]
     case DropAs(member) => [CastSpan(if n.children == [] then n.start else n.children[0].end, n.end, "", member)])
    + SpansOfAll(n.children)
  }

  function SpansOfAll(nodes: seq<Node>): seq<CastSpan> {
    if nodes == [] then [] else SpansOf(nodes[0]) + SpansOfAll(nodes[1..])
  }

  ghost predicate Within(spans: seq<CastSpan>, lo: nat, hi: nat) {
    forall s :: s in spans ==> lo <= s.start < s.end <= hi
  }

  lemma LaminarConcat(a: seq<CastSpan>, b: seq<CastSpan>)
    requires Laminar(a) && Laminar(b)
    requires forall s, t :: s in a && t in b ==> StrictlyEncloses(s, t) || StrictlyEncloses(t, s) || Apart(s, t)
    ensures Laminar(a + b)
  {
    hide StrictlyEncloses, Apart;
    var all := a + b;
    forall i, j | 0 <= i < |all| && 0 <= j < |all| && i != j
      ensures StrictlyEncloses(all[i], all[j]) || StrictlyEncloses(all[j], all[i]) || Apart(all[i], all[j])
    {
      if i < |a| && j < |a| {
        assert all[i] == a[i] && all[j] == a[j];
      } else if i >= |a| && j >= |a| {
        assert all[i] == b[i - |a|] && all[j] == b[j - |a|];
      } else if i < |a| {
        assert a[i] in a && b[j - |a|] in b;
      } else {
        assert a[j] in a && b[i - |a|] in b;
        ApartIsSymmetric(b[i - |a|], a[j]);
      }
    }
  }

  lemma ApartIsSymmetric(s: CastSpan, t: CastSpan)
    ensures Apart(s, t) <==> Apart(t, s)
  {
  }

  /** The spans a tree offers lie in it and are nested or apart. */
  lemma {:induction false} TreeIsLaminar(n: Node)
    requires Parsed(n)
    ensures Within(SpansOf(n), n.start, n.end) && Laminar(SpansOf(n))
  {
    var below := SpansOfAll(n.children);
    ForestIsLaminar(n.children, n.start, n.end);
    if n.cast.NoCast? {
      assert SpansOf(n) == below;
    } else if n.cast.Unwrap? {
      ForestIsLaminar(n.children, n.start + 1, n.end - 1);
      LaminarConcat([CastSpan(n.start, n.end, n.cast.replacement, n.cast.member)], below);
    } else {
      assert n.children == [n.children[0]] + n.children[1..] && n.children[0] in n.children;
      TreeIsLaminar(n.children[0]);
      assert below == SpansOf(n.children[0]);
      LaminarConcat([CastSpan(n.children[0].end, n.end, "", n.cast.member)], below);
    }
  }

  lemma {:induction false} ForestIsLaminar(nodes: seq<Node>, lo: nat, hi: nat)
    requires forall c :: c in nodes ==> Parsed(c) && lo <= c.start && c.end <= hi
    requires forall i, j :: 0 <= i < j < |nodes| ==> nodes[i].end <= nodes[j].start
    ensures Within(SpansOfAll(nodes), lo, hi) && Laminar(SpansOfAll(nodes))
  {
    if nodes != [] {
      assert nodes[0] in nodes;
      TreeIsLaminar(nodes[0]);
      assert forall c :: c in nodes[1..] ==> exists j :: 0 < j < |nodes| && nodes[j] == c;
      ForestIsLaminar(nodes[1..], nodes[0].end, hi);
      ForestIsLaminar(nodes[1..], lo, hi);
      LaminarConcat(SpansOf(nodes[0]), SpansOfAll(nodes[1..]));
    }
  }

  // ------------------------------------------------------------------ one file

  /** Whether the project typechecks with exactly the casts `removed` taken out of `base`. */
  function Builds(green: string -> bool, base: string): seq<CastSpan> -> bool {
    (removed: seq<CastSpan>) => green(Applied(base, removed))
  }

  datatype StripResult = StripResult(candidates: nat, removed: nat, kept: nat)

  /** One file being stripped. `green` answers whether the project typechecks with that file text;
      every attempt, failing or not, leaves its text in `file`. */
  class StripRun {
    const green: string -> bool
    var file: string
    var accepted: seq<CastSpan>
    var kept: seq<CastSpan>
    ghost var attempts: seq<seq<CastSpan>>

    constructor (text: string, green: string -> bool)
      ensures file == text && this.green == green && accepted == [] && kept == [] && attempts == []
    {
      this.green, file, accepted, kept, attempts := green, text, [], [], [];
    }

    method Verify(base: string, removed: seq<CastSpan>) returns (ok: bool)
      modifies this`file, this`attempts
      ensures ok == green(file) && file == Applied(base, removed) && attempts == old(attempts) + [removed]
    {
      file := ApplyCasts(base, removed);
      attempts := attempts + [removed];
      ok := green(file);
    }

    method BisectAccept(base: string, group: seq<CastSpan>)
      modifies this
      ensures var o := Bisect(Builds(green, base), old(accepted), group);
              && accepted == o.accepted
              && kept == old(kept) + o.kept
              && attempts == old(attempts) + o.tests
      ensures group != [] ==> file == Applied(base, attempts[|attempts| - 1])
      decreases |group|
    {
      hide Applied;
      if |group| == 0 {
        return;
      }
      var ok := Verify(base, accepted + group);
      if ok {
        accepted := accepted + group;
        return;
      }
      if |group| == 1 {
        assert [group[0]] == group;
        kept := kept + [group[0]];
        return;
      }
      var mid := |group| / 2;
      ghost var log, refused := old(attempts), old(kept);
      BisectAccept(base, group[..mid]);
      ghost var left := Bisect(Builds(green, base), old(accepted), group[..mid]);
      BisectAccept(base, group[mid..]);
      ghost var right := Bisect(Builds(green, base), left.accepted, group[mid..]);
      Regroup(refused, left.kept, right.kept);
      Regroup(log, [old(accepted) + group], left.tests);
      Regroup(log, [old(accepted) + group] + left.tests, right.tests);
    }

    /** However many failed attempts overwrote it, the file ends as the last text that built. */
    method StripFile(spans: seq<CastSpan>) returns (result: StripResult)
      requires accepted == [] && kept == [] && attempts == []
      modifies this
      ensures var candidates := SortBy(StartsLater, Outermost(spans));
              var o := Bisect(Builds(green, old(file)), [], candidates);
              && accepted == o.accepted && kept == o.kept && attempts == o.tests
              && file == Applied(old(file), accepted)
              && accepted == LastPassing(Builds(green, old(file)), attempts, [])
      ensures multiset(accepted) + multiset(kept) == multiset(Outermost(spans))
      ensures result == StripResult(|Outermost(spans)|, |accepted|, |kept|)
      ensures result.removed + result.kept == result.candidates
    {
      hide Applied, Outermost;
      ghost var test := Builds(green, file);
      var original := file;
      var candidates := SortBy(StartsLater, Outermost(spans));
      BisectAccept(original, candidates);
      AcceptedIsLastPassing(test, [], candidates);
      BisectSplitsCandidates(test, candidates);
      file := ApplyCasts(original, accepted);
      result := StripResult(|candidates|, |accepted|, |kept|);
    }
  }

  lemma SelectsKeepsDistinct<T>(s: seq<T>, t: seq<T>)
    requires Selects(s, t) && Distinct(t)
    ensures Distinct(s) && Elems(s) <= Elems(t)
  {
    forall i, j | 0 <= i < j < |s| ensures s[i] != s[j] {
      if s[i] == s[j] {
        CountsTwo(s, i, j);
        CountAtMostOne(t, s[i]);
      }
    }
    forall x | x in s ensures x in t {
      assert x in multiset(s);
      assert x in multiset(t);
    }
  }

  /** One file, start to end. For the spans of a syntax tree and any typecheck whatever: the text left behind
      is the simultaneous removal of the accepted casts and it builds unless nothing was removed; with n
      candidates of which k are kept, at most 1 + 2k ceil(log2 n) builds were spent. */
  lemma StripFileResult(green: string -> bool, original: string, spans: seq<CastSpan>)
    requires Laminar(spans) && WellPlaced(original, Elems(spans))
    ensures var candidates := SortBy(StartsLater, Outermost(spans));
            var o := Bisect(Builds(green, original), [], candidates);
            && WellPlaced(original, Elems(o.accepted))
            && Applied(original, o.accepted) == Substitute(original, 0, Elems(o.accepted))
            && (o.accepted == [] || green(Applied(original, o.accepted)))
            && (candidates != [] ==> |o.tests| <= 1 + 2 * |o.kept| * CeilLog2(|candidates|))
  {
    var test := Builds(green, original);
    var kept := Outermost(spans);
    var candidates := SortBy(StartsLater, kept);
    var o := Bisect(test, [], candidates);
    OutermostSelects(original, spans);
    BisectSelects(test, candidates);
    SelectsKeepsDistinct(o.accepted, kept);
    AppliedIsSimultaneous(original, o.accepted);
    BisectEndsPassing(test, [], candidates);
    if candidates != [] { TestBound(test, [], candidates); }
  }

  /** Whatever the tree and whatever the typecheck, stripping the casts a parsed file offers keeps those promises. */
  lemma ParsedFileStrips(green: string -> bool, original: string, root: Node)
    requires Parsed(root) && root.end <= |original|
    ensures var candidates := SortBy(StartsLater, Outermost(SpansOf(root)));
            var o := Bisect(Builds(green, original), [], candidates);
            && WellPlaced(original, Elems(o.accepted))
            && Applied(original, o.accepted) == Substitute(original, 0, Elems(o.accepted))
            && (o.accepted == [] || green(Applied(original, o.accepted)))
            && (candidates != [] ==> |o.tests| <= 1 + 2 * |o.kept| * CeilLog2(|candidates|))
  {
    TreeIsLaminar(root);
    StripFileResult(green, original, SpansOf(root));
  }

  /** Nothing applied is the original text, so a run that accepts nothing restores it. */
  lemma AppliedNothing(text: string)
    ensures Applied(text, []) == text
  {
  }
}
