/** The migrator that reconciles `@missingRailsCall` tags with the comparer's artifact and retires baseline rows. */
module TagMigrator {
  import opened Ordering
  import opened Text
  import opened CallBaseline
  import opened CallReceipts

  // ------------------------------------------------------------- expectations

  /** What one declaration should carry: the Ruby names matched onto it and every call flagged or suppressed there. */
  datatype Expectation = Expectation(rubyNames: seq<string>, calls: seq<string>)

  /** `--package`, `--file` and `--call`. */
  datatype Scope = Scope(package: string, onlyFile: Option<string>, onlyCall: Option<set<string>>)

  predicate InScope(scope: Scope, d: Decl) {
    d.package == scope.package && (scope.onlyFile.Some? ==> d.file == scope.onlyFile.value)
  }

  predicate Allowed(scope: Scope, call: string) { scope.onlyCall.Some? ==> call in scope.onlyCall.value }

  ghost predicate Names(flags: seq<Flag>, d: Decl, rubyName: string) {
    exists f :: f in flags && f.decl == d && f.rubyName == rubyName
  }

  ghost predicate Expects(flags: seq<Flag>, d: Decl, e: Expectation) {
    && Distinct(e.calls) && (forall c :: c in e.calls <==> FlaggedOn(flags, d, c))
    && e.rubyNames == RubyNames(flags, d)
  }

  /** The Ruby names of one declaration's flags, each where it first comes up. */
  function RubyNames(flags: seq<Flag>, d: Decl): seq<string> {
    if flags == [] then []
    else
      var names, f := RubyNames(flags[..|flags| - 1], d), flags[|flags| - 1];
      if f.decl == d && f.rubyName !in names then names + [f.rubyName] else names
  }

  lemma {:induction false} RubyNamesAre(flags: seq<Flag>, d: Decl)
    ensures forall r :: r in RubyNames(flags, d) <==> Names(flags, d, r)
  {
    if flags != [] {
      var init, f := flags[..|flags| - 1], flags[|flags| - 1];
      RubyNamesAre(init, d);
      assert flags == init + [f];
      NamesSum(init, f);
      hide Names;
    }
  }

  /** One expectation for each in-scope declaration the artifact mentions. */
  ghost predicate Expectations(scope: Scope, flags: seq<Flag>, exps: map<Decl, Expectation>) {
    && (forall d :: d in exps <==> InScope(scope, d) && HasPair(flags, d))
    && (forall d :: d in exps ==> Expects(flags, d, exps[d]))
  }

  method AddCalls(calls: seq<string>, more: seq<string>) returns (all: seq<string>)
    requires Distinct(calls)
    ensures Distinct(all) && forall c :: c in all <==> c in calls || c in more
  {
    all := calls;
    for i := 0 to |more|
      invariant Distinct(all) && forall c :: c in all <==> c in calls || c in more[..i]
    {
      if more[i] !in all { all := all + [more[i]]; }
    }
  }

  method ExpectFlag(scope: Scope, ghost done: seq<Flag>, f: Flag, exps: map<Decl, Expectation>)
      returns (next: map<Decl, Expectation>)
    requires Expectations(scope, done, exps)
    ensures Expectations(scope, done + [f], next)
  {
    hide *;
    if !InScope(scope, f.decl) {
      ExpectOutside(scope, done, f, exps);
      return exps;
    }
    var e := if f.decl in exps then exps[f.decl] else Expectation([], []);
    var names := if f.rubyName in e.rubyNames then e.rubyNames else e.rubyNames + [f.rubyName];
    ExpectStart(scope, done, f.decl, exps);
    var calls := AddCalls(e.calls, f.calls);
    next := exps[f.decl := Expectation(names, calls)];
    ExpectOneMore(scope, done, f, exps, e, next[f.decl]);
  }

  method BuildExpectations(scope: Scope, a: Artifact) returns (exps: map<Decl, Expectation>)
    ensures Expectations(scope, a.mismatches + a.suppressed, exps)
  {
    exps := map[];
    ExpectNothing(scope);
    hide *;
    for i := 0 to |a.mismatches|
      invariant Expectations(scope, a.mismatches[..i], exps)
    {
      exps := ExpectFlag(scope, a.mismatches[..i], a.mismatches[i], exps);
      assert a.mismatches[..i + 1] == a.mismatches[..i] + [a.mismatches[i]];
    }
    assert a.mismatches[..|a.mismatches|] == a.mismatches == a.mismatches + a.suppressed[..0];
    for i := 0 to |a.suppressed|
      invariant Expectations(scope, a.mismatches + a.suppressed[..i], exps)
    {
      exps := ExpectFlag(scope, a.mismatches + a.suppressed[..i], a.suppressed[i], exps);
      assert a.suppressed[..i + 1] == a.suppressed[..i] + [a.suppressed[i]];
      Regroup(a.mismatches, a.suppressed[..i], [a.suppressed[i]]);
    }
    assert a.suppressed[..|a.suppressed|] == a.suppressed;
  }

  lemma ExpectNothing(scope: Scope)
    ensures Expectations(scope, [], map[])
  {
  }

  lemma NamesSum(done: seq<Flag>, f: Flag)
    ensures forall d, r :: Names(done + [f], d, r) <==> Names(done, d, r) || (d == f.decl && r == f.rubyName)
  {
    assert forall g :: g in done + [f] <==> g in done || g == f;
  }

  lemma FlaggedOnSum(done: seq<Flag>, f: Flag)
    ensures forall d, c :: FlaggedOn(done + [f], d, c) <==> FlaggedOn(done, d, c) || (d == f.decl && c in f.calls)
    ensures forall d :: HasPair(done + [f], d) <==> HasPair(done, d) || d == f.decl
  {
    var all := done + [f];
    assert all[..|done|] == done && all[..|done| + 1] == all;
    FlaggedOnOneMore(all, |done|);
    FlaggedOneMore(all, |done|);
  }

  lemma ExpectOutside(scope: Scope, done: seq<Flag>, f: Flag, exps: map<Decl, Expectation>)
    requires Expectations(scope, done, exps) && !InScope(scope, f.decl)
    ensures Expectations(scope, done + [f], exps)
  {
    hide FlaggedOn, HasPair, InScope, RubyNames;
    forall d { RubyNamesPush(done, f, d); }
    FlaggedOnSum(done, f);
    assert forall d :: d in exps ==> d != f.decl;
  }

  lemma RubyNamesPush(done: seq<Flag>, f: Flag, d: Decl)
    ensures var names := RubyNames(done, d);
            RubyNames(done + [f], d) == if f.decl == d && f.rubyName !in names then names + [f.rubyName] else names
  {
    assert (done + [f])[..|done + [f]| - 1] == done;
  }

  lemma ExpectStart(scope: Scope, done: seq<Flag>, d: Decl, exps: map<Decl, Expectation>)
    requires Expectations(scope, done, exps) && InScope(scope, d)
    ensures Expects(done, d, if d in exps then exps[d] else Expectation([], []))
    ensures Distinct((if d in exps then exps[d] else Expectation([], [])).calls)
  {
    if d !in exps {
      forall c ensures !FlaggedOn(done, d, c) { assert !HasPair(done, d); }
      RubyNamesAre(done, d);
      NonEmpty(RubyNames(done, d));
    }
  }

  lemma ExpectOneMore(scope: Scope, done: seq<Flag>, f: Flag, exps: map<Decl, Expectation>, was: Expectation,
                      now: Expectation)
    requires Expectations(scope, done, exps) && InScope(scope, f.decl) && Expects(done, f.decl, was)
    requires Distinct(now.calls) && forall c :: c in now.calls <==> c in was.calls || c in f.calls
    requires now.rubyNames == if f.rubyName in was.rubyNames then was.rubyNames else was.rubyNames + [f.rubyName]
    ensures Expectations(scope, done + [f], exps[f.decl := now])
  {
    hide FlaggedOn, HasPair, InScope, RubyNames, Distinct;
    forall d { RubyNamesPush(done, f, d); }
    FlaggedOnSum(done, f);
    assert Expects(done + [f], f.decl, now);
  }

  // ---------------------------------------------------------------- reasons

  /** The prose a row offers a new tag; the seed when it argues nothing. */
  function RowReason(policy: Policy, rows: seq<Row>, key: Key): string {
    var reason := match LastReason(rows, key) case Some(r) => r case None => "";
    if policy.justifies(reason) then reason else policy.seed
  }

  predicate Curated(policy: Policy, rows: seq<Row>, key: Key) { policy.justifies(Trim(RowReason(policy, rows, key))) }

  /** The first curated reason any of the names has for the call, else the seed. */
  function FirstCuratedReason(policy: Policy, rows: seq<Row>, d: Decl, names: seq<string>, call: string): string {
    if names == [] then policy.seed
    else if Curated(policy, rows, KeyFor(d, names[0], call)) then RowReason(policy, rows, KeyFor(d, names[0], call))
    else FirstCuratedReason(policy, rows, d, names[1..], call)
  }

  lemma {:induction false} FirstCurated(policy: Policy, rows: seq<Row>, d: Decl, names: seq<string>, call: string)
    requires WellSeeded(policy)
    ensures policy.justifies(Trim(FirstCuratedReason(policy, rows, d, names, call)))
       <==> exists r :: r in names && Curated(policy, rows, KeyFor(d, r, call))
    ensures (exists r :: r in names && Curated(policy, rows, KeyFor(d, r, call))) ==>
      exists r :: r in names && Curated(policy, rows, KeyFor(d, r, call))
                  && FirstCuratedReason(policy, rows, d, names, call) == RowReason(policy, rows, KeyFor(d, r, call))
  {
    hide Curated, RowReason;
    if names != [] {
      if Curated(policy, rows, KeyFor(d, names[0], call)) {
        assert names[0] in names;
        CuratedJustifies(policy, rows, KeyFor(d, names[0], call));
      } else {
        FirstCurated(policy, rows, d, names[1..], call);
        assert forall r :: r in names <==> r == names[0] || r in names[1..];
      }
    }
  }

  lemma CuratedJustifies(policy: Policy, rows: seq<Row>, key: Key)
    requires Curated(policy, rows, key)
    ensures policy.justifies(Trim(RowReason(policy, rows, key)))
  {
  }

  // -------------------------------------------------------------- reconciling

  /** Of several tags for one call the last one stands. */
  function LastTag(ts: seq<Tag>, call: string): (r: Option<Tag>)
    ensures r.Some? ==> r.value in ts && r.value.call == call
    ensures r.None? ==> forall t :: t in ts ==> t.call != call
  {
    if ts == [] then None
    else if ts[|ts| - 1].call == call then Some(ts[|ts| - 1])
    else LastTag(ts[..|ts| - 1], call)
  }

  /** A tag is minted only where none stands, inside the cluster, with prose that argues the deviation. */
  predicate Mints(policy: Policy, scope: Scope, existing: seq<Tag>, reasonFor: string -> string, call: string) {
    LastTag(existing, call).None? && Allowed(scope, call) && policy.justifies(Trim(reasonFor(call)))
  }

  predicate Minted(policy: Policy, scope: Scope, existing: seq<Tag>, reasonFor: string -> string, t: Tag) {
    Mints(policy, scope, existing, reasonFor, t.call) && t.reason == Trim(reasonFor(t.call))
  }

  /** A call no tag stands for and none is minted for stays in the baseline. */
  predicate Skips(policy: Policy, scope: Scope, existing: seq<Tag>, reasonFor: string -> string, call: string) {
    LastTag(existing, call).None? && !Mints(policy, scope, existing, reasonFor, call)
  }

  /** Tags in code-unit order of their calls, one for each. */
  ghost predicate Ascending(ts: seq<Tag>) {
    forall i, j :: 0 <= i < j < |ts| ==> ts[i].call != ts[j].call && StringLe(ts[i].call, ts[j].call)
  }

  method Reconcile(policy: Policy, scope: Scope, existing: seq<Tag>, expected: seq<string>, reasonFor: string -> string)
      returns (kept: seq<Tag>, added: seq<Tag>, dropped: seq<Tag>, skipped: seq<string>)
    requires Distinct(expected)
    ensures Ascending(kept) && Ascending(added)
    ensures forall t :: t in kept <==> t.call in expected && LastTag(existing, t.call) == Some(t)
    ensures forall t :: t in added <==> t.call in expected && Minted(policy, scope, existing, reasonFor, t)
    ensures forall c :: c in skipped <==> (c in expected && Skips(policy, scope, existing, reasonFor, c))
    ensures forall t :: t in dropped <==> t in existing && t.call !in expected
  {
    hide LastTag, StringLe, SortStrings, Trim;
    var calls := SortStrings(expected);
    SortedCalls(expected);
    kept, added, skipped := [], [], [];
    for i := 0 to |calls|
      invariant Ascending(kept) && Ascending(added)
      invariant forall t :: t in kept <==> t.call in calls[..i] && LastTag(existing, t.call) == Some(t)
      invariant forall t :: t in added <==> t.call in calls[..i] && Minted(policy, scope, existing, reasonFor, t)
      invariant forall c :: c in skipped <==> (c in calls[..i] && Skips(policy, scope, existing, reasonFor, c))
    {
      var call := calls[i];
      assert forall c :: c in calls[..i + 1] <==> c in calls[..i] || c == call;
      assert forall c :: c in calls[..i] ==> c != call && StringLe(c, call);
      var have := LastTag(existing, call);
      if have.Some? {
        assert have.value.call == call;
        AscendingPush(kept, have.value);
        kept := kept + [have.value];
        continue;
      }
      var reason := Trim(reasonFor(call));
      if !Allowed(scope, call) {
        skipped := skipped + [call];
      } else if !policy.justifies(reason) {
        skipped := skipped + [call];
      } else {
        AscendingPush(added, Tag(call, reason));
        added := added + [Tag(call, reason)];
      }
    }
    assert calls[..|calls|] == calls;
    dropped := Unexpected(existing, expected);
  }

  method Unexpected(existing: seq<Tag>, expected: seq<string>) returns (dropped: seq<Tag>)
    ensures forall t :: t in dropped <==> t in existing && t.call !in expected
  {
    dropped := [];
    for i := 0 to |existing|
      invariant forall t :: t in dropped <==> t in existing[..i] && t.call !in expected
    {
      if existing[i].call !in expected { dropped := dropped + [existing[i]]; }
    }
  }

  lemma SortedCalls(calls: seq<string>)
    requires Distinct(calls)
    ensures Distinct(SortStrings(calls)) && Sorted(StringLe, SortStrings(calls))
    ensures forall c :: c in SortStrings(calls) <==> c in calls
  {
    StringOrder(calls);
    SortBySorted(StringLe, calls);
    SameElements(SortStrings(calls), calls);
    DistinctSurvives(calls, SortStrings(calls));
  }

  lemma AscendingPush(ts: seq<Tag>, t: Tag)
    requires Ascending(ts) && forall u :: u in ts ==> u.call != t.call && StringLe(u.call, t.call)
    ensures Ascending(ts + [t])
  {
    hide StringLe;
    assert forall i :: 0 <= i < |ts| ==> ts[i] in ts;
  }

  // ---------------------------------------------------------------- rendering

  predicate ByCall(a: Tag, b: Tag) { StringLe(a.call, b.call) }

  lemma ByCallOrder()
    ensures TotalPreorder(ByCall)
  {
    forall a: Tag, b: Tag ensures ByCall(a, b) || ByCall(b, a) { StringTotal(a.call, b.call); }
    forall a: Tag, b: Tag, c: Tag | ByCall(a, b) && ByCall(b, c) ensures ByCall(a, c) {
      StringTransitive(a.call, b.call, c.call);
    }
  }

  /** Kept and minted tags go back in call order, each call once. */
  lemma RenderedAscending(kept: seq<Tag>, added: seq<Tag>)
    requires Ascending(kept) && Ascending(added)
    requires forall t, u :: t in kept && u in added ==> t.call != u.call
    ensures Ascending(SortBy(ByCall, kept + added))
    ensures forall t :: t in SortBy(ByCall, kept + added) <==> t in kept || t in added
  {
    hide StringLe;
    var all, sorted := kept + added, SortBy(ByCall, kept + added);
    ByCallOrder();
    SortBySorted(ByCall, all);
    SameElements(sorted, all);
    forall i, j | 0 <= i < j < |all| ensures all[i].call != all[j].call {
      if i < |kept| <= j { assert all[i] in kept && all[j] in added; }
    }
    DistinctSurvives(all, sorted);
    forall i, j | 0 <= i < j < |sorted|
      ensures sorted[i].call != sorted[j].call && StringLe(sorted[i].call, sorted[j].call) {
      assert sorted[i] in sorted && sorted[j] in sorted;
      assert sorted[i] != sorted[j] && ByCall(sorted[i], sorted[j]);
    }
  }

  /** A list in call order is determined by its members. */
  lemma {:induction false} AscendingUnique(a: seq<Tag>, b: seq<Tag>)
    requires Ascending(a) && Ascending(b) && forall t :: t in a <==> t in b
    ensures a == b
  {
    hide StringLe;
    if a == [] || b == [] {
      NonEmpty(a);
      NonEmpty(b);
    } else {
      var x, y, a', b' := a[|a| - 1], b[|b| - 1], a[..|a| - 1], b[..|b| - 1];
      assert x in b && y in a;
      LastIsGreatest(a, y);
      LastIsGreatest(b, x);
      StringTotal(x.call, y.call);
      forall t ensures t in a' <==> t in b' {
        LastOnce(a, t);
        LastOnce(b, t);
        SameCallSame(a, x, y);
      }
      SameCallSame(a, x, y);
      AscendingUnique(a', b');
      assert a == a' + [x] && b == b' + [y];
    }
  }

  lemma LastIsGreatest(a: seq<Tag>, t: Tag)
    requires Ascending(a) && t in a
    ensures StringLe(t.call, a[|a| - 1].call)
  {
    hide StringLe;
    var i :| 0 <= i < |a| && a[i] == t;
    if i == |a| - 1 { StringTotal(t.call, t.call); }
  }

  lemma LastOnce(a: seq<Tag>, t: Tag)
    requires Ascending(a) && a != []
    ensures t in a[..|a| - 1] <==> t in a && t != a[|a| - 1]
  {
    hide StringLe;
    assert a == a[..|a| - 1] + [a[|a| - 1]];
  }

  lemma SameCallSame(a: seq<Tag>, x: Tag, y: Tag)
    requires Ascending(a) && x in a && y in a && x.call == y.call
    ensures x == y
  {
    hide StringLe;
  }

  // ---------------------------------------------------------------- migration

  /** The calls one declaration is to carry: what the artifact expects of it, or, where the artifact has
      nothing to say, what it carries already minus what went stale. */
  predicate ExpectedCall(existing: seq<Tag>, exp: Option<Expectation>, stale: set<StaleTag>, d: Decl, call: string) {
    if exp.Some? then call in exp.value.calls
    else (exists t :: t in existing && t.call == call) && StaleTag(d, call) !in stale
  }

  function ReasonFor(policy: Policy, rows: seq<Row>, d: Decl, exp: Option<Expectation>): string -> string {
    if exp.Some? then c => FirstCuratedReason(policy, rows, d, exp.value.rubyNames, c) else c => policy.seed
  }

  function Settled(policy: Policy, scope: Scope, existing: seq<Tag>,
                   reasonFor: string -> string, call: string): Option<Tag> {
    if LastTag(existing, call).Some? then LastTag(existing, call)
    else if Mints(policy, scope, existing, reasonFor, call) then Some(Tag(call, Trim(reasonFor(call))))
    else None
  }

  /** `ts` is what reconciling leaves on the declaration. */
  ghost predicate Retagged(policy: Policy, scope: Scope, rows: seq<Row>, stale: set<StaleTag>, d: Decl,
                           existing: seq<Tag>, exp: Option<Expectation>, ts: seq<Tag>) {
    && Ascending(ts)
    && forall t :: t in ts <==> (ExpectedCall(existing, exp, stale, d, t.call)
                                 && Settled(policy, scope, existing, ReasonFor(policy, rows, d, exp),
                                   t.call) == Some(t))
  }

  method Preserved(existing: seq<Tag>, stale: set<StaleTag>, d: Decl) returns (calls: seq<string>)
    ensures Distinct(calls)
    ensures forall c :: c in calls <==> ExpectedCall(existing, None, stale, d, c)
  {
    var live := seq(|existing|, i requires 0 <= i < |existing| => existing[i].call);
    var all := AddCalls([], live);
    forall c ensures c in all <==> exists t :: t in existing && t.call == c {
      if c in all {
        var i :| 0 <= i < |live| && live[i] == c;
        assert existing[i] in existing;
      }
      if t :| t in existing && t.call == c {
        var i :| 0 <= i < |existing| && existing[i] == t;
        assert live[i] in live;
      }
    }
    calls := [];
    for i := 0 to |all|
      invariant Distinct(calls) && forall c :: c in calls <==> c in all[..i] && StaleTag(d, c) !in stale
    {
      assert all[i] !in all[..i];
      if StaleTag(d, all[i]) !in stale { calls := calls + [all[i]]; }
    }
    assert all[..|all|] == all;
  }

  method Retag(policy: Policy, scope: Scope, rows: seq<Row>, stale: set<StaleTag>, d: Decl, existing: seq<Tag>,
               exp: Option<Expectation>)
      returns (ts: seq<Tag>)
    requires exp.Some? ==> Distinct(exp.value.calls)
    ensures Retagged(policy, scope, rows, stale, d, existing, exp, ts)
  {
    var expected: seq<string>;
    if exp.Some? {
      expected := exp.value.calls;
    } else {
      expected := Preserved(existing, stale, d);
    }
    assert forall c :: c in expected <==> ExpectedCall(existing, exp, stale, d, c);
    hide ExpectedCall, ReasonFor, LastTag, FirstCuratedReason, Trim, SortBy, ByCall;
    var reasonFor := ReasonFor(policy, rows, d, exp);
    var kept, added, dropped, skipped := Reconcile(policy, scope, existing, expected, reasonFor);
    RenderedAscending(kept, added);
    ts := SortBy(ByCall, kept + added);
  }

  predicate SameFile(d: Decl, e: Decl) { d.package == e.package && d.file == e.file }

  /** A file is opened when the artifact expects something of it or reports a stale tag in it. */
  predicate Opened(scope: Scope, a: Artifact, d: Decl) {
    && InScope(scope, d)
    && ((exists f :: f in a.mismatches + a.suppressed && SameFile(f.decl, d))
        || exists t :: t in a.stale && SameFile(t.decl, d))
  }

  function ExpectationOf(exps: map<Decl, Expectation>, d: Decl): Option<Expectation> {
    if d in exps then Some(exps[d]) else None
  }

  ghost predicate Retags(policy: Policy, scope: Scope, a: Artifact, exps: map<Decl, Expectation>, s: State, d: Decl,
                         ts: seq<Tag>)
    requires d in s.tags
  {
    if !Opened(scope, a, d) then ts == s.tags[d]
    else Retagged(policy, scope, s.rows, a.stale, d, s.tags[d], ExpectationOf(exps, d), ts)
  }

  /** A row is migrated when a declaration expecting its Ruby name now carries a tag arguing for its call. */
  ghost predicate Migrates(policy: Policy, exps: map<Decl, Expectation>, tags: Tags, key: Key) {
    exists d, r :: d in exps && r in exps[d].rubyNames && KeyFor(d, r, key.call) == key &&
      Visible(policy, tags, d, key.call)
  }

  ghost predicate MigratesOn(policy: Policy, exp: Expectation, tags: Tags, d: Decl, key: Key) {
    exists r :: r in exp.rubyNames && KeyFor(d, r, key.call) == key && Visible(policy, tags, d, key.call)
  }

  /** The rows a build leaves stand in the order they stood, each as often. */
  lemma {:induction false} WithoutPicks(rows: seq<Row>, migrated: set<Key>) returns (at: seq<nat>)
    ensures Picked(rows, at, Without(rows, migrated))
    ensures forall i :: 0 <= i < |rows| ==> (i in at <==> rows[i].key !in migrated)
  {
    hide Picked;
    at := [];
    if rows == [] {
      assert Without(rows, migrated) == [];
      NothingPicked(rows);
    } else {
      var init, row := rows[..|rows| - 1], rows[|rows| - 1];
      var before := WithoutPicks(init, migrated);
      at := before + if row.key in migrated then [] else [|init|];
      PickedPush(init, row, row.key !in migrated, before, Without(init, migrated));
      PickedWithin(init, before, Without(init, migrated));
      assert init + [row] == rows;
    }
  }

  function Without(rows: seq<Row>, migrated: set<Key>): (r: seq<Row>)
    ensures forall row :: row in r <==> row in rows && row.key !in migrated
  {
    if rows == [] then []
    else
      assert forall row :: row in rows <==> row in rows[..|rows| - 1] || row == rows[|rows| - 1];
      Without(rows[..|rows| - 1], migrated) + if rows[|rows| - 1].key in migrated then [] else [rows[|rows| - 1]]
  }

  ghost predicate Built(policy: Policy, scope: Scope, a: Artifact, s: State, next: State,
                        exps: map<Decl, Expectation>, migrated: set<Key>) {
    && Expectations(scope, a.mismatches + a.suppressed, exps)
    && next.tags.Keys == s.tags.Keys
    && (forall d :: d in s.tags ==> Retags(policy, scope, a, exps, s, d, next.tags[d]))
    && (forall k :: k in migrated <==> Migrates(policy, exps, next.tags, k))
    && next.rows == Without(s.rows, migrated)
  }

  // ------------------------------------------------------ what a build changes

  /** A declaration outside the package, or outside the one file asked for, keeps its tags. */
  lemma OutsideStands(policy: Policy, scope: Scope, a: Artifact, s: State, next: State,
                      exps: map<Decl, Expectation>, migrated: set<Key>, d: Decl)
    requires Built(policy, scope, a, s, next, exps, migrated) && d in s.tags
    requires d.package != scope.package || (scope.onlyFile.Some? && d.file != scope.onlyFile.value)
    ensures next.tags[d] == s.tags[d]
  {
    hide Expectations, Migrates, Without, Retagged;
    assert Retags(policy, scope, a, exps, s, d, next.tags[d]);
  }

  /** A row that goes is of the package, and of the one file asked for. */
  lemma RowsGoInScope(policy: Policy, scope: Scope, a: Artifact, s: State, next: State,
                      exps: map<Decl, Expectation>, migrated: set<Key>, row: Row)
    requires Built(policy, scope, a, s, next, exps, migrated) && row in s.rows && row !in next.rows
    ensures row.key.package == scope.package && (scope.onlyFile.Some? ==> row.key.file == scope.onlyFile.value)
  {
    hide Visible, Expects, Retags;
    assert row.key in migrated;
    assert Migrates(policy, exps, next.tags, row.key);
  }

  /** With calls named, no other call gains a tag. */
  lemma OnlyNamedCallsMint(policy: Policy, scope: Scope, a: Artifact, s: State, next: State,
                           exps: map<Decl, Expectation>, migrated: set<Key>, d: Decl, t: Tag)
    requires Built(policy, scope, a, s, next, exps, migrated) && d in s.tags && t in next.tags[d]
    requires scope.onlyCall.Some? && t.call !in scope.onlyCall.value
    ensures t in s.tags[d]
  {
    hide Expectations, Migrates, Without, ExpectedCall, ReasonFor, Trim;
    assert Retags(policy, scope, a, exps, s, d, next.tags[d]);
  }

  /** The one row of a key gives it its reason. */
  lemma {:induction false} OnlyRow(rows: seq<Row>, row: Row)
    requires row in rows && forall other :: other in rows && other.key == row.key ==> other == row
    ensures LastReason(rows, row.key) == Some(row.reason)
  {
    LastReasonIsARow(rows, row.key);
  }

  /** A flag in scope makes an expectation of its calls, under its Ruby name. */
  lemma FlagExpected(scope: Scope, flags: seq<Flag>, exps: map<Decl, Expectation>, f: Flag, call: string)
    requires Expectations(scope, flags, exps) && f in flags && call in f.calls
    requires f.decl.package == scope.package && (scope.onlyFile.Some? ==> f.decl.file == scope.onlyFile.value)
    ensures f.decl in exps && call in exps[f.decl].calls && f.rubyName in exps[f.decl].rubyNames
    ensures Distinct(exps[f.decl].calls)
  {
    assert Flagged(flags, f.decl, f.rubyName, call);
    assert FlaggedOn(flags, f.decl, call) && HasPair(flags, f.decl) && Names(flags, f.decl, f.rubyName);
    RubyNamesAre(flags, f.decl);
    hide Flagged, FlaggedOn, HasPair, Names, RubyNames, Distinct;
  }

  lemma FlagOpens(scope: Scope, a: Artifact, f: Flag)
    requires f in a.mismatches + a.suppressed
    requires f.decl.package == scope.package && (scope.onlyFile.Some? ==> f.decl.file == scope.onlyFile.value)
    ensures Opened(scope, a, f.decl)
  {
  }

  /** A flagged call without a tag, in scope and argued by its row, comes out tagged, and its row goes. */
  lemma FlaggedRowMints(policy: Policy, scope: Scope, a: Artifact, s: State, next: State,
                        exps: map<Decl, Expectation>, migrated: set<Key>, f: Flag, call: string, row: Row)
    requires Built(policy, scope, a, s, next, exps, migrated) && WellSeeded(policy)
    requires f in a.mismatches && call in f.calls && f.decl in s.tags
    requires f.decl.package == scope.package && (scope.onlyFile.Some? ==> f.decl.file == scope.onlyFile.value)
    requires scope.onlyCall.Some? ==> call in scope.onlyCall.value
    requires forall t :: t in s.tags[f.decl] ==> t.call != call
    requires row in s.rows && row.key == Key(f.decl.package, f.decl.file, f.rubyName, call)
    requires forall other :: other in s.rows && other.key == row.key ==> other == row
    requires policy.justifies(row.reason) && policy.justifies(Trim(row.reason))
    ensures exists t :: t in next.tags[f.decl] && t.call == call && policy.justifies(t.reason)
    ensures row !in next.rows
  {
    var d := f.decl;
    assert f in a.mismatches + a.suppressed && row.key == KeyFor(d, f.rubyName, call);
    assert scope.onlyCall.Some? ==> Allowed(scope, call);
    RowCurates(policy, s.rows, row);
    hide *;
    BuiltParts(policy, scope, a, s, next, exps, migrated, d);
    FlagExpected(scope, a.mismatches + a.suppressed, exps, f, call);
    FlagOpens(scope, a, f);
    FirstCurated(policy, s.rows, d, exps[d].rubyNames, call);
    var t := MintedTag(policy, scope, a, exps, s, d, next.tags[d], call);
    TaggedRowGoes(policy, exps, s, next, migrated, d, f.rubyName, row, t);
  }

  lemma RowCurates(policy: Policy, rows: seq<Row>, row: Row)
    requires row in rows && forall other :: other in rows && other.key == row.key ==> other == row
    requires policy.justifies(row.reason) && policy.justifies(Trim(row.reason))
    ensures Curated(policy, rows, row.key)
  {
    OnlyRow(rows, row);
    hide LastReason, Trim;
  }

  lemma BuiltParts(policy: Policy, scope: Scope, a: Artifact, s: State, next: State,
                   exps: map<Decl, Expectation>, migrated: set<Key>, d: Decl)
    requires Built(policy, scope, a, s, next, exps, migrated) && d in s.tags
    ensures Expectations(scope, a.mismatches + a.suppressed, exps)
    ensures d in next.tags && Retags(policy, scope, a, exps, s, d, next.tags[d])
    ensures next.rows == Without(s.rows, migrated)
    ensures forall k :: k in migrated <==> Migrates(policy, exps, next.tags, k)
  {
    hide Expectations, Retags, Without, Migrates;
  }

  lemma MintedTag(policy: Policy, scope: Scope, a: Artifact, exps: map<Decl, Expectation>, s: State, d: Decl,
                  ts: seq<Tag>, call: string) returns (t: Tag)
    requires d in s.tags && d in exps && Opened(scope, a, d) && Retags(policy, scope, a, exps, s, d, ts)
    requires call in exps[d].calls && (scope.onlyCall.Some? ==> Allowed(scope, call))
    requires forall t :: t in s.tags[d] ==> t.call != call
    requires policy.justifies(Trim(FirstCuratedReason(policy, s.rows, d, exps[d].rubyNames, call)))
    ensures t in ts && t.call == call && policy.justifies(t.reason)
  {
    assert Allowed(scope, call);
    hide Opened, Trim, FirstCuratedReason, Allowed;
    t := Tag(call, Trim(FirstCuratedReason(policy, s.rows, d, exps[d].rubyNames, call)));
    assert ReasonFor(policy, s.rows, d, Some(exps[d]))(call) ==
           FirstCuratedReason(policy, s.rows, d, exps[d].rubyNames, call);
    assert Settled(policy, scope, s.tags[d], ReasonFor(policy, s.rows, d, Some(exps[d])), call) == Some(t);
  }

  lemma TaggedRowGoes(policy: Policy, exps: map<Decl, Expectation>, s: State, next: State, migrated: set<Key>,
                      d: Decl, rubyName: string, row: Row, t: Tag)
    requires next.rows == Without(s.rows, migrated) && d in exps && rubyName in exps[d].rubyNames && d in next.tags
    requires forall k :: k in migrated <==> Migrates(policy, exps, next.tags, k)
    requires t in next.tags[d] && policy.justifies(t.reason) && row.key == KeyFor(d, rubyName, t.call)
    ensures row !in next.rows
  {
    hide Without;
    assert Visible(policy, next.tags, d, t.call);
    assert Migrates(policy, exps, next.tags, row.key);
  }

  /** On a declaration flagged in scope, the last tag of a flagged call stays, and no tag of another call does. */
  lemma FlaggedTagsStay(policy: Policy, scope: Scope, a: Artifact, s: State, next: State,
                        exps: map<Decl, Expectation>, migrated: set<Key>, d: Decl, i: nat)
    requires Built(policy, scope, a, s, next, exps, migrated) && d in s.tags && i < |s.tags[d]|
    requires forall j :: i < j < |s.tags[d]| ==> s.tags[d][j].call != s.tags[d][i].call
    requires d.package == scope.package && (scope.onlyFile.Some? ==> d.file == scope.onlyFile.value)
    requires exists f :: f in a.mismatches + a.suppressed && f.decl == d
    ensures if exists f :: f in a.mismatches + a.suppressed && f.decl == d && s.tags[d][i].call in f.calls
            then s.tags[d][i] in next.tags[d] else forall u :: u in next.tags[d] ==> u.call != s.tags[d][i].call
  {
    var t, flags := s.tags[d][i], a.mismatches + a.suppressed;
    var f :| f in flags && f.decl == d;
    FlagOpens(scope, a, f);
    assert HasPair(flags, d);
    assert FlaggedOn(flags, d, t.call) <==> exists f :: f in flags && f.decl == d && t.call in f.calls by {
      if f :| f in flags && f.decl == d && t.call in f.calls { assert Flagged(flags, d, f.rubyName, t.call); }
    }
    LastOf(s.tags[d], i);
    BuiltParts(policy, scope, a, s, next, exps, migrated, d);
    hide Opened, FlaggedOn, HasPair, LastTag, Trim, Mints, ReasonFor, Built, RubyNames;
  }

  lemma {:induction false} LastOf(ts: seq<Tag>, i: nat)
    requires i < |ts| && forall j :: i < j < |ts| ==> ts[j].call != ts[i].call
    ensures LastTag(ts, ts[i].call) == Some(ts[i])
  {
    if i < |ts| - 1 { LastOf(ts[..|ts| - 1], i); }
  }

  /** On a declaration of an opened file that nothing is flagged on, the last tag of a call stays unless it is
      reported stale there, and nothing is added. */
  lemma UnflaggedTagsStay(policy: Policy, scope: Scope, a: Artifact, s: State, next: State,
                          exps: map<Decl, Expectation>, migrated: set<Key>, d: Decl, i: nat)
    requires Built(policy, scope, a, s, next, exps, migrated) && d in s.tags && i < |s.tags[d]|
    requires forall j :: i < j < |s.tags[d]| ==> s.tags[d][j].call != s.tags[d][i].call
    requires forall f :: f in a.mismatches + a.suppressed ==> f.decl != d
    requires d.package == scope.package && (scope.onlyFile.Some? ==> d.file == scope.onlyFile.value)
    ensures StaleTag(d, s.tags[d][i].call) !in a.stale ==> s.tags[d][i] in next.tags[d]
    ensures StaleTag(d, s.tags[d][i].call) in a.stale ==> forall u :: u in next.tags[d] ==> u.call != s.tags[d][i].call
    ensures WellSeeded(policy) ==> forall u :: u in next.tags[d] ==> u in s.tags[d]
  {
    var t := s.tags[d][i];
    assert !HasPair(a.mismatches + a.suppressed, d);
    LastOf(s.tags[d], i);
    BuiltParts(policy, scope, a, s, next, exps, migrated, d);
    assert d !in exps;
    if StaleTag(d, t.call) in a.stale { assert Opened(scope, a, d); }
    hide Opened, HasPair, LastTag, Trim, Built, Expectations;
  }

  /** Reconcile every opened declaration and drop the migrated rows. Only declarations and rows of the package, and of
      the one file asked for, change; with calls named, no other call gains a tag. */
  method Build(policy: Policy, scope: Scope, a: Artifact, s: State)
      returns (next: State, exps: map<Decl, Expectation>, migrated: set<Key>)
    ensures Built(policy, scope, a, s, next, exps, migrated)
    ensures forall d | d in s.tags && (d.package != scope.package ||
                                       (scope.onlyFile.Some? && d.file != scope.onlyFile.value)) ::
      d in next.tags && next.tags[d] == s.tags[d]
    ensures forall row :: row in s.rows && row !in next.rows ==>
      row.key.package == scope.package && (scope.onlyFile.Some? ==> row.key.file == scope.onlyFile.value)
    ensures forall d, t | d in s.tags && d in next.tags && t in next.tags[d] ::
      scope.onlyCall.Some? && t.call !in scope.onlyCall.value ==> t in s.tags[d]
  {
    next, exps, migrated := RetagAll(policy, scope, a, s);
    assert next.tags.Keys == s.tags.Keys;
    hide *;
    forall d | d in s.tags && (d.package != scope.package ||
        (scope.onlyFile.Some? && d.file != scope.onlyFile.value))
      ensures d in next.tags && next.tags[d] == s.tags[d] {
      OutsideStands(policy, scope, a, s, next, exps, migrated, d);
    }
    forall row | row in s.rows && row !in next.rows
      ensures row.key.package == scope.package && (scope.onlyFile.Some? ==> row.key.file == scope.onlyFile.value) {
      RowsGoInScope(policy, scope, a, s, next, exps, migrated, row);
    }
    forall d, t | d in s.tags && d in next.tags && t in next.tags[d] &&
        scope.onlyCall.Some? && t.call !in scope.onlyCall.value
      ensures t in s.tags[d] {
      OnlyNamedCallsMint(policy, scope, a, s, next, exps, migrated, d, t);
    }
  }

  method RetagAll(policy: Policy, scope: Scope, a: Artifact, s: State)
      returns (next: State, exps: map<Decl, Expectation>, migrated: set<Key>)
    ensures Built(policy, scope, a, s, next, exps, migrated)
  {
    hide Retags, Migrates, Without, HasPair, InScope;
    exps := BuildExpectations(scope, a);
    var tags := s.tags;
    migrated := {};
    var rest := s.tags.Keys;
    while rest != {}
      invariant rest <= s.tags.Keys == tags.Keys
      invariant forall d :: d in s.tags && d !in rest ==> Retags(policy, scope, a, exps, s, d, tags[d])
      invariant forall d :: d in rest ==> tags[d] == s.tags[d]
      decreases |rest|
    {
      var d :| d in rest;
      rest := rest - {d};
      var ts := RetagOpened(policy, scope, a, exps, s, d);
      tags := tags[d := ts];
    }
    migrated := Tagged(policy, exps, tags);
    next := State(tags, Without(s.rows, migrated));
  }

  method RetagOpened(policy: Policy, scope: Scope, a: Artifact, exps: map<Decl, Expectation>, s: State, d: Decl)
      returns (ts: seq<Tag>)
    requires d in s.tags && Expectations(scope, a.mismatches + a.suppressed, exps)
    ensures Retags(policy, scope, a, exps, s, d, ts)
  {
    hide Retagged, HasPair, InScope, FlaggedOn, Names;
    if Opened(scope, a, d) {
      ts := Retag(policy, scope, s.rows, a.stale, d, s.tags[d], ExpectationOf(exps, d));
    } else {
      ts := s.tags[d];
    }
  }

  /** Every (Ruby name, call) the declarations now carry an argued tag for. */
  method Tagged(policy: Policy, exps: map<Decl, Expectation>, tags: Tags) returns (migrated: set<Key>)
    ensures forall k :: k in migrated <==> Migrates(policy, exps, tags, k)
  {
    migrated := {};
    var rest := exps.Keys;
    while rest != {}
      invariant rest <= exps.Keys
      invariant forall k :: k in migrated <==> Migrates(policy, exps - rest, tags, k)
      decreases |rest|
    {
      var d :| d in rest;
      var more := {};
      if d in tags {
        more := set r, t | r in exps[d].rubyNames && t in tags[d] && policy.justifies(t.reason) :: KeyFor(d, r, t.call);
      }
      forall k ensures k in more <==> MigratesOn(policy, exps[d], tags, d, k) {}
      MigratesOneMore(policy, exps, tags, rest, d, more, migrated);
      migrated, rest := migrated + more, rest - {d};
    }
    assert exps - {} == exps;
  }

  lemma MigratesOneMore(policy: Policy, exps: map<Decl, Expectation>, tags: Tags, rest: set<Decl>, d: Decl,
                        more: set<Key>, migrated: set<Key>)
    requires d in rest && rest <= exps.Keys
    requires forall k :: k in migrated <==> Migrates(policy, exps - rest, tags, k)
    requires forall k :: k in more <==> MigratesOn(policy, exps[d], tags, d, k)
    ensures forall k :: k in migrated + more <==> Migrates(policy, exps - (rest - {d}), tags, k)
  {
    hide Visible;
    var was, now := exps - rest, exps - (rest - {d});
    forall k ensures k in migrated + more <==> Migrates(policy, now, tags, k) {
      if Migrates(policy, now, tags, k) {
        var e, r :| e in now && r in now[e].rubyNames && KeyFor(e, r, k.call) == k && Visible(policy, tags, e, k.call);
        assert e == d || (e in was && r in was[e].rubyNames);
      }
      if Migrates(policy, was, tags, k) {
        var e, r :| e in was && r in was[e].rubyNames && KeyFor(e, r, k.call) == k && Visible(policy, tags, e, k.call);
        assert e in now && r in now[e].rubyNames;
      }
      if k in more {
        var r :| r in exps[d].rubyNames && KeyFor(d, r, k.call) == k && Visible(policy, tags, d, k.call);
        assert d in now && r in now[d].rubyNames;
      }
    }
  }
}
