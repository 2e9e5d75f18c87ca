/** What the comparer, the migrator and the gate keep over a run of builds. */
module CallRatchet {
  import opened Ordering
  import opened Text
  import opened CallBaseline
  import opened CallReceipts
  import opened TagMigrator

  /** Some flag reading as the key survives the tags. */
  ghost predicate Outstanding(policy: Policy, pairs: seq<Flag>, tags: Tags, key: Key) {
    exists d, r :: Flagged(pairs, d, r, key.call) && KeyFor(d, r, key.call) == key &&
      !Visible(policy, tags, d, key.call)
  }

  /** The comparer can read the tags, and the gate finds nothing to report in what it writes. */
  ghost predicate GreenState(policy: Policy, pairs: seq<Flag>, s: State) {
    && Extractable(policy, s.tags) && UniqueKeys(s.rows)
    && (forall k :: HasRow(s.rows, k) <==> Outstanding(policy, pairs, s.tags, k))
    && (forall d, c :: !IsStale(policy, pairs, s.tags, d, c))
  }

  /** On the comparer's artifact the gate passes exactly at a green state. */
  lemma GateChecksGreen(policy: Policy, pairs: seq<Flag>, s: State, a: Artifact)
    requires Extractable(policy, s.tags) && Compares(policy, pairs, s.tags, a)
    ensures Green(a, s.rows) <==> GreenState(policy, pairs, s)
  {
    hide Visible, Flagged, Extractable, UniqueKeys, HasRow, IsStale;
    forall k ensures FlaggedKey(a.mismatches, k) <==> Outstanding(policy, pairs, s.tags, k) {
      if FlaggedKey(a.mismatches, k) {
        var d, r :| Flagged(a.mismatches, d, r, k.call) && KeyFor(d, r, k.call) == k;
        assert Flagged(pairs, d, r, k.call) && !Visible(policy, s.tags, d, k.call);
      }
      if Outstanding(policy, pairs, s.tags, k) {
        var d, r :| Flagged(pairs, d, r, k.call) && KeyFor(d, r, k.call) == k && !Visible(policy, s.tags, d, k.call);
        assert Flagged(a.mismatches, d, r, k.call);
      }
    }
    forall t ensures t in a.stale <==> IsStale(policy, pairs, s.tags, t.decl, t.call) {
      assert t == StaleTag(t.decl, t.call);
    }
  }

  // --------------------------------------------------------------- one round

  /** One comparison followed by one build. */
  ghost predicate Round(policy: Policy, scope: Scope, pairs: seq<Flag>, s: State, a: Artifact, next: State,
                        exps: map<Decl, Expectation>, migrated: set<Key>) {
    WellSeeded(policy) && Compares(policy, pairs, s.tags, a) && Built(policy, scope, a, s, next, exps, migrated)
  }

  /** The Ruby name has a flagged call on the declaration. */
  ghost predicate Matched(pairs: seq<Flag>, d: Decl, rubyName: string) { exists c :: Flagged(pairs, d, rubyName, c) }

  /** Whether a flagged call will stand under an arguing tag: by the last tag it has, or by a mint. */
  ghost predicate WillArgue(policy: Policy, scope: Scope, pairs: seq<Flag>, s: State, d: Decl, call: string) {
    d in s.tags &&
    if !InScope(scope, d) then Visible(policy, s.tags, d, call)
    else match LastTag(s.tags[d], call)
      case Some(t) => policy.justifies(t.reason)
      case None =>
        Allowed(scope, call) && exists r :: Matched(pairs, d, r) && Curated(policy, s.rows, KeyFor(d, r, call))
  }

  /** A build retires the key's row: some declaration matched onto its Ruby name will argue for its call. */
  ghost predicate Retires(policy: Policy, scope: Scope, pairs: seq<Flag>, s: State, key: Key) {
    exists d, r :: InScope(scope, d) && Matched(pairs, d, r) && FlaggedOn(pairs, d, key.call)
                   && KeyFor(d, r, key.call) == key && WillArgue(policy, scope, pairs, s, d, key.call)
  }

  /** No flag loses its receipt: each will stand under a tag, or under a row the build leaves. */
  ghost predicate KeepsReceipts(policy: Policy, scope: Scope, pairs: seq<Flag>, s: State) {
    forall d, r, c :: Flagged(pairs, d, r, c) ==>
      || WillArgue(policy, scope, pairs, s, d, c)
      || (HasRow(s.rows, KeyFor(d, r, c)) && !Retires(policy, scope, pairs, s, KeyFor(d, r, c)))
  }

  /** Every reason the build would write into a tag opens with a permanence claim. */
  ghost predicate MintsClassified(policy: Policy, scope: Scope, exps: map<Decl, Expectation>, s: State) {
    forall d, c :: d in exps && d in s.tags && c in exps[d].calls
                   && Mints(policy, scope, s.tags[d], ReasonFor(policy, s.rows, d, Some(exps[d])), c) ==>
      policy.claims(Trim(FirstCuratedReason(policy, s.rows, d, exps[d].rubyNames, c)))
  }

  lemma ExpectationsOfPairs(policy: Policy, scope: Scope, pairs: seq<Flag>, tags: Tags, a: Artifact,
                            exps: map<Decl, Expectation>)
    requires Compares(policy, pairs, tags, a) && Expectations(scope, a.mismatches + a.suppressed, exps)
    ensures forall d :: d in exps <==> InScope(scope, d) && exists c :: FlaggedOn(pairs, d, c)
    ensures forall d, c :: d in exps ==> (c in exps[d].calls <==> FlaggedOn(pairs, d, c))
    ensures forall d, r :: d in exps ==> (r in exps[d].rubyNames <==> Matched(pairs, d, r))
  {
    var flags := a.mismatches + a.suppressed;
    ArtifactFlags(policy, pairs, tags, a);
    MentionsFlag(flags);
    SameMentions(flags, pairs);
    hide *;
    forall d ensures d in exps <==> InScope(scope, d) && exists c :: FlaggedOn(pairs, d, c) {
      ExpectedDecl(scope, flags, exps, d);
    }
    forall d | d in exps
      ensures forall c :: c in exps[d].calls <==> FlaggedOn(pairs, d, c)
      ensures forall r :: r in exps[d].rubyNames <==> Matched(pairs, d, r)
    {
      ExpectedDecl(scope, flags, exps, d);
    }
  }

  lemma ExpectedDecl(scope: Scope, flags: seq<Flag>, exps: map<Decl, Expectation>, d: Decl)
    requires Expectations(scope, flags, exps)
    ensures d in exps <==> InScope(scope, d) && HasPair(flags, d)
    ensures d in exps ==> forall c :: c in exps[d].calls <==> FlaggedOn(flags, d, c)
    ensures d in exps ==> forall r :: r in exps[d].rubyNames <==> Names(flags, d, r)
  {
    hide RubyNames, FlaggedOn, HasPair, Names, InScope;
    RubyNamesAre(flags, d);
  }

  lemma SameMentions(flags: seq<Flag>, pairs: seq<Flag>)
    requires forall d, r, c :: Flagged(flags, d, r, c) <==> Flagged(pairs, d, r, c)
    ensures forall d, c :: FlaggedOn(flags, d, c) <==> FlaggedOn(pairs, d, c)
    ensures forall d, r :: Matched(flags, d, r) <==> Matched(pairs, d, r)
  {
    hide Flagged;
    forall d, c ensures FlaggedOn(flags, d, c) <==> FlaggedOn(pairs, d, c) {
      if FlaggedOn(flags, d, c) { var r :| Flagged(flags, d, r, c); assert Flagged(pairs, d, r, c); }
      if FlaggedOn(pairs, d, c) { var r :| Flagged(pairs, d, r, c); assert Flagged(flags, d, r, c); }
    }
    forall d, r ensures Matched(flags, d, r) <==> Matched(pairs, d, r) {
      if Matched(flags, d, r) { var c :| Flagged(flags, d, r, c); assert Flagged(pairs, d, r, c); }
      if Matched(pairs, d, r) { var c :| Flagged(pairs, d, r, c); assert Flagged(flags, d, r, c); }
    }
  }

  lemma ArtifactFlags(policy: Policy, pairs: seq<Flag>, tags: Tags, a: Artifact)
    requires Compares(policy, pairs, tags, a)
    ensures forall d, r, c :: Flagged(a.mismatches + a.suppressed, d, r, c) <==> Flagged(pairs, d, r, c)
    ensures forall f :: f in a.mismatches + a.suppressed ==> f.calls != []
  {
    FlaggedSum(a.mismatches, a.suppressed);
    hide Flagged, Visible;
  }

  lemma MentionsFlag(flags: seq<Flag>)
    requires forall f :: f in flags ==> f.calls != []
    ensures forall d, r :: Names(flags, d, r) <==> Matched(flags, d, r)
    ensures forall d :: HasPair(flags, d) <==> exists c :: FlaggedOn(flags, d, c)
  {
    forall d, r ensures Names(flags, d, r) <==> Matched(flags, d, r) {
      if Names(flags, d, r) {
        var f :| f in flags && f.decl == d && f.rubyName == r;
        assert Flagged(flags, d, r, f.calls[0]);
      }
    }
    forall d ensures HasPair(flags, d) <==> exists c :: FlaggedOn(flags, d, c) {
      if HasPair(flags, d) {
        var f :| f in flags && f.decl == d;
        assert Flagged(flags, d, f.rubyName, f.calls[0]);
        assert FlaggedOn(flags, d, f.calls[0]);
      }
      if c :| FlaggedOn(flags, d, c) {
        var r :| Flagged(flags, d, r, c);
      }
    }
  }

  /** The tags of a declaration the build expects something of. */
  lemma ExpectedOpened(policy: Policy, scope: Scope, pairs: seq<Flag>, s: State, a: Artifact, next: State,
                       exps: map<Decl, Expectation>, migrated: set<Key>, d: Decl)
    requires Round(policy, scope, pairs, s, a, next, exps, migrated) && d in exps && d in s.tags
    ensures Retagged(policy, scope, s.rows, a.stale, d, s.tags[d], Some(exps[d]), next.tags[d])
  {
    hide Retagged, Expects, InScope, Migrates, Without, Splits;
    assert InScope(scope, d) && HasPair(a.mismatches + a.suppressed, d);
    assert Opened(scope, a, d);
  }

  lemma FlaggedArgues(policy: Policy, scope: Scope, pairs: seq<Flag>, s: State, a: Artifact, next: State,
                      exps: map<Decl, Expectation>, migrated: set<Key>, d: Decl, call: string)
    requires Round(policy, scope, pairs, s, a, next, exps, migrated) && FlaggedOn(pairs, d, call)
    ensures Visible(policy, next.tags, d, call) <==> WillArgue(policy, scope, pairs, s, d, call)
  {
    ExpectationsOfPairs(policy, scope, pairs, s.tags, a, exps);
    hide LastTag, FirstCuratedReason, Curated, Trim, StringLe;
    hide Splits, FlaggedOn, Matched, Migrates, Without, Expectations;
    if d in s.tags {
      if InScope(scope, d) {
        assert d in exps;
        ExpectedOpened(policy, scope, pairs, s, a, next, exps, migrated, d);
        FirstCurated(policy, s.rows, d, exps[d].rubyNames, call);
        SettledVisible(policy, scope, s.rows, a.stale, d, s.tags[d], exps[d], next.tags[d], call);
      } else {
        assert !Opened(scope, a, d);
        assert next.tags[d] == s.tags[d];
      }
    }
  }

  lemma SettledVisible(policy: Policy, scope: Scope, rows: seq<Row>, stale: set<StaleTag>, d: Decl, existing: seq<Tag>,
                       exp: Expectation, ts: seq<Tag>, call: string)
    requires Retagged(policy, scope, rows, stale, d, existing, Some(exp), ts)
    ensures Receipted(policy, ts, call) <==> (call in exp.calls && match LastTag(existing, call)
      case Some(t) => policy.justifies(t.reason)
      case None =>
        Allowed(scope, call) && policy.justifies(Trim(FirstCuratedReason(policy, rows, d, exp.rubyNames, call))))
  {
    hide LastTag, FirstCuratedReason, Trim, StringLe;
    var settled := Settled(policy, scope, existing, ReasonFor(policy, rows, d, Some(exp)), call);
    if call in exp.calls && settled.Some? {
      assert LastTag(existing, call).Some? ==> LastTag(existing, call).value.call == call;
      assert settled.value in ts;
    }
  }

  /** The migrated keys are exactly the ones whose rows the state before already condemned. */
  lemma MigratedAreRetired(policy: Policy, scope: Scope, pairs: seq<Flag>, s: State, a: Artifact, next: State,
                           exps: map<Decl, Expectation>, migrated: set<Key>)
    requires Round(policy, scope, pairs, s, a, next, exps, migrated)
    ensures forall k :: k in migrated <==> Retires(policy, scope, pairs, s, k)
  {
    ExpectationsOfPairs(policy, scope, pairs, s.tags, a, exps);
    hide Splits, FlaggedOn, Matched, Without, Expectations, Retagged, WillArgue, Visible, Opened, InScope;
    forall k ensures k in migrated <==> Retires(policy, scope, pairs, s, k) {
      if k in migrated {
        var d, r :| d in exps && r in exps[d].rubyNames && KeyFor(d, r, k.call) == k &&
          Visible(policy, next.tags, d, k.call);
        VisibleExpected(policy, scope, pairs, s, a, next, exps, migrated, d, k.call);
        FlaggedArgues(policy, scope, pairs, s, a, next, exps, migrated, d, k.call);
      }
      if Retires(policy, scope, pairs, s, k) {
        var d, r :| InScope(scope, d) && Matched(pairs, d, r) && FlaggedOn(pairs, d, k.call)
                    && KeyFor(d, r, k.call) == k && WillArgue(policy, scope, pairs, s, d, k.call);
        FlaggedArgues(policy, scope, pairs, s, a, next, exps, migrated, d, k.call);
        assert d in exps && r in exps[d].rubyNames;
      }
    }
  }

  lemma VisibleExpected(policy: Policy, scope: Scope, pairs: seq<Flag>, s: State, a: Artifact, next: State,
                        exps: map<Decl, Expectation>, migrated: set<Key>, d: Decl, call: string)
    requires Round(policy, scope, pairs, s, a, next, exps, migrated) && d in exps && Visible(policy, next.tags, d, call)
    ensures d in s.tags && call in exps[d].calls && FlaggedOn(pairs, d, call)
  {
    hide Splits, FlaggedOn, Matched, Without, Expectations, Opened, InScope, Migrates, StringLe, LastTag;
    assert d in s.tags;
    ExpectationsOfPairs(policy, scope, pairs, s.tags, a, exps);
    ExpectedOpened(policy, scope, pairs, s, a, next, exps, migrated, d);
  }

  lemma RowsLeft(policy: Policy, scope: Scope, pairs: seq<Flag>, s: State, a: Artifact, next: State,
                 exps: map<Decl, Expectation>, migrated: set<Key>)
    requires Round(policy, scope, pairs, s, a, next, exps, migrated)
    ensures forall k :: HasRow(next.rows, k) <==> HasRow(s.rows, k) && !Retires(policy, scope, pairs, s, k)
    ensures UniqueKeys(s.rows) ==> UniqueKeys(next.rows)
  {
    MigratedAreRetired(policy, scope, pairs, s, a, next, exps, migrated);
    hide Compares, Retires, Expectations, Migrates, Retags;
    forall k ensures HasRow(next.rows, k) <==> HasRow(s.rows, k) && k !in migrated {
      if HasRow(s.rows, k) && k !in migrated {
        var row :| row in s.rows && row.key == k;
        assert row in next.rows;
      }
    }
    if UniqueKeys(s.rows) { WithoutUnique(s.rows, migrated); }
  }

  lemma {:induction false} WithoutUnique(rows: seq<Row>, migrated: set<Key>)
    requires UniqueKeys(rows)
    ensures UniqueKeys(Without(rows, migrated))
  {
    if rows != [] {
      var last, init := rows[|rows| - 1], rows[..|rows| - 1];
      WithoutUnique(init, migrated);
      forall row | row in Without(init, migrated) ensures row.key != last.key {
        assert row in init;
      }
    }
  }

  /** No build turns a row stale, from any state: a row it leaves whose flag was outstanding stands for a flag that
      still is. */
  lemma RowsStayLive(policy: Policy, scope: Scope, pairs: seq<Flag>, s: State, a: Artifact, next: State,
                     exps: map<Decl, Expectation>, migrated: set<Key>, k: Key)
    requires Round(policy, scope, pairs, s, a, next, exps, migrated)
    requires Outstanding(policy, pairs, s.tags, k) && HasRow(next.rows, k)
    ensures Outstanding(policy, pairs, next.tags, k)
  {
    RowsLeft(policy, scope, pairs, s, a, next, exps, migrated);
    hide HasRow, UniqueKeys, Retires, WillArgue, Visible, Flagged, Round;
    assert !Retires(policy, scope, pairs, s, k);
    var d, r :| Flagged(pairs, d, r, k.call) && KeyFor(d, r, k.call) == k && !Visible(policy, s.tags, d, k.call);
    assert FlaggedOn(pairs, d, k.call);
    FlaggedArgues(policy, scope, pairs, s, a, next, exps, migrated, d, k.call);
    ArguingRetires(policy, scope, pairs, s, d, r, k.call);
  }

  /** Where a flag was outstanding and will no longer be, its row goes. */
  lemma ArguingRetires(policy: Policy, scope: Scope, pairs: seq<Flag>, s: State, d: Decl, r: string, call: string)
    requires Flagged(pairs, d, r, call) && !Visible(policy, s.tags, d, call)
    ensures WillArgue(policy, scope, pairs, s, d, call) ==> Retires(policy, scope, pairs, s, KeyFor(d, r, call))
  {
    hide Curated, Visible, Flagged;
    if WillArgue(policy, scope, pairs, s, d, call) {
      assert InScope(scope, d);
      assert Matched(pairs, d, r) && FlaggedOn(pairs, d, call);
    }
  }

  /** No stale tag survives a build in its scope, whatever state the build found. */
  lemma NoStaleTagSurvives(policy: Policy, scope: Scope, pairs: seq<Flag>, s: State, a: Artifact, next: State,
                           exps: map<Decl, Expectation>, migrated: set<Key>, d: Decl, call: string)
    requires Round(policy, scope, pairs, s, a, next, exps, migrated) && InScope(scope, d)
    ensures !IsStale(policy, pairs, next.tags, d, call)
  {
    hide Splits, FlaggedOn, HasPair, Matched, Without, Expectations, Migrates, StringLe, InScope, Opened;
    if HasPair(pairs, d) && Visible(policy, next.tags, d, call) && !FlaggedOn(pairs, d, call) {
      assert Retags(policy, scope, a, exps, s, d, next.tags[d]);
      if d in exps {
        VisibleExpected(policy, scope, pairs, s, a, next, exps, migrated, d, call);
        assert false;
      }
      if Opened(scope, a, d) {
        PreservedWasVisible(policy, scope, s.rows, a.stale, d, s.tags[d], next.tags[d], call);
        assert false;
      }
      assert IsStale(policy, pairs, s.tags, d, call);
      StaleOpens(policy, scope, pairs, s.tags, a, d, call);
      assert false;
    }
  }

  lemma StaleOpens(policy: Policy, scope: Scope, pairs: seq<Flag>, tags: Tags, a: Artifact, d: Decl, call: string)
    requires Compares(policy, pairs, tags, a) && InScope(scope, d) && IsStale(policy, pairs, tags, d, call)
    ensures Opened(scope, a, d)
  {
    hide Splits, IsStale;
    assert StaleTag(d, call) in a.stale && SameFile(StaleTag(d, call).decl, d);
  }

  /** Where nothing is expected, a tag that still argues argued before and had not gone stale. */
  lemma PreservedWasVisible(policy: Policy, scope: Scope, rows: seq<Row>, stale: set<StaleTag>, d: Decl,
                            existing: seq<Tag>, ts: seq<Tag>, call: string)
    requires Retagged(policy, scope, rows, stale, d, existing, None, ts) && Receipted(policy, ts, call)
    ensures Receipted(policy, existing, call) && StaleTag(d, call) !in stale
  {
    hide StringLe;
  }

  // --------------------------------------------------------------- staying green

  lemma ExtractableIff(policy: Policy, scope: Scope, pairs: seq<Flag>, s: State, a: Artifact, next: State,
                       exps: map<Decl, Expectation>, migrated: set<Key>)
    requires Round(policy, scope, pairs, s, a, next, exps, migrated) && Extractable(policy, s.tags)
    ensures Extractable(policy, next.tags) <==> MintsClassified(policy, scope, exps, s)
  {
    hide Compares, Without, Migrates, Expectations, StringLe;
    hide Trim, FirstCuratedReason, Extractable, MintsClassified, Mints, Opened;
    if Extractable(policy, next.tags) {
      MintsReadable(policy, scope, pairs, s, a, next, exps, migrated);
    }
    if MintsClassified(policy, scope, exps, s) {
      ReadableAfter(policy, scope, pairs, s, a, next, exps, migrated);
    }
  }

  lemma MintsReadable(policy: Policy, scope: Scope, pairs: seq<Flag>, s: State, a: Artifact, next: State,
                      exps: map<Decl, Expectation>, migrated: set<Key>)
    requires Round(policy, scope, pairs, s, a, next, exps, migrated) && Extractable(policy, next.tags)
    ensures MintsClassified(policy, scope, exps, s)
  {
    hide Splits, Without, Migrates, Expectations, StringLe, Trim, FirstCuratedReason, Opened, LastTag;
    forall d, c | d in exps && d in s.tags && c in exps[d].calls
                  && Mints(policy, scope, s.tags[d], ReasonFor(policy, s.rows, d, Some(exps[d])), c)
      ensures policy.claims(Trim(FirstCuratedReason(policy, s.rows, d, exps[d].rubyNames, c)))
    {
      ExpectedOpened(policy, scope, pairs, s, a, next, exps, migrated, d);
      assert Tag(c, Trim(FirstCuratedReason(policy, s.rows, d, exps[d].rubyNames, c))) in next.tags[d];
    }
  }

  lemma ReadableAfter(policy: Policy, scope: Scope, pairs: seq<Flag>, s: State, a: Artifact, next: State,
                      exps: map<Decl, Expectation>, migrated: set<Key>)
    requires Round(policy, scope, pairs, s, a, next, exps, migrated)
    requires Extractable(policy, s.tags) && MintsClassified(policy, scope, exps, s)
    ensures Extractable(policy, next.tags)
  {
    hide Splits, Without, Migrates, Expectations, StringLe;
    hide Trim, FirstCuratedReason, Opened, LastTag, Extractable, Mints;
    forall d, t | d in next.tags && t in next.tags[d] && policy.justifies(t.reason) ensures policy.claims(t.reason) {
      assert Retags(policy, scope, a, exps, s, d, next.tags[d]);
      ReadableTag(policy, scope, a, exps, s, d, next.tags[d], t);
    }
    ExtractableByTag(policy, next.tags);
  }

  lemma ExtractableByTag(policy: Policy, tags: Tags)
    requires forall d, t :: d in tags && t in tags[d] && policy.justifies(t.reason) ==> policy.claims(t.reason)
    ensures Extractable(policy, tags)
  {
  }

  /** A tag the build leaves was there before, or was minted. */
  lemma ReadableTag(policy: Policy, scope: Scope, a: Artifact, exps: map<Decl, Expectation>, s: State, d: Decl,
                    ts: seq<Tag>, t: Tag)
    requires WellSeeded(policy) && Extractable(policy, s.tags) && MintsClassified(policy, scope, exps, s)
    requires d in s.tags && Retags(policy, scope, a, exps, s, d, ts) && t in ts && policy.justifies(t.reason)
    ensures policy.claims(t.reason)
  {
    hide StringLe, Trim, FirstCuratedReason, Opened, LastTag;
  }

  /** After a build from a green state the gate passes exactly when every flag keeps a receipt and every minted
      reason makes a permanence claim: nothing else a build does can turn the state red. */
  lemma GreenAfterBuildIff(policy: Policy, scope: Scope, pairs: seq<Flag>, s: State, a: Artifact, next: State,
                           exps: map<Decl, Expectation>, migrated: set<Key>)
    requires Round(policy, scope, pairs, s, a, next, exps, migrated) && GreenState(policy, pairs, s)
    ensures GreenState(policy, pairs, next)
       <==> KeepsReceipts(policy, scope, pairs, s) && MintsClassified(policy, scope, exps, s)
  {
    ExtractableIff(policy, scope, pairs, s, a, next, exps, migrated);
    RowsLeft(policy, scope, pairs, s, a, next, exps, migrated);
    forall k | HasRow(next.rows, k) ensures Outstanding(policy, pairs, next.tags, k) {
      RowsStayLive(policy, scope, pairs, s, a, next, exps, migrated, k);
    }
    forall d, c ensures !IsStale(policy, pairs, next.tags, d, c) {
      NoneStaleAfter(policy, scope, pairs, s, a, next, exps, migrated, d, c);
    }
    ReceiptsIff(policy, scope, pairs, s, a, next, exps, migrated);
    hide Round, Extractable, MintsClassified, UniqueKeys, HasRow, Outstanding, IsStale, KeepsReceipts;
  }

  lemma NoneStaleAfter(policy: Policy, scope: Scope, pairs: seq<Flag>, s: State, a: Artifact, next: State,
                       exps: map<Decl, Expectation>, migrated: set<Key>, d: Decl, call: string)
    requires Round(policy, scope, pairs, s, a, next, exps, migrated) && GreenState(policy, pairs, s)
    ensures !IsStale(policy, pairs, next.tags, d, call)
  {
    hide Splits, Without, Expectations, Migrates, Retagged;
    hide HasPair, FlaggedOn, HasRow, UniqueKeys, Outstanding, Extractable;
    if InScope(scope, d) {
      NoStaleTagSurvives(policy, scope, pairs, s, a, next, exps, migrated, d, call);
    } else {
      assert !IsStale(policy, pairs, s.tags, d, call);
      assert !Opened(scope, a, d);
      assert d in s.tags ==> next.tags[d] == s.tags[d];
    }
  }

  /** No surviving flag lacks a row exactly when the state before keeps every receipt. */
  lemma ReceiptsIff(policy: Policy, scope: Scope, pairs: seq<Flag>, s: State, a: Artifact, next: State,
                    exps: map<Decl, Expectation>, migrated: set<Key>)
    requires Round(policy, scope, pairs, s, a, next, exps, migrated)
    ensures (forall k :: Outstanding(policy, pairs, next.tags, k) ==> HasRow(next.rows, k)) <==>
      KeepsReceipts(policy, scope, pairs, s)
  {
    RowsLeft(policy, scope, pairs, s, a, next, exps, migrated);
    hide Compares, Built, Visible, WillArgue, Retires, HasRow, Flagged;
    forall d, r, c | Flagged(pairs, d, r, c)
      ensures Visible(policy, next.tags, d, c) <==> WillArgue(policy, scope, pairs, s, d, c)
    {
      assert FlaggedOn(pairs, d, c);
      FlaggedArgues(policy, scope, pairs, s, a, next, exps, migrated, d, c);
    }
    if forall k :: Outstanding(policy, pairs, next.tags, k) ==> HasRow(next.rows, k) {
      forall d, r, c | Flagged(pairs, d, r, c) && !WillArgue(policy, scope, pairs, s, d, c)
        ensures HasRow(s.rows, KeyFor(d, r, c)) && !Retires(policy, scope, pairs, s, KeyFor(d, r, c))
      {
        assert KeyFor(d, r, KeyFor(d, r, c).call) == KeyFor(d, r, c);
        assert Outstanding(policy, pairs, next.tags, KeyFor(d, r, c));
      }
    }
    if KeepsReceipts(policy, scope, pairs, s) {
      forall k | Outstanding(policy, pairs, next.tags, k) ensures HasRow(next.rows, k) {
        var d, r :| Flagged(pairs, d, r, k.call) && KeyFor(d, r, k.call) == k && !Visible(policy, next.tags, d, k.call);
      }
    }
  }

  // --------------------------------------------------------------- whole runs

  /** A Ruby name is flagged on one declaration of a file only, so no row answers for two. */
  ghost predicate OneDeclaration(pairs: seq<Flag>) {
    forall d, e, r :: Matched(pairs, d, r) && Matched(pairs, e, r) && SameFile(d, e) ==> d == e
  }

  ghost predicate SingleTags(tags: Tags) {
    forall d :: d in tags ==> Single(tags[d])
  }

  ghost predicate Single(ts: seq<Tag>) {
    forall i, j :: 0 <= i < j < |ts| ==> ts[i].call != ts[j].call
  }

  /** Every reason a tag could be minted from opens with a permanence claim. */
  ghost predicate ClaimingRows(policy: Policy, rows: seq<Row>) {
    forall row :: row in rows && policy.justifies(Trim(row.reason)) ==> policy.claims(Trim(row.reason))
  }

  ghost predicate Orderly(policy: Policy, pairs: seq<Flag>, s: State) {
    OneDeclaration(pairs) && SingleTags(s.tags) && ClaimingRows(policy, s.rows)
  }

  /** What order is, read off the flags, the tags and the rows. */
  lemma OrderlyIff(policy: Policy, pairs: seq<Flag>, s: State)
    ensures Orderly(policy, pairs, s) <==>
      && (forall f, g | f in pairs && g in pairs && f.calls != [] && g.calls != [] && f.rubyName == g.rubyName ::
            f.decl.package == g.decl.package && f.decl.file == g.decl.file ==> f.decl == g.decl)
      && (forall d, i, j :: d in s.tags && 0 <= i < j < |s.tags[d]| ==> s.tags[d][i].call != s.tags[d][j].call)
      && (forall row :: row in s.rows && policy.justifies(Trim(row.reason)) ==> policy.claims(Trim(row.reason)))
  {
    hide Trim;
    if OneDeclaration(pairs) {
      forall f, g | f in pairs && g in pairs && f.calls != [] && g.calls != [] && f.rubyName == g.rubyName
        ensures f.decl.package == g.decl.package && f.decl.file == g.decl.file ==> f.decl == g.decl
      {
        var c, c' := f.calls[0], g.calls[0];
        assert Flagged(pairs, f.decl, f.rubyName, c) && Flagged(pairs, g.decl, g.rubyName, c');
        assert Matched(pairs, f.decl, f.rubyName) && Matched(pairs, g.decl, g.rubyName);
        assert f.decl.package == g.decl.package && f.decl.file == g.decl.file ==> SameFile(f.decl, g.decl);
      }
    } else {
      var d, e, r :| Matched(pairs, d, r) && Matched(pairs, e, r) && SameFile(d, e) && d != e;
      var c :| Flagged(pairs, d, r, c);
      var c' :| Flagged(pairs, e, r, c');
    }
  }

  lemma SingleTagStands(ts: seq<Tag>, t: Tag)
    requires Single(ts) && t in ts
    ensures LastTag(ts, t.call) == Some(t)
  {
  }

  lemma OrderlyKeepsReceipts(policy: Policy, scope: Scope, pairs: seq<Flag>, s: State)
    requires GreenState(policy, pairs, s) && Orderly(policy, pairs, s)
    ensures KeepsReceipts(policy, scope, pairs, s)
  {
    hide Extractable, UniqueKeys, IsStale, ClaimingRows, Flagged, HasRow, WillArgue, Retires, Visible;
    forall d, r, c | Flagged(pairs, d, r, c) && !WillArgue(policy, scope, pairs, s, d, c)
      ensures HasRow(s.rows, KeyFor(d, r, c)) && !Retires(policy, scope, pairs, s, KeyFor(d, r, c))
    {
      if Visible(policy, s.tags, d, c) { VisibleWillArgue(policy, scope, pairs, s, d, c); assert false; }
      assert KeyFor(d, r, KeyFor(d, r, c).call) == KeyFor(d, r, c);
      assert Outstanding(policy, pairs, s.tags, KeyFor(d, r, c));
      assert Matched(pairs, d, r);
      if Retires(policy, scope, pairs, s, KeyFor(d, r, c)) {
        RetiredByItself(policy, scope, pairs, s, d, r, c);
        assert false;
      }
    }
  }

  lemma VisibleWillArgue(policy: Policy, scope: Scope, pairs: seq<Flag>, s: State, d: Decl, call: string)
    requires SingleTags(s.tags) && Visible(policy, s.tags, d, call)
    ensures WillArgue(policy, scope, pairs, s, d, call)
  {
    hide LastTag, Matched, Curated;
    var t :| t in s.tags[d] && t.call == call && policy.justifies(t.reason);
    SingleTagStands(s.tags[d], t);
  }

  lemma RetiredByItself(policy: Policy, scope: Scope, pairs: seq<Flag>, s: State, d: Decl, r: string, call: string)
    requires OneDeclaration(pairs) && Matched(pairs, d, r) && Retires(policy, scope, pairs, s, KeyFor(d, r, call))
    ensures WillArgue(policy, scope, pairs, s, d, call)
  {
    hide WillArgue, Matched, FlaggedOn;
    var k := KeyFor(d, r, call);
    var e, q :| InScope(scope, e) && Matched(pairs, e, q) && FlaggedOn(pairs, e, k.call)
                && KeyFor(e, q, k.call) == k && WillArgue(policy, scope, pairs, s, e, k.call);
    assert SameFile(e, d);
  }

  lemma OrderlyMintsClassified(policy: Policy, scope: Scope, pairs: seq<Flag>, s: State, exps: map<Decl, Expectation>)
    requires WellSeeded(policy) && Orderly(policy, pairs, s)
    ensures MintsClassified(policy, scope, exps, s)
  {
    hide LastTag, FirstCuratedReason, Trim, SingleTags, OneDeclaration;
    forall d, c | d in exps && d in s.tags && c in exps[d].calls
                  && Mints(policy, scope, s.tags[d], ReasonFor(policy, s.rows, d, Some(exps[d])), c)
      ensures policy.claims(Trim(FirstCuratedReason(policy, s.rows, d, exps[d].rubyNames, c)))
    {
      FirstCurated(policy, s.rows, d, exps[d].rubyNames, c);
      var r :| r in exps[d].rubyNames && Curated(policy, s.rows, KeyFor(d, r, c))
               && RowReason(policy, s.rows, KeyFor(d, r, c)) ==
                  FirstCuratedReason(policy, s.rows, d, exps[d].rubyNames, c);
      CuratedIsARow(policy, s.rows, KeyFor(d, r, c));
    }
  }

  lemma CuratedIsARow(policy: Policy, rows: seq<Row>, key: Key)
    requires WellSeeded(policy) && Curated(policy, rows, key)
    ensures Row(key, RowReason(policy, rows, key)) in rows
  {
    hide Trim;
    LastReasonIsARow(rows, key);
  }

  lemma StaysOrderly(policy: Policy, scope: Scope, pairs: seq<Flag>, s: State, a: Artifact, next: State,
                     exps: map<Decl, Expectation>, migrated: set<Key>)
    requires Round(policy, scope, pairs, s, a, next, exps, migrated) && Orderly(policy, pairs, s)
    ensures Orderly(policy, pairs, next)
  {
    hide Compares, Expectations, Migrates, StringLe, Trim, LastTag, OneDeclaration, Opened;
    forall d | d in next.tags ensures Single(next.tags[d]) {
      assert Retags(policy, scope, a, exps, s, d, next.tags[d]);
    }
  }

  /** Some build leads from the one state to the other, at any scope. */
  ghost predicate BuildStep(policy: Policy, pairs: seq<Flag>, s: State, next: State) {
    exists scope, a, exps, migrated :: Round(policy, scope, pairs, s, a, next, exps, migrated)
  }

  /** Where no two declarations of a file share a Ruby name, tags come one to a call and every curated reason
      makes its claim, green stays green through any run of builds, whatever each is scoped to. */
  lemma {:induction false} RunsStayGreen(policy: Policy, pairs: seq<Flag>, states: seq<State>, i: nat)
    requires i < |states| && forall j :: 0 <= j < |states| - 1 ==> BuildStep(policy, pairs, states[j], states[j + 1])
    requires GreenState(policy, pairs, states[0]) && Orderly(policy, pairs, states[0])
    ensures GreenState(policy, pairs, states[i]) && Orderly(policy, pairs, states[i])
  {
    hide GreenState, Orderly, Round;
    if i > 0 {
      RunsStayGreen(policy, pairs, states, i - 1);
      var s, next := states[i - 1], states[i];
      assert BuildStep(policy, pairs, states[i - 1], states[i - 1 + 1]);
      var scope, a, exps, migrated :| Round(policy, scope, pairs, s, a, next, exps, migrated);
      OrderlyStaysGreen(policy, scope, pairs, s, a, next, exps, migrated);
      StaysOrderly(policy, scope, pairs, s, a, next, exps, migrated);
    }
  }

  lemma OrderlyStaysGreen(policy: Policy, scope: Scope, pairs: seq<Flag>, s: State, a: Artifact, next: State,
                          exps: map<Decl, Expectation>, migrated: set<Key>)
    requires Round(policy, scope, pairs, s, a, next, exps, migrated) && GreenState(policy, pairs, s)
    requires Orderly(policy, pairs, s)
    ensures GreenState(policy, pairs, next)
  {
    hide GreenState, Orderly, Compares, Built, KeepsReceipts, MintsClassified;
    OrderlyKeepsReceipts(policy, scope, pairs, s);
    OrderlyMintsClassified(policy, scope, pairs, s, exps);
    GreenAfterBuildIff(policy, scope, pairs, s, a, next, exps, migrated);
  }

  /** Compare, build, compare again and gate: green comes out exactly when the state built is green. */
  method BuildAndGate(policy: Policy, scope: Scope, pairs: seq<Flag>, s: State) returns (next: State, green: bool)
    requires WellSeeded(policy)
    ensures green <==> Extractable(policy, s.tags) && GreenState(policy, pairs, next)
    ensures Extractable(policy, s.tags) ==> BuildStep(policy, pairs, s, next)
    ensures GreenState(policy, pairs, s) && Orderly(policy, pairs, s) ==> green
    ensures forall d | d in s.tags && (d.package != scope.package ||
                                       (scope.onlyFile.Some? && d.file != scope.onlyFile.value)) ::
      d in next.tags && next.tags[d] == s.tags[d]
  {
    hide *;
    var o := Compare(policy, pairs, s.tags);
    if o.Unclassified? {
      GreenReads(policy, pairs, s);
      return s, false;
    }
    var exps, migrated;
    next, exps, migrated := Build(policy, scope, o.artifact, s);
    ARound(policy, scope, pairs, s, o.artifact, next, exps, migrated);
    GreenReads(policy, pairs, next);
    var again := Compare(policy, pairs, next.tags);
    if again.Unclassified? {
      return next, false;
    }
    green := Gate(again.artifact, next.rows);
    GateChecksGreen(policy, pairs, next, again.artifact);
  }

  lemma GreenReads(policy: Policy, pairs: seq<Flag>, s: State)
    ensures GreenState(policy, pairs, s) ==> Extractable(policy, s.tags)
  {
  }

  lemma ARound(policy: Policy, scope: Scope, pairs: seq<Flag>, s: State, a: Artifact, next: State,
               exps: map<Decl, Expectation>, migrated: set<Key>)
    requires WellSeeded(policy) && Compares(policy, pairs, s.tags, a)
    requires Built(policy, scope, a, s, next, exps, migrated)
    ensures BuildStep(policy, pairs, s, next)
    ensures GreenState(policy, pairs, s) && Orderly(policy, pairs, s) ==> GreenState(policy, pairs, next)
  {
    hide GreenState, Orderly, Compares, Built, WellSeeded;
    assert Round(policy, scope, pairs, s, a, next, exps, migrated);
    if GreenState(policy, pairs, s) && Orderly(policy, pairs, s) {
      OrderlyStaysGreen(policy, scope, pairs, s, a, next, exps, migrated);
    }
  }

  // ------------------------------------------------------------ a second build

  lemma WithoutPush(rows: seq<Row>, row: Row, migrated: set<Key>)
    ensures Without(rows + [row], migrated) == Without(rows, migrated) + if row.key in migrated then [] else [row]
  {
    var all := rows + [row];
    assert all[..|all| - 1] == rows && all[|all| - 1] == row;
  }

  lemma LastReasonPush(rows: seq<Row>, row: Row, key: Key)
    ensures LastReason(rows + [row], key) == if row.key == key then Some(row.reason) else LastReason(rows, key)
  {
    var all := rows + [row];
    assert all[..|all| - 1] == rows && all[|all| - 1] == row;
  }

  lemma {:induction false} LastReasonLeft(rows: seq<Row>, migrated: set<Key>, key: Key)
    ensures LastReason(Without(rows, migrated), key) == if key in migrated then None else LastReason(rows, key)
  {
    if rows != [] {
      var last, init := rows[|rows| - 1], rows[..|rows| - 1];
      LastReasonLeft(init, migrated, key);
      assert rows == init + [last];
      WithoutPush(init, last, migrated);
      LastReasonPush(init, last, key);
      LastReasonPush(Without(init, migrated), last, key);
      hide Without, LastReason;
      assert Without(init, migrated) + [] == Without(init, migrated);
    }
  }

  lemma CuratedBefore(policy: Policy, rows: seq<Row>, migrated: set<Key>, key: Key)
    requires WellSeeded(policy) && Curated(policy, Without(rows, migrated), key)
    ensures Curated(policy, rows, key)
  {
    hide Without, LastReason, Trim;
    LastReasonLeft(rows, migrated, key);
  }

  lemma {:induction false} WithoutNothing(rows: seq<Row>, migrated: set<Key>)
    requires forall row :: row in rows ==> row.key !in migrated
    ensures Without(rows, migrated) == rows
  {
    if rows != [] {
      var last, init := rows[|rows| - 1], rows[..|rows| - 1];
      assert rows == init + [last];
      WithoutNothing(init, migrated);
      WithoutPush(init, last, migrated);
      hide Without;
      assert last in rows;
    }
  }

  /** What a first build settled a second leaves alone: it mints nothing the first declined to. */
  lemma SettledAgain(policy: Policy, scope: Scope, rows: seq<Row>, migrated: set<Key>, d: Decl, existing: seq<Tag>,
                     exp: Expectation, exp': Expectation,
                     stale: set<StaleTag>, stale': set<StaleTag>, ts: seq<Tag>, again: seq<Tag>)
    requires WellSeeded(policy)
    requires Retagged(policy, scope, rows, stale, d, existing, Some(exp), ts)
    requires Retagged(policy, scope, Without(rows, migrated), stale', d, ts, Some(exp'), again)
    requires forall c :: c in exp.calls <==> c in exp'.calls
    requires forall r :: r in exp.rubyNames <==> r in exp'.rubyNames
    ensures again == ts
  {
    hide StringLe, Without, Trim, FirstCuratedReason, Curated;
    assert Single(ts);
    forall t ensures t in again <==> t in ts {
      if t in ts { SingleTagStands(ts, t); }
      if t in again && LastTag(ts, t.call).None? {
        FirstCurated(policy, Without(rows, migrated), d, exp'.rubyNames, t.call);
        FirstCurated(policy, rows, d, exp.rubyNames, t.call);
        var r :| r in exp'.rubyNames && Curated(policy, Without(rows, migrated), KeyFor(d, r, t.call));
        CuratedBefore(policy, rows, migrated, KeyFor(d, r, t.call));
        assert false;
      }
    }
    AscendingUnique(again, ts);
  }

  lemma PreservedAgain(policy: Policy, scope: Scope, rows: seq<Row>, stale: set<StaleTag>, d: Decl, ts: seq<Tag>,
                       again: seq<Tag>)
    requires Ascending(ts) && Retagged(policy, scope, rows, stale, d, ts, None, again)
    requires forall c :: StaleTag(d, c) !in stale
    ensures again == ts
  {
    hide StringLe;
    assert Single(ts);
    forall t ensures t in again <==> t in ts {
      if t in ts { SingleTagStands(ts, t); }
    }
    AscendingUnique(again, ts);
  }

  lemma OpenedByPairs(policy: Policy, scope: Scope, pairs: seq<Flag>, tags: Tags, a: Artifact, d: Decl)
    requires Compares(policy, pairs, tags, a)
    requires forall e, c :: InScope(scope, e) ==> !IsStale(policy, pairs, tags, e, c)
    ensures Opened(scope, a, d) ==> InScope(scope, d) && exists e, c :: FlaggedOn(pairs, e, c) && SameFile(e, d)
  {
    ArtifactFlags(policy, pairs, tags, a);
    hide Splits, IsStale, Flagged;
    if Opened(scope, a, d) {
      if t :| t in a.stale && SameFile(t.decl, d) {
        assert false;
      }
      var f :| f in a.mismatches + a.suppressed && SameFile(f.decl, d);
      FlagShows(a.mismatches + a.suppressed, f);
      assert Flagged(pairs, f.decl, f.rubyName, f.calls[0]);
      assert FlaggedOn(pairs, f.decl, f.calls[0]);
    }
  }

  lemma FlagShows(flags: seq<Flag>, f: Flag)
    requires f in flags && f.calls != []
    ensures Flagged(flags, f.decl, f.rubyName, f.calls[0])
  {
  }

  lemma PairsOpen(policy: Policy, scope: Scope, pairs: seq<Flag>, tags: Tags, a: Artifact, d: Decl, e: Decl,
                  call: string)
    requires Compares(policy, pairs, tags, a) && InScope(scope, d) && FlaggedOn(pairs, e, call) && SameFile(e, d)
    ensures Opened(scope, a, d)
  {
    ArtifactFlags(policy, pairs, tags, a);
    hide Splits, IsStale;
    var r :| Flagged(pairs, e, r, call);
    assert Flagged(a.mismatches + a.suppressed, e, r, call);
  }

  lemma SecondBuildKeepsTags(policy: Policy, scope: Scope, pairs: seq<Flag>, s: State, a: Artifact, next: State,
                             exps: map<Decl, Expectation>, migrated: set<Key>,
                             a': Artifact, again: State, exps': map<Decl, Expectation>, migrated': set<Key>, d: Decl)
    requires Round(policy, scope, pairs, s, a, next, exps, migrated)
    requires Round(policy, scope, pairs, next, a', again, exps', migrated')
    requires d in s.tags
    ensures again.tags[d] == next.tags[d]
  {
    SameExpectations(policy, scope, pairs, s, a, next, exps, a', exps');
    forall e, c | InScope(scope, e) ensures !IsStale(policy, pairs, next.tags, e, c) {
      NoStaleTagSurvives(policy, scope, pairs, s, a, next, exps, migrated, e, c);
    }
    hide Splits, Expectations, Migrates, Without, Retagged, IsStale, FlaggedOn, Matched, Opened, InScope;
    assert Retags(policy, scope, a', exps', next, d, again.tags[d]) &&
      Retags(policy, scope, a, exps, s, d, next.tags[d]);
    if Opened(scope, a', d) {
      OpenedByPairs(policy, scope, pairs, next.tags, a', d);
      var e, c :| FlaggedOn(pairs, e, c) && SameFile(e, d);
      PairsOpen(policy, scope, pairs, s.tags, a, d, e, c);
      if d in exps {
        SettledAgain(policy, scope, s.rows, migrated, d, s.tags[d], exps[d], exps'[d], a.stale, a'.stale, next.tags[d],
          again.tags[d]);
      } else {
        forall c ensures StaleTag(d, c) !in a'.stale { assert !IsStale(policy, pairs, next.tags, d, c); }
        RetaggedAscends(policy, scope, s.rows, a.stale, d, s.tags[d], None, next.tags[d]);
        PreservedAgain(policy, scope, next.rows, a'.stale, d, next.tags[d], again.tags[d]);
      }
    }
  }

  lemma RetaggedAscends(policy: Policy, scope: Scope, rows: seq<Row>, stale: set<StaleTag>, d: Decl,
                        existing: seq<Tag>, exp: Option<Expectation>, ts: seq<Tag>)
    requires Retagged(policy, scope, rows, stale, d, existing, exp, ts)
    ensures Ascending(ts)
  {
  }

  /** Comparing again and building again edits no tag and drops no row, from any state. */
  lemma SecondBuildEditsNothing(policy: Policy, scope: Scope, pairs: seq<Flag>, s: State, a: Artifact, next: State,
                                exps: map<Decl, Expectation>, migrated: set<Key>,
                                a': Artifact, again: State, exps': map<Decl, Expectation>, migrated': set<Key>)
    requires Round(policy, scope, pairs, s, a, next, exps, migrated)
    requires Round(policy, scope, pairs, next, a', again, exps', migrated')
    ensures again == next
  {
    hide Compares, Expectations, Without, Retags, Migrates;
    forall d | d in s.tags ensures again.tags[d] == next.tags[d] {
      SecondBuildKeepsTags(policy, scope, pairs, s, a, next, exps, migrated, a', again, exps', migrated', d);
    }
    assert again.tags == next.tags;
    forall k ensures k in migrated' <==> k in migrated {
      SameExpectations(policy, scope, pairs, s, a, next, exps, a', exps');
      SameMigrates(policy, exps, exps', next.tags, k);
    }
    assert migrated' == migrated;
    assert forall row :: row in next.rows ==> row.key !in migrated;
    WithoutNothing(next.rows, migrated);
  }

  lemma SameExpectations(policy: Policy, scope: Scope, pairs: seq<Flag>, s: State, a: Artifact, next: State,
                         exps: map<Decl, Expectation>, a': Artifact, exps': map<Decl, Expectation>)
    requires Compares(policy, pairs, s.tags, a) && Expectations(scope, a.mismatches + a.suppressed, exps)
    requires Compares(policy, pairs, next.tags, a') && Expectations(scope, a'.mismatches + a'.suppressed, exps')
    ensures forall d :: d in exps <==> d in exps'
    ensures forall d, c :: d in exps ==> (c in exps[d].calls <==> c in exps'[d].calls)
    ensures forall d, r :: d in exps ==> (r in exps[d].rubyNames <==> r in exps'[d].rubyNames)
  {
    ExpectationsOfPairs(policy, scope, pairs, s.tags, a, exps);
    ExpectationsOfPairs(policy, scope, pairs, next.tags, a', exps');
    hide Compares, Expectations, FlaggedOn, Matched, InScope;
  }

  lemma SameMigrates(policy: Policy, exps: map<Decl, Expectation>, exps': map<Decl, Expectation>, tags: Tags, k: Key)
    requires forall d :: d in exps <==> d in exps'
    requires forall d, r :: d in exps ==> (r in exps[d].rubyNames <==> r in exps'[d].rubyNames)
    ensures Migrates(policy, exps, tags, k) <==> Migrates(policy, exps', tags, k)
  {
    hide Visible;
    if Migrates(policy, exps, tags, k) {
      var d, r :| d in exps && r in exps[d].rubyNames && KeyFor(d, r, k.call) == k && Visible(policy, tags, d, k.call);
      assert d in exps' && r in exps'[d].rubyNames;
    }
    if Migrates(policy, exps', tags, k) {
      var d, r :| d in exps' && r in exps'[d].rubyNames && KeyFor(d, r, k.call) == k &&
        Visible(policy, tags, d, k.call);
      assert d in exps && r in exps[d].rubyNames;
    }
  }

  // --------------------------------------------------- how a build turns red

  /** One unreceipted flag, standing under a row. */
  lemma OneRowGreen(policy: Policy, pairs: seq<Flag>, s: State, d: Decl, name: string, call: string, why: string)
    requires d in s.tags && LastTag(s.tags[d], call).None? && s.rows == [Row(KeyFor(d, name, call), why)]
    requires Flagged(pairs, d, name, call) && Extractable(policy, s.tags)
    requires forall e, r, c :: Flagged(pairs, e, r, c) ==> KeyFor(e, r, c) == KeyFor(d, name, call)
    requires forall e, c :: !Visible(policy, s.tags, e, c)
    ensures GreenState(policy, pairs, s) && HasRow(s.rows, KeyFor(d, name, call))
  {
    hide LastTag, Visible, Extractable, Flagged;
    var key := KeyFor(d, name, call);
    assert s.rows[0].key == key;
    assert Outstanding(policy, pairs, s.tags, key);
  }

  lemma WillMint(policy: Policy, scope: Scope, pairs: seq<Flag>, s: State, d: Decl, name: string, call: string,
                 why: string)
    requires d in s.tags && LastTag(s.tags[d], call).None? && s.rows == [Row(KeyFor(d, name, call), why)]
    requires scope == Scope(d.package, None, None) && policy.justifies(why) && policy.justifies(Trim(why))
    requires Flagged(pairs, d, name, call)
    ensures Curated(policy, s.rows, KeyFor(d, name, call)) && RowReason(policy, s.rows, KeyFor(d, name, call)) == why
    ensures WillArgue(policy, scope, pairs, s, d, call) && Retires(policy, scope, pairs, s, KeyFor(d, name, call))
  {
    hide Trim, Flagged;
    var key := KeyFor(d, name, call);
    assert LastReason(s.rows, key) == Some(why);
    assert Matched(pairs, d, name) && FlaggedOn(pairs, d, call);
    assert key.call == call;
  }

  /** A call whose last tag is the seed keeps its receipt only through a row no build retires. */
  lemma SeedLosesReceipt(policy: Policy, scope: Scope, pairs: seq<Flag>, s: State, d: Decl, name: string, call: string)
    requires WellSeeded(policy) && Flagged(pairs, d, name, call) && InScope(scope, d) && d in s.tags
    requires LastTag(s.tags[d], call) == Some(Tag(call, policy.seed))
    requires HasRow(s.rows, KeyFor(d, name, call)) ==> Retires(policy, scope, pairs, s, KeyFor(d, name, call))
    ensures !KeepsReceipts(policy, scope, pairs, s)
  {
    hide LastTag, Flagged, HasRow, Retires, Trim;
    assert !WillArgue(policy, scope, pairs, s, d, call);
  }

  lemma TwoFlags(f: Flag, g: Flag)
    ensures forall d, r, c :: (Flagged([f, g], d, r, c)
                               <==> ((d == f.decl && r == f.rubyName && c in f.calls) ||
                                 (d == g.decl && r == g.rubyName && c in g.calls)))
  {
    assert [f, g] == [f] + [g];
    FlaggedSum([f], [g]);
    FlaggedOne(f);
    FlaggedOne(g);
  }

  /** Two declarations of a file answering to one Ruby name share its row: a tag minted on the one retires the
      row the other's flag still stood under. */
  lemma SharedRowTurnsRed(policy: Policy, here: Decl, there: Decl, name: string, call: string, why: string, s: State,
                          a: Artifact, next: State, exps: map<Decl, Expectation>, migrated: set<Key>)
    requires here != there && SameFile(here, there) && policy.justifies(why) && policy.justifies(Trim(why))
    requires s == State(map[here := [], there := [Tag(call, policy.seed)]], [Row(KeyFor(here, name, call), why)])
    requires Round(policy, Scope(here.package, None, None), [Flag(here, name, [call]), Flag(there, name, [call])],
                   s, a, next, exps, migrated)
    ensures GreenState(policy, [Flag(here, name, [call]), Flag(there, name, [call])], s)
    ensures !GreenState(policy, [Flag(here, name, [call]), Flag(there, name, [call])], next)
  {
    var f, g := Flag(here, name, [call]), Flag(there, name, [call]);
    var pairs, scope := [f, g], Scope(here.package, None, None);
    TwoFlags(f, g);
    SingleSeed(policy, call);
    hide Compares, Built, Flagged, Trim, GreenState, Retires, HasRow, WillArgue, KeepsReceipts;
    hide Curated, RowReason, LastTag, Outstanding;
    assert LastTag(s.tags[here], call).None?;
    OneRowGreen(policy, pairs, s, here, name, call, why);
    WillMint(policy, scope, pairs, s, here, name, call, why);
    assert KeyFor(there, name, call) == KeyFor(here, name, call);
    SeedLosesReceipt(policy, scope, pairs, s, there, name, call);
    GreenAfterBuildIff(policy, scope, pairs, s, a, next, exps, migrated);
  }

  lemma SingleSeed(policy: Policy, call: string)
    ensures LastTag([], call).None? && LastTag([Tag(call, policy.seed)], call) == Some(Tag(call, policy.seed))
  {
  }

  /** The comparer reads any of two tags for a call, the migrator keeps the last: a seed written after an argued
      tag silences nothing, and the flag it leaves has no row. */
  lemma DuplicateTagTurnsRed(policy: Policy, d: Decl, name: string, call: string, why: string, s: State,
                             a: Artifact, next: State, exps: map<Decl, Expectation>, migrated: set<Key>)
    requires policy.justifies(why) && policy.claims(why)
    requires s == State(map[d := [Tag(call, why), Tag(call, policy.seed)]], [])
    requires Round(policy, Scope(d.package, None, None), [Flag(d, name, [call])], s, a, next, exps, migrated)
    ensures GreenState(policy, [Flag(d, name, [call])], s) && !GreenState(policy, [Flag(d, name, [call])], next)
  {
    var pairs, scope := [Flag(d, name, [call])], Scope(d.package, None, None);
    DuplicateTagGreen(policy, d, name, call, why, s);
    FlaggedOne(pairs[0]);
    assert LastTag(s.tags[d], call) == Some(Tag(call, policy.seed));
    assert InScope(scope, d) && WellSeeded(policy);
    hide *;
    assert !HasRow(s.rows, KeyFor(d, name, call)) by { NoRows(s.rows, KeyFor(d, name, call)); }
    SeedLosesReceipt(policy, scope, pairs, s, d, name, call);
    GreenAfterBuildIff(policy, scope, pairs, s, a, next, exps, migrated);
  }

  lemma NoRows(rows: seq<Row>, key: Key)
    requires rows == []
    ensures !HasRow(rows, key)
  {
  }

  lemma DuplicateTagGreen(policy: Policy, d: Decl, name: string, call: string, why: string, s: State)
    requires WellSeeded(policy) && policy.justifies(why) && policy.claims(why)
    requires s == State(map[d := [Tag(call, why), Tag(call, policy.seed)]], [])
    ensures GreenState(policy, [Flag(d, name, [call])], s)
  {
    var pairs := [Flag(d, name, [call])];
    FlaggedOne(pairs[0]);
    hide Flagged;
    assert s.tags[d][0] == Tag(call, why) && Visible(policy, s.tags, d, call);
    assert Flagged(pairs, d, name, call) && FlaggedOn(pairs, d, call);
  }

  /** A row's reason may argue without a permanence claim; carried into a tag it makes the extractor throw. */
  lemma UnclaimedReasonTurnsRed(policy: Policy, d: Decl, name: string, call: string, why: string, s: State,
                                a: Artifact, next: State, exps: map<Decl, Expectation>, migrated: set<Key>)
    requires policy.justifies(why) && policy.justifies(Trim(why)) && !policy.claims(Trim(why))
    requires s == State(map[d := []], [Row(KeyFor(d, name, call), why)])
    requires Round(policy, Scope(d.package, None, None), [Flag(d, name, [call])], s, a, next, exps, migrated)
    ensures GreenState(policy, [Flag(d, name, [call])], s) && !Extractable(policy, next.tags)
  {
    var pairs, scope := [Flag(d, name, [call])], Scope(d.package, None, None);
    FlaggedOne(pairs[0]);
    SingleSeed(policy, call);
    hide Round, GreenState, Trim, Flagged, LastTag, Compares, Built;
    OneRowGreen(policy, pairs, s, d, name, call, why);
    UnclaimedMint(policy, scope, pairs, s, d, name, call, why, a, next, exps, migrated);
  }

  lemma UnclaimedMint(policy: Policy, scope: Scope, pairs: seq<Flag>, s: State, d: Decl, name: string, call: string,
                      why: string,
                      a: Artifact, next: State, exps: map<Decl, Expectation>, migrated: set<Key>)
    requires Round(policy, scope, pairs, s, a, next, exps, migrated) && Extractable(policy, s.tags)
    requires policy.justifies(why) && policy.justifies(Trim(why)) && !policy.claims(Trim(why))
    requires d in s.tags && LastTag(s.tags[d], call).None? && s.rows == [Row(KeyFor(d, name, call), why)]
    requires scope == Scope(d.package, None, None)
    requires Flagged(pairs, d, name, call) && forall r, c :: Flagged(pairs, d, r, c) ==> r == name
    ensures !Extractable(policy, next.tags)
  {
    hide Compares, Expectations, Retags, Migrates, Extractable, Flagged, Trim, LastTag, WillArgue, Retires;
    ExpectationsOfPairs(policy, scope, pairs, s.tags, a, exps);
    WillMint(policy, scope, pairs, s, d, name, call, why);
    MintsFromOne(policy, scope, pairs, s, exps, d, name, call, why);
    ExtractableIff(policy, scope, pairs, s, a, next, exps, migrated);
  }

  lemma MintsFromOne(policy: Policy, scope: Scope, pairs: seq<Flag>, s: State, exps: map<Decl, Expectation>,
                     d: Decl, name: string, call: string, why: string)
    requires WellSeeded(policy) && scope == Scope(d.package, None, None) && d in s.tags
    requires LastTag(s.tags[d], call).None?
    requires Flagged(pairs, d, name, call) && forall r, c :: Flagged(pairs, d, r, c) ==> r == name
    requires d in exps <==> InScope(scope, d) && exists c :: FlaggedOn(pairs, d, c)
    requires d in exps ==> (call in exps[d].calls <==> FlaggedOn(pairs, d, call))
    requires forall r :: d in exps ==> (r in exps[d].rubyNames <==> Matched(pairs, d, r))
    requires Curated(policy, s.rows, KeyFor(d, name, call)) && RowReason(policy, s.rows, KeyFor(d, name, call)) == why
    requires !policy.claims(Trim(why))
    ensures !MintsClassified(policy, scope, exps, s)
  {
    hide Flagged, Trim, LastTag, Curated, RowReason, FirstCuratedReason;
    assert FlaggedOn(pairs, d, call) && Matched(pairs, d, name);
    FirstCurated(policy, s.rows, d, exps[d].rubyNames, call);
    assert name in exps[d].rubyNames && forall r :: r in exps[d].rubyNames ==> r == name;
    assert FirstCuratedReason(policy, s.rows, d, exps[d].rubyNames, call) == why;
    assert Mints(policy, scope, s.tags[d], ReasonFor(policy, s.rows, d, Some(exps[d])), call);
  }
}
