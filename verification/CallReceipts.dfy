/** Call-site receipts: what the comparer flags, what a declaration's tags suppress, and which tags went stale. */
module CallReceipts {
  import opened Ordering
  import opened Text

  /** The declaration a `@missingRailsCall` tag sits on, under the file its Ruby path mirrors. */
  datatype Decl = Decl(package: string, file: string, owner: string, name: string)

  datatype Tag = Tag(call: string, reason: string)

  type Tags = map<Decl, seq<Tag>>

  /** Calls flagged, or suppressed, for one Ruby method matched onto one declaration. */
  datatype Flag = Flag(decl: Decl, rubyName: string, calls: seq<string>)

  datatype Key = Key(package: string, file: string, rubyName: string, call: string)

  datatype Row = Row(key: Key, reason: string)

  /** What the comparer and the gate read: the tags in the sources, keyed by every taggable declaration,
      and the call rows of the baseline. */
  datatype State = State(tags: Tags, rows: seq<Row>)

  /** How a reason reads: whether it argues its deviation, whether it opens with a permanence claim, and the seed. */
  datatype Policy = Policy(justifies: string -> bool, claims: string -> bool, seed: string)

  /** Neither a blank reason nor the seed argues anything. */
  predicate WellSeeded(policy: Policy) {
    !policy.justifies("") && !policy.justifies(policy.seed) && !policy.justifies(Trim(policy.seed))
  }

  function KeyFor(d: Decl, rubyName: string, call: string): Key { Key(d.package, d.file, rubyName, call) }

  ghost predicate Flagged(flags: seq<Flag>, d: Decl, rubyName: string, call: string) {
    exists f :: f in flags && f.decl == d && f.rubyName == rubyName && call in f.calls
  }

  ghost predicate HasPair(flags: seq<Flag>, d: Decl) { exists f :: f in flags && f.decl == d }

  /** Some pair on the declaration flags the call. */
  ghost predicate FlaggedOn(flags: seq<Flag>, d: Decl, call: string) { exists r :: Flagged(flags, d, r, call) }

  /** Some tag on the declaration argues for the call: what suppresses a flag. */
  predicate Visible(policy: Policy, tags: Tags, d: Decl, call: string) {
    d in tags && Receipted(policy, tags[d], call)
  }

  predicate Receipted(policy: Policy, ts: seq<Tag>, call: string) {
    exists t :: t in ts && t.call == call && policy.justifies(t.reason)
  }

  // ------------------------------------------------------------------ comparer

  datatype StaleTag = StaleTag(decl: Decl, call: string)

  datatype Artifact = Artifact(mismatches: seq<Flag>, suppressed: seq<Flag>, stale: set<StaleTag>)

  /** The extractor throws on a tag that argues its deviation without a permanence claim. */
  datatype Outcome = Unclassified | Compared(artifact: Artifact)

  predicate Extractable(policy: Policy, tags: Tags) {
    forall d :: d in tags ==> forall t :: t in tags[d] && policy.justifies(t.reason) ==> policy.claims(t.reason)
  }

  /** Mismatches are the flagged calls no visible tag names. */
  ghost predicate Survives(policy: Policy, pairs: seq<Flag>, tags: Tags, mismatches: seq<Flag>) {
    forall d, r, c :: Flagged(mismatches, d, r, c) <==> Flagged(pairs, d, r, c) && !Visible(policy, tags, d, c)
  }

  /** Suppressions are the flagged calls some visible tag names. */
  ghost predicate Buys(policy: Policy, pairs: seq<Flag>, tags: Tags, suppressed: seq<Flag>) {
    forall d, r, c :: Flagged(suppressed, d, r, c) <==> Flagged(pairs, d, r, c) && Visible(policy, tags, d, c)
  }

  ghost predicate NoneEmpty(flags: seq<Flag>) { forall f :: f in flags ==> f.calls != [] }

  /** The artifact splits every flagged call into surviving and suppressed. */
  ghost predicate Splits(policy: Policy, pairs: seq<Flag>, tags: Tags, mismatches: seq<Flag>, suppressed: seq<Flag>) {
    && Survives(policy, pairs, tags, mismatches) && Buys(policy, pairs, tags, suppressed)
    && NoneEmpty(mismatches) && NoneEmpty(suppressed)
  }

  ghost predicate IsStale(policy: Policy, pairs: seq<Flag>, tags: Tags, d: Decl, call: string) {
    HasPair(pairs, d) && Visible(policy, tags, d, call) && !FlaggedOn(pairs, d, call)
  }

  ghost predicate Compares(policy: Policy, pairs: seq<Flag>, tags: Tags, a: Artifact) {
    && Splits(policy, pairs, tags, a.mismatches, a.suppressed)
    && forall d, c :: StaleTag(d, c) in a.stale <==> IsStale(policy, pairs, tags, d, c)
  }

  /** The calls no visible tag names, in order. */
  function Surviving(policy: Policy, tags: Tags, d: Decl, calls: seq<string>): (r: seq<string>)
    ensures forall c :: c in r <==> c in calls && !Visible(policy, tags, d, c)
  {
    if calls == [] then []
    else
      var init, c := calls[..|calls| - 1], calls[|calls| - 1];
      assert forall x :: x in calls <==> x in init || x == c;
      Surviving(policy, tags, d, init) + if Visible(policy, tags, d, c) then [] else [c]
  }

  /** A receipt for each call a visible tag names, in order. */
  function Receipts(policy: Policy, tags: Tags, d: Decl, rubyName: string, calls: seq<string>): seq<Flag> {
    if calls == [] then []
    else
      var c := calls[|calls| - 1];
      Receipts(policy, tags, d, rubyName, calls[..|calls| - 1])
      + if Visible(policy, tags, d, c) then [Flag(d, rubyName, [c])] else []
  }

  function Mismatches(policy: Policy, pairs: seq<Flag>, tags: Tags): seq<Flag> {
    if pairs == [] then []
    else
      Mismatches(policy, pairs[..|pairs| - 1], tags) + MismatchOf(policy, tags, pairs[|pairs| - 1])
  }

  function MismatchOf(policy: Policy, tags: Tags, pair: Flag): seq<Flag> {
    var kept := Surviving(policy, tags, pair.decl, pair.calls);
    if kept == [] then [] else [Flag(pair.decl, pair.rubyName, kept)]
  }

  function Suppressions(policy: Policy, pairs: seq<Flag>, tags: Tags): seq<Flag> {
    if pairs == [] then []
    else
      var pair := pairs[|pairs| - 1];
      Suppressions(policy, pairs[..|pairs| - 1], tags) + Receipts(policy, tags, pair.decl, pair.rubyName, pair.calls)
  }

  /** One pair's flags against one declaration's tags; a suppressed call is a receipt of its own. */
  method ApplyCallTags(policy: Policy, pair: Flag, tags: Tags)
      returns (kept: seq<string>, bought: seq<Flag>, used: set<string>)
    ensures kept == Surviving(policy, tags, pair.decl, pair.calls)
    ensures bought == Receipts(policy, tags, pair.decl, pair.rubyName, pair.calls)
    ensures forall c :: c in used <==> c in pair.calls && Visible(policy, tags, pair.decl, c)
  {
    NothingApplied(policy, tags, pair);
    hide Visible, Surviving, Receipts;
    kept, bought, used := [], [], {};
    for i := 0 to |pair.calls|
      invariant kept == Surviving(policy, tags, pair.decl, pair.calls[..i])
      invariant bought == Receipts(policy, tags, pair.decl, pair.rubyName, pair.calls[..i])
      invariant forall c :: c in used <==> c in pair.calls[..i] && Visible(policy, tags, pair.decl, c)
    {
      var c := pair.calls[i];
      ApplyOneMore(policy, tags, pair, i);
      if Visible(policy, tags, pair.decl, c) {
        bought, used := bought + [Flag(pair.decl, pair.rubyName, [c])], used + {c};
      } else {
        kept := kept + [c];
      }
    }
    assert pair.calls[..|pair.calls|] == pair.calls;
  }

  lemma NothingApplied(policy: Policy, tags: Tags, pair: Flag)
    ensures Surviving(policy, tags, pair.decl, pair.calls[..0]) == []
    ensures Receipts(policy, tags, pair.decl, pair.rubyName, pair.calls[..0]) == []
  {
  }

  lemma ApplyOneMore(policy: Policy, tags: Tags, pair: Flag, i: nat)
    requires i < |pair.calls|
    ensures var c, done, kept := pair.calls[i], pair.calls[..i], Surviving(policy, tags, pair.decl, pair.calls[..i]);
            && (forall x :: x in pair.calls[..i + 1] <==> x in done || x == c)
            && Surviving(policy, tags, pair.decl, pair.calls[..i + 1]) ==
               if Visible(policy, tags, pair.decl, c) then kept else kept + [c]
    ensures var c, bought := pair.calls[i], Receipts(policy, tags, pair.decl, pair.rubyName, pair.calls[..i]);
            Receipts(policy, tags, pair.decl, pair.rubyName, pair.calls[..i + 1]) ==
            if Visible(policy, tags, pair.decl, c) then bought + [Flag(pair.decl, pair.rubyName, [c])] else bought
  {
    hide Visible;
    var c, done := pair.calls[i], pair.calls[..i];
    assert pair.calls[..i + 1] == done + [c] && (done + [c])[..i] == done;
  }

  /** `used` holds, for each compared declaration with a visible tag, the calls its tags suppressed. */
  ghost predicate Uses(policy: Policy, pairs: seq<Flag>, tags: Tags, used: map<Decl, set<string>>) {
    && (forall d :: d in used <==> HasPair(pairs, d) && exists c :: Visible(policy, tags, d, c))
    && (forall d, c :: d in used ==> (c in used[d] <==> Visible(policy, tags, d, c) && FlaggedOn(pairs, d, c)))
  }

  method StaleCallTags(policy: Policy, tags: Tags, used: map<Decl, set<string>>) returns (stale: set<StaleTag>)
    ensures forall d, c :: StaleTag(d, c) in stale <==> d in used && Visible(policy, tags, d, c) && c !in used[d]
  {
    stale := {};
    var rest := tags.Keys;
    while rest != {}
      invariant rest <= tags.Keys
      invariant forall d, c :: StaleTag(d, c) in stale <==>
        d !in rest && d in used && Visible(policy, tags, d, c) && c !in used[d]
      decreases |rest|
    {
      var d :| d in rest;
      if d in used {
        stale := stale + set t | t in tags[d] && policy.justifies(t.reason) &&
          t.call !in used[d] :: StaleTag(d, t.call);
      }
      rest := rest - {d};
    }
  }

  method Compare(policy: Policy, pairs: seq<Flag>, tags: Tags) returns (o: Outcome)
    ensures o.Unclassified? <==> !Extractable(policy, tags)
    ensures o.Unclassified? <==>
            exists d, t :: d in tags && t in tags[d] && policy.justifies(t.reason) && !policy.claims(t.reason)
    ensures o.Compared? ==> Compares(policy, pairs, tags, o.artifact)
    ensures o.Compared? ==> o.artifact.mismatches == Mismatches(policy, pairs, tags)
    ensures o.Compared? ==> o.artifact.suppressed == Suppressions(policy, pairs, tags)
  {
    assert !Extractable(policy, tags) <==>
           exists d, t :: d in tags && t in tags[d] && policy.justifies(t.reason) && !policy.claims(t.reason);
    hide *;
    if !Extractable(policy, tags) {
      return Unclassified;
    }
    var mismatches: seq<Flag>, suppressed: seq<Flag>, used: map<Decl, set<string>> := [], [], map[];
    NothingCompared(policy, tags);
    for i := 0 to |pairs|
      invariant mismatches == Mismatches(policy, pairs[..i], tags) &&
        suppressed == Suppressions(policy, pairs[..i], tags)
      invariant Uses(policy, pairs[..i], tags, used)
    {
      var pair := pairs[i];
      var kept, bought, hits := ApplyCallTags(policy, pair, tags);
      CompareOneMore(policy, pairs, i, tags);
      var tagged := AnyVisible(policy, tags, pair.decl);
      UsesOneMore(policy, pairs, i, tags, used, tagged, hits);
      if tagged {
        used := used[pair.decl := (if pair.decl in used then used[pair.decl] else {}) + hits];
      }
      suppressed := suppressed + bought;
      if kept != [] {
        mismatches := mismatches + [Flag(pair.decl, pair.rubyName, kept)];
      }
    }
    assert pairs[..|pairs|] == pairs;
    MismatchesSurvive(policy, pairs, tags);
    SuppressionsBuy(policy, pairs, tags);
    var stale := StaleCallTags(policy, tags, used);
    StaleFromUses(policy, pairs, tags, used, stale);
    o := Compared(Artifact(mismatches, suppressed, stale));
    ComparesParts(policy, pairs, tags, o.artifact);
  }

  /** What an artifact says of one call of one Ruby method: flagged and without a tag that argues for it the call is a
      mismatch, flagged and with one it is suppressed; and such a tag is stale on a compared declaration where no Ruby
      method flags the call. */
  lemma ComparesMeans(policy: Policy, pairs: seq<Flag>, tags: Tags, a: Artifact, d: Decl, r: string, c: string)
    requires Compares(policy, pairs, tags, a)
    ensures var tagged := d in tags && exists t :: t in tags[d] && t.call == c && policy.justifies(t.reason);
            var flagged := exists f :: f in pairs && f.decl == d && f.rubyName == r && c in f.calls;
            && (flagged && !tagged <==>
                  exists f :: f in a.mismatches && f.decl == d && f.rubyName == r && c in f.calls)
            && (flagged && tagged <==>
                  exists f :: f in a.suppressed && f.decl == d && f.rubyName == r && c in f.calls)
            && (StaleTag(d, c) in a.stale <==>
                  && tagged && (exists f :: f in pairs && f.decl == d)
                  && forall f :: f in pairs && f.decl == d ==> c !in f.calls)
    ensures forall f :: f in a.mismatches || f in a.suppressed ==> f.calls != []
  {
    assert Flagged(a.mismatches, d, r, c) <==> Flagged(pairs, d, r, c) && !Visible(policy, tags, d, c);
    assert Flagged(a.suppressed, d, r, c) <==> Flagged(pairs, d, r, c) && Visible(policy, tags, d, c);
    assert StaleTag(d, c) in a.stale <==> IsStale(policy, pairs, tags, d, c);
    assert FlaggedOn(pairs, d, c) <==> exists f :: f in pairs && f.decl == d && c in f.calls by {
      if f :| f in pairs && f.decl == d && c in f.calls { assert Flagged(pairs, d, f.rubyName, c); }
    }
  }

  /** What survives of a pair's calls stands in their order, each as often as it was made. */
  lemma {:induction false} SurvivingPicks(policy: Policy, tags: Tags, d: Decl, calls: seq<string>)
      returns (at: seq<nat>)
    ensures Picked(calls, at, Surviving(policy, tags, d, calls))
    ensures forall i :: 0 <= i < |calls| ==> (i in at <==> !Visible(policy, tags, d, calls[i]))
  {
    hide Visible, Picked;
    at := [];
    if calls == [] {
      assert Surviving(policy, tags, d, calls) == [];
      NothingPicked(calls);
    } else {
      var init, c := calls[..|calls| - 1], calls[|calls| - 1];
      var before := SurvivingPicks(policy, tags, d, init);
      at := before + if Visible(policy, tags, d, c) then [] else [|init|];
      PickedPush(init, c, !Visible(policy, tags, d, c), before, Surviving(policy, tags, d, init));
      PickedWithin(init, before, Surviving(policy, tags, d, init));
      assert init + [c] == calls;
    }
  }

  /** Each compared pair with a surviving call is one mismatch, in the order of the pairs. */
  lemma {:induction false} MismatchesPick(policy: Policy, pairs: seq<Flag>, tags: Tags) returns (at: seq<nat>)
    ensures Picked(Survivors(policy, pairs, tags), at, Mismatches(policy, pairs, tags))
    ensures forall i :: 0 <= i < |pairs| ==>
              (i in at <==> exists c :: c in pairs[i].calls && !Visible(policy, tags, pairs[i].decl, c))
  {
    hide Visible, Picked, Surviving;
    at := [];
    if pairs == [] {
      assert Mismatches(policy, pairs, tags) == [];
      NothingPicked(Survivors(policy, pairs, tags));
    } else {
      var init, pair := pairs[..|pairs| - 1], pairs[|pairs| - 1];
      var before := MismatchesPick(policy, init, tags);
      var kept := Surviving(policy, tags, pair.decl, pair.calls);
      NonEmpty(kept);
      var done, all := Survivors(policy, init, tags), Survivors(policy, pairs, tags);
      at := before + if kept == [] then [] else [|init|];
      PickedPush(done, Flag(pair.decl, pair.rubyName, kept), kept != [], before, Mismatches(policy, init, tags));
      PickedWithin(done, before, Mismatches(policy, init, tags));
      assert all == done + [Flag(pair.decl, pair.rubyName, kept)];
    }
  }

  /** The pairs with what survives of their calls. */
  function Survivors(policy: Policy, pairs: seq<Flag>, tags: Tags): (left: seq<Flag>)
    ensures |left| == |pairs|
    ensures forall i | 0 <= i < |pairs| ::
              left[i] == Flag(pairs[i].decl, pairs[i].rubyName, Surviving(policy, tags, pairs[i].decl, pairs[i].calls))
  {
    seq(|pairs|, i requires 0 <= i < |pairs| =>
      Flag(pairs[i].decl, pairs[i].rubyName, Surviving(policy, tags, pairs[i].decl, pairs[i].calls)))
  }

  /** A suppressed call is a flag of its own, in the order the pairs and their calls stand. */
  lemma SuppressionsInOrder(policy: Policy, pairs: seq<Flag>, tags: Tags, d: Decl, r: string, calls: seq<string>,
                            c: string)
    ensures Suppressions(policy, [], tags) == []
    ensures Suppressions(policy, pairs + [Flag(d, r, [])], tags) == Suppressions(policy, pairs, tags)
    ensures Suppressions(policy, pairs + [Flag(d, r, calls + [c])], tags) ==
            var tagged := d in tags && exists t :: t in tags[d] && t.call == c && policy.justifies(t.reason);
            Suppressions(policy, pairs + [Flag(d, r, calls)], tags) + if tagged then [Flag(d, r, [c])] else []
  {
    forall last ensures (pairs + [Flag(d, r, last)])[..|pairs|] == pairs {}
    assert (calls + [c])[..|calls|] == calls;
    var done, bought := Suppressions(policy, pairs, tags), Receipts(policy, tags, d, r, calls);
    hide Visible;
    Regroup(done, bought, if Visible(policy, tags, d, c) then [Flag(d, r, [c])] else []);
  }

  lemma NothingCompared(policy: Policy, tags: Tags)
    ensures Mismatches(policy, [], tags) == [] && Suppressions(policy, [], tags) == [] && Uses(policy, [], tags, map[])
  {
  }

  lemma CompareOneMore(policy: Policy, pairs: seq<Flag>, i: nat, tags: Tags)
    requires i < |pairs|
    ensures Suppressions(policy, pairs[..i + 1], tags) ==
            Suppressions(policy, pairs[..i], tags)
            + Receipts(policy, tags, pairs[i].decl, pairs[i].rubyName, pairs[i].calls)
    ensures var kept := Surviving(policy, tags, pairs[i].decl, pairs[i].calls);
            Mismatches(policy, pairs[..i + 1], tags) ==
            if kept == [] then Mismatches(policy, pairs[..i], tags)
            else Mismatches(policy, pairs[..i], tags) + [Flag(pairs[i].decl, pairs[i].rubyName, kept)]
  {
    hide Surviving, Receipts;
    assert pairs[..i + 1][..i] == pairs[..i];
    assert Mismatches(policy, pairs[..i], tags) + [] == Mismatches(policy, pairs[..i], tags);
  }

  lemma StaleFromUses(policy: Policy, pairs: seq<Flag>, tags: Tags, used: map<Decl, set<string>>, stale: set<StaleTag>)
    requires Uses(policy, pairs, tags, used)
    requires forall d, c :: StaleTag(d, c) in stale <==> d in used && Visible(policy, tags, d, c) && c !in used[d]
    ensures forall d, c :: StaleTag(d, c) in stale <==> IsStale(policy, pairs, tags, d, c)
  {
    hide Visible, Flagged, HasPair;
    forall d, c ensures StaleTag(d, c) in stale <==> IsStale(policy, pairs, tags, d, c) {
      if Visible(policy, tags, d, c) && HasPair(pairs, d) { assert d in used; }
    }
  }

  lemma ComparesParts(policy: Policy, pairs: seq<Flag>, tags: Tags, a: Artifact)
    requires Survives(policy, pairs, tags, a.mismatches) && NoneEmpty(a.mismatches)
    requires Buys(policy, pairs, tags, a.suppressed) && NoneEmpty(a.suppressed)
    requires forall d, c :: StaleTag(d, c) in a.stale <==> IsStale(policy, pairs, tags, d, c)
    ensures Compares(policy, pairs, tags, a)
  {
  }

  method AnyVisible(policy: Policy, tags: Tags, d: Decl) returns (tagged: bool)
    ensures tagged <==> exists c :: Visible(policy, tags, d, c)
  {
    tagged := d in tags && exists t :: t in tags[d] && policy.justifies(t.reason);
    if tagged {
      var t :| t in tags[d] && policy.justifies(t.reason);
      assert Visible(policy, tags, d, t.call);
    }
  }

  lemma FlaggedSum(a: seq<Flag>, b: seq<Flag>)
    ensures forall d, r, c :: Flagged(a + b, d, r, c) <==> Flagged(a, d, r, c) || Flagged(b, d, r, c)
    ensures forall d :: HasPair(a + b, d) <==> HasPair(a, d) || HasPair(b, d)
  {
    assert forall f :: f in a + b <==> f in a || f in b;
  }

  lemma FlaggedOne(f: Flag)
    ensures forall d, r, c :: Flagged([f], d, r, c) <==> d == f.decl && r == f.rubyName && c in f.calls
    ensures forall d :: HasPair([f], d) <==> d == f.decl
  {
    assert f in [f];
  }

  lemma FlaggedOneMore(pairs: seq<Flag>, i: nat)
    requires i < |pairs|
    ensures forall d, r, c :: (Flagged(pairs[..i + 1], d, r, c)
                               <==> (Flagged(pairs[..i], d, r, c) ||
                                 (d == pairs[i].decl && r == pairs[i].rubyName && c in pairs[i].calls)))
    ensures forall d :: HasPair(pairs[..i + 1], d) <==> HasPair(pairs[..i], d) || d == pairs[i].decl
  {
    hide Flagged, HasPair;
    assert pairs[..i + 1] == pairs[..i] + [pairs[i]];
    FlaggedSum(pairs[..i], [pairs[i]]);
    FlaggedOne(pairs[i]);
  }

  lemma FlaggedNone()
    ensures forall d, r, c :: !Flagged([], d, r, c)
  {
  }

  lemma FlaggedMismatch(policy: Policy, tags: Tags, pair: Flag)
    ensures forall d, r, c :: (Flagged(MismatchOf(policy, tags, pair), d, r, c)
                               <==> (d == pair.decl && r == pair.rubyName && c in pair.calls &&
                                 !Visible(policy, tags, d, c)))
  {
    hide Visible, Flagged;
    FlaggedNone();
    FlaggedOne(Flag(pair.decl, pair.rubyName, Surviving(policy, tags, pair.decl, pair.calls)));
  }

  lemma {:induction false} MismatchesSurvive(policy: Policy, pairs: seq<Flag>, tags: Tags)
    ensures Survives(policy, pairs, tags, Mismatches(policy, pairs, tags)) && NoneEmpty(Mismatches(policy, pairs, tags))
  {
    if pairs == [] {
      FlaggedNone();
    } else {
      var i := |pairs| - 1;
      MismatchesSurvive(policy, pairs[..i], tags);
      FlaggedOneMore(pairs, i);
      assert pairs[..i + 1] == pairs;
      FlaggedMismatch(policy, tags, pairs[i]);
      FlaggedSum(Mismatches(policy, pairs[..i], tags), MismatchOf(policy, tags, pairs[i]));
      hide Visible, Flagged, HasPair;
    }
  }

  lemma {:induction false} FlaggedReceipts(policy: Policy, tags: Tags, decl: Decl, rubyName: string, calls: seq<string>)
    ensures forall d, r, c :: (Flagged(Receipts(policy, tags, decl, rubyName, calls), d, r, c)
                               <==> (d == decl && r == rubyName && c in calls && Visible(policy, tags, d, c)))
    ensures NoneEmpty(Receipts(policy, tags, decl, rubyName, calls))
  {
    hide Visible, Flagged;
    FlaggedNone();
    if calls != [] {
      var init, last := calls[..|calls| - 1], calls[|calls| - 1];
      FlaggedReceipts(policy, tags, decl, rubyName, init);
      assert forall x :: x in calls <==> x in init || x == last;
      FlaggedOne(Flag(decl, rubyName, [last]));
      FlaggedSum(Receipts(policy, tags, decl, rubyName, init), [Flag(decl, rubyName, [last])]);
      assert Receipts(policy, tags, decl, rubyName, init) + [] == Receipts(policy, tags, decl, rubyName, init);
    }
  }

  lemma {:induction false} SuppressionsBuy(policy: Policy, pairs: seq<Flag>, tags: Tags)
    ensures Buys(policy, pairs, tags, Suppressions(policy, pairs, tags)) && NoneEmpty(Suppressions(policy, pairs, tags))
  {
    if pairs == [] {
      FlaggedNone();
    } else {
      var i := |pairs| - 1;
      var p := pairs[i];
      SuppressionsBuy(policy, pairs[..i], tags);
      FlaggedOneMore(pairs, i);
      assert pairs[..i + 1] == pairs;
      FlaggedReceipts(policy, tags, p.decl, p.rubyName, p.calls);
      FlaggedSum(Suppressions(policy, pairs[..i], tags), Receipts(policy, tags, p.decl, p.rubyName, p.calls));
      hide Visible, Flagged, HasPair, Receipts;
    }
  }

  lemma FlaggedOnOneMore(pairs: seq<Flag>, i: nat)
    requires i < |pairs|
    ensures forall d, c :: FlaggedOn(pairs[..i + 1], d, c) <==>
      FlaggedOn(pairs[..i], d, c) || (d == pairs[i].decl && c in pairs[i].calls)
    ensures forall d, c :: FlaggedOn(pairs[..i], d, c) ==> HasPair(pairs[..i], d)
  {
    FlaggedOneMore(pairs, i);
    PairBehindFlag(pairs[..i]);
    hide Flagged, HasPair;
    forall d, c ensures FlaggedOn(pairs[..i + 1], d, c) <==>
      FlaggedOn(pairs[..i], d, c) || (d == pairs[i].decl && c in pairs[i].calls) {
      if d == pairs[i].decl && c in pairs[i].calls { assert Flagged(pairs[..i + 1], d, pairs[i].rubyName, c); }
      if FlaggedOn(pairs[..i + 1], d, c) {
        var r :| Flagged(pairs[..i + 1], d, r, c);
        assert Flagged(pairs[..i], d, r, c) || (d == pairs[i].decl && c in pairs[i].calls);
      }
      if FlaggedOn(pairs[..i], d, c) {
        var r :| Flagged(pairs[..i], d, r, c);
        assert Flagged(pairs[..i + 1], d, r, c);
      }
    }
  }

  lemma UsesOneMore(policy: Policy, pairs: seq<Flag>, i: nat, tags: Tags, used: map<Decl, set<string>>, tagged: bool,
                    hits: set<string>)
    requires i < |pairs| && Uses(policy, pairs[..i], tags, used)
    requires tagged <==> exists c :: Visible(policy, tags, pairs[i].decl, c)
    requires forall c :: c in hits <==> c in pairs[i].calls && Visible(policy, tags, pairs[i].decl, c)
    ensures tagged ==> Uses(policy, pairs[..i + 1], tags,
                            used[pairs[i].decl := (if pairs[i].decl in used then used[pairs[i].decl] else {}) + hits])
    ensures !tagged ==> Uses(policy, pairs[..i + 1], tags, used)
  {
    FlaggedOneMore(pairs, i);
    FlaggedOnOneMore(pairs, i);
    hide Visible, Flagged, HasPair, FlaggedOn;
    var d, q := pairs[i].decl, pairs[..i + 1];
    if tagged {
      assert d in used <==> HasPair(pairs[..i], d);
      var more := (if d in used then used[d] else {}) + hits;
      forall c ensures c in more <==> Visible(policy, tags, d, c) && FlaggedOn(q, d, c) {
        assert FlaggedOn(q, d, c) <==> FlaggedOn(pairs[..i], d, c) || c in pairs[i].calls;
        if d in used { assert c in used[d] <==> Visible(policy, tags, d, c) && FlaggedOn(pairs[..i], d, c); }
      }
      var next := used[d := more];
      assert forall e :: e in next <==> HasPair(q, e) && exists c :: Visible(policy, tags, e, c);
    }
  }

  lemma PairBehindFlag(pairs: seq<Flag>)
    ensures forall d, r, c :: Flagged(pairs, d, r, c) ==> HasPair(pairs, d)
  {
  }
}
