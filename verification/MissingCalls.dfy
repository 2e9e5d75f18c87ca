/** The call-parity verdict on one matched body: which significant Ruby calls the TS body makes
    under no faithful spelling, after the spellings suppressed siblings own are taken away. */
module MissingCalls {
  import CallClosure
  import opened Ordering

  /** The naming tables and filters the comparison is run with. */
  datatype Conventions = Conventions(
    mapCall: string -> seq<string>,
    aliases: string -> seq<string>,
    suppressedSpellings: string -> seq<string>,
    needsNegation: (string, string) -> bool,
    significant: string -> bool,
    portedWithArgs: string -> bool
  )

  /** A Ruby call flagged as missing, with the TS spellings that would have discharged it. */
  datatype Flag = Flag(call: string, candidates: seq<string>)

  predicate Some(names: seq<string>, p: string -> bool) { exists name :: name in names && p(name) }

  // -------------------------------------------------------------------- claims

  /** The spellings a call the ported-with-args gate suppresses may be ported as; empty for any other call. */
  function Spellings(c: Conventions, call: string): seq<string> {
    if !c.significant(call) || c.mapCall(call) == [] || Some(c.mapCall(call), c.portedWithArgs) then []
    else c.mapCall(call) + c.aliases(call) + c.suppressedSpellings(call)
  }

  /** Every spelling some suppressed call of the body may own, made by the TS body or not. */
  ghost predicate Ownable(c: Conventions, rubyCalls: seq<string>, name: string) {
    exists call :: call in rubyCalls && name in Spellings(c, call)
  }

  ghost function Claimed(c: Conventions, rubyCalls: seq<string>, tsCalls: set<string>): set<string> {
    set name | name in tsCalls && Ownable(c, rubyCalls, name)
  }

  method SuppressedCallClaims(c: Conventions, rubyCalls: seq<string>, tsCalls: set<string>)
      returns (claimed: set<string>)
    ensures claimed == Claimed(c, rubyCalls, tsCalls)
    ensures forall name :: name in claimed <==> name in tsCalls && exists call ::
              && call in rubyCalls && c.significant(call) && c.mapCall(call) != []
              && (forall n :: n in c.mapCall(call) ==> !c.portedWithArgs(n))
              && (name in c.mapCall(call) || name in c.aliases(call) || name in c.suppressedSpellings(call))
  {
    claimed := {};
    for i := 0 to |rubyCalls|
      invariant forall name :: name in claimed <==> name in tsCalls && Ownable(c, rubyCalls[..i], name)
    {
      var call := rubyCalls[i];
      assert rubyCalls[..i + 1] == rubyCalls[..i] + [call];
      if !c.significant(call) || |c.mapCall(call)| == 0 || Some(c.mapCall(call), c.portedWithArgs) {
        OwnableOneMore(c, rubyCalls[..i], call);
        continue;
      }
      var spellings := c.mapCall(call) + c.aliases(call) + c.suppressedSpellings(call);
      ghost var before := claimed;
      for j := 0 to |spellings|
        invariant forall name :: name in claimed <==> name in before || (name in tsCalls && name in spellings[..j])
      {
        if spellings[j] in tsCalls { claimed := claimed + {spellings[j]}; }
      }
      OwnableOneMore(c, rubyCalls[..i], call);
    }
    assert rubyCalls[..|rubyCalls|] == rubyCalls;
    ClaimedMeans(c, rubyCalls, tsCalls);
  }

  /** A spelling is claimed when the TS body carries it and some significant call, mapped but by the gate's tables never
      ported with arguments, may be spelled so. */
  lemma ClaimedMeans(c: Conventions, rubyCalls: seq<string>, tsCalls: set<string>)
    ensures forall name :: name in Claimed(c, rubyCalls, tsCalls) <==> name in tsCalls && exists call ::
              && call in rubyCalls && c.significant(call) && c.mapCall(call) != []
              && (forall n :: n in c.mapCall(call) ==> !c.portedWithArgs(n))
              && (name in c.mapCall(call) || name in c.aliases(call) || name in c.suppressedSpellings(call))
  {
    forall name, call | call in rubyCalls
      ensures name in Spellings(c, call) <==>
        && c.significant(call) && c.mapCall(call) != [] && (forall n :: n in c.mapCall(call) ==> !c.portedWithArgs(n))
        && (name in c.mapCall(call) || name in c.aliases(call) || name in c.suppressedSpellings(call))
    {}
    hide Spellings;
  }

  lemma OwnableOneMore(c: Conventions, rubyCalls: seq<string>, call: string)
    ensures forall name :: Ownable(c, rubyCalls + [call], name) <==>
      Ownable(c, rubyCalls, name) || name in Spellings(c, call)
  {
    hide Spellings;
    forall name ensures Ownable(c, rubyCalls + [call], name) <==>
      Ownable(c, rubyCalls, name) || name in Spellings(c, call) {
      if Ownable(c, rubyCalls, name) {
        var owner :| owner in rubyCalls && name in Spellings(c, owner);
        assert owner in rubyCalls + [call];
      }
      assert call in rubyCalls + [call];
    }
  }

  // ------------------------------------------------------------------- verdict

  function Without(names: seq<string>, gone: seq<string>): seq<string> {
    if names == [] then [] else (if names[0] in gone then [] else [names[0]]) + Without(names[1..], gone)
  }

  /** What is left are the names not among those gone, each as often as it stood and in the order they stood. */
  lemma {:induction false} WithoutPicks(names: seq<string>, gone: seq<string>) returns (at: seq<nat>)
    ensures Picked(names, at, Without(names, gone))
    ensures forall i :: 0 <= i < |names| ==> (i in at <==> names[i] !in gone)
  {
    hide Picked;
    at := [];
    if names == [] {
      assert Without(names, gone) == [] && Picked(names, at, []) by { NothingPicked(names); }
    } else {
      var rest := WithoutPicks(names[1..], gone);
      at := (if names[0] in gone then [] else [0]) + Later(rest);
      PickedCons(names[0], names[1..], names[0] !in gone, rest, Without(names[1..], gone));
      assert [names[0]] + names[1..] == names;
    }
  }

  lemma WithoutHolds(names: seq<string>, gone: seq<string>)
    ensures forall n :: n in Without(names, gone) <==> n in names && n !in gone
  {
    hide Without;
    var at := WithoutPicks(names, gone);
    var left := Without(names, gone);
    forall n ensures n in left <==> n in names && n !in gone {
      if n in left {
        var k :| 0 <= k < |left| && left[k] == n;
        assert at[k] in at;
      }
      if n in names && n !in gone {
        var i :| 0 <= i < |names| && names[i] == n;
        var k :| 0 <= k < |at| && at[k] == i;
        assert left[k] == n;
      }
    }
  }

  /** A predicate gives up the spellings its plain sibling in the same body maps to, unless that leaves it none. */
  function NarrowPredicateCandidates(c: Conventions, call: string, body: seq<string>): seq<string> {
    if call == [] || call[|call| - 1] != '?' || call[..|call| - 1] !in body then c.mapCall(call)
    else
      var narrowed := Without(c.mapCall(call), c.mapCall(call[..|call| - 1]));
      if narrowed == [] then c.mapCall(call) else narrowed
  }

  /** A call keeps every spelling it maps to unless it is a predicate `x?` beside its plain sibling `x` and some of its
      spellings are not the sibling's: then it keeps exactly those, in order. */
  lemma NarrowedMeans(c: Conventions, call: string, plain: string, body: seq<string>) returns (at: seq<nat>)
    ensures (forall x :: x in body ==> call != x + "?") ==>
              NarrowPredicateCandidates(c, call, body) == c.mapCall(call)
    ensures call == plain + "?" && (forall n :: n in c.mapCall(call) ==> n in c.mapCall(plain)) ==>
              NarrowPredicateCandidates(c, call, body) == c.mapCall(call)
    ensures call == plain + "?" && plain in body && (exists n :: n in c.mapCall(call) && n !in c.mapCall(plain)) ==>
              && Picked(c.mapCall(call), at, NarrowPredicateCandidates(c, call, body))
              && forall i :: 0 <= i < |at| || 0 <= i < |c.mapCall(call)| ==>
                   (i in at <==> 0 <= i < |c.mapCall(call)| && c.mapCall(call)[i] !in c.mapCall(plain))
  {
    at := WithoutPicks(c.mapCall(call), c.mapCall(plain));
    WithoutHolds(c.mapCall(call), c.mapCall(plain));
    hide Without;
    if call != [] && call[|call| - 1] == '?' {
      assert call == call[..|call| - 1] + "?";
    }
    if call == plain + "?" {
      assert call[..|call| - 1] == plain;
      NonEmpty(Without(c.mapCall(call), c.mapCall(plain)));
    }
  }

  /** One pair under comparison, and the Ruby side's two call lists. */
  datatype Pair = Pair(rubyName: string, rubyCalls: seq<string>, bodyRubyCalls: seq<string>)

  function OtherCalls(names: seq<string>, self: string): seq<string> { Without(names, [self]) }

  function Candidates(c: Conventions, p: Pair, call: string): seq<string> {
    if call == "super" then ["super"] + c.mapCall(p.rubyName) else NarrowPredicateCandidates(c, call, p.bodyRubyCalls)
  }

  /** What the TS body offers: its calls, the negated ones among them, and the spellings claimed away. */
  datatype Offer = Offer(calls: set<string>, negated: set<string>, claimed: set<string>)

  predicate Discharges(c: Conventions, p: Pair, call: string, o: Offer) {
    if call == "super" then "super" in o.calls || Some(c.mapCall(p.rubyName), (n: string) => n in o.calls)
    else
      || Some(NarrowPredicateCandidates(c, call, p.bodyRubyCalls), (n: string) => n in o.calls - o.claimed)
      || Some(c.aliases(call), (n: string) =>
           if c.needsNegation(call, n) then n in o.negated - o.claimed else n in o.calls - o.claimed)
  }

  /** The gates a Ruby call must pass before the TS body is asked about it at all. */
  predicate Gated(c: Conventions, p: Pair, call: string) {
    && call != p.rubyName && c.significant(call)
    && (call == "super" ||
        (c.mapCall(call) != [] && Some(NarrowPredicateCandidates(c, call, p.bodyRubyCalls), c.portedWithArgs)))
  }

  predicate Flagged(c: Conventions, p: Pair, call: string, o: Offer) { Gated(c, p, call) && !Discharges(c, p, call, o) }

  function Missing(c: Conventions, p: Pair, calls: seq<string>, o: Offer): seq<Flag> {
    if calls == [] then []
    else
      Missing(c, p, calls[..|calls| - 1], o) +
      var call := calls[|calls| - 1];
      if Flagged(c, p, call, o) then [Flag(call, Candidates(c, p, call))] else []
  }

  /** What is left of the TS call sets once the suppressed siblings have claimed their spellings. */
  ghost function OfferOf(c: Conventions, p: Pair, tsCalls: set<string>, negated: set<string>): Offer {
    Offer(tsCalls, negated, Claimed(c, OtherCalls(p.bodyRubyCalls, p.rubyName), tsCalls))
  }

  method SignificantMissingCalls(c: Conventions, p: Pair, tsCalls: set<string>, negated: set<string>)
      returns (missing: seq<Flag>, ghost at: seq<nat>, ghost claims: set<string>)
    ensures missing == Missing(c, p, p.rubyCalls, OfferOf(c, p, tsCalls, negated))
    ensures Picked(p.rubyCalls, at, CallsOf(missing))
    ensures forall i | 0 <= i < |p.rubyCalls| && p.rubyCalls[i] == "super" ::
              i in at <==>
                && p.rubyName != "super" && c.significant("super") && "super" !in tsCalls
                && forall n :: n in c.mapCall(p.rubyName) ==> n !in tsCalls
    ensures forall i | 0 <= i < |p.rubyCalls| && p.rubyCalls[i] != "super" ::
              var call := p.rubyCalls[i];
              var mapped := NarrowPredicateCandidates(c, call, p.bodyRubyCalls);
              i in at <==>
                && call != p.rubyName && c.significant(call) && c.mapCall(call) != []
                && (exists n :: n in mapped && c.portedWithArgs(n))
                && (forall n :: n in mapped ==> n !in tsCalls || n in claims)
                && forall n | n in c.aliases(call) ::
                     n !in (if c.needsNegation(call, n) then negated else tsCalls) || n in claims
    ensures forall flag | flag in missing ::
              flag.candidates == if flag.call == "super" then ["super"] + c.mapCall(p.rubyName)
                                 else NarrowPredicateCandidates(c, flag.call, p.bodyRubyCalls)
    ensures forall name :: name in claims <==> name in tsCalls && exists call ::
              && call in p.bodyRubyCalls && call != p.rubyName && c.significant(call) && c.mapCall(call) != []
              && (forall n :: n in c.mapCall(call) ==> !c.portedWithArgs(n))
              && (name in c.mapCall(call) || name in c.aliases(call) || name in c.suppressedSpellings(call))
  {
    missing := CollectMissing(c, p, tsCalls, negated);
    claims := Claimed(c, OtherCalls(p.bodyRubyCalls, p.rubyName), tsCalls);
    ClaimedMeans(c, OtherCalls(p.bodyRubyCalls, p.rubyName), tsCalls);
    WithoutHolds(p.bodyRubyCalls, [p.rubyName]);
    at := MissingPicks(c, p, p.rubyCalls, OfferOf(c, p, tsCalls, negated));
    FlaggedMeans(c, p, p.rubyCalls, OfferOf(c, p, tsCalls, negated), at);
    hide *;
  }

  function CallsOf(flags: seq<Flag>): (calls: seq<string>)
    ensures |calls| == |flags| && forall k :: 0 <= k < |flags| ==> calls[k] == flags[k].call
  {
    seq(|flags|, k requires 0 <= k < |flags| => flags[k].call)
  }

  /** The flags are of the flagged calls, in the order these are made. */
  lemma {:induction false} MissingPicks(c: Conventions, p: Pair, calls: seq<string>, o: Offer) returns (at: seq<nat>)
    ensures Picked(calls, at, CallsOf(Missing(c, p, calls, o)))
    ensures forall i :: 0 <= i < |calls| ==> (i in at <==> Flagged(c, p, calls[i], o))
    ensures forall flag :: flag in Missing(c, p, calls, o) ==> flag.candidates == Candidates(c, p, flag.call)
  {
    hide Flagged, Picked, Candidates;
    at := [];
    if calls == [] {
      assert CallsOf(Missing(c, p, calls, o)) == [];
      NothingPicked(calls);
    } else {
      var rest, call := calls[..|calls| - 1], calls[|calls| - 1];
      var before := MissingPicks(c, p, rest, o);
      PickedPush(rest, call, Flagged(c, p, call, o), before, CallsOf(Missing(c, p, rest, o)));
      at := before + if Flagged(c, p, call, o) then [|rest|] else [];
      assert CallsOf(Missing(c, p, calls, o))
          == CallsOf(Missing(c, p, rest, o)) + if Flagged(c, p, call, o) then [call] else [];
      assert rest + [call] == calls;
      PickedWithin(rest, before, CallsOf(Missing(c, p, rest, o)));
    }
  }

  lemma FlaggedMeans(c: Conventions, p: Pair, calls: seq<string>, o: Offer, at: seq<nat>)
    requires forall i :: 0 <= i < |calls| ==> (i in at <==> Flagged(c, p, calls[i], o))
    ensures forall i | 0 <= i < |calls| && calls[i] == "super" ::
              i in at <==>
                && p.rubyName != "super" && c.significant("super") && "super" !in o.calls
                && forall n :: n in c.mapCall(p.rubyName) ==> n !in o.calls
    ensures forall i | 0 <= i < |calls| && calls[i] != "super" ::
              var call := calls[i];
              var mapped := NarrowPredicateCandidates(c, call, p.bodyRubyCalls);
              i in at <==>
                && call != p.rubyName && c.significant(call) && c.mapCall(call) != []
                && (exists n :: n in mapped && c.portedWithArgs(n))
                && (forall n :: n in mapped ==> n !in o.calls || n in o.claimed)
                && forall n | n in c.aliases(call) ::
                     n !in (if c.needsNegation(call, n) then o.negated else o.calls) || n in o.claimed
  {
    hide NarrowPredicateCandidates;
    forall i | 0 <= i < |calls| && calls[i] != "super"
      ensures Flagged(c, p, calls[i], o) <==>
        var call := calls[i];
        var mapped := NarrowPredicateCandidates(c, call, p.bodyRubyCalls);
        && call != p.rubyName && c.significant(call) && c.mapCall(call) != []
        && (exists n :: n in mapped && c.portedWithArgs(n))
        && (forall n :: n in mapped ==> n !in o.calls || n in o.claimed)
        && forall n | n in c.aliases(call) ::
             n !in (if c.needsNegation(call, n) then o.negated else o.calls) || n in o.claimed
    {}
  }

  method CollectMissing(c: Conventions, p: Pair, tsCalls: set<string>, negated: set<string>)
      returns (missing: seq<Flag>)
    ensures missing == Missing(c, p, p.rubyCalls, OfferOf(c, p, tsCalls, negated))
  {
    hide Ownable, NarrowPredicateCandidates;
    var claimed := SuppressedCallClaims(c, OtherCalls(p.bodyRubyCalls, p.rubyName), tsCalls);
    ghost var o := Offer(tsCalls, negated, claimed);
    var available, availableNegated := tsCalls - claimed, negated - claimed;
    missing := [];
    for i := 0 to |p.rubyCalls|
      invariant missing == Missing(c, p, p.rubyCalls[..i], o)
    {
      var call := p.rubyCalls[i];
      assert p.rubyCalls[..i + 1][..i] == p.rubyCalls[..i];
      if call == p.rubyName || !c.significant(call) {
        continue;
      }
      if call == "super" {
        var selfTs := c.mapCall(p.rubyName);
        if !("super" in tsCalls || Some(selfTs, (n: string) => n in tsCalls)) {
          missing := missing + [Flag("super", ["super"] + selfTs)];
        }
        continue;
      }
      if |c.mapCall(call)| == 0 {
        continue;
      }
      var mapped := NarrowPredicateCandidates(c, call, p.bodyRubyCalls);
      if !Some(mapped, c.portedWithArgs) || Some(mapped, (n: string) => n in available) {
        continue;
      }
      if Some(c.aliases(call), (n: string) =>
            if c.needsNegation(call, n) then n in availableNegated else n in available) {
        continue;
      }
      missing := missing + [Flag(call, mapped)];
    }
    assert p.rubyCalls[..|p.rubyCalls|] == p.rubyCalls;
  }

  // ------------------------------------------------------------- antitonicity

  /** The flags that survive a second look at what the TS body offers. */
  function StillFlagged(c: Conventions, p: Pair, flags: seq<Flag>, o: Offer): seq<Flag> {
    if flags == [] then []
    else
      var last := flags[|flags| - 1];
      StillFlagged(c, p, flags[..|flags| - 1], o) + if Flagged(c, p, last.call, o) then [last] else []
  }

  /** `more` offers every spelling `less` does, unclaimed ones included. */
  ghost predicate OffersMore(less: Offer, more: Offer) {
    && less.calls <= more.calls
    && less.calls - less.claimed <= more.calls - more.claimed
    && less.negated - less.claimed <= more.negated - more.claimed
  }

  lemma DischargeSurvives(c: Conventions, p: Pair, call: string, less: Offer, more: Offer)
    requires OffersMore(less, more) && Flagged(c, p, call, more)
    ensures Flagged(c, p, call, less)
  {
  }

  lemma {:induction false} MissingShrinks(c: Conventions, p: Pair, calls: seq<string>, less: Offer, more: Offer)
    requires OffersMore(less, more)
    ensures Missing(c, p, calls, more) == StillFlagged(c, p, Missing(c, p, calls, less), more)
  {
    hide Flagged, OffersMore, Candidates;
    if calls != [] {
      var call, rest := calls[|calls| - 1], calls[..|calls| - 1];
      MissingShrinks(c, p, rest, less, more);
      var before := Missing(c, p, rest, less);
      if Flagged(c, p, call, less) {
        var flag := Flag(call, Candidates(c, p, call));
        assert (before + [flag])[..|before + [flag]| - 1] == before;
      } else {
        if Flagged(c, p, call, more) { DischargeSurvives(c, p, call, less, more); }
        assert before + [] == before;
      }
    }
  }

  /** Claims grow with the TS view, and the larger view still offers every spelling the smaller did exactly
      when no ownable name was recorded negated without the plain call the larger view adds. */
  lemma LargerViewOffersMoreIff(c: Conventions, p: Pair, calls: set<string>, negated: set<string>,
                                moreCalls: set<string>, moreNegated: set<string>)
    requires calls <= moreCalls && negated <= moreNegated
    ensures OffersMore(OfferOf(c, p, calls, negated), OfferOf(c, p, moreCalls, moreNegated)) <==>
            forall name :: name in negated * moreCalls - calls ==>
              !Ownable(c, OtherCalls(p.bodyRubyCalls, p.rubyName), name)
  {
    hide Ownable;
    var less, more := OfferOf(c, p, calls, negated), OfferOf(c, p, moreCalls, moreNegated);
    if OffersMore(less, more) {
      forall name | name in negated * moreCalls - calls
        ensures !Ownable(c, OtherCalls(p.bodyRubyCalls, p.rubyName), name) {
        assert name in less.negated - less.claimed;
        assert name in more.negated - more.claimed;
      }
    }
  }

  /** Growing what the TS body is credited with only ever removes flags, in place and in order,
      although the claims subtracted grow with it. */
  lemma FlagsAreAntitone(c: Conventions, p: Pair, calls: set<string>, negated: set<string>,
                         moreCalls: set<string>, moreNegated: set<string>)
    requires calls <= moreCalls && negated <= moreNegated && negated <= calls
    ensures var more := OfferOf(c, p, moreCalls, moreNegated);
            Missing(c, p, p.rubyCalls, more) ==
            StillFlagged(c, p, Missing(c, p, p.rubyCalls, OfferOf(c, p, calls, negated)), more)
  {
    hide OfferOf, OffersMore;
    LargerViewOffersMoreIff(c, p, calls, negated, moreCalls, moreNegated);
    MissingShrinks(c, p, p.rubyCalls, OfferOf(c, p, calls, negated), OfferOf(c, p, moreCalls, moreNegated));
  }

  /** Ruby `x`, ported as `isX` or as a negated `has`, beside a suppressed `m` that owns the spelling `has`. */
  function NegatedHas(): Conventions {
    Conventions((n: string) => if n == "m" then ["isM"] else if n == "x" then ["isX"] else [],
                (n: string) => if n == "x" then ["has"] else [],
                (n: string) => if n == "m" then ["has"] else [],
                (rc: string, n: string) => true, (n: string) => true, (n: string) => n == "isX")
  }

  lemma OthersOf(x: string, m: string, self: string)
    requires x != self && m != self
    ensures OtherCalls([x, m], self) == [x, m]
  {
    assert [x, m][1..] == [m] && [m][1..] == [];
    assert Without([m], [self]) == [m];
  }

  /** With a negated call the plain set lacks, crediting the body with that plain call raises a flag. */
  lemma NegatedOutsideCallsCanFlag()
    ensures var c, p := NegatedHas(), Pair("self", ["x"], ["x", "m"]);
            && !Flagged(c, p, "x", OfferOf(c, p, {}, {"has"}))
            && Flagged(c, p, "x", OfferOf(c, p, {"has"}, {"has"}))
  {
    var c, p := NegatedHas(), Pair("self", ["x"], ["x", "m"]);
    var less, more := OfferOf(c, p, {}, {"has"}), OfferOf(c, p, {"has"}, {"has"});
    assert less.claimed == {} && more.claimed == {"has"} by {
      OthersOf("x", "m", "self");
      hide OtherCalls, Without;
      assert OtherCalls(p.bodyRubyCalls, p.rubyName)[1] == "m" && c.suppressedSpellings("m")[0] == "has";
      assert "has" in Spellings(c, "m");
      assert Ownable(c, OtherCalls(p.bodyRubyCalls, p.rubyName), "has");
    }
    HasIsTheOnlyWay(c, p, less);
    HasIsTheOnlyWay(c, p, more);
  }

  lemma HasIsTheOnlyWay(c: Conventions, p: Pair, o: Offer)
    requires c == NegatedHas() && p == Pair("self", ["x"], ["x", "m"]) && o.calls <= {"has"}
    ensures Flagged(c, p, "x", o) <==> "has" !in o.negated - o.claimed
  {
    assert |"x"| == 1 && |"super"| == 5 && |"self"| == 4;
    assert NarrowPredicateCandidates(c, "x", p.bodyRubyCalls) == ["isX"] && c.aliases("x") == ["has"];
    assert Gated(c, p, "x") by { assert c.portedWithArgs(["isX"][0]); }
    assert ["isX"][0] == "isX" && "isX" != "has" && c.needsNegation("x", "has");
    var alias := c.aliases("x")[0];
    assert alias == "has" && alias in c.aliases("x");
  }

  // ------------------------------------------------------------ effective calls

  const DELEGATION_MAX_CALLS := 3

  predicate IsDelegatingWrapper(tsName: string, tsCalls: set<string>) {
    tsName in tsCalls && |tsCalls| <= DELEGATION_MAX_CALLS
  }

  /** The body's calls, those of each helper it reaches, and a one-line forwarder's delegate's. */
  ghost predicate EffectivelyCalls(tsName: string, tsCalls: set<string>, delegate: seq<string>,
                                   file: CallClosure.SameFile, reached: set<string>, name: string) {
    || name in tsCalls
    || (exists helper :: helper in reached && helper in file.calls && name in file.calls[helper])
    || (IsDelegatingWrapper(tsName, tsCalls) && name in delegate)
  }

  method EffectiveTsCalls(tsName: string, tsCalls: set<string>, delegate: seq<string>,
                          file: CallClosure.SameFile, reached: set<string>) returns (merged: set<string>)
    ensures forall name :: name in merged <==> EffectivelyCalls(tsName, tsCalls, delegate, file, reached, name)
    ensures forall name :: name in merged <==>
              || name in tsCalls
              || (exists helper :: helper in reached && helper in file.calls && name in file.calls[helper])
              || (tsName in tsCalls && |tsCalls| <= 3 && name in delegate)
  {
    var wrapper := IsDelegatingWrapper(tsName, tsCalls);
    merged := tsCalls;
    if |reached| == 0 && !wrapper {
      return;
    }
    var rest := reached;
    while rest != {}
      invariant rest <= reached
      invariant forall name :: name in merged <==>
        (name in tsCalls ||
         exists helper :: helper in reached - rest && helper in file.calls && name in file.calls[helper])
      decreases |rest|
    {
      var helper :| helper in rest;
      var calls := if helper in file.calls then file.calls[helper] else [];
      ghost var before, done := merged, reached - rest;
      merged := AddAll(merged, calls);
      rest := rest - {helper};
      assert reached - rest == done + {helper};
    }
    if wrapper {
      merged := AddAll(merged, delegate);
    }
  }

  method AddAll(names: set<string>, more: seq<string>) returns (r: set<string>)
    ensures forall name :: name in r <==> name in names || name in more
  {
    r := names;
    for i := 0 to |more|
      invariant forall name :: name in r <==> name in names || name in more[..i]
    {
      r := r + {more[i]};
    }
  }

  /** Helper closure, delegation and the include-graph union, taken together with the negated calls
      they bring, can only silence rows the body's own calls would raise. */
  lemma TransparencyOnlySilences(c: Conventions, p: Pair, tsName: string, own: set<string>, negated: set<string>,
                                 delegate: seq<string>, file: CallClosure.SameFile, reached: set<string>,
                                 merged: set<string>, graph: set<string>, allNegated: set<string>)
    requires negated <= own && negated <= allNegated
    requires forall name :: name in merged <==> EffectivelyCalls(tsName, own, delegate, file, reached, name)
    ensures var seen := OfferOf(c, p, merged + graph, allNegated);
            Missing(c, p, p.rubyCalls, seen) ==
            StillFlagged(c, p, Missing(c, p, p.rubyCalls, OfferOf(c, p, own, negated)), seen)
  {
    assert own <= merged + graph by {
      forall name | name in own ensures name in merged {
        assert EffectivelyCalls(tsName, own, delegate, file, reached, name);
      }
    }
    hide *;
    FlagsAreAntitone(c, p, own, negated, merged + graph, allNegated);
  }

  // -------------------------------------------------------- growing the body

  /** Whatever the delegate, the file and the helpers reached, a name effectively called stays so when the body's own
      calls grow from `own` to `more`. */
  ghost predicate EffectStays(tsName: string, own: set<string>, more: set<string>) {
    forall delegate, file, reached, name ::
      EffectivelyCalls(tsName, own, delegate, file, reached, name) ==>
      EffectivelyCalls(tsName, more, delegate, file, reached, name)
  }

  /** Delegation is monotone in the body's own calls exactly where growing them does not cost the body its wrapper
      status. */
  lemma EffectStaysIff(tsName: string, own: set<string>, more: set<string>)
    requires own <= more
    ensures EffectStays(tsName, own, more) <==>
            (IsDelegatingWrapper(tsName, own) ==> IsDelegatingWrapper(tsName, more))
  {
    if IsDelegatingWrapper(tsName, own) && !IsDelegatingWrapper(tsName, more) {
      var name := FreshName(more);
      var file := CallClosure.SameFile(map[], (owner: string) => {});
      assert name in [name];
      assert EffectivelyCalls(tsName, own, [name], file, {}, name);
      assert !EffectivelyCalls(tsName, more, [name], file, {}, name);
    }
  }

  lemma {:induction false} FreshName(names: set<string>) returns (name: string)
    ensures name !in names && forall other :: other in names ==> |other| < |name|
  {
    name := "x";
    if other :| other in names {
      name := FreshName(names - {other});
      name := if |name| > |other| then name else other + "x";
    }
  }

  /** A wrapper of one call that makes three more is past the wrapper size, and loses what its delegate lent it. */
  lemma WrapperStatusCanBeLost()
    ensures {"f"} <= {"f", "a", "b", "c"} && !EffectStays("f", {"f"}, {"f", "a", "b", "c"})
  {
    assert |{"f", "a", "b", "c"}| == 4;
    EffectStaysIff("f", {"f"}, {"f", "a", "b", "c"});
  }

  // ------------------------------------------------------- deepening the closure

  /** The negated calls on record: the body's, a helper's, the delegate's and the include graph's. */
  datatype Negations =
    Negations(own: set<string>, of: string -> set<string>, delegate: set<string>, graph: set<string>)

  /** A negated call is a second record of a call of the same body. */
  ghost predicate Recorded(b: CallClosure.Body, delegate: seq<string>, graph: set<string>, n: Negations) {
    && (forall name :: name in n.own ==> name in b.tsCalls)
    && (forall helper, name :: helper in b.file.calls && name in n.of(helper) ==> name in b.file.calls[helper])
    && (forall name :: name in n.delegate ==> name in delegate)
    && n.graph <= graph
  }

  function Own(b: CallClosure.Body): set<string> { set name | name in b.tsCalls }

  ghost predicate Negates(b: CallClosure.Body, n: Negations, reached: set<string>, name: string) {
    || name in n.own || name in n.graph
    || (exists helper :: helper in reached && name in n.of(helper))
    || (IsDelegatingWrapper(b.tsName, Own(b)) && name in n.delegate)
  }

  /** What the comparison holds the body to where the closure follows `depth` hops. */
  ghost predicate SeenAt(b: CallClosure.Body, delegate: seq<string>, graph: set<string>, n: Negations, depth: nat,
                         calls: set<string>, negated: set<string>) {
    var reached := CallClosure.Reach(b, depth);
    && (forall name :: name in calls <==>
          (name in graph || EffectivelyCalls(b.tsName, Own(b), delegate, b.file, reached, name)))
    && (forall name :: name in negated <==> Negates(b, n, reached, name))
  }

  /** At every depth there is such a view. */
  lemma SeenSomething(b: CallClosure.Body, delegate: seq<string>, graph: set<string>, n: Negations, depth: nat)
      returns (calls: set<string>, negated: set<string>)
    ensures SeenAt(b, delegate, graph, n, depth, calls, negated)
  {
    hide IsDelegatingWrapper, CallClosure.Reach, Own;
    var reached := CallClosure.Reach(b, depth);
    var wrapper := IsDelegatingWrapper(b.tsName, Own(b));
    calls := graph + Own(b) + (if wrapper then set name | name in delegate else {})
      + set h, name | h in reached && h in b.file.calls && name in b.file.calls[h] :: name;
    negated := n.own + n.graph + (if wrapper then n.delegate else {})
      + set h, name | h in reached && name in n.of(h) :: name;
  }

  lemma DeeperSeesMore(b: CallClosure.Body, delegate: seq<string>, graph: set<string>, n: Negations,
                       shallow: nat, deep: nat, calls: set<string>, negated: set<string>,
                       moreCalls: set<string>, moreNegated: set<string>)
    requires Recorded(b, delegate, graph, n) && shallow <= deep
    requires SeenAt(b, delegate, graph, n, shallow, calls, negated)
    requires SeenAt(b, delegate, graph, n, deep, moreCalls, moreNegated)
    ensures calls <= moreCalls && negated <= moreNegated && negated <= calls
  {
    CallClosure.ReachMonotone(b, shallow, deep);
    var reached := CallClosure.Reach(b, shallow);
    forall name | name in negated ensures name in calls {
      if helper :| helper in reached && name in n.of(helper) { assert name in b.file.calls[helper]; }
    }
  }

  lemma {:induction false} StillFlaggedIsShorter(c: Conventions, p: Pair, flags: seq<Flag>, o: Offer)
    ensures |StillFlagged(c, p, flags, o)| <= |flags|
  {
    hide Flagged;
    if flags != [] { StillFlaggedIsShorter(c, p, flags[..|flags| - 1], o); }
  }

  /** Following more hops only removes flags, in place and in order, and so only lowers their number. */
  lemma DeeperOnlySilences(c: Conventions, p: Pair, b: CallClosure.Body, delegate: seq<string>, graph: set<string>,
                           n: Negations, shallow: nat, deep: nat, calls: set<string>, negated: set<string>,
                           moreCalls: set<string>, moreNegated: set<string>)
    requires Recorded(b, delegate, graph, n) && shallow <= deep
    requires SeenAt(b, delegate, graph, n, shallow, calls, negated)
    requires SeenAt(b, delegate, graph, n, deep, moreCalls, moreNegated)
    ensures var less, more := OfferOf(c, p, calls, negated), OfferOf(c, p, moreCalls, moreNegated);
            && Missing(c, p, p.rubyCalls, more) == StillFlagged(c, p, Missing(c, p, p.rubyCalls, less), more)
            && |Missing(c, p, p.rubyCalls, more)| <= |Missing(c, p, p.rubyCalls, less)|
  {
    hide *;
    DeeperSeesMore(b, delegate, graph, n, shallow, deep, calls, negated, moreCalls, moreNegated);
    FlagsAreAntitone(c, p, calls, negated, moreCalls, moreNegated);
    var less, more := OfferOf(c, p, calls, negated), OfferOf(c, p, moreCalls, moreNegated);
    StillFlaggedIsShorter(c, p, Missing(c, p, p.rubyCalls, less), more);
  }
}
