/** The Rails error manifest: the recognised error classes of one package, grown to a fixpoint. */
module ErrorManifest {
  import opened Ordering

  /** One `class X < Y` header found in a Ruby file. */
  datatype Decl = Decl(name: string, parent: string, qualifiedParent: bool, rubyFile: string, fromErrorsFile: bool)

  /** A declaration is an error class when its parent is one and the reference cannot mean anything else. */
  predicate Recognises(roots: set<string>, known: set<string>, d: Decl) {
    d.parent in known && (!d.qualifiedParent || d.parent in roots)
  }

  /** The names recognised before any growing. */
  function Seeds(roots: set<string>, decls: seq<Decl>): set<string> {
    roots + set d | d in decls && d.fromErrorsFile :: d.name
  }

  ghost predicate ClosedUnder(roots: set<string>, decls: seq<Decl>, known: set<string>) {
    && Seeds(roots, decls) <= known
    && forall d :: d in decls && Recognises(roots, known, d) ==> d.name in known
  }

  /** `known` is contained in every closed set. */
  ghost predicate WithinEveryClosed(roots: set<string>, decls: seq<Decl>, known: set<string>) {
    forall closed :: ClosedUnder(roots, decls, closed) ==> known <= closed
  }

  /** `known` is the least set that holds the root bases and the `errors.rb` names and is closed under recognition. */
  ghost predicate LeastClosed(roots: set<string>, decls: seq<Decl>, known: set<string>) {
    ClosedUnder(roots, decls, known) && WithinEveryClosed(roots, decls, known)
  }

  function Names(decls: seq<Decl>): set<string> { set d | d in decls :: d.name }

  method GrowKnown(roots: set<string>, decls: seq<Decl>) returns (known: set<string>)
    ensures LeastClosed(roots, decls, known)
    ensures roots <= known
    ensures forall d :: d in decls && d.fromErrorsFile ==> d.name in known
    ensures forall d :: d in decls && d.parent in known && (d.qualifiedParent ==> d.parent in roots) ==> d.name in known
    ensures forall closed: set<string> ::
              && roots <= closed
              && (forall d :: d in decls && d.fromErrorsFile ==> d.name in closed)
              && (forall d :: d in decls && d.parent in closed && (d.qualifiedParent ==> d.parent in roots) ==>
                    d.name in closed)
              ==> known <= closed
  {
    known := Grow(roots, decls);
    LeastClosedMeans(roots, decls, known);
  }

  /** What the least set is, read off the declarations alone. */
  lemma LeastClosedMeans(roots: set<string>, decls: seq<Decl>, known: set<string>)
    requires LeastClosed(roots, decls, known)
    ensures roots <= known
    ensures forall d :: d in decls && d.fromErrorsFile ==> d.name in known
    ensures forall d :: d in decls && d.parent in known && (d.qualifiedParent ==> d.parent in roots) ==> d.name in known
    ensures forall closed: set<string> ::
              && roots <= closed
              && (forall d :: d in decls && d.fromErrorsFile ==> d.name in closed)
              && (forall d :: d in decls && d.parent in closed && (d.qualifiedParent ==> d.parent in roots) ==>
                    d.name in closed)
              ==> known <= closed
  {
    forall closed: set<string> |
      && roots <= closed
      && (forall d :: d in decls && d.fromErrorsFile ==> d.name in closed)
      && (forall d :: d in decls && d.parent in closed && (d.qualifiedParent ==> d.parent in roots) ==>
            d.name in closed)
      ensures known <= closed
    {
      assert ClosedUnder(roots, decls, closed);
    }
  }

  method Grow(roots: set<string>, decls: seq<Decl>) returns (known: set<string>)
    ensures LeastClosed(roots, decls, known)
  {
    hide WithinEveryClosed, Recognises;
    known := roots;
    for i := 0 to |decls|
      invariant known == roots + set d | d in decls[..i] && d.fromErrorsFile :: d.name
    {
      assert decls[..i + 1] == decls[..i] + [decls[i]];
      if decls[i].fromErrorsFile { known := known + {decls[i].name}; }
    }
    assert decls[..|decls|] == decls;
    SeedsWithin(roots, decls);
    var changed := true;
    while changed
      invariant Seeds(roots, decls) <= known && WithinEveryClosed(roots, decls, known)
      invariant !changed ==> ClosedUnder(roots, decls, known)
      decreases Names(decls) - known, changed
    {
      ghost var before := known;
      changed := false;
      for i := 0 to |decls|
        invariant before <= known && WithinEveryClosed(roots, decls, known)
        invariant if changed then Names(decls) - known < Names(decls) - before else known == before
        invariant !changed ==> forall j :: 0 <= j < i && Recognises(roots, known, decls[j]) ==> decls[j].name in known
      {
        var d := decls[i];
        if d.name in known {
          continue;
        }
        if Recognises(roots, known, d) {
          RecognisedWithin(roots, decls, known, d);
          assert d.name in Names(decls);
          known := known + {d.name};
          changed := true;
        }
      }
    }
  }

  lemma SeedsWithin(roots: set<string>, decls: seq<Decl>)
    ensures WithinEveryClosed(roots, decls, Seeds(roots, decls))
  {
  }

  lemma RecognisedWithin(roots: set<string>, decls: seq<Decl>, known: set<string>, d: Decl)
    requires WithinEveryClosed(roots, decls, known) && d in decls && Recognises(roots, known, d)
    ensures WithinEveryClosed(roots, decls, known + {d.name})
  {
    forall closed | ClosedUnder(roots, decls, closed) ensures known + {d.name} <= closed {
      assert Recognises(roots, closed, d);
    }
  }

  /** The recognised set does not depend on the order, or the repetition, of the declarations scanned. */
  lemma OrderIrrelevant(roots: set<string>, decls: seq<Decl>, others: seq<Decl>, known: set<string>,
                        known': set<string>)
    requires forall d :: d in decls <==> d in others
    requires LeastClosed(roots, decls, known) && LeastClosed(roots, others, known')
    ensures known == known'
  {
    hide Recognises;
    assert Seeds(roots, decls) == Seeds(roots, others);
    assert ClosedUnder(roots, others, known) && ClosedUnder(roots, decls, known');
  }

  // ------------------------------------------------------------- derivations

  /** Inheritance steps from a seed: each class recognised through the one before it. */
  ghost predicate Lineage(roots: set<string>, decls: seq<Decl>, p: seq<Decl>) {
    && p != [] && (forall i :: 0 <= i < |p| ==> p[i] in decls)
    && Recognises(roots, Seeds(roots, decls), p[0])
    && forall i :: 0 <= i < |p| - 1 ==> Descends(roots, p[i], p[i + 1])
  }

  predicate Descends(roots: set<string>, d: Decl, e: Decl) { Recognises(roots, {d.name}, e) }

  ghost predicate Derived(roots: set<string>, decls: seq<Decl>, name: string) {
    name in Seeds(roots, decls) || exists p: seq<Decl> :: Lineage(roots, decls, p) && p[|p| - 1].name == name
  }

  /** A class is recognised exactly when an unbroken line of unambiguous parents joins it to a seed. */
  lemma RecognisedIffDerived(roots: set<string>, decls: seq<Decl>, known: set<string>, name: string)
    requires LeastClosed(roots, decls, known)
    ensures name in known <==> Derived(roots, decls, name)
  {
    hide Recognises, Descends;
    if Derived(roots, decls, name) && name !in Seeds(roots, decls) {
      var p: seq<Decl> :| Lineage(roots, decls, p) && p != [] && p[|p| - 1].name == name;
      LineageKnown(roots, decls, known, p, |p| - 1);
    }
    if name in known {
      var derived := set n | n in known && Derived(roots, decls, n);
      DerivedClosed(roots, decls, known, derived);
      assert known <= derived;
    }
  }

  lemma {:induction false} LineageKnown(roots: set<string>, decls: seq<Decl>, known: set<string>, p: seq<Decl>, i: nat)
    requires ClosedUnder(roots, decls, known) && Lineage(roots, decls, p) && i < |p|
    ensures p[i].name in known
  {
    if i > 0 {
      LineageKnown(roots, decls, known, p, i - 1);
      assert Descends(roots, p[i - 1], p[i - 1 + 1]);
    }
    assert Recognises(roots, known, p[i]);
  }

  lemma DerivedClosed(roots: set<string>, decls: seq<Decl>, known: set<string>, derived: set<string>)
    requires ClosedUnder(roots, decls, known)
    requires forall n :: n in derived <==> n in known && Derived(roots, decls, n)
    ensures ClosedUnder(roots, decls, derived)
  {
    forall d | d in decls && Recognises(roots, derived, d) ensures d.name in derived {
      assert Recognises(roots, known, d);
      assert d.parent in derived;
      if d.parent in Seeds(roots, decls) {
        assert Lineage(roots, decls, [d]);
      } else {
        var p: seq<Decl> :| Lineage(roots, decls, p) && p[|p| - 1].name == d.parent;
        assert Descends(roots, p[|p| - 1], d);
        assert Lineage(roots, decls, p + [d]);
      }
    }
  }

  // ------------------------------------------------------------------ emission

  /** A recognised declaration under the package's own namespace. */
  predicate Emitted(known: set<string>, inNamespace: string -> bool, d: Decl) {
    d.name in known && inNamespace(d.rubyFile)
  }

  /** The declaration an emitted name is reported from: the last one in an `errors.rb`, else the first. */
  ghost predicate ReportedFrom(known: set<string>, inNamespace: string -> bool, decls: seq<Decl>, d: Decl) {
    exists i :: 0 <= i < |decls| && decls[i] == d && ReportedAt(known, inNamespace, decls, i)
  }

  ghost predicate ReportedAt(known: set<string>, inNamespace: string -> bool, decls: seq<Decl>, i: nat)
    requires i < |decls|
  {
    && Emitted(known, inNamespace, decls[i])
    && (forall j :: 0 <= j < |decls| && Rivals(known, inNamespace, decls, i, j) && decls[j].fromErrorsFile ==>
          decls[i].fromErrorsFile && j <= i)
    && (forall j :: 0 <= j < i && Rivals(known, inNamespace, decls, i, j) ==> decls[i].fromErrorsFile)
  }

  /** Both declarations would be emitted, under one name. */
  ghost predicate Rivals(known: set<string>, inNamespace: string -> bool, decls: seq<Decl>, i: nat, j: nat)
    requires i < |decls| && j < |decls|
  {
    decls[j].name == decls[i].name && Emitted(known, inNamespace, decls[j])
  }

  method Emit(known: set<string>, inNamespace: string -> bool, decls: seq<Decl>) returns (byName: map<string, Decl>)
    ensures forall name :: name in byName <==>
      exists d :: d in decls && d.name == name && Emitted(known, inNamespace, d)
    ensures forall name :: name in byName ==>
      byName[name].name == name && ReportedFrom(known, inNamespace, decls, byName[name])
  {
    hide Emitted;
    byName := map[];
    for i := 0 to |decls|
      invariant forall name :: name in byName <==>
        exists d :: d in decls[..i] && d.name == name && Emitted(known, inNamespace, d)
      invariant forall name :: name in byName ==>
        byName[name].name == name && ReportedFrom(known, inNamespace, decls[..i], byName[name])
    {
      var d := decls[i];
      assert forall x :: x in decls[..i + 1] <==> x in decls[..i] || x == d;
      ghost var before := byName;
      if Emitted(known, inNamespace, d) && !(d.name in byName && !d.fromErrorsFile) {
        byName := byName[d.name := d];
      }
      forall name | name in byName ensures ReportedFrom(known, inNamespace, decls[..i + 1], byName[name]) {
        var was := if name in before then before[name] else d;
        ReportOneMore(known, inNamespace, decls, i, name in before, was, byName[name]);
      }
    }
    assert decls[..|decls|] == decls;
  }

  lemma ReportOneMore(known: set<string>, inNamespace: string -> bool, decls: seq<Decl>, i: nat, had: bool,
                      was: Decl, now: Decl)
    requires i < |decls| && was.name == now.name
    requires had ==> ReportedFrom(known, inNamespace, decls[..i], was)
    requires !had ==> forall j :: 0 <= j < i && decls[j].name == now.name ==> !Emitted(known, inNamespace, decls[j])
    requires now == if decls[i].name == now.name && Emitted(known, inNamespace, decls[i]) &&
      !(had && !decls[i].fromErrorsFile)
                    then decls[i] else was
    requires had || now == decls[i]
    requires had || Emitted(known, inNamespace, decls[i])
    ensures ReportedFrom(known, inNamespace, decls[..i + 1], now)
  {
    hide Emitted;
    var less, more := decls[..i], decls[..i + 1];
    assert forall j :: 0 <= j < i ==> less[j] == more[j];
    if now == decls[i] && (!had || decls[i].fromErrorsFile) && Emitted(known, inNamespace, decls[i]) {
      assert ReportedAt(known, inNamespace, more, i);
    } else {
      var k :| 0 <= k < |less| && less[k] == was && ReportedAt(known, inNamespace, less, k);
      assert forall j :: 0 <= j < i ==>
        (Rivals(known, inNamespace, more, k, j) <==> Rivals(known, inNamespace, less, k, j));
      assert ReportedAt(known, inNamespace, more, k);
    }
  }

  /** A name has one declaration it is reported from. */
  lemma ReportedOnce(known: set<string>, inNamespace: string -> bool, decls: seq<Decl>, d: Decl, e: Decl)
    requires ReportedFrom(known, inNamespace, decls, d) && ReportedFrom(known, inNamespace, decls, e)
    requires d.name == e.name
    ensures d == e
  {
    hide Emitted;
    var i :| 0 <= i < |decls| && decls[i] == d && ReportedAt(known, inNamespace, decls, i);
    var j :| 0 <= j < |decls| && decls[j] == e && ReportedAt(known, inNamespace, decls, j);
    assert Rivals(known, inNamespace, decls, i, j) && Rivals(known, inNamespace, decls, j, i);
  }

  /** Order on declarations by the host's collation of their names. */
  function ByName(collate: (string, string) -> bool): (Decl, Decl) -> bool {
    (a: Decl, b: Decl) => collate(a.name, b.name)
  }

  /** The package's entries: exactly the reported declarations, one to a name, in the collation's order. */
  method ScanEmitted(known: set<string>, inNamespace: string -> bool, decls: seq<Decl>,
                     collate: (string, string) -> bool)
      returns (entries: seq<Decl>)
    requires TotalPreorder(collate)
    ensures Sorted(ByName(collate), entries)
    ensures forall d :: d in entries <==> ReportedFrom(known, inNamespace, decls, d)
    ensures forall i, j :: 0 <= i < j < |entries| ==> collate(entries[i].name, entries[j].name)
    ensures forall i, j :: 0 <= i < j < |entries| ==> entries[i].name != entries[j].name
    ensures forall d | d in decls && d.name in known && inNamespace(d.rubyFile) ::
              exists e :: e in entries && e.name == d.name
    ensures forall e | e in entries ::
              && e.name in known && inNamespace(e.rubyFile)
              && exists i | 0 <= i < |decls| && decls[i] == e ::
                   if e.fromErrorsFile then
                     forall j | i < j < |decls| && decls[j].name == e.name && inNamespace(decls[j].rubyFile) ::
                       !decls[j].fromErrorsFile
                   else
                     && (forall j | 0 <= j < i && decls[j].name == e.name :: !inNamespace(decls[j].rubyFile))
                     && (forall j | 0 <= j < |decls| && decls[j].name == e.name && inNamespace(decls[j].rubyFile) ::
                           !decls[j].fromErrorsFile)
  {
    entries := SortedEntries(known, inNamespace, decls, collate);
    ReportedMeans(known, inNamespace, decls, entries);
  }

  method SortedEntries(known: set<string>, inNamespace: string -> bool, decls: seq<Decl>,
                       collate: (string, string) -> bool)
      returns (entries: seq<Decl>)
    requires TotalPreorder(collate)
    ensures Sorted(ByName(collate), entries)
    ensures forall d :: d in entries <==> ReportedFrom(known, inNamespace, decls, d)
    ensures forall i, j :: 0 <= i < j < |entries| ==> entries[i].name != entries[j].name
    ensures forall d | d in decls && d.name in known && inNamespace(d.rubyFile) ::
              exists e :: e in entries && e.name == d.name
  {
    hide Emitted, ReportedFrom;
    var byName := Emit(known, inNamespace, decls);
    var values := Values(byName);
    entries := SortBy(ByName(collate), values);
    SortBySorted(ByName(collate), values);
    SameElements(entries, values);
    DistinctSurvives(values, entries);
    forall d ensures d in entries <==> ReportedFrom(known, inNamespace, decls, d) {
      if ReportedFrom(known, inNamespace, decls, d) {
        ReportedIsEmitted(known, inNamespace, decls, d);
        ReportedOnce(known, inNamespace, decls, d, byName[d.name]);
      }
    }
    forall i, j | 0 <= i < j < |entries| ensures entries[i].name != entries[j].name {
      assert entries[i] in values && entries[j] in values && entries[i] != entries[j];
    }
    forall d | d in decls && d.name in known && inNamespace(d.rubyFile)
      ensures exists e :: e in entries && e.name == d.name
    {
      EmittedMeans(known, inNamespace, d);
      assert byName[d.name] in values;
    }
  }

  lemma EmittedMeans(known: set<string>, inNamespace: string -> bool, d: Decl)
    requires d.name in known && inNamespace(d.rubyFile)
    ensures Emitted(known, inNamespace, d)
  {
  }

  /** A reported declaration is the last of its name in an errors file, or the first of its name where none is. */
  lemma ReportedMeans(known: set<string>, inNamespace: string -> bool, decls: seq<Decl>, entries: seq<Decl>)
    requires forall e :: e in entries ==> ReportedFrom(known, inNamespace, decls, e)
    ensures forall e | e in entries ::
              && e.name in known && inNamespace(e.rubyFile)
              && exists i | 0 <= i < |decls| && decls[i] == e ::
                   if e.fromErrorsFile then
                     forall j | i < j < |decls| && decls[j].name == e.name && inNamespace(decls[j].rubyFile) ::
                       !decls[j].fromErrorsFile
                   else
                     && (forall j | 0 <= j < i && decls[j].name == e.name :: !inNamespace(decls[j].rubyFile))
                     && (forall j | 0 <= j < |decls| && decls[j].name == e.name && inNamespace(decls[j].rubyFile) ::
                           !decls[j].fromErrorsFile)
  {
    forall e | e in entries
      ensures e.name in known && inNamespace(e.rubyFile)
      ensures exists i | 0 <= i < |decls| && decls[i] == e ::
                if e.fromErrorsFile then
                  forall j | i < j < |decls| && decls[j].name == e.name && inNamespace(decls[j].rubyFile) ::
                    !decls[j].fromErrorsFile
                else
                  && (forall j | 0 <= j < i && decls[j].name == e.name :: !inNamespace(decls[j].rubyFile))
                  && (forall j | 0 <= j < |decls| && decls[j].name == e.name && inNamespace(decls[j].rubyFile) ::
                        !decls[j].fromErrorsFile)
    {
      var i :| 0 <= i < |decls| && decls[i] == e && ReportedAt(known, inNamespace, decls, i);
      assert forall j :: 0 <= j < |decls| && decls[j].name == e.name && inNamespace(decls[j].rubyFile) ==>
        Rivals(known, inNamespace, decls, i, j);
    }
  }

  lemma ReportedIsEmitted(known: set<string>, inNamespace: string -> bool, decls: seq<Decl>, d: Decl)
    requires ReportedFrom(known, inNamespace, decls, d)
    ensures d in decls && Emitted(known, inNamespace, d)
  {
  }

  method Values(byName: map<string, Decl>) returns (values: seq<Decl>)
    requires forall name :: name in byName ==> byName[name].name == name
    ensures Distinct(values) && forall d :: d in values <==> d.name in byName && byName[d.name] == d
  {
    values := [];
    var rest := byName.Keys;
    while rest != {}
      invariant rest <= byName.Keys && Distinct(values)
      invariant forall d :: d in values <==> d.name in byName && byName[d.name] == d && d.name !in rest
      decreases |rest|
    {
      var name :| name in rest;
      assert byName[name] !in values;
      values, rest := values + [byName[name]], rest - {name};
    }
  }
}
