/** The recorded include/extend graph of one package: its indexes, the file closure and the hosts of a module. */
module IncludeGraph {
  import opened Ordering
  import opened Text

  datatype GraphEntity = GraphEntity(
    name: string,
    file: string,
    reExportedFrom: Option<string>,
    includes: seq<string>,
    extendNames: seq<string>,
    delegatesTo: seq<string>
  )

  function KeyOf(e: GraphEntity): string { e.file + ":" + e.name }

  // -------------------------------------------------------------- origin chase

  /** Where a chain of re-exports ends: at a declaration, at an unknown key, or where it would repeat. */
  function OriginFrom(byKey: map<string, GraphEntity>, current: GraphEntity, seen: set<string>): GraphEntity
    decreases byKey.Keys - seen
  {
    if current.reExportedFrom.None? || current.reExportedFrom.value in seen ||
      current.reExportedFrom.value !in byKey then current
    else OriginFrom(byKey, byKey[current.reExportedFrom.value], seen + {current.reExportedFrom.value})
  }

  function Origin(byKey: map<string, GraphEntity>, e: GraphEntity): GraphEntity { OriginFrom(byKey, e, {}) }

  method ChaseOrigin(byKey: map<string, GraphEntity>, e: GraphEntity) returns (origin: GraphEntity)
    ensures origin == Origin(byKey, e)
  {
    var seen: set<string> := {};
    origin := e;
    while origin.reExportedFrom.Some? && origin.reExportedFrom.value !in seen
      invariant OriginFrom(byKey, origin, seen) == Origin(byKey, e)
      decreases byKey.Keys - seen
    {
      var key := origin.reExportedFrom.value;
      if key !in byKey {
        break;
      }
      seen := seen + {key};
      origin := byKey[key];
    }
  }

  /** A chain of re-exports, each entity naming the key of the next, that ends at a declaration. */
  ghost predicate BarrelChain(byKey: map<string, GraphEntity>, p: seq<GraphEntity>) {
    && p != [] && p[|p| - 1].reExportedFrom == None
    && forall i :: 0 <= i < |p| - 1 ==> ExportsNext(byKey, p[i], p[i + 1])
  }

  ghost predicate ExportsNext(byKey: map<string, GraphEntity>, e: GraphEntity, next: GraphEntity) {
    e.reExportedFrom.Some? && e.reExportedFrom.value in byKey && byKey[e.reExportedFrom.value] == next
  }

  /** A chain that ends at a declaration never names a key twice, so its chase is never cut short. */
  lemma {:induction false} ChainChased(byKey: map<string, GraphEntity>, p: seq<GraphEntity>, i: nat, seen: set<string>)
    requires BarrelChain(byKey, p) && i < |p|
    requires forall k :: k in seen ==> exists j :: 0 <= j < i && p[j].reExportedFrom == Some(k)
    ensures OriginFrom(byKey, p[i], seen) == p[|p| - 1]
    decreases |p| - i
  {
    if i < |p| - 1 {
      assert ExportsNext(byKey, p[i], p[i + 1]);
      var key := p[i].reExportedFrom.value;
      if key in seen {
        var j :| 0 <= j < i && p[j].reExportedFrom == Some(key);
        NoRepeat(byKey, p, j, i);
        assert false;
      }
      ChainChased(byKey, p, i + 1, seen + {key});
    }
  }

  /** Two positions of a chain naming one key would repeat for ever, and a chain that ends does not. */
  lemma {:induction false} NoRepeat(byKey: map<string, GraphEntity>, p: seq<GraphEntity>, j: nat, i: nat)
    requires BarrelChain(byKey, p) && j < i < |p|
    ensures p[i].reExportedFrom.Some? ==> p[j].reExportedFrom != p[i].reExportedFrom
    decreases |p| - i
  {
    if p[i].reExportedFrom.Some? && p[j].reExportedFrom == p[i].reExportedFrom {
      assert ExportsNext(byKey, p[j + 1], p[j + 1 + 1]);
      assert ExportsNext(byKey, p[j], p[j + 1]) && ExportsNext(byKey, p[i], p[i + 1]);
      NoRepeat(byKey, p, j + 1, i + 1);
    }
  }

  /** Every barrel along a chain of re-exports collapses onto the one declaration at its end. */
  lemma BarrelsShareOrigin(byKey: map<string, GraphEntity>, p: seq<GraphEntity>, i: nat)
    requires BarrelChain(byKey, p) && i < |p|
    ensures Origin(byKey, p[i]) == p[|p| - 1]
  {
    var q := p[i..];
    forall k | 0 <= k < |q| - 1 ensures ExportsNext(byKey, q[k], q[k + 1]) {
      assert ExportsNext(byKey, p[i + k], p[i + k + 1]);
    }
    ChainChased(byKey, q, 0, {});
  }

  /** The last entity names no key, a key nothing has, or a key one before it named. */
  predicate Stops(byKey: map<string, GraphEntity>, p: seq<GraphEntity>)
    requires p != []
  {
    var last := p[|p| - 1].reExportedFrom;
    last.None? || last.value !in byKey || exists i :: 0 <= i < |p| - 1 && p[i].reExportedFrom == last
  }

  /** The chase from any entity follows recorded re-exports, each key once, and stops at a declaration, at a key nothing
      has, or at a key it has followed. */
  lemma {:induction false} ChasePath(byKey: map<string, GraphEntity>, current: GraphEntity, seen: set<string>)
      returns (p: seq<GraphEntity>)
    ensures p != [] && p[0] == current && p[|p| - 1] == OriginFrom(byKey, current, seen)
    ensures forall i :: 0 <= i < |p| - 1 ==> ExportsNext(byKey, p[i], p[i + 1]) && p[i].reExportedFrom.value !in seen
    ensures forall i, j :: 0 <= i < j < |p| - 1 ==> p[i].reExportedFrom != p[j].reExportedFrom
    ensures Stops(byKey, p) || (p[|p| - 1].reExportedFrom.Some? && p[|p| - 1].reExportedFrom.value in seen)
    decreases byKey.Keys - seen
  {
    if current.reExportedFrom.None? || current.reExportedFrom.value in seen ||
      current.reExportedFrom.value !in byKey {
      p := [current];
    } else {
      var key := current.reExportedFrom.value;
      var rest := ChasePath(byKey, byKey[key], seen + {key});
      p := [current] + rest;
      assert forall i :: 0 < i < |p| ==> p[i] == rest[i - 1];
      var last := p[|p| - 1].reExportedFrom;
      if last.Some? && last.value in byKey && last.value !in seen {
        if last.value == key {
          assert p[0].reExportedFrom == last;
        } else {
          var i :| 0 <= i < |rest| - 1 && rest[i].reExportedFrom == last;
          assert p[i + 1].reExportedFrom == last;
        }
      }
    }
  }

  /** Where the chase from an entity ends, by the entities it passes. */
  lemma OriginPath(byKey: map<string, GraphEntity>, e: GraphEntity) returns (p: seq<GraphEntity>)
    ensures p != [] && p[0] == e && p[|p| - 1] == Origin(byKey, e)
    ensures forall i :: 0 <= i < |p| - 1 ==>
              && p[i].reExportedFrom.Some? && p[i].reExportedFrom.value in byKey
              && byKey[p[i].reExportedFrom.value] == p[i + 1]
    ensures forall i, j :: 0 <= i < j < |p| - 1 ==> p[i].reExportedFrom != p[j].reExportedFrom
    ensures Stops(byKey, p)
  {
    p := ChasePath(byKey, e, {});
    forall i | 0 <= i < |p| - 1
      ensures p[i].reExportedFrom.Some? && p[i].reExportedFrom.value in byKey
      ensures byKey[p[i].reExportedFrom.value] == p[i + 1]
    {
      assert ExportsNext(byKey, p[i], p[i + 1]);
    }
  }

  // -------------------------------------------------------------------- indexes

  /** The package's entities by declaring file and, collapsed onto their origins, by name. */
  datatype Index = Index(byFile: map<string, seq<GraphEntity>>, byName: map<string, seq<GraphEntity>>)

  function At(m: map<string, seq<GraphEntity>>, key: string): seq<GraphEntity> { if key in m then m[key] else [] }

  function Filed(entities: seq<GraphEntity>): seq<GraphEntity> {
    if entities == [] then []
    else
      Filed(entities[..|entities| - 1]) +
      if entities[|entities| - 1].file == "" then [] else [entities[|entities| - 1]]
  }

  /** `new Map` by key: the last entity of a key stands. */
  function ByKey(all: seq<GraphEntity>): map<string, GraphEntity> {
    if all == [] then map[] else ByKey(all[..|all| - 1])[KeyOf(all[|all| - 1]) := all[|all| - 1]]
  }

  /** `targets` holds, one per key, exactly the origins of the entities of this name. */
  ghost predicate OriginsOf(byKey: map<string, GraphEntity>, all: seq<GraphEntity>, name: string,
                            targets: seq<GraphEntity>) {
    && (forall i, j :: 0 <= i < j < |targets| ==> KeyOf(targets[i]) != KeyOf(targets[j]))
    && (forall t :: t in targets ==> IsOrigin(byKey, all, name, t))
    && (forall e :: e in all && e.name == name ==> Represented(targets, Origin(byKey, e)))
  }

  ghost predicate IsOrigin(byKey: map<string, GraphEntity>, all: seq<GraphEntity>, name: string, t: GraphEntity) {
    exists e :: e in all && e.name == name && Origin(byKey, e) == t
  }

  predicate Represented(targets: seq<GraphEntity>, origin: GraphEntity) {
    exists t :: t in targets && KeyOf(t) == KeyOf(origin)
  }

  /** The entities of one file, in the order given. */
  function InFile(all: seq<GraphEntity>, file: string): seq<GraphEntity> {
    if all == [] then []
    else InFile(all[..|all| - 1], file) + if all[|all| - 1].file == file then [all[|all| - 1]] else []
  }

  /** The origins of a name's entities, each where its key first comes up. */
  function Targets(byKey: map<string, GraphEntity>, all: seq<GraphEntity>, name: string): seq<GraphEntity> {
    if all == [] then []
    else
      var known, e := Targets(byKey, all[..|all| - 1], name), all[|all| - 1];
      known + if e.name == name && !Represented(known, Origin(byKey, e)) then [Origin(byKey, e)] else []
  }

  ghost predicate Indexed(byKey: map<string, GraphEntity>, all: seq<GraphEntity>, index: Index) {
    && (forall file :: At(index.byFile, file) == InFile(all, file))
    && (forall name :: At(index.byName, name) == Targets(byKey, all, name))
  }

  // -------------------------------------------- what the indexes hold, by position

  /** The entity is the first of the name, among those with a file, whose origin has its key. */
  ghost predicate FirstOfKey(byKey: map<string, GraphEntity>, entities: seq<GraphEntity>, name: string, i: nat)
    requires i < |entities|
  {
    var origins := Origins(byKey, entities);
    && entities[i].file != "" && entities[i].name == name
    && forall j :: 0 <= j < i && entities[j].file != "" && entities[j].name == name ==>
         origins[j].file + ":" + origins[j].name != origins[i].file + ":" + origins[i].name
  }

  function Origins(byKey: map<string, GraphEntity>, entities: seq<GraphEntity>): (origins: seq<GraphEntity>)
    ensures |origins| == |entities| && forall i :: 0 <= i < |entities| ==> origins[i] == Origin(byKey, entities[i])
  {
    seq(|entities|, i requires 0 <= i < |entities| => Origin(byKey, entities[i]))
  }

  lemma FiledPush(entities: seq<GraphEntity>, e: GraphEntity)
    ensures Filed(entities + [e]) == Filed(entities) + if e.file == "" then [] else [e]
  {
    assert (entities + [e])[..|entities + [e]| - 1] == entities;
  }

  lemma {:induction false} FiledHolds(entities: seq<GraphEntity>)
    ensures forall e :: e in Filed(entities) <==> e in entities && e.file != ""
  {
    if entities != [] {
      FiledHolds(entities[..|entities| - 1]);
      assert entities == entities[..|entities| - 1] + [entities[|entities| - 1]];
    }
  }

  /** The keys origins are chased by are those of the entities that have a file. */
  lemma {:induction false} KeyHeld(entities: seq<GraphEntity>, key: string)
    ensures key in ByKey(Filed(entities)) <==>
              exists i | 0 <= i < |entities| && entities[i].file != "" ::
                key == entities[i].file + ":" + entities[i].name
  {
    hide Filed, ByKey;
    ByKeyNothing();
    if entities != [] {
      var init, e := entities[..|entities| - 1], entities[|entities| - 1];
      assert entities == init + [e];
      KeyHeld(init, key);
      ByKeyMore(init, e);
      if e.file != "" && key == e.file + ":" + e.name { assert entities[|init|] == e; }
      assert forall i :: 0 <= i < |init| ==> entities[i] == init[i];
    }
  }

  /** A key stands for the last such entity that has it. */
  lemma {:induction false} LastHeld(entities: seq<GraphEntity>, i: nat)
    requires i < |entities| && entities[i].file != ""
    requires forall j :: i < j < |entities| && entities[j].file != "" ==>
               entities[i].file + ":" + entities[i].name != entities[j].file + ":" + entities[j].name
    ensures var key := entities[i].file + ":" + entities[i].name;
            key in ByKey(Filed(entities)) && ByKey(Filed(entities))[key] == entities[i]
  {
    hide Filed, ByKey;
    var init, e := entities[..|entities| - 1], entities[|entities| - 1];
    assert entities == init + [e];
    ByKeyMore(init, e);
    if i < |init| {
      assert forall j :: 0 <= j < |init| ==> entities[j] == init[j];
      LastHeld(init, i);
    }
  }

  lemma ByKeyMore(entities: seq<GraphEntity>, e: GraphEntity)
    ensures ByKey(Filed(entities + [e])) ==
            if e.file == "" then ByKey(Filed(entities)) else ByKey(Filed(entities))[e.file + ":" + e.name := e]
  {
    hide Filed, ByKey;
    FiledPush(entities, e);
    ByKeyPush(Filed(entities), e);
    assert Filed(entities) + [] == Filed(entities);
  }

  lemma ByKeyNothing()
    ensures Filed([]) == [] && ByKey([]) == map[]
  {
  }

  lemma ByKeyPush(all: seq<GraphEntity>, e: GraphEntity)
    ensures ByKey(all + [e]) == ByKey(all)[e.file + ":" + e.name := e]
  {
    assert (all + [e])[..|all + [e]| - 1] == all;
  }

  lemma {:induction false} InFilePicks(entities: seq<GraphEntity>, file: string) returns (at: seq<nat>)
    ensures Picked(entities, at, InFile(Filed(entities), file))
    ensures forall i :: 0 <= i < |entities| ==> (i in at <==> entities[i].file == file && file != "")
  {
    hide Filed, InFile, Picked;
    if entities == [] {
      at := [];
      InFileNothing(file);
      NothingPicked(entities);
    } else {
      var init, e := entities[..|entities| - 1], entities[|entities| - 1];
      assert entities == init + [e];
      var before := InFilePicks(init, file);
      FiledPush(init, e);
      InFilePush(Filed(init), e, file);
      var keep := e.file == file && file != "";
      at := before + if keep then [|init|] else [];
      PickedPush(init, e, keep, before, InFile(Filed(init), file));
      PickedWithin(init, before, InFile(Filed(init), file));
      assert InFile(Filed(init), file) + [] == InFile(Filed(init), file) && Filed(init) + [] == Filed(init);
    }
  }

  lemma InFileNothing(file: string)
    ensures InFile(Filed([]), file) == []
  {
  }

  /** A key is among a name's targets exactly when it is that of the origin of one of the name's entities. */
  lemma RepresentedIff(byKey: map<string, GraphEntity>, all: seq<GraphEntity>, name: string, o: GraphEntity)
    ensures Represented(Targets(byKey, all, name), o) <==>
      exists e :: e in all && e.name == name && KeyOf(Origin(byKey, e)) == KeyOf(o)
  {
    hide Targets, Origin, KeyOf;
    TargetsAreOrigins(byKey, all, name);
    var targets := Targets(byKey, all, name);
    if Represented(targets, o) {
      var t :| t in targets && KeyOf(t) == KeyOf(o);
      assert IsOrigin(byKey, all, name, t);
    }
    if e :| e in all && e.name == name && KeyOf(Origin(byKey, e)) == KeyOf(o) {
      assert Represented(targets, Origin(byKey, e));
    }
  }

  lemma {:induction false} TargetPicks(byKey: map<string, GraphEntity>, entities: seq<GraphEntity>, name: string)
      returns (at: seq<nat>)
    ensures Picked(Origins(byKey, entities), at, Targets(byKey, Filed(entities), name))
    ensures forall i :: 0 <= i < |entities| ==> (i in at <==> FirstOfKey(byKey, entities, name, i))
  {
    hide Filed, Targets, Picked, Origin, FirstOfKey, Represented;
    if entities == [] {
      at := [];
      NoTargets(byKey, name);
      NothingPicked(Origins(byKey, entities));
    } else {
      var init, e := entities[..|entities| - 1], entities[|entities| - 1];
      assert entities == init + [e];
      var before := TargetPicks(byKey, init, name);
      var targets := Targets(byKey, Filed(init), name);
      FiledPush(init, e);
      TargetsPush(byKey, Filed(init), e, name);
      FirstIsNew(byKey, init, e, name);
      var keep := FirstOfKey(byKey, entities, name, |init|);
      at := before + if keep then [|init|] else [];
      PickedPush(Origins(byKey, init), Origin(byKey, e), keep, before, targets);
      PickedWithin(Origins(byKey, init), before, targets);
      assert Origins(byKey, entities) == Origins(byKey, init) + [Origin(byKey, e)];
      assert targets + [] == targets && Filed(init) + [] == Filed(init);
    }
  }

  lemma NoTargets(byKey: map<string, GraphEntity>, name: string)
    ensures Targets(byKey, Filed([]), name) == []
  {
  }

  lemma FirstIsNew(byKey: map<string, GraphEntity>, init: seq<GraphEntity>, e: GraphEntity, name: string)
    ensures FirstOfKey(byKey, init + [e], name, |init|) <==>
      e.file != "" && e.name == name && !Represented(Targets(byKey, Filed(init), name), Origin(byKey, e))
    ensures forall i :: 0 <= i < |init| ==>
              (FirstOfKey(byKey, init + [e], name, i) <==> FirstOfKey(byKey, init, name, i))
  {
    hide Filed, Targets, Origin, Represented;
    FiledHolds(init);
    RepresentedIff(byKey, Filed(init), name, Origin(byKey, e));
    var more, less, all := Origins(byKey, init + [e]), Origins(byKey, init), init + [e];
    assert forall j :: 0 <= j < |init| ==> more[j] == less[j] && all[j] == init[j];
    assert all[|init|] == e && more[|init|] == Origin(byKey, e);
    forall d | d in init && d.file != "" && d.name == name && KeyOf(Origin(byKey, d)) == KeyOf(Origin(byKey, e))
      ensures !FirstOfKey(byKey, all, name, |init|)
    {
      var j :| 0 <= j < |init| && init[j] == d;
      assert more[j] == Origin(byKey, d);
    }
    forall i | 0 <= i < |init| ensures FirstOfKey(byKey, all, name, i) <==> FirstOfKey(byKey, init, name, i) {}
  }

  /** A file's list is its entities in the order given; entities without a file are in none. */
  lemma FileLists(entities: seq<GraphEntity>, index: Index, file: string) returns (at: seq<nat>)
    requires Indexed(ByKey(Filed(entities)), Filed(entities), index)
    ensures Picked(entities, at, if file in index.byFile then index.byFile[file] else [])
    ensures forall i :: 0 <= i < |entities| ==> (i in at <==> entities[i].file == file && file != "")
  {
    hide ByKey, Filed, Targets, InFile, Picked, Origin;
    assert At(index.byFile, file) == InFile(Filed(entities), file);
    at := InFilePicks(entities, file);
  }

  /** A name's list is the origins of its entities that have a file, each where its key first comes up. */
  lemma NameLists(entities: seq<GraphEntity>, index: Index, name: string) returns (at: seq<nat>)
    requires Indexed(ByKey(Filed(entities)), Filed(entities), index)
    ensures var origins := Origins(ByKey(Filed(entities)), entities);
            && Picked(origins, at, if name in index.byName then index.byName[name] else [])
            && forall i :: 0 <= i < |entities| ==>
                 (i in at <==>
                    && entities[i].file != "" && entities[i].name == name
                    && forall j :: 0 <= j < i && entities[j].file != "" && entities[j].name == name ==>
                         origins[j].file + ":" + origins[j].name != origins[i].file + ":" + origins[i].name)
  {
    var byKey := ByKey(Filed(entities));
    hide ByKey, Filed, Targets, InFile, Picked, Origin, Origins;
    assert At(index.byName, name) == Targets(byKey, Filed(entities), name);
    at := TargetPicks(byKey, entities, name);
  }

  method BuildIncludeGraph(entities: seq<GraphEntity>) returns (index: Index)
    ensures Indexed(ByKey(Filed(entities)), Filed(entities), index)
    ensures forall name :: OriginsOf(ByKey(Filed(entities)), Filed(entities), name, At(index.byName, name))
  {
    hide KeyOf, Origin, OriginsOf, Represented, ByKey, Filed, Indexed;
    var all := Filed(entities);
    var byKey := ByKey(all);
    index := Index(map[], map[]);
    NothingIndexed(byKey, all[..0]);
    for i := 0 to |all|
      invariant Indexed(byKey, all[..i], index)
    {
      var e := all[i];
      assert all[..i + 1] == all[..i] + [e];
      var target := ChaseOrigin(byKey, e);
      IndexOneMore(byKey, all[..i], index, e);
      var known := At(index.byName, e.name);
      index := Index(index.byFile[e.file := At(index.byFile, e.file) + [e]],
                     if Represented(known, target) then index.byName else index.byName[e.name := known + [target]]);
    }
    assert all[..|all|] == all;
    forall name ensures OriginsOf(byKey, all, name, At(index.byName, name)) {
      TargetsAreOrigins(byKey, all, name);
      IndexedAt(byKey, all, index, name);
    }
  }

  lemma NothingIndexed(byKey: map<string, GraphEntity>, none: seq<GraphEntity>)
    requires none == []
    ensures Indexed(byKey, none, Index(map[], map[]))
  {
  }

  lemma IndexedAt(byKey: map<string, GraphEntity>, all: seq<GraphEntity>, index: Index, name: string)
    requires Indexed(byKey, all, index)
    ensures At(index.byName, name) == Targets(byKey, all, name)
  {
  }

  lemma IndexOneMore(byKey: map<string, GraphEntity>, all: seq<GraphEntity>, index: Index, e: GraphEntity)
    requires Indexed(byKey, all, index)
    ensures var known, origin := At(index.byName, e.name), Origin(byKey, e);
            Indexed(byKey, all + [e],
                    Index(index.byFile[e.file := At(index.byFile, e.file) + [e]],
                          if Represented(known, origin) then index.byName
                            else index.byName[e.name := known + [origin]]))
  {
    hide KeyOf, Origin, Represented, InFile, Targets;
    var known, origin := At(index.byName, e.name), Origin(byKey, e);
    var byFile := index.byFile[e.file := At(index.byFile, e.file) + [e]];
    var byName := if Represented(known, origin) then index.byName else index.byName[e.name := known + [origin]];
    forall file ensures At(byFile, file) == InFile(all + [e], file) { InFilePush(all, e, file); }
    forall name ensures At(byName, name) == Targets(byKey, all + [e], name) { TargetsPush(byKey, all, e, name); }
  }

  lemma InFilePush(all: seq<GraphEntity>, e: GraphEntity, file: string)
    ensures InFile(all + [e], file) == if e.file == file then InFile(all, file) + [e] else InFile(all, file)
  {
    assert (all + [e])[..|all + [e]| - 1] == all;
  }

  lemma TargetsPush(byKey: map<string, GraphEntity>, all: seq<GraphEntity>, e: GraphEntity, name: string)
    ensures Targets(byKey, all + [e], name) ==
            if e.name == name && !Represented(Targets(byKey, all, name), Origin(byKey, e))
            then Targets(byKey, all, name) + [Origin(byKey, e)] else Targets(byKey, all, name)
  {
    hide Represented, Origin;
    assert (all + [e])[..|all + [e]| - 1] == all;
  }

  /** The targets of a name are, one to a key, exactly the origins of its entities. */
  lemma {:induction false} TargetsAreOrigins(byKey: map<string, GraphEntity>, all: seq<GraphEntity>, name: string)
    ensures OriginsOf(byKey, all, name, Targets(byKey, all, name))
  {
    hide KeyOf, Origin, OriginsOf, Represented;
    if all == [] {
      NoOrigins(byKey, all, name, Targets(byKey, all, name));
    } else {
      var init, e := all[..|all| - 1], all[|all| - 1];
      TargetsAreOrigins(byKey, init, name);
      assert all == init + [e];
      var known := Targets(byKey, init, name);
      if e.name != name {
        OtherName(byKey, init, e, name, known);
      } else if Represented(known, Origin(byKey, e)) {
        KnownOrigin(byKey, init, e, known);
      } else {
        NewOrigin(byKey, init, e, known);
      }
      assert known + [] == known;
    }
  }

  lemma NoOrigins(byKey: map<string, GraphEntity>, all: seq<GraphEntity>, name: string, targets: seq<GraphEntity>)
    requires all == [] && targets == []
    ensures OriginsOf(byKey, all, name, targets)
  {
  }

  lemma OtherName(byKey: map<string, GraphEntity>, all: seq<GraphEntity>, e: GraphEntity, name: string,
                  targets: seq<GraphEntity>)
    requires OriginsOf(byKey, all, name, targets) && e.name != name
    ensures OriginsOf(byKey, all + [e], name, targets)
  {
    hide KeyOf, Origin, Represented;
    assert forall x :: x in all + [e] <==> x in all || x == e;
  }

  lemma KnownOrigin(byKey: map<string, GraphEntity>, all: seq<GraphEntity>, e: GraphEntity, targets: seq<GraphEntity>)
    requires OriginsOf(byKey, all, e.name, targets) && Represented(targets, Origin(byKey, e))
    ensures OriginsOf(byKey, all + [e], e.name, targets)
  {
    hide KeyOf, Origin, Represented;
    assert forall x :: x in all + [e] <==> x in all || x == e;
  }

  lemma NewOrigin(byKey: map<string, GraphEntity>, all: seq<GraphEntity>, e: GraphEntity, targets: seq<GraphEntity>)
    requires OriginsOf(byKey, all, e.name, targets) && !Represented(targets, Origin(byKey, e))
    ensures OriginsOf(byKey, all + [e], e.name, targets + [Origin(byKey, e)])
  {
    hide KeyOf, Origin;
    var origin := Origin(byKey, e);
    var more := targets + [origin];
    assert forall x :: x in all + [e] <==> x in all || x == e;
    assert forall t :: t in more <==> t in targets || t == origin;
    forall i, j | 0 <= i < j < |more| ensures KeyOf(more[i]) != KeyOf(more[j]) {
      if j == |targets| { assert more[i] in targets; }
    }
    forall d | d in all + [e] && d.name == e.name ensures Represented(more, Origin(byKey, d)) {
      if d in all {
        assert Represented(targets, Origin(byKey, d));
        var t :| t in targets && KeyOf(t) == KeyOf(Origin(byKey, d));
        assert t in more;
      } else {
        assert origin in more;
      }
    }
  }

  /** A name resolves to one entity exactly when all its declarations and re-exports share one origin. */
  lemma UniqueIffOneOrigin(byKey: map<string, GraphEntity>, all: seq<GraphEntity>, name: string,
                           targets: seq<GraphEntity>)
    requires OriginsOf(byKey, all, name, targets)
    ensures |targets| == 1 <==>
      && (exists e :: e in all && e.name == name)
      && (forall d, e :: d in all && e in all && d.name == name && e.name == name ==>
            KeyOf(Origin(byKey, d)) == KeyOf(Origin(byKey, e)))
  {
    hide KeyOf, Origin;
    if |targets| == 1 {
      assert IsOrigin(byKey, all, name, targets[0]) by { assert targets[0] in targets; }
      forall e | e in all && e.name == name ensures KeyOf(Origin(byKey, e)) == KeyOf(targets[0]) {
        assert Represented(targets, Origin(byKey, e));
        var t :| t in targets && KeyOf(t) == KeyOf(Origin(byKey, e));
      }
    } else if |targets| > 1 {
      assert IsOrigin(byKey, all, name, targets[0]) && IsOrigin(byKey, all, name, targets[1]) by {
        assert targets[0] in targets && targets[1] in targets;
      }
      var d :| d in all && d.name == name && Origin(byKey, d) == targets[0];
      var e :| e in all && e.name == name && Origin(byKey, e) == targets[1];
      assert KeyOf(targets[0]) != KeyOf(targets[1]);
    }
  }

  // ------------------------------------------------------------------- closure

  function EdgesOf(e: GraphEntity, delegation: bool): seq<string> {
    e.includes + e.extendNames + if delegation then e.delegatesTo else []
  }

  /** The name stands for exactly this entity; an ambiguous or unknown name resolves to nothing. */
  predicate Resolves(g: Index, name: string, target: GraphEntity) { At(g.byName, name) == [target] }

  /** Edge names, each recorded on the entity the one before it resolves to, the first on one of `roots`. */
  ghost predicate NameChain(g: Index, roots: seq<GraphEntity>, delegation: bool, p: seq<string>) {
    && p != [] && (exists e :: e in roots && p[0] in EdgesOf(e, delegation))
    && forall i :: 0 <= i < |p| - 1 ==> Follows(g, delegation, p[i], p[i + 1])
  }

  ghost predicate Follows(g: Index, delegation: bool, name: string, next: string) {
    exists t :: Resolves(g, name, t) && next in EdgesOf(t, delegation)
  }

  ghost predicate Named(g: Index, roots: seq<GraphEntity>, delegation: bool, name: string) {
    exists p :: NameChain(g, roots, delegation, p) && p[|p| - 1] == name
  }

  lemma FollowsIff(g: Index, delegation: bool, name: string, next: string)
    ensures Follows(g, delegation, name, next) <==>
      && name in g.byName && |g.byName[name]| == 1
      && (|| next in g.byName[name][0].includes || next in g.byName[name][0].extendNames
          || (delegation && next in g.byName[name][0].delegatesTo))
  {
    if name in g.byName && |g.byName[name]| == 1 {
      assert g.byName[name] == [g.byName[name][0]];
      assert Resolves(g, name, g.byName[name][0]);
    }
  }

  /** What a chain is: some root includes, extends or, where asked, delegates to its first name, and each name stands
      for one entity that includes, extends or delegates to the next. */
  lemma ChainIff(g: Index, roots: seq<GraphEntity>, delegation: bool, p: seq<string>)
    requires p != []
    ensures NameChain(g, roots, delegation, p) <==>
      && (exists e :: e in roots
            && (p[0] in e.includes || p[0] in e.extendNames || (delegation && p[0] in e.delegatesTo)))
      && forall i :: 0 <= i < |p| - 1 ==>
           && p[i] in g.byName && |g.byName[p[i]]| == 1
           && (|| p[i + 1] in g.byName[p[i]][0].includes || p[i + 1] in g.byName[p[i]][0].extendNames
               || (delegation && p[i + 1] in g.byName[p[i]][0].delegatesTo))
  {
    assert forall e :: p[0] in EdgesOf(e, delegation) <==>
      p[0] in e.includes || p[0] in e.extendNames || (delegation && p[0] in e.delegatesTo);
    hide Follows, EdgesOf;
    forall i | 0 <= i < |p| - 1
      ensures Follows(g, delegation, p[i], p[i + 1]) <==>
        && p[i] in g.byName && |g.byName[p[i]]| == 1
        && (|| p[i + 1] in g.byName[p[i]][0].includes || p[i + 1] in g.byName[p[i]][0].extendNames
            || (delegation && p[i + 1] in g.byName[p[i]][0].delegatesTo))
    {
      FollowsIff(g, delegation, p[i], p[i + 1]);
    }
    if NameChain(g, roots, delegation, p) {
      var e :| e in roots && p[0] in EdgesOf(e, delegation);
      assert p[0] in e.includes || p[0] in e.extendNames || (delegation && p[0] in e.delegatesTo);
      forall i | 0 <= i < |p| - 1
        ensures p[i] in g.byName && |g.byName[p[i]]| == 1
        ensures || p[i + 1] in g.byName[p[i]][0].includes || p[i + 1] in g.byName[p[i]][0].extendNames
                || (delegation && p[i + 1] in g.byName[p[i]][0].delegatesTo)
      {
        assert Follows(g, delegation, p[i], p[i + 1]);
      }
    } else if e :| e in roots && p[0] in EdgesOf(e, delegation) {
      var i :| 0 <= i < |p| - 1 && !Follows(g, delegation, p[i], p[i + 1]);
    }
  }

  lemma NamedFirst(g: Index, roots: seq<GraphEntity>, delegation: bool, e: GraphEntity, name: string)
    requires e in roots && name in EdgesOf(e, delegation)
    ensures Named(g, roots, delegation, name)
  {
    assert NameChain(g, roots, delegation, [name]);
  }

  lemma NamedNext(g: Index, roots: seq<GraphEntity>, delegation: bool, name: string, next: string)
    requires Named(g, roots, delegation, name) && Follows(g, delegation, name, next)
    ensures Named(g, roots, delegation, next)
  {
    var p :| NameChain(g, roots, delegation, p) && p[|p| - 1] == name;
    assert NameChain(g, roots, delegation, p + [next]);
  }

  /** An entity the walk has come to: a root, or what a seen name resolves to. */
  ghost predicate Come(g: Index, roots: seq<GraphEntity>, seen: set<string>, e: GraphEntity) {
    e in roots || exists name :: name in seen && Resolves(g, name, e)
  }

  /** The worklist invariant: seen names are named by chains, queued entities have been come to, and an
      entity come to is queued, has all its edges seen, or is the one in hand with its first `n` edges seen. */
  ghost predicate Progress(g: Index, roots: seq<GraphEntity>, delegation: bool, seen: set<string>,
                           queue: seq<GraphEntity>, inHand: Option<GraphEntity>, n: nat) {
    && (forall name :: name in seen ==> Named(g, roots, delegation, name))
    && (forall e :: e in queue ==> Come(g, roots, seen, e))
    && (inHand.Some? ==> Come(g, roots, seen, inHand.value) && n <= |EdgesOf(inHand.value, delegation)|)
    && (forall e :: Come(g, roots, seen, e) ==> e in queue || Settled(e, delegation, seen, inHand, n))
  }

  ghost predicate Settled(e: GraphEntity, delegation: bool, seen: set<string>, inHand: Option<GraphEntity>, n: nat) {
    var edges := EdgesOf(e, delegation);
    forall i :: 0 <= i < |edges| && !(inHand == Some(e) && i >= n) ==> edges[i] in seen
  }

  /** With the queue empty, the seen names are exactly those some chain names. */
  lemma Exhausted(g: Index, roots: seq<GraphEntity>, delegation: bool, seen: set<string>)
    requires Progress(g, roots, delegation, seen, [], None, 0)
    ensures forall name :: name in seen <==> Named(g, roots, delegation, name)
  {
    hide Follows, Resolves, EdgesOf;
    forall name | Named(g, roots, delegation, name) ensures name in seen {
      var p :| NameChain(g, roots, delegation, p) && p[|p| - 1] == name;
      ChainSeen(g, roots, delegation, seen, p, |p| - 1);
    }
  }

  lemma {:induction false} ChainSeen(g: Index, roots: seq<GraphEntity>, delegation: bool, seen: set<string>,
                                     p: seq<string>, i: nat)
    requires Progress(g, roots, delegation, seen, [], None, 0) && NameChain(g, roots, delegation, p) && i < |p|
    ensures p[i] in seen
  {
    hide Resolves, EdgesOf, Named;
    if i == 0 {
      var e :| e in roots && p[0] in EdgesOf(e, delegation);
      assert Come(g, roots, seen, e);
      assert Settled(e, delegation, seen, None, 0);
    } else {
      ChainSeen(g, roots, delegation, seen, p, i - 1);
      assert Follows(g, delegation, p[i - 1], p[i - 1 + 1]);
      var t :| Resolves(g, p[i - 1], t) && p[i] in EdgesOf(t, delegation);
      assert Come(g, roots, seen, t);
      assert Settled(t, delegation, seen, None, 0);
    }
  }

  lemma Started(g: Index, roots: seq<GraphEntity>, delegation: bool)
    ensures Progress(g, roots, delegation, {}, roots, None, 0)
  {
  }

  lemma Popped(g: Index, roots: seq<GraphEntity>, delegation: bool, seen: set<string>, queue: seq<GraphEntity>)
    requires queue != [] && Progress(g, roots, delegation, seen, queue, None, 0)
    ensures Progress(g, roots, delegation, seen, queue[..|queue| - 1], Some(queue[|queue| - 1]), 0)
  {
    hide Come, EdgesOf, Named;
    var rest, last := queue[..|queue| - 1], queue[|queue| - 1];
    assert last in queue;
    forall e | Come(g, roots, seen, e) ensures e in rest || Settled(e, delegation, seen, Some(last), 0) {
      if e != last && e in queue {
        var i :| 0 <= i < |queue| && queue[i] == e;
        assert rest[i] == e;
      }
    }
  }

  lemma EdgeSeenBefore(g: Index, roots: seq<GraphEntity>, delegation: bool, seen: set<string>, queue: seq<GraphEntity>,
                       inHand: GraphEntity, n: nat)
    requires n < |EdgesOf(inHand, delegation)| && EdgesOf(inHand, delegation)[n] in seen
    requires Progress(g, roots, delegation, seen, queue, Some(inHand), n)
    ensures Progress(g, roots, delegation, seen, queue, Some(inHand), n + 1)
  {
    hide Come, EdgesOf, Named;
  }

  lemma PutDown(g: Index, roots: seq<GraphEntity>, delegation: bool, seen: set<string>, queue: seq<GraphEntity>,
                inHand: GraphEntity)
    requires Progress(g, roots, delegation, seen, queue, Some(inHand), |EdgesOf(inHand, delegation)|)
    ensures Progress(g, roots, delegation, seen, queue, None, 0)
  {
    hide Come, EdgesOf, Named;
  }

  /** A newly seen edge name: its target, if it has exactly one, joins the queue. */
  lemma EdgeSeen(g: Index, roots: seq<GraphEntity>, delegation: bool, seen: set<string>, queue: seq<GraphEntity>,
                 inHand: GraphEntity, n: nat)
    requires n < |EdgesOf(inHand, delegation)|
    requires Progress(g, roots, delegation, seen, queue, Some(inHand), n)
    ensures var name := EdgesOf(inHand, delegation)[n];
            && Named(g, roots, delegation, name)
            && Progress(g, roots, delegation, seen + {name}, queue
              + (if |At(g.byName, name)| == 1 then At(g.byName, name) else []),
                        Some(inHand), n + 1)
  {
    hide EdgesOf, Named;
    var name := EdgesOf(inHand, delegation)[n];
    EdgeIsNamed(g, roots, delegation, seen, inHand, n);
    var targets := At(g.byName, name);
    var more := queue + if |targets| == 1 then targets else [];
    assert |targets| == 1 ==> targets == [targets[0]];
    forall e ensures Come(g, roots, seen + {name}, e) <==> Come(g, roots, seen, e) || Resolves(g, name, e) {}
    forall e | Come(g, roots, seen + {name}, e)
      ensures e in more || Settled(e, delegation, seen + {name}, Some(inHand), n + 1) {
      if Come(g, roots, seen, e) && e !in queue {
        assert Settled(e, delegation, seen, Some(inHand), n);
      }
    }
  }

  lemma EdgeIsNamed(g: Index, roots: seq<GraphEntity>, delegation: bool, seen: set<string>, e: GraphEntity, n: nat)
    requires n < |EdgesOf(e, delegation)| && Come(g, roots, seen, e)
    requires forall name :: name in seen ==> Named(g, roots, delegation, name)
    ensures Named(g, roots, delegation, EdgesOf(e, delegation)[n])
  {
    hide EdgesOf, Named, Resolves;
    var name := EdgesOf(e, delegation)[n];
    if e in roots {
      NamedFirst(g, roots, delegation, e, name);
    } else {
      var via :| via in seen && Resolves(g, via, e);
      NamedNext(g, roots, delegation, via, name);
    }
  }

  /** Every edge name the walk could ever see. */
  ghost function Vocabulary(g: Index, roots: seq<GraphEntity>, delegation: bool): set<string> {
    (set e, name | e in roots && name in EdgesOf(e, delegation) :: name) +
    (set key, e, name | key in g.byName && e in g.byName[key] && name in EdgesOf(e, delegation) :: name)
  }

  lemma EdgesInVocabulary(g: Index, roots: seq<GraphEntity>, delegation: bool, seen: set<string>, e: GraphEntity)
    requires Come(g, roots, seen, e)
    ensures forall name :: name in EdgesOf(e, delegation) ==> name in Vocabulary(g, roots, delegation)
  {
    hide EdgesOf;
    if e !in roots {
      var name :| name in seen && Resolves(g, name, e);
      assert e in [e] && e in g.byName[name];
    }
  }

  /** The entities outside `tsFile` that a set of names resolves to. */
  ghost predicate ReachedAre(g: Index, tsFile: string, names: set<string>, reached: seq<GraphEntity>) {
    forall t :: t in reached <==> t.file != tsFile && exists name :: name in names && Resolves(g, name, t)
  }

  lemma ReachedOneMore(g: Index, tsFile: string, names: set<string>, reached: seq<GraphEntity>, name: string)
    requires ReachedAre(g, tsFile, names, reached)
    ensures var targets := At(g.byName, name);
            ReachedAre(g, tsFile, names + {name},
                       if |targets| == 1 && targets[0].file != tsFile then reached + [targets[0]] else reached)
  {
    var targets := At(g.byName, name);
    var more := if |targets| == 1 && targets[0].file != tsFile then reached + [targets[0]] else reached;
    assert |targets| == 1 ==> targets == [targets[0]];
    forall t ensures t in more <==> t.file != tsFile && exists n :: n in names + {name} && Resolves(g, n, t) {
      if n :| n in names && Resolves(g, n, t) { assert n in names + {name}; }
      if Resolves(g, name, t) { assert name in names + {name} && targets[0] == t; }
    }
  }

  /** The file's closure: every entity outside it that a chain of uniquely resolving names reaches. It ends on
      every index, cyclic or not. */
  method IncludeGraphEntities(tsFile: string, g: Index, delegation: bool) returns (reached: seq<GraphEntity>)
    ensures forall t :: t in reached <==>
      (t.file != tsFile && exists name :: Named(g, At(g.byFile, tsFile), delegation, name) && Resolves(g, name, t))
    ensures var roots := if tsFile in g.byFile then g.byFile[tsFile] else [];
            forall t :: t in reached <==>
              && t.file != tsFile
              && exists name :: Named(g, roots, delegation, name) && name in g.byName && g.byName[name] == [t]
  {
    reached := WalkEntities(tsFile, g, delegation);
    forall t, name ensures Resolves(g, name, t) <==> name in g.byName && g.byName[name] == [t] {}
    hide Named, Resolves;
  }

  method WalkEntities(tsFile: string, g: Index, delegation: bool) returns (reached: seq<GraphEntity>)
    ensures forall t :: t in reached <==>
      (t.file != tsFile && exists name :: Named(g, At(g.byFile, tsFile), delegation, name) && Resolves(g, name, t))
  {
    hide Named, Come, Progress, Resolves, EdgesOf, Vocabulary, ReachedAre;
    var roots := At(g.byFile, tsFile);
    reached := [];
    var seenEdges: set<string>, queue := {}, roots;
    Started(g, roots, delegation);
    NothingReached(g, tsFile);
    while |queue| > 0
      invariant Progress(g, roots, delegation, seenEdges, queue, None, 0) && ReachedAre(g, tsFile, seenEdges, reached)
      invariant seenEdges <= Vocabulary(g, roots, delegation)
      decreases Vocabulary(g, roots, delegation) - seenEdges, |queue|
    {
      var entity := queue[|queue| - 1];
      Popped(g, roots, delegation, seenEdges, queue);
      queue := queue[..|queue| - 1];
      var edges := EdgesOf(entity, delegation);
      ghost var before, shorter := seenEdges, queue;
      InHandCome(g, roots, delegation, seenEdges, queue, entity);
      for i := 0 to |edges|
        invariant Progress(g, roots, delegation, seenEdges, queue, Some(entity), i) &&
          ReachedAre(g, tsFile, seenEdges, reached)
        invariant before <= seenEdges <= Vocabulary(g, roots, delegation)
        invariant seenEdges == before ==> queue == shorter
      {
        var name := edges[i];
        if name in seenEdges {
          EdgeSeenBefore(g, roots, delegation, seenEdges, queue, entity, i);
          continue;
        }
        EdgeSeen(g, roots, delegation, seenEdges, queue, entity, i);
        ReachedOneMore(g, tsFile, seenEdges, reached, name);
        seenEdges := seenEdges + {name};
        var targets := At(g.byName, name);
        if |targets| != 1 {
          assert queue + [] == queue;
          continue;
        }
        var target := targets[0];
        assert targets == [target];
        if target.file != tsFile {
          reached := reached + [target];
        }
        queue := queue + [target];
      }
      PutDown(g, roots, delegation, seenEdges, queue, entity);
    }
    Exhausted(g, roots, delegation, seenEdges);
    ReachedByNames(g, roots, delegation, tsFile, seenEdges, reached);
  }

  lemma NothingReached(g: Index, tsFile: string)
    ensures ReachedAre(g, tsFile, {}, [])
  {
  }

  lemma InHandCome(g: Index, roots: seq<GraphEntity>, delegation: bool, seen: set<string>, queue: seq<GraphEntity>,
                   e: GraphEntity)
    requires Progress(g, roots, delegation, seen, queue, Some(e), 0)
    ensures forall name :: name in EdgesOf(e, delegation) ==> name in Vocabulary(g, roots, delegation)
  {
    hide EdgesOf, Vocabulary;
    EdgesInVocabulary(g, roots, delegation, seen, e);
  }

  lemma ReachedByNames(g: Index, roots: seq<GraphEntity>, delegation: bool, tsFile: string, names: set<string>,
                       reached: seq<GraphEntity>)
    requires ReachedAre(g, tsFile, names, reached)
    requires forall name :: name in names <==> Named(g, roots, delegation, name)
    ensures forall t :: t in reached <==>
      (t.file != tsFile && exists name :: Named(g, roots, delegation, name) && Resolves(g, name, t))
  {
    hide Named, Resolves;
  }

  /** The names of the file's entities whose own closure names `moduleName`, resolvable or not. */
  method IncludeGraphHosts(tsFile: string, moduleName: string, g: Index) returns (hosts: set<string>)
    ensures forall host :: host in hosts <==>
      exists e :: e in At(g.byFile, tsFile) && e.name == host && Named(g, [e], false, moduleName)
  {
    hide Named;
    var entities := At(g.byFile, tsFile);
    hosts := {};
    for i := 0 to |entities|
      invariant forall host :: host in hosts <==>
        exists e :: e in entities[..i] && e.name == host && Named(g, [e], false, moduleName)
    {
      var e := entities[i];
      assert forall x :: x in entities[..i + 1] <==> x in entities[..i] || x == e;
      var named := ClosureNames(g, e, moduleName);
      if named { hosts := hosts + {e.name}; }
    }
    assert entities[..|entities|] == entities;
  }

  /** One entity's walk, watching for the module's name. */
  method ClosureNames(g: Index, e: GraphEntity, moduleName: string) returns (named: bool)
    ensures named <==> Named(g, [e], false, moduleName)
  {
    hide Named, Come, Progress, Resolves, EdgesOf, Vocabulary;
    var roots := [e];
    named := false;
    var seenEdges: set<string>, queue := {}, roots;
    Started(g, roots, false);
    while |queue| > 0
      invariant Progress(g, roots, false, seenEdges, queue, None, 0)
      invariant named <==> moduleName in seenEdges
      invariant seenEdges <= Vocabulary(g, roots, false)
      decreases Vocabulary(g, roots, false) - seenEdges, |queue|
    {
      var current := queue[|queue| - 1];
      Popped(g, roots, false, seenEdges, queue);
      queue := queue[..|queue| - 1];
      var edges := EdgesOf(current, false);
      ghost var before, shorter := seenEdges, queue;
      InHandCome(g, roots, false, seenEdges, queue, current);
      for i := 0 to |edges|
        invariant Progress(g, roots, false, seenEdges, queue, Some(current), i)
        invariant named <==> moduleName in seenEdges
        invariant before <= seenEdges <= Vocabulary(g, roots, false)
        invariant seenEdges == before ==> queue == shorter
      {
        var name := edges[i];
        if name == moduleName { named := true; }
        if name in seenEdges {
          EdgeSeenBefore(g, roots, false, seenEdges, queue, current, i);
          continue;
        }
        EdgeSeen(g, roots, false, seenEdges, queue, current, i);
        seenEdges := seenEdges + {name};
        var targets := At(g.byName, name);
        if |targets| == 1 {
          assert targets == [targets[0]];
          queue := queue + [targets[0]];
        } else {
          assert queue + [] == queue;
        }
      }
      PutDown(g, roots, false, seenEdges, queue, current);
    }
    Exhausted(g, roots, false, seenEdges);
  }

  /** The file-wide closure is the union of the closures its entities have one by one. */
  lemma ClosureIsUnion(g: Index, roots: seq<GraphEntity>, delegation: bool, name: string)
    ensures Named(g, roots, delegation, name) <==> exists e :: e in roots && Named(g, [e], delegation, name)
  {
    hide Follows;
    if Named(g, roots, delegation, name) {
      var p :| NameChain(g, roots, delegation, p) && p[|p| - 1] == name;
      var e :| e in roots && p[0] in EdgesOf(e, delegation);
      assert e in [e];
      assert NameChain(g, [e], delegation, p);
    }
    if e :| e in roots && Named(g, [e], delegation, name) {
      var p :| NameChain(g, [e], delegation, p) && p[|p| - 1] == name;
      assert NameChain(g, roots, delegation, p);
    }
  }

  /** A walk without delegation never names more than one with it. */
  lemma DelegationOnlyAdds(g: Index, roots: seq<GraphEntity>, name: string)
    requires Named(g, roots, false, name)
    ensures Named(g, roots, true, name)
  {
    var p :| NameChain(g, roots, false, p) && p[|p| - 1] == name;
    forall i | 0 <= i < |p| - 1 ensures Follows(g, true, p[i], p[i + 1]) { assert Follows(g, false, p[i], p[i + 1]); }
    assert NameChain(g, roots, true, p);
  }

  /** The seen names are the least set that holds the roots' edges and is closed under resolution: any other
      such set contains them. */
  lemma NamedIsLeast(g: Index, roots: seq<GraphEntity>, delegation: bool, closed: set<string>, name: string)
    requires forall e, n :: e in roots && n in EdgesOf(e, delegation) ==> n in closed
    requires forall n, t, m :: n in closed && Resolves(g, n, t) && m in EdgesOf(t, delegation) ==> m in closed
    requires Named(g, roots, delegation, name)
    ensures name in closed
  {
    hide EdgesOf, Resolves;
    var p :| NameChain(g, roots, delegation, p) && p[|p| - 1] == name;
    for i := 0 to |p|
      invariant forall j :: 0 <= j < i ==> p[j] in closed
    {
      if i > 0 { assert Follows(g, delegation, p[i - 1], p[i - 1 + 1]); }
    }
  }
}
