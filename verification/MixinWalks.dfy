/** The comparer's memoised depth-first walks over mixin and inheritance edges, the includer graph they
    run on, and the flattening of mixed-in methods whose surface they must agree with. */
module MixinWalks {
  import opened Text

  // --------------------------------------------------------------------- graphs

  type Graph = map<string, set<string>>

  function Succ(g: Graph, n: string): set<string> { if n in g then g[n] else {} }

  ghost predicate IsPath(g: Graph, p: seq<string>) {
    |p| >= 2 && forall i :: 0 <= i < |p| - 1 ==> p[i + 1] in Succ(g, p[i])
  }

  /** Some path of one edge or more leads from `a` to `b`. */
  ghost predicate Reaches(g: Graph, a: string, b: string) {
    exists p :: IsPath(g, p) && p[0] == a && p[|p| - 1] == b
  }

  /** No cycle can be reached from `a`. */
  ghost predicate AcyclicFrom(g: Graph, a: string) {
    !Reaches(g, a, a) && forall n :: Reaches(g, a, n) ==> !Reaches(g, n, n)
  }

  lemma AcyclicOnwards(g: Graph, a: string, b: string)
    requires AcyclicFrom(g, a) && b in Succ(g, a)
    ensures AcyclicFrom(g, b)
  {
    hide Reaches;
    EdgeReaches(g, a, b);
    forall n | Reaches(g, b, n) ensures !Reaches(g, n, n) { ReachesThrough(g, a, b, n); }
  }

  lemma EdgeReaches(g: Graph, a: string, b: string)
    requires b in Succ(g, a)
    ensures Reaches(g, a, b)
  {
    assert IsPath(g, [a, b]);
  }

  lemma ReachesOnwards(g: Graph, a: string, b: string, c: string)
    requires Reaches(g, a, b) && c in Succ(g, b)
    ensures Reaches(g, a, c)
  {
    var p :| IsPath(g, p) && p[0] == a && p[|p| - 1] == b;
    assert IsPath(g, p + [c]);
  }

  lemma StackReaches(g: Graph, stack: set<string>, b: string, c: string)
    requires c in Succ(g, b) && forall a :: a in stack ==> Reaches(g, a, b)
    ensures forall a :: a in stack + {b} ==> Reaches(g, a, c)
  {
    hide Reaches, Succ;
    forall a | a in stack + {b} ensures Reaches(g, a, c) {
      if a == b { EdgeReaches(g, b, c); } else { ReachesOnwards(g, a, b, c); }
    }
  }

  lemma ReachesThrough(g: Graph, a: string, b: string, c: string)
    requires b in Succ(g, a) && Reaches(g, b, c)
    ensures Reaches(g, a, c)
  {
    var p :| IsPath(g, p) && p[0] == b && p[|p| - 1] == c;
    var q := [a] + p;
    forall i | 0 <= i < |q| - 1 ensures q[i + 1] in Succ(g, q[i]) {
      if i > 0 { assert p[i - 1 + 1] in Succ(g, p[i - 1]); }
    }
    assert IsPath(g, q);
  }

  lemma FirstStep(g: Graph, a: string, c: string) returns (b: string)
    requires Reaches(g, a, c)
    ensures b in Succ(g, a) && (b == c || Reaches(g, b, c))
  {
    var p :| IsPath(g, p) && p[0] == a && p[|p| - 1] == c;
    b := p[1];
    assert p[0 + 1] in Succ(g, p[0]);
    if |p| > 2 {
      var q := p[1..];
      forall i | 0 <= i < |q| - 1 ensures q[i + 1] in Succ(g, q[i]) { assert p[i + 1 + 1] in Succ(g, p[i + 1]); }
      assert IsPath(g, q);
    }
  }

  lemma StretchReaches(g: Graph, p: seq<string>, i: nat, j: nat)
    requires IsPath(g, p) && i < j < |p|
    ensures Reaches(g, p[i], p[j])
  {
    var q := p[i..j + 1];
    forall k | 0 <= k < |q| - 1 ensures q[k + 1] in Succ(g, q[k]) { assert p[i + k + 1] in Succ(g, p[i + k]); }
    assert IsPath(g, q);
  }

  lemma PathsJoin(g: Graph, p: seq<string>, q: seq<string>)
    requires IsPath(g, p) && IsPath(g, q) && p[|p| - 1] == q[0]
    ensures IsPath(g, p + q[1..])
  {
    var r := p + q[1..];
    forall k | 0 <= k < |r| - 1 ensures r[k + 1] in Succ(g, r[k]) {
      if k < |p| - 1 { assert p[k + 1] in Succ(g, p[k]); } else {
        assert q[k - |p| + 1 + 1] in Succ(g, q[k - |p| + 1]);
      }
    }
  }

  /** No cycle can be reached from a node exactly when no path from it comes to one node twice. */
  lemma AcyclicIff(g: Graph, a: string)
    ensures AcyclicFrom(g, a) <==>
            forall p :: IsPath(g, p) && p[0] == a ==> forall i, j :: 0 <= i < j < |p| ==> p[i] != p[j]
  {
    if AcyclicFrom(g, a) {
      forall p, i, j | IsPath(g, p) && p[0] == a && 0 <= i < j < |p| ensures p[i] != p[j] {
        StretchReaches(g, p, i, j);
        if i > 0 { StretchReaches(g, p, 0, i); }
      }
    } else if Reaches(g, a, a) {
      var p :| IsPath(g, p) && p[0] == a && p[|p| - 1] == a;
      assert 0 < |p| - 1;
    } else {
      var n :| Reaches(g, a, n) && Reaches(g, n, n);
      var p :| IsPath(g, p) && p[0] == a && p[|p| - 1] == n;
      var q :| IsPath(g, q) && q[0] == n && q[|q| - 1] == n;
      PathsJoin(g, p, q);
      var r := p + q[1..];
      assert r[|p| - 1] == n && r[|r| - 1] == n;
    }
  }

  // ------------------------------------------------------------- memoised walks

  /** What a walk gathers: each node's own contribution, and one made at every edge into a node. */
  datatype Walk = Walk(graph: Graph, own: string -> set<string>, atEdge: string -> set<string>)

  ghost predicate Adds(w: Walk, n: string, item: string) { item in w.own(n) || item in w.atEdge(n) }

  /** The item is contributed by the node itself or somewhere in its transitive closure. */
  ghost predicate Gathers(w: Walk, n: string, item: string) {
    item in w.own(n) || exists m :: Reaches(w.graph, n, m) && Adds(w, m, item)
  }

  lemma GathersStep(w: Walk, n: string, item: string)
    ensures Gathers(w, n, item) <==>
            item in w.own(n) || exists m :: m in Succ(w.graph, n) && (item in w.atEdge(m) || Gathers(w, m, item))
  {
    hide IsPath, Reaches, Succ;
    if m :| Reaches(w.graph, n, m) && Adds(w, m, item) {
      var b := FirstStep(w.graph, n, m);
      assert item in w.atEdge(b) || Gathers(w, b, item);
    }
    if m :| m in Succ(w.graph, n) && (item in w.atEdge(m) || Gathers(w, m, item)) {
      EdgeReaches(w.graph, n, m);
      if item in w.atEdge(m) || item in w.own(m) {
        assert Adds(w, m, item);
      } else {
        var k :| Reaches(w.graph, m, k) && Adds(w, k, item);
        ReachesThrough(w.graph, n, m, k);
      }
    }
  }

  /** `r` holds only gathered items, and all of them when the node reaches no cycle. */
  ghost predicate Answers(w: Walk, n: string, r: set<string>) {
    && (forall item :: item in r ==> Gathers(w, n, item))
    && (AcyclicFrom(w.graph, n) ==> forall item :: Gathers(w, n, item) ==> item in r)
  }

  /** A walk's cache, shared by every root query, and the `visited` set of the query under way. */
  class MemoWalk {
    const walk: Walk
    var cache: map<string, set<string>>
    var visited: set<string>

    ghost predicate Valid()
      reads this
    {
      forall n :: n in cache ==> Answers(walk, n, cache[n])
    }

    /** A visited node that has no answer yet is on the stack of open calls. */
    ghost predicate VisitedOnStack(stack: set<string>)
      reads this
    {
      forall n :: n in visited ==> n in cache || n in stack
    }

    constructor (walk: Walk)
      ensures Valid() && this.walk == walk && cache == map[]
    {
      this.walk, cache, visited := walk, map[], {};
    }

    /** One root query. Whatever was queried before, the answer is sound, and exact wherever the root reaches no
        cycle. */
    method Query(root: string) returns (items: set<string>)
      requires Valid()
      modifies this
      ensures Valid() && Answers(walk, root, items) && old(cache).Keys + {root} <= cache.Keys
    {
      visited := {};
      items := Visit(root, {});
    }

    /** Every root in turn, all sharing the one cache: each then has its answer cached. */
    method QueryAll(roots: seq<string>)
      requires Valid()
      modifies this
      ensures Valid() && forall root :: root in roots ==> root in cache
    {
      hide Answers;
      for i := 0 to |roots|
        invariant Valid() && forall j :: 0 <= j < i ==> roots[j] in cache
      {
        var items := Query(roots[i]);
      }
    }

    method Visit(n: string, ghost stack: set<string>) returns (items: set<string>)
      requires Valid() && VisitedOnStack(stack)
      requires forall s :: s in stack ==> Reaches(walk.graph, s, n)
      modifies this
      ensures Valid() && VisitedOnStack(stack) && Answers(walk, n, items)
      ensures old(visited) <= visited && old(cache).Keys <= cache.Keys && (n in cache || n in stack)
      decreases walk.graph.Keys - visited
    {
      hide Reaches, Answers, Gathered;
      if n in cache {
        return cache[n];
      }
      if n in visited {
        OnlyOnCycles(walk, n);
        return {};
      }
      visited := visited + {n};
      items := walk.own(n);
      if n in walk.graph {
        var rest := walk.graph[n];
        ghost var seen: set<string> := {};
        NothingSeen(walk, n);
        while rest != {}
          invariant Valid() && VisitedOnStack(stack + {n}) && n in visited
          invariant rest + seen == Succ(walk.graph, n)
          invariant old(visited) <= visited && old(cache).Keys <= cache.Keys
          invariant Gathered(walk, n, seen, items)
          decreases |rest|
        {
          var m :| m in rest;
          items := items + walk.atEdge(m);
          StackReaches(walk.graph, stack, n, m);
          ghost var before := items;
          var more := Visit(m, stack + {n});
          items := items + more;
          GatherOne(walk, n, seen, m, before, more);
          rest, seen := rest - {m}, seen + {m};
        }
        AllGathered(walk, n, items);
      } else {
        NothingSeen(walk, n);
        AllGathered(walk, n, items);
      }
      cache := cache[n := items];
    }
  }

  /** `items` after the edges in `seen` have been followed. */
  ghost predicate Gathered(w: Walk, n: string, seen: set<string>, items: set<string>) {
    && (forall item :: item in items ==>
          (item in w.own(n) || exists m :: m in seen && (item in w.atEdge(m) || Gathers(w, m, item))))
    && (forall item :: item in w.own(n) ==> item in items)
    && (forall m, item :: m in seen && item in w.atEdge(m) ==> item in items)
    && (AcyclicFrom(w.graph, n) ==> forall m, item :: m in seen && Gathers(w, m, item) ==> item in items)
  }

  lemma NothingSeen(w: Walk, n: string)
    ensures Gathered(w, n, {}, w.own(n))
  {
  }

  lemma GatherOne(w: Walk, n: string, seen: set<string>, m: string, before: set<string>, more: set<string>)
    requires exists earlier :: before == earlier + w.atEdge(m) && Gathered(w, n, seen, earlier)
    requires Answers(w, m, more) && m in Succ(w.graph, n)
    ensures Gathered(w, n, seen + {m}, before + more)
  {
    hide Gathers, AcyclicFrom;
    if AcyclicFrom(w.graph, n) { AcyclicOnwards(w.graph, n, m); }
  }

  lemma AllGathered(w: Walk, n: string, items: set<string>)
    requires Gathered(w, n, Succ(w.graph, n), items)
    ensures Answers(w, n, items)
  {
    hide Gathers, AcyclicFrom;
    forall item ensures item in items ==> Gathers(w, n, item) { GathersStep(w, n, item); }
    if AcyclicFrom(w.graph, n) {
      forall item | Gathers(w, n, item) ensures item in items { GathersStep(w, n, item); }
    }
  }

  /** Meeting an open call again means its node lies on a cycle. */
  lemma OnlyOnCycles(w: Walk, n: string)
    requires Reaches(w.graph, n, n)
    ensures Answers(w, n, {})
  {
    assert !AcyclicFrom(w.graph, n);
  }

  /** `getInherited`: an entity's own methods and those of every parent it reaches. */
  function InheritedMethods(parents: Graph, methods: string -> set<string>): Walk {
    Walk(parents, methods, (n: string) => {})
  }

  /** Where the entity has no cycle above it, its inherited surface is exactly its own methods and its ancestors'. */
  lemma InheritedExactly(parents: Graph, methods: string -> set<string>, entity: string, found: set<string>)
    requires AcyclicFrom(parents, entity) && Answers(InheritedMethods(parents, methods), entity, found)
    ensures forall m :: m in found <==>
      (m in methods(entity) || exists ancestor :: Reaches(parents, entity, ancestor) && m in methods(ancestor))
  {
    hide AcyclicFrom, Reaches;
    var w := InheritedMethods(parents, methods);
    forall m ensures m in found <==>
      (m in methods(entity) || exists ancestor :: Reaches(parents, entity, ancestor) && m in methods(ancestor))
    {
      assert m in found <==> Gathers(w, entity, m);
      if ancestor :| Reaches(parents, entity, ancestor) && m in methods(ancestor) { assert Adds(w, ancestor, m); }
      if n :| Reaches(parents, entity, n) && Adds(w, n, m) { assert m in methods(n); }
    }
  }

  // ------------------------------------------------------------ includer graph

  datatype Entity = Entity(
    includes: seq<string>,
    extendNames: seq<string>,
    instanceMethods: seq<string>,
    classMethods: seq<string>,
    file: Option<string>
  )

  /** The Ruby lookup of a mixin name in the context of the entity naming it. */
  type Resolver = (string, string) -> string

  /** One of the names resolves to the module. */
  ghost predicate Resolves(resolve: Resolver, fqn: string, names: seq<string>, mod: string) {
    exists inc :: inc in names && resolve(inc, fqn) == mod
  }

  /** `e` mixes in the module of this name. */
  ghost predicate MixesIn(resolve: Resolver, fqn: string, e: Entity, mod: string) {
    Resolves(resolve, fqn, e.includes + e.extendNames, mod)
  }

  ghost predicate MixedInBy(resolve: Resolver, entities: seq<(string, Entity)>, mod: string, fqn: string) {
    exists i :: 0 <= i < |entities| && entities[i].0 == fqn && MixesIn(resolve, fqn, entities[i].1, mod)
  }

  /** An entity mixes a module in where one of the names it includes or extends resolves to it. */
  lemma MixedInByIff(resolve: Resolver, entities: seq<(string, Entity)>, mod: string, fqn: string)
    ensures MixedInBy(resolve, entities, mod, fqn) <==>
      exists i | 0 <= i < |entities| && entities[i].0 == fqn ::
        exists inc :: resolve(inc, fqn) == mod && (inc in entities[i].1.includes || inc in entities[i].1.extendNames)
  {
    forall i | 0 <= i < |entities|
      ensures MixesIn(resolve, fqn, entities[i].1, mod) <==>
        exists inc :: resolve(inc, fqn) == mod && (inc in entities[i].1.includes || inc in entities[i].1.extendNames)
    {
      var e := entities[i].1;
      assert forall inc :: inc in e.includes + e.extendNames <==> inc in e.includes || inc in e.extendNames;
    }
    hide MixesIn;
  }

  /** The direct include graph: from each module to the entities that mix it in. */
  method BuildModuleIncluderFqns(entities: seq<(string, Entity)>, resolve: Resolver) returns (includers: Graph)
    ensures forall mod, fqn :: fqn in Succ(includers, mod) <==> MixedInBy(resolve, entities, mod, fqn)
  {
    hide MixesIn;
    includers := map[];
    for i := 0 to |entities|
      invariant forall mod, fqn :: fqn in Succ(includers, mod) <==> MixedInBy(resolve, entities[..i], mod, fqn)
    {
      var (fqn, info) := entities[i];
      ghost var before := includers;
      includers := AddIncluder(includers, fqn, info, resolve);
      MixedInByOneMore(resolve, entities, i);
    }
    assert entities[..|entities|] == entities;
  }

  method AddIncluder(g: Graph, fqn: string, info: Entity, resolve: Resolver) returns (includers: Graph)
    ensures forall mod, e :: e in Succ(includers, mod) <==>
      e in Succ(g, mod) || (e == fqn && MixesIn(resolve, fqn, info, mod))
  {
    includers := g;
    var names := info.includes + info.extendNames;
    for j := 0 to |names|
      invariant forall mod, e :: e in Succ(includers, mod) <==>
        (e in Succ(g, mod) || (e == fqn && exists k :: 0 <= k < j && resolve(names[k], fqn) == mod))
    {
      var named := resolve(names[j], fqn);
      ghost var before := includers;
      includers := includers[named := Succ(includers, named) + {fqn}];
      forall mod, e ensures e in Succ(includers, mod) <==> e in Succ(before, mod) || (e == fqn && mod == named) {}
    }
  }

  lemma MixedInByOneMore(resolve: Resolver, entities: seq<(string, Entity)>, i: nat)
    requires i < |entities|
    ensures forall mod, fqn :: MixedInBy(resolve, entities[..i + 1], mod, fqn) <==>
      (MixedInBy(resolve, entities[..i], mod, fqn) ||
        (fqn == entities[i].0 && MixesIn(resolve, fqn, entities[i].1, mod)))
  {
    hide MixesIn;
    var more, less := entities[..i + 1], entities[..i];
    forall mod, fqn ensures MixedInBy(resolve, more, mod, fqn) <==>
      (MixedInBy(resolve, less, mod, fqn) || (fqn == entities[i].0 && MixesIn(resolve, fqn, entities[i].1, mod)))
    {
      if MixedInBy(resolve, less, mod, fqn) {
        var j :| 0 <= j < |less| && less[j].0 == fqn && MixesIn(resolve, fqn, less[j].1, mod);
        assert more[j] == less[j];
      }
      if fqn == entities[i].0 && MixesIn(resolve, fqn, entities[i].1, mod) { assert more[i] == entities[i]; }
      if MixedInBy(resolve, more, mod, fqn) {
        var j :| 0 <= j < |more| && more[j].0 == fqn && MixesIn(resolve, fqn, more[j].1, mod);
        assert j < i ==> less[j] == more[j];
      }
    }
  }

  // ---------------------------------------------------------------- flattening

  /** A method on a host's expected surface, with the module's file when it was mixed in from one that has a file. */
  datatype Flattened = Flattened(name: string, mixinFile: Option<string>)

  /** One package's modules, and which Ruby files the port declines. */
  datatype Mixins = Mixins(modules: map<string, Entity>, resolve: Resolver, unported: string -> bool)

  /** A module that contributes methods: known to the package and not declined. */
  predicate Live(mx: Mixins, fqn: string) {
    fqn in mx.modules && !(mx.modules[fqn].file.Some? && mx.unported(mx.modules[fqn].file.value))
  }

  function Contribution(mod: Entity): seq<Flattened> {
    seq(|mod.instanceMethods|, i requires 0 <= i < |mod.instanceMethods| => Flattened(mod.instanceMethods[i], mod.file))
  }

  function Own(names: seq<string>): seq<Flattened> {
    seq(|names|, i requires 0 <= i < |names| => Flattened(names[i], None))
  }

  /** The sink after the modules in `order` have each contributed, in turn. */
  function Contributed(mx: Mixins, start: seq<Flattened>, order: seq<string>): seq<Flattened> {
    if order == [] then start
    else
      var last := order[|order| - 1];
      Contributed(mx, start, order[..|order| - 1]) + if last in mx.modules then Contribution(mx.modules[last]) else []
  }

  /** The module's methods stand together at a place of the sink, in the module's order and with its file. */
  ghost predicate BlockAt(sink: seq<Flattened>, at: nat, mod: Entity) {
    at + |mod.instanceMethods| <= |sink| &&
    forall j :: 0 <= j < |mod.instanceMethods| ==> sink[at + j] == Flattened(mod.instanceMethods[j], mod.file)
  }

  lemma BlockPush(sink: seq<Flattened>, more: seq<Flattened>, at: nat, mod: Entity)
    requires BlockAt(sink, at, mod)
    ensures BlockAt(sink + more, at, mod)
  {
  }

  lemma LastBlock(sink: seq<Flattened>, mod: Entity)
    ensures BlockAt(sink + Contribution(mod), |sink|, mod)
  {
  }

  /** The block of each module, one behind the other. */
  ghost predicate Blocks(mx: Mixins, sink: seq<Flattened>, order: seq<string>, at: seq<nat>) {
    |at| == |order| + 1 && at[|order|] == |sink| &&
    forall i :: 0 <= i < |order| ==>
      (order[i] in mx.modules && at[i + 1] == at[i] + |mx.modules[order[i]].instanceMethods| &&
       BlockAt(sink, at[i], mx.modules[order[i]]))
  }

  lemma {:induction false} BlocksOf(mx: Mixins, start: seq<Flattened>, order: seq<string>) returns (at: seq<nat>)
    requires forall m :: m in order ==> m in mx.modules
    ensures Blocks(mx, Contributed(mx, start, order), order, at) && at[0] == |start|
    ensures start <= Contributed(mx, start, order)
  {
    if order == [] {
      at := [|start|];
    } else {
      var init, last := order[..|order| - 1], order[|order| - 1];
      var before := BlocksOf(mx, start, init);
      var sink, mod := Contributed(mx, start, init), mx.modules[last];
      assert Contributed(mx, start, order) == sink + Contribution(mod);
      at := before + [|sink| + |mod.instanceMethods|];
      assert |Contribution(mod)| == |mod.instanceMethods|;
      LastBlock(sink, mod);
      BlocksPush(mx, sink, init, before, last, Contribution(mod));
      assert init + [last] == order;
    }
  }

  lemma BlocksPush(mx: Mixins, sink: seq<Flattened>, init: seq<string>, before: seq<nat>, last: string,
                   more: seq<Flattened>)
    requires Blocks(mx, sink, init, before) && last in mx.modules
    requires |more| == |mx.modules[last].instanceMethods| && BlockAt(sink + more, |sink|, mx.modules[last])
    ensures Blocks(mx, sink + more, init + [last], before + [|sink| + |more|])
  {
    hide BlockAt;
    var order, at := init + [last], before + [|sink| + |more|];
    forall i | 0 <= i < |order|
      ensures order[i] in mx.modules && at[i + 1] == at[i] + |mx.modules[order[i]].instanceMethods|
      ensures BlockAt(sink + more, at[i], mx.modules[order[i]])
    {
      if i < |init| { BlockPush(sink, more, before[i], mx.modules[init[i]]); }
    }
  }

  /** How a sink is laid out: what it began with, then each module's methods together, in the module's order and with
      the module's file, module after module, and nothing else. `at` tells where each block begins. */
  lemma SinkLayout(mx: Mixins, start: seq<Flattened>, order: seq<string>) returns (at: seq<nat>)
    requires forall m :: m in order ==> m in mx.modules
    ensures |at| == |order| + 1 && at[0] == |start| && at[|order|] == |Contributed(mx, start, order)|
    ensures start <= Contributed(mx, start, order)
    ensures forall i :: 0 <= i < |order| ==>
      (order[i] in mx.modules &&
       at[i + 1] == at[i] + |mx.modules[order[i]].instanceMethods| <= |Contributed(mx, start, order)| &&
       (forall j :: 0 <= j < |mx.modules[order[i]].instanceMethods| ==>
          Contributed(mx, start, order)[at[i] + j] ==
          Flattened(mx.modules[order[i]].instanceMethods[j], mx.modules[order[i]].file)))
  {
    at := BlocksOf(mx, start, order);
    hide Contributed;
  }

  /** Exactly the methods a sink holds. */
  lemma SinkHolds(mx: Mixins, names: seq<string>, order: seq<string>)
    requires forall m :: m in order ==> m in mx.modules
    ensures forall x, file :: Flattened(x, file) in Contributed(mx, Own(names), order) <==>
      (file == None && x in names) ||
      exists m :: m in order && m in mx.modules && x in mx.modules[m].instanceMethods && file == mx.modules[m].file
  {
    forall x, file ensures Flattened(x, file) in Contributed(mx, Own(names), order) <==>
      (file == None && x in names) ||
      exists m :: m in order && m in mx.modules && x in mx.modules[m].instanceMethods && file == mx.modules[m].file
    {
      SinkHoldsOne(mx, names, order, x, file);
    }
  }

  lemma {:induction false} SinkHoldsOne(mx: Mixins, names: seq<string>, order: seq<string>, x: string,
                                        file: Option<string>)
    requires forall m :: m in order ==> m in mx.modules
    ensures Flattened(x, file) in Contributed(mx, Own(names), order) <==>
      (file == None && x in names) ||
      exists m :: m in order && m in mx.modules && x in mx.modules[m].instanceMethods && file == mx.modules[m].file
  {
    if order == [] {
      OwnHolds(names, x, file);
    } else {
      var init, last := order[..|order| - 1], order[|order| - 1];
      SinkHoldsOne(mx, names, init, x, file);
      ContributionHolds(mx.modules[last], x, file);
      hide Own, Contribution;
      assert forall m :: m in order <==> m in init || m == last;
    }
  }

  lemma OwnHolds(names: seq<string>, x: string, file: Option<string>)
    ensures Flattened(x, file) in Own(names) <==> file == None && x in names
  {
    if i :| 0 <= i < |names| && names[i] == x { assert Own(names)[i] == Flattened(x, None); }
  }

  lemma ContributionHolds(mod: Entity, x: string, file: Option<string>)
    ensures Flattened(x, file) in Contribution(mod) <==> file == mod.file && x in mod.instanceMethods
  {
    if i :| 0 <= i < |mod.instanceMethods| && mod.instanceMethods[i] == x {
      assert Contribution(mod)[i] == Flattened(x, mod.file);
    }
  }

  lemma ContributeOneMore(mx: Mixins, start: seq<Flattened>, order: seq<string>, m: string)
    requires m in mx.modules
    ensures Contributed(mx, start, order + [m]) == Contributed(mx, start, order) + Contribution(mx.modules[m])
  {
    assert (order + [m])[..|order + [m]| - 1] == order;
  }

  /** A live module names another as an include. */
  ghost predicate IncludedBy(mx: Mixins, from: string, mod: string) {
    Live(mx, from) && Resolves(mx.resolve, from, mx.modules[from].includes, mod)
  }

  /** A chain of live includes that starts at one of the names the host gives. */
  ghost predicate HostChain(mx: Mixins, hostFqn: string, names: seq<string>, p: seq<string>) {
    && p != [] && Resolves(mx.resolve, hostFqn, names, p[0])
    && forall i :: 0 <= i < |p| - 1 ==> IncludedBy(mx, p[i], p[i + 1])
  }

  /** The module is mixed into the host through these of its names. */
  ghost predicate Mixed(mx: Mixins, hostFqn: string, names: seq<string>, mod: string) {
    exists p :: HostChain(mx, hostFqn, names, p) && p[|p| - 1] == mod
  }

  /** A module gives methods where the package knows it and its file is ported; it then includes what its names
      resolve to in its own context. */
  lemma IncludedByIff(mx: Mixins, from: string, mod: string)
    ensures Live(mx, from) <==>
      from in mx.modules && (mx.modules[from].file.Some? ==> !mx.unported(mx.modules[from].file.value))
    ensures IncludedBy(mx, from, mod) <==>
      && from in mx.modules && (mx.modules[from].file.Some? ==> !mx.unported(mx.modules[from].file.value))
      && exists inc :: inc in mx.modules[from].includes && mx.resolve(inc, from) == mod
  {
  }

  lemma MixedDirectly(mx: Mixins, hostFqn: string, names: seq<string>, name: string)
    requires name in names
    ensures Mixed(mx, hostFqn, names, mx.resolve(name, hostFqn))
  {
    assert HostChain(mx, hostFqn, names, [mx.resolve(name, hostFqn)]);
  }

  lemma MixedOnwards(mx: Mixins, hostFqn: string, names: seq<string>, from: string, mod: string)
    requires Mixed(mx, hostFqn, names, from) && IncludedBy(mx, from, mod)
    ensures Mixed(mx, hostFqn, names, mod)
  {
    var p :| HostChain(mx, hostFqn, names, p) && p[|p| - 1] == from;
    assert HostChain(mx, hostFqn, names, p + [mod]);
  }

  /** What two lists of names mix in together is what the one or the other does. */
  lemma MixedSum(mx: Mixins, hostFqn: string, a: seq<string>, b: seq<string>, mod: string)
    ensures Mixed(mx, hostFqn, a + b, mod) <==> Mixed(mx, hostFqn, a, mod) || Mixed(mx, hostFqn, b, mod)
  {
    hide IncludedBy;
    if Mixed(mx, hostFqn, a + b, mod) {
      var p :| HostChain(mx, hostFqn, a + b, p) && p[|p| - 1] == mod;
      assert Resolves(mx.resolve, hostFqn, a, p[0]) || Resolves(mx.resolve, hostFqn, b, p[0]);
      assert HostChain(mx, hostFqn, a, p) || HostChain(mx, hostFqn, b, p);
    }
    if Mixed(mx, hostFqn, a, mod) {
      var p :| HostChain(mx, hostFqn, a, p) && p[|p| - 1] == mod;
      assert HostChain(mx, hostFqn, a + b, p);
    }
    if Mixed(mx, hostFqn, b, mod) {
      var p :| HostChain(mx, hostFqn, b, p) && p[|p| - 1] == mod;
      assert HostChain(mx, hostFqn, a + b, p);
    }
  }

  /** Visited modules, other than those whose calls are still open, have had all their includes visited. */
  ghost predicate Closed(mx: Mixins, visited: set<string>, open: set<string>) {
    forall from, mod :: from in visited && from !in open && IncludedBy(mx, from, mod) ==> mod in visited
  }

  ghost predicate NamesMet(mx: Mixins, hostFqn: string, names: seq<string>, visited: set<string>) {
    forall j :: 0 <= j < |names| ==> mx.resolve(names[j], hostFqn) in visited
  }

  /** A visited set closed under live includes, that covers the host's names, holds every module they mix in. */
  lemma ClosedHoldsMixed(mx: Mixins, hostFqn: string, names: seq<string>, visited: set<string>, mod: string)
    requires Closed(mx, visited, {}) && Mixed(mx, hostFqn, names, mod) && NamesMet(mx, hostFqn, names, visited)
    ensures mod in visited
  {
    var p :| HostChain(mx, hostFqn, names, p) && p[|p| - 1] == mod;
    ChainVisited(mx, hostFqn, names, visited, p, |p| - 1);
  }

  lemma AllMet(mx: Mixins, hostFqn: string, names: seq<string>, visited: set<string>)
    requires Closed(mx, visited, {}) && NamesMet(mx, hostFqn, names[..|names|], visited)
    ensures forall mod :: Mixed(mx, hostFqn, names, mod) ==> mod in visited
  {
    hide Closed, NamesMet, Mixed;
    assert names[..|names|] == names;
    forall mod | Mixed(mx, hostFqn, names, mod) ensures mod in visited {
      ClosedHoldsMixed(mx, hostFqn, names, visited, mod);
    }
  }

  lemma NothingMet(mx: Mixins, hostFqn: string)
    ensures Closed(mx, {}, {})
    ensures forall names: seq<string>, visited :: NamesMet(mx, hostFqn, names[..0], visited)
  {
  }

  lemma OneMoreMet(mx: Mixins, hostFqn: string, names: seq<string>, i: nat, before: set<string>, visited: set<string>)
    requires i < |names| && NamesMet(mx, hostFqn, names[..i], before)
    requires before <= visited && mx.resolve(names[i], hostFqn) in visited
    ensures NamesMet(mx, hostFqn, names[..i + 1], visited)
  {
    var met, more := names[..i], names[..i + 1];
    assert forall j :: 0 <= j < i ==> more[j] == met[j];
  }

  lemma {:induction false} ChainVisited(mx: Mixins, hostFqn: string, names: seq<string>, visited: set<string>,
                                        p: seq<string>, i: nat)
    requires Closed(mx, visited, {}) && HostChain(mx, hostFqn, names, p) && i < |p|
    requires NamesMet(mx, hostFqn, names, visited)
    ensures p[i] in visited
  {
    hide IncludedBy;
    if i == 0 {
      var inc :| inc in names && mx.resolve(inc, hostFqn) == p[0];
      var j :| 0 <= j < |names| && names[j] == inc;
    } else {
      ChainVisited(mx, hostFqn, names, visited, p, i - 1);
      assert IncludedBy(mx, p[i - 1], p[i - 1 + 1]);
    }
  }

  /** One host being flattened: the modules already met and the two lists of methods. */
  class Flattening {
    const mx: Mixins
    const hostFqn: string
    const host: Entity
    var visited: set<string>
    var instance: seq<Flattened>
    var klass: seq<Flattened>
    ghost var viaInclude: seq<string>
    ghost var viaExtend: seq<string>

    /** Each list holds the host's own methods and then, in turn, what its modules contribute: the instance list's
        came through the host's includes, the class list's through what it extends and through no include. The
        modules of the two together are the live ones visited. */
    ghost predicate Valid()
      reads this
    {
      && instance == Contributed(mx, Own(host.instanceMethods), viaInclude)
      && klass == Contributed(mx, Own(host.classMethods), viaExtend)
      && (forall m :: m in viaInclude || m in viaExtend <==> m in visited && Live(mx, m))
      && (forall m :: m in viaInclude ==> Included(m))
      && (forall m :: m in viaExtend ==> Extended(m) && !Included(m))
      && (forall m :: m in visited ==> Included(m) || Extended(m))
      && Once(viaInclude, viaExtend)
    }

    ghost predicate Included(m: string) { Mixed(mx, hostFqn, host.includes, m) }

    ghost predicate Extended(m: string) { Mixed(mx, hostFqn, host.extendNames, m) }

    /** The walk through the host's includes is over. */
    ghost predicate IncludesMet()
      reads this
    {
      forall m :: Included(m) ==> m in visited
    }

    constructor (mx: Mixins, hostFqn: string, host: Entity)
      ensures Valid() && this.mx == mx && this.hostFqn == hostFqn && this.host == host && visited == {}
    {
      this.mx, this.hostFqn, this.host, visited := mx, hostFqn, host, {};
      instance, klass := Own(host.instanceMethods), Own(host.classMethods);
      viaInclude, viaExtend := [], [];
    }

    /** Mark a module visited and, if it is live, push its methods onto the sink it was reached through. */
    method Meet(fqn: string, asClassMethods: bool)
      requires Valid() && fqn !in visited && (if asClassMethods then Extended(fqn) && IncludesMet() else Included(fqn))
      modifies this
      ensures Valid() && visited == old(visited) + {fqn}
      ensures if asClassMethods then viaInclude == old(viaInclude) else viaExtend == old(viaExtend)
    {
      hide Included, Extended, Contributed, Once, Live;
      visited := visited + {fqn};
      if fqn !in mx.modules || (mx.modules[fqn].file.Some? && mx.unported(mx.modules[fqn].file.value)) {
        assert !Live(mx, fqn) by { DeadModule(mx, fqn); }
        return;
      }
      LiveModule(mx, fqn);
      OnceMore(viaInclude, viaExtend, fqn);
      var mod := mx.modules[fqn];
      if asClassMethods {
        ContributeOneMore(mx, Own(host.classMethods), viaExtend, fqn);
        klass, viaExtend := klass + Contribution(mod), viaExtend + [fqn];
      } else {
        ContributeOneMore(mx, Own(host.instanceMethods), viaInclude, fqn);
        instance, viaInclude := instance + Contribution(mod), viaInclude + [fqn];
      }
    }

    method Walk(incName: string, asClassMethods: bool, context: string, ghost open: set<string>)
      requires Valid() && Closed(mx, visited, open)
      requires var fqn := mx.resolve(incName, context);
               if asClassMethods then Extended(fqn) && IncludesMet() else Included(fqn)
      modifies this
      ensures Valid() && Closed(mx, visited, open) && old(visited) <= visited && mx.resolve(incName, context) in visited
      ensures if asClassMethods then viaInclude == old(viaInclude) else viaExtend == old(viaExtend)
      decreases mx.modules.Keys - visited
    {
      hide IncludedBy, Mixed, Contributed, Once, Closed, Valid;
      var fqn := mx.resolve(incName, context);
      if fqn in visited {
        return;
      }
      ClosedOnceMet(mx, visited, open, fqn);
      Meet(fqn, asClassMethods);
      if !Live(mx, fqn) {
        return;
      }
      var names := mx.modules[fqn].includes;
      for i := 0 to |names|
        invariant Valid() && Closed(mx, visited, open + {fqn}) && old(visited) + {fqn} <= visited
        invariant forall j :: 0 <= j < i ==> mx.resolve(names[j], fqn) in visited
        invariant if asClassMethods then viaInclude == old(viaInclude) else viaExtend == old(viaExtend)
      {
        IncludeCounts(mx, fqn, i);
        var roots := if asClassMethods then host.extendNames else host.includes;
        MixedOnwards(mx, hostFqn, roots, fqn, mx.resolve(names[i], fqn));
        Walk(names[i], asClassMethods, fqn, open + {fqn});
      }
      NowClosed(mx, visited, open, fqn);
    }

    /** The methods the two sinks hold, by the modules met. */
    lemma SinksHold()
      requires Valid()
      requires forall m :: m in viaInclude <==> Live(mx, m) && Included(m)
      requires forall m :: m in viaExtend <==> Live(mx, m) && Extended(m) && !Included(m)
      ensures forall x, file :: Flattened(x, file) in instance <==>
        (file == None && x in host.instanceMethods) ||
        exists m :: m in mx.modules && !(mx.modules[m].file.Some? && mx.unported(mx.modules[m].file.value)) &&
          Mixed(mx, hostFqn, host.includes, m) && x in mx.modules[m].instanceMethods && file == mx.modules[m].file
      ensures forall x, file :: Flattened(x, file) in klass <==>
        (file == None && x in host.classMethods) ||
        exists m :: m in mx.modules && !(mx.modules[m].file.Some? && mx.unported(mx.modules[m].file.value)) &&
          Mixed(mx, hostFqn, host.extendNames, m) && !Mixed(mx, hostFqn, host.includes, m) &&
          x in mx.modules[m].instanceMethods && file == mx.modules[m].file
    {
      SinkHolds(mx, host.instanceMethods, viaInclude);
      SinkHolds(mx, host.classMethods, viaExtend);
      hide Contributed, Own, Mixed, Once;
    }

    /** Flatten the host. Its instance methods are joined by those of exactly the live modules its includes mix in;
        its class methods by those of exactly the live modules it extends and does not also include. Ruby gives the
        singleton class every module the host extends: the one visited set drops those also reached through an
        include, so all are given exactly when no live module is reached both ways, and a live module named both
        ways is dropped. */
    method FlattenIncludedMethodInfos()
      requires Valid() && visited == {}
      modifies this
      ensures Valid()
      ensures forall m :: m in viaInclude <==> Live(mx, m) && Included(m)
      ensures forall m :: m in viaExtend <==> Live(mx, m) && Extended(m) && !Included(m)
      ensures forall i, j :: 0 <= i < j < |viaInclude| ==> viaInclude[i] != viaInclude[j]
      ensures forall i, j :: 0 <= i < j < |viaExtend| ==> viaExtend[i] != viaExtend[j]
      ensures (forall m :: Live(mx, m) && Extended(m) ==> m in viaExtend) <==>
              (forall m :: Live(mx, m) && Extended(m) ==> !Included(m))
      ensures forall name :: name in host.includes && name in host.extendNames ==>
        var m := mx.resolve(name, hostFqn);
        Live(mx, m) ==> Extended(m) && m in viaInclude && m !in viaExtend
      ensures forall x, file :: Flattened(x, file) in instance <==>
        (file == None && x in host.instanceMethods) ||
        exists m :: m in mx.modules && !(mx.modules[m].file.Some? && mx.unported(mx.modules[m].file.value)) &&
          Mixed(mx, hostFqn, host.includes, m) && x in mx.modules[m].instanceMethods && file == mx.modules[m].file
      ensures forall x, file :: Flattened(x, file) in klass <==>
        (file == None && x in host.classMethods) ||
        exists m :: m in mx.modules && !(mx.modules[m].file.Some? && mx.unported(mx.modules[m].file.value)) &&
          Mixed(mx, hostFqn, host.extendNames, m) && !Mixed(mx, hostFqn, host.includes, m) &&
          x in mx.modules[m].instanceMethods && file == mx.modules[m].file
    {
      NothingMet(mx, hostFqn);
      hide IncludedBy, Mixed, Live, Closed, NamesMet, Valid;
      for i := 0 to |host.includes|
        invariant Valid() && Closed(mx, visited, {}) && NamesMet(mx, hostFqn, host.includes[..i], visited)
      {
        ghost var before := visited;
        MixedDirectly(mx, hostFqn, host.includes, host.includes[i]);
        Walk(host.includes[i], false, hostFqn, {});
        OneMoreMet(mx, hostFqn, host.includes, i, before, visited);
      }
      AllMet(mx, hostFqn, host.includes, visited);
      for i := 0 to |host.extendNames|
        invariant Valid() && Closed(mx, visited, {}) && IncludesMet()
        invariant NamesMet(mx, hostFqn, host.extendNames[..i], visited)
      {
        ghost var before := visited;
        MixedDirectly(mx, hostFqn, host.extendNames, host.extendNames[i]);
        Walk(host.extendNames[i], true, hostFqn, {});
        OneMoreMet(mx, hostFqn, host.extendNames, i, before, visited);
      }
      AllMet(mx, hostFqn, host.extendNames, visited);
      ListsExact();
      NamedBothWays();
      SinksHold();
    }

    lemma NamedBothWays()
      ensures forall name :: name in host.includes && name in host.extendNames ==>
        Included(mx.resolve(name, hostFqn)) && Extended(mx.resolve(name, hostFqn))
    {
      hide Mixed;
      forall name | name in host.includes && name in host.extendNames
        ensures Included(mx.resolve(name, hostFqn)) && Extended(mx.resolve(name, hostFqn))
      {
        MixedDirectly(mx, hostFqn, host.includes, name);
        MixedDirectly(mx, hostFqn, host.extendNames, name);
      }
    }

    lemma ListsExact()
      requires Valid() && IncludesMet() && forall m :: Extended(m) ==> m in visited
      ensures forall i, j :: 0 <= i < j < |viaInclude| ==> viaInclude[i] != viaInclude[j]
      ensures forall i, j :: 0 <= i < j < |viaExtend| ==> viaExtend[i] != viaExtend[j]
      ensures forall m :: m in viaInclude <==> Live(mx, m) && Included(m)
      ensures forall m :: m in viaExtend <==> Live(mx, m) && Extended(m) && !Included(m)
    {
      hide Included, Extended, Contributed, Live;
    }
  }

  lemma DeadModule(mx: Mixins, fqn: string)
    requires fqn !in mx.modules || (mx.modules[fqn].file.Some? && mx.unported(mx.modules[fqn].file.value))
    ensures !Live(mx, fqn)
  {
  }

  lemma LiveModule(mx: Mixins, fqn: string)
    requires fqn in mx.modules && !(mx.modules[fqn].file.Some? && mx.unported(mx.modules[fqn].file.value))
    ensures Live(mx, fqn)
  {
  }

  /** No module stands in the two lists twice. */
  ghost predicate Once(a: seq<string>, b: seq<string>) {
    && (forall i, j :: 0 <= i < j < |a| ==> a[i] != a[j])
    && (forall i, j :: 0 <= i < j < |b| ==> b[i] != b[j])
    && (forall m :: m in a ==> m !in b)
  }

  lemma OnceMore(a: seq<string>, b: seq<string>, m: string)
    requires Once(a, b) && m !in a && m !in b
    ensures Once(a + [m], b) && Once(a, b + [m])
  {
  }

  /** A module just met is open; a dead one includes nothing and needs no walk. */
  lemma ClosedOnceMet(mx: Mixins, visited: set<string>, open: set<string>, fqn: string)
    requires Closed(mx, visited, open)
    ensures Closed(mx, visited + {fqn}, open + {fqn})
    ensures !Live(mx, fqn) ==> Closed(mx, visited + {fqn}, open)
  {
  }

  lemma IncludeCounts(mx: Mixins, fqn: string, i: nat)
    requires Live(mx, fqn) && i < |mx.modules[fqn].includes|
    ensures IncludedBy(mx, fqn, mx.resolve(mx.modules[fqn].includes[i], fqn))
  {
  }

  lemma NowClosed(mx: Mixins, visited: set<string>, open: set<string>, fqn: string)
    requires Live(mx, fqn) && Closed(mx, visited, open + {fqn})
    requires var includes := mx.modules[fqn].includes;
             forall j :: 0 <= j < |includes| ==> mx.resolve(includes[j], fqn) in visited
    ensures Closed(mx, visited, open)
  {
    forall from, mod | from in visited && from !in open && IncludedBy(mx, from, mod) ensures mod in visited {
      if from == fqn {
        var inc :| inc in mx.modules[fqn].includes && mx.resolve(inc, fqn) == mod;
        var j :| 0 <= j < |mx.modules[fqn].includes| && mx.modules[fqn].includes[j] == inc;
      }
    }
  }

  // ------------------------------------------- expected surface and search set

  /** The include graph built from these entities. */
  ghost predicate IncluderGraph(g: Graph, resolve: Resolver, entities: seq<(string, Entity)>) {
    forall mod, fqn :: fqn in Succ(g, mod) <==> MixedInBy(resolve, entities, mod, fqn)
  }

  /** The list names the host and every module of the package, each with the entity the flattening reads. */
  ghost predicate ListsPackage(entities: seq<(string, Entity)>, mx: Mixins, hostFqn: string, host: Entity) {
    && (hostFqn, host) in entities
    && forall m :: m in mx.modules ==> (m, mx.modules[m]) in entities
  }

  lemma {:induction false} ChainRunsBackwards(g: Graph, mx: Mixins, entities: seq<(string, Entity)>, hostFqn: string,
                                              host: Entity, p: seq<string>, i: nat)
    requires IncluderGraph(g, mx.resolve, entities) && ListsPackage(entities, mx, hostFqn, host)
    requires HostChain(mx, hostFqn, host.includes + host.extendNames, p) && i < |p|
    ensures Reaches(g, p[i], hostFqn)
  {
    hide Reaches, Resolves, Succ;
    if i == 0 {
      var k :| 0 <= k < |entities| && entities[k] == (hostFqn, host);
      assert MixedInBy(mx.resolve, entities, p[0], hostFqn);
      EdgeReaches(g, p[0], hostFqn);
    } else {
      ChainRunsBackwards(g, mx, entities, hostFqn, host, p, i - 1);
      assert IncludedBy(mx, p[i - 1], p[i - 1 + 1]);
      var from := p[i - 1];
      assert (from, mx.modules[from]) in entities;
      var k :| 0 <= k < |entities| && entities[k] == (from, mx.modules[from]);
      IncludeMixes(mx, from, p[i]);
      assert MixedInBy(mx.resolve, entities, p[i], from);
      ReachesThrough(g, p[i], from, hostFqn);
    }
  }

  lemma IncludeMixes(mx: Mixins, from: string, mod: string)
    requires IncludedBy(mx, from, mod)
    ensures MixesIn(mx.resolve, from, mx.modules[from], mod)
  {
    var inc :| inc in mx.modules[from].includes && mx.resolve(inc, from) == mod;
    assert inc in mx.modules[from].includes + mx.modules[from].extendNames;
  }

  /** `resolveIncluderFiles`: each includer met contributes the TS file its Ruby file maps to. */
  function IncluderFiles(g: Graph, files: map<string, string>, toTs: string -> string): Walk {
    Walk(g, (n: string) => {}, (n: string) => if n in files then {toTs(files[n])} else {})
  }

  /** Where no include cycle lies above the module its includer files are exactly those of the entities that mix it in,
      however many includes lie between. */
  lemma IncluderFilesExactly(g: Graph, files: map<string, string>, toTs: string -> string, mod: string,
                             found: set<string>)
    requires AcyclicFrom(g, mod) && Answers(IncluderFiles(g, files, toTs), mod, found)
    ensures forall ts :: ts in found <==> exists n :: Reaches(g, mod, n) && n in files && toTs(files[n]) == ts
  {
    hide AcyclicFrom, Reaches;
    var w := IncluderFiles(g, files, toTs);
    forall ts ensures ts in found <==> exists n :: Reaches(g, mod, n) && n in files && toTs(files[n]) == ts {
      assert ts in found <==> Gathers(w, mod, ts);
      if n :| Reaches(g, mod, n) && n in files && toTs(files[n]) == ts { assert Adds(w, n, ts); }
      if n :| Reaches(g, mod, n) && Adds(w, n, ts) { assert n in files && toTs(files[n]) == ts; }
    }
  }

  /** The methods a host is expected to have and the files they are searched in never part company: where
      no include cycle lies above the module, the host's file is in the includer files of every module it was given
      methods of. */
  lemma SurfaceWithinSearchSet(g: Graph, mx: Mixins, entities: seq<(string, Entity)>, hostFqn: string, host: Entity,
                               files: map<string, string>, toTs: string -> string, mod: string, found: set<string>)
    requires IncluderGraph(g, mx.resolve, entities) && ListsPackage(entities, mx, hostFqn, host)
    requires AcyclicFrom(g, mod) && hostFqn in files
    requires Mixed(mx, hostFqn, host.includes, mod) || Mixed(mx, hostFqn, host.extendNames, mod)
    requires Answers(IncluderFiles(g, files, toTs), mod, found)
    ensures toTs(files[hostFqn]) in found
  {
    hide IncluderGraph, ListsPackage, AcyclicFrom, Reaches;
    var w, names := IncluderFiles(g, files, toTs), host.includes + host.extendNames;
    MixedSum(mx, hostFqn, host.includes, host.extendNames, mod);
    var p :| HostChain(mx, hostFqn, names, p) && p[|p| - 1] == mod;
    ChainRunsBackwards(g, mx, entities, hostFqn, host, p, |p| - 1);
    assert Adds(w, hostFqn, toTs(files[hostFqn]));
    assert Gathers(w, mod, toTs(files[hostFqn]));
  }

  /** Build the includer graph, flatten the host, resolve every module's includer files on one cache: the host's file
      is among the includer files of every module that gave it methods, where no include cycle lies above it. */
  method SearchSurface(mx: Mixins, moduleNames: seq<string>, entities: seq<(string, Entity)>, hostFqn: string,
                       host: Entity, files: map<string, string>, toTs: string -> string)
      returns (includers: Graph, flat: Flattening, includerFiles: map<string, set<string>>)
    requires ListsPackage(entities, mx, hostFqn, host) && hostFqn in files
    requires forall m :: m in moduleNames <==> m in mx.modules
    ensures IncluderGraph(includers, mx.resolve, entities)
    ensures flat.Valid() && flat.mx == mx && flat.hostFqn == hostFqn && flat.host == host
    ensures forall m :: m in flat.viaInclude <==> Live(mx, m) && Mixed(mx, hostFqn, host.includes, m)
    ensures forall m :: m in flat.viaExtend <==>
      Live(mx, m) && Mixed(mx, hostFqn, host.extendNames, m) && !Mixed(mx, hostFqn, host.includes, m)
    ensures forall m :: m in flat.viaInclude || m in flat.viaExtend ==>
      m in includerFiles && (AcyclicFrom(includers, m) ==> toTs(files[hostFqn]) in includerFiles[m])
  {
    includers := BuildModuleIncluderFqns(entities, mx.resolve);
    assert IncluderGraph(includers, mx.resolve, entities);
    flat := new Flattening(mx, hostFqn, host);
    flat.FlattenIncludedMethodInfos();
    var walk := new MemoWalk(IncluderFiles(includers, files, toTs));
    hide IncluderGraph, ListsPackage, AcyclicFrom, Mixed, IncluderFiles, Answers;
    walk.QueryAll(moduleNames);
    includerFiles := walk.cache;
    forall m | m in flat.viaInclude || m in flat.viaExtend
      ensures m in includerFiles && (AcyclicFrom(includers, m) ==> toTs(files[hostFqn]) in includerFiles[m])
    {
      assert m in moduleNames;
      if AcyclicFrom(includers, m) {
        SurfaceWithinSearchSet(includers, mx, entities, hostFqn, host, files, toTs, m, includerFiles[m]);
      }
    }
  }
}
