/** The layers an instance activates: implicit ones, those the environment names, those the application names. */
module MetaActivate {
  import opened Layers
  import opened MetaVerify
  import opened MetaTheory
  import opened MetaPass
  import opened MetaExpand

  ghost predicate Expandable(source: seq<Layer>, rank: map<string, nat>) {
    DistinctNames(source) && Ranked(source, rank)
  }

  lemma EntryIsReady(source: seq<Layer>, rank: map<string, nat>, i: nat)
    requires Expandable(source, rank) && i < |source|
    ensures Ready(source, rank, source[i])
  {
    FirstIsTheOne(source, i);
  }

  // ---------------------------------------------------------------- what each step does to the lists

  /** Add a layer, with its components if it is a meta-layer, unless its name is already active. */
  ghost function Request(source: seq<Layer>, rank: map<string, nat>, env: Environment, s: Lists, l: Layer): Lists
    requires Ready(source, rank, l)
  {
    if Named(s.target, l.name) then s else Merge(s, WalkOne(source, rank, env, l))
  }

  ghost function Implicits(source: seq<Layer>, rank: map<string, nat>, env: Environment, s: Lists, i: nat): Lists
    requires Expandable(source, rank) && i <= |source|
    decreases |source| - i
  {
    if i == |source| then s
    else
      EntryIsReady(source, rank, i);
      var l := source[i];
      Implicits(source, rank, env,
                if l.isExplicit || env.deferred(l) then s else Merge(s, WalkImplicit(source, rank, env, l)), i + 1)
  }

  ghost function ByVariable(
    source: seq<Layer>, rank: map<string, nat>, env: Environment, s: Lists, names: seq<string>): Lists
    requires Expandable(source, rank)
    decreases names
  {
    if names == [] then s
    else
      ByVariable(source, rank, env,
                 if Has(source, names[0]) then
                   EntryIsReady(source, rank, First(source, names[0]));
                   Request(source, rank, env, s, Get(source, names[0]))
                 else s,
                 names[1..])
  }

  ghost function ByFilter(source: seq<Layer>, rank: map<string, nat>, env: Environment, s: Lists, i: nat): Lists
    requires Expandable(source, rank) && i <= |source|
    decreases |source| - i
  {
    if i == |source| then s
    else
      EntryIsReady(source, rank, i);
      var l := source[i];
      ByFilter(source, rank, env, if l.isExplicit && env.forced(l) then Request(source, rank, env, s, l) else s, i + 1)
  }

  /** The application asks for this name and the loader goes on to add it. */
  ghost predicate Attempts(source: seq<Layer>, env: Environment, s: Lists, name: string) {
    Has(source, name) && !Named(s.target, name) && env.available(Get(source, name))
  }

  ghost function ByApp(source: seq<Layer>, rank: map<string, nat>, env: Environment, s: Lists, name: string): Lists
    requires Expandable(source, rank)
  {
    if Attempts(source, env, s, name) then
      EntryIsReady(source, rank, First(source, name));
      Merge(s, WalkOne(source, rank, env, Get(source, name)))
    else s
  }

  ghost function ByAppAll(
    source: seq<Layer>, rank: map<string, nat>, env: Environment, s: Lists, names: seq<string>): Lists
    requires Expandable(source, rank)
    decreases |names|
  {
    if names == [] then s
    else
      ByApp(source, rank, env, ByAppAll(source, rank, env, s, names[..|names| - 1]), names[|names| - 1])
  }

  // ---------------------------------------------------------------- the loader's loops

  /** `loader_add_implicit_layers`. */
  method AddImplicitLayers(a: Activation, source: seq<Layer>, ghost rank: map<string, nat>, env: Environment)
    returns (r: Outcome)
    requires a.Valid() && Expandable(source, rank)
    modifies a.target, a.expanded
    ensures a.Valid() && (r == Success || r == OutOfMemory)
    ensures r == Success ==> a.Now() == Implicits(source, rank, env, old(a.Now()), 0)
  {
    r := Success;
    var i := 0;
    while i < |source|
      invariant 0 <= i <= |source| && a.Valid() && r == Success
      invariant Implicits(source, rank, env, a.Now(), i) == Implicits(source, rank, env, old(a.Now()), 0)
    {
      EntryIsReady(source, rank, i);
      if !source[i].isExplicit && !env.deferred(source[i]) {
        r := a.AddImplicit(source, rank, env, source[i]);
        if r == OutOfMemory {
          return;
        }
      }
      i := i + 1;
    }
  }

  /** The common tail of the environment loops: skip a name that is already active. */
  method AddIfAbsent(a: Activation, source: seq<Layer>, ghost rank: map<string, nat>, env: Environment, l: Layer)
    returns (r: Outcome)
    requires a.Valid() && Ready(source, rank, l)
    modifies a.target, a.expanded
    ensures a.Valid() && (r == Success || r == OutOfMemory)
    ensures r == Success ==> a.Now() == Request(source, rank, env, old(a.Now()), l)
  {
    var active := FindName(l.name, a.target.items);
    if active {
      return Success;
    }
    r := a.AddOne(source, rank, env, l);
  }

  /** The first loop of `loader_add_environment_layers`; `names` are the entries of VK_INSTANCE_LAYERS. */
  method AddVariableLayers(
    a: Activation, source: seq<Layer>, ghost rank: map<string, nat>, env: Environment, names: seq<string>)
    returns (r: Outcome)
    requires a.Valid() && Expandable(source, rank)
    modifies a.target, a.expanded
    ensures a.Valid() && (r == Success || r == OutOfMemory)
    ensures r == Success ==> a.Now() == ByVariable(source, rank, env, old(a.Now()), names)
  {
    r := Success;
    var k := 0;
    assert names[0..] == names;
    while k < |names|
      invariant 0 <= k <= |names| && a.Valid() && r == Success
      invariant ByVariable(source, rank, env, a.Now(), names[k..]) == ByVariable(source, rank, env, old(a.Now()), names)
    {
      assert names[k..][0] == names[k] && names[k..][1..] == names[k + 1..];
      var found := FindLayerProperty(names[k], source);
      if found.Some? {
        EntryIsReady(source, rank, found.value);
        r := AddIfAbsent(a, source, rank, env, source[found.value]);
        if r == OutOfMemory {
          return;
        }
      }
      k := k + 1;
    }
  }

  /** Its second loop: explicit layers whose name matches the enable filter. */
  method AddFilterLayers(a: Activation, source: seq<Layer>, ghost rank: map<string, nat>, env: Environment)
    returns (r: Outcome)
    requires a.Valid() && Expandable(source, rank)
    modifies a.target, a.expanded
    ensures a.Valid() && (r == Success || r == OutOfMemory)
    ensures r == Success ==> a.Now() == ByFilter(source, rank, env, old(a.Now()), 0)
  {
    r := Success;
    var i := 0;
    while i < |source|
      invariant 0 <= i <= |source| && a.Valid() && r == Success
      invariant ByFilter(source, rank, env, a.Now(), i) == ByFilter(source, rank, env, old(a.Now()), 0)
    {
      EntryIsReady(source, rank, i);
      if source[i].isExplicit && env.forced(source[i]) {
        r := AddIfAbsent(a, source, rank, env, source[i]);
        if r == OutOfMemory {
          return;
        }
      }
      i := i + 1;
    }
  }

  /** The application's `j`-th name makes the loader add something. */
  ghost predicate Attempted(
    source: seq<Layer>, rank: map<string, nat>, env: Environment, s: Lists, names: seq<string>, j: nat)
    requires Expandable(source, rank) && j < |names|
  {
    Attempts(source, env, ByAppAll(source, rank, env, s, names[..j]), names[j])
  }

  /**
    What `loader_add_layer_names_to_list` reports after `n` names: a missing layer is remembered
    only until the next layer is added.
  */
  ghost predicate MissingAfter(
    source: seq<Layer>, rank: map<string, nat>, env: Environment, s: Lists, names: seq<string>, n: nat)
    requires Expandable(source, rank) && n <= |names|
  {
    exists i :: 0 <= i < n && !Has(source, names[i]) &&
                forall j :: i < j < n ==> !Attempted(source, rank, env, s, names, j)
  }

  lemma MissingStep(source: seq<Layer>, rank: map<string, nat>, env: Environment, s: Lists, names: seq<string>, k: nat)
    requires Expandable(source, rank) && k < |names|
    ensures ByAppAll(source, rank, env, s, names[..k + 1])
            == ByApp(source, rank, env, ByAppAll(source, rank, env, s, names[..k]), names[k])
    ensures MissingAfter(source, rank, env, s, names, k + 1) <==>
            || !Has(source, names[k])
            || (MissingAfter(source, rank, env, s, names, k) && !Attempted(source, rank, env, s, names, k))
  {
    ByAppStep(source, rank, env, s, names, k);
    hide ByApp, ByAppAll, Attempted, Has, Expandable;
  }

  lemma ByAppStep(source: seq<Layer>, rank: map<string, nat>, env: Environment, s: Lists, names: seq<string>, k: nat)
    requires Expandable(source, rank) && k < |names|
    ensures ByAppAll(source, rank, env, s, names[..k + 1])
            == ByApp(source, rank, env, ByAppAll(source, rank, env, s, names[..k]), names[k])
  {
    hide ByApp, Has, Expandable;
    assert names[..k + 1][..k] == names[..k];
  }

  /** `loader_add_layer_names_to_list`. */
  method AddNamedLayers(
    a: Activation, source: seq<Layer>, ghost rank: map<string, nat>, env: Environment, names: seq<string>)
    returns (r: Outcome)
    requires a.Valid() && Expandable(source, rank)
    modifies a.target, a.expanded
    ensures a.Valid()
    ensures r != OutOfMemory ==> a.Now() == ByAppAll(source, rank, env, old(a.Now()), names)
    ensures r != OutOfMemory ==>
              (r == LayerNotPresent <==> MissingAfter(source, rank, env, old(a.Now()), names, |names|))
  {
    r := Success;
    ghost var start := a.Now();
    for k := 0 to |names|
      invariant a.Valid() && r != OutOfMemory
      invariant a.Now() == ByAppAll(source, rank, env, start, names[..k])
      invariant r == LayerNotPresent <==> MissingAfter(source, rank, env, start, names, k)
    {
      MissingStep(source, rank, env, start, names, k);
      r := AddNamed(a, source, rank, env, names[k], r);
      if r == OutOfMemory {
        return;
      }
    }
    assert names[..|names|] == names;
  }

  /** One turn of its loop; `before` is the result so far. */
  method AddNamed(
    a: Activation, source: seq<Layer>, ghost rank: map<string, nat>, env: Environment, name: string, before: Outcome)
    returns (r: Outcome)
    requires a.Valid() && Expandable(source, rank) && before != OutOfMemory
    modifies a.target, a.expanded
    ensures a.Valid()
    ensures r != OutOfMemory ==> a.Now() == ByApp(source, rank, env, old(a.Now()), name)
    ensures r != OutOfMemory ==>
              r == if !Has(source, name) then LayerNotPresent
                   else if Attempts(source, env, old(a.Now()), name) then Success else before
  {
    var found := FindLayerProperty(name, source);
    if found.None? {
      return LayerNotPresent;
    }
    var active := FindName(name, a.target.items);
    if active || !env.available(source[found.value]) {
      return before;
    }
    EntryIsReady(source, rank, found.value);
    r := a.AddOne(source, rank, env, source[found.value]);
  }

  /** What implicit layers and the environment contribute, before the application has its say. */
  ghost function BeforeApp(source: seq<Layer>, rank: map<string, nat>, env: Environment, variable: seq<string>): Lists
    requires Expandable(source, rank)
  {
    var implicits := Implicits(source, rank, env, Lists([], []), 0);
    ByFilter(source, rank, env, ByVariable(source, rank, env, implicits, variable), 0)
  }

  // ---------------------------------------------------------------- what the lists have in common

  function Plain(list: seq<Layer>): seq<Layer> {
    if list == [] then []
    else Plain(list[..|list| - 1]) + (if list[|list| - 1].isMeta then [] else [list[|list| - 1]])
  }

  /** The expanded list is the target list without its meta-layers, and no name is in it twice. */
  ghost predicate Flattened(s: Lists) {
    s.expanded == Plain(s.target) && DistinctNames(s.expanded)
  }

  lemma {:induction false} PlainIsPart(list: seq<Layer>, i: nat)
    requires i < |Plain(list)|
    ensures Named(list, Plain(list)[i].name)
  {
    var front := list[..|list| - 1];
    if i < |Plain(front)| {
      PlainIsPart(front, i);
      var j :| 0 <= j < |front| && front[j].name == Plain(front)[i].name;
      assert list[j] == front[j];
    } else {
      assert list[|list| - 1].name == Plain(list)[i].name;
    }
  }

  lemma VisitFlattens(s: Lists, l: Layer)
    requires Flattened(s)
    ensures Flattened(Visit(s, l))
  {
    assert (s.target + [l])[..|s.target|] == s.target;
    if !l.isMeta && !Named(s.target, l.name) {
      forall i | 0 <= i < |s.expanded|
        ensures s.expanded[i].name != l.name
      {
        PlainIsPart(s.target, i);
      }
    }
  }

  lemma {:induction false} MergeFlattens(s: Lists, visits: seq<Layer>)
    requires Flattened(s)
    ensures Flattened(Merge(s, visits))
    decreases visits
  {
    if visits != [] {
      VisitFlattens(s, visits[0]);
      MergeFlattens(Visit(s, visits[0]), visits[1..]);
    }
  }

  lemma {:induction false} ImplicitsFlatten(
    source: seq<Layer>, rank: map<string, nat>, env: Environment, s: Lists, i: nat)
    requires Expandable(source, rank) && i <= |source| && Flattened(s)
    ensures Flattened(Implicits(source, rank, env, s, i))
    decreases |source| - i
  {
    if i < |source| {
      EntryIsReady(source, rank, i);
      var l := source[i];
      if l.isExplicit || env.deferred(l) {
        ImplicitsFlatten(source, rank, env, s, i + 1);
      } else {
        MergeFlattens(s, WalkImplicit(source, rank, env, l));
        ImplicitsFlatten(source, rank, env, Merge(s, WalkImplicit(source, rank, env, l)), i + 1);
      }
    }
  }

  lemma RequestFlattens(source: seq<Layer>, rank: map<string, nat>, env: Environment, s: Lists, l: Layer)
    requires Ready(source, rank, l) && Flattened(s)
    ensures Flattened(Request(source, rank, env, s, l))
  {
    MergeFlattens(s, WalkOne(source, rank, env, l));
  }

  lemma {:induction false} ByVariableFlatten(
    source: seq<Layer>, rank: map<string, nat>, env: Environment, s: Lists, names: seq<string>)
    requires Expandable(source, rank) && Flattened(s)
    ensures Flattened(ByVariable(source, rank, env, s, names))
    decreases names
  {
    if names != [] {
      if Has(source, names[0]) {
        EntryIsReady(source, rank, First(source, names[0]));
        RequestFlattens(source, rank, env, s, Get(source, names[0]));
        ByVariableFlatten(source, rank, env, Request(source, rank, env, s, Get(source, names[0])), names[1..]);
      } else {
        ByVariableFlatten(source, rank, env, s, names[1..]);
      }
    }
  }

  lemma {:induction false} ByFilterFlatten(
    source: seq<Layer>, rank: map<string, nat>, env: Environment, s: Lists, i: nat)
    requires Expandable(source, rank) && i <= |source| && Flattened(s)
    ensures Flattened(ByFilter(source, rank, env, s, i))
    decreases |source| - i
  {
    if i < |source| {
      EntryIsReady(source, rank, i);
      var l := source[i];
      if l.isExplicit && env.forced(l) {
        RequestFlattens(source, rank, env, s, l);
        ByFilterFlatten(source, rank, env, Request(source, rank, env, s, l), i + 1);
      } else {
        ByFilterFlatten(source, rank, env, s, i + 1);
      }
    }
  }

  lemma {:induction false} ByAppAllFlatten(
    source: seq<Layer>, rank: map<string, nat>, env: Environment, s: Lists, names: seq<string>)
    requires Expandable(source, rank) && Flattened(s)
    ensures Flattened(ByAppAll(source, rank, env, s, names))
    decreases |names|
  {
    if names != [] {
      var front := names[..|names| - 1];
      ByAppAllFlatten(source, rank, env, s, front);
      var mid := ByAppAll(source, rank, env, s, front);
      if Attempts(source, env, mid, names[|names| - 1]) {
        EntryIsReady(source, rank, First(source, names[|names| - 1]));
        MergeFlattens(mid, WalkOne(source, rank, env, Get(source, names[|names| - 1])));
      }
    }
  }

  // ---------------------------------------------------------------- completeness of the flattening

  /** A list that passed verification has every component, so no meta-layer is dropped on the way. */
  lemma VerifiedHasAll(source: seq<Layer>, n: string)
    requires AllVerified(source) && Has(source, n) && Get(source, n).isMeta
    ensures AllFound(source, Get(source, n))
  {
    forall k | 0 <= k < |Get(source, n).components|
      ensures Has(source, Get(source, n).components[k])
    {
      ComponentTree(source, n, k);
    }
  }

  lemma {:induction false} SlotIsWalked(
    source: seq<Layer>, rank: map<string, nat>, env: Environment, m: Layer, k: nat, j: nat, l: Layer)
    requires Ready(source, rank, m) && m.isMeta && k <= j < |m.components|
    requires l in WalkSlot(source, rank, env, m, j)
    ensures l in WalkFrom(source, rank, env, m, k)
    decreases j - k
  {
    if k < j {
      SlotIsWalked(source, rank, env, m, k + 1, j, l);
    }
  }

  /** Nothing in the environment holds the layer back when it is met as a component. */
  predicate Admitted(env: Environment, l: Layer) {
    env.available(l) && (l.isExplicit || env.enabled(l))
  }

  /** `path` leads from `m` through admitted meta-layers to an admitted layer. */
  ghost predicate Leads(source: seq<Layer>, env: Environment, m: Layer, path: seq<nat>, l: Layer)
    decreases path
  {
    if path == [] then l == m
    else
      && path[0] < |m.components|
      && Has(source, m.components[path[0]])
      && var c := Get(source, m.components[path[0]]);
         Admitted(env, c) && (|path| > 1 ==> c.isMeta) && Leads(source, env, c, path[1..], l)
  }

  /** Every layer that admitted components lead to is visited. */
  lemma {:induction false} LeadsIsWalked(
    source: seq<Layer>, rank: map<string, nat>, env: Environment, m: Layer, path: seq<nat>, l: Layer)
    requires Ready(source, rank, m) && m.isMeta && path != [] && !l.isMeta && Leads(source, env, m, path, l)
    ensures l in Walk(source, rank, env, m)
    decreases path
  {
    var k := path[0];
    ComponentIsLower(source, rank, m, k);
    var c := Get(source, m.components[k]);
    if |path| > 1 {
      LeadsIsWalked(source, rank, env, c, path[1..], l);
    } else {
      assert path[1..] == [];
    }
    assert l in WalkOne(source, rank, env, c);
    assert l in WalkSlot(source, rank, env, m, k);
    SlotIsWalked(source, rank, env, m, 0, k, l);
  }

  lemma {:induction false} WalkedSlot(
    source: seq<Layer>, rank: map<string, nat>, env: Environment, m: Layer, k: nat, l: Layer) returns (j: nat)
    requires Ready(source, rank, m) && m.isMeta && k <= |m.components| && l in WalkFrom(source, rank, env, m, k)
    ensures k <= j < |m.components| && l in WalkSlot(source, rank, env, m, j)
    decreases |m.components| - k
  {
    if l in WalkSlot(source, rank, env, m, k) {
      j := k;
    } else {
      j := WalkedSlot(source, rank, env, m, k + 1, l);
    }
  }

  /** And nothing else is: admitted components lead to every visited layer. */
  lemma {:induction false} WalkedIsLedTo(
    source: seq<Layer>, rank: map<string, nat>, env: Environment, m: Layer, l: Layer) returns (path: seq<nat>)
    requires Ready(source, rank, m) && m.isMeta && l in Walk(source, rank, env, m)
    ensures Leads(source, env, m, path, l) && (!l.isMeta ==> path != [])
    decreases Level(rank, m)
  {
    if l in WalkFrom(source, rank, env, m, 0) {
      var k := WalkedSlot(source, rank, env, m, 0, l);
      ComponentIsLower(source, rank, m, k);
      var c := Get(source, m.components[k]);
      assert l in WalkOne(source, rank, env, c);
      var rest: seq<nat> := [];
      if c.isMeta {
        rest := WalkedIsLedTo(source, rank, env, c, l);
      }
      path := [k] + rest;
      assert path[1..] == rest;
    } else {
      path := [];
    }
  }

  /** The names on the target list after a merge: those that were there, and those that were visited. */
  lemma {:induction false} MergeNames(s: Lists, visits: seq<Layer>, name: string)
    ensures Named(Merge(s, visits).target, name) <==> Named(s.target, name) || Visited(visits, name)
    decreases visits
  {
    if visits != [] {
      var next := Visit(s, visits[0]);
      MergeNames(next, visits[1..], name);
      VisitNames(s, visits[0], name);
      assert visits == [visits[0]] + visits[1..];
    }
  }

  lemma VisitNames(s: Lists, l: Layer, name: string)
    ensures Named(Visit(s, l).target, name) <==> Named(s.target, name) || l.name == name
  {
    var next := Visit(s, l);
    if i :| 0 <= i < |s.target| && s.target[i].name == name {
      assert next.target[i].name == name;
    }
    if l.name == name && (l.isMeta || !Named(s.target, l.name)) {
      assert next.target[|s.target|].name == name;
    }
  }

  lemma {:induction false} LeadsToFound(source: seq<Layer>, env: Environment, m: Layer, path: seq<nat>, l: Layer)
    requires Leads(source, env, m, path, l) && Has(source, m.name) && Get(source, m.name) == m
    ensures Has(source, l.name) && Get(source, l.name) == l
    decreases path
  {
    if path != [] {
      LeadsToFound(source, env, Get(source, m.components[path[0]]), path[1..], l);
    }
  }

  /** Admitted components lead from the meta-layer to the layer. */
  ghost predicate Reaches(source: seq<Layer>, env: Environment, m: Layer, l: Layer) {
    exists path: seq<nat> :: path != [] && Leads(source, env, m, path, l)
  }

  ghost predicate Visited(visits: seq<Layer>, name: string) {
    exists x :: x in visits && x.name == name
  }

  lemma VisitedIffReached(source: seq<Layer>, rank: map<string, nat>, env: Environment, m: Layer, l: Layer)
    requires Ready(source, rank, m) && m.isMeta && Ready(source, rank, l) && !l.isMeta
    ensures Visited(Walk(source, rank, env, m), l.name) <==> Reaches(source, env, m, l)
  {
    hide Walk, Leads;
    var visits := Walk(source, rank, env, m);
    if Visited(visits, l.name) {
      var x :| x in visits && x.name == l.name;
      var path := WalkedIsLedTo(source, rank, env, m, x);
      LeadsToFound(source, env, m, path, x);
      assert path != [] && Leads(source, env, m, path, l);
    }
    if Reaches(source, env, m, l) {
      var path: seq<nat> :| path != [] && Leads(source, env, m, path, l);
      LeadsIsWalked(source, rank, env, m, path, l);
      assert l in visits;
    }
  }

  /**
    When `m` is activated, a plain layer is on the target list afterwards if and only if its name was there
    or admitted components lead from `m` to it.
  */
  lemma ActivationReachesIff(source: seq<Layer>, rank: map<string, nat>, env: Environment, s: Lists, m: Layer, l: Layer)
    requires Ready(source, rank, m) && m.isMeta && Ready(source, rank, l) && !l.isMeta
    ensures Named(Merge(s, Walk(source, rank, env, m)).target, l.name) <==>
      Named(s.target, l.name) || Reaches(source, env, m, l)
  {
    hide Walk, Merge, Named, Reaches, Visited;
    VisitedIffReached(source, rank, env, m, l);
    MergeNames(s, Walk(source, rank, env, m), l.name);
  }

  // ---------------------------------------------------------------- two promises that fail

  const OUTER := Layer("outer", true, true, false, V, ["inner"])
  const INNER := Layer("inner", true, true, false, V, ["absent"])

  /**
    A missing component keeps its own meta-layer off the target list but not the meta-layer that
    lists that one, although the caller passes a flag down to learn about it.
  */
  lemma NestedMissIsIgnored(env: Environment, rank: map<string, nat>)
    requires env.available(INNER)
    requires Ranked([OUTER, INNER], rank)
    ensures Ready([OUTER, INNER], rank, OUTER) && Ready([OUTER, INNER], rank, INNER)
    ensures Walk([OUTER, INNER], rank, env, INNER) == []
    ensures Walk([OUTER, INNER], rank, env, OUTER) == [OUTER]
  {
    var source := [OUTER, INNER];
    assert First(source, "outer") == 0 && First(source, "inner") == 1 && First(source, "absent") == 2;
    assert !AllFound(source, INNER) by {
      assert !Has(source, INNER.components[0]);
    }
    assert WalkFrom(source, rank, env, INNER, 1) == [];
    assert WalkFrom(source, rank, env, INNER, 0) == WalkSlot(source, rank, env, INNER, 0) == [];
    assert WalkSlot(source, rank, env, OUTER, 0) == WalkOne(source, rank, env, INNER) == [];
    assert WalkFrom(source, rank, env, OUTER, 1) == [];
    assert AllFound(source, OUTER);
  }

  /** Nothing is missing below the meta-layer, however deep: what the flag was meant to tell. */
  ghost predicate DeepFound(source: seq<Layer>, rank: map<string, nat>, env: Environment, m: Layer)
    requires Ready(source, rank, m) && m.isMeta
    decreases Level(rank, m), 1
  {
    AllFound(source, m) && forall k :: 0 <= k < |m.components| ==> DeepFoundAt(source, rank, env, m, k)
  }

  ghost predicate DeepFoundAt(source: seq<Layer>, rank: map<string, nat>, env: Environment, m: Layer, k: nat)
    requires Ready(source, rank, m) && m.isMeta && k < |m.components|
    decreases Level(rank, m), 0
  {
    Has(source, m.components[k]) ==>
      (ComponentIsLower(source, rank, m, k);
       var c := Get(source, m.components[k]);
       c.isMeta && Admitted(env, c) ==> DeepFound(source, rank, env, c))
  }

  /** The meta-layer lists an admitted meta-layer, which has a missing component of its own. */
  ghost predicate ListsIncomplete(source: seq<Layer>, env: Environment, m: Layer, k: nat) {
    && k < |m.components| && Has(source, m.components[k])
    && var c := Get(source, m.components[k]);
       c.isMeta && Admitted(env, c) && !AllFound(source, c)
  }

  lemma {:induction false} FoundIsDeep(source: seq<Layer>, rank: map<string, nat>, env: Environment, m: Layer)
    requires Ready(source, rank, m) && m.isMeta && AllFound(source, m)
    requires forall x, k: nat ::
      Ready(source, rank, x) && x.isMeta && AllFound(source, x) ==> !ListsIncomplete(source, env, x, k)
    ensures DeepFound(source, rank, env, m)
    decreases Level(rank, m)
  {
    forall k | 0 <= k < |m.components| ensures DeepFoundAt(source, rank, env, m, k) {
      ComponentIsLower(source, rank, m, k);
      var c := Get(source, m.components[k]);
      if c.isMeta && Admitted(env, c) {
        assert !ListsIncomplete(source, env, m, k);
        FoundIsDeep(source, rank, env, c);
      }
    }
  }

  lemma DeepListsComplete(source: seq<Layer>, rank: map<string, nat>, env: Environment, m: Layer, k: nat)
    requires Ready(source, rank, m) && m.isMeta && DeepFound(source, rank, env, m)
    ensures !ListsIncomplete(source, env, m, k)
  {
    if k < |m.components| && Has(source, m.components[k]) {
      assert DeepFoundAt(source, rank, env, m, k);
      ComponentIsLower(source, rank, m, k);
      var c := Get(source, m.components[k]);
      assert c.isMeta && Admitted(env, c) ==> DeepFound(source, rank, env, c);
    }
  }

  /**
    For every meta-layer of a list, looking at its own components tells whether anything below is missing, if
    and only if no complete meta-layer lists an admitted incomplete one.
  */
  lemma OwnVerdictIsDeepIff(source: seq<Layer>, rank: map<string, nat>, env: Environment)
    ensures
      (forall m :: Ready(source, rank, m) && m.isMeta ==> (AllFound(source, m) <==> DeepFound(source, rank, env, m)))
      <==> (forall m, k: nat ::
        Ready(source, rank, m) && m.isMeta && AllFound(source, m) ==> !ListsIncomplete(source, env, m, k))
  {
    if forall m :: Ready(source, rank, m) && m.isMeta ==> (AllFound(source, m) <==> DeepFound(source, rank, env, m)) {
      forall m, k: nat | Ready(source, rank, m) && m.isMeta && AllFound(source, m)
        ensures !ListsIncomplete(source, env, m, k)
      {
        assert DeepFound(source, rank, env, m);
        DeepListsComplete(source, rank, env, m, k);
      }
    }
    if forall m, k: nat ::
      Ready(source, rank, m) && m.isMeta && AllFound(source, m) ==> !ListsIncomplete(source, env, m, k) {
      forall m | Ready(source, rank, m) && m.isMeta && AllFound(source, m) ensures DeepFound(source, rank, env, m) {
        FoundIsDeep(source, rank, env, m);
      }
    }
  }

  const PRESENT := Layer("present", false, true, false, V, [])

  /** A missing layer followed by one that can be added goes unreported. */
  lemma MissingIsForgotten(env: Environment, rank: map<string, nat>)
    requires env.available(PRESENT)
    requires Ranked([PRESENT], rank)
    ensures Expandable([PRESENT], rank)
    ensures !Has([PRESENT], "absent")
    ensures !MissingAfter([PRESENT], rank, env, Lists([], []), ["absent", "present"], 2)
    ensures MissingAfter([PRESENT], rank, env, Lists([], []), ["present", "absent"], 2)
  {
    var source, s := [PRESENT], Lists([], []);
    assert First(source, "present") == 0 && First(source, "absent") == 1;
    var names := ["absent", "present"];
    assert names[..1] == ["absent"] && names[..2] == names && names[..0] == [];
    MissingStep(source, rank, env, s, names, 0);
    MissingStep(source, rank, env, s, names, 1);
    assert ByAppAll(source, rank, env, s, names[..1]) == s;
    assert Attempts(source, env, s, "present");
    var other := ["present", "absent"];
    assert !Has(source, other[1]);
  }
}
