/**
  The order in which layers become active: first the implicit ones, then those the variable names, then those the
  filter forces, then those the application names.  Calls go through the layers in this order.
*/
module MetaOrder {
  import opened Layers
  import opened MetaVerify
  import opened MetaExpand
  import opened MetaActivate
  import opened MetaRoots

  // ---------------------------------------------------------------- the roots in order

  /** The layers of the list that are wanted, in order. */
  function Those(list: seq<Layer>, wanted: Layer -> bool): seq<Layer> {
    if list == [] then [] else (if wanted(list[0]) then [list[0]] else []) + Those(list[1..], wanted)
  }

  /** The layers found for the names, in the order of the names. */
  function FoundFor(source: seq<Layer>, names: seq<string>): seq<Layer> {
    if names == [] then []
    else (if Has(source, names[0]) then [Get(source, names[0])] else []) + FoundFor(source, names[1..])
  }

  ghost function RootsInOrder(source: seq<Layer>, env: Environment, variable: seq<string>, names: seq<string>)
    : seq<Layer>
  {
    Those(source, (l: Layer) => !l.isExplicit && !env.deferred(l) && env.enabled(l))
    + FoundFor(source, variable)
    + Those(source, (l: Layer) => l.isExplicit && env.forced(l))
    + Those(FoundFor(source, names), env.available)
  }

  /** Every layer the first time its name comes up. */
  function Firsts(list: seq<Layer>): seq<Layer> {
    if list == [] then []
    else
      var front, last := list[..|list| - 1], list[|list| - 1];
      Firsts(front) + if Named(front, last.name) then [] else [last]
  }

  ghost predicate AllReady(source: seq<Layer>, rank: map<string, nat>, list: seq<Layer>) {
    forall l <- list :: Ready(source, rank, l)
  }

  /** The walks of the roots, one after the other. */
  ghost function Walks(source: seq<Layer>, rank: map<string, nat>, env: Environment, roots: seq<Layer>): seq<Layer>
    requires AllReady(source, rank, roots)
  {
    if roots == [] then []
    else WalkOne(source, rank, env, roots[0]) + Walks(source, rank, env, roots[1..])
  }

  // ---------------------------------------------------------------- first occurrences

  lemma {:induction false} FirstsNames(list: seq<Layer>, name: string)
    ensures Named(Firsts(list), name) <==> Named(list, name)
  {
    hide Named;
    if list == [] {
      assert Firsts(list) == list;
    } else {
      var front, last := list[..|list| - 1], list[|list| - 1];
      FirstsNames(front, name);
      assert list == front + [last] && Firsts(front) + [] == Firsts(front);
      NamedSnoc(front, last, name);
      NamedSnoc(Firsts(front), last, name);
    }
  }

  lemma NamedSnoc(list: seq<Layer>, l: Layer, name: string)
    ensures Named(list + [l], name) <==> Named(list, name) || l.name == name
  {
    var more := list + [l];
    if Named(list, name) {
      var i :| 0 <= i < |list| && list[i].name == name;
      assert more[i].name == name;
    }
    if l.name == name {
      assert more[|list|].name == name;
    }
  }

  lemma FirstsSnoc(list: seq<Layer>, l: Layer)
    ensures Firsts(list + [l]) == Firsts(list) + if Named(list, l.name) then [] else [l]
  {
    assert (list + [l])[..|list|] == list;
  }

  /** What came up before changes nothing. */
  lemma {:induction false} FirstsAgain(list: seq<Layer>, more: seq<Layer>)
    requires forall l <- more :: Named(list, l.name)
    ensures Firsts(list + more) == Firsts(list)
    decreases |more|
  {
    if more == [] {
      assert list + more == list;
    } else {
      var front, last := more[..|more| - 1], more[|more| - 1];
      assert more == front + [last] && list + more == (list + front) + [last];
      FirstsAgain(list, front);
      FirstsSnoc(list + front, last);
      var i :| 0 <= i < |list| && list[i].name == last.name;
      assert (list + front)[i].name == last.name;
    }
  }

  lemma {:induction false} PlainSplit(a: seq<Layer>, b: seq<Layer>)
    ensures Plain(a + b) == Plain(a) + Plain(b)
    decreases |b|
  {
    if b == [] {
      assert a + b == a;
    } else {
      var front, last := b[..|b| - 1], b[|b| - 1];
      PlainSplit(a, front);
      assert (a + b)[..|a + b| - 1] == a + front;
    }
  }

  lemma {:induction false} PlainIs(list: seq<Layer>, l: Layer)
    ensures l in Plain(list) <==> l in list && !l.isMeta
  {
    if list != [] {
      PlainIs(list[..|list| - 1], l);
      assert list == list[..|list| - 1] + [list[|list| - 1]];
    }
  }

  // ---------------------------------------------------------------- the lists follow the visits

  /** The expanded list is the plain layers among the visits so far, each the first time. */
  ghost predicate Follows(source: seq<Layer>, rank: map<string, nat>, s: Lists, visits: seq<Layer>) {
    && Flattened(s) && AllReady(source, rank, s.target) && AllReady(source, rank, visits)
    && s.expanded == Firsts(Plain(visits))
  }

  /** Of a plain layer, the target list knows the name exactly when the visits came by it. */
  lemma NamedIffVisited(source: seq<Layer>, rank: map<string, nat>, s: Lists, visits: seq<Layer>, l: Layer)
    requires Follows(source, rank, s, visits) && Ready(source, rank, l) && !l.isMeta
    ensures Named(s.target, l.name) <==> Named(Plain(visits), l.name)
  {
    FirstsNames(Plain(visits), l.name);
    if Named(s.target, l.name) {
      var i :| 0 <= i < |s.target| && s.target[i].name == l.name;
      assert s.target[i] in s.target && s.target[i] == l;
      PlainIs(s.target, l);
      assert l in s.expanded;
    }
    if Named(s.expanded, l.name) {
      var i :| 0 <= i < |s.expanded| && s.expanded[i].name == l.name;
      PlainIsPart(s.target, i);
    }
  }

  lemma VisitFollows(source: seq<Layer>, rank: map<string, nat>, s: Lists, visits: seq<Layer>, l: Layer)
    requires Follows(source, rank, s, visits) && Ready(source, rank, l)
    ensures Follows(source, rank, Visit(s, l), visits + [l])
  {
    hide Plain, Firsts, Flattened, Ready, Named;
    VisitFlattens(s, l);
    PlainSnoc(visits, l);
    if !l.isMeta {
      NamedIffVisited(source, rank, s, visits, l);
      FirstsSnoc(Plain(visits), l);
      assert s.expanded + [] == s.expanded;
    }
  }

  lemma PlainSnoc(list: seq<Layer>, l: Layer)
    ensures Plain(list + [l]) == if l.isMeta then Plain(list) else Plain(list) + [l]
  {
    assert (list + [l])[..|list|] == list;
  }

  lemma {:induction false} MergeFollows(
    source: seq<Layer>, rank: map<string, nat>, s: Lists, visits: seq<Layer>, more: seq<Layer>)
    requires Follows(source, rank, s, visits) && AllReady(source, rank, more)
    ensures Follows(source, rank, Merge(s, more), visits + more)
    ensures s.target <= Merge(s, more).target && s.expanded <= Merge(s, more).expanded
    decreases more
  {
    hide Follows, Ready;
    if more == [] {
      assert visits + more == visits;
    } else {
      VisitFollows(source, rank, s, visits, more[0]);
      MergeFollows(source, rank, Visit(s, more[0]), visits + [more[0]], more[1..]);
      assert visits + more == (visits + [more[0]]) + more[1..];
    }
  }

  lemma WalkIsReady(source: seq<Layer>, rank: map<string, nat>, env: Environment, l: Layer)
    requires Ready(source, rank, l)
    ensures AllReady(source, rank, WalkOne(source, rank, env, l))
  {
    hide WalkOne, Ready;
    forall x <- WalkOne(source, rank, env, l) ensures Ready(source, rank, x) {
      WalkedIsReady(source, rank, env, l, x);
    }
  }

  /** A root that is active already adds nothing, and its walk would not either. */
  lemma SkipFollows(
    source: seq<Layer>, rank: map<string, nat>, env: Environment, s: Lists, roots: set<Layer>, visits: seq<Layer>,
    l: Layer)
    requires Follows(source, rank, s, visits) && Covers(source, rank, env, s, roots)
    requires Ready(source, rank, l) && Named(s.target, l.name)
    ensures Follows(source, rank, s, visits + WalkOne(source, rank, env, l))
  {
    var walk := WalkOne(source, rank, env, l);
    WalkIsReady(source, rank, env, l);
    PlainSplit(visits, walk);
    forall x <- Plain(walk) ensures Named(Plain(visits), x.name) {
      PlainIs(walk, x);
      assert Visited(walk, x.name);
      NamedIsCovered(source, rank, env, s, roots, l, x.name);
      NamedIffVisited(source, rank, s, visits, x);
    }
    FirstsAgain(Plain(visits), Plain(walk));
    hide Plain, Firsts, Flattened, Ready, Named, WalkOne, Covers;
  }

  // ---------------------------------------------------------------- one step, root by root

  /** The roots go in one after the other; if not `always`, only those that are not active yet. */
  ghost function Each(
    source: seq<Layer>, rank: map<string, nat>, env: Environment, s: Lists, roots: seq<Layer>, always: bool): Lists
    requires AllReady(source, rank, roots)
    decreases |roots|
  {
    if roots == [] then s
    else
      var l := roots[0];
      Each(source, rank, env,
           if always then Merge(s, WalkOne(source, rank, env, l)) else Request(source, rank, env, s, l),
           roots[1..], always)
  }

  ghost predicate Extends(s: Lists, more: Lists) {
    s.target <= more.target && s.expanded <= more.expanded
  }

  lemma OneFollows(
    source: seq<Layer>, rank: map<string, nat>, env: Environment, s: Lists, roots: set<Layer>, visits: seq<Layer>,
    l: Layer, always: bool)
    requires Follows(source, rank, s, visits) && Covers(source, rank, env, s, roots) && Ready(source, rank, l)
    ensures
      var next := if always then Merge(s, WalkOne(source, rank, env, l)) else Request(source, rank, env, s, l);
      && Follows(source, rank, next, visits + WalkOne(source, rank, env, l))
      && Covers(source, rank, env, next, roots + {l}) && Extends(s, next)
  {
    hide Follows, Covers, WalkOne, Ready;
    WalkIsReady(source, rank, env, l);
    MergeFollows(source, rank, s, visits, WalkOne(source, rank, env, l));
    MergeCovers(source, rank, env, s, roots, l);
    RequestCovers(source, rank, env, s, roots, l);
    if Named(s.target, l.name) {
      SkipFollows(source, rank, env, s, roots, visits, l);
    }
  }

  lemma {:induction false} EachFollows(
    source: seq<Layer>, rank: map<string, nat>, env: Environment, s: Lists, given: set<Layer>, visits: seq<Layer>,
    roots: seq<Layer>, always: bool) returns (all: set<Layer>)
    requires Follows(source, rank, s, visits) && Covers(source, rank, env, s, given) && AllReady(source, rank, roots)
    ensures var end := Each(source, rank, env, s, roots, always);
            && Follows(source, rank, end, visits + Walks(source, rank, env, roots))
            && Covers(source, rank, env, end, all) && Extends(s, end)
    decreases |roots|
  {
    hide Follows, Covers, WalkOne, Ready, Request, Merge;
    if roots == [] {
      all := given;
      assert visits + [] == visits;
    } else {
      var l, walk := roots[0], WalkOne(source, rank, env, roots[0]);
      OneFollows(source, rank, env, s, given, visits, l, always);
      var next := if always then Merge(s, walk) else Request(source, rank, env, s, l);
      all := EachFollows(source, rank, env, next, given + {l}, visits + walk, roots[1..], always);
      assert visits + Walks(source, rank, env, roots) == (visits + walk) + Walks(source, rank, env, roots[1..]);
    }
  }

  // ---------------------------------------------------------------- the steps of the loader

  lemma {:induction false} ThoseAreReady(
    source: seq<Layer>, rank: map<string, nat>, list: seq<Layer>, wanted: Layer -> bool)
    requires AllReady(source, rank, list)
    ensures AllReady(source, rank, Those(list, wanted))
  {
    hide Ready;
    if list != [] {
      ThoseAreReady(source, rank, list[1..], wanted);
    }
  }

  lemma {:induction false} FoundAreReady(source: seq<Layer>, rank: map<string, nat>, names: seq<string>)
    requires Expandable(source, rank)
    ensures AllReady(source, rank, FoundFor(source, names))
  {
    if names != [] {
      FoundAreReady(source, rank, names[1..]);
      if Has(source, names[0]) {
        EntryIsReady(source, rank, First(source, names[0]));
      }
    }
  }

  lemma SourceIsReady(source: seq<Layer>, rank: map<string, nat>)
    requires Expandable(source, rank)
    ensures AllReady(source, rank, source)
  {
    hide Ready, Expandable;
    forall l <- source ensures Ready(source, rank, l) {
      var i :| 0 <= i < |source| && source[i] == l;
      EntryIsReady(source, rank, i);
    }
  }

  lemma {:induction false} ImplicitsAreEach(
    source: seq<Layer>, rank: map<string, nat>, env: Environment, s: Lists, i: nat, wanted: Layer -> bool)
    requires Expandable(source, rank) && i <= |source|
    requires forall l :: wanted(l) <==> !l.isExplicit && !env.deferred(l) && env.enabled(l)
    ensures AllReady(source, rank, Those(source[i..], wanted))
    ensures Implicits(source, rank, env, s, i) == Each(source, rank, env, s, Those(source[i..], wanted), true)
    decreases |source| - i
  {
    SourceIsReady(source, rank);
    ThoseAreReady(source, rank, source[i..], wanted);
    hide WalkOne, Merge, Expandable, Ready;
    if i < |source| {
      EntryIsReady(source, rank, i);
      var l := source[i];
      assert source[i..][0] == l && source[i..][1..] == source[i + 1..];
      MergeNothing(s);
      ImplicitsAreEach(source, rank, env, s, i + 1, wanted);
      if wanted(l) {
        ImplicitsAreEach(source, rank, env, Merge(s, WalkOne(source, rank, env, l)), i + 1, wanted);
        assert Those(source[i..], wanted)[1..] == Those(source[i + 1..], wanted);
      } else {
        assert Those(source[i..], wanted) == Those(source[i + 1..], wanted);
      }
    }
  }

  lemma {:induction false} VariableIsEach(
    source: seq<Layer>, rank: map<string, nat>, env: Environment, s: Lists, names: seq<string>)
    requires Expandable(source, rank)
    ensures AllReady(source, rank, FoundFor(source, names))
    ensures ByVariable(source, rank, env, s, names) == Each(source, rank, env, s, FoundFor(source, names), false)
    decreases |names|
  {
    FoundAreReady(source, rank, names);
    hide Request, Expandable, Ready;
    if names != [] {
      if Has(source, names[0]) {
        EntryIsReady(source, rank, First(source, names[0]));
        VariableIsEach(source, rank, env, Request(source, rank, env, s, Get(source, names[0])), names[1..]);
        assert FoundFor(source, names)[1..] == FoundFor(source, names[1..]);
      } else {
        VariableIsEach(source, rank, env, s, names[1..]);
        assert FoundFor(source, names) == FoundFor(source, names[1..]);
      }
    }
  }

  lemma {:induction false} FilterIsEach(
    source: seq<Layer>, rank: map<string, nat>, env: Environment, s: Lists, i: nat, wanted: Layer -> bool)
    requires Expandable(source, rank) && i <= |source|
    requires forall l :: wanted(l) <==> l.isExplicit && env.forced(l)
    ensures AllReady(source, rank, Those(source[i..], wanted))
    ensures ByFilter(source, rank, env, s, i) == Each(source, rank, env, s, Those(source[i..], wanted), false)
    decreases |source| - i
  {
    SourceIsReady(source, rank);
    ThoseAreReady(source, rank, source[i..], wanted);
    hide Request, Expandable, Ready;
    if i < |source| {
      EntryIsReady(source, rank, i);
      var l := source[i];
      assert source[i..][0] == l && source[i..][1..] == source[i + 1..];
      if wanted(l) {
        FilterIsEach(source, rank, env, Request(source, rank, env, s, l), i + 1, wanted);
        assert Those(source[i..], wanted)[1..] == Those(source[i + 1..], wanted);
      } else {
        FilterIsEach(source, rank, env, s, i + 1, wanted);
        assert Those(source[i..], wanted) == Those(source[i + 1..], wanted);
      }
    }
  }

  lemma {:induction false} EachLast(
    source: seq<Layer>, rank: map<string, nat>, env: Environment, s: Lists, roots: seq<Layer>, l: Layer)
    requires AllReady(source, rank, roots) && Ready(source, rank, l)
    ensures AllReady(source, rank, roots + [l])
    ensures Each(source, rank, env, s, roots + [l], false)
            == Request(source, rank, env, Each(source, rank, env, s, roots, false), l)
    decreases |roots|
  {
    hide Request, Ready;
    if roots == [] {
      assert roots + [l] == [l] && [l][1..] == [];
    } else {
      assert (roots + [l])[1..] == roots[1..] + [l] && (roots + [l])[0] == roots[0];
      EachLast(source, rank, env, Request(source, rank, env, s, roots[0]), roots[1..], l);
    }
  }

  lemma {:induction false} ThoseSplit(a: seq<Layer>, b: seq<Layer>, wanted: Layer -> bool)
    ensures Those(a + b, wanted) == Those(a, wanted) + Those(b, wanted)
  {
    if a == [] {
      assert a + b == b;
    } else {
      assert (a + b)[0] == a[0] && (a + b)[1..] == a[1..] + b;
      ThoseSplit(a[1..], b, wanted);
      var head := if wanted(a[0]) then [a[0]] else [];
      assert Those(a + b, wanted) == head + Those(a[1..] + b, wanted);
      assert Those(a, wanted) == head + Those(a[1..], wanted);
      hide Those;
    }
  }

  lemma {:induction false} FoundSplit(source: seq<Layer>, a: seq<string>, b: seq<string>)
    ensures FoundFor(source, a + b) == FoundFor(source, a) + FoundFor(source, b)
  {
    if a == [] {
      assert a + b == b;
    } else {
      assert (a + b)[0] == a[0] && (a + b)[1..] == a[1..] + b;
      FoundSplit(source, a[1..], b);
      var head := if Has(source, a[0]) then [Get(source, a[0])] else [];
      assert FoundFor(source, a + b) == head + FoundFor(source, a[1..] + b);
      assert FoundFor(source, a) == head + FoundFor(source, a[1..]);
      hide FoundFor;
    }
  }

  lemma AskedLast(source: seq<Layer>, names: seq<string>, name: string, wanted: Layer -> bool)
    ensures Those(FoundFor(source, names + [name]), wanted) == Those(FoundFor(source, names), wanted)
            + if Has(source, name) && wanted(Get(source, name)) then [Get(source, name)] else []
  {
    FoundSplit(source, names, [name]);
    ThoseSplit(FoundFor(source, names), FoundFor(source, [name]), wanted);
    assert [name][1..] == [];
  }

  lemma {:induction false} AppIsEach(
    source: seq<Layer>, rank: map<string, nat>, env: Environment, s: Lists, names: seq<string>)
    requires Expandable(source, rank)
    ensures AllReady(source, rank, Those(FoundFor(source, names), env.available))
    ensures ByAppAll(source, rank, env, s, names)
            == Each(source, rank, env, s, Those(FoundFor(source, names), env.available), false)
    decreases |names|
  {
    FoundAreReady(source, rank, names);
    ThoseAreReady(source, rank, FoundFor(source, names), env.available);
    hide WalkOne, Merge, Expandable, Ready, Named;
    if names != [] {
      var front, last := names[..|names| - 1], names[|names| - 1];
      assert names == front + [last];
      AppIsEach(source, rank, env, s, front);
      AskedLast(source, front, last, env.available);
      if Has(source, last) && env.available(Get(source, last)) {
        EntryIsReady(source, rank, First(source, last));
        EachLast(source, rank, env, s, Those(FoundFor(source, front), env.available), Get(source, last));
      } else {
        var before := Those(FoundFor(source, front), env.available);
        assert before + [] == before;
      }
    }
  }

  // ---------------------------------------------------------------- the whole run

  /** Each of the four steps puts its roots in, one after the other. */
  lemma StepsAreEach(
    source: seq<Layer>, rank: map<string, nat>, env: Environment, variable: seq<string>, names: seq<string>)
    returns (a: seq<Layer>, b: seq<Layer>, c: seq<Layer>, d: seq<Layer>)
    requires Expandable(source, rank)
    ensures a + b + c + d == RootsInOrder(source, env, variable, names)
    ensures AllReady(source, rank, a) && AllReady(source, rank, b) && AllReady(source, rank, c)
    ensures AllReady(source, rank, d)
    ensures forall s :: Implicits(source, rank, env, s, 0) == Each(source, rank, env, s, a, true)
    ensures forall s :: ByVariable(source, rank, env, s, variable) == Each(source, rank, env, s, b, false)
    ensures forall s :: ByFilter(source, rank, env, s, 0) == Each(source, rank, env, s, c, false)
    ensures forall s :: ByAppAll(source, rank, env, s, names) == Each(source, rank, env, s, d, false)
  {
    var wanted := (l: Layer) => !l.isExplicit && !env.deferred(l) && env.enabled(l);
    var forced := (l: Layer) => l.isExplicit && env.forced(l);
    a, b := Those(source, wanted), FoundFor(source, variable);
    c, d := Those(source, forced), Those(FoundFor(source, names), env.available);
    hide Those, FoundFor, Each, Implicits, ByVariable, ByFilter, ByAppAll, Ready, Expandable;
    assert source[0..] == source;
    ImplicitsAreEach(source, rank, env, Lists([], []), 0, wanted);
    VariableIsEach(source, rank, env, Lists([], []), variable);
    FilterIsEach(source, rank, env, Lists([], []), 0, forced);
    AppIsEach(source, rank, env, Lists([], []), names);
    forall s ensures Implicits(source, rank, env, s, 0) == Each(source, rank, env, s, a, true) {
      ImplicitsAreEach(source, rank, env, s, 0, wanted);
    }
    forall s ensures ByVariable(source, rank, env, s, variable) == Each(source, rank, env, s, b, false) {
      VariableIsEach(source, rank, env, s, variable);
    }
    forall s ensures ByFilter(source, rank, env, s, 0) == Each(source, rank, env, s, c, false) {
      FilterIsEach(source, rank, env, s, 0, forced);
    }
    forall s ensures ByAppAll(source, rank, env, s, names) == Each(source, rank, env, s, d, false) {
      AppIsEach(source, rank, env, s, names);
    }
  }

  /** After each of the four steps the lists follow the visits of the roots so far. */
  lemma RunFollows(
    source: seq<Layer>, rank: map<string, nat>, env: Environment, variable: seq<string>, names: seq<string>)
    requires Expandable(source, rank)
    ensures
      var none := Lists([], []);
      var one := Implicits(source, rank, env, none, 0);
      var two := ByVariable(source, rank, env, one, variable);
      var three := ByFilter(source, rank, env, two, 0);
      var four := ByAppAll(source, rank, env, three, names);
      && Extends(none, one) && Extends(one, two) && Extends(two, three) && Extends(three, four)
      && AllReady(source, rank, RootsInOrder(source, env, variable, names))
      && Follows(source, rank, four, Walks(source, rank, env, RootsInOrder(source, env, variable, names)))
  {
    var none := Lists([], []);
    assert Follows(source, rank, none, []) && Covers(source, rank, env, none, {});
    hide Follows, Covers, Each, Implicits, ByVariable, ByFilter, ByAppAll, Expandable, Walks, AllReady, RootsInOrder;
    var a, b, c, d := StepsAreEach(source, rank, env, variable, names);
    var one := Implicits(source, rank, env, none, 0);
    var two := ByVariable(source, rank, env, one, variable);
    var three := ByFilter(source, rank, env, two, 0);
    var given := EachFollows(source, rank, env, none, {}, [], a, true);
    assert [] + Walks(source, rank, env, a) == Walks(source, rank, env, a);
    WalksSplit(source, rank, env, a, b);
    given := EachFollows(source, rank, env, one, given, Walks(source, rank, env, a), b, false);
    WalksSplit(source, rank, env, a + b, c);
    given := EachFollows(source, rank, env, two, given, Walks(source, rank, env, a + b), c, false);
    WalksSplit(source, rank, env, a + b + c, d);
    given := EachFollows(source, rank, env, three, given, Walks(source, rank, env, a + b + c), d, false);
  }

  lemma {:induction false} WalksSplit(
    source: seq<Layer>, rank: map<string, nat>, env: Environment, a: seq<Layer>, b: seq<Layer>)
    requires AllReady(source, rank, a) && AllReady(source, rank, b)
    ensures AllReady(source, rank, a + b)
    ensures Walks(source, rank, env, a + b) == Walks(source, rank, env, a) + Walks(source, rank, env, b)
    decreases |a|
  {
    hide Ready, WalkOne;
    if a == [] {
      assert a + b == b;
    } else {
      assert (a + b)[0] == a[0] && (a + b)[1..] == a[1..] + b;
      WalksSplit(source, rank, env, a[1..], b);
    }
  }

  /** Without meta-layers the active layers are the roots themselves, each the first time. */
  lemma PlainRoots(source: seq<Layer>, rank: map<string, nat>, env: Environment, roots: seq<Layer>)
    requires AllReady(source, rank, roots) && forall l <- roots :: !l.isMeta
    ensures Plain(Walks(source, rank, env, roots)) == roots
  {
    WalksOfPlain(source, rank, env, roots);
    AllPlain(roots);
  }

  lemma {:induction false} WalksOfPlain(
    source: seq<Layer>, rank: map<string, nat>, env: Environment, roots: seq<Layer>)
    requires AllReady(source, rank, roots) && forall l <- roots :: !l.isMeta
    ensures Walks(source, rank, env, roots) == roots
    decreases |roots|
  {
    if roots != [] {
      WalksOfPlain(source, rank, env, roots[1..]);
      assert roots == [roots[0]] + roots[1..];
    }
  }

  lemma {:induction false} AllPlain(list: seq<Layer>)
    requires forall l <- list :: !l.isMeta
    ensures Plain(list) == list
  {
    if list != [] {
      AllPlain(list[..|list| - 1]);
      assert list == list[..|list| - 1] + [list[|list| - 1]];
    }
  }

  /** A meta-layer of plain layers that nothing holds back is walked in the order of its components. */
  lemma {:induction false} ComponentsInOrder(
    source: seq<Layer>, rank: map<string, nat>, env: Environment, m: Layer, k: nat)
    requires Ready(source, rank, m) && m.isMeta && k <= |m.components|
    requires forall c <- m.components :: Has(source, c) && !Get(source, c).isMeta && Admitted(env, Get(source, c))
    ensures |WalkFrom(source, rank, env, m, k)| == |m.components| - k
    ensures forall j :: k <= j < |m.components| ==> WalkFrom(source, rank, env, m, k)[j - k].name == m.components[j]
    ensures WalkOne(source, rank, env, m) == WalkFrom(source, rank, env, m, 0) + [m]
    decreases |m.components| - k
  {
    if k < |m.components| {
      ComponentsInOrder(source, rank, env, m, k + 1);
      var c := Get(source, m.components[k]);
      ComponentIsLower(source, rank, m, k);
      assert m.components[k] in m.components && Admitted(env, c) && WalkOne(source, rank, env, c) == [c];
      assert WalkSlot(source, rank, env, m, k) == [c];
    }
  }

  /**
    The part of `loader_enable_instance_layers` that no settings file replaces.  `one`, `two` and `three` are the
    lists after the implicit layers, the variable and the filter; each step only adds behind what is there.
  */
  method EnableInstanceLayers(
    a: Activation, source: seq<Layer>, ghost rank: map<string, nat>, env: Environment,
    variable: seq<string>, names: seq<string>)
    returns (r: Outcome, ghost one: Lists, ghost two: Lists, ghost three: Lists)
    requires a.Valid() && Expandable(source, rank) && a.Now() == Lists([], [])
    modifies a.target, a.expanded
    ensures a.Valid()
    ensures r != OutOfMemory ==> Flattened(a.Now())
    ensures r != OutOfMemory ==> Extends(one, two) && Extends(two, three) && Extends(three, a.Now())
    ensures r != OutOfMemory ==>
      var implicit_, named := ImplicitRoots(source, env, 0), VariableRoots(source, variable);
      && Covers(source, rank, env, one, implicit_)
      && Covers(source, rank, env, two, implicit_ + named)
      && Covers(source, rank, env, three, implicit_ + named + FilterRoots(source, env, 0))
      && Covers(source, rank, env, a.Now(), Roots(source, env, variable, names))
    ensures AllReady(source, rank, RootsInOrder(source, env, variable, names))
    ensures r != OutOfMemory ==>
      a.Now().expanded == Firsts(Plain(Walks(source, rank, env, RootsInOrder(source, env, variable, names))))
    ensures r != OutOfMemory ==> three == BeforeApp(source, rank, env, variable)
    ensures r != OutOfMemory ==> a.Now() == ByAppAll(source, rank, env, three, names)
    ensures r != OutOfMemory ==>
      (r == LayerNotPresent <==> MissingAfter(source, rank, env, three, names, |names|))
  {
    RunFollows(source, rank, env, variable, names);
    StepsCover(source, rank, env, variable);
    RunCovers(source, rank, env, variable, names);
    hide Covers, Expandable, Implicits, ByVariable, ByFilter, ByAppAll, Plain, Firsts, MissingAfter;
    one, two, three := Lists([], []), Lists([], []), Lists([], []);
    r := AddImplicitLayers(a, source, rank, env);
    if r != Success {
      return;
    }
    one := a.Now();
    r := AddVariableLayers(a, source, rank, env, variable);
    if r != Success {
      return;
    }
    two := a.Now();
    r := AddFilterLayers(a, source, rank, env);
    if r != Success {
      return;
    }
    three := a.Now();
    r := AddNamedLayers(a, source, rank, env, names);
  }

  lemma StepsCover(source: seq<Layer>, rank: map<string, nat>, env: Environment, variable: seq<string>)
    requires Expandable(source, rank)
    ensures
      var one := Implicits(source, rank, env, Lists([], []), 0);
      var two := ByVariable(source, rank, env, one, variable);
      var three := ByFilter(source, rank, env, two, 0);
      var implicit_, named := ImplicitRoots(source, env, 0), VariableRoots(source, variable);
      && Covers(source, rank, env, one, implicit_)
      && Covers(source, rank, env, two, implicit_ + named)
      && Covers(source, rank, env, three, implicit_ + named + FilterRoots(source, env, 0))
  {
    var none := Lists([], []);
    assert Covers(source, rank, env, none, {});
    hide Covers;
    var one := Implicits(source, rank, env, none, 0);
    var roots := ImplicitRoots(source, env, 0);
    ImplicitsCover(source, rank, env, none, {}, 0);
    assert {} + roots == roots;
    ByVariableCovers(source, rank, env, one, roots, variable);
    ByFilterCovers(
      source, rank, env, ByVariable(source, rank, env, one, variable), roots + VariableRoots(source, variable), 0);
  }
}
