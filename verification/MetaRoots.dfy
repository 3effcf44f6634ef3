/**
  Which layers are active in the end, whatever the order of the steps: those that a root visits.  The roots are
  the enabled implicit layers, the layers the environment names or forces, and those the application names.
*/
module MetaRoots {
  import opened Layers
  import opened MetaVerify
  import opened MetaExpand
  import opened MetaActivate

  /** The walk of one of the roots comes by the name. */
  ghost predicate Given(source: seq<Layer>, rank: map<string, nat>, env: Environment, roots: set<Layer>, name: string) {
    exists r :: r in roots && Gives(source, rank, env, r, name)
  }

  ghost predicate Gives(source: seq<Layer>, rank: map<string, nat>, env: Environment, r: Layer, name: string) {
    Ready(source, rank, r) && Visited(WalkOne(source, rank, env, r), name)
  }

  /** The names on the target list are those that the roots give. */
  ghost predicate Covers(source: seq<Layer>, rank: map<string, nat>, env: Environment, s: Lists, roots: set<Layer>) {
    forall name :: Named(s.target, name) <==> Given(source, rank, env, roots, name)
  }

  // ---------------------------------------------------------------- walks contain the walks of what they visit

  lemma {:induction false} WalkedIsReady(
    source: seq<Layer>, rank: map<string, nat>, env: Environment, r: Layer, l: Layer)
    requires Ready(source, rank, r) && l in WalkOne(source, rank, env, r)
    ensures Ready(source, rank, l)
  {
    if r.isMeta {
      var path := WalkedIsLedTo(source, rank, env, r, l);
      LeadsToFound(source, env, r, path, l);
    }
  }

  lemma {:induction false} WalkContains(
    source: seq<Layer>, rank: map<string, nat>, env: Environment, r: Layer, l: Layer, x: Layer)
    requires Ready(source, rank, r) && l in WalkOne(source, rank, env, r)
    requires Ready(source, rank, l) && x in WalkOne(source, rank, env, l)
    ensures x in WalkOne(source, rank, env, r)
    decreases Level(rank, r)
  {
    if r.isMeta && l in WalkFrom(source, rank, env, r, 0) {
      var k := WalkedSlot(source, rank, env, r, 0, l);
      ComponentIsLower(source, rank, r, k);
      var c := Get(source, r.components[k]);
      assert l in WalkOne(source, rank, env, c);
      WalkContains(source, rank, env, c, l, x);
      assert x in WalkSlot(source, rank, env, r, k);
      SlotIsWalked(source, rank, env, r, 0, k, x);
    }
  }

  /** A layer that is on the list by its name has all its visits there already. */
  lemma NamedIsCovered(
    source: seq<Layer>, rank: map<string, nat>, env: Environment, s: Lists, roots: set<Layer>, l: Layer, name: string)
    requires Covers(source, rank, env, s, roots) && Ready(source, rank, l) && Named(s.target, l.name)
    requires Visited(WalkOne(source, rank, env, l), name)
    ensures Named(s.target, name)
  {
    hide Named, WalkOne;
    assert Given(source, rank, env, roots, l.name);
    var r :| r in roots && Gives(source, rank, env, r, l.name);
    var y :| y in WalkOne(source, rank, env, r) && y.name == l.name;
    WalkedIsReady(source, rank, env, r, y);
    assert y == l;
    var x :| x in WalkOne(source, rank, env, l) && x.name == name;
    WalkContains(source, rank, env, r, l, x);
    assert Gives(source, rank, env, r, name);
  }

  // ---------------------------------------------------------------- one more root

  lemma GivenByOneMore(
    source: seq<Layer>, rank: map<string, nat>, env: Environment, roots: set<Layer>, l: Layer, name: string)
    requires Ready(source, rank, l)
    ensures Given(source, rank, env, roots + {l}, name) <==>
      Given(source, rank, env, roots, name) || Visited(WalkOne(source, rank, env, l), name)
  {
    hide WalkOne, Visited;
    if Given(source, rank, env, roots, name) {
      var r :| r in roots && Gives(source, rank, env, r, name);
      assert r in roots + {l};
    }
    if Visited(WalkOne(source, rank, env, l), name) {
      assert Gives(source, rank, env, l, name) && l in roots + {l};
    }
  }

  lemma MergeCovers(source: seq<Layer>, rank: map<string, nat>, env: Environment, s: Lists, roots: set<Layer>, l: Layer)
    requires Covers(source, rank, env, s, roots) && Ready(source, rank, l)
    ensures Covers(source, rank, env, Merge(s, WalkOne(source, rank, env, l)), roots + {l})
  {
    hide Given, Named, Merge, WalkOne, Visited;
    forall name ensures Named(Merge(s, WalkOne(source, rank, env, l)).target, name) <==>
      Given(source, rank, env, roots + {l}, name)
    {
      MergeNames(s, WalkOne(source, rank, env, l), name);
      GivenByOneMore(source, rank, env, roots, l, name);
    }
  }

  /** A layer that is there already adds nothing. */
  lemma SkipCovers(source: seq<Layer>, rank: map<string, nat>, env: Environment, s: Lists, roots: set<Layer>, l: Layer)
    requires Covers(source, rank, env, s, roots) && Ready(source, rank, l) && Named(s.target, l.name)
    ensures Covers(source, rank, env, s, roots + {l})
  {
    hide Given, Named, WalkOne, Visited;
    forall name ensures Named(s.target, name) <==> Given(source, rank, env, roots + {l}, name) {
      GivenByOneMore(source, rank, env, roots, l, name);
      if Visited(WalkOne(source, rank, env, l), name) {
        NamedIsCovered(source, rank, env, s, roots, l, name);
      }
    }
  }

  lemma RequestCovers(
    source: seq<Layer>, rank: map<string, nat>, env: Environment, s: Lists, roots: set<Layer>, l: Layer)
    requires Covers(source, rank, env, s, roots) && Ready(source, rank, l)
    ensures Covers(source, rank, env, Request(source, rank, env, s, l), roots + {l})
  {
    hide Covers, Named, Merge, WalkOne;
    if Named(s.target, l.name) {
      SkipCovers(source, rank, env, s, roots, l);
    } else {
      MergeCovers(source, rank, env, s, roots, l);
    }
  }

  // ---------------------------------------------------------------- the roots of each step

  ghost function ImplicitRoots(source: seq<Layer>, env: Environment, i: nat): set<Layer> {
    set j | i <= j < |source| && !source[j].isExplicit && !env.deferred(source[j]) && env.enabled(source[j])
      :: source[j]
  }

  ghost function VariableRoots(source: seq<Layer>, names: seq<string>): set<Layer> {
    set n | n in names && Has(source, n) :: Get(source, n)
  }

  ghost function FilterRoots(source: seq<Layer>, env: Environment, i: nat): set<Layer> {
    set j | i <= j < |source| && source[j].isExplicit && env.forced(source[j]) :: source[j]
  }

  ghost function AppRoots(source: seq<Layer>, env: Environment, names: seq<string>): set<Layer> {
    set n | n in names && Has(source, n) && env.available(Get(source, n)) :: Get(source, n)
  }

  lemma {:induction false} ImplicitsCover(
    source: seq<Layer>, rank: map<string, nat>, env: Environment, s: Lists, roots: set<Layer>, i: nat)
    requires Expandable(source, rank) && i <= |source| && Covers(source, rank, env, s, roots)
    ensures Covers(source, rank, env, Implicits(source, rank, env, s, i), roots + ImplicitRoots(source, env, i))
    decreases |source| - i
  {
    hide Covers, Merge, WalkOne;
    if i == |source| {
      assert roots + ImplicitRoots(source, env, i) == roots;
    } else {
      EntryIsReady(source, rank, i);
      var l := source[i];
      if !l.isExplicit && !env.deferred(l) && env.enabled(l) {
        MergeCovers(source, rank, env, s, roots, l);
        ImplicitsCover(source, rank, env, Merge(s, WalkOne(source, rank, env, l)), roots + {l}, i + 1);
        assert roots + ImplicitRoots(source, env, i) == (roots + {l}) + ImplicitRoots(source, env, i + 1);
      } else {
        MergeNothing(s);
        ImplicitsCover(source, rank, env, s, roots, i + 1);
        assert ImplicitRoots(source, env, i) == ImplicitRoots(source, env, i + 1);
      }
    }
  }

  lemma MergeNothing(s: Lists)
    ensures Merge(s, []) == s
  {
  }

  lemma {:induction false} ByVariableCovers(
    source: seq<Layer>, rank: map<string, nat>, env: Environment, s: Lists, roots: set<Layer>, names: seq<string>)
    requires Expandable(source, rank) && Covers(source, rank, env, s, roots)
    ensures Covers(source, rank, env, ByVariable(source, rank, env, s, names), roots + VariableRoots(source, names))
    decreases names
  {
    hide Covers, Request;
    if names == [] {
      assert roots + VariableRoots(source, names) == roots;
    } else {
      assert names == [names[0]] + names[1..];
      if Has(source, names[0]) {
        EntryIsReady(source, rank, First(source, names[0]));
        var l := Get(source, names[0]);
        RequestCovers(source, rank, env, s, roots, l);
        ByVariableCovers(source, rank, env, Request(source, rank, env, s, l), roots + {l}, names[1..]);
        assert roots + VariableRoots(source, names) == (roots + {l}) + VariableRoots(source, names[1..]);
      } else {
        ByVariableCovers(source, rank, env, s, roots, names[1..]);
        assert VariableRoots(source, names) == VariableRoots(source, names[1..]);
      }
    }
  }

  lemma {:induction false} ByFilterCovers(
    source: seq<Layer>, rank: map<string, nat>, env: Environment, s: Lists, roots: set<Layer>, i: nat)
    requires Expandable(source, rank) && i <= |source| && Covers(source, rank, env, s, roots)
    ensures Covers(source, rank, env, ByFilter(source, rank, env, s, i), roots + FilterRoots(source, env, i))
    decreases |source| - i
  {
    hide Covers, Request;
    if i == |source| {
      assert roots + FilterRoots(source, env, i) == roots;
    } else {
      EntryIsReady(source, rank, i);
      var l := source[i];
      if l.isExplicit && env.forced(l) {
        RequestCovers(source, rank, env, s, roots, l);
        ByFilterCovers(source, rank, env, Request(source, rank, env, s, l), roots + {l}, i + 1);
        assert roots + FilterRoots(source, env, i) == (roots + {l}) + FilterRoots(source, env, i + 1);
      } else {
        ByFilterCovers(source, rank, env, s, roots, i + 1);
        assert FilterRoots(source, env, i) == FilterRoots(source, env, i + 1);
      }
    }
  }

  lemma {:induction false} ByAppCovers(
    source: seq<Layer>, rank: map<string, nat>, env: Environment, s: Lists, roots: set<Layer>, names: seq<string>)
    requires Expandable(source, rank) && Covers(source, rank, env, s, roots)
    ensures Covers(source, rank, env, ByAppAll(source, rank, env, s, names), roots + AppRoots(source, env, names))
    decreases |names|
  {
    hide Covers, Merge, WalkOne, Named;
    if names == [] {
      assert roots + AppRoots(source, env, names) == roots;
    } else {
      var front, last := names[..|names| - 1], names[|names| - 1];
      assert names == front + [last];
      var mid, before := ByAppAll(source, rank, env, s, front), roots + AppRoots(source, env, front);
      ByAppCovers(source, rank, env, s, roots, front);
      if Has(source, last) && env.available(Get(source, last)) {
        EntryIsReady(source, rank, First(source, last));
        var l := Get(source, last);
        if Named(mid.target, last) {
          SkipCovers(source, rank, env, mid, before, l);
        } else {
          MergeCovers(source, rank, env, mid, before, l);
        }
        assert roots + AppRoots(source, env, names) == before + {l};
      } else {
        assert AppRoots(source, env, names) == AppRoots(source, env, front);
      }
    }
  }

  // ---------------------------------------------------------------- the whole run

  /** All roots of a run. */
  ghost function Roots(source: seq<Layer>, env: Environment, variable: seq<string>, names: seq<string>): set<Layer> {
    ImplicitRoots(source, env, 0) + VariableRoots(source, variable) + FilterRoots(source, env, 0)
    + AppRoots(source, env, names)
  }

  /** The final target list has exactly the names that the roots give, in whatever order they come. */
  lemma RunCovers(
    source: seq<Layer>, rank: map<string, nat>, env: Environment, variable: seq<string>, names: seq<string>)
    requires Expandable(source, rank)
    ensures Covers(
      source, rank, env, ByAppAll(source, rank, env, BeforeApp(source, rank, env, variable), names),
      Roots(source, env, variable, names))
  {
    var none := Lists([], []);
    assert Covers(source, rank, env, none, {});
    hide Covers;
    var one := Implicits(source, rank, env, none, 0);
    var two := ByVariable(source, rank, env, one, variable);
    ImplicitsCover(source, rank, env, none, {}, 0);
    var roots := ImplicitRoots(source, env, 0);
    assert {} + roots == roots;
    ByVariableCovers(source, rank, env, one, roots, variable);
    ByFilterCovers(source, rank, env, two, roots + VariableRoots(source, variable), 0);
    ByAppCovers(
      source, rank, env, BeforeApp(source, rank, env, variable),
      roots + VariableRoots(source, variable) + FilterRoots(source, env, 0), names);
  }

  /** The layer is a root, or admitted components lead to it from one. */
  ghost predicate Rooted(source: seq<Layer>, env: Environment, variable: seq<string>, names: seq<string>, l: Layer) {
    var roots := Roots(source, env, variable, names);
    l in roots || exists r :: r in roots && r.isMeta && Reaches(source, env, r, l)
  }

  /** A plain layer is active in the end if and only if it is a root or admitted components lead to it from one. */
  lemma ActiveIff(
    source: seq<Layer>, rank: map<string, nat>, env: Environment, variable: seq<string>, names: seq<string>, l: Layer)
    requires Expandable(source, rank) && Ready(source, rank, l) && !l.isMeta
    ensures
      var end := ByAppAll(source, rank, env, BeforeApp(source, rank, env, variable), names);
      Named(end.target, l.name) <==> Rooted(source, env, variable, names, l)
  {
    var roots := Roots(source, env, variable, names);
    RunCovers(source, rank, env, variable, names);
    hide Named, ByAppAll, BeforeApp, Roots;
    forall r | r in roots ensures Ready(source, rank, r) {
      RootIsReady(source, rank, env, variable, names, r);
    }
    forall r | r in roots
      ensures Gives(source, rank, env, r, l.name) <==> if r.isMeta then Reaches(source, env, r, l) else r == l
    {
      if r.isMeta {
        VisitedIffReached(source, rank, env, r, l);
      } else {
        VisitsOnlyItself(source, rank, env, r, l);
      }
    }
    hide Gives, Reaches;
  }

  lemma VisitsOnlyItself(source: seq<Layer>, rank: map<string, nat>, env: Environment, r: Layer, l: Layer)
    requires Ready(source, rank, r) && !r.isMeta && Ready(source, rank, l)
    ensures Gives(source, rank, env, r, l.name) <==> r == l
  {
    assert WalkOne(source, rank, env, r) == [r];
    assert r in [r];
  }

  lemma RootIsReady(
    source: seq<Layer>, rank: map<string, nat>, env: Environment, variable: seq<string>, names: seq<string>, r: Layer)
    requires Expandable(source, rank) && r in Roots(source, env, variable, names)
    ensures Ready(source, rank, r)
  {
    var i :| 0 <= i < |source| && source[i] == r;
    EntryIsReady(source, rank, i);
  }
}
