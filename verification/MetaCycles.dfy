/**
  Cycles among meta-layers.  Expansion follows lookups by name and keeps no record of where it was, so it
  needs a rank along them.  After the pass any entry may still be deleted, which can bring a hidden entry of
  the same name to light: the rank survives every deletion exactly when there is one over all entries.
*/
module MetaCycles {
  import opened Common
  import opened Layers
  import opened MetaVerify
  import opened MetaShape
  import opened MetaPass

  /** The list after deleting, one after the other, the entries at the given indices. */
  function RemoveAll(list: seq<Layer>, indices: seq<nat>): seq<Layer> {
    if indices == [] then list
    else RemoveAll(if indices[0] < |list| then RemoveAt(list, indices[0]) else list, indices[1..])
  }

  /** One meta entry lists the name of another, whether or not lookups find them. */
  ghost predicate ListsEntry(list: seq<Layer>, x: Layer, y: Layer) {
    x in list && y in list && x.isMeta && y.isMeta && y.name in x.components
  }

  /** A rank over all entries, hidden ones included. */
  ghost predicate RankedByName(list: seq<Layer>, rank: map<string, nat>) {
    forall x, y :: ListsEntry(list, x, y) ==> x.name in rank && y.name in rank && rank[y.name] < rank[x.name]
  }

  // ---------------------------------------------------------------- a rank over all entries survives deletions

  lemma {:induction false} RemoveAllKeeps(list: seq<Layer>, indices: seq<nat>, l: Layer)
    requires l in RemoveAll(list, indices)
    ensures l in list
    decreases |indices|
  {
    if indices != [] {
      var less := if indices[0] < |list| then RemoveAt(list, indices[0]) else list;
      RemoveAllKeeps(less, indices[1..], l);
    }
  }

  lemma RankSurvives(list: seq<Layer>, rank: map<string, nat>, indices: seq<nat>)
    requires RankedByName(list, rank)
    ensures Ranked(RemoveAll(list, indices), rank)
  {
    var less := RemoveAll(list, indices);
    forall n, k, c | Slot(less, n, k, c) && Get(less, n).isMeta
      ensures n in rank && c in rank && rank[c] < rank[n]
    {
      RemoveAllKeeps(list, indices, Get(less, n));
      RemoveAllKeeps(list, indices, Get(less, c));
      assert ListsEntry(list, Get(less, n), Get(less, c));
    }
  }

  // ---------------------------------------------------------------- without one, some deletions leave a cycle

  ghost predicate Edge(list: seq<Layer>, a: string, b: string) {
    exists x, y :: ListsEntry(list, x, y) && x.name == a && y.name == b
  }

  ghost predicate Sink(list: seq<Layer>, names: set<string>, n: string) {
    forall b <- names :: !Edge(list, n, b)
  }

  ghost predicate IsCore(list: seq<Layer>, core: set<string>) {
    forall n <- core :: !Sink(list, core, n)
  }

  lemma RankOneLower(list: seq<Layer>, names: set<string>, below: map<string, nat>, s: string)
    returns (rank: map<string, nat>)
    requires Sink(list, names, s) && s in names && s !in below && below.Keys <= names
    requires forall a, b :: a in below && b in names - {s} && Edge(list, a, b) ==> b in below && below[b] < below[a]
    ensures rank.Keys == below.Keys + {s}
    ensures forall a, b :: a in rank && b in names && Edge(list, a, b) ==> b in rank && rank[b] < rank[a]
  {
    hide Edge;
    rank := map n | n in below.Keys + {s} :: if n == s then 0 else below[n] + 1;
  }

  /** Names with no edge into the rest are taken off one by one and ranked; what is left is the core. */
  lemma {:induction false} Peel(list: seq<Layer>, names: set<string>)
    returns (rank: map<string, nat>, core: set<string>)
    ensures core <= names && rank.Keys == names - core && IsCore(list, core)
    ensures forall a, b :: a in rank && b in names && Edge(list, a, b) ==> b in rank && rank[b] < rank[a]
    decreases |names|
  {
    hide Edge, Sink;
    if s :| s in names && Sink(list, names, s) {
      var below;
      below, core := Peel(list, names - {s});
      rank := RankOneLower(list, names, below, s);
    } else {
      rank, core := map[], names;
    }
  }

  ghost function MetaNames(list: seq<Layer>): set<string> {
    set l | l in list && l.isMeta :: l.name
  }

  lemma EmptyCoreRanks(list: seq<Layer>, rank: map<string, nat>)
    requires rank.Keys == MetaNames(list)
    requires forall a, b :: a in rank && b in MetaNames(list) && Edge(list, a, b) ==> b in rank && rank[b] < rank[a]
    ensures RankedByName(list, rank)
  {
    forall x, y | ListsEntry(list, x, y) ensures x.name in rank && y.name in rank && rank[y.name] < rank[x.name] {
      assert Edge(list, x.name, y.name);
      assert x.name in MetaNames(list) && y.name in MetaNames(list);
    }
  }

  /** Every index is one of the list as it is then. */
  ghost predicate Proper(list: seq<Layer>, indices: seq<nat>)
    decreases |indices|
  {
    indices == [] || (indices[0] < |list| && Proper(RemoveAt(list, indices[0]), indices[1..]))
  }

  lemma {:induction false} LastIsLeftAlone(front: seq<Layer>, l: Layer, indices: seq<nat>)
    requires Proper(front, indices)
    ensures Proper(front + [l], indices) && RemoveAll(front + [l], indices) == RemoveAll(front, indices) + [l]
    decreases |indices|
  {
    if indices != [] {
      assert RemoveAt(front + [l], indices[0]) == RemoveAt(front, indices[0]) + [l];
      LastIsLeftAlone(RemoveAt(front, indices[0]), l, indices[1..]);
    }
  }

  /** The entries to keep, in order. */
  function KeepOnly(list: seq<Layer>, keep: Layer -> bool): seq<Layer> {
    if list == [] then []
    else
      var front, last := list[..|list| - 1], list[|list| - 1];
      KeepOnly(front, keep) + if keep(last) then [last] else []
  }

  lemma {:induction false} KeepOnlyHas(list: seq<Layer>, keep: Layer -> bool, l: Layer)
    ensures l in KeepOnly(list, keep) <==> l in list && keep(l)
  {
    if list != [] {
      KeepOnlyHas(list[..|list| - 1], keep, l);
      assert list == list[..|list| - 1] + [list[|list| - 1]];
    }
  }

  /** Deletions can leave any choice of entries. */
  lemma {:induction false} DeleteTheRest(list: seq<Layer>, keep: Layer -> bool) returns (indices: seq<nat>)
    ensures Proper(list, indices) && RemoveAll(list, indices) == KeepOnly(list, keep)
  {
    if list == [] {
      indices := [];
    } else {
      var front, last := list[..|list| - 1], list[|list| - 1];
      var rest := DeleteTheRest(front, keep);
      assert list == front + [last];
      if keep(last) {
        LastIsLeftAlone(front, last, rest);
        indices := rest;
      } else {
        indices := [|list| - 1] + rest;
        assert RemoveAt(list, |list| - 1) == front;
        assert indices[1..] == rest;
      }
    }
  }

  /** The meta-layer that is found by the name lists one of the core. */
  ghost predicate LeadsBack(list: seq<Layer>, core: set<string>, n: string) {
    Has(list, n) && Get(list, n).isMeta && exists k: nat, c :: c in core && Slot(list, n, k, c)
  }

  lemma StepBack(list: seq<Layer>, core: set<string>, n: string) returns (k: nat, c: string)
    requires LeadsBack(list, core, n)
    ensures Has(list, n) && Get(list, n).isMeta && c in core && Slot(list, n, k, c)
  {
    hide Slot;
    k, c :| c in core && Slot(list, n, k, c);
  }

  lemma {:induction false} NoRank(list: seq<Layer>, core: set<string>, rank: map<string, nat>, n: string)
    requires (forall m <- core :: LeadsBack(list, core, m)) && Ranked(list, rank) && n in core && n in rank
    ensures false
    decreases rank[n]
  {
    hide LeadsBack, Slot;
    var k, c := StepBack(list, core, n);
    NoRank(list, core, rank, c);
  }

  lemma CoreHasNoRank(list: seq<Layer>, core: set<string>, rank: map<string, nat>, n: string)
    requires (forall m <- core :: LeadsBack(list, core, m)) && n in core
    ensures !Ranked(list, rank)
  {
    hide LeadsBack, Slot;
    var k, c := StepBack(list, core, n);
    if Ranked(list, rank) {
      NoRank(list, core, rank, n);
    }
  }

  /** The meta-layers of the core that list one of the core. */
  ghost predicate InCore(core: set<string>, l: Layer) {
    l.isMeta && l.name in core && exists c :: c in core && c in l.components
  }

  lemma CoreHasEntry(list: seq<Layer>, core: set<string>, n: string) returns (l: Layer)
    requires IsCore(list, core) && n in core
    ensures l in list && InCore(core, l) && l.name == n
  {
    var b := NotASink(list, core, n);
    l := EdgeStarts(list, n, b);
  }

  lemma NotASink(list: seq<Layer>, core: set<string>, n: string) returns (b: string)
    requires IsCore(list, core) && n in core
    ensures b in core && Edge(list, n, b)
  {
    hide Edge;
    assert !Sink(list, core, n);
    b :| b in core && Edge(list, n, b);
  }

  lemma EdgeStarts(list: seq<Layer>, a: string, b: string) returns (l: Layer)
    requires Edge(list, a, b)
    ensures l in list && l.isMeta && l.name == a && b in l.components
  {
    hide ListsEntry;
    var y;
    l, y :| ListsEntry(list, l, y) && l.name == a && y.name == b;
    EntryListed(list, l, y);
  }

  lemma EntryListed(list: seq<Layer>, x: Layer, y: Layer)
    requires ListsEntry(list, x, y)
    ensures x in list && x.isMeta && y.name in x.components
  {
  }

  lemma FoundIsThere(list: seq<Layer>, l: Layer)
    requires l in list
    ensures Has(list, l.name)
  {
  }

  lemma CoreLeadsBack(list: seq<Layer>, core: set<string>, less: seq<Layer>, n: string)
    requires IsCore(list, core) && n in core && forall l :: l in less <==> l in list && InCore(core, l)
    ensures LeadsBack(less, core, n)
  {
    hide IsCore, InCore;
    var l := CoreHasEntry(list, core, n);
    FoundIsThere(less, l);
    var m := Get(less, n);
    assert m in less;
    ListsOne(core, m);
    var c :| c in core && c in m.components;
    var k :| 0 <= k < |m.components| && m.components[k] == c;
    var d := CoreHasEntry(list, core, c);
    FoundIsThere(less, d);
    assert Get(less, c) in less;
    ListsOne(core, Get(less, c));
    assert Slot(less, n, k, c);
  }

  lemma ListsOne(core: set<string>, l: Layer)
    requires InCore(core, l)
    ensures l.isMeta && exists c :: c in core && c in l.components
  {
  }

  lemma DeleteAllButCore(list: seq<Layer>, core: set<string>) returns (indices: seq<nat>)
    requires IsCore(list, core)
    ensures forall n <- core :: LeadsBack(RemoveAll(list, indices), core, n)
  {
    hide IsCore, InCore, LeadsBack, RemoveAll, KeepOnly;
    var keep := l => InCore(core, l);
    indices := DeleteTheRest(list, keep);
    var less := RemoveAll(list, indices);
    forall l ensures l in less <==> l in list && InCore(core, l) {
      KeepOnlyHas(list, keep, l);
    }
    forall n <- core ensures LeadsBack(less, core, n) {
      CoreLeadsBack(list, core, less, n);
    }
  }

  /** Lookups from meta-layer to meta-layer never come back. */
  ghost predicate Acyclic(list: seq<Layer>) {
    exists rank :: Ranked(list, rank)
  }

  /** Nor would they if hidden entries were found as well. */
  ghost predicate AcyclicByName(list: seq<Layer>) {
    exists rank :: RankedByName(list, rank)
  }

  /** Without a rank over all entries, some deletions leave a list without a rank along its lookups. */
  lemma SomeDeletionsLeaveCycle(list: seq<Layer>) returns (indices: seq<nat>)
    requires !AcyclicByName(list)
    ensures !Acyclic(RemoveAll(list, indices))
  {
    hide Edge, IsCore, RemoveAll, LeadsBack, Ranked, RankedByName;
    var rank, core := Peel(list, MetaNames(list));
    if core == {} {
      EmptyCoreRanks(list, rank);
    }
    var n :| n in core;
    indices := DeleteAllButCore(list, core);
    forall r ensures !Ranked(RemoveAll(list, indices), r) {
      CoreHasNoRank(RemoveAll(list, indices), core, r, n);
    }
  }

  /**
    Lookups stay free of cycles whatever is deleted from the list, if and only if the meta-layers can be ranked by
    name with hidden entries included.
  */
  lemma AcyclicForeverIff(list: seq<Layer>)
    ensures (forall indices: seq<nat> :: Acyclic(RemoveAll(list, indices))) <==> AcyclicByName(list)
  {
    hide RankedByName, Ranked, RemoveAll;
    if AcyclicByName(list) {
      var rank :| RankedByName(list, rank);
      forall indices: seq<nat> ensures Acyclic(RemoveAll(list, indices)) {
        RankSurvives(list, rank, indices);
      }
    } else {
      var indices := SomeDeletionsLeaveCycle(list);
    }
  }

  // ---------------------------------------------------------------- what the pass leaves

  /** When meta-layers are alone with their names, lookups find all of them. */
  lemma AloneIsRankedByName(list: seq<Layer>, rank: map<string, nat>)
    requires MetasAlone(list) && Ranked(list, rank)
    ensures RankedByName(list, rank)
  {
    forall x, y | ListsEntry(list, x, y) ensures x.name in rank && y.name in rank && rank[y.name] < rank[x.name] {
      AloneIsFound(list, x);
      AloneIsFound(list, y);
      var k :| 0 <= k < |x.components| && x.components[k] == y.name;
      assert Slot(list, x.name, k, y.name);
    }
  }

  lemma AloneIsFound(list: seq<Layer>, l: Layer)
    requires MetasAlone(list) && l in list && l.isMeta
    ensures Has(list, l.name) && Get(list, l.name) == l
  {
    var i :| 0 <= i < |list| && list[i] == l;
    AloneIsTheOne(list, i);
  }

  lemma RemovalKeepsNames(list: seq<Layer>, f: nat)
    requires f < |list|
    ensures MetasAlone(list) ==> MetasAlone(RemoveAt(list, f))
    ensures DistinctNames(list) ==> DistinctNames(RemoveAt(list, f))
  {
    var less := RemoveAt(list, f);
    assert forall i :: 0 <= i < |less| ==> less[i] == list[if i < f then i else i + 1];
  }

  lemma {:induction false} RemovalsKeepNames(list: seq<Layer>, indices: seq<nat>)
    ensures MetasAlone(list) ==> MetasAlone(RemoveAll(list, indices))
    ensures DistinctNames(list) ==> DistinctNames(RemoveAll(list, indices))
    decreases |indices|
  {
    if indices != [] {
      if indices[0] < |list| {
        RemovalKeepsNames(list, indices[0]);
        RemovalsKeepNames(RemoveAt(list, indices[0]), indices[1..]);
      } else {
        RemovalsKeepNames(list, indices[1..]);
      }
    }
  }

  lemma {:induction false} SweepKeepsDistinct(list: seq<Layer>, i: nat)
    requires DistinctNames(list) && i <= |list|
    ensures DistinctNames(Sweep(list, i))
    decreases |list| - i
  {
    if i < |list| {
      if list[i].isMeta && Check(list, i, Cleared(|list|)).None? {
        RemovalKeepsNames(list, i);
        SweepKeepsDistinct(RemoveAt(list, i), i);
      } else {
        SweepKeepsDistinct(list, i + 1);
      }
    }
  }

  /** After the pass there is a rank over all entries, when no meta-layer shares its name. */
  lemma SweptIsRanked(list: seq<Layer>) returns (rank: map<string, nat>)
    requires MetasAlone(list)
    ensures RankedByName(Sweep(list, 0), rank) && MetasAlone(Sweep(list, 0))
  {
    OnePassIsEnough(list);
    rank := VerifiedIsAcyclic(Sweep(list, 0));
    AloneIsRankedByName(Sweep(list, 0), rank);
  }

  /** So after the pass and any later deletions, the component graph has no cycle. */
  lemma AcyclicAfterRemovals(list: seq<Layer>, indices: seq<nat>) returns (rank: map<string, nat>)
    requires MetasAlone(list)
    ensures MetasAlone(RemoveAll(Sweep(list, 0), indices)) && Ranked(RemoveAll(Sweep(list, 0), indices), rank)
    ensures DistinctNames(list) ==> DistinctNames(RemoveAll(Sweep(list, 0), indices))
  {
    rank := SweptIsRanked(list);
    RankSurvives(Sweep(list, 0), rank, indices);
    RemovalsKeepNames(Sweep(list, 0), indices);
    if DistinctNames(list) {
      SweepKeepsDistinct(list, 0);
    }
  }

  // ---------------------------------------------------------------- a cycle that the pass accepts

  /** Two meta-layers that list each other, and a plain layer that shares the name of one of them. */
  const Tangled := [
    Layer("A", true, true, false, V, ["B"]),
    Layer("B", true, true, false, V, ["A"]),
    Layer("B", false, true, false, V, [])
  ]

  lemma {:induction false} TangledWalk(i: nat, marks: seq<bool>)
    requires i < 2 && |marks| == 3 && !marks[0] && !marks[2]
    ensures i == 0 ==> Check(Tangled, 0, marks).Some?
    ensures i == 1 && !marks[1] ==> Check(Tangled, 1, marks).Some?
  {
    assert First(Tangled, "A") == 0 && Last(Tangled, "A") == 0;
    assert First(Tangled, "B") == 1 && Last(Tangled, "B") == 2;
    var m0 := marks[0 := true];
    assert Check(Tangled, 2, m0) == Some(m0[2 := true]);
    assert SlotOk(Tangled, 0, 0);
    assert Check(Tangled, 0, marks) == CheckFrom(Tangled, 0, 1, m0[2 := true]);
    if i == 1 && !marks[1] {
      var m1 := marks[1 := true];
      TangledWalk(0, m1);
      assert SlotOk(Tangled, 1, 0);
      assert Check(Tangled, 1, marks) == CheckFrom(Tangled, 1, 1, Check(Tangled, 0, m1).value);
    }
  }

  /**
    With a shared name the pass accepts a list with a cycle: the check goes on with the last entry of the name,
    here a plain layer, while expansion follows the first.  Duplicate removal changes no lookup, and the cycle
    stays.
  */
  lemma DuplicateHidesCycle()
    ensures Sweep(Tangled, 0) == Tangled && !Acyclic(Tangled) && !AcyclicByName(Tangled)
    ensures Dedup(Tangled, 0) == Tangled[..2] && !Acyclic(Tangled[..2])
  {
    TangledPasses();
    TangledHalves();
    hide Sweep, Dedup;
    TangledTurns(Tangled);
    TangledTurns(Tangled[..2]);
    AcyclicForeverIff(Tangled);
    assert RemoveAll(Tangled, []) == Tangled;
  }

  lemma TangledPasses()
    ensures Sweep(Tangled, 0) == Tangled
  {
    var marks := Cleared(3);
    TangledWalk(0, marks);
    TangledWalk(1, marks);
    hide Check;
    assert Sweep(Tangled, 0) == Sweep(Tangled, 1) == Sweep(Tangled, 2) == Sweep(Tangled, 3);
  }

  lemma TangledHalves()
    ensures Dedup(Tangled, 0) == Tangled[..2]
  {
    assert NextCopy(Tangled, 0) == 3 && NextCopy(Tangled, 1) == 2;
    var left := Tangled[..2];
    assert RemoveAt(Tangled, 2) == left;
    assert Dedup(Tangled, 0) == Dedup(Tangled, 1) == Dedup(left, 2) == left;
  }

  lemma TangledTurns(list: seq<Layer>)
    requires Tangled[..2] <= list
    ensures !Acyclic(list)
  {
    assert list[0] == Tangled[..2][0] && list[1] == Tangled[..2][1];
    assert First(list, "A") == 0 && First(list, "B") == 1;
    assert Slot(list, "A", 0, "B") && Slot(list, "B", 0, "A");
  }
}
