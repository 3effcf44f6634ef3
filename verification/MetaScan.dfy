/** From the scanned list to the active layers: the pass, deletions, duplicate removal, and activation. */
module MetaScan {
  import opened Layers
  import opened MetaVerify
  import opened MetaPass
  import opened MetaCycles
  import opened MetaExpand
  import opened MetaActivate
  import opened MetaRoots
  import opened MetaOrder

  /** Duplicate removal is a series of deletions. */
  lemma {:induction false} DedupIsRemoveAll(list: seq<Layer>, i: nat) returns (indices: seq<nat>)
    requires i <= |list|
    ensures RemoveAll(list, indices) == Dedup(list, i)
    decreases |list| - i
  {
    if i == |list| {
      indices := [];
    } else {
      var j := NextCopy(list, i);
      var less := if j < |list| then RemoveAt(list, j) else list;
      assert |less| >= i + 1 && Dedup(list, i) == Dedup(less, i + 1);
      hide Dedup, NextCopy;
      var rest := DedupIsRemoveAll(less, i + 1);
      indices := [j] + rest;
      OneMoreRemoval(list, j, rest);
    }
  }

  lemma OneMoreRemoval(list: seq<Layer>, j: nat, rest: seq<nat>)
    ensures RemoveAll(list, [j] + rest) == RemoveAll(if j < |list| then RemoveAt(list, j) else list, rest)
  {
    assert ([j] + rest)[1..] == rest;
  }

  lemma {:induction false} RemoveAllTwice(list: seq<Layer>, a: seq<nat>, b: seq<nat>)
    ensures RemoveAll(RemoveAll(list, a), b) == RemoveAll(list, a + b)
    decreases |a|
  {
    if a == [] {
      assert a + b == b;
    } else {
      assert (a + b)[1..] == a[1..] + b;
      RemoveAllTwice(if a[0] < |list| then RemoveAt(list, a[0]) else list, a[1..], b);
    }
  }

  /** The pass makes no copies. */
  lemma {:induction false} SweepCopies(list: seq<Layer>, i: nat, n: string)
    requires i <= |list|
    ensures Copies(Sweep(list, i), n) <= Copies(list, n)
    decreases |list| - i
  {
    if i < |list| {
      if list[i].isMeta && Check(list, i, Cleared(|list|)).None? {
        CopiesAfterRemove(list, i, n);
        SweepCopies(RemoveAt(list, i), i, n);
      } else {
        SweepCopies(list, i + 1, n);
      }
    }
  }

  lemma {:induction false} RemovalCopies(list: seq<Layer>, indices: seq<nat>, n: string)
    ensures Copies(RemoveAll(list, indices), n) <= Copies(list, n)
    decreases |indices|
  {
    hide Copies;
    if indices != [] {
      if indices[0] < |list| {
        CopiesAfterRemove(list, indices[0], n);
        RemovalCopies(RemoveAt(list, indices[0]), indices[1..], n);
      } else {
        RemovalCopies(list, indices[1..], n);
      }
    }
  }

  /** What is left of the scanned list when layers are activated. */
  ghost function Remaining(list: seq<Layer>, deletions: seq<nat>): seq<Layer> {
    Dedup(RemoveAll(Sweep(list, 0), deletions), 0)
  }

  /** No cycle among the swept layers, and no name more than twice, make the remaining list one that can be expanded. */
  lemma RemainingIsExpandable(list: seq<Layer>, deletions: seq<nat>) returns (rank: map<string, nat>)
    requires AcyclicByName(Sweep(list, 0)) && forall n :: Copies(list, n) <= 2
    ensures Expandable(Remaining(list, deletions), rank)
  {
    hide Sweep, Dedup, RankedByName, Ranked, Copies, RemoveAll;
    var swept := Sweep(list, 0);
    rank :| RankedByName(swept, rank);
    var less := RemoveAll(swept, deletions);
    forall n ensures Copies(less, n) <= 2 {
      SweepCopies(list, 0, n);
      RemovalCopies(swept, deletions, n);
    }
    DistinctAfterDedup(less);
    var indices := DedupIsRemoveAll(less, 0);
    RemoveAllTwice(swept, deletions, indices);
    RankSurvives(swept, rank, deletions + indices);
  }

  /** When no meta-layer shares its name the pass leaves no cycle. */
  lemma AloneIsAcyclic(list: seq<Layer>)
    requires MetasAlone(list)
    ensures AcyclicByName(Sweep(list, 0))
  {
    var rank := SweptIsRanked(list);
  }

  method DeleteEach(layers: LayerList, deletions: seq<nat>)
    modifies layers
    ensures layers.list == RemoveAll(old(layers.list), deletions)
  {
    var i := 0;
    assert deletions[0..] == deletions;
    while i < |deletions|
      invariant i <= |deletions| && RemoveAll(layers.list, deletions[i..]) == RemoveAll(old(layers.list), deletions)
    {
      assert deletions[i..][0] == deletions[i] && deletions[i..][1..] == deletions[i + 1..];
      layers.Remove(deletions[i]);
      i := i + 1;
    }
  }

  /**
    The layers of an instance, from the scanned list on: the meta-layer pass, the deletions that follow it, the
    removal of duplicates, and the activation.  It ends, and a plain layer is active exactly when it is a root
    or a root leads to it.
  */
  method ScanAndEnable(
    layers: LayerList, deletions: seq<nat>, a: Activation, env: Environment, variable: seq<string>, names: seq<string>)
    returns (r: Outcome, ghost rank: map<string, nat>)
    requires a.Valid() && a.Now() == Lists([], [])
    requires AcyclicByName(Sweep(layers.list, 0)) && forall n :: Copies(layers.list, n) <= 2
    modifies layers, a.target, a.expanded
    ensures a.Valid() && layers.list == Remaining(old(layers.list), deletions) && Expandable(layers.list, rank)
    ensures r != OutOfMemory ==> Flattened(a.Now())
    ensures AllReady(layers.list, rank, RootsInOrder(layers.list, env, variable, names))
    ensures r != OutOfMemory ==>
      var roots := RootsInOrder(layers.list, env, variable, names);
      a.Now().expanded == Firsts(Plain(Walks(layers.list, rank, env, roots)))
    ensures r != OutOfMemory ==> forall l :: Ready(layers.list, rank, l) && !l.isMeta ==>
      (Named(a.Now().target, l.name) <==> Rooted(layers.list, env, variable, names, l))
  {
    hide Sweep, Dedup, AcyclicByName, Expandable, ByAppAll, BeforeApp, Rooted, Flattened;
    rank := RemainingIsExpandable(layers.list, deletions);
    var present := VerifyAllMetaLayers(layers, env.enabled);
    DeleteEach(layers, deletions);
    RemoveDuplicateLayers(layers);
    ghost var one, two, three;
    r, one, two, three := EnableInstanceLayers(a, layers.list, rank, env, variable, names);
    forall l | Ready(layers.list, rank, l) && !l.isMeta
      ensures r != OutOfMemory ==> (Named(a.Now().target, l.name) <==> Rooted(layers.list, env, variable, names, l))
    {
      ActiveIff(layers.list, rank, env, variable, names, l);
    }
  }
}
