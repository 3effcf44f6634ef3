/**
  The pass over the available layers that deletes unusable meta-layers, the removal of duplicate
  names, and what both leave for the recursion that later flattens meta-layers.
*/
module MetaPass {
  import opened Layers
  import opened MetaVerify
  import opened MetaTheory
  import opened MetaShape

  // ---------------------------------------------------------------- one pass

  /** The list the pass leaves when it stands at index `i`; the index is re-checked after a deletion. */
  ghost function Sweep(list: seq<Layer>, i: nat): seq<Layer>
    requires i <= |list|
    decreases |list| - i
  {
    if i == |list| then list
    else if list[i].isMeta && Check(list, i, Cleared(|list|)).None? then Sweep(RemoveAt(list, i), i)
    else Sweep(list, i + 1)
  }

  /** `verify_all_meta_layers`, for any list; `enabled` stands for `loader_implicit_layer_is_enabled`. */
  method VerifyAllMetaLayers(layers: LayerList, enabled: Layer -> bool) returns (overridePresent: bool)
    modifies layers
    ensures layers.list == Sweep(old(layers.list), 0)
    ensures overridePresent <==> exists l :: l in layers.list && l.isMeta && l.isOverride && enabled(l)
  {
    hide Check, First, NotOlder, RemoveAt, Sweep;
    overridePresent := false;
    var i := 0;
    while i < |layers.list|
      invariant 0 <= i <= |layers.list|
      invariant Sweep(layers.list, i) == Sweep(old(layers.list), 0)
      invariant overridePresent <==> exists l :: l in layers.list[..i] && l.isMeta && l.isOverride && enabled(l)
      decreases |layers.list| - i
    {
      SweepStep(layers.list, i);
      var prop := layers.list[i];
      if prop.isMeta {
        var ok := VerifyMetaLayer(layers.list, i);
        if ok {
          if prop.isOverride && enabled(prop) {
            overridePresent := true;
          }
          i := i + 1;
        } else {
          ghost var before := layers.list;
          layers.Remove(i);
          RemovedAt(before, i);
        }
      } else {
        i := i + 1;
      }
    }
    SweepStep(layers.list, i);
  }

  lemma SweepStep(list: seq<Layer>, i: nat)
    requires i <= |list|
    ensures i == |list| ==> Sweep(list, i) == list
    ensures i < |list| ==> |RemoveAt(list, i)| == |list| - 1
    ensures var rejected := i < |list| && list[i].isMeta && Check(list, i, Cleared(|list|)).None?;
            i < |list| ==> Sweep(list, i) == if rejected then Sweep(RemoveAt(list, i), i) else Sweep(list, i + 1)
  {
  }

  lemma RemovedAt(list: seq<Layer>, i: nat)
    requires i < |list|
    ensures RemoveAt(list, i)[..i] == list[..i]
  {
  }

  // ---------------------------------------------------------------- the pass is a filter and a fixpoint

  ghost predicate Keeps(list: seq<Layer>, l: Layer) {
    !l.isMeta || (Has(list, l.name) && Verifies(list, l.name))
  }

  /** The layers of `part` that are no meta-layers or verify against `list`, in order. */
  ghost function Kept(list: seq<Layer>, part: seq<Layer>): seq<Layer> {
    if part == [] then []
    else (if Keeps(list, part[0]) then [part[0]] else []) + Kept(list, part[1..])
  }

  ghost predicate AllVerified(list: seq<Layer>) {
    forall n :: Has(list, n) && Get(list, n).isMeta ==> Verifies(list, n)
  }

  /** `now` is an edited version of `list` in which every remaining verdict is unchanged. */
  ghost predicate SameVerdicts(list: seq<Layer>, now: seq<Layer>) {
    forall n :: Has(now, n) ==>
      && Has(list, n)
      && Get(list, n) == Get(now, n)
      && (Get(now, n).isMeta ==> (Verifies(now, n) <==> Verifies(list, n)))
  }

  lemma SameAfterReject(list: seq<Layer>, now: seq<Layer>, f: nat)
    requires MetasAlone(now) && SameVerdicts(list, now) && f < |now| && now[f].isMeta
    requires Has(now, now[f].name) && !Verifies(now, now[f].name)
    ensures MetasAlone(RemoveAt(now, f)) && SameVerdicts(list, RemoveAt(now, f))
  {
    RemoveIsWithout(now, f);
    forall n | Has(RemoveAt(now, f), n)
      ensures Has(list, n) && Get(list, n) == Get(RemoveAt(now, f), n)
      ensures Get(list, n).isMeta ==> (Verifies(RemoveAt(now, f), n) <==> Verifies(list, n))
    {
      if Get(now, n).isMeta {
        VerdictSurvives(now, f, n);
      }
    }
  }

  lemma KeptStep(list: seq<Layer>, now: seq<Layer>, i: nat)
    requires i < |now|
    ensures Keeps(list, now[i]) ==> now[..i] + Kept(list, now[i..]) == now[..i + 1] + Kept(list, now[i + 1..])
    ensures !Keeps(list, now[i]) ==>
              now[..i] + Kept(list, now[i..]) == RemoveAt(now, i)[..i] + Kept(list, RemoveAt(now, i)[i..])
  {
    assert now[i..][0] == now[i] && now[i..][1..] == now[i + 1..];
    assert now[..i + 1] == now[..i] + [now[i]];
    assert RemoveAt(now, i)[..i] == now[..i] && RemoveAt(now, i)[i..] == now[i + 1..];
  }

  lemma VerdictIsKeeps(list: seq<Layer>, now: seq<Layer>, i: nat)
    requires i < |now| && MetasAlone(now) && SameVerdicts(list, now)
    ensures Has(now, now[i].name)
    ensures now[i].isMeta && Check(now, i, Cleared(|now|)).None? <==> !Keeps(list, now[i])
    ensures now[i].isMeta ==> (Verifies(now, now[i].name) <==> Keeps(list, now[i]))
  {
    if now[i].isMeta {
      VerdictByName(now, i);
    }
  }

  lemma {:induction false} SweepIsFilter(list: seq<Layer>, now: seq<Layer>, i: nat)
    requires i <= |now| && MetasAlone(now) && SameVerdicts(list, now)
    ensures Sweep(now, i) == now[..i] + Kept(list, now[i..])
    ensures MetasAlone(Sweep(now, i)) && SameVerdicts(list, Sweep(now, i))
    decreases |now| - i
  {
    if i < |now| {
      VerdictIsKeeps(list, now, i);
      KeptStep(list, now, i);
      if !Keeps(list, now[i]) {
        SameAfterReject(list, now, i);
        SweepIsFilter(list, RemoveAt(now, i), i);
      } else {
        SweepIsFilter(list, now, i + 1);
      }
    }
  }

  lemma {:induction false} KeptKeeps(list: seq<Layer>, part: seq<Layer>, l: Layer)
    requires l in Kept(list, part)
    ensures Keeps(list, l)
  {
    if l != part[0] || !Keeps(list, part[0]) {
      KeptKeeps(list, part[1..], l);
    }
  }

  lemma {:induction false} KeptAll(list: seq<Layer>, part: seq<Layer>)
    requires forall l :: l in part ==> Keeps(list, l)
    ensures Kept(list, part) == part
  {
    if part != [] {
      KeptAll(list, part[1..]);
    }
  }

  /**
    One pass suffices.  The result keeps exactly the layers whose verdict against the original list
    is good, all of them still verify against the shorter list, and a second pass changes nothing.
  */
  lemma OnePassIsEnough(list: seq<Layer>)
    requires MetasAlone(list)
    ensures Sweep(list, 0) == Kept(list, list)
    ensures MetasAlone(Sweep(list, 0)) && AllVerified(Sweep(list, 0))
    ensures Sweep(Sweep(list, 0), 0) == Sweep(list, 0)
  {
    SweepIsFilter(list, list, 0);
    var end := Sweep(list, 0);
    assert list[..0] + Kept(list, list[0..]) == Kept(list, list) by {
      assert list[0..] == list;
    }
    forall n | Has(end, n) && Get(end, n).isMeta
      ensures Verifies(end, n)
    {
      KeptKeeps(list, list, Get(end, n));
    }
    SecondPass(end);
  }

  lemma SecondPass(list: seq<Layer>)
    requires MetasAlone(list) && AllVerified(list)
    ensures Sweep(list, 0) == list
  {
    SweepIsFilter(list, list, 0);
    forall l | l in list
      ensures Keeps(list, l)
    {
      var i :| 0 <= i < |list| && list[i] == l;
      if l.isMeta {
        AloneIsTheOne(list, i);
      }
    }
    KeptAll(list, list);
    assert list[0..] == list && list[..0] + Kept(list, list) == list;
  }

  // ---------------------------------------------------------------- no cycles are left

  /** A strictly decreasing measure along "meta-layer lists meta-layer": the list has no cycle. */
  ghost predicate Ranked(list: seq<Layer>, rank: map<string, nat>) {
    forall n, k, c :: Slot(list, n, k, c) && Get(list, n).isMeta ==> n in rank && c in rank && rank[c] < rank[n]
  }

  lemma VerifiedIsAcyclic(list: seq<Layer>) returns (rank: map<string, nat>)
    requires AllVerified(list)
    ensures Ranked(list, rank)
  {
    rank := map n | n in Names(list) && Has(list, n) && Get(list, n).isMeta :: |TreeOf(list, n)|;
    forall n, k, c | Slot(list, n, k, c) && Get(list, n).isMeta
      ensures n in rank && c in rank && rank[c] < rank[n]
    {
      NamesAreLookups(list, n);
      NamesAreLookups(list, c);
      ComponentTree(list, n, k);
    }
  }

  // ---------------------------------------------------------------- duplicate names

  /** Index of the first later entry with the name of entry `i`, or `|list|`. */
  function NextCopy(list: seq<Layer>, i: nat): (j: nat)
    requires i < |list|
    ensures i < j <= |list|
    ensures j < |list| ==> list[j].name == list[i].name
    ensures forall k :: i < k < j ==> list[k].name != list[i].name
  {
    var j := i + 1 + First(list[i + 1..], list[i].name);
    assert forall k :: i + 1 <= k < |list| ==> list[k] == list[i + 1..][k - i - 1];
    j
  }

  /** The list `loader_remove_duplicate_layers` leaves when it stands at index `i`. */
  function Dedup(list: seq<Layer>, i: nat): seq<Layer>
    requires i <= |list|
    decreases |list| - i
  {
    if i == |list| then list
    else
      var j := NextCopy(list, i);
      Dedup(if j < |list| then RemoveAt(list, j) else list, i + 1)
  }

  /** The inner loop of `loader_remove_duplicate_layers`. */
  method FindCopy(list: seq<Layer>, i: nat) returns (j: nat)
    requires i < |list|
    ensures j == NextCopy(list, i)
  {
    j := i + 1;
    while j < |list|
      invariant i < j <= |list|
      invariant forall k :: i < k < j ==> list[k].name != list[i].name
    {
      if list[i].name == list[j].name {
        return;
      }
      j := j + 1;
    }
  }

  /** `loader_remove_duplicate_layers`. */
  method RemoveDuplicateLayers(layers: LayerList)
    modifies layers
    ensures layers.list == Dedup(old(layers.list), 0)
  {
    var i := 0;
    while i < |layers.list|
      invariant 0 <= i <= |layers.list|
      invariant Dedup(layers.list, i) == Dedup(old(layers.list), 0)
      decreases |layers.list| - i
    {
      var j := FindCopy(layers.list, i);
      if j < |layers.list| {
        layers.Remove(j);
      }
      i := i + 1;
    }
  }

  ghost function Copies(list: seq<Layer>, n: string): nat {
    if list == [] then 0 else (if list[0].name == n then 1 else 0) + Copies(list[1..], n)
  }

  lemma {:induction false} CopiesSplit(a: seq<Layer>, b: seq<Layer>, n: string)
    ensures Copies(a + b, n) == Copies(a, n) + Copies(b, n)
  {
    if a == [] {
      assert a + b == b;
    } else {
      CopiesSplit(a[1..], b, n);
      assert (a + b)[1..] == a[1..] + b;
    }
  }

  lemma {:induction false} NoCopies(list: seq<Layer>, n: string)
    ensures Copies(list, n) == 0 <==> forall i :: 0 <= i < |list| ==> list[i].name != n
  {
    if list != [] {
      NoCopies(list[1..], n);
      assert forall i :: 1 <= i < |list| ==> list[i] == list[1..][i - 1];
    }
  }

  lemma CopiesAfterRemove(list: seq<Layer>, j: nat, n: string)
    requires j < |list|
    ensures Copies(RemoveAt(list, j), n) == Copies(list, n) - (if list[j].name == n then 1 else 0)
  {
    CopiesSplit(list[..j], list[j..], n);
    CopiesSplit(list[..j], list[j + 1..], n);
    assert list == list[..j] + list[j..] && list[j..][1..] == list[j + 1..];
  }

  /** What the removal finally leaves of the copies of `n` when it stands at index `i`. */
  ghost function Left(list: seq<Layer>, i: nat, n: string): nat
    requires i <= |list|
  {
    Copies(list[..i], n) + (Copies(list[i..], n) + 1) / 2
  }

  lemma CopiesAt(list: seq<Layer>, i: nat, n: string)
    requires i < |list|
    ensures Copies(list[..i + 1], n) == Copies(list[..i], n) + (if list[i].name == n then 1 else 0)
    ensures Copies(list[i..], n) == (if list[i].name == n then 1 else 0) + Copies(list[i + 1..], n)
  {
    CopiesSplit(list[..i], [list[i]], n);
    assert list[..i + 1] == list[..i] + [list[i]];
    assert list[i..][1..] == list[i + 1..];
  }

  lemma LeftStaysAfterRemove(list: seq<Layer>, i: nat, j: nat, n: string)
    requires i < j < |list| && list[i].name == list[j].name
    ensures Left(RemoveAt(list, j), i + 1, n) == Left(list, i, n)
  {
    var less := RemoveAt(list, j);
    CopiesAt(list, i, n);
    assert less[..i + 1] == list[..i + 1];
    assert less[i + 1..] == RemoveAt(list[i + 1..], j - i - 1);
    CopiesAfterRemove(list[i + 1..], j - i - 1, n);
  }

  /** Each position deletes at most one later copy, so half of the copies, rounded up, stay. */
  lemma {:induction false} DedupHalves(list: seq<Layer>, i: nat, n: string)
    requires i <= |list|
    ensures Copies(Dedup(list, i), n) == Left(list, i, n)
    decreases |list| - i
  {
    if i == |list| {
      assert list[..i] == list && list[i..] == [];
    } else {
      var j := NextCopy(list, i);
      if j < |list| {
        LeftStaysAfterRemove(list, i, j, n);
        DedupHalves(RemoveAt(list, j), i + 1, n);
      } else {
        CopiesAt(list, i, n);
        NoCopies(list[i + 1..], list[i].name);
        DedupHalves(list, i + 1, n);
      }
    }
  }

  lemma {:induction false} OnceEach(list: seq<Layer>, n: string)
    requires DistinctNames(list)
    ensures Copies(list, n) <= 1
  {
    if list != [] {
      assert forall i :: 1 <= i < |list| ==> list[i] == list[1..][i - 1];
      OnceEach(list[1..], n);
      NoCopies(list[1..], list[0].name);
    }
  }

  lemma TwiceSomewhere(list: seq<Layer>, i: nat, j: nat)
    requires i < j < |list| && list[i].name == list[j].name
    ensures Copies(list, list[i].name) >= 2
  {
    hide Copies;
    var n := list[i].name;
    CopiesSplit(list[..j], list[j..], n);
    assert list == list[..j] + list[j..];
    NoCopies(list[..j], n);
    NoCopies(list[j..], n);
    assert list[..j][i].name == n && list[j..][0].name == n;
  }

  lemma DistinctMeansOnce(list: seq<Layer>)
    ensures DistinctNames(list) <==> forall n :: Copies(list, n) <= 1
  {
    if DistinctNames(list) {
      forall n
        ensures Copies(list, n) <= 1
      {
        OnceEach(list, n);
      }
    } else {
      var i, j :| 0 <= i < j < |list| && list[i].name == list[j].name;
      TwiceSomewhere(list, i, j);
    }
  }

  /** The removal makes names distinct exactly when no name occurs three times. */
  lemma DistinctAfterDedup(list: seq<Layer>)
    ensures DistinctNames(Dedup(list, 0)) <==> forall n :: Copies(list, n) <= 2
  {
    DistinctMeansOnce(Dedup(list, 0));
    assert list[..0] == [] && list[0..] == list;
    if forall n :: Copies(list, n) <= 2 {
      forall n
        ensures Copies(Dedup(list, 0), n) <= 1
      {
        DedupHalves(list, 0, n);
      }
    } else {
      var n :| Copies(list, n) > 2;
      DedupHalves(list, 0, n);
      assert Copies(Dedup(list, 0), n) == (Copies(list, n) + 1) / 2 >= 2;
    }
  }

  /** However many copies there are, every lookup by name finds the record it found before. */
  lemma {:induction false} DedupKeepsLookups(list: seq<Layer>, i: nat, n: string)
    requires i <= |list|
    ensures Has(Dedup(list, i), n) == Has(list, n)
    ensures Has(list, n) ==> Get(Dedup(list, i), n) == Get(list, n)
    decreases |list| - i
  {
    hide First, NextCopy, Has, Get, RemoveAt;
    if i < |list| {
      var j := NextCopy(list, i);
      if j < |list| {
        var less := RemoveAt(list, j);
        ShorterByOne(list, j);
        assert Dedup(list, i) == Dedup(less, i + 1);
        hide Dedup;
        LaterCopyIsInvisible(list, i, j, n);
        DedupKeepsLookups(less, i + 1, n);
      } else {
        DedupKeepsLookups(list, i + 1, n);
      }
    }
  }

  lemma ShorterByOne(list: seq<Layer>, j: nat)
    requires j < |list|
    ensures |RemoveAt(list, j)| == |list| - 1
  {
  }

  lemma LaterCopyIsInvisible(list: seq<Layer>, i: nat, j: nat, n: string)
    requires i < j < |list| && list[i].name == list[j].name
    ensures Has(RemoveAt(list, j), n) == Has(list, n)
    ensures Has(list, n) ==> Get(RemoveAt(list, j), n) == Get(list, n)
  {
    var less := RemoveAt(list, j);
    if Has(list, n) {
      var f := First(list, n);
      assert f != j;
      assert less[if f < j then f else f - 1] == list[f];
    }
    if Has(less, n) {
      var f := First(less, n);
      assert list[if f < j then f else f + 1] == less[f];
    }
  }

  const V := ApiVersion(1, 0, 0)
}
