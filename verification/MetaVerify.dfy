/**
  Verification of meta-layers: the depth-first check with an "already checked" array, and the
  pass that deletes the meta-layers it rejects.

  `Check` transcribes the check over list indices and is meaningful for every list, duplicate
  names included.  `Tree` is the same walk over names; when no meta-layer shares its name the two
  agree, and everything that survives deletions is stated with `Tree`.
*/
module MetaVerify {
  import opened Common
  import opened Layers

  // ---------------------------------------------------------------- index level

  /** The tests on component `k` of entry `i` that do not look at the marks. */
  predicate SlotOk(list: seq<Layer>, i: nat, k: nat)
    requires i < |list| && k < |list[i].components|
  {
    var name := list[i].components[k];
    var first := First(list, name);
    && first < |list|
    && MeetsRequired(list[i].version, list[first].version)
    && list[i].name != name
  }

  /** How many entries are still unmarked: the measure of the recursion. */
  ghost function Free(marks: seq<bool>): nat {
    if marks == [] then 0 else (if marks[0] then 0 else 1) + Free(marks[1..])
  }

  ghost predicate Grows(a: seq<bool>, b: seq<bool>) {
    |a| == |b| && forall i :: 0 <= i < |a| && a[i] ==> b[i]
  }

  lemma {:induction false} FreeShrinks(a: seq<bool>, b: seq<bool>)
    requires Grows(a, b)
    ensures Free(b) <= Free(a)
  {
    if a != [] {
      FreeShrinks(a[1..], b[1..]);
    }
  }

  lemma {:induction false} MarkFrees(a: seq<bool>, i: nat)
    requires i < |a| && !a[i]
    ensures Free(a[i := true]) < Free(a)
  {
    if i == 0 {
      assert a[i := true][1..] == a[1..];
    } else {
      MarkFrees(a[1..], i - 1);
      assert a[i := true][1..] == a[1..][i - 1 := true];
    }
  }

  /** Entry `i` is not marked yet; the result is the array of marks after acceptance. */
  ghost function Check(list: seq<Layer>, i: nat, marks: seq<bool>): (r: Option<seq<bool>>)
    requires i < |list| == |marks| && !marks[i]
    ensures r.Some? ==> Grows(marks[i := true], r.value)
    decreases Free(marks), 0, 0
  {
    MarkFrees(marks, i);
    CheckFrom(list, i, 0, marks[i := true])
  }

  ghost function CheckFrom(list: seq<Layer>, i: nat, k: nat, marks: seq<bool>): (r: Option<seq<bool>>)
    requires i < |list| == |marks| && k <= |list[i].components|
    ensures r.Some? ==> Grows(marks, r.value)
    decreases Free(marks), 1, |list[i].components| - k
  {
    if k == |list[i].components| then Some(marks)
    else if !SlotOk(list, i, k) then None
    else
      var comp := list[First(list, list[i].components[k])];
      if !comp.isMeta then CheckFrom(list, i, k + 1, marks)
      else
        var index := Last(list, comp.name);
        if marks[index] then None
        else
          var sub := Check(list, index, marks);
          if sub.None? then None
          else
            FreeShrinks(marks, sub.value);
            CheckFrom(list, i, k + 1, sub.value)
  }

  /**
    `verify_meta_layer_component_layers` below its first call.  It terminates on every list:
    each recursive call marks an entry that was unmarked.
  */
  method VerifyComponents(list: seq<Layer>, i: nat, checked: array<bool>) returns (ok: bool)
    requires i < |list| == checked.Length && !checked[i]
    modifies checked
    ensures ok <==> Check(list, i, old(checked[..])).Some?
    ensures ok ==> Check(list, i, old(checked[..])).value == checked[..]
    decreases Free(checked[..]), 0
  {
    ghost var start := checked[..];
    checked[i] := true;
    assert checked[..] == start[i := true];
    MarkFrees(start, i);
    ghost var answer := Check(list, i, start);
    var k := 0;
    while k < |list[i].components|
      invariant 0 <= k <= |list[i].components|
      invariant Free(checked[..]) < Free(start)
      invariant answer == CheckFrom(list, i, k, checked[..])
      decreases |list[i].components| - k
    {
      var good := VerifySlot(list, i, k, checked);
      if !good {
        return false;
      }
      k := k + 1;
    }
    return true;
  }

  /** The loop body of the same function: one component, with the recursive call on a meta-layer. */
  method VerifySlot(list: seq<Layer>, i: nat, k: nat, checked: array<bool>) returns (ok: bool)
    requires i < |list| == checked.Length && k < |list[i].components|
    modifies checked
    ensures !ok ==> CheckFrom(list, i, k, old(checked[..])).None?
    ensures ok ==> CheckFrom(list, i, k, old(checked[..])) == CheckFrom(list, i, k + 1, checked[..])
    ensures ok ==> Free(checked[..]) <= old(Free(checked[..]))
    decreases Free(checked[..]), 1
  {
    var found := FindLayerProperty(list[i].components[k], list);
    if found.None? {
      return false;
    }
    var comp := list[found.value];
    if !MeetsRequired(list[i].version, comp.version) || list[i].name == list[i].components[k] {
      return false;
    }
    if comp.isMeta {
      var index := FindLastIndex(comp.name, list);
      if checked[index] {
        return false;
      }
      ok := VerifyComponents(list, index, checked);
      if ok {
        FreeShrinks(old(checked[..]), checked[..]);
      }
      return;
    }
    return true;
  }

  /** `verify_meta_layer_component_layers` called with no array: every mark starts cleared. */
  method VerifyMetaLayer(list: seq<Layer>, i: nat) returns (ok: bool)
    requires i < |list|
    ensures ok <==> Check(list, i, Cleared(|list|)).Some?
    ensures ok ==> forall k :: 0 <= k < |list[i].components| ==>
      var first := First(list, list[i].components[k]);
      && first < |list| && list[i].components[k] != list[i].name
      && NotOlder(list[i].version, list[first].version)
  {
    var checked := new bool[|list|](_ => false);
    assert checked[..] == Cleared(|list|);
    ok := VerifyComponents(list, i, checked);
    if ok {
      AcceptedSlots(list, i, 0, Cleared(|list|)[i := true]);
      assert forall k :: 0 <= k < |list[i].components| ==> SlotOk(list, i, k);
      forall k | 0 <= k < |list[i].components|
        ensures
          var first := First(list, list[i].components[k]);
          && first < |list| && list[i].components[k] != list[i].name
          && NotOlder(list[i].version, list[first].version)
      {
        assert SlotOk(list, i, k);
      }
    }
  }

  /** The second version is at least the first, field by field. */
  ghost predicate NotOlder(a: ApiVersion, b: ApiVersion) {
    && a.major <= b.major
    && (a.major == b.major ==> a.minor <= b.minor && (a.minor == b.minor ==> a.patch <= b.patch))
  }

  lemma {:induction false} AcceptedSlots(list: seq<Layer>, i: nat, k: nat, marks: seq<bool>)
    requires i < |list| == |marks| && k <= |list[i].components| && CheckFrom(list, i, k, marks).Some?
    ensures forall j :: k <= j < |list[i].components| ==> SlotOk(list, i, j)
    decreases |list[i].components| - k
  {
    if k < |list[i].components| {
      assert SlotOk(list, i, k);
      hide MeetsRequired;
      var comp := list[First(list, list[i].components[k])];
      if !comp.isMeta {
        AcceptedSlots(list, i, k + 1, marks);
      } else {
        AcceptedSlots(list, i, k + 1, Check(list, Last(list, comp.name), marks).value);
      }
    }
  }

  ghost function Cleared(n: nat): seq<bool> {
    seq(n, _ => false)
  }

  // ---------------------------------------------------------------- name level

  lemma SubsetSize<T>(a: set<T>, b: set<T>)
    requires a <= b
    ensures |a| <= |b|
    ensures a < b ==> |a| < |b|
  {
    assert b == a + (b - a);
  }

  predicate Has(list: seq<Layer>, n: string) {
    First(list, n) < |list|
  }

  function Get(list: seq<Layer>, n: string): (l: Layer)
    requires Has(list, n)
    ensures l in list && l.name == n
  {
    list[First(list, n)]
  }

  predicate GoodSlot(list: seq<Layer>, m: Layer, k: nat)
    requires k < |m.components|
  {
    var c := m.components[k];
    Has(list, c) && MeetsRequired(m.version, Get(list, c).version) && c != m.name
  }

  /** Component `k` of `m` is a meta-layer of the list. */
  predicate MetaSlot(list: seq<Layer>, m: Layer, k: nat)
    requires k < |m.components|
  {
    Has(list, m.components[k]) && Get(list, m.components[k]).isMeta
  }

  ghost function Tree(list: seq<Layer>, n: string, seen: set<string>): (r: Option<set<string>>)
    requires Has(list, n) && n !in seen && seen <= Names(list)
    ensures r.Some? ==> seen + {n} <= r.value <= Names(list)
    decreases |Names(list) - seen|, 0, 0
  {
    assert n in Names(list);
    assert Names(list) - (seen + {n}) < Names(list) - seen;
    SubsetSize(Names(list) - (seen + {n}), Names(list) - seen);
    TreeFrom(list, n, 0, seen + {n})
  }

  ghost function TreeFrom(list: seq<Layer>, n: string, k: nat, seen: set<string>): (r: Option<set<string>>)
    requires Has(list, n) && k <= |Get(list, n).components| && seen <= Names(list)
    ensures r.Some? ==> seen <= r.value <= Names(list)
    decreases |Names(list) - seen|, 1, |Get(list, n).components| - k
  {
    var m := Get(list, n);
    if k == |m.components| then Some(seen)
    else if !GoodSlot(list, m, k) then None
    else
      var c := m.components[k];
      if !Get(list, c).isMeta then TreeFrom(list, n, k + 1, seen)
      else if c in seen then None
      else
        var sub := Tree(list, c, seen);
        if sub.None? then None
        else
          SubsetSize(Names(list) - sub.value, Names(list) - seen);
          TreeFrom(list, n, k + 1, sub.value)
  }

  /** The meta-layer `n` passes verification against `list`. */
  ghost predicate Verifies(list: seq<Layer>, n: string)
    requires Has(list, n)
  {
    Tree(list, n, {}).Some?
  }

  ghost function NamesAt(list: seq<Layer>, marks: seq<bool>): set<string>
    requires |list| == |marks|
  {
    set i | 0 <= i < |list| && marks[i] :: list[i].name
  }

  lemma NamesAtMark(list: seq<Layer>, marks: seq<bool>, i: nat)
    requires MetasAlone(list) && i < |list| == |marks| && list[i].isMeta && !marks[i]
    ensures list[i].name !in NamesAt(list, marks)
    ensures NamesAt(list, marks[i := true]) == NamesAt(list, marks) + {list[i].name}
  {
    assert forall j :: 0 <= j < |list| ==> (marks[i := true][j] <==> marks[j] || j == i);
  }

  /** When meta-layers are alone with their names the walk over indices and the walk over names are the same walk. */
  ghost predicate SameWalk(list: seq<Layer>, byIndex: Option<seq<bool>>, byName: Option<set<string>>)
    requires byIndex.Some? ==> |byIndex.value| == |list|
  {
    byName == if byIndex.Some? then Some(NamesAt(list, byIndex.value)) else None
  }

  lemma {:induction false} CheckIsTree(list: seq<Layer>, i: nat, marks: seq<bool>)
    requires MetasAlone(list) && i < |list| == |marks| && list[i].isMeta && !marks[i]
    ensures Has(list, list[i].name) && list[i].name !in NamesAt(list, marks) && NamesAt(list, marks) <= Names(list)
    ensures SameWalk(list, Check(list, i, marks), Tree(list, list[i].name, NamesAt(list, marks)))
    decreases Free(marks), 0, 0
  {
    AloneIsTheOne(list, i);
    NamesAtMark(list, marks, i);
    MarkFrees(marks, i);
    CheckFromIsTreeFrom(list, i, 0, marks[i := true]);
  }

  lemma MarkedIsNamed(list: seq<Layer>, marks: seq<bool>, i: nat)
    requires i < |list| == |marks| && marks[i]
    ensures list[i].name in NamesAt(list, marks)
  {
  }

  lemma {:induction false} CheckFromIsTreeFrom(list: seq<Layer>, i: nat, k: nat, marks: seq<bool>)
    requires MetasAlone(list) && i < |list| == |marks| && list[i].isMeta && k <= |list[i].components|
    ensures Has(list, list[i].name) && Get(list, list[i].name) == list[i] && NamesAt(list, marks) <= Names(list)
    ensures SameWalk(list, CheckFrom(list, i, k, marks), TreeFrom(list, list[i].name, k, NamesAt(list, marks)))
    decreases Free(marks), 1, |list[i].components| - k
  {
    AloneIsTheOne(list, i);
    assert NamesAt(list, marks) <= Names(list);
    if k < |list[i].components| && SlotOk(list, i, k) {
      hide Grows, Free, Names, MetasAlone, MeetsRequired, NamesAt;
      var index := First(list, list[i].components[k]);
      if list[index].isMeta {
        AloneIsTheOne(list, index);
      }
      if !list[index].isMeta {
        CheckFromIsTreeFrom(list, i, k + 1, marks);
      } else if !marks[index] {
        CheckIsTree(list, index, marks);
        var sub := Check(list, index, marks);
        if sub.Some? {
          FreeShrinks(marks, sub.value);
          CheckFromIsTreeFrom(list, i, k + 1, sub.value);
        }
      } else {
        MarkedIsNamed(list, marks, index);
      }
    }
  }

  lemma VerdictByName(list: seq<Layer>, i: nat)
    requires MetasAlone(list) && i < |list| && list[i].isMeta
    ensures Has(list, list[i].name) && Get(list, list[i].name) == list[i]
    ensures Check(list, i, Cleared(|list|)).Some? <==> Verifies(list, list[i].name)
  {
    AloneIsTheOne(list, i);
    CheckIsTree(list, i, Cleared(|list|));
    assert NamesAt(list, Cleared(|list|)) == {};
  }
}
