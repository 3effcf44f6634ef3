/** `windows_sort_devices_in_group` and `windows_sort_physical_device_groups`. */
module WindowsGroups {

  import opened WindowsSort

  type Device = nat
  type Group = seq<Device>

  /** The listed devices that can be taken from the bag, each as often as it is there, in list order. */
  function Picked(list: seq<Device>, bag: multiset<Device>): seq<Device> {
    if list == [] then []
    else if list[0] in bag then [list[0]] + Picked(list[1..], bag - multiset{list[0]})
    else Picked(list[1..], bag)
  }

  /** Each device is picked as often as it is both listed and in the bag. */
  lemma {:induction false} PickedCounts(list: seq<Device>, bag: multiset<Device>)
    ensures multiset(Picked(list, bag)) == multiset(list) * bag
    decreases |list|
  {
    if list != [] {
      assert list == [list[0]] + list[1..];
      PickedCounts(list[1..], if list[0] in bag then bag - multiset{list[0]} else bag);
    }
  }

  /** What is listed first is picked first. */
  lemma {:induction false} PickedInOrder(a: seq<Device>, b: seq<Device>, bag: multiset<Device>)
    ensures Picked(a + b, bag) == Picked(a, bag) + Picked(b, bag - multiset(a))
    decreases |a|
  {
    if a == [] {
      assert a + b == b && bag - multiset(a) == bag;
    } else {
      hide Picked;
      var left := if a[0] in bag then bag - multiset{a[0]} else bag;
      FrontStays(a, b);
      TakenInTurn(a, bag, left);
      PickedInOrder(a[1..], b, left);
      PickedStep(a + b, bag, left);
      PickedStep(a, bag, left);
    }
  }

  lemma FrontStays<T>(a: seq<T>, b: seq<T>)
    requires a != []
    ensures (a + b)[0] == a[0] && (a + b)[1..] == a[1..] + b
  {
  }

  lemma PickedStep(list: seq<Device>, bag: multiset<Device>, left: multiset<Device>)
    requires list != [] && left == if list[0] in bag then bag - multiset{list[0]} else bag
    ensures Picked(list, bag) == (if list[0] in bag then [list[0]] else []) + Picked(list[1..], left)
  {
  }

  lemma TakenInTurn(a: seq<Device>, bag: multiset<Device>, left: multiset<Device>)
    requires a != [] && left == if a[0] in bag then bag - multiset{a[0]} else bag
    ensures bag - multiset(a) == left - multiset(a[1..])
  {
    assert a == [a[0]] + a[1..];
  }

  method FindFrom(group: Group, from: nat, device: Device) returns (k: nat)
    requires from <= |group|
    ensures from <= k <= |group| && (k < |group| ==> group[k] == device)
    ensures device !in group[from..k]
  {
    k := from;
    while k < |group| && group[k] != device
      invariant from <= k <= |group| && device !in group[from..k]
    {
      k := k + 1;
    }
  }

  /** With `dev` listed devices done, the first `cur` are picked, and the rest will be from behind. */
  ghost predicate Progress(list: seq<Device>, dev: nat, s: Group, cur: nat, all: multiset<Device>) {
    && dev <= |list| && cur <= |s| && multiset(s) == all
    && Picked(list, all) == s[..cur] + Picked(list[dev..], multiset(s[cur..]))
  }

  lemma ProgressStarts(list: seq<Device>, s: Group)
    ensures Progress(list, 0, s, 0, multiset(s))
  {
    assert s[0..] == s && list[0..] == list;
  }

  lemma ProgressFound(list: seq<Device>, dev: nat, s: Group, cur: nat, all: multiset<Device>, k: nat)
    requires Progress(list, dev, s, cur, all) && dev < |list| && cur <= k < |s| && s[k] == list[dev]
    ensures Progress(list, dev + 1, Swapped(s, cur, k), cur + 1, all)
  {
    hide Swapped;
    MovedUp(s, cur, k);
    assert list[dev..][1..] == list[dev + 1..];
    var rest := Picked(list[dev + 1..], multiset(Swapped(s, cur, k)[cur + 1..]));
    assert s[..cur] + ([list[dev]] + rest) == (s[..cur] + [list[dev]]) + rest;
  }

  lemma ProgressMissing(list: seq<Device>, dev: nat, s: Group, cur: nat, all: multiset<Device>)
    requires Progress(list, dev, s, cur, all) && dev < |list| && list[dev] !in s[cur..]
    ensures Progress(list, dev + 1, s, cur, all)
  {
    assert list[dev..][1..] == list[dev + 1..];
  }

  lemma ProgressEnds(list: seq<Device>, s: Group, cur: nat, all: multiset<Device>)
    requires Progress(list, |list|, s, cur, all)
    ensures Picked(list, all) <= s && multiset(s) == all
  {
    assert s[..cur] + [] == s[..cur];
  }

  /** The group's devices, with the listed ones in front and in the order of the list. */
  method SortDevicesInGroup(group: Group, list: seq<Device>) returns (sorted: Group)
    ensures multiset(sorted) == multiset(group)
    ensures Picked(list, multiset(group)) <= sorted
  {
    hide Progress, Picked;
    sorted := group;
    var cur: nat, dev: nat := 0, 0;
    ghost var all := multiset(group);
    ProgressStarts(list, group);
    while dev < |list|
      invariant dev <= |list| && cur <= |sorted| && Progress(list, dev, sorted, cur, all)
    {
      var k := FindFrom(sorted, cur, list[dev]);
      if k < |sorted| {
        ProgressFound(list, dev, sorted, cur, all, k);
        ghost var swapped := Swapped(sorted, cur, k);
        if cur != k {
          sorted := sorted[cur := sorted[k]][k := sorted[cur]];
        }
        assert sorted == swapped;
        cur := cur + 1;
      } else {
        assert sorted[cur..k] == sorted[cur..];
        ProgressMissing(list, dev, sorted, cur, all);
      }
      dev := dev + 1;
    }
    ProgressEnds(list, sorted, cur, all);
  }

  lemma MovedUp(s: Group, cur: nat, k: nat)
    requires cur <= k < |s|
    ensures
      var t := Swapped(s, cur, k);
      && multiset(t) == multiset(s) && t[..cur + 1] == s[..cur] + [s[k]]
      && s[k] in multiset(s[cur..])
      && multiset(t[cur + 1..]) == multiset(s[cur..]) - multiset{s[k]}
  {
    SwappedIsPermutation(s, cur, k);
    var tail := s[cur..];
    assert Swapped(s, cur, k)[cur..] == Swapped(tail, 0, k - cur);
    assert tail[k - cur] == s[k];
    FirstAndRest(tail, k - cur, Swapped(s, cur, k)[cur + 1..]);
  }

  lemma FirstAndRest(tail: Group, k: nat, rest: Group)
    requires k < |tail| && rest == Swapped(tail, 0, k)[1..]
    ensures tail[k] in multiset(tail) && multiset(rest) == multiset(tail) - multiset{tail[k]}
  {
    SwappedIsPermutation(tail, 0, k);
    var swapped := Swapped(tail, 0, k);
    hide Swapped;
    assert swapped == [tail[k]] + rest;
  }

  /** The position of the earliest listed device that is in the group. */
  ghost function Rank(group: Group, listed: seq<Device>): (r: nat)
    ensures r <= |listed| && (r < |listed| ==> listed[r] in group)
    ensures forall t :: 0 <= t < r ==> listed[t] !in group
  {
    if listed == [] || listed[0] in group then 0
    else
      var r := Rank(group, listed[1..]);
      assert forall t :: 1 <= t < r + 1 ==> listed[t] == listed[1..][t - 1];
      r + 1
  }

  lemma RankIs(group: Group, listed: seq<Device>, r: nat)
    requires r <= |listed| && (r < |listed| ==> listed[r] in group)
    requires forall t :: 0 <= t < r ==> listed[t] !in group
    ensures Rank(group, listed) == r
  {
  }

  lemma RankExtends(group: Group, listed: seq<Device>, x: Device)
    ensures Rank(group, listed + [x]) ==
      if Rank(group, listed) < |listed| then Rank(group, listed) else if x in group then |listed| else |listed| + 1
  {
    var r := Rank(group, listed);
    RankIs(group, listed + [x], if r < |listed| then r else if x in group then |listed| else |listed| + 1);
  }

  /** Each device is in one group. */
  ghost predicate Disjoint(groups: seq<Group>) {
    forall p, q, x :: 0 <= p < |groups| && 0 <= q < |groups| && x in groups[p] && x in groups[q] ==> p == q
  }

  /** No two groups have the same earliest listed device. */
  ghost predicate DistinctRanks(groups: seq<Group>, listed: seq<Device>) {
    forall p, q :: 0 <= p < q < |groups| && Rank(groups[p], listed) < |listed| ==>
      Rank(groups[p], listed) != Rank(groups[q], listed)
  }

  lemma DisjointHaveDistinctRanks(groups: seq<Group>, listed: seq<Device>)
    requires Disjoint(groups)
    ensures DistinctRanks(groups, listed)
  {
  }

  /** The first `n` groups hold listed devices and are ordered by the earliest; the others hold none. */
  ghost predicate Ordered(groups: seq<Group>, n: nat, listed: seq<Device>) {
    && n <= |groups|
    && (forall p :: 0 <= p < |groups| ==> (Rank(groups[p], listed) < |listed| <==> p < n))
    && (forall p, q :: 0 <= p < q < n ==> Rank(groups[p], listed) < Rank(groups[q], listed))
  }

  /** Some driver's list determines how the group begins. */
  ghost predicate Arranged(group: Group, lists: seq<seq<Device>>) {
    exists i :: 0 <= i < |lists| && Picked(lists[i], multiset(group)) <= group
  }

  ghost function Bags(groups: seq<Group>): seq<multiset<Device>> {
    seq(|groups|, i requires 0 <= i < |groups| => multiset(groups[i]))
  }

  /** One group is rearranged and changes places with another. */
  ghost function Promoted(groups: seq<Group>, n: nat, k: nat, sorted: Group): seq<Group>
    requires n < |groups| && k < |groups|
  {
    Swapped(groups[k := sorted], n, k)
  }

  lemma PromotedKeepsGroups(groups: seq<Group>, n: nat, k: nat, sorted: Group)
    requires n < |groups| && k < |groups| && multiset(sorted) == multiset(groups[k])
    ensures multiset(Bags(Promoted(groups, n, k, sorted))) == multiset(Bags(groups))
  {
    var after := Promoted(groups, n, k, sorted);
    assert Bags(groups[k := sorted]) == Bags(groups);
    SwappedIsPermutation(Bags(groups), n, k);
    assert Bags(after) == Swapped(Bags(groups), n, k);
  }

  /** Position `p` holds the devices of position `Origin`. */
  ghost function Origin(p: nat, n: nat, k: nat): nat {
    if p == n then k else if p == k then n else p
  }

  lemma PromotedAt(groups: seq<Group>, n: nat, k: nat, sorted: Group, p: nat)
    requires n < |groups| && k < |groups| && p < |groups| && multiset(sorted) == multiset(groups[k])
    ensures Origin(p, n, k) < |groups|
    ensures multiset(Promoted(groups, n, k, sorted)[p]) == multiset(groups[Origin(p, n, k)])
    ensures forall x :: x in Promoted(groups, n, k, sorted)[p] <==> x in groups[Origin(p, n, k)]
  {
    var a, b := Promoted(groups, n, k, sorted)[p], groups[Origin(p, n, k)];
    assert forall x :: x in a <==> x in multiset(a);
    assert forall x :: x in b <==> x in multiset(b);
  }

  lemma SameDevicesSameRank(a: Group, b: Group, listed: seq<Device>)
    requires forall x :: x in a <==> x in b
    ensures Rank(a, listed) == Rank(b, listed)
  {
    RankIs(a, listed, Rank(b, listed));
  }

  lemma PromotedRank(groups: seq<Group>, n: nat, k: nat, sorted: Group, p: nat, listed: seq<Device>)
    requires n < |groups| && k < |groups| && p < |groups| && multiset(sorted) == multiset(groups[k])
    ensures Origin(p, n, k) < |groups|
    ensures Rank(Promoted(groups, n, k, sorted)[p], listed) == Rank(groups[Origin(p, n, k)], listed)
  {
    PromotedAt(groups, n, k, sorted, p);
    SameDevicesSameRank(Promoted(groups, n, k, sorted)[p], groups[Origin(p, n, k)], listed);
  }

  /** Two groups that change places keep their earliest devices, so distinct ones stay distinct and equal ones equal. */
  lemma PromotedKeepsRanks(groups: seq<Group>, n: nat, k: nat, sorted: Group, listed: seq<Device>)
    requires n < |groups| && k < |groups| && multiset(sorted) == multiset(groups[k])
    ensures DistinctRanks(Promoted(groups, n, k, sorted), listed) <==> DistinctRanks(groups, listed)
  {
    var after := Promoted(groups, n, k, sorted);
    forall p | 0 <= p < |groups|
      ensures Origin(p, n, k) < |groups| && Rank(after[p], listed) == Rank(groups[Origin(p, n, k)], listed)
      ensures Rank(groups[p], listed) == Rank(after[Origin(p, n, k)], listed)
    {
      PromotedRank(groups, n, k, sorted, p, listed);
      PromotedRank(groups, n, k, sorted, Origin(p, n, k), listed);
    }
    hide Rank, Promoted;
    OnePlaceEach(groups, after, n, k, listed);
    OnePlaceEach(after, groups, n, k, listed);
  }

  lemma OnePlaceEach(a: seq<Group>, b: seq<Group>, n: nat, k: nat, listed: seq<Device>)
    requires |a| == |b| && n < |a| && k < |a|
    requires forall p :: 0 <= p < |a| ==> Rank(b[p], listed) == Rank(a[Origin(p, n, k)], listed)
    ensures DistinctRanks(a, listed) ==> DistinctRanks(b, listed)
  {
    hide Rank;
    if DistinctRanks(a, listed) {
      forall p, q | 0 <= p < q < |b| && Rank(b[p], listed) < |listed| ensures Rank(b[p], listed) != Rank(b[q], listed) {
        var o, r := Origin(p, n, k), Origin(q, n, k);
        assert o != r;
        assert Rank(b[p], listed) == Rank(a[o], listed) && Rank(b[q], listed) == Rank(a[r], listed);
        if o < r {
          assert Rank(a[o], listed) != Rank(a[r], listed);
        } else if Rank(a[r], listed) < |listed| {
          assert Rank(a[r], listed) != Rank(a[o], listed);
        }
      }
    }
  }

  /** Of the devices looked for so far, the earliest in a group is the earliest of all when there is one. */
  lemma RankInPrefix(group: Group, listed: seq<Device>, all: seq<Device>)
    requires listed <= all
    ensures Rank(group, listed) == if Rank(group, all) < |listed| then Rank(group, all) else |listed|
  {
    RankIs(group, listed, if Rank(group, all) < |listed| then Rank(group, all) else |listed|);
  }

  /** Promoting the one group with the next listed device keeps the order. */
  lemma PromotedIsOrdered(
    groups: seq<Group>, n: nat, k: nat, sorted: Group, listed: seq<Device>, x: Device, all: seq<Device>)
    requires n <= k < |groups| && multiset(sorted) == multiset(groups[k]) && listed + [x] <= all
    requires DistinctRanks(groups, all) && Ordered(groups, n, listed) && x in groups[k]
    ensures Ordered(Promoted(groups, n, k, sorted), n + 1, listed + [x])
  {
    var after := Promoted(groups, n, k, sorted);
    forall p | 0 <= p < |after|
      ensures Rank(after[p], listed + [x]) ==
        if p < n then Rank(groups[p], listed) else if p == n then |listed| else |listed| + 1
    {
      var o := Origin(p, n, k);
      PromotedRank(groups, n, k, sorted, p, listed + [x]);
      RankExtends(groups[o], listed, x);
      if p > n {
        OnlyOneNext(groups, n, k, o, listed, x, all);
      }
    }
  }

  lemma OnlyOneNext(groups: seq<Group>, n: nat, k: nat, o: nat, listed: seq<Device>, x: Device, all: seq<Device>)
    requires n <= k < |groups| && n <= o < |groups| && o != k && listed + [x] <= all
    requires DistinctRanks(groups, all) && Ordered(groups, n, listed) && x in groups[k]
    ensures x !in groups[o]
  {
    if x in groups[o] {
      RankExtends(groups[o], listed, x);
      RankExtends(groups[k], listed, x);
      RankInPrefix(groups[o], listed + [x], all);
      RankInPrefix(groups[k], listed + [x], all);
    }
  }

  lemma UnmatchedIsOrdered(groups: seq<Group>, n: nat, listed: seq<Device>, x: Device)
    requires Ordered(groups, n, listed) && forall k :: n <= k < |groups| ==> x !in groups[k]
    ensures Ordered(groups, n, listed + [x])
  {
    forall p | 0 <= p < |groups|
      ensures Rank(groups[p], listed + [x]) == if p < n then Rank(groups[p], listed) else |listed| + 1
    {
      RankExtends(groups[p], listed, x);
    }
  }

  method Contains(group: Group, x: Device) returns (found: bool)
    ensures found == (x in group)
  {
    var k := 0;
    while k < |group|
      invariant k <= |group| && x !in group[..k]
    {
      if group[k] == x {
        return true;
      }
      k := k + 1;
    }
    assert group[..k] == group;
    return false;
  }

  /** The search for the group of one listed device, and its promotion; `k` is where it was. */
  method Promote(groups: array<Group>, n: nat, x: Device, list: seq<Device>) returns (k: nat, ghost sorted: Group)
    requires n <= groups.Length
    modifies groups
    ensures n <= k <= groups.Length
    ensures k == groups.Length ==> groups[..] == old(groups[..]) && forall p :: n <= p < k ==> x !in groups[p]
    ensures k < groups.Length ==>
      && groups[..] == Promoted(old(groups[..]), n, k, sorted) && multiset(sorted) == multiset(old(groups[..])[k])
      && Picked(list, multiset(sorted)) <= sorted && x in old(groups[..])[k]
  {
    k, sorted := n, [];
    while k < groups.Length
      invariant n <= k <= groups.Length && groups[..] == old(groups[..])
      invariant forall p :: n <= p < k ==> x !in groups[p]
    {
      var found := Contains(groups[k], x);
      if found {
        var arranged := SortDevicesInGroup(groups[k], list);
        sorted := arranged;
        groups[k] := arranged;
        if n != k {
          groups[n], groups[k] := groups[k], groups[n];
        }
        assert groups[..] == Promoted(old(groups[..]), n, k, sorted);
        return;
      }
      k := k + 1;
    }
  }

  /** What holds after the devices in `listed` were looked for, the first ones of `all`. */
  ghost predicate Sorting(
    groups: seq<Group>, was: seq<Group>, n: nat, lists: seq<seq<Device>>, listed: seq<Device>, all: seq<Device>)
  {
    && |groups| == |was| && n <= |groups| && listed <= all
    && multiset(Bags(groups)) == multiset(Bags(was))
    && (DistinctRanks(was, all) <==> DistinctRanks(groups, all))
    && (DistinctRanks(was, all) ==> Ordered(groups, n, listed))
    && (forall p :: 0 <= p < n ==> Arranged(groups[p], lists))
  }

  lemma SortingStarts(groups: seq<Group>, lists: seq<seq<Device>>, all: seq<Device>)
    ensures Sorting(groups, groups, 0, lists, [], all)
  {
  }

  lemma SortingFound(groups: seq<Group>, was: seq<Group>, n: nat, lists: seq<seq<Device>>, listed: seq<Device>,
                     all: seq<Device>, k: nat, sorted: Group, x: Device, i: nat)
    requires Sorting(groups, was, n, lists, listed, all) && n <= k < |groups| && x in groups[k] && listed + [x] <= all
    requires i < |lists| && multiset(sorted) == multiset(groups[k]) && Picked(lists[i], multiset(sorted)) <= sorted
    ensures Sorting(Promoted(groups, n, k, sorted), was, n + 1, lists, listed + [x], all)
  {
    hide DistinctRanks, Ordered, Picked;
    PromotedKeepsGroups(groups, n, k, sorted);
    PromotedKeepsRanks(groups, n, k, sorted, all);
    if DistinctRanks(was, all) {
      PromotedIsOrdered(groups, n, k, sorted, listed, x, all);
    }
    assert Arranged(sorted, lists);
  }

  lemma SortingMissing(groups: seq<Group>, was: seq<Group>, n: nat, lists: seq<seq<Device>>, listed: seq<Device>,
                       all: seq<Device>, x: Device)
    requires Sorting(groups, was, n, lists, listed, all) && listed + [x] <= all
    requires forall p :: n <= p < |groups| ==> x !in groups[p]
    ensures Sorting(groups, was, n, lists, listed + [x], all)
  {
    hide DistinctRanks, Ordered, Arranged;
    if DistinctRanks(was, all) {
      UnmatchedIsOrdered(groups, n, listed, x);
    }
  }

  lemma SortingEnds(groups: seq<Group>, was: seq<Group>, n: nat, lists: seq<seq<Device>>, all: seq<Device>)
    requires Sorting(groups, was, n, lists, all, all)
    ensures Ordered(groups, n, all) <==> DistinctRanks(was, all)
  {
    if Ordered(groups, n, all) {
      assert DistinctRanks(groups, all);
    }
  }

  /** Every driver's devices, in the order in which they are looked for. */
  function Flat(lists: seq<seq<Device>>): seq<Device> {
    if lists == [] then [] else Flat(lists[..|lists| - 1]) + lists[|lists| - 1]
  }

  /** The loop over the devices of one driver. */
  method PromoteAll(groups: array<Group>, from: nat, lists: seq<seq<Device>>, i: nat, ghost was: seq<Group>)
    returns (n: nat)
    requires i < |lists| && from <= groups.Length
    requires Sorting(groups[..], was, from, lists, Flat(lists[..i]), Flat(lists))
    modifies groups
    ensures n <= groups.Length && Sorting(groups[..], was, n, lists, Flat(lists[..i + 1]), Flat(lists))
  {
    hide Sorting, Flat, Promoted, Picked;
    n := from;
    var list := lists[i];
    var dev := 0;
    assert Flat(lists[..i]) + list[..0] == Flat(lists[..i]);
    while dev < |list|
      invariant dev <= |list| && n <= groups.Length
      invariant Sorting(groups[..], was, n, lists, Flat(lists[..i]) + list[..dev], Flat(lists))
    {
      ghost var before, listed := groups[..], Flat(lists[..i]) + list[..dev];
      var x := list[dev];
      assert Flat(lists[..i]) + list[..dev + 1] == listed + [x];
      FlatPrefix(lists, i, dev + 1);
      var k, sorted := Promote(groups, n, x, list);
      if k < groups.Length {
        SortingFound(before, was, n, lists, listed, Flat(lists), k, sorted, x, i);
        n := n + 1;
      } else {
        SortingMissing(before, was, n, lists, listed, Flat(lists), x);
      }
      dev := dev + 1;
    }
    assert list[..dev] == list;
    FlatStep(lists, i);
  }

  lemma FlatStep(lists: seq<seq<Device>>, i: nat)
    requires i < |lists|
    ensures Flat(lists[..i + 1]) == Flat(lists[..i]) + lists[i]
  {
    assert lists[..i + 1][..i] == lists[..i];
  }

  lemma {:induction false} FlatGrows(lists: seq<seq<Device>>, i: nat)
    requires i <= |lists|
    ensures Flat(lists[..i]) <= Flat(lists)
    decreases |lists| - i
  {
    if i < |lists| {
      FlatStep(lists, i);
      FlatGrows(lists, i + 1);
    } else {
      assert lists[..i] == lists;
    }
  }

  lemma FlatPrefix(lists: seq<seq<Device>>, i: nat, dev: nat)
    requires i < |lists| && dev <= |lists[i]|
    ensures Flat(lists[..i]) + lists[i][..dev] <= Flat(lists)
  {
    FlatStep(lists, i);
    FlatGrows(lists, i + 1);
    hide Flat;
    var front, whole := Flat(lists[..i]), Flat(lists[..i]) + lists[i];
    assert front + lists[i][..dev] == whole[..|front| + dev];
  }

  /**
    `windows_sort_physical_device_groups`: the groups are kept, each with its devices.  Those with listed
    devices come first, in the order of their earliest, exactly when no two groups have the same earliest.
  */
  method SortGroups(groups: array<Group>, lists: seq<seq<Device>>) returns (ok: bool, ghost n: nat)
    modifies groups
    ensures ok == (groups.Length > 0)
    ensures multiset(Bags(groups[..])) == multiset(Bags(old(groups[..])))
    ensures n <= groups.Length && forall p :: 0 <= p < n ==> Arranged(groups[p], lists)
    ensures Ordered(groups[..], n, Flat(lists)) <==> DistinctRanks(old(groups[..]), Flat(lists))
  {
    hide DistinctRanks, Ordered, Arranged;
    if groups.Length == 0 {
      NoGroups(lists);
      return false, 0;
    }
    var next: nat, i: nat := 0, 0;
    ghost var was := groups[..];
    SortingStarts(was, lists, Flat(lists));
    assert Flat(lists[..0]) == [];
    while i < |lists|
      invariant i <= |lists| && next <= groups.Length
      invariant Sorting(groups[..], was, next, lists, Flat(lists[..i]), Flat(lists))
    {
      next := PromoteAll(groups, next, lists, i, was);
      i := i + 1;
    }
    assert lists[..i] == lists;
    SortingEnds(groups[..], was, next, lists, Flat(lists));
    return true, next;
  }

  lemma NoGroups(lists: seq<seq<Device>>)
    ensures Ordered([], 0, Flat(lists)) && DistinctRanks([], Flat(lists))
  {
  }

  /** The run on two groups with the same device: afterwards they are not ordered, wherever the line is drawn. */
  method SharedDeviceBreaksOrder() returns (ok: bool, groups: array<Group>, ghost n: nat)
    ensures ok && groups.Length == 2 && n <= 2 && !Ordered(groups[..], n, [1])
  {
    groups := new Group[2](_ => [1]);
    assert groups[0] == [1] && groups[1] == [1];
    RankIs(groups[0], [1], 0);
    assert groups[..] == [[1], [1]];
    assert Flat([[1]]) == [1] by {
      assert [[1]][..0] == [];
    }
    ok, n := SortGroups(groups, [[1]]);
  }
}
