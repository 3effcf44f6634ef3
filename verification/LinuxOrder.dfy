/** The order of physical devices and device groups in `loader_linux.c`. */
module LinuxOrder {

  import opened Common

  datatype DeviceType = Discrete | Integrated | Virtual | Other | Cpu | Unknown

  datatype Bus = Bus(domain: nat, bus: nat, device: nat, function_: nat)

  /** `LinuxSortedDeviceInfo`; `pci` is present when the device has bus information. */
  datatype Device = Device(
    handle: nat, isDefault: bool, type_: DeviceType, pci: Option<Bus>, vendorId: bv32, deviceId: bv32)

  function Priority(type_: DeviceType): int {
    match type_
    case Discrete => 10
    case Integrated => 5
    case Virtual => 3
    case Other => 2
    case Cpu => 1
    case Unknown => 0
  }

  function CompareTypes(a: DeviceType, b: DeviceType): int {
    if Priority(a) > Priority(b) then -1 else if Priority(b) > Priority(a) then 1 else 0
  }

  function Exclusive(a: bv32, b: bv32): bv32 {
    a ^ b
  }

  function Mixed(d: Device): int {
    Exclusive(d.deviceId, d.vendorId) as int
  }

  function CompareBuses(a: Bus, b: Bus): int {
    if a.domain < b.domain then -1 else if a.domain > b.domain then 1
    else if a.bus < b.bus then -1 else if a.bus > b.bus then 1
    else if a.device < b.device then -1 else if a.device > b.device then 1
    else if a.function_ < b.function_ then -1 else if a.function_ > b.function_ then 1
    else 0
  }

  function CompareMixed(a: Device, b: Device): int {
    if Mixed(a) < Mixed(b) then -1 else if Mixed(b) < Mixed(a) then 1 else 0
  }

  /** `compare_devices`. */
  function Compare(left: Device, right: Device): int {
    if left.isDefault then -1
    else if right.isDefault then 1
    else if CompareTypes(left.type_, right.type_) != 0 then CompareTypes(left.type_, right.type_)
    else if left.pci.Some? && right.pci.None? then -1
    else if left.pci.None? && right.pci.Some? then 1
    else if left.pci.Some? && CompareBuses(left.pci.value, right.pci.value) != 0 then
      CompareBuses(left.pci.value, right.pci.value)
    else CompareMixed(left, right)
  }

  /** `compare_device_groups`: by the first device. */
  function CompareGroups(left: seq<Device>, right: seq<Device>): int
    requires left != [] && right != []
  {
    Compare(left[0], right[0])
  }

  /** What a device is ordered by, the most important first and the least number winning. */
  function Rank(d: Device): (r: seq<int>)
    ensures |r| == 8
  {
    var bus := if d.pci.Some? then d.pci.value else Bus(0, 0, 0, 0);
    [if d.isDefault then 0 else 1, -Priority(d.type_), if d.pci.Some? then 0 else 1,
     bus.domain, bus.bus, bus.device, bus.function_, Mixed(d)]
  }

  function Lex(a: seq<int>, b: seq<int>): (c: int)
    requires |a| == |b|
    ensures c == -1 || c == 0 || c == 1
    ensures c == 0 <==> a == b
  {
    if a == [] then 0
    else if a[0] < b[0] then -1
    else if a[0] > b[0] then 1
    else
      assert a == [a[0]] + a[1..] && b == [b[0]] + b[1..];
      Lex(a[1..], b[1..])
  }

  lemma {:induction false} LexAntisymmetric(a: seq<int>, b: seq<int>)
    requires |a| == |b|
    ensures Lex(a, b) == -Lex(b, a)
  {
    if a != [] {
      LexAntisymmetric(a[1..], b[1..]);
    }
  }

  lemma {:induction false} LexTransitive(a: seq<int>, b: seq<int>, c: seq<int>)
    requires |a| == |b| == |c| && Lex(a, b) <= 0 && Lex(b, c) <= 0
    ensures Lex(a, c) <= 0
  {
    if a != [] && a[0] == b[0] && b[0] == c[0] {
      LexTransitive(a[1..], b[1..], c[1..]);
    }
  }

  lemma LexStep(x: int, a: seq<int>, y: int, b: seq<int>)
    requires |a| == |b|
    ensures Lex([x] + a, [y] + b) == if x < y then -1 else if x > y then 1 else Lex(a, b)
  {
    assert ([x] + a)[1..] == a && ([y] + b)[1..] == b;
  }

  function BusRank(d: Device): (r: seq<int>)
    ensures |r| == 5
  {
    var bus := if d.pci.Some? then d.pci.value else Bus(0, 0, 0, 0);
    [bus.domain, bus.bus, bus.device, bus.function_, Mixed(d)]
  }

  lemma BusAndMixed(a: Device, b: Device)
    requires a.pci.Some? == b.pci.Some?
    ensures Lex(BusRank(a), BusRank(b)) ==
      if a.pci.Some? && CompareBuses(a.pci.value, b.pci.value) != 0 then CompareBuses(a.pci.value, b.pci.value)
      else CompareMixed(a, b)
  {
    hide Mixed, Lex;
    var x, y := BusRank(a), BusRank(b);
    assert x[4..] == [Mixed(a)] + [] && y[4..] == [Mixed(b)] + [];
    LexStep(Mixed(a), [], Mixed(b), []);
    LexAntisymmetric([], []);
    Tail(x, y, 3);
    Tail(x, y, 2);
    Tail(x, y, 1);
    Tail(x, y, 0);
    assert x[0..] == x && y[0..] == y;
  }

  lemma Tail(x: seq<int>, y: seq<int>, i: nat)
    requires |x| == |y| && i < |x|
    ensures Lex(x[i..], y[i..]) == if x[i] < y[i] then -1 else if x[i] > y[i] then 1 else Lex(x[i + 1..], y[i + 1..])
  {
    assert x[i..] == [x[i]] + x[i + 1..] && y[i..] == [y[i]] + y[i + 1..];
    LexStep(x[i], x[i + 1..], y[i], y[i + 1..]);
  }

  /** Unless both are default devices, the comparison is the lexicographic one of the ranks. */
  lemma CompareIsLex(a: Device, b: Device)
    requires !(a.isDefault && b.isDefault)
    ensures Compare(a, b) == Lex(Rank(a), Rank(b))
  {
    hide Mixed, Lex, CompareBuses, CompareMixed, BusRank;
    var x, y := Rank(a), Rank(b);
    Tail(x, y, 0);
    Tail(x, y, 1);
    Tail(x, y, 2);
    assert x[0..] == x && y[0..] == y;
    RankTail(a);
    RankTail(b);
    if a.pci.Some? == b.pci.Some? {
      BusAndMixed(a, b);
    }
  }

  lemma RankTail(d: Device)
    ensures Rank(d)[3..] == BusRank(d)
  {
  }

  const BestFirst := [Discrete, Integrated, Virtual, Other, Cpu, Unknown]

  /** Among devices that are not default, the type decides before anything else. */
  lemma TypeDecides(a: Device, b: Device, i: nat, j: nat)
    requires !a.isDefault && !b.isDefault && i < j < |BestFirst|
    requires a.type_ == BestFirst[i] && b.type_ == BestFirst[j]
    ensures Compare(a, b) == -1 && Compare(b, a) == 1
  {
  }

  /** With the same type and no bus to tell them apart, the mixed numbers decide. */
  lemma NumbersDecideLast(a: Device, b: Device)
    requires !a.isDefault && !b.isDefault && a.type_ == b.type_ && a.pci == b.pci
    ensures Compare(a, b) == if Mixed(a) < Mixed(b) then -1 else if Mixed(a) > Mixed(b) then 1 else 0
  {
    hide Mixed;
  }

  /** Equal numbers cancel out, zero leaves the other as it is, and the order of the two does not matter. */
  lemma ExclusiveCancels(a: bv32, b: bv32)
    ensures Exclusive(a, a) == 0 && Exclusive(a, 0) == a && Exclusive(a, b) == Exclusive(b, a)
    ensures Exclusive(Exclusive(a, b), b) == a
  {
  }

  /** The comparison contradicts itself on exactly the pairs of default devices. */
  lemma AntisymmetricIff(a: Device, b: Device)
    ensures Compare(a, b) == -Compare(b, a) <==> !(a.isDefault && b.isDefault)
  {
    if !(a.isDefault && b.isDefault) {
      CompareIsLex(a, b);
      CompareIsLex(b, a);
      LexAntisymmetric(Rank(a), Rank(b));
    }
  }

  ghost predicate OneDefault(s: seq<Device>) {
    forall i, j :: 0 <= i < j < |s| ==> !(s[i].isDefault && s[j].isDefault)
  }

  /** What a sort by the comparison leaves: no later entry goes before an earlier one. */
  ghost predicate Sorted(s: seq<Device>) {
    forall i, j :: 0 <= i < j < |s| ==> Compare(s[i], s[j]) <= 0
  }

  /** It is enough that neighbours are in order. */
  lemma {:induction false} NeighboursSuffice(s: seq<Device>)
    requires OneDefault(s) && forall i :: 0 <= i < |s| - 1 ==> Compare(s[i], s[i + 1]) <= 0
    ensures Sorted(s)
  {
    hide Compare, Rank;
    forall i, j | 0 <= i < j < |s| ensures Compare(s[i], s[j]) <= 0 {
      Chain(s, i, j);
    }
  }

  lemma {:induction false} Chain(s: seq<Device>, i: nat, j: nat)
    requires i < j < |s| && OneDefault(s) && forall k :: 0 <= k < |s| - 1 ==> Compare(s[k], s[k + 1]) <= 0
    ensures Compare(s[i], s[j]) <= 0
  {
    hide Compare, Rank;
    if i < j - 1 {
      Chain(s, i, j - 1);
      CompareIsLex(s[i], s[j - 1]);
      CompareIsLex(s[j - 1], s[j]);
      CompareIsLex(s[i], s[j]);
      assert Compare(s[j - 1], s[j - 1 + 1]) <= 0;
      LexTransitive(Rank(s[i]), Rank(s[j - 1]), Rank(s[j]));
    }
  }

  ghost function Ranks(s: seq<Device>): (r: seq<seq<int>>)
    ensures |r| == |s| && forall i :: 0 <= i < |s| ==> r[i] == Rank(s[i])
  {
    seq(|s|, i requires 0 <= i < |s| => Rank(s[i]))
  }

  ghost predicate Ascending(r: seq<seq<int>>) {
    && (forall i :: 0 <= i < |r| ==> |r[i]| == 8)
    && (forall i, j :: 0 <= i < j < |r| ==> Lex(r[i], r[j]) <= 0)
  }

  lemma TakenOut<T>(t: seq<T>, i: nat)
    requires i < |t|
    ensures multiset(t) == multiset{t[i]} + multiset(t[..i] + t[i + 1..])
  {
    assert t == t[..i] + [t[i]] + t[i + 1..];
  }

  lemma HeadTakenOut<T>(t: seq<T>)
    requires t != []
    ensures multiset(t) == multiset{t[0]} + multiset(t[1..])
  {
    assert t == [t[0]] + t[1..];
  }

  lemma SameLength<T>(a: seq<T>, b: seq<T>)
    requires multiset(a) == multiset(b)
    ensures |a| == |b|
  {
    assert |multiset(a)| == |a| && |multiset(b)| == |b|;
  }

  lemma LeastIsFirst(a: seq<seq<int>>, b: seq<seq<int>>)
    requires multiset(a) == multiset(b) && Ascending(a) && Ascending(b) && a != [] && b != []
    ensures Lex(a[0], b[0]) <= 0
  {
    assert b[0] in multiset(a);
    var j :| 0 <= j < |a| && a[j] == b[0];
    if j > 0 {
      assert Lex(a[0], a[j]) <= 0;
    }
  }

  lemma SameHead(a: seq<seq<int>>, b: seq<seq<int>>)
    requires multiset(a) == multiset(b) && Ascending(a) && Ascending(b) && a != [] && b != []
    ensures a[0] == b[0]
  {
    LeastIsFirst(a, b);
    LeastIsFirst(b, a);
    LexAntisymmetric(a[0], b[0]);
  }

  lemma AscendingTail(a: seq<seq<int>>)
    requires Ascending(a) && a != []
    ensures Ascending(a[1..])
  {
    hide Lex;
  }

  lemma TailsAgree<T>(a: seq<T>, b: seq<T>)
    requires multiset(a) == multiset(b) && a != [] && b != [] && a[0] == b[0]
    ensures multiset(a[1..]) == multiset(b[1..])
  {
    assert b[..0] + b[1..] == b[1..];
    RestsAgree(a, b, 0, b[1..]);
  }

  lemma SameParts<T>(a: seq<T>, b: seq<T>)
    requires a != [] && b != [] && a[0] == b[0] && a[1..] == b[1..]
    ensures a == b
  {
    assert a == [a[0]] + a[1..] && b == [b[0]] + b[1..];
  }

  /** Two ascending arrangements of the same ranks are the same. */
  lemma {:induction false} AscendingIsUnique(a: seq<seq<int>>, b: seq<seq<int>>)
    requires multiset(a) == multiset(b) && Ascending(a) && Ascending(b)
    ensures a == b
  {
    hide Ascending, Lex;
    SameLength(a, b);
    if a != [] {
      SameHead(a, b);
      AscendingTail(a);
      AscendingTail(b);
      TailsAgree(a, b);
      AscendingIsUnique(a[1..], b[1..]);
      SameParts(a, b);
    }
  }

  lemma SortedIsAscending(s: seq<Device>)
    requires Sorted(s) && OneDefault(s)
    ensures Ascending(Ranks(s))
  {
    hide Compare, Rank;
    forall i, j | 0 <= i < j < |s| ensures Lex(Ranks(s)[i], Ranks(s)[j]) <= 0 {
      CompareIsLex(s[i], s[j]);
    }
  }

  ghost function RankBag(s: seq<Device>): multiset<seq<int>> {
    multiset(Ranks(s))
  }

  lemma {:induction false} RanksOfPermutation(s: seq<Device>, t: seq<Device>)
    requires multiset(s) == multiset(t)
    ensures RankBag(s) == RankBag(t)
  {
    hide RankBag, Rank;
    SameLength(s, t);
    if s != [] {
      assert s[0] in multiset(t);
      var i :| 0 <= i < |t| && t[i] == s[0];
      var rest := t[..i] + t[i + 1..];
      RestsAgree(s, t, i, rest);
      RanksOfPermutation(s[1..], rest);
      RanksSplit(t, i, rest);
      assert s[..0] + s[1..] == s[1..];
      RanksSplit(s, 0, s[1..]);
    } else {
      assert t == s;
    }
  }

  lemma RestsAgree<T>(s: seq<T>, t: seq<T>, i: nat, rest: seq<T>)
    requires multiset(s) == multiset(t) && i < |t| && s != [] && t[i] == s[0] && rest == t[..i] + t[i + 1..]
    ensures multiset(s[1..]) == multiset(rest)
  {
    HeadTakenOut(s);
    TakenOut(t, i);
    assert multiset(s[1..]) == multiset(s) - multiset{s[0]};
  }

  lemma RanksSplit(t: seq<Device>, i: nat, rest: seq<Device>)
    requires i < |t| && rest == t[..i] + t[i + 1..]
    ensures RankBag(t) == multiset{Rank(t[i])} + RankBag(rest)
  {
    hide Rank;
    assert Ranks(t) == Ranks(t[..i]) + [Rank(t[i])] + Ranks(t[i + 1..]);
    assert Ranks(t[..i] + t[i + 1..]) == Ranks(t[..i]) + Ranks(t[i + 1..]);
  }

  /** However the devices were sorted, the outcome has the same ranks, and the default device leads. */
  lemma SortedOrderIsUnique(s: seq<Device>, t: seq<Device>)
    requires multiset(s) == multiset(t) && Sorted(s) && Sorted(t) && OneDefault(s) && OneDefault(t)
    ensures Ranks(s) == Ranks(t)
    ensures forall i :: 0 <= i < |s| && s[i].isDefault ==> i == 0
  {
    SortedIsAscending(s);
    SortedIsAscending(t);
    RanksOfPermutation(s, t);
    AscendingIsUnique(Ranks(s), Ranks(t));
    forall i | 0 < i < |s| ensures !s[i].isDefault {
      assert Compare(s[0], s[i]) <= 0;
    }
  }

  ghost predicate Selected(d: Device, vendor: bv32, device: bv32) {
    d.vendorId == vendor && d.deviceId == device
  }

  /** `linux_env_var_default_device`: the first device of the selected kind becomes the default. */
  method MarkDefault(a: array<Device>, selection: Option<(bv32, bv32)>) returns (ghost k: nat)
    modifies a
    ensures k <= a.Length
    ensures selection.None? ==> k == a.Length
    ensures selection.Some? ==> forall i :: 0 <= i < k ==> !Selected(old(a[i]), selection.value.0, selection.value.1)
    ensures selection.Some? && k < a.Length ==> Selected(old(a[..])[k], selection.value.0, selection.value.1)
    ensures a[..] == if k < a.Length then old(a[..])[k := old(a[..])[k].(isDefault := true)] else old(a[..])
    ensures (forall i :: 0 <= i < a.Length ==> !old(a[i]).isDefault) ==> OneDefault(a[..])
  {
    if selection.None? {
      return a.Length;
    }
    var i := 0;
    while i < a.Length
      invariant i <= a.Length && a[..] == old(a[..])
      invariant forall j :: 0 <= j < i ==> !Selected(a[j], selection.value.0, selection.value.1)
    {
      if a[i].vendorId == selection.value.0 && a[i].deviceId == selection.value.1 {
        a[i] := a[i].(isDefault := true);
        return i;
      }
      i := i + 1;
    }
    return i;
  }

  /** Groups are marked one at a time, so two of them can lead with a default device: then this contradicts itself. */
  lemma GroupsAntisymmetricIff(left: seq<Device>, right: seq<Device>)
    requires left != [] && right != []
    ensures CompareGroups(left, right) == -CompareGroups(right, left) <==> !(left[0].isDefault && right[0].isDefault)
  {
    AntisymmetricIff(left[0], right[0]);
  }
}
