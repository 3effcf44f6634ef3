/**
  The in-place sorts of `loader_windows.c`: drivers of the same adapter, the devices inside a group, and
  the groups themselves.
*/
module WindowsSort {

  /** What a device reports about the API its driver is built on; `Plain` also when it cannot be asked. */
  datatype Api = Plain | D3D12 | Other

  datatype Luid = Luid(high: int, low: int)

  /** `loader_icd_physical_devices`, with what its devices report. */
  datatype Entry = Entry(luid: Luid, driver: nat, reports: seq<Api>)

  /** The first report that says anything says the driver is layered on Direct3D 12. */
  ghost predicate Layered(e: Entry) {
    exists k :: 0 <= k < |e.reports| && e.reports[k] == D3D12 && forall j :: 0 <= j < k ==> e.reports[j] == Plain
  }

  method IsLayered(e: Entry) returns (layered: bool)
    ensures layered == Layered(e)
  {
    var underlying := Plain;
    var k := 0;
    while k < |e.reports|
      invariant k <= |e.reports| && underlying == Plain && forall j :: 0 <= j < k ==> e.reports[j] == Plain
    {
      if e.reports[k] != Plain {
        underlying := e.reports[k];
        break;
      }
      k := k + 1;
    }
    layered := underlying == D3D12;
  }

  /** Behind a layered driver come only layered ones of the same adapter. */
  ghost predicate LayeredLast(s: seq<Entry>, i: nat) {
    forall p, q :: 0 <= p < i && p < q < |s| && Layered(s[p]) && s[p].luid == s[q].luid ==> Layered(s[q])
  }

  ghost predicate LayeredBetween(s: seq<Entry>, i: nat, j: nat)
    requires i < |s|
  {
    Layered(s[i]) ==> forall q :: i < q < j && q < |s| && s[q].luid == s[i].luid ==> Layered(s[q])
  }

  function Swapped<T>(s: seq<T>, i: nat, j: nat): (r: seq<T>)
    requires i < |s| && j < |s|
    ensures |r| == |s| && r[i] == s[j] && r[j] == s[i]
    ensures forall k :: 0 <= k < |s| && k != i && k != j ==> r[k] == s[k]
  {
    s[i := s[j]][j := s[i]]
  }

  lemma SwappedIsPermutation<T>(s: seq<T>, i: nat, j: nat)
    requires i < |s| && j < |s|
    ensures multiset(Swapped(s, i, j)) == multiset(s)
  {
  }

  lemma SwapKeepsOrder(s: seq<Entry>, i: nat, j: nat)
    requires i < j < |s| && s[i].luid == s[j].luid && LayeredLast(s, i)
    ensures LayeredLast(Swapped(s, i, j), i)
  {
    hide Layered;
    var t := Swapped(s, i, j);
    forall p, q | 0 <= p < i && p < q < |t| && Layered(t[p]) && t[p].luid == t[q].luid ensures Layered(t[q]) {
      var q' := if q == i then j else if q == j then i else q;
      assert t[q] == s[q'];
    }
  }

  lemma SwapExtends(s: seq<Entry>, i: nat, j: nat)
    requires i < j < |s| && s[i].luid == s[j].luid && Layered(s[i]) && LayeredBetween(s, i, j)
    ensures LayeredBetween(Swapped(s, i, j), i, j + 1)
  {
    hide Layered;
  }

  /**
    `sort_physical_devices_with_same_luid`: the entries are permuted, no adapter moves, and for each
    adapter native drivers come before layered ones.
  */
  method SortWithSameLuid(a: array<Entry>)
    modifies a
    ensures multiset(a[..]) == multiset(old(a[..]))
    ensures forall i :: 0 <= i < a.Length ==> a[i].luid == old(a[i]).luid
    ensures LayeredLast(a[..], a.Length)
  {
    hide Layered, LayeredLast, LayeredBetween;
    NothingYet(a[..]);
    var i := 0;
    while a.Length > 1 && i < a.Length - 1
      invariant i <= a.Length && (a.Length > 1 ==> i < a.Length)
      invariant multiset(a[..]) == multiset(old(a[..]))
      invariant forall k :: 0 <= k < a.Length ==> a[k].luid == old(a[k]).luid
      invariant LayeredLast(a[..], i)
    {
      Place(a, i);
      OneMore(a[..], i);
      i := i + 1;
    }
    LastIsPlaced(a[..], i);
  }

  /** The inner loop: afterwards `a[i]` is layered only if every later entry of its adapter is. */
  method Place(a: array<Entry>, i: nat)
    requires i < a.Length && LayeredLast(a[..], i)
    modifies a
    ensures multiset(a[..]) == multiset(old(a[..]))
    ensures forall k :: 0 <= k < a.Length ==> a[k].luid == old(a[k]).luid
    ensures LayeredLast(a[..], i) && LayeredBetween(a[..], i, a.Length)
  {
    hide Layered, LayeredLast;
    var j := i + 1;
    while j < a.Length
      invariant i < j <= a.Length
      invariant multiset(a[..]) == multiset(old(a[..]))
      invariant forall k :: 0 <= k < a.Length ==> a[k].luid == old(a[k]).luid
      invariant LayeredLast(a[..], i) && LayeredBetween(a[..], i, j)
    {
      if a[i].luid == a[j].luid {
        var layered := IsLayered(a[i]);
        if layered {
          ghost var s := a[..];
          SwapKeepsOrder(s, i, j);
          SwapExtends(s, i, j);
          SwappedIsPermutation(s, i, j);
          a[i], a[j] := a[j], a[i];
          assert a[..] == Swapped(s, i, j);
        }
      }
      j := j + 1;
    }
  }

  lemma NothingYet(s: seq<Entry>)
    ensures LayeredLast(s, 0)
  {
  }

  lemma OneMore(s: seq<Entry>, i: nat)
    requires i < |s| && LayeredLast(s, i) && LayeredBetween(s, i, |s|)
    ensures LayeredLast(s, i + 1)
  {
    hide Layered;
  }

  lemma LastIsPlaced(s: seq<Entry>, i: nat)
    requires i <= |s| <= i + 1 && LayeredLast(s, i)
    ensures LayeredLast(s, |s|)
  {
    hide Layered;
  }
}
