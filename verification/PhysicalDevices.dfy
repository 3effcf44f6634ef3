/**
  The table of trampoline wrappers that `vkEnumeratePhysicalDevices` hands to the application.
  `live` is the set of wrappers that are allocated and not yet freed; `Free` demands membership,
  so a double free would not verify.
*/
module PhysicalDevices {

  type Handle = nat

  /** `loader_physical_device_tramp`. */
  class Wrapper {
    const handle: Handle

    constructor (handle: Handle)
      ensures this.handle == handle
    {
      this.handle := handle;
    }
  }

  /** An entry of the application's array: a driver handle going in, a wrapper coming out. */
  datatype Entry = Raw(handle: Handle) | Wrapped(wrapper: Wrapper)

  // ---------------------------------------------------------------- tables as sequences

  ghost predicate Distinct(hs: seq<Handle>) {
    forall i, j :: 0 <= i < j < |hs| ==> hs[i] != hs[j]
  }

  function HandlesOf(ws: seq<Wrapper>): (hs: seq<Handle>)
    ensures |hs| == |ws| && forall i :: 0 <= i < |ws| ==> hs[i] == ws[i].handle
  {
    seq(|ws|, i requires 0 <= i < |ws| => ws[i].handle)
  }

  ghost function Elements(ws: seq<Wrapper>): set<Wrapper> {
    set i | 0 <= i < |ws| :: ws[i]
  }

  lemma ElementsSnoc(ws: seq<Wrapper>, w: Wrapper)
    ensures Elements(ws + [w]) == Elements(ws) + {w}
  {
    var more := ws + [w];
    forall x
      ensures x in Elements(more) <==> x in Elements(ws) + {w}
    {
      if x in Elements(ws) {
        var i :| 0 <= i < |ws| && ws[i] == x;
        assert more[i] == x;
      }
      if x == w {
        assert more[|ws|] == x;
      }
    }
  }

  lemma ElementsJoin(a: seq<Wrapper>, b: seq<Wrapper>)
    ensures Elements(a + b) == Elements(a) + Elements(b)
  {
    var more := a + b;
    forall x
      ensures x in Elements(more) <==> x in Elements(a) + Elements(b)
    {
      if x in Elements(a) {
        var i :| 0 <= i < |a| && a[i] == x;
        assert more[i] == x;
      }
      if x in Elements(b) {
        var i :| 0 <= i < |b| && b[i] == x;
        assert more[|a| + i] == x;
      }
    }
  }

  /** The old wrappers whose device was not enumerated this time, in order. */
  function Unmatched(ws: seq<Wrapper>, hs: seq<Handle>): seq<Wrapper> {
    if ws == [] then []
    else Unmatched(ws[..|ws| - 1], hs) + (if ws[|ws| - 1].handle in hs then [] else [ws[|ws| - 1]])
  }

  lemma {:induction false} UnmatchedMembers(ws: seq<Wrapper>, hs: seq<Handle>, w: Wrapper)
    ensures w in Unmatched(ws, hs) <==> w in ws && w.handle !in hs
  {
    if ws != [] {
      UnmatchedMembers(ws[..|ws| - 1], hs, w);
      assert ws == ws[..|ws| - 1] + [ws[|ws| - 1]];
    }
  }

  lemma {:induction false} UnmatchedDistinct(ws: seq<Wrapper>, hs: seq<Handle>)
    requires Distinct(HandlesOf(ws))
    ensures Distinct(HandlesOf(Unmatched(ws, hs)))
  {
    if ws != [] {
      var front, last := ws[..|ws| - 1], ws[|ws| - 1];
      UnmatchedDistinct(front, hs);
      forall i | 0 <= i < |Unmatched(front, hs)|
        ensures Unmatched(front, hs)[i].handle != last.handle
      {
        UnmatchedMembers(front, hs, Unmatched(front, hs)[i]);
      }
    }
  }

  /** Each wrapper belongs to the handle at its place, and is the old one where there is an old one. */
  ghost predicate Reuses(old_: seq<Wrapper>, hs: seq<Handle>, news: seq<Wrapper>) {
    && |news| <= |hs|
    && forall i :: 0 <= i < |news| ==>
         news[i].handle == hs[i] && forall w :: w in old_ && w.handle == hs[i] ==> news[i] == w
  }

  /** The table after a full update: the enumerated devices, then old ones while there is room. */
  ghost predicate Updated(old_: seq<Wrapper>, hs: seq<Handle>, room: nat, table: seq<Wrapper>)
    requires |hs| <= room
  {
    var spare := Unmatched(old_, hs);
    && |table| >= |hs|
    && Reuses(old_, hs, table[..|hs|])
    && table[|hs|..] == if |spare| <= room - |hs| then spare else spare[..room - |hs|]
  }

  // ---------------------------------------------------------------- matching

  /** The first loop: where each old wrapper's device is in the new enumeration, or -1. */
  method MatchOld(ws: seq<Wrapper>, hs: seq<Handle>) returns (newIndex: seq<int>, found: nat)
    requires Distinct(hs) && Distinct(HandlesOf(ws))
    ensures |newIndex| == |ws| && forall c :: 0 <= c < |ws| ==> IsIndex(hs, ws[c].handle, newIndex[c])
    ensures found <= |hs|
    ensures found == |hs| <==> forall h :: h in hs ==> h in HandlesOf(ws)
  {
    newIndex, found := [], 0;
    ghost var hit: set<int> := {};
    for c := 0 to |ws|
      invariant |newIndex| == c && forall k :: 0 <= k < c ==> IsIndex(hs, ws[k].handle, newIndex[k])
      invariant |hit| == found
      invariant forall i :: i in hit ==> 0 <= i < |hs| && exists k :: 0 <= k < c && ws[k].handle == hs[i]
      invariant forall i, k :: 0 <= i < |hs| && 0 <= k < c && ws[k].handle == hs[i] ==> i in hit
    {
      var i := IndexOf(hs, ws[c].handle);
      newIndex := newIndex + [i];
      if i >= 0 {
        assert i !in hit by {
          assert forall k :: 0 <= k < c ==> HandlesOf(ws)[k] != HandlesOf(ws)[c];
        }
        hit := hit + {i};
        found := found + 1;
      }
    }
    IndicesBound(hit, |hs|);
    if found == |hs| {
      AllIndices(hit, |hs|);
    }
    if forall h :: h in hs ==> h in HandlesOf(ws) {
      forall i | 0 <= i < |hs| ensures i in hit {
        assert hs[i] in HandlesOf(ws);
      }
      AllAreHit(hit, |hs|);
    }
  }

  predicate IsIndex(hs: seq<Handle>, h: Handle, i: int) {
    if i == -1 then h !in hs else 0 <= i < |hs| && hs[i] == h
  }

  method IndexOf(hs: seq<Handle>, h: Handle) returns (i: int)
    ensures IsIndex(hs, h, i)
  {
    for k := 0 to |hs|
      invariant forall j :: 0 <= j < k ==> hs[j] != h
    {
      if hs[k] == h {
        return k;
      }
    }
    return -1;
  }

  ghost predicate Indices(s: set<int>, n: int) {
    forall i :: i in s ==> 0 <= i < n
  }

  lemma {:induction false} IndicesBound(s: set<int>, n: nat)
    requires Indices(s, n)
    ensures |s| <= n
    decreases n
  {
    if n == 0 {
      assert forall i :: i !in s;
      assert s == {};
    } else {
      IndicesBound(s - {n - 1}, n - 1);
    }
  }

  lemma {:induction false} AllAreHit(s: set<int>, n: nat)
    requires Indices(s, n) && forall i :: 0 <= i < n ==> i in s
    ensures |s| == n
    decreases n
  {
    if n == 0 {
      assert forall i :: i !in s;
      assert s == {};
    } else {
      AllAreHit(s - {n - 1}, n - 1);
    }
  }

  ghost function SetOf(hs: seq<Handle>): (s: set<Handle>)
    ensures forall h :: h in s <==> h in hs
  {
    set h | h in hs
  }

  lemma {:induction false} DistinctSize(hs: seq<Handle>)
    requires Distinct(hs)
    ensures |SetOf(hs)| == |hs|
  {
    if hs == [] {
      assert SetOf(hs) == {};
    } else {
      var front, last := hs[..|hs| - 1], hs[|hs| - 1];
      DistinctSize(front);
      assert hs == front + [last];
      assert last !in front;
      assert SetOf(hs) == SetOf(front) + {last};
    }
  }

  lemma SubsetIsAll<T>(a: set<T>, b: set<T>)
    requires a <= b && |a| == |b|
    ensures a == b
  {
    assert b == a + (b - a);
  }

  /** When the whole table is enumerated again, and as many devices as it has, nothing is new. */
  lemma AllKnown(ws: seq<Wrapper>, hs: seq<Handle>)
    requires Distinct(hs) && Distinct(HandlesOf(ws)) && |ws| == |hs| && forall w <- ws :: w.handle in hs
    ensures forall h <- hs :: h in HandlesOf(ws)
  {
    var known, all := SetOf(HandlesOf(ws)), SetOf(hs);
    DistinctSize(HandlesOf(ws));
    DistinctSize(hs);
    SubsetIsAll(known, all);
    forall h <- hs ensures h in HandlesOf(ws) {
      assert h in all;
    }
  }

  /** Pigeonhole: as many indices as there are places are all the places. */
  lemma {:induction false} AllIndices(s: set<int>, n: nat)
    requires |s| == n && Indices(s, n)
    ensures forall i :: 0 <= i < n ==> i in s
    decreases n
  {
    if n > 0 {
      if n - 1 in s {
        AllIndices(s - {n - 1}, n - 1);
        forall i | 0 <= i < n
          ensures i in s
        {
          assert i < n - 1 ==> i in s - {n - 1};
        }
      } else {
        IndicesBound(s, n - 1);
      }
    }
  }

  lemma {:induction false} UnmatchedPrefix(ws: seq<Wrapper>, hs: seq<Handle>, c: nat)
    requires c <= |ws|
    ensures Unmatched(ws[..c], hs) <= Unmatched(ws, hs)
    decreases |ws|
  {
    if c < |ws| {
      assert ws[..|ws| - 1][..c] == ws[..c];
      UnmatchedPrefix(ws[..|ws| - 1], hs, c);
    } else {
      assert ws[..c] == ws;
    }
  }

  lemma UnmatchedNext(ws: seq<Wrapper>, hs: seq<Handle>, c: nat)
    requires c < |ws|
    ensures Unmatched(ws[..c + 1], hs) == Unmatched(ws[..c], hs) + (if ws[c].handle in hs then [] else [ws[c]])
  {
    assert ws[..c + 1][..c] == ws[..c];
  }

  /** The next old wrapper that is not spoken for, or `|ws|`; the ones before it are all enumerated. */
  method NextSpare(ws: seq<Wrapper>, ghost hs: seq<Handle>, newIndex: seq<int>, ghost from: nat) returns (c: nat)
    requires from <= |ws| == |newIndex|
    requires forall k :: from <= k < |ws| ==> IsIndex(hs, ws[k].handle, newIndex[k])
    requires forall k :: 0 <= k < from ==> newIndex[k] != -1
    ensures from <= c <= |ws| && (c < |ws| ==> newIndex[c] == -1)
    ensures forall k :: 0 <= k < c ==> newIndex[k] != -1
    ensures Unmatched(ws[..c], hs) == Unmatched(ws[..from], hs)
  {
    c := 0;
    while c < |ws| && newIndex[c] != -1
      invariant 0 <= c <= |ws| && forall k :: 0 <= k < c ==> newIndex[k] != -1
      invariant from <= c ==> Unmatched(ws[..c], hs) == Unmatched(ws[..from], hs)
    {
      UnmatchedNext(ws, hs, c);
      c := c + 1;
    }
  }

  /** The loop that moves old wrappers into the places left over, marking each as used. */
  method KeepSpares(ws: seq<Wrapper>, hs: seq<Handle>, newIndex: seq<int>, places: nat) returns (kept: seq<Wrapper>)
    requires |ws| == |newIndex| && forall k :: 0 <= k < |ws| ==> IsIndex(hs, ws[k].handle, newIndex[k])
    ensures var spare := Unmatched(ws, hs); kept == if |spare| <= places then spare else spare[..places]
  {
    var index := newIndex;
    kept := [];
    ghost var from: nat := 0;
    for place := 0 to places
      invariant |index| == |ws| && from <= |ws| && kept == Unmatched(ws[..from], hs)
      invariant forall k :: 0 <= k < from ==> index[k] != -1
      invariant forall k :: from <= k < |ws| ==> index[k] == newIndex[k]
      invariant |kept| == place || (|kept| < place && from == |ws|)
    {
      var c := NextSpare(ws, hs, index, from);
      if c < |ws| {
        UnmatchedNext(ws, hs, c);
        kept := kept + [ws[c]];
        index := index[c := |hs| + place];
        from := c + 1;
      } else {
        from := c;
      }
    }
    UnmatchedPrefix(ws, hs, from);
    assert from == |ws| ==> ws[..from] == ws;
  }

  // ---------------------------------------------------------------- the instance

  predicate AllRaw(entries: seq<Entry>) {
    forall i :: 0 <= i < |entries| ==> entries[i].Raw?
  }

  function RawHandles(entries: seq<Entry>): (hs: seq<Handle>)
    requires AllRaw(entries)
    ensures |hs| == |entries| && forall i :: 0 <= i < |entries| ==> hs[i] == entries[i].handle
  {
    seq(|entries|, i requires 0 <= i < |entries| => entries[i].handle)
  }

  class Instance {
    var table: seq<Wrapper>
    var total: nat
    ghost var live: set<Wrapper>

    ghost predicate Valid()
      reads this
    {
      Elements(table) <= live && Distinct(HandlesOf(table))
    }

    constructor ()
      ensures Valid() && table == [] && total == 0 && live == {}
    {
      table, total, live := [], 0, {};
    }

    method Allocate(handle: Handle) returns (w: Wrapper?)
      modifies this`live
      ensures w != null ==> w.handle == handle && w !in old(live) && live == old(live) + {w}
      ensures w == null ==> live == old(live)
    {
      var ok: bool := *;
      if !ok {
        return null;
      }
      w := new Wrapper(handle);
      live := live + {w};
    }

    method Free(w: Wrapper)
      requires w in live
      modifies this`live
      ensures live == old(live) - {w}
    {
      live := live - {w};
    }

    /** The old wrapper whose device has the given place in the enumeration, if any. */
    method FindOld(newIndex: seq<int>, hs: seq<Handle>, place: nat) returns (w: Wrapper?)
      requires |newIndex| == |table| && place < |hs| && Valid() && Distinct(hs)
      requires forall c :: 0 <= c < |table| ==> IsIndex(hs, table[c].handle, newIndex[c])
      ensures w != null ==> w in table && w.handle == hs[place]
      ensures w == null ==> forall t :: t in table ==> t.handle != hs[place]
    {
      for c := 0 to |table|
        invariant forall k :: 0 <= k < c ==> newIndex[k] != place
      {
        if newIndex[c] == place {
          return table[c];
        }
      }
      return null;
    }

    /** The loop that copies or allocates a wrapper for each enumerated device. */
    method Fill(devs: array<Entry>, newIndex: seq<int>, hs: seq<Handle>) returns (ok: bool, news: seq<Wrapper>)
      requires |newIndex| == |table| && Valid() && Distinct(hs)
      requires forall c :: 0 <= c < |table| ==> IsIndex(hs, table[c].handle, newIndex[c])
      requires devs.Length == |hs| && forall i :: 0 <= i < |hs| ==> devs[i] == Raw(hs[i])
      modifies this`live, devs
      ensures Reuses(table, hs, news) && live == old(live) + Elements(news)
      ensures forall i :: 0 <= i < |news| ==> news[i] in table || news[i] !in old(live)
      ensures ok ==> |news| == |hs| && forall i :: 0 <= i < |hs| ==> devs[i] == Wrapped(news[i])
    {
      news := [];
      assert Elements(news) == {};
      hide Elements, Distinct, IsIndex;
      for k := 0 to devs.Length
        invariant |news| == k && Reuses(table, hs, news) && live == old(live) + Elements(news)
        invariant forall i :: 0 <= i < k ==> news[i] in table || news[i] !in old(live)
        invariant forall i :: 0 <= i < k ==> devs[i] == Wrapped(news[i])
        invariant forall i :: k <= i < |hs| ==> devs[i] == Raw(hs[i])
      {
        var w := FindOld(newIndex, hs, k);
        if w != null {
          OnlyOne(table, w);
        } else {
          w := Allocate(devs[k].handle);
          if w == null {
            return false, news;
          }
        }
        ElementsSnoc(news, w);
        news := news + [w];
        devs[k] := Wrapped(w);
      }
      ok := true;
    }

    /** The clean-up after a failed allocation: wrappers taken over from the table are not freed. */
    method Rollback(news: seq<Wrapper>)
      requires Elements(news) <= live && Distinct(HandlesOf(news))
      modifies this`live
      ensures live == old(live) - (Elements(news) - Elements(table))
    {
      for k := 0 to |news|
        invariant live == old(live) - (Elements(news[..k]) - Elements(table))
      {
        assert news[k] !in Elements(news[..k]) by {
          assert forall j :: 0 <= j < k ==> HandlesOf(news)[j] != HandlesOf(news)[k];
        }
        assert Elements(news[..k + 1]) == Elements(news[..k]) + {news[k]};
        if news[k] !in table {
          Free(news[k]);
        }
      }
      assert news[..|news|] == news;
    }

    /** The clean-up after success: old wrappers that did not get into the new table are freed. */
    method FreeDropped(news: seq<Wrapper>)
      requires Valid()
      modifies this`live
      ensures live == old(live) - (Elements(table) - Elements(news))
    {
      for k := 0 to |table|
        invariant live == old(live) - (Elements(table[..k]) - Elements(news))
      {
        assert table[k] !in Elements(table[..k]) by {
          assert forall j :: 0 <= j < k ==> HandlesOf(table)[j] != HandlesOf(table)[k];
        }
        assert Elements(table[..k + 1]) == Elements(table[..k]) + {table[k]};
        if table[k] !in news {
          Free(table[k]);
        }
      }
      assert table[..|table|] == table;
    }

    /** The short way: nothing changed, so only the application's array is filled in. */
    method Reenumerate(devs: array<Entry>, newIndex: seq<int>, hs: seq<Handle>)
      requires |newIndex| == |table| && Valid() && Distinct(hs)
      requires forall c :: 0 <= c < |table| ==> IsIndex(hs, table[c].handle, newIndex[c])
      requires devs.Length == |hs| && forall h :: h in hs ==> h in HandlesOf(table)
      modifies devs
      ensures forall i :: 0 <= i < |hs| ==> HandsOut(devs[i], hs[i], table, table)
    {
      for k := 0 to devs.Length
        invariant forall i :: 0 <= i < k ==> HandsOut(devs[i], hs[i], table, table)
      {
        var w := FindOld(newIndex, hs, k);
        assert hs[k] in HandlesOf(table);
        if w != null {
          OnlyOne(table, w);
          devs[k] := Wrapped(w);
        }
      }
    }

    /**
      `setup_loader_tramp_phys_devs`.  On success every entry is a wrapper of its handle, the one the
      application already knows if there is one, and the live wrappers are those of the table; on
      failure nothing is left over from the attempt.
    */
    method SetupTrampolines(devs: array<Entry>) returns (ok: bool)
      requires Valid() && AllRaw(devs[..]) && Distinct(RawHandles(devs[..]))
      modifies this, devs
      ensures Valid()
      ensures !ok ==> table == old(table) && live == old(live) && total == 0
      ensures ok ==> live == (old(live) - Elements(old(table))) + Elements(table)
      ensures ok ==> var hs := old(RawHandles(devs[..]));
                     forall i :: 0 <= i < |hs| ==> HandsOut(devs[i], hs[i], old(table), table)
      ensures ok ==> total == old(total) || (total == devs.Length && devs.Length > old(total))
      ensures ok ==> table == old(table) || (|table| <= total && devs.Length <= total)
      ensures ok ==> var hs := old(RawHandles(devs[..]));
                     table == old(table) || Updated(old(table), hs, total, table)
      ensures var hs := old(RawHandles(devs[..]));
              |old(table)| == old(total) == |hs| && (forall w <- old(table) :: w.handle in hs)
              ==> ok && table == old(table) && live == old(live) && total == old(total)
    {
      if devs.Length == 0 {
        return true;
      }
      hide Elements, Unmatched, Distinct;
      var hs := RawHandles(devs[..]);
      var room := if total < devs.Length then devs.Length else total;
      var newIndex, found := MatchOld(table, hs);
      if |table| == |hs| && forall w <- table :: w.handle in hs {
        AllKnown(table, hs);
      }
      if found == devs.Length && |table| != 0 && |table| == room {
        Reenumerate(devs, newIndex, hs);
        return true;
      }
      ok := Rebuild(devs, newIndex, hs, room);
    }

    /** The long way: a new table is built beside the old one. */
    method Rebuild(devs: array<Entry>, newIndex: seq<int>, hs: seq<Handle>, room: nat) returns (ok: bool)
      requires |newIndex| == |table| && Valid() && Distinct(hs) && |hs| <= room
      requires forall c :: 0 <= c < |table| ==> IsIndex(hs, table[c].handle, newIndex[c])
      requires devs.Length == |hs| && forall i :: 0 <= i < |hs| ==> devs[i] == Raw(hs[i])
      modifies this, devs
      ensures Valid()
      ensures !ok ==> table == old(table) && live == old(live) && total == 0
      ensures ok ==> live == (old(live) - Elements(old(table))) + Elements(table)
      ensures ok ==> total == room && Updated(old(table), hs, room, table)
      ensures ok ==> forall i :: 0 <= i < |hs| ==> HandsOut(devs[i], hs[i], old(table), table)
    {
      hide Elements, Unmatched, Distinct, IsIndex;
      var gotArray: bool := *;
      if !gotArray {
        total := 0;
        return false;
      }
      var news;
      ok, news := Fill(devs, newIndex, hs);
      ReusesDistinct(table, hs, news);
      NewOnes(table, news, old(live));
      if !ok {
        Rollback(news);
        total := 0;
        return;
      }
      var kept := KeepSpares(table, hs, newIndex, room - devs.Length);
      var next := news + kept;
      total := room;
      NextIsUpdated(table, hs, room, news, kept);
      NextIsDistinct(table, hs, room, news, kept);
      ElementsJoin(news, kept);
      FreeDropped(next);
      table := next;
    }
  }

  lemma NewOnes(table: seq<Wrapper>, news: seq<Wrapper>, live: set<Wrapper>)
    requires forall i :: 0 <= i < |news| ==> news[i] in table || news[i] !in live
    ensures (Elements(news) - Elements(table)) !! live
  {
  }

  /** The entry holds a wrapper of the handle out of the table, an old one if there was one. */
  ghost predicate HandsOut(e: Entry, h: Handle, before: seq<Wrapper>, table: seq<Wrapper>) {
    && e.Wrapped?
    && e.wrapper in table
    && e.wrapper.handle == h
    && forall w :: w in before && w.handle == h ==> e.wrapper == w
  }

  lemma OnlyOne(ws: seq<Wrapper>, w: Wrapper)
    requires Distinct(HandlesOf(ws)) && w in ws
    ensures forall x :: x in ws && x.handle == w.handle ==> x == w
  {
    var i :| 0 <= i < |ws| && ws[i] == w;
    forall x | x in ws && x.handle == w.handle
      ensures x == w
    {
      var j :| 0 <= j < |ws| && ws[j] == x;
      assert HandlesOf(ws)[i] == HandlesOf(ws)[j];
    }
  }

  lemma ReusesDistinct(before: seq<Wrapper>, hs: seq<Handle>, news: seq<Wrapper>)
    requires Distinct(hs) && Reuses(before, hs, news)
    ensures Distinct(HandlesOf(news))
  {
  }

  lemma NextIsUpdated(before: seq<Wrapper>, hs: seq<Handle>, room: nat, news: seq<Wrapper>, kept: seq<Wrapper>)
    requires |hs| <= room && Reuses(before, hs, news) && |news| == |hs|
    requires var spare := Unmatched(before, hs);
             kept == if |spare| <= room - |hs| then spare else spare[..room - |hs|]
    ensures Updated(before, hs, room, news + kept)
  {
    assert (news + kept)[..|hs|] == news && (news + kept)[|hs|..] == kept;
  }

  lemma NextIsDistinct(before: seq<Wrapper>, hs: seq<Handle>, room: nat, news: seq<Wrapper>, kept: seq<Wrapper>)
    requires Distinct(HandlesOf(before)) && Distinct(hs) && |hs| <= room && Reuses(before, hs, news) && |news| == |hs|
    requires kept <= Unmatched(before, hs)
    ensures Distinct(HandlesOf(news + kept)) && Elements(kept) <= Elements(before)
  {
    var spare := Unmatched(before, hs);
    UnmatchedDistinct(before, hs);
    forall i | 0 <= i < |kept|
      ensures kept[i].handle !in hs && kept[i] in before
    {
      UnmatchedMembers(before, hs, spare[i]);
      assert kept[i] == spare[i];
    }
    assert forall i, j :: 0 <= i < j < |kept| ==> HandlesOf(spare)[i] != HandlesOf(spare)[j];
    ReusesDistinct(before, hs, news);
  }

  lemma KeptOrReused(before: seq<Wrapper>, hs: seq<Handle>, room: nat, table: seq<Wrapper>, w: Wrapper)
    requires |hs| <= room && Updated(before, hs, room, table) && |hs| + |Unmatched(before, hs)| <= room && w in before
    ensures w in table
  {
    UnmatchedMembers(before, hs, w);
    if w.handle in hs {
      var i :| 0 <= i < |hs| && hs[i] == w.handle;
      assert table[..|hs|][i] == w;
    } else {
      assert w in table[|hs|..];
    }
  }

  /** The first old wrapper that does not fit is not in the table. */
  lemma FirstDropped(before: seq<Wrapper>, hs: seq<Handle>, room: nat, table: seq<Wrapper>)
    requires Distinct(HandlesOf(before)) && |hs| <= room && Updated(before, hs, room, table)
    requires |hs| + |Unmatched(before, hs)| > room
    ensures var lost := Unmatched(before, hs)[room - |hs|]; lost in before && lost !in table
  {
    var spare := Unmatched(before, hs);
    var k := room - |hs|;
    UnmatchedMembers(before, hs, spare[k]);
    UnmatchedDistinct(before, hs);
    hide Unmatched;
    forall i | 0 <= i < |table|
      ensures table[i] != spare[k]
    {
      if i < |hs| {
        assert table[..|hs|][i].handle == hs[i];
      } else {
        assert table[i] == table[|hs|..][i - |hs|] == spare[i - |hs|];
        assert HandlesOf(spare)[i - |hs|] != HandlesOf(spare)[k];
      }
    }
  }

  lemma ElementsIs(ws: seq<Wrapper>, w: Wrapper)
    ensures w in Elements(ws) <==> w in ws
  {
  }

  /** A full update keeps every old wrapper exactly when old and new devices together fit. */
  lemma NothingDroppedIff(before: seq<Wrapper>, hs: seq<Handle>, room: nat, table: seq<Wrapper>)
    requires Distinct(HandlesOf(before)) && |hs| <= room && Updated(before, hs, room, table)
    ensures Elements(before) <= Elements(table) <==> |hs| + |Unmatched(before, hs)| <= room
  {
    hide Elements, Unmatched, Updated, Distinct;
    if |hs| + |Unmatched(before, hs)| <= room {
      forall w | w in Elements(before)
        ensures w in Elements(table)
      {
        ElementsIs(before, w);
        ElementsIs(table, w);
        KeptOrReused(before, hs, room, table, w);
      }
    } else {
      FirstDropped(before, hs, room, table);
      var lost := Unmatched(before, hs)[room - |hs|];
      ElementsIs(before, lost);
      ElementsIs(table, lost);
    }
  }
}
