/**
  The table of terminators behind `vkEnumeratePhysicalDevices`, and the unloading of drivers without
  devices.  `live` is the set of terminators allocated and not yet freed; `Free` demands membership.
*/
module TermDevices {

  type Handle = nat

  /** `loader_physical_device_term`: a driver's device, and the driver it was first found in. */
  class Term {
    const handle: Handle
    const driver: nat

    constructor (handle: Handle, driver: nat)
      ensures this.handle == handle && this.driver == driver
    {
      this.handle, this.driver := handle, driver;
    }
  }

  /** `loader_icd_term`, and whether the list of scanned drivers still has it. */
  datatype Driver = Driver(id: nat, scanned: bool, deviceCount: nat)

  /** What the two enumeration calls into a driver give. */
  datatype Answer = OutOfMemory | Error | Count(n: nat)
  datatype Report = Report(first: Answer, second: Answer, devices: seq<Handle>)

  datatype Found = Found(handle: Handle, driver: nat)

  /** The devices a driver is taken to have: none on an error, and no more than there was room for. */
  function DevicesOf(report: Report): (hs: seq<Handle>)
    ensures hs <= report.devices
  {
    if !report.first.Count? || !report.second.Count? then []
    else
      var n := if report.second.n > report.first.n then report.first.n else report.second.n;
      if n <= |report.devices| then report.devices[..n] else report.devices
  }

  /** With as many devices as the driver says: all of them, or those there was room for. */
  lemma DevicesAre(report: Report)
    ensures report.first.Count? && report.second.Count? && |report.devices| == report.second.n ==>
      DevicesOf(report) ==
        if report.second.n <= report.first.n then report.devices else report.devices[..report.first.n]
    ensures !report.first.Count? || !report.second.Count? ==> DevicesOf(report) == []
    ensures Fatal(report) <==>
      (report.first == OutOfMemory || (report.first != Error && report.second == OutOfMemory))
  {
  }

  /** A report in which memory ran out ends the enumeration. */
  predicate Fatal(report: Report) {
    report.first == OutOfMemory || (report.first.Count? && report.second == OutOfMemory)
  }

  function Pairs(hs: seq<Handle>, driver: nat): (r: seq<Found>)
    ensures |r| == |hs| && forall i :: 0 <= i < |r| ==> r[i] == Found(hs[i], driver)
  {
    seq(|hs|, i requires 0 <= i < |hs| => Found(hs[i], driver))
  }

  /** Everything the drivers report, in driver order. */
  ghost function Enumerated(drivers: seq<Driver>, reports: seq<Report>): seq<Found>
    requires |drivers| == |reports|
  {
    if drivers == [] then []
    else
      var n := |drivers| - 1;
      Enumerated(drivers[..n], reports[..n]) + Pairs(DevicesOf(reports[n]), drivers[n].id)
  }

  ghost predicate Has(fs: seq<Found>, h: Handle) {
    exists i :: 0 <= i < |fs| && fs[i].handle == h
  }

  /** The first occurrence of each handle. */
  ghost function Dedup(fs: seq<Found>): (r: seq<Found>)
    ensures forall f <- r :: f in fs
    ensures forall h :: Has(r, h) <==> Has(fs, h)
    ensures forall i, j :: 0 <= i < j < |r| ==> r[i].handle != r[j].handle
  {
    if fs == [] then []
    else
      var front, last := fs[..|fs| - 1], fs[|fs| - 1];
      var r := Dedup(front);
      DedupStep(fs, front, r);
      if Has(front, last.handle) then r else r + [last]
  }

  lemma DedupStep(fs: seq<Found>, front: seq<Found>, r: seq<Found>)
    requires fs != [] && front == fs[..|fs| - 1] && forall h :: Has(r, h) <==> Has(front, h)
    requires forall f <- r :: f in front
    ensures
      var last := fs[|fs| - 1];
      var s := if Has(front, last.handle) then r else r + [last];
      && (forall h :: Has(s, h) <==> Has(fs, h)) && forall f <- s :: f in fs
  {
    var last := fs[|fs| - 1];
    var s := if Has(front, last.handle) then r else r + [last];
    forall h ensures Has(s, h) <==> Has(fs, h) {
      HasSnoc(front, last, h);
      HasSnoc(r, last, h);
      assert fs == front + [last];
    }
  }

  lemma HasSnoc(fs: seq<Found>, f: Found, h: Handle)
    ensures Has(fs + [f], h) <==> Has(fs, h) || f.handle == h
  {
    var more := fs + [f];
    if Has(fs, h) {
      var i :| 0 <= i < |fs| && fs[i].handle == h;
      assert more[i].handle == h;
    }
    if f.handle == h {
      assert more[|fs|].handle == h;
    }
  }

  ghost function Elements(ts: seq<Term>): set<Term> {
    set t | t in ts
  }

  ghost predicate HasTerm(ts: seq<Term>, h: Handle) {
    exists t :: t in ts && t.handle == h
  }

  ghost predicate Distinct(ts: seq<Term>) {
    forall i, j :: 0 <= i < j < |ts| ==> ts[i].handle != ts[j].handle
  }

  /** The terminator for a device: the old one where there is one, and otherwise a new one of its driver. */
  ghost predicate Suits(t: Term, f: Found, before: seq<Term>) {
    && t.handle == f.handle
    && (t in before || (t.driver == f.driver && forall o <- before :: o.handle != f.handle))
  }

  ghost predicate Collected(fs: seq<Found>, before: seq<Term>, news: seq<Term>) {
    |news| == |fs| && forall i :: 0 <= i < |news| ==> Suits(news[i], fs[i], before)
  }

  lemma CollectedNext(fs: seq<Found>, f: Found, before: seq<Term>, news: seq<Term>, t: Term)
    requires Collected(Dedup(fs), before, news) && !Has(fs, f.handle) && Suits(t, f, before)
    ensures Collected(Dedup(fs + [f]), before, news + [t])
  {
    hide Suits;
    var more := fs + [f];
    assert more[..|more| - 1] == fs;
    assert Dedup(more) == Dedup(fs) + [f];
  }

  lemma CollectedSame(fs: seq<Found>, f: Found)
    requires Has(fs, f.handle)
    ensures Dedup(fs + [f]) == Dedup(fs)
  {
    var more := fs + [f];
    assert more[..|more| - 1] == fs;
  }

  lemma CollectedHas(fs: seq<Found>, before: seq<Term>, news: seq<Term>, h: Handle)
    requires Collected(Dedup(fs), before, news)
    ensures Has(fs, h) <==> HasTerm(news, h)
  {
    var d := Dedup(fs);
    assert Has(fs, h) <==> Has(d, h);
    if Has(d, h) {
      var i :| 0 <= i < |d| && d[i].handle == h;
      assert Suits(news[i], d[i], before);
    }
    forall t | t in news && t.handle == h ensures Has(d, h) {
      var i :| 0 <= i < |news| && news[i] == t;
      assert Suits(news[i], d[i], before);
      assert d[i].handle == h;
    }
  }

  lemma {:induction false} EnumeratedHas(drivers: seq<Driver>, reports: seq<Report>, h: Handle)
    requires |drivers| == |reports|
    ensures Has(Enumerated(drivers, reports), h) <==> exists i :: 0 <= i < |drivers| && h in DevicesOf(reports[i])
    decreases |drivers|
  {
    hide DevicesOf;
    if drivers != [] {
      var n := |drivers| - 1;
      var front, last := Enumerated(drivers[..n], reports[..n]), DevicesOf(reports[n]);
      EnumeratedHas(drivers[..n], reports[..n], h);
      HasJoined(front, last, drivers[n].id, h);
      assert forall i :: 0 <= i < n ==> reports[..n][i] == reports[i];
    }
  }

  lemma HasJoined(fs: seq<Found>, hs: seq<Handle>, driver: nat, h: Handle)
    ensures Has(fs + Pairs(hs, driver), h) <==> Has(fs, h) || h in hs
  {
    var all := fs + Pairs(hs, driver);
    if Has(fs, h) {
      var i :| 0 <= i < |fs| && fs[i].handle == h;
      assert all[i].handle == h;
    }
    if h in hs {
      var i :| 0 <= i < |hs| && hs[i] == h;
      assert all[|fs| + i].handle == h;
    }
  }

  /** What stays of the devices is the first of each handle, in order. */
  lemma {:induction false} DedupIsFirst(fs: seq<Found>, k: nat) returns (i: nat)
    requires k < |Dedup(fs)|
    ensures i < |fs| && fs[i] == Dedup(fs)[k] && forall j :: 0 <= j < i ==> fs[j].handle != fs[i].handle
    ensures Dedup(fs[..i]) == Dedup(fs)[..k]
    decreases |fs|
  {
    var front, last := fs[..|fs| - 1], fs[|fs| - 1];
    if k < |Dedup(front)| {
      i := DedupIsFirst(front, k);
      assert fs[..i] == front[..i];
    } else {
      i := |fs| - 1;
      assert !Has(front, last.handle);
      assert forall j :: 0 <= j < i ==> fs[j] == front[j];
    }
  }

  /** The devices of earlier drivers come before those of later ones. */
  lemma {:induction false} DriversInOrder(drivers: seq<Driver>, reports: seq<Report>, k: nat)
    requires |drivers| == |reports| && k < |drivers|
    ensures var before := Enumerated(drivers[..k], reports[..k]);
            before + Pairs(DevicesOf(reports[k]), drivers[k].id) <= Enumerated(drivers, reports)
    decreases |drivers|
  {
    hide DevicesOf, Pairs;
    var n := |drivers| - 1;
    if k < n {
      DriversInOrder(drivers[..n], reports[..n], k);
      assert drivers[..n][..k] == drivers[..k] && reports[..n][..k] == reports[..k];
    }
  }

  lemma CollectedDistinct(fs: seq<Found>, before: seq<Term>, news: seq<Term>)
    requires Collected(Dedup(fs), before, news)
    ensures Distinct(news)
  {
    var d := Dedup(fs);
    forall i, j | 0 <= i < j < |news| ensures news[i].handle != news[j].handle {
      assert Suits(news[i], d[i], before) && Suits(news[j], d[j], before);
    }
  }

  /** `find_phys_dev`. */
  method Find(h: Handle, ts: seq<Term>) returns (i: nat)
    ensures i <= |ts| && (i < |ts| ==> ts[i].handle == h)
    ensures i == |ts| ==> forall t <- ts :: t.handle != h
  {
    i := 0;
    while i < |ts|
      invariant i <= |ts| && forall t <- ts[..i] :: t.handle != h
    {
      if ts[i].handle == h {
        return;
      }
      i := i + 1;
    }
    assert ts[..i] == ts;
  }

  class Instance {
    var drivers: seq<Driver>     // icd_terms, in list order
    var driverCount: nat         // icd_terms_count
    var table: seq<Term>
    var total: nat               // total_gpu_count
    ghost var live: set<Term>

    ghost predicate Valid()
      reads this
    {
      Elements(table) <= live && Distinct(table)
    }

    constructor (drivers: seq<Driver>)
      ensures Valid() && this.drivers == drivers && driverCount == |drivers| && table == [] && live == {}
    {
      this.drivers, driverCount, table, total, live := drivers, |drivers|, [], 0, {};
    }

    method Free(t: Term)
      requires t in live
      modifies this`live
      ensures live == old(live) - {t}
    {
      live := live - {t};
    }

    /** `check_and_add_to_new_phys_devs`. */
    method CheckAndAdd(f: Found, news: seq<Term>, ghost fs: seq<Found>, ghost was: set<Term>)
      returns (ok: bool, more: seq<Term>)
      requires Elements(table) <= live && Distinct(table) && Collected(Dedup(fs), table, news)
      requires live == was + Elements(news) && Elements(table) <= was
      requires forall t <- news :: t in table || t !in was
      modifies this`live
      ensures ok ==> Collected(Dedup(fs + [f]), table, more)
      ensures !ok ==> more == news
      ensures live == was + Elements(more) && forall t <- more :: t in table || t !in was
    {
      hide Dedup, Collected;
      ok, more := true, news;
      CollectedHas(fs, table, news, f.handle);
      var i := Find(f.handle, news);
      if i < |news| {
        CollectedSame(fs, f);
        return;
      }
      i := Find(f.handle, table);
      if i < |table| {
        CollectedNext(fs, f, table, news, table[i]);
        more := news + [table[i]];
        return;
      }
      ok := *;
      if !ok {
        return;
      }
      var t := new Term(f.handle, f.driver);
      CollectedNext(fs, f, table, news, t);
      live := live + {t};
      more := news + [t];
    }

    /** The enumeration of the devices of one driver after another. */
    method Query(reports: seq<Report>) returns (ok: bool, lists: seq<seq<Handle>>)
      requires |reports| == |drivers|
      modifies this`drivers
      ensures SameDrivers(drivers, old(drivers))
      ensures ok <==> forall r <- reports :: !Fatal(r)
      ensures ok ==> Counted(drivers, reports)
      ensures ok ==> |lists| == |drivers| && forall i :: 0 <= i < |lists| ==> lists[i] == DevicesOf(reports[i])
      ensures ok ==> forall i :: 0 <= i < |lists| ==>
        var r := reports[i];
        && drivers[i].deviceCount == |lists[i]|
        && (r.first.Count? && r.second.Count? && |r.devices| == r.second.n ==>
              lists[i] == if r.second.n <= r.first.n then r.devices else r.devices[..r.first.n])
        && (!r.first.Count? || !r.second.Count? ==> lists[i] == [])
      ensures ok <==> forall r <- reports :: r.first != OutOfMemory && (r.first.Count? ==> r.second != OutOfMemory)
    {
      forall r ensures Fatal(r) <==> r.first == OutOfMemory || (r.first != Error && r.second == OutOfMemory) {
        DevicesAre(r);
      }
      hide Fatal, DevicesOf;
      lists := [];
      var i := 0;
      while i < |reports|
        invariant i <= |reports| && |lists| == i && SameDrivers(drivers, old(drivers))
        invariant forall k :: 0 <= k < i ==> !Fatal(reports[k])
        invariant forall k :: 0 <= k < i ==> lists[k] == DevicesOf(reports[k]) && drivers[k].deviceCount == |lists[k]|
        invariant forall k :: 0 <= k < i ==>
          var r := reports[k];
          && (r.first.Count? && r.second.Count? && |r.devices| == r.second.n ==>
                lists[k] == if r.second.n <= r.first.n then r.devices else r.devices[..r.first.n])
          && (!r.first.Count? || !r.second.Count? ==> lists[k] == [])
      {
        if Fatal(reports[i]) {
          return false, lists;
        }
        var hs := DevicesOf(reports[i]);
        DevicesAre(reports[i]);
        lists := lists + [hs];
        drivers := drivers[i := drivers[i].(deviceCount := |hs|)];
        i := i + 1;
      }
      ok := true;
    }

    /** The devices of one driver go into the new table. */
    method AddDriver(hs: seq<Handle>, driver: nat, news: seq<Term>, ghost fs: seq<Found>, ghost was: set<Term>)
      returns (ok: bool, more: seq<Term>)
      requires Valid() && Building(was, fs, news)
      modifies this`live
      ensures Elements(table) <= live
      ensures ok ==> Building(was, fs + Pairs(hs, driver), more)
      ensures !ok ==> Loose(was, more) && Distinct(more)
    {
      hide Collected, Dedup, Suits;
      more := news;
      var j := 0;
      assert fs + Pairs(hs[..0], driver) == fs;
      while j < |hs|
        invariant j <= |hs| && Building(was, fs + Pairs(hs[..j], driver), more)
      {
        assert fs + Pairs(hs[..j + 1], driver) == (fs + Pairs(hs[..j], driver)) + [Found(hs[j], driver)];
        CollectedDistinct(fs + Pairs(hs[..j], driver), table, more);
        ok, more := CheckAndAdd(Found(hs[j], driver), more, fs + Pairs(hs[..j], driver), was);
        if !ok {
          return;
        }
        j := j + 1;
      }
      assert hs[..j] == hs;
      ok := true;
    }

    /** Every terminator of the new table is allocated, and new unless it is in the old table. */
    ghost predicate Loose(was: set<Term>, news: seq<Term>)
      reads this
    {
      && live == was + Elements(news) && Elements(table) <= was
      && forall t <- news :: t in table || t !in was
    }

    ghost predicate Building(was: set<Term>, fs: seq<Found>, news: seq<Term>)
      reads this
    {
      Loose(was, news) && Collected(Dedup(fs), table, news)
    }

    method AddAll(lists: seq<seq<Handle>>, ghost reports: seq<Report>) returns (ok: bool, news: seq<Term>)
      requires Valid() && |lists| == |drivers| == |reports|
      requires forall i :: 0 <= i < |lists| ==> lists[i] == DevicesOf(reports[i])
      modifies this`live
      ensures ok ==> Building(old(live), Enumerated(drivers, reports), news)
      ensures !ok ==> Loose(old(live), news) && Distinct(news)
    {
      hide Collected, Dedup, DevicesOf, Suits;
      ghost var was := live;
      news := [];
      NothingCollected(table);
      var i := 0;
      assert drivers[..0] == [];
      while i < |lists|
        invariant i <= |lists| && Building(was, Enumerated(drivers[..i], reports[..i]), news)
      {
        assert drivers[..i + 1][..i] == drivers[..i] && reports[..i + 1][..i] == reports[..i];
        ok, news := AddDriver(lists[i], drivers[i].id, news, Enumerated(drivers[..i], reports[..i]), was);
        if !ok {
          return;
        }
        i := i + 1;
      }
      assert drivers[..i] == drivers && reports[..i] == reports;
      ok := true;
    }

    /** After a failure everything new is freed, and nothing else. */
    method Rollback(news: seq<Term>, ghost was: set<Term>)
      requires Loose(was, news) && Distinct(news)
      modifies this`live
      ensures live == was
    {
      var i := 0;
      while i < |news|
        invariant i <= |news| && live == was + (set t | t in news[i..])
      {
        assert news[i..] == [news[i]] + news[i + 1..];
        var k := FindTerm(news[i], table);
        if k == |table| {
          Free(news[i]);
          assert news[i] !in news[i + 1..];
        }
        i := i + 1;
      }
    }

    /** Of the old table only what the new one does not have is freed. */
    method FreeDropped(news: seq<Term>, ghost was: set<Term>)
      requires Loose(was, news) && Distinct(table)
      modifies this`live
      ensures live == (was - Elements(table)) + Elements(news)
    {
      var i := 0;
      while i < |table|
        invariant i <= |table| && live == (was - (set t | t in table[..i])) + Elements(news)
      {
        assert table[..i + 1] == table[..i] + [table[i]];
        var k := FindTerm(table[i], news);
        if k == |news| {
          assert table[i] !in table[..i];
          Free(table[i]);
        }
        i := i + 1;
      }
      assert table[..i] == table;
    }

    /**
      `setup_loader_term_phys_devs` without sorting.  On success the table holds the enumerated devices
      once each, in driver order, with the old terminator wherever there was one, and exactly the
      terminators that are no longer enumerated are freed.  On failure nothing has changed hands.
    */
    method Setup(reports: seq<Report>) returns (ok: bool)
      requires Valid() && |reports| == |drivers|
      modifies this
      ensures Valid() && SameDrivers(drivers, old(drivers)) && driverCount == old(driverCount)
      ensures !ok ==> table == old(table) && live == old(live) && total == 0
      ensures ok ==> Counted(drivers, reports) && Enumerated(drivers, reports) != [] && forall r <- reports :: !Fatal(r)
      ensures ok ==> Collected(Dedup(Enumerated(drivers, reports)), old(table), table) && total == |table|
      ensures ok ==> forall h :: HasTerm(table, h) <==>
        exists i :: 0 <= i < |drivers| && h in DevicesOf(reports[i])
      ensures ok ==> live == (old(live) - Elements(old(table))) + Elements(table)
      ensures ok ==> forall t <- table :: t in old(table) || t !in old(live)
    {
      hide Collected, Dedup, Suits, Fatal, DevicesOf;
      ghost var was := live;
      var lists;
      ok, lists := Query(reports);
      if !ok {
        total := 0;
        return;
      }
      var capacity := Capacity(lists, drivers, reports);
      var room: bool := *;
      if capacity == 0 || !room {
        total := 0;
        return false;
      }
      var news;
      ok, news := AddAll(lists, reports);
      if !ok {
        Rollback(news, was);
        total := 0;
        return;
      }
      CollectedDistinct(Enumerated(drivers, reports), table, news);
      forall h ensures HasTerm(news, h) <==>
        exists i :: 0 <= i < |drivers| && h in DevicesOf(reports[i])
      {
        CollectedHas(Enumerated(drivers, reports), table, news, h);
        EnumeratedHas(drivers, reports, h);
      }
      FreeDropped(news, was);
      table, total := news, |news|;
    }

    /** `unload_drivers_without_physical_devices`: the drivers without devices leave the list. */
    method Unload()
      requires driverCount >= |drivers|
      modifies this`drivers, this`driverCount
      ensures drivers == Busy(old(drivers))
      ensures driverCount == old(driverCount) - IdleScanned(old(drivers))
    {
      hide Busy, IdleScanned;
      ghost var was := drivers;
      ghost var seen: nat := 0;
      var i: nat := 0;
      NoDrivers(was);
      while i < |drivers|
        invariant seen <= |was| && i <= |drivers| && i == |Busy(was[..seen])|
        invariant drivers == Busy(was[..seen]) + was[seen..]
        invariant driverCount == old(driverCount) - IdleScanned(was[..seen])
        decreases |was| - seen
      {
        BusyStep(was, seen);
        var driver := drivers[i];
        Middle(Busy(was[..seen]), was[seen..], drivers);
        if driver.deviceCount == 0 {
          if driver.scanned {
            driverCount := driverCount - 1;
          }
          drivers := drivers[..i] + drivers[i + 1..];
        } else {
          i := i + 1;
        }
        seen := seen + 1;
      }
      assert was[..seen] == was;
    }
  }

  lemma Middle(front: seq<Driver>, back: seq<Driver>, all: seq<Driver>)
    requires all == front + back && |all| > |front|
    ensures back != [] && all[|front|] == back[0] && all == (front + [back[0]]) + back[1..]
    ensures all[..|front|] + all[|front| + 1..] == front + back[1..]
  {
    assert all[..|front|] == front && all[|front| + 1..] == back[1..];
  }

  lemma NoDrivers(ds: seq<Driver>)
    ensures Busy(ds[..0]) == [] && IdleScanned(ds[..0]) == 0 && ds[0..] == ds
  {
  }

  lemma BusyStep(ds: seq<Driver>, k: nat)
    requires k <= |ds|
    ensures k < |ds| ==> ds[k..][0] == ds[k] && ds[k..][1..] == ds[k + 1..]
    ensures k < |ds| ==> Busy(ds[..k + 1]) == if ds[k].deviceCount > 0 then Busy(ds[..k]) + [ds[k]] else Busy(ds[..k])
    ensures k < |ds| ==>
      IdleScanned(ds[..k + 1]) == IdleScanned(ds[..k]) + if ds[k].deviceCount == 0 && ds[k].scanned then 1 else 0
  {
    if k < |ds| {
      assert ds[..k + 1][..k] == ds[..k];
    }
  }

  method Capacity(lists: seq<seq<Handle>>, ghost drivers: seq<Driver>, ghost reports: seq<Report>) returns (n: nat)
    requires |lists| == |drivers| == |reports| && forall i :: 0 <= i < |lists| ==> lists[i] == DevicesOf(reports[i])
    ensures n == |Enumerated(drivers, reports)|
  {
    hide DevicesOf;
    n := 0;
    var i := 0;
    while i < |lists|
      invariant i <= |lists| && n == |Enumerated(drivers[..i], reports[..i])|
    {
      assert drivers[..i + 1][..i] == drivers[..i] && reports[..i + 1][..i] == reports[..i];
      n := n + |lists[i]|;
      i := i + 1;
    }
    assert drivers[..i] == drivers && reports[..i] == reports;
  }

  /** The drivers with devices, in order. */
  ghost function Busy(ds: seq<Driver>): seq<Driver> {
    if ds == [] then []
    else Busy(ds[..|ds| - 1]) + if ds[|ds| - 1].deviceCount > 0 then [ds[|ds| - 1]] else []
  }

  ghost function IdleScanned(ds: seq<Driver>): (n: nat)
    ensures n <= |ds|
  {
    if ds == [] then 0
    else IdleScanned(ds[..|ds| - 1]) + if ds[|ds| - 1].deviceCount == 0 && ds[|ds| - 1].scanned then 1 else 0
  }

  /** The count of drivers stays right exactly when every driver without devices is a scanned one. */
  lemma {:induction false} CountStaysRightIff(ds: seq<Driver>)
    ensures |ds| - IdleScanned(ds) >= |Busy(ds)|
    ensures |ds| - IdleScanned(ds) == |Busy(ds)| <==> forall d <- ds :: d.deviceCount == 0 ==> d.scanned
  {
    if ds != [] {
      var front, last := ds[..|ds| - 1], ds[|ds| - 1];
      CountStaysRightIff(front);
      assert ds == front + [last];
    }
  }

  lemma {:induction false} BusyIs(ds: seq<Driver>, d: Driver)
    ensures d in Busy(ds) <==> d in ds && d.deviceCount > 0
  {
    if ds != [] {
      BusyIs(ds[..|ds| - 1], d);
      assert ds == ds[..|ds| - 1] + [ds[|ds| - 1]];
    }
  }

  /** Every handle belongs to one driver. */
  ghost predicate Owned(owner: Handle -> nat, drivers: seq<Driver>, reports: seq<Report>) {
    && |drivers| == |reports|
    && forall i, h :: 0 <= i < |drivers| && h in DevicesOf(reports[i]) ==> owner(h) == drivers[i].id
  }

  lemma {:induction false} EnumeratedFrom(drivers: seq<Driver>, reports: seq<Report>, f: Found)
    requires |drivers| == |reports| && f in Enumerated(drivers, reports)
    ensures exists i :: 0 <= i < |drivers| && f.driver == drivers[i].id && f.handle in DevicesOf(reports[i])
  {
    hide DevicesOf;
    var n := |drivers| - 1;
    if f in Enumerated(drivers[..n], reports[..n]) {
      EnumeratedFrom(drivers[..n], reports[..n], f);
    } else {
      assert f in Pairs(DevicesOf(reports[n]), drivers[n].id);
    }
  }

  /**
    When every handle belongs to one driver, the driver of each terminator in the new table is one
    that is kept when drivers without devices are unloaded.
  */
  lemma DriversOfTermsStay(
    owner: Handle -> nat, drivers: seq<Driver>, reports: seq<Report>, before: seq<Term>, table: seq<Term>, t: Term)
    requires Owned(owner, drivers, reports) && Counted(drivers, reports)
    requires Collected(Dedup(Enumerated(drivers, reports)), before, table) && t in table
    requires forall o <- before :: o.driver == owner(o.handle)
    ensures t.driver == owner(t.handle)
    ensures exists d :: d in Busy(drivers) && d.id == t.driver
  {
    hide DevicesOf;
    var fs := Enumerated(drivers, reports);
    var k :| 0 <= k < |table| && table[k] == t;
    var f := Dedup(fs)[k];
    assert Suits(t, f, before);
    assert f in fs;
    hide Enumerated, Dedup;
    EnumeratedFrom(drivers, reports, f);
    var i :| 0 <= i < |drivers| && f.driver == drivers[i].id && f.handle in DevicesOf(reports[i]);
    BusyIs(drivers, drivers[i]);
    assert drivers[i] in Busy(drivers);
  }

  /** Some driver of that number has devices and is kept. */
  ghost predicate Stays(drivers: seq<Driver>, id: nat) {
    exists d :: d in Busy(drivers) && d.id == id
  }

  /** Some driver of that number reported a device. */
  ghost predicate Reported(drivers: seq<Driver>, reports: seq<Report>, id: nat)
    requires |drivers| == |reports|
  {
    exists i :: 0 <= i < |drivers| && drivers[i].id == id && DevicesOf(reports[i]) != []
  }

  lemma StaysIffReported(drivers: seq<Driver>, reports: seq<Report>, id: nat)
    requires Counted(drivers, reports)
    ensures Stays(drivers, id) <==> Reported(drivers, reports, id)
  {
    hide DevicesOf, Busy;
    if Stays(drivers, id) {
      var d :| d in Busy(drivers) && d.id == id;
      BusyIs(drivers, d);
      var i :| 0 <= i < |drivers| && drivers[i] == d;
      assert DevicesOf(reports[i]) != [];
    }
    if Reported(drivers, reports, id) {
      var i :| 0 <= i < |drivers| && drivers[i].id == id && DevicesOf(reports[i]) != [];
      BusyIs(drivers, drivers[i]);
      assert drivers[i] in Busy(drivers);
    }
  }

  /** An old terminator whose handle is enumerated again is in the new table. */
  lemma OldIsReused(fs: seq<Found>, before: seq<Term>, table: seq<Term>, o: Term)
    requires Distinct(before) && Collected(Dedup(fs), before, table) && o in before && Has(fs, o.handle)
    ensures o in table
  {
    CollectedHas(fs, before, table, o.handle);
    var t :| t in table && t.handle == o.handle;
    assert t in before by {
      var k :| 0 <= k < |table| && table[k] == t;
      assert Suits(t, Dedup(fs)[k], before);
    }
    hide Dedup, Collected;
    SameHandleSameTerm(before, o, t);
  }

  lemma SameHandleSameTerm(ts: seq<Term>, a: Term, b: Term)
    requires Distinct(ts) && a in ts && b in ts && a.handle == b.handle
    ensures a == b
  {
    var i :| 0 <= i < |ts| && ts[i] == a;
    var j :| 0 <= j < |ts| && ts[j] == b;
    assert i == j;
  }

  /** A new terminator, or an old one that was found again. */
  lemma TermIsFromReports(
    drivers: seq<Driver>, reports: seq<Report>, before: seq<Term>, table: seq<Term>, t: Term)
    requires |drivers| == |reports| && Collected(Dedup(Enumerated(drivers, reports)), before, table) && t in table
    ensures Has(Enumerated(drivers, reports), t.handle)
    ensures t in before || Reported(drivers, reports, t.driver)
  {
    hide DevicesOf;
    var fs := Enumerated(drivers, reports);
    var k :| 0 <= k < |table| && table[k] == t;
    var f := Dedup(fs)[k];
    assert Suits(t, f, before);
    assert f in fs;
    hide Enumerated, Dedup;
    EnumeratedFrom(drivers, reports, f);
  }

  /**
    After the drivers without devices are unloaded every terminator of the table still has its driver, if and
    only if every old terminator whose handle was found again comes from a driver that reported a device.
  */
  lemma TableKeepsDriversIff(drivers: seq<Driver>, reports: seq<Report>, before: seq<Term>, table: seq<Term>)
    requires Counted(drivers, reports) && Distinct(before)
    requires Collected(Dedup(Enumerated(drivers, reports)), before, table)
    ensures (forall t <- table :: Stays(drivers, t.driver)) <==>
      forall o <- before :: Has(Enumerated(drivers, reports), o.handle) ==> Reported(drivers, reports, o.driver)
  {
    hide Collected, Enumerated, Dedup, Stays, Reported, Has;
    forall id ensures Stays(drivers, id) <==> Reported(drivers, reports, id) {
      StaysIffReported(drivers, reports, id);
    }
    forall o <- before | Has(Enumerated(drivers, reports), o.handle) ensures o in table {
      OldIsReused(Enumerated(drivers, reports), before, table, o);
    }
    forall t <- table
      ensures Has(Enumerated(drivers, reports), t.handle) && (t in before || Reported(drivers, reports, t.driver))
    {
      TermIsFromReports(drivers, reports, before, table, t);
    }
  }

  lemma TwoReports(a: Driver, b: Driver, ra: Report, rb: Report)
    ensures Enumerated([a, b], [ra, rb]) == Pairs(DevicesOf(ra), a.id) + Pairs(DevicesOf(rb), b.id)
  {
    hide DevicesOf, Pairs;
    assert [a, b][..1] == [a] && [ra, rb][..1] == [ra] && [a][..0] == [] && [ra][..0] == [];
    assert Enumerated([a], [ra]) == [] + Pairs(DevicesOf(ra), a.id);
  }

  lemma DedupOne(f: Found)
    ensures Dedup([f]) == [f]
  {
    assert [f][..0] == [] && !Has([], f.handle);
    assert Dedup([f]) == Dedup([]) + [f];
  }

  /** So when only another driver reports the handle, a reused terminator is left with a driver that is gone. */
  lemma SharedHandleOrphans(t: Term, a: Driver, b: Driver, ra: Report, rb: Report)
    requires a.id == t.driver != b.id && DevicesOf(ra) == [] && DevicesOf(rb) == [t.handle]
    requires Counted([a, b], [ra, rb])
    ensures Collected(Dedup(Enumerated([a, b], [ra, rb])), [t], [t])
    ensures !Stays([a, b], t.driver)
  {
    hide DevicesOf, Busy, Enumerated, Dedup, Stays, Counted;
    var f := Found(t.handle, b.id);
    assert Enumerated([a, b], [ra, rb]) == [f] by {
      TwoReports(a, b, ra, rb);
    }
    DedupOne(f);
    assert [f][0] == f && Has([f], t.handle) && !Reported([a, b], [ra, rb], t.driver);
    TableKeepsDriversIff([a, b], [ra, rb], [t], [t]);
    assert t in [t];
  }

  method FindTerm(t: Term, ts: seq<Term>) returns (k: nat)
    ensures k <= |ts| && (k < |ts| <==> t in ts)
  {
    k := 0;
    while k < |ts| && ts[k] != t
      invariant k <= |ts| && t !in ts[..k]
    {
      k := k + 1;
    }
    assert k == |ts| ==> ts[..k] == ts;
  }

  lemma NothingCollected(before: seq<Term>)
    ensures Collected(Dedup([]), before, [])
  {
  }

  /** The same drivers, perhaps with other device counts. */
  ghost predicate SameDrivers(ds: seq<Driver>, was: seq<Driver>) {
    |ds| == |was| && forall i :: 0 <= i < |ds| ==> ds[i].id == was[i].id && ds[i].scanned == was[i].scanned
  }

  ghost predicate Counted(ds: seq<Driver>, reports: seq<Report>) {
    |ds| == |reports| && forall i :: 0 <= i < |ds| ==> ds[i].deviceCount == |DevicesOf(reports[i])|
  }
}
