/**
  Debug messengers: `terminator_CreateDebugUtilsMessengerEXT` and its inverse.  A messenger is a box
  that holds a slot number; each driver keeps the handles it gave out in an array indexed by slot.
*/
module Messengers {

  import opened Common
  import DebugList

  const InitialCapacity: nat := 32

  type Handle = nat   // 0 is VK_NULL_HANDLE

  /** The part of `loader_icd_term` that matters; an empty `handles` is an array not made yet. */
  datatype Driver = Driver(creates: bool, destroys: bool, handles: seq<Handle>)

  ghost predicate IsLowestFree(taken: seq<bool>, slot: nat) {
    && (forall i :: 0 <= i < slot && i < |taken| ==> taken[i])
    && slot <= |taken|
    && (slot < |taken| ==> !taken[slot])
  }

  /** Every slot below `slot` is held by a messenger, and `slot` by none. */
  ghost predicate LowestFree(boxes: map<Handle, nat>, slot: nat) {
    && (forall m <- boxes :: boxes[m] != slot)
    && (slot > 0 ==> exists m :: m in boxes && boxes[m] == slot - 1)
  }

  /** Driver number `d` has room for every messenger, and still holds what it gave for each. */
  ghost predicate DriverValid(driver: Driver, d: nat, boxes: map<Handle, nat>, given: map<Handle, seq<Handle>>) {
    && (driver.handles == [] || |driver.handles| >= InitialCapacity)
    && (forall m <- boxes :: m in given && Holds(driver, d, boxes[m], given[m]))
  }

  ghost predicate DriversValid(drivers: seq<Driver>, boxes: map<Handle, nat>, given: map<Handle, seq<Handle>>) {
    && given.Keys == boxes.Keys
    && forall d :: 0 <= d < |drivers| ==> DriverValid(drivers[d], d, boxes, given)
  }

  lemma DriversLearn(drivers: seq<Driver>, boxes: map<Handle, nat>, given: map<Handle, seq<Handle>>,
                     box: Handle, slot: nat, handed: seq<Handle>)
    requires DriversValid(drivers, boxes, given) && box !in boxes
    requires forall d :: 0 <= d < |drivers| ==> Holds(drivers[d], d, slot, handed)
    ensures DriversValid(drivers, boxes[box := slot], given[box := handed])
  {
    hide Holds;
  }

  lemma DriversForget(drivers: seq<Driver>, boxes: map<Handle, nat>, given: map<Handle, seq<Handle>>, box: Handle)
    requires DriversValid(drivers, boxes, given)
    ensures DriversValid(drivers, boxes - {box}, given - {box})
  {
    hide Holds;
  }

  ghost predicate Holds(driver: Driver, d: nat, slot: nat, handed: seq<Handle>) {
    && d < |handed| && slot < |driver.handles|
    && (driver.creates ==> driver.handles[slot] == handed[d])
  }

  ghost predicate SameFunctions(driver: Driver, was: Driver) {
    driver.creates == was.creates && driver.destroys == was.destroys
  }

  /** A slot is taken when a messenger holds it, and no two hold the same. */
  ghost predicate SlotsValid(taken: seq<bool>, boxes: map<Handle, nat>) {
    && (taken == [] || |taken| >= InitialCapacity)
    && (forall m <- boxes :: boxes[m] < |taken| && taken[boxes[m]])
    && (forall m, n :: m in boxes && n in boxes && m != n ==> boxes[m] != boxes[n])
    && (forall i :: 0 <= i < |taken| && taken[i] ==> exists m :: m in boxes && boxes[m] == i)
  }

  /** The list after `slot` was found in it. */
  ghost predicate Found(taken: seq<bool>, was: seq<bool>, slot: nat) {
    && IsLowestFree(was, slot)
    && slot < |taken| && InitialCapacity <= |taken| && |was| <= |taken|
    && forall i :: 0 <= i < |taken| ==> taken[i] == (i == slot || (i < |was| && was[i]))
  }

  lemma FoundIsLowest(boxes: map<Handle, nat>, slot: nat, was: seq<bool>)
    requires SlotsValid(was, boxes) && IsLowestFree(was, slot)
    ensures LowestFree(boxes, slot)
  {
    if slot > 0 {
      assert was[slot - 1];
    }
  }

  lemma FoundThenHeld(taken: seq<bool>, was: seq<bool>, boxes: map<Handle, nat>, slot: nat, box: Handle)
    requires SlotsValid(was, boxes) && Found(taken, was, slot) && box !in boxes
    ensures SlotsValid(taken, boxes[box := slot])
  {
    var more := boxes[box := slot];
    forall i | 0 <= i < |taken| && taken[i] ensures exists m :: m in more && more[m] == i {
      if i == slot {
        assert more[box] == i;
      } else {
        var m :| m in boxes && boxes[m] == i;
        assert more[m] == i;
      }
    }
  }

  lemma FoundThenReleased(taken: seq<bool>, was: seq<bool>, boxes: map<Handle, nat>, slot: nat)
    requires SlotsValid(was, boxes) && Found(taken, was, slot)
    ensures SlotsValid(taken[slot := false], boxes)
  {
  }

  lemma ReleasedIsFree(taken: seq<bool>, boxes: map<Handle, nat>, box: Handle)
    requires SlotsValid(taken, boxes) && box in boxes
    ensures SlotsValid(taken[boxes[box] := false], boxes - {box})
  {
    var fewer, after := boxes - {box}, taken[boxes[box] := false];
    forall i | 0 <= i < |after| && after[i] ensures exists m :: m in fewer && fewer[m] == i {
      var m :| m in boxes && boxes[m] == i;
      assert fewer[m] == i;
    }
  }

  class Instance {
    var taken: seq<bool>           // debug_utils_messengers_list; empty when not made yet
    var drivers: seq<Driver>
    var boxes: map<Handle, nat>    // the messengers alive, and the slot each holds
    ghost var given: map<Handle, seq<Handle>>   // what each driver returned for a messenger
    const callbacks: DebugList.CallbackList

    ghost predicate Valid()
      reads this
    {
      && SlotsValid(taken, boxes)
      && DriversValid(drivers, boxes, given)
    }

    constructor (drivers: seq<Driver>, callbacks: DebugList.CallbackList)
      requires forall d <- drivers :: d.handles == []
      ensures Valid() && this.drivers == drivers && boxes == map[] && this.callbacks == callbacks
    {
      taken, boxes, given := [], map[], map[];
      this.drivers, this.callbacks := drivers, callbacks;
    }

    /** `loader_get_next_available_entry`: the lowest free slot, in a list doubled when it is full. */
    method NextSlot() returns (slot: Option<nat>)
      requires SlotsValid(taken, boxes)
      modifies this`taken
      ensures slot.None? ==> taken == old(taken)
      ensures slot.Some? ==> Found(taken, old(taken), slot.value)
      ensures var was := |old(taken)|;
              slot.Some? ==> |taken| == if was == 0 then 32 else if slot.value == was then 2 * was else was
    {
      if taken == [] {
        var room: bool := *;
        if !room {
          return None;
        }
        taken := seq(InitialCapacity, _ => false);
      }
      var i := 0;
      while i < |taken|
        invariant taken == if old(taken) == [] then seq(InitialCapacity, _ => false) else old(taken)
        invariant i <= |taken| && forall j :: 0 <= j < i ==> taken[j]
        invariant old(taken) == [] ==> i == 0
      {
        if !taken[i] {
          taken := taken[i := true];
          return Some(i);
        }
        i := i + 1;
      }
      var room: bool := *;
      if !room {
        return None;
      }
      taken := taken + seq(|taken|, _ => false);
      taken := taken[i := true];
      return Some(i);
    }

    /** `loader_release_object_from_list` without its allocation callbacks. */
    method Release(slot: nat)
      modifies this`taken
      ensures taken == if slot < |old(taken)| then old(taken)[slot := false] else old(taken)
    {
      if slot < |taken| {
        taken := taken[slot := false];
      }
    }

    /** Makes or doubles the array of one driver: one doubling is always enough. */
    method Prepare(d: nat, slot: nat) returns (ok: bool)
      requires d < |drivers| && DriverValid(drivers[d], d, boxes, given) && LowestFree(boxes, slot)
      modifies this`drivers
      ensures |drivers| == |old(drivers)| && DriverValid(drivers[d], d, boxes, given)
      ensures ok ==> slot < |drivers[d].handles|
      ensures var was := old(drivers)[d].handles;
              ok ==> |drivers[d].handles| == if was == [] then 32 else if |was| <= slot then 2 * |was| else |was|
      ensures SameFunctions(drivers[d], old(drivers)[d])
      ensures forall e :: 0 <= e < |drivers| && e != d ==> drivers[e] == old(drivers)[e]
    {
      ok := true;
      var driver := drivers[d];
      var handles := driver.handles;
      if handles == [] {
        ok := *;
        if ok {
          drivers := drivers[d := driver.(handles := seq(InitialCapacity, _ => 0))];
        }
      } else if |handles| <= slot {
        ok := *;
        if ok {
          var more: seq<Handle> := *;
          more := seq(|handles|, i => if 0 <= i < |more| then more[i] else 0);
          drivers := drivers[d := driver.(handles := handles + more)];
        }
      }
    }

    /** The driver's create function stores a handle of its choice in the array. */
    method CallCreate(d: nat, slot: nat) returns (ok: bool, ghost handle: Handle)
      requires d < |drivers| && DriverValid(drivers[d], d, boxes, given) && LowestFree(boxes, slot)
      requires slot < |drivers[d].handles|
      modifies this`drivers
      ensures |drivers| == |old(drivers)| && DriverValid(drivers[d], d, boxes, given)
      ensures slot < |drivers[d].handles| && (drivers[d].creates ==> drivers[d].handles[slot] == handle)
      ensures SameFunctions(drivers[d], old(drivers)[d])
      ensures forall e :: 0 <= e < |drivers| && e != d ==> drivers[e] == old(drivers)[e]
    {
      ok, handle := true, 0;
      var driver := drivers[d];
      if driver.creates {
        ok := *;
        var made: Handle := *;
        handle := made;
        drivers := drivers[d := driver.(handles := driver.handles[slot := made])];
      }
    }

    /** The loop over the drivers. */
    method CreateInDrivers(slot: nat) returns (ok: bool, ghost handed: seq<Handle>)
      requires LowestFree(boxes, slot) && DriversValid(drivers, boxes, given)
      modifies this`drivers
      ensures |drivers| == |old(drivers)| && DriversValid(drivers, boxes, given)
      ensures ok ==> forall d :: 0 <= d < |drivers| ==> Holds(drivers[d], d, slot, handed)
      ensures forall d :: 0 <= d < |drivers| ==>
        SameFunctions(drivers[d], old(drivers)[d])
    {
      var d := 0;
      handed := [];
      while d < |drivers|
        invariant d <= |drivers| == |old(drivers)| && |handed| == d
        invariant forall e :: 0 <= e < |drivers| ==> DriverValid(drivers[e], e, boxes, given)
        invariant forall e :: 0 <= e < d ==> Holds(drivers[e], e, slot, handed)
        invariant forall e :: 0 <= e < |drivers| ==>
          SameFunctions(drivers[e], old(drivers)[e])
      {
        ok := Prepare(d, slot);
        if !ok {
          return;
        }
        ghost var handle;
        ok, handle := CallCreate(d, slot);
        if !ok {
          return;
        }
        handed := handed + [handle];
        d := d + 1;
      }
      ok := true;
    }

    /**
      `terminator_CreateDebugUtilsMessengerEXT`; `box` is what the allocator returns for the box.  The
      messenger gets the lowest free slot, and a failing call leaves no slot taken.
    */
    method Create(box: Option<Handle>) returns (messenger: Option<Handle>)
      requires Valid() && callbacks.Valid()
      requires box.Some? ==> box.value !in boxes
      modifies this, callbacks
      ensures Valid() && callbacks.Valid()
      ensures messenger.None? ==> boxes == old(boxes) && given == old(given)
      ensures messenger.None? ==> callbacks.Abstract() == old(callbacks.Abstract())
      ensures messenger.Some? ==>
        && messenger == box && box.value in boxes && box.value in given
        && boxes == old(boxes)[box.value := boxes[box.value]] && given == old(given)[box.value := given[box.value]]
        && IsLowestFree(old(taken), boxes[box.value])
      ensures messenger.Some? ==>
        callbacks.Abstract()
        == DebugList.Apply(old(callbacks.Abstract()), DebugList.Create(DebugList.Messenger(box.value)))
    {
      hide DebugList.CallbackList.Valid, DebugList.CallbackList.Abstract, DebugList.Apply, SlotsValid, DriversValid;
      if box.None? {
        return None;
      }
      var slot := NextSlot();
      if slot.None? {
        return None;
      }
      messenger := CreateIn(slot.value, box.value, old(taken));
    }

    /** The rest of the creation, once a slot has been found. */
    method CreateIn(slot: nat, box: Handle, ghost was: seq<bool>) returns (messenger: Option<Handle>)
      requires SlotsValid(was, boxes) && Found(taken, was, slot)
      requires DriversValid(drivers, boxes, given) && callbacks.Valid()
      requires box !in boxes
      modifies this, callbacks
      ensures Valid() && callbacks.Valid()
      ensures messenger.None? ==> boxes == old(boxes) && given == old(given)
      ensures messenger.None? ==> callbacks.Abstract() == old(callbacks.Abstract())
      ensures messenger.Some? ==>
        && messenger.value == box && box in given
        && boxes == old(boxes)[box := slot] && given == old(given)[box := given[box]]
      ensures messenger.Some? ==>
        callbacks.Abstract() == DebugList.Apply(old(callbacks.Abstract()), DebugList.Create(DebugList.Messenger(box)))
    {
      hide DebugList.CallbackList.Valid, DebugList.CallbackList.Abstract, DebugList.Apply;
      FoundIsLowest(boxes, slot, was);
      FoundThenReleased(taken, was, boxes, slot);
      FoundThenHeld(taken, was, boxes, slot, box);
      hide SlotsValid, IsLowestFree, LowestFree, Holds, DriversValid;
      var ok, handed := CreateInDrivers(slot);
      if ok {
        DriversLearn(drivers, boxes, given, box, slot, handed);
        ok := callbacks.Push(DebugList.Messenger(box));
      }
      if !ok {
        Release(slot);
        return None;
      }
      boxes := boxes[box := slot];
      given := given[box := handed];
      return Some(box);
    }

    /** The loop over the drivers; an array not made yet is not looked at. */
    method CallDestroy(slot: nat, ghost m: Handle) returns (calls: seq<Option<Handle>>)
      requires Valid() && m in boxes && slot == boxes[m]
      ensures |calls| == |drivers| && m in given
      ensures forall d :: 0 <= d < |drivers| && drivers[d].creates ==>
        d < |given[m]| && calls[d] == if drivers[d].destroys && given[m][d] != 0 then Some(given[m][d]) else None
      ensures forall d :: 0 <= d < |drivers| && !drivers[d].destroys ==> calls[d] == None
    {
      hide SlotsValid;
      calls := [];
      while |calls| < |drivers|
        invariant |calls| <= |drivers|
        invariant forall d :: 0 <= d < |calls| && drivers[d].creates ==>
          d < |given[m]| && calls[d] == if drivers[d].destroys && given[m][d] != 0 then Some(given[m][d]) else None
        invariant forall d :: 0 <= d < |calls| && !drivers[d].destroys ==> calls[d] == None
      {
        var driver := drivers[|calls|];
        assert Holds(driver, |calls|, slot, given[m]);
        var handle := if driver.handles == [] then 0 else driver.handles[slot];
        calls := calls + [if driver.destroys && handle != 0 then Some(handle) else None];
      }
    }

    /**
      `terminator_DestroyDebugUtilsMessengerEXT`: every driver is handed the very handle it gave when
      the messenger was created, and the slot is free again.
    */
    method Destroy(messenger: Option<Handle>) returns (calls: seq<Option<Handle>>)
      requires Valid() && callbacks.Valid()
      requires messenger.Some? ==> messenger.value in boxes
      modifies this, callbacks, callbacks.front, callbacks.base
      ensures Valid() && callbacks.Valid()
      ensures drivers == old(drivers)
      ensures messenger.None? ==>
        calls == [] && boxes == old(boxes) && taken == old(taken) && callbacks.Abstract() == old(callbacks.Abstract())
      ensures messenger.Some? ==>
        && boxes == old(boxes) - {messenger.value}
        && taken == old(taken)[old(boxes)[messenger.value] := false]
        && callbacks.Abstract()
           == DebugList.Apply(old(callbacks.Abstract()), DebugList.Destroy(DebugList.Messenger(messenger.value)))
        && |calls| == |drivers|
        && (forall d :: 0 <= d < |drivers| && !drivers[d].destroys ==> calls[d] == None)
        && messenger.value in old(given)
        && forall d :: 0 <= d < |drivers| && drivers[d].creates ==>
          var handles := old(given)[messenger.value];
          d < |handles| &&
            calls[d] == if drivers[d].destroys && handles[d] != 0 then Some(handles[d]) else None
    {
      calls := [];
      if messenger.Some? {
        calls := DestroyLive(messenger.value);
      }
    }

    method DestroyLive(m: Handle) returns (calls: seq<Option<Handle>>)
      requires Valid() && callbacks.Valid() && m in boxes
      modifies this, callbacks, callbacks.front, callbacks.base
      ensures Valid() && callbacks.Valid() && drivers == old(drivers)
      ensures boxes == old(boxes) - {m} && taken == old(taken)[old(boxes)[m] := false]
      ensures callbacks.Abstract()
           == DebugList.Apply(old(callbacks.Abstract()), DebugList.Destroy(DebugList.Messenger(m)))
      ensures |calls| == |drivers| && m in old(given)
      ensures forall d :: 0 <= d < |drivers| && !drivers[d].destroys ==> calls[d] == None
      ensures forall d :: 0 <= d < |drivers| && drivers[d].creates ==>
        var handles := old(given)[m];
        d < |handles| && calls[d] == if drivers[d].destroys && handles[d] != 0 then Some(handles[d]) else None
    {
      hide DebugList.CallbackList.Valid, DebugList.CallbackList.Abstract, DebugList.Apply;
      var slot := boxes[m];
      calls := CallDestroy(slot, m);
      assert slot < |taken|;
      ReleasedIsFree(taken, boxes, m);
      DriversForget(drivers, boxes, given, m);
      hide SlotsValid, Holds, DriversValid;
      var _ := callbacks.Step(DebugList.Destroy(DebugList.Messenger(m)));
      Release(slot);
      boxes := boxes - {m};
      given := given - {m};
    }
  }
}
