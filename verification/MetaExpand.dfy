/**
  Activation: the two mutually recursive functions that flatten meta-layers into a target list and
  an expanded list, and the three ways an instance enters them.  There is no visited set here; the
  recursion ends because the available layers have a rank (see `MetaCycles.AcyclicAfterRemovals`).
*/
module MetaExpand {
  import opened Layers
  import opened MetaVerify
  import opened MetaShape
  import opened MetaPass

  datatype Outcome = Success | OutOfMemory | LayerNotPresent

  /** The two answers of the environment about a layer, and the two environment selections. */
  datatype Environment = Environment(
    available: Layer -> bool,     // loader_layer_is_available
    enabled: Layer -> bool,       // loader_implicit_layer_is_enabled
    deferred: Layer -> bool,      // named in VK_INSTANCE_LAYERS, so left to the environment step
    forced: Layer -> bool)        // matches the filter of VK_LOADER_LAYERS_ENABLE

  // ---------------------------------------------------------------- pointer lists

  const POINTER_SIZE: nat := 8

  /**
    `loader_pointer_layer_list`.  The capacity is in bytes, and the test for free space multiplies
    the count by the size of a layer record although the list stores pointers.
  */
  class PointerList {
    var items: seq<Layer>
    var capacity: nat
    var hasStorage: bool
    const layerSize: nat

    ghost predicate Valid()
      reads this
    {
      && layerSize >= POINTER_SIZE
      && (if hasStorage then capacity >= 32 * POINTER_SIZE && POINTER_SIZE * |items| <= capacity else items == [])
    }

    constructor (layerSize: nat)
      requires layerSize >= POINTER_SIZE
      ensures Valid() && items == [] && this.layerSize == layerSize
    {
      items, capacity, hasStorage, this.layerSize := [], 0, false, layerSize;
    }

    /** `loader_init_pointer_layer_list`. */
    method Init() returns (ok: bool)
      requires Valid() && !hasStorage
      modifies this
      ensures Valid() && items == old(items) && hasStorage == ok
    {
      ok := *;
      if ok {
        hasStorage, capacity := true, 32 * POINTER_SIZE;
      }
    }

    /** `loader_add_layer_properties_to_list`: the write always lands inside the allocation. */
    method Add(l: Layer) returns (r: Outcome)
      requires Valid()
      modifies this
      ensures Valid()
      ensures r == Success || r == OutOfMemory
      ensures items == if r == Success then old(items) + [l] else old(items)
    {
      if !hasStorage {
        var ok := Init();
        if !ok {
          return OutOfMemory;
        }
      }
      if (|items| + 1) * layerSize >= capacity {
        var ok: bool := *;
        if !ok {
          return OutOfMemory;
        }
        capacity := capacity * 2;
      } else {
        WrongSizeIsSafe(|items| + 1, layerSize, capacity);
      }
      assert POINTER_SIZE * (|items| + 1) <= capacity;
      items := items + [l];
      return Success;
    }
  }

  lemma WrongSizeIsSafe(count: nat, layerSize: nat, capacity: nat)
    requires layerSize >= POINTER_SIZE && count * layerSize < capacity
    ensures POINTER_SIZE * count <= capacity
  {
    assert count * POINTER_SIZE <= count * layerSize;
  }

  predicate Named(list: seq<Layer>, name: string) {
    exists i :: 0 <= i < |list| && list[i].name == name
  }

  /** `loader_find_layer_name_in_list`. */
  method FindName(name: string, list: seq<Layer>) returns (found: bool)
    ensures found == Named(list, name)
  {
    for i := 0 to |list|
      invariant forall j :: 0 <= j < i ==> list[j].name != name
    {
      if list[i].name == name {
        return true;
      }
    }
    return false;
  }

  // ---------------------------------------------------------------- the reference: walk, then merge

  datatype Lists = Lists(target: seq<Layer>, expanded: seq<Layer>)

  /** One visited layer: a meta-layer goes to the target list; a plain layer to both, once. */
  function Visit(s: Lists, l: Layer): Lists {
    if l.isMeta then s.(target := s.target + [l])
    else if Named(s.target, l.name) then s
    else Lists(s.target + [l], s.expanded + [l])
  }

  function Merge(s: Lists, visits: seq<Layer>): Lists
    decreases visits
  {
    if visits == [] then s else Merge(Visit(s, visits[0]), visits[1..])
  }

  lemma {:induction false} MergeSplit(s: Lists, a: seq<Layer>, b: seq<Layer>)
    ensures Merge(s, a + b) == Merge(Merge(s, a), b)
    decreases a
  {
    if a == [] {
      assert a + b == b;
    } else {
      MergeSplit(Visit(s, a[0]), a[1..], b);
      assert (a + b)[0] == a[0] && (a + b)[1..] == a[1..] + b;
    }
  }

  ghost function Level(rank: map<string, nat>, l: Layer): nat {
    if !l.isMeta then 0 else if l.name in rank then rank[l.name] + 1 else 1
  }

  ghost predicate Ready(source: seq<Layer>, rank: map<string, nat>, l: Layer) {
    Ranked(source, rank) && Has(source, l.name) && Get(source, l.name) == l
  }

  lemma ComponentIsLower(source: seq<Layer>, rank: map<string, nat>, m: Layer, k: nat)
    requires Ready(source, rank, m) && m.isMeta && k < |m.components| && Has(source, m.components[k])
    ensures Ready(source, rank, Get(source, m.components[k]))
    ensures Level(rank, Get(source, m.components[k])) < Level(rank, m)
  {
    var c := Get(source, m.components[k]);
    if c.isMeta {
      assert Slot(source, m.name, k, c.name);
    }
  }

  predicate AllFound(source: seq<Layer>, m: Layer) {
    forall k :: 0 <= k < |m.components| ==> Has(source, m.components[k])
  }

  /** The layers `loader_add_meta_layer` comes by, depth first, each meta-layer after its components. */
  ghost function Walk(source: seq<Layer>, rank: map<string, nat>, env: Environment, m: Layer): seq<Layer>
    requires Ready(source, rank, m) && m.isMeta
    decreases Level(rank, m), 1, 0
  {
    WalkFrom(source, rank, env, m, 0) + (if AllFound(source, m) then [m] else [])
  }

  ghost function WalkFrom(source: seq<Layer>, rank: map<string, nat>, env: Environment, m: Layer, k: nat): seq<Layer>
    requires Ready(source, rank, m) && m.isMeta && k <= |m.components|
    decreases Level(rank, m), 0, |m.components| - k
  {
    if k == |m.components| then []
    else WalkSlot(source, rank, env, m, k) + WalkFrom(source, rank, env, m, k + 1)
  }

  ghost function WalkSlot(source: seq<Layer>, rank: map<string, nat>, env: Environment, m: Layer, k: nat): seq<Layer>
    requires Ready(source, rank, m) && m.isMeta && k < |m.components|
    decreases Level(rank, m), 0, |m.components| - k, 0
  {
    if !Has(source, m.components[k]) then []
    else
      ComponentIsLower(source, rank, m, k);
      var c := Get(source, m.components[k]);
      if !env.available(c) then []
      else if !c.isExplicit then WalkImplicit(source, rank, env, c)
      else WalkOne(source, rank, env, c)
  }

  ghost function WalkOne(source: seq<Layer>, rank: map<string, nat>, env: Environment, l: Layer): seq<Layer>
    requires Ready(source, rank, l)
    decreases Level(rank, l), 2
  {
    if l.isMeta then Walk(source, rank, env, l) else [l]
  }

  ghost function WalkImplicit(source: seq<Layer>, rank: map<string, nat>, env: Environment, l: Layer): seq<Layer>
    requires Ready(source, rank, l)
    decreases Level(rank, l), 3
  {
    if env.enabled(l) then WalkOne(source, rank, env, l) else []
  }

  // ---------------------------------------------------------------- the recursion of the loader

  /** The pair of lists every activation function writes. */
  class Activation {
    var target: PointerList
    var expanded: PointerList

    ghost predicate Valid()
      reads this, target, expanded
    {
      target != expanded && target.Valid() && expanded.Valid()
    }

    ghost function Now(): Lists
      reads this, target, expanded
    {
      Lists(target.items, expanded.items)
    }

    constructor (layerSize: nat)
      requires layerSize >= POINTER_SIZE
      ensures Valid() && Now() == Lists([], []) && fresh(target) && fresh(expanded)
    {
      target := new PointerList(layerSize);
      expanded := new PointerList(layerSize);
    }

    /** A layer that is no meta-layer, checked against the target list and added to both lists. */
    method AddPlain(l: Layer) returns (r: Outcome)
      requires Valid() && !l.isMeta
      modifies target, expanded
      ensures Valid() && (r == Success || r == OutOfMemory)
      ensures r == Success ==> Now() == Visit(old(Now()), l)
    {
      var present := FindName(l.name, target.items);
      if present {
        return Success;
      }
      r := target.Add(l);
      if r == OutOfMemory {
        return;
      }
      r := expanded.Add(l);
    }

    /** `loader_add_implicit_layer`. */
    method AddImplicit(source: seq<Layer>, ghost rank: map<string, nat>, env: Environment, l: Layer)
      returns (r: Outcome)
      requires Valid() && Ready(source, rank, l)
      modifies target, expanded
      ensures Valid() && (r == Success || r == OutOfMemory)
      ensures r == Success ==> Now() == Merge(old(Now()), WalkImplicit(source, rank, env, l))
      decreases Level(rank, l), 3
    {
      if !env.enabled(l) {
        return Success;
      }
      r := AddOne(source, rank, env, l);
    }

    method AddOne(source: seq<Layer>, ghost rank: map<string, nat>, env: Environment, l: Layer)
      returns (r: Outcome)
      requires Valid() && Ready(source, rank, l)
      modifies target, expanded
      ensures Valid() && (r == Success || r == OutOfMemory)
      ensures r == Success ==> Now() == Merge(old(Now()), WalkOne(source, rank, env, l))
      decreases Level(rank, l), 2
    {
      if l.isMeta {
        var found;
        r, found := AddMeta(source, rank, env, l);
      } else {
        assert Merge(Now(), [l]) == Visit(Now(), l);
        r := AddPlain(l);
      }
    }

    /**
      `loader_add_meta_layer`.  `allBelow` is the caller's flag: it starts out true and is written
      only to say true again, so a nested meta-layer never reports a missing component.
    */
    method AddMeta(source: seq<Layer>, ghost rank: map<string, nat>, env: Environment, m: Layer)
      returns (r: Outcome, allBelow: bool)
      requires Valid() && Ready(source, rank, m) && m.isMeta
      modifies target, expanded
      ensures Valid() && (r == Success || r == OutOfMemory) && allBelow
      ensures r == Success ==> Now() == Merge(old(Now()), Walk(source, rank, env, m))
      decreases Level(rank, m), 1, 0
    {
      allBelow := true;
      var foundAll;
      r, foundAll := AddSlots(source, rank, env, m);
      if r == OutOfMemory {
        return;
      }
      MergeSplit(old(Now()), WalkFrom(source, rank, env, m, 0), if foundAll then [m] else []);
      if foundAll {
        assert Merge(Now(), [m]) == Visit(Now(), m);
        r := target.Add(m);
        if r == OutOfMemory {
          return;
        }
        allBelow := foundAll;
      }
    }

    /** Its loop over the components. */
    method AddSlots(source: seq<Layer>, ghost rank: map<string, nat>, env: Environment, m: Layer)
      returns (r: Outcome, foundAll: bool)
      requires Valid() && Ready(source, rank, m) && m.isMeta
      modifies target, expanded
      ensures Valid() && (r == Success || r == OutOfMemory)
      ensures r == Success ==> foundAll == AllFound(source, m)
      ensures r == Success ==> Now() == Merge(old(Now()), WalkFrom(source, rank, env, m, 0))
      decreases Level(rank, m), 0, 1
    {
      r, foundAll := Success, true;
      var k := 0;
      while k < |m.components|
        invariant 0 <= k <= |m.components| && Valid() && r == Success
        invariant foundAll <==> forall j :: 0 <= j < k ==> Has(source, m.components[j])
        invariant Merge(Now(), WalkFrom(source, rank, env, m, k))
               == Merge(old(Now()), WalkFrom(source, rank, env, m, 0))
        decreases |m.components| - k
      {
        MergeSplit(Now(), WalkSlot(source, rank, env, m, k), WalkFrom(source, rank, env, m, k + 1));
        var present;
        r, present := AddSlot(source, rank, env, m, k);
        if r == OutOfMemory {
          return;
        }
        if !present {
          foundAll := false;
        }
        k := k + 1;
      }
    }

    /** One turn of its loop. */
    method AddSlot(source: seq<Layer>, ghost rank: map<string, nat>, env: Environment, m: Layer, k: nat)
      returns (r: Outcome, present: bool)
      requires Valid() && Ready(source, rank, m) && m.isMeta && k < |m.components|
      modifies target, expanded
      ensures Valid() && (r == Success || r == OutOfMemory)
      ensures r == Success ==> present == Has(source, m.components[k])
      ensures r == Success ==> Now() == Merge(old(Now()), WalkSlot(source, rank, env, m, k))
      decreases Level(rank, m), 0, 0
    {
      r, present := Success, false;
      var found := FindLayerProperty(m.components[k], source);
      if found.None? {
        return;
      }
      present := true;
      var c := source[found.value];
      ComponentIsLower(source, rank, m, k);
      if !env.available(c) {
        return;
      }
      if !c.isExplicit {
        r := AddImplicit(source, rank, env, c);
      } else if c.isMeta {
        var allBelow;
        r, allBelow := AddMeta(source, rank, env, c);
        if r == Success && !allBelow {
          present := false;
        }
      } else {
        assert Merge(Now(), [c]) == Visit(Now(), c);
        r := AddPlain(c);
      }
    }
  }
}
