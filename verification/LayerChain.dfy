/**
  The call chains of `loader_create_instance_chain` and `loader_create_device_chain`.  Link records are
  filled in from the last layer to the first; a layer that is called follows its record to the next one.
*/
module LayerChain {

  import opened Common

  /** A function pointer: one of the loader's own ends of the chain, or a layer's. */
  datatype Fn = InstanceTerminator | DeviceTerminator | PhysicalDeviceTerminator | At(address: nat)

  /** What a layer puts into a chain: its GetInstanceProcAddr, and its second function if it has one. */
  datatype Hook = Hook(gipa: Fn, second: Option<Fn>)

  /** `VkLayerInstanceLink` and `VkLayerDeviceLink`; `next` is a record number. */
  datatype Link = Link(next: Option<nat>, nextGipa: Fn, nextSecond: Fn)

  /** The layers from `i` on that get a record: hooked, and the last of their name that is. */
  ghost function Chosen(names: seq<string>, hooks: seq<Option<Hook>>, i: nat): (c: seq<nat>)
    requires |names| == |hooks| && i <= |names|
    ensures forall k :: 0 <= k < |c| ==> i <= c[k] < |names| && hooks[c[k]].Some?
    ensures forall k, l :: 0 <= k < l < |c| ==> c[k] < c[l] && names[c[k]] != names[c[l]]
    decreases |names| - i
  {
    if i == |names| then []
    else
      var rest := Chosen(names, hooks, i + 1);
      if hooks[i].None? || (exists k :: 0 <= k < |rest| && names[rest[k]] == names[i]) then rest else [i] + rest
  }

  /** A layer gets a record if and only if it is hooked and no later layer of its name is. */
  lemma {:induction false} ChosenIff(names: seq<string>, hooks: seq<Option<Hook>>, i: nat, j: nat)
    requires |names| == |hooks| && i <= j < |names|
    ensures j in Chosen(names, hooks, i) <==>
      hooks[j].Some? && forall l :: j < l < |names| && hooks[l].Some? ==> names[l] != names[j]
    decreases |names| - i
  {
    if i < j {
      ChosenIff(names, hooks, i + 1, j);
    } else {
      FrontIsChosenIff(names, hooks, i);
    }
  }

  lemma FrontIsChosenIff(names: seq<string>, hooks: seq<Option<Hook>>, i: nat)
    requires |names| == |hooks| && i < |names|
    ensures i in Chosen(names, hooks, i) <==>
      hooks[i].Some? && forall l :: i < l < |names| && hooks[l].Some? ==> names[l] != names[i]
  {
    var rest := Chosen(names, hooks, i + 1);
    var taken := exists k :: 0 <= k < |rest| && names[rest[k]] == names[i];
    assert i in Chosen(names, hooks, i) <==> hooks[i].Some? && !taken;
    hide Chosen;
    if taken {
      var k :| 0 <= k < |rest| && names[rest[k]] == names[i];
      assert hooks[rest[k]].Some?;
    } else if l :| i < l < |names| && hooks[l].Some? && names[l] == names[i] {
      SomeIsChosen(names, hooks, i + 1, l);
    }
  }

  /** The name of a hooked layer is the name of one that gets a record. */
  lemma {:induction false} SomeIsChosen(names: seq<string>, hooks: seq<Option<Hook>>, i: nat, j: nat)
    requires |names| == |hooks| && i <= j < |names| && hooks[j].Some?
    ensures exists k :: 0 <= k < |Chosen(names, hooks, i)| && names[Chosen(names, hooks, i)[k]] == names[j]
    decreases |names| - i
  {
    var c, rest := Chosen(names, hooks, i), Chosen(names, hooks, i + 1);
    if i < j {
      SomeIsChosen(names, hooks, i + 1, j);
      var k :| 0 <= k < |rest| && names[rest[k]] == names[j];
      assert c == rest || c == [i] + rest;
      hide Chosen;
      assert c[if c == rest then k else k + 1] == rest[k];
    } else if c != rest {
      assert c[0] == i;
    }
  }

  ghost predicate Indices(hooks: seq<Option<Hook>>, c: seq<nat>) {
    forall k :: 0 <= k < |c| ==> c[k] < |hooks| && hooks[c[k]].Some?
  }

  /** Where a call goes that is meant for the layers from position `m` on. */
  ghost function GipaFrom(hooks: seq<Option<Hook>>, c: seq<nat>, m: nat): Fn
    requires Indices(hooks, c)
  {
    if m < |c| then hooks[c[m]].value.gipa else InstanceTerminator
  }

  /** The second function of the nearest layer from position `m` on that supplies one. */
  ghost function SecondFrom(hooks: seq<Option<Hook>>, c: seq<nat>, m: nat, end: Fn): Fn
    requires Indices(hooks, c)
    decreases |c| - m
  {
    if m >= |c| then end
    else if hooks[c[m]].value.second.Some? then hooks[c[m]].value.second.value
    else SecondFrom(hooks, c, m + 1, end)
  }

  /** The nearest layer decides: the one at `k`, when those from `m` to it have no second function. */
  lemma {:induction false} SecondIsNearest(hooks: seq<Option<Hook>>, c: seq<nat>, m: nat, end: Fn, k: nat)
    requires Indices(hooks, c) && m <= k <= |c|
    requires forall l :: m <= l < k ==> hooks[c[l]].value.second.None?
    ensures k == |c| ==> SecondFrom(hooks, c, m, end) == end
    ensures k < |c| && hooks[c[k]].value.second.Some? ==>
      SecondFrom(hooks, c, m, end) == hooks[c[k]].value.second.value
    decreases k - m
  {
    if m < k {
      SecondIsNearest(hooks, c, m + 1, end, k);
    }
  }

  lemma {:induction false} SecondShifts(hooks: seq<Option<Hook>>, c: seq<nat>, m: nat, end: Fn, i: nat)
    requires Indices(hooks, c) && i < |hooks| && hooks[i].Some?
    ensures Indices(hooks, [i] + c) && SecondFrom(hooks, [i] + c, m + 1, end) == SecondFrom(hooks, c, m, end)
    decreases |c| - m
  {
    if m < |c| {
      SecondShifts(hooks, c, m + 1, end, i);
    }
  }

  /** Record number `j` points at the last `j` layers. */
  ghost predicate Fits(link: Link, j: nat, hooks: seq<Option<Hook>>, c: seq<nat>, end: Fn)
    requires Indices(hooks, c) && j <= |c|
  {
    && link.next == (if j == 0 then None else Some(j - 1))
    && link.nextGipa == GipaFrom(hooks, c, |c| - j)
    && link.nextSecond == SecondFrom(hooks, c, |c| - j, end)
  }

  /** Records for the layers `c` are in place, the last layer's first. */
  ghost predicate Filled(links: seq<Link>, hooks: seq<Option<Hook>>, c: seq<nat>, end: Fn) {
    && Indices(hooks, c) && |links| == |c|
    && forall j :: 0 <= j < |links| ==> Fits(links[j], j, hooks, c, end)
  }

  lemma FilledGrows(links: seq<Link>, hooks: seq<Option<Hook>>, c: seq<nat>, end: Fn, link: Link, i: nat)
    requires Filled(links, hooks, c, end) && i < |hooks| && hooks[i].Some? && Fits(link, |c|, hooks, c, end)
    ensures Filled(links + [link], hooks, [i] + c, end)
  {
    var more, longer := links + [link], [i] + c;
    assert Indices(hooks, longer);
    forall j | 0 <= j < |more| ensures Fits(more[j], j, hooks, longer, end) {
      SecondShifts(hooks, c, |c| - j, end, i);
      assert Fits(if j < |links| then links[j] else link, j, hooks, c, end);
    }
  }

  /** What a call passes through: record after record from the head. */
  ghost function Walk(links: seq<Link>, head: Option<nat>): seq<Link>
    requires forall j :: 0 <= j < |links| && links[j].next.Some? ==> links[j].next.value < j
    requires head.Some? ==> head.value < |links|
    decreases if head.Some? then head.value + 1 else 0
  {
    if head.None? then [] else [links[head.value]] + Walk(links, links[head.value].next)
  }

  ghost function Behind(links: seq<Link>): seq<Fn> {
    seq(|links|, k requires 0 <= k < |links| => links[k].nextGipa)
  }

  ghost function Gipas(hooks: seq<Option<Hook>>, c: seq<nat>): seq<Fn>
    requires Indices(hooks, c)
  {
    seq(|c|, k requires 0 <= k < |c| => hooks[c[k]].value.gipa)
  }

  lemma NextIsLower(links: seq<Link>, hooks: seq<Option<Hook>>, c: seq<nat>, end: Fn)
    requires Filled(links, hooks, c, end)
    ensures forall j :: 0 <= j < |links| && links[j].next.Some? ==> links[j].next.value < j
  {
    forall j | 0 <= j < |links| && links[j].next.Some? ensures links[j].next.value < j {
      assert Fits(links[j], j, hooks, c, end);
    }
  }

  /** From record `n - 1` on the walk visits the last `n` layers, first to last. */
  lemma {:induction false} WalkVisits(links: seq<Link>, hooks: seq<Option<Hook>>, c: seq<nat>, end: Fn, n: nat)
    requires Filled(links, hooks, c, end) && n <= |links|
    requires forall j :: 0 <= j < |links| && links[j].next.Some? ==> links[j].next.value < j
    ensures
      var w := Walk(links, if n == 0 then None else Some(n - 1));
      && |w| == n
      && forall k :: 0 <= k < n ==> w[k] == links[n - 1 - k]
  {
    if n > 0 {
      assert Fits(links[n - 1], n - 1, hooks, c, end);
      WalkVisits(links, hooks, c, end, n - 1);
    }
  }

  lemma ChainComposes(links: seq<Link>, hooks: seq<Option<Hook>>, c: seq<nat>, end: Fn, w: seq<Link>)
    requires Filled(links, hooks, c, end)
    requires |w| == |c| && forall k :: 0 <= k < |w| ==> w[k] == links[|c| - 1 - k]
    ensures [GipaFrom(hooks, c, 0)] + Behind(w) == Gipas(hooks, c) + [InstanceTerminator]
    ensures forall k :: 0 <= k < |w| ==> w[k].nextSecond == SecondFrom(hooks, c, k + 1, end)
  {
    forall k | 0 <= k < |w|
      ensures w[k].nextSecond == SecondFrom(hooks, c, k + 1, end) && w[k].nextGipa == GipaFrom(hooks, c, k + 1)
    {
      assert Fits(links[|c| - 1 - k], |c| - 1 - k, hooks, c, end);
    }
    var left, right := [GipaFrom(hooks, c, 0)] + Behind(w), Gipas(hooks, c) + [InstanceTerminator];
    forall k | 0 <= k < |left| ensures left[k] == right[k] {
      assert left[k] == GipaFrom(hooks, c, k);
    }
  }

  /** What a layer answers when it negotiates. */
  datatype Interface = Interface(version: nat, gipa: Option<Fn>, gdpa: Option<Fn>, gpdpa: Option<Fn>)

  datatype Library = Loaded | Unloadable | NoMemory

  /** A layer as it is found: its library, its negotiation if any, and what its library exports. */
  datatype Layer = Layer(
    name: string, library: Library, negotiated: Option<Interface>,
    namesGipa: bool, exportedGipa: Option<Fn>, namesGdpa: bool, exportedGdpa: Option<Fn>)

  /** The part of `loader_layer_properties` that chain building fills in. */
  datatype Functions = Functions(version: nat, gipa: Option<Fn>, gdpa: Option<Fn>, gpdpa: Option<Fn>)

  const NoFunctions := Functions(0, None, None, None)

  ghost function Names(layers: seq<Layer>): (r: seq<string>)
    ensures |r| == |layers| && forall i :: 0 <= i < |r| ==> r[i] == layers[i].name
  {
    seq(|layers|, i requires 0 <= i < |layers| => layers[i].name)
  }

  ghost predicate Modern(layer: Layer) {
    layer.negotiated.Some? && layer.negotiated.value.version > 1
  }

  /** What the layer contributes to the instance chain, whatever layers come before or after it. */
  ghost function InstanceHook(layer: Layer): Option<Hook> {
    var answered := Modern(layer) && layer.negotiated.value.gipa.Some?;
    var gipa := if answered then layer.negotiated.value.gipa else layer.exportedGipa;
    if layer.library != Loaded || gipa.None? then None
    else Some(Hook(gipa.value, if Modern(layer) then layer.negotiated.value.gpdpa else None))
  }

  ghost function InstanceHooks(layers: seq<Layer>): (r: seq<Option<Hook>>)
    ensures |r| == |layers| && forall i :: 0 <= i < |r| ==> r[i] == InstanceHook(layers[i])
  {
    seq(|layers|, i requires 0 <= i < |layers| => InstanceHook(layers[i]))
  }

  function DeviceGipa(layer: Layer, f: Functions): Option<Fn> {
    if layer.library != Loaded then None else if f.gipa.Some? then f.gipa else layer.exportedGipa
  }

  function DeviceGdpa(layer: Layer, f: Functions): Option<Fn> {
    if f.gdpa.Some? then f.gdpa else layer.exportedGdpa
  }

  ghost function DeviceHook(layer: Layer, f: Functions): Option<Hook> {
    if DeviceGipa(layer, f).None? || DeviceGdpa(layer, f).None? then None
    else Some(Hook(DeviceGipa(layer, f).value, DeviceGdpa(layer, f)))
  }

  ghost function DeviceHooks(layers: seq<Layer>, fs: seq<Functions>): (r: seq<Option<Hook>>)
    requires |layers| == |fs|
    ensures |r| == |layers| && forall i :: 0 <= i < |r| ==> r[i] == DeviceHook(layers[i], fs[i])
  {
    seq(|layers|, i requires 0 <= i < |layers| => DeviceHook(layers[i], fs[i]))
  }

  /** What is found out about a layer before it gets its record. */
  ghost function FoundOut(layer: Layer): Functions {
    var answered := Modern(layer) && layer.negotiated.value.gipa.Some?;
    Functions(
      if layer.negotiated.Some? then layer.negotiated.value.version else 0,
      if answered || layer.namesGipa then None else layer.exportedGipa, None, None)
  }

  /** What stays on record: all that was negotiated, or else only a function found under its usual name. */
  ghost function OnRecord(layer: Layer): Functions {
    var f := FoundOut(layer);
    if !Modern(layer) then f
    else
      var answer := layer.negotiated.value;
      f.(gipa := if answer.gipa.Some? then answer.gipa else layer.exportedGipa, gdpa := answer.gdpa,
         gpdpa := answer.gpdpa)
  }

  /** What is on record for a layer of the instance chain gives a device chain the same function. */
  ghost predicate Kept(layer: Layer, f: Functions) {
    && InstanceHook(layer).Some? && f == OnRecord(layer)
    && DeviceGipa(layer, f) == Some(InstanceHook(layer).value.gipa)
    && (InstanceHook(layer).value.second.Some? ==> f.gpdpa == InstanceHook(layer).value.second)
    && (Modern(layer) && layer.negotiated.value.gdpa.Some? ==> f.gdpa == layer.negotiated.value.gdpa)
  }

  /** A chain: its records, the first one, the functions to enter it by, and the names in it. */
  datatype Chain = Chain(links: seq<Link>, head: Option<nat>, entry: Fn, second: Fn, activated: seq<string>)

  /** The chain over the layers from `i` on is in place. */
  ghost predicate Finished(chain: Chain, names: seq<string>, hooks: seq<Option<Hook>>, i: nat, end: Fn) {
    |names| == |hooks| && i <= |names| && FinishedWith(chain, names, hooks, Chosen(names, hooks, i), end)
  }

  ghost predicate FinishedWith(chain: Chain, names: seq<string>, hooks: seq<Option<Hook>>, c: seq<nat>, end: Fn) {
    && |names| == |hooks| && Filled(chain.links, hooks, c, end)
    && chain.head == (if c == [] then None else Some(|c| - 1))
    && chain.entry == GipaFrom(hooks, c, 0) && chain.second == SecondFrom(hooks, c, 0, end)
    && |chain.activated| == |c| && forall k :: 0 <= k < |c| ==> chain.activated[|c| - 1 - k] == names[c[k]]
  }

  lemma BuildingStarts(names: seq<string>, hooks: seq<Option<Hook>>, end: Fn)
    requires |names| == |hooks|
    ensures Finished(Chain([], None, InstanceTerminator, end, []), names, hooks, |names|, end)
  {
  }

  lemma KnownIsChosen(chain: Chain, names: seq<string>, hooks: seq<Option<Hook>>, c: seq<nat>, end: Fn, name: string)
    requires FinishedWith(chain, names, hooks, c, end)
    ensures name in chain.activated <==> exists k :: 0 <= k < |c| && names[c[k]] == name
  {
    if name in chain.activated {
      var j :| 0 <= j < |chain.activated| && chain.activated[j] == name;
      assert names[c[|c| - 1 - j]] == name;
    }
    forall k | 0 <= k < |c| && names[c[k]] == name ensures name in chain.activated {
      assert chain.activated[|c| - 1 - k] == name;
    }
  }

  lemma Skipped(chain: Chain, names: seq<string>, hooks: seq<Option<Hook>>, i: nat, end: Fn)
    requires i < |names| && Finished(chain, names, hooks, i + 1, end)
    requires hooks[i].None? || names[i] in chain.activated
    ensures Finished(chain, names, hooks, i, end)
    ensures i !in Chosen(names, hooks, i)
  {
    KnownIsChosen(chain, names, hooks, Chosen(names, hooks, i + 1), end, names[i]);
    hide FinishedWith;
    assert Chosen(names, hooks, i) == Chosen(names, hooks, i + 1);
  }

  lemma AddedInFront(chain: Chain, names: seq<string>, hooks: seq<Option<Hook>>, i: nat, end: Fn)
    requires i < |names| && Finished(chain, names, hooks, i + 1, end)
    requires hooks[i].Some? && names[i] !in chain.activated
    ensures
      var hook := hooks[i].value;
      var longer := Chain(
        chain.links + [Link(chain.head, chain.entry, chain.second)], Some(|chain.links|), hook.gipa,
        if hook.second.Some? then hook.second.value else chain.second, chain.activated + [names[i]]);
      Finished(longer, names, hooks, i, end)
  {
    var c := Chosen(names, hooks, i + 1);
    KnownIsChosen(chain, names, hooks, c, end, names[i]);
    assert Chosen(names, hooks, i) == [i] + c;
    hide Chosen;
    AddedToIndices(chain, names, hooks, c, i, end);
  }

  lemma AddedToIndices(chain: Chain, names: seq<string>, hooks: seq<Option<Hook>>, c: seq<nat>, i: nat, end: Fn)
    requires FinishedWith(chain, names, hooks, c, end) && i < |names| && hooks[i].Some?
    ensures
      var hook := hooks[i].value;
      var longer := Chain(
        chain.links + [Link(chain.head, chain.entry, chain.second)], Some(|chain.links|), hook.gipa,
        if hook.second.Some? then hook.second.value else chain.second, chain.activated + [names[i]]);
      FinishedWith(longer, names, hooks, [i] + c, end)
  {
    var link, longer := Link(chain.head, chain.entry, chain.second), [i] + c;
    FilledGrows(chain.links, hooks, c, end, link, i);
    SecondShifts(hooks, c, 0, end, i);
    assert |chain.links| == |c|;
    hide Filled;
  }

  /** `loader_names_array_has_layer_property`. */
  method HasName(activated: seq<string>, name: string) returns (found: bool)
    ensures found == (name in activated)
  {
    for j := 0 to |activated|
      invariant name !in activated[..j]
    {
      if activated[j] == name {
        return true;
      }
    }
    assert activated[..|activated|] == activated;
    return false;
  }

  /** The functions of one layer, taken from its negotiation or its library; `f` is what is on record. */
  method Resolve(layer: Layer, f: Functions, gipa0: Option<Fn>, gdpa0: Option<Fn>, gpdpa0: Option<Fn>)
    returns (usable: bool, g: Functions, gipa: Option<Fn>, gdpa: Option<Fn>, gpdpa: Option<Fn>)
    requires f == NoFunctions && layer.library != NoMemory
    ensures usable == InstanceHook(layer).Some?
    ensures usable ==> gipa == Some(InstanceHook(layer).value.gipa)
    ensures usable && g.version > 1 ==> gpdpa == InstanceHook(layer).value.second
    ensures usable && g.version <= 1 ==> InstanceHook(layer).value.second.None?
    ensures Resolved(layer, g, gipa, gdpa)
  {
    g, gipa, gdpa, gpdpa := f, gipa0, gdpa0, gpdpa0;
    if layer.library != Loaded {
      return false, g, gipa, gdpa, gpdpa;
    }
    var inInterface := false;
    if layer.negotiated.Some? {
      var answer := layer.negotiated.value;
      g := g.(version := answer.version);
      if answer.version > 1 {
        gipa, gdpa, gpdpa := answer.gipa, answer.gdpa, answer.gpdpa;
        inInterface := gipa.Some?;
      }
    }
    if !inInterface {
      gipa := g.gipa;
      if gipa.None? {
        gipa := layer.exportedGipa;
        if !layer.namesGipa {
          g := g.(gipa := gipa);
        }
      }
    }
    usable := gipa.Some?;
  }

  ghost predicate Resolved(layer: Layer, g: Functions, gipa: Option<Fn>, gdpa: Option<Fn>) {
    && (layer.library == Loaded ==> g == FoundOut(layer) && (g.version > 1 <==> Modern(layer)))
    && (g.gipa.Some? ==> g.gipa == gipa)
    && (layer.library == Loaded && Modern(layer) ==> gdpa == layer.negotiated.value.gdpa)
    && (layer.library == Loaded && !Modern(layer) ==> gipa == layer.exportedGipa)
  }

  /** What is put on record for later device creation. */
  function Store(layer: Layer, f: Functions, gipa: Option<Fn>, gdpa: Option<Fn>, gpdpa: Option<Fn>): (g: Functions)
    ensures
      && Resolved(layer, f, gipa, gdpa) && InstanceHook(layer).Some? && gipa == Some(InstanceHook(layer).value.gipa)
      && (if f.version > 1 then gpdpa == InstanceHook(layer).value.second else InstanceHook(layer).value.second.None?)
      ==> Kept(layer, g)
  {
    if f.version > 1 then
      f.(gpdpa := if gpdpa.Some? then gpdpa else f.gpdpa, gipa := if gipa.Some? then gipa else f.gipa,
         gdpa := if gdpa.Some? then gdpa else f.gdpa)
    else f
  }

  /** Every layer of the chain from `i` on has its functions on record. */
  ghost predicate AllKept(layers: seq<Layer>, fs: seq<Functions>, i: nat)
    requires |layers| == |fs| && i <= |layers|
  {
    forall k :: 0 <= k < |fs| && k in Chosen(Names(layers), InstanceHooks(layers), i) ==> Kept(layers[k], fs[k])
  }

  lemma AllKeptStep(layers: seq<Layer>, fs: seq<Functions>, i: nat, f: Functions)
    requires |layers| == |fs| && i < |layers| && AllKept(layers, fs, i + 1)
    requires i in Chosen(Names(layers), InstanceHooks(layers), i) ==> Kept(layers[i], f)
    ensures AllKept(layers, fs[i := f], i)
  {
    hide Kept;
  }

  /** One turn of the loop; false when memory runs out.  `cur` is left over from the turn before. */
  method Consider(layers: seq<Layer>, i: nat, f: Functions, chain: Chain, cur: Functions)
    returns (ok: bool, g: Functions, longer: Chain, left: Functions)
    requires i < |layers| && f == NoFunctions
    requires Finished(chain, Names(layers), InstanceHooks(layers), i + 1, PhysicalDeviceTerminator)
    ensures ok ==> Finished(longer, Names(layers), InstanceHooks(layers), i, PhysicalDeviceTerminator)
    ensures ok && i in Chosen(Names(layers), InstanceHooks(layers), i) ==> Kept(layers[i], g)
  {
    hide Finished, FinishedWith, InstanceHook, Kept, Resolved;
    ghost var names, hooks := Names(layers), InstanceHooks(layers);
    assert names[i] == layers[i].name && hooks[i] == InstanceHook(layers[i]);
    var layer := layers[i];
    ok, g, longer, left := true, f, chain, cur;
    var known := HasName(chain.activated, layer.name);
    if !known && layer.library == NoMemory {
      return false, g, longer, left;
    }
    var usable, gipa, gdpa, gpdpa := false, cur.gipa, cur.gdpa, cur.gpdpa;
    if !known {
      usable, g, gipa, gdpa, gpdpa := Resolve(layer, f, gipa, gdpa, gpdpa);
      left := Functions(0, gipa, gdpa, gpdpa);
    }
    if !usable {
      Skipped(chain, names, hooks, i, PhysicalDeviceTerminator);
    } else {
      AddedInFront(chain, names, hooks, i, PhysicalDeviceTerminator);
      hide Chosen;
      longer := Chain(
        chain.links + [Link(chain.head, chain.entry, chain.second)], Some(|chain.links|), gipa.value,
        if g.version > 1 && gpdpa.Some? then gpdpa.value else chain.second, chain.activated + [layer.name]);
      g := Store(layer, g, gipa, gdpa, gpdpa);
      ok := *;
    }
  }

  /**
    The chain loop of `loader_create_instance_chain`; none when memory runs out.  The pointers of the
    layer at hand are kept in variables that outlive it, and still no layer gets another one's.
  */
  method BuildInstanceChain(layers: seq<Layer>, functions: array<Functions>) returns (chain: Option<Chain>)
    requires functions.Length == |layers| && forall i :: 0 <= i < |layers| ==> functions[i] == NoFunctions
    modifies functions
    ensures chain.Some? ==> Finished(chain.value, Names(layers), InstanceHooks(layers), 0, PhysicalDeviceTerminator)
    ensures chain.Some? ==> AllKept(layers, functions[..], 0)
  {
    ghost var names, hooks := Names(layers), InstanceHooks(layers);
    var cur := Functions(0, Some(InstanceTerminator), Some(DeviceTerminator), Some(PhysicalDeviceTerminator));
    var built := Chain([], None, InstanceTerminator, PhysicalDeviceTerminator, []);
    BuildingStarts(names, hooks, PhysicalDeviceTerminator);
    var i: nat := |layers|;
    while i > 0
      invariant i <= |layers| && forall k :: 0 <= k < i ==> functions[k] == NoFunctions
      invariant Finished(built, names, hooks, i, PhysicalDeviceTerminator)
      invariant AllKept(layers, functions[..], i)
    {
      hide Finished, AllKept, Kept;
      i := i - 1;
      ghost var before := functions[..];
      var ok, f;
      ok, f, built, cur := Consider(layers, i, functions[i], built, cur);
      if !ok {
        return None;
      }
      functions[i] := f;
      assert functions[..] == before[i := f];
      AllKeptStep(layers, before, i, f);
    }
    chain := Some(built);
  }

  /**
    A call that enters a finished chain passes through every chosen layer in list order and ends in the
    terminator, and each layer's second function is the nearest one below it.
  */
  lemma CallsPassThroughAll(chain: Chain, names: seq<string>, hooks: seq<Option<Hook>>, i: nat, end: Fn)
    requires Finished(chain, names, hooks, i, end)
    ensures forall j :: 0 <= j < |chain.links| && chain.links[j].next.Some? ==> chain.links[j].next.value < j
    ensures
      var c := Chosen(names, hooks, i);
      var w := Walk(chain.links, chain.head);
      && [chain.entry] + Behind(w) == Gipas(hooks, c) + [InstanceTerminator]
      && |w| == |c| && forall k :: 0 <= k < |w| ==> w[k].nextSecond == SecondFrom(hooks, c, k + 1, end)
  {
    var c := Chosen(names, hooks, i);
    hide Chosen;
    NextIsLower(chain.links, hooks, c, end);
    WalkVisits(chain.links, hooks, c, end, |c|);
    ChainComposes(chain.links, hooks, c, end, Walk(chain.links, chain.head));
  }

  /** Looking a function up in the library may put it on record, which changes nothing later. */
  function Cached(layer: Layer, f: Functions): (g: Functions)
    ensures DeviceGipa(layer, g) == DeviceGipa(layer, f) && DeviceGdpa(layer, g) == DeviceGdpa(layer, f)
  {
    if layer.library != Loaded then f
    else f.(gipa := if f.gipa.None? && !layer.namesGipa then layer.exportedGipa else f.gipa)
  }

  function CachedGdpa(layer: Layer, f: Functions): (g: Functions)
    ensures DeviceGipa(layer, g) == DeviceGipa(layer, f) && DeviceGdpa(layer, g) == DeviceGdpa(layer, f)
  {
    f.(gdpa := if f.gdpa.None? && !layer.namesGdpa then layer.exportedGdpa else f.gdpa)
  }

  datatype Turn = Next | Stop

  /** Nothing of a layer's functions changes but that a function looked up under its usual name is kept. */
  ghost predicate OnlyCached(layer: Layer, was: Functions, f: Functions) {
    && f.version == was.version && f.gpdpa == was.gpdpa
    && (f.gipa == was.gipa || (was.gipa.None? && !layer.namesGipa && f.gipa == layer.exportedGipa))
    && (f.gdpa == was.gdpa || (was.gdpa.None? && !layer.namesGdpa && f.gdpa == layer.exportedGdpa))
  }

  /** From `i` on nothing but that has happened to the layers' functions, and nothing at all before. */
  ghost predicate AllCached(layers: seq<Layer>, was: seq<Functions>, fs: seq<Functions>, i: nat) {
    && |layers| == |was| == |fs|
    && (forall k :: 0 <= k < |fs| && k < i ==> fs[k] == was[k])
    && forall k :: i <= k < |fs| ==> OnlyCached(layers[k], was[k], fs[k])
  }

  lemma FirstUntouched(layers: seq<Layer>, was: seq<Functions>, fs: seq<Functions>, i: nat)
    requires AllCached(layers, was, fs, i) && 0 < i <= |fs|
    ensures |was| == |fs| && fs[i - 1] == was[i - 1]
  {
  }

  lemma CachedStep(layers: seq<Layer>, was: seq<Functions>, fs: seq<Functions>, i: nat, f: Functions)
    requires AllCached(layers, was, fs, i + 1) && i < |fs| == |was| == |layers| && OnlyCached(layers[i], was[i], f)
    ensures AllCached(layers, was, fs[i := f], i)
  {
    hide OnlyCached;
  }

  /** Both functions of a layer that were looked up under their usual names are kept. */
  ghost predicate FullyCached(layer: Layer, f: Functions) {
    && (!layer.namesGipa && layer.exportedGipa.Some? ==> f.gipa.Some?)
    && (!layer.namesGdpa && layer.exportedGdpa.Some? ==> f.gdpa.Some?)
  }

  /** One turn of the device loop. */
  method ConsiderForDevice(
    layers: seq<Layer>, ghost fs: seq<Functions>, i: nat, f: Functions, chain: Chain, calling: Option<Fn>)
    returns (turn: Turn, g: Functions, longer: Chain)
    requires |fs| == |layers| && i < |layers| && f == fs[i]
    requires Finished(chain, Names(layers), DeviceHooks(layers, fs), i + 1, DeviceTerminator)
    ensures DeviceHook(layers[i], g) == DeviceHook(layers[i], f)
    ensures OnlyCached(layers[i], f, g) && (longer != chain ==> FullyCached(layers[i], g))
    ensures turn == Next ==> longer == chain || longer.activated == chain.activated + [layers[i].name]
    ensures turn == Next ==> Finished(longer, Names(layers), DeviceHooks(layers, fs), i, DeviceTerminator)
    ensures turn == Next ==> chain.activated <= longer.activated
    ensures turn == Next && calling.Some? && DeviceGipa(layers[i], f) == calling ==> layers[i].name in chain.activated
    ensures turn == Next && calling.Some? && DeviceGipa(layers[i], f) == calling ==> longer == chain
    ensures turn == Stop ==> longer == chain && calling.Some? && DeviceGipa(layers[i], f) == calling
  {
    hide Finished, Chosen;
    ghost var names, hooks := Names(layers), DeviceHooks(layers, fs);
    assert names[i] == layers[i].name && hooks[i] == DeviceHook(layers[i], f);
    turn, g, longer := Next, f, chain;
    var layer := layers[i];
    var known := HasName(chain.activated, layer.name);
    if known || layer.library != Loaded {
      Skipped(chain, names, hooks, i, DeviceTerminator);
      return;
    }
    var gipa := DeviceGipa(layer, f);
    g := Cached(layer, f);
    if gipa.None? {
      Skipped(chain, names, hooks, i, DeviceTerminator);
      return;
    }
    if gipa == calling {
      return Stop, g, longer;
    }
    var gdpa := DeviceGdpa(layer, g);
    g := CachedGdpa(layer, g);
    if gdpa.None? {
      Skipped(chain, names, hooks, i, DeviceTerminator);
      return;
    }
    AddedInFront(chain, names, hooks, i, DeviceTerminator);
    longer := Chain(
      chain.links + [Link(chain.head, chain.entry, chain.second)], Some(|chain.links|), gipa.value, gdpa.value,
      chain.activated + [layer.name]);
  }

  lemma HooksUnchanged(layers: seq<Layer>, fs: seq<Functions>, i: nat, f: Functions)
    requires |layers| == |fs| && i < |layers| && DeviceHook(layers[i], f) == DeviceHook(layers[i], fs[i])
    ensures DeviceHooks(layers, fs[i := f]) == DeviceHooks(layers, fs)
  {
  }

  /** A layer from `i` on that has the calling function has the name of one in the chain. */
  ghost predicate Shadowed(layers: seq<Layer>, fs: seq<Functions>, i: nat, calling: Option<Fn>, activated: seq<string>)
    requires |layers| == |fs|
  {
    calling.Some? ==>
      forall j :: i <= j < |layers| && DeviceGipa(layers[j], fs[j]) == calling ==> layers[j].name in activated
  }

  lemma ShadowedStep(
    layers: seq<Layer>, fs: seq<Functions>, i: nat, calling: Option<Fn>, before: seq<string>, after: seq<string>)
    requires |layers| == |fs| && i < |layers| && Shadowed(layers, fs, i + 1, calling, before) && before <= after
    requires calling.Some? && DeviceGipa(layers[i], fs[i]) == calling ==> layers[i].name in before
    ensures Shadowed(layers, fs, i, calling, after)
  {
    hide DeviceGipa;
    assert forall name <- before :: name in after;
  }

  /**
    The chain loop of `loader_create_device_chain`.  When a layer creates the device, the chain holds
    only the layers below it: the loop stops at `stop - 1`, the calling layer, and reports the function
    below; every later layer with the calling function was shadowed by one of the same name.
  */
  method BuildDeviceChain(layers: seq<Layer>, functions: array<Functions>, calling: Option<Fn>)
    returns (chain: Chain, layerNext: Option<Fn>, stop: nat)
    requires functions.Length == |layers|
    modifies functions
    ensures DeviceHooks(layers, functions[..]) == DeviceHooks(layers, old(functions[..]))
    ensures stop <= |layers|
    ensures AllCached(layers, old(functions[..]), functions[..], if stop == 0 then 0 else stop - 1)
    ensures Finished(chain, Names(layers), DeviceHooks(layers, old(functions[..])), stop, DeviceTerminator)
    ensures stop == 0 ==> layerNext == None
    ensures stop > 0 ==>
      && layerNext == Some(chain.second) && calling.Some?
      && DeviceGipa(layers[stop - 1], old(functions[..])[stop - 1]) == calling
    ensures Shadowed(layers, old(functions[..]), stop, calling, chain.activated)
  {
    ghost var fs := functions[..];
    chain, layerNext := Chain([], None, InstanceTerminator, DeviceTerminator, []), None;
    BuildingStarts(Names(layers), DeviceHooks(layers, fs), DeviceTerminator);
    assert Shadowed(layers, fs, |layers|, calling, []) && AllCached(layers, fs, fs, |layers|);
    hide Finished, DeviceHook, DeviceHooks, DeviceGipa, Shadowed, AllCached;
    stop := |layers|;
    while stop > 0
      invariant stop <= |layers| && layerNext == None
      invariant AllCached(layers, fs, functions[..], stop)
      invariant DeviceHooks(layers, functions[..]) == DeviceHooks(layers, fs)
      invariant Finished(chain, Names(layers), DeviceHooks(layers, fs), stop, DeviceTerminator)
      invariant Shadowed(layers, fs, stop, calling, chain.activated)
    {
      var i := stop - 1;
      FirstUntouched(layers, fs, functions[..], stop);
      var turn, f, longer := ConsiderForDevice(layers, fs, i, functions[i], chain, calling);
      HooksUnchanged(layers, functions[..], i, f);
      ghost var before := functions[..];
      functions[i] := f;
      assert functions[..] == before[i := f];
      CachedStep(layers, fs, before, i, f);
      if turn == Stop {
        layerNext := Some(chain.second);
        break;
      }
      ShadowedStep(layers, fs, i, calling, chain.activated, longer.activated);
      chain, stop := longer, i;
    }
  }

  /** The check that every layer the application asked for by name is in the chain. */
  method CheckRequested(layers: seq<Layer>, chain: Chain, requested: seq<string>) returns (ok: bool)
    ensures ok <==> forall i :: 0 <= i < |layers| && layers[i].name in requested ==> layers[i].name in chain.activated
  {
    for i := 0 to |layers|
      invariant forall k :: 0 <= k < i && layers[k].name in requested ==> layers[k].name in chain.activated
    {
      var found := HasName(chain.activated, layers[i].name);
      if !found {
        var asked := HasName(requested, layers[i].name);
        if asked {
          return false;
        }
      }
    }
    return true;
  }
}
