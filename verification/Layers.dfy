/** The layer records of the loader and the lookups every other layer operation uses. */
module Layers {
  import opened Common

  /** `loader_api_version`; `loader_make_version` always sets the patch field to 0. */
  datatype ApiVersion = ApiVersion(major: nat, minor: nat, patch: nat)

  /** The fields of `loader_layer_properties` that decide verification and activation. */
  datatype Layer = Layer(
    name: string,
    isMeta: bool,
    isExplicit: bool,
    isOverride: bool,
    version: ApiVersion,
    components: seq<string>)

  predicate MeetsRequired(required: ApiVersion, version: ApiVersion) {
    || version.major > required.major
    || (version.major == required.major && version.minor > required.minor)
    || (version.major == required.major && version.minor == required.minor && version.patch >= required.patch)
  }

  /** With fields of sixteen bits, versions are compared like the numbers with these digits. */
  lemma VersionsCompareAsNumbers(required: ApiVersion, version: ApiVersion)
    requires required.minor < 0x10000 && required.patch < 0x10000
    requires version.minor < 0x10000 && version.patch < 0x10000
    ensures MeetsRequired(required, version) <==>
      (required.major * 0x10000 + required.minor) * 0x10000 + required.patch
      <= (version.major * 0x10000 + version.minor) * 0x10000 + version.patch
  {
  }

  /** A total order, whatever the width of the fields. */
  lemma VersionsAreOrdered(a: ApiVersion, b: ApiVersion, c: ApiVersion)
    ensures MeetsRequired(a, a)
    ensures MeetsRequired(a, b) || MeetsRequired(b, a)
    ensures MeetsRequired(a, b) && MeetsRequired(b, a) ==> a == b
    ensures MeetsRequired(a, b) && MeetsRequired(b, c) ==> MeetsRequired(a, c)
  {
  }

  /** The higher field decides, and a version is no worse for a higher field. */
  lemma HigherFieldDecides(required: ApiVersion, version: ApiVersion, better: ApiVersion)
    ensures version.major > required.major ==> MeetsRequired(required, version)
    ensures version.major < required.major ==> !MeetsRequired(required, version)
    ensures version.major == required.major && version.minor > required.minor ==> MeetsRequired(required, version)
    ensures version.major == required.major && version.minor < required.minor ==> !MeetsRequired(required, version)
    ensures (better.major >= version.major && better.minor >= version.minor && better.patch >= version.patch)
      ==> MeetsRequired(required, version) ==> MeetsRequired(required, better)
  {
  }

  ghost predicate DistinctNames(list: seq<Layer>) {
    forall i, j :: 0 <= i < j < |list| ==> list[i].name != list[j].name
  }

  ghost function Names(list: seq<Layer>): set<string> {
    set i | 0 <= i < |list| :: list[i].name
  }

  /** Index of the first entry with the given name, or `|list|` when there is none. */
  function First(list: seq<Layer>, name: string): (i: nat)
    ensures i <= |list|
    ensures i < |list| ==> list[i].name == name
    ensures forall j :: 0 <= j < i ==> list[j].name != name
  {
    if list == [] || list[0].name == name then 0 else
      var i := First(list[1..], name);
      assert forall j :: 1 <= j < i + 1 ==> list[j] == list[1..][j - 1];
      i + 1
  }

  /** Index of the last entry with the given name, or `|list|` when there is none. */
  function Last(list: seq<Layer>, name: string): (i: nat)
    ensures i <= |list|
    ensures i < |list| ==> list[i].name == name
    ensures forall j :: 0 <= j < |list| && (i == |list| || i < j) ==> list[j].name != name
  {
    if list == [] then 0
    else if list[|list| - 1].name == name then |list| - 1
    else
      var front := list[..|list| - 1];
      var i := Last(front, name);
      assert forall j :: 0 <= j < |front| ==> front[j] == list[j];
      if i == |front| then |list| else i
  }

  /** `loader_find_layer_property`: a linear search that stops at the first match. */
  method FindLayerProperty(name: string, list: seq<Layer>) returns (found: Option<nat>)
    ensures found == if First(list, name) < |list| then Some(First(list, name)) else None
  {
    var i := 0;
    while i < |list|
      invariant 0 <= i <= |list|
      invariant forall j :: 0 <= j < i ==> list[j].name != name
    {
      if list[i].name == name {
        return Some(i);
      }
      i := i + 1;
    }
    return None;
  }

  /** The verifier's own index search keeps going after a match, so it yields the last one. */
  method FindLastIndex(name: string, list: seq<Layer>) returns (index: nat)
    ensures index == Last(list, name)
  {
    index := |list|;
    var i := 0;
    while i < |list|
      invariant 0 <= i <= |list|
      invariant index == |list| || (index < i && list[index].name == name)
      invariant forall j :: 0 <= j < i && (index == |list| || index < j) ==> list[j].name != name
    {
      if list[i].name == name {
        index := i;
      }
      i := i + 1;
    }
  }

  lemma FirstIsTheOne(list: seq<Layer>, i: nat)
    requires DistinctNames(list) && i < |list|
    ensures First(list, list[i].name) == i == Last(list, list[i].name)
  {
  }

  /** No meta-layer shares its name with another entry; other layers may. */
  ghost predicate MetasAlone(list: seq<Layer>) {
    forall i, j :: 0 <= i < j < |list| && list[i].name == list[j].name ==> !list[i].isMeta && !list[j].isMeta
  }

  lemma AloneIsTheOne(list: seq<Layer>, i: nat)
    requires MetasAlone(list) && i < |list| && list[i].isMeta
    ensures First(list, list[i].name) == i == Last(list, list[i].name)
  {
  }

  function RemoveAt(list: seq<Layer>, i: nat): seq<Layer>
    requires i < |list|
  {
    list[..i] + list[i + 1..]
  }

  /** `loader_layer_list`: the available layers, edited in place. */
  class LayerList {
    var list: seq<Layer>

    constructor (layers: seq<Layer>)
      ensures list == layers
    {
      list := layers;
    }

    /** `loader_remove_layer_in_list`: an index at or past the count is ignored. */
    method Remove(i: nat)
      modifies this
      ensures list == if i < |old(list)| then RemoveAt(old(list), i) else old(list)
    {
      if i >= |list| {
        return;
      }
      var j := i;
      while j + 1 < |list|
        invariant i <= j < |list| == |old(list)|
        invariant forall k :: 0 <= k < |list| ==> list[k] == old(list)[if i <= k < j then k + 1 else k]
      {
        list := list[j := list[j + 1]];
        j := j + 1;
      }
      list := list[..|list| - 1];
    }
  }
}
