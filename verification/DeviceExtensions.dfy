/** `terminator_EnumerateDeviceExtensionProperties`, asked for a count and asked to fill a buffer. */
module DeviceExtensions {

  datatype Extension = Extension(name: string, version: nat)

  datatype LayerExtensions = LayerExtensions(explicit_: bool, extensions: seq<Extension>)

  datatype Outcome = Success | Incomplete | NoMemory | DriverError

  /** A driver that always has the same extensions, or always fails. */
  datatype Driver = Works(extensions: seq<Extension>) | Breaks

  predicate HasName(list: seq<Extension>, e: Extension) {
    exists i :: 0 <= i < |list| && list[i].name == e.name
  }

  ghost function Add(list: seq<Extension>, e: Extension): seq<Extension> {
    if HasName(list, e) then list else list + [e]
  }

  ghost function AddAll(list: seq<Extension>, more: seq<Extension>): (r: seq<Extension>)
    ensures list <= r
    decreases |more|
  {
    if more == [] then list else AddAll(Add(list, more[0]), more[1..])
  }

  /** The driver's extensions, and those of the implicit layers that are not there yet. */
  ghost function WithLayers(list: seq<Extension>, layers: seq<LayerExtensions>): (r: seq<Extension>)
    ensures list <= r
    decreases |layers|
  {
    if layers == [] then list
    else WithLayers(if layers[0].explicit_ then list else AddAll(list, layers[0].extensions), layers[1..])
  }

  /** The driver, asked to fill a buffer. */
  method AskDriver(driver: Driver, buffer: array<Extension>) returns (r: Outcome, n: nat)
    modifies buffer
    ensures n <= buffer.Length
    ensures driver.Breaks? ==> r == DriverError && buffer[..] == old(buffer[..])
    ensures driver.Works? ==> r == if buffer.Length < |driver.extensions| then Incomplete else Success
    ensures driver.Works? ==> n == if buffer.Length < |driver.extensions| then buffer.Length else |driver.extensions|
    ensures driver.Works? ==> buffer[..n] == driver.extensions[..n]
  {
    n := 0;
    if driver.Breaks? {
      return DriverError, n;
    }
    while n < buffer.Length && n < |driver.extensions|
      invariant n <= buffer.Length && n <= |driver.extensions| && buffer[..n] == driver.extensions[..n]
    {
      buffer[n] := driver.extensions[n];
      n := n + 1;
    }
    r := if n < |driver.extensions| then Incomplete else Success;
  }

  /** `has_vk_extension_property_array`. */
  method Has(list: seq<Extension>, e: Extension) returns (found: bool)
    ensures found == HasName(list, e)
  {
    var i := 0;
    while i < |list|
      invariant i <= |list| && forall k :: 0 <= k < i ==> list[k].name != e.name
    {
      if list[i].name == e.name {
        return true;
      }
      i := i + 1;
    }
    return false;
  }

  lemma AddAllStep(list: seq<Extension>, more: seq<Extension>, j: nat)
    requires j < |more|
    ensures AddAll(list, more[j..]) == AddAll(Add(list, more[j]), more[j + 1..])
  {
    assert more[j..][1..] == more[j + 1..];
  }

  lemma LayerStep(list: seq<Extension>, layers: seq<LayerExtensions>, i: nat)
    requires i < |layers|
    ensures WithLayers(list, layers[i..])
         == WithLayers(if layers[i].explicit_ then list else AddAll(list, layers[i].extensions), layers[i + 1..])
  {
    assert layers[i..][1..] == layers[i + 1..];
  }

  /** The extensions of one layer go into the buffer, from `written` on. */
  method FillLayer(more: seq<Extension>, buffer: array<Extension>, from: nat) returns (r: Outcome, written: nat)
    requires from <= buffer.Length
    modifies buffer
    ensures r == Success || r == Incomplete
    ensures r == Success ==> written <= buffer.Length && buffer[..written] == AddAll(old(buffer[..from]), more)
    ensures r == Incomplete ==>
      |AddAll(old(buffer[..from]), more)| > buffer.Length && buffer[..] <= AddAll(old(buffer[..from]), more)
  {
    hide HasName, AddAll;
    ghost var list := buffer[..from];
    written := from;
    var j := 0;
    assert more[0..] == more;
    while j < |more|
      invariant j <= |more| && from <= written <= buffer.Length
      invariant AddAll(buffer[..written], more[j..]) == AddAll(list, more)
    {
      AddAllStep(buffer[..written], more, j);
      var known := Has(buffer[..written], more[j]);
      if !known {
        if buffer.Length <= written {
          assert buffer[..written] == buffer[..];
          return Incomplete, written;
        }
        ghost var before := buffer[..written];
        buffer[written] := more[j];
        assert buffer[..written + 1] == before + [more[j]];
        written := written + 1;
      }
      j := j + 1;
    }
    assert more[j..] == [];
    NothingToAdd(buffer[..written]);
    return Success, written;
  }

  lemma NothingToAdd(list: seq<Extension>)
    ensures AddAll(list, []) == list
  {
  }

  /**
    The form that fills a buffer: it is incomplete exactly when the buffer is too small for all, and
    then the buffer is full of as many as fit.  An error of the driver is handed up.
  */
  method Fill(driver: Driver, layers: seq<LayerExtensions>, buffer: array<Extension>) returns (r: Outcome, count: nat)
    modifies buffer
    ensures driver.Breaks? ==> r == DriverError && count == buffer.Length && buffer[..] == old(buffer[..])
    ensures driver.Works? ==>
      var all := WithLayers(driver.extensions, layers);
      && r == (if buffer.Length < |all| then Incomplete else Success)
      && count == (if r == Success then |all| else buffer.Length)
      && buffer[..count] == all[..count]
  {
    hide AddAll;
    count := buffer.Length;
    var written: nat;
    r, written := AskDriver(driver, buffer);
    if r != Success {
      if driver.Works? {
        Extends(buffer[..count], driver.extensions, layers);
      }
      return;
    }
    ghost var extensions := driver.extensions;
    assert extensions[..written] == extensions;
    var i := 0;
    assert layers[0..] == layers;
    while i < |layers|
      invariant i <= |layers| && written <= buffer.Length && count == buffer.Length && r == Success
      invariant WithLayers(buffer[..written], layers[i..]) == WithLayers(extensions, layers)
    {
      LayerStep(buffer[..written], layers, i);
      if !layers[i].explicit_ {
        ghost var after := AddAll(buffer[..written], layers[i].extensions);
        r, written := FillLayer(layers[i].extensions, buffer, written);
        if r != Success {
          assert after <= WithLayers(extensions, layers);
          assert buffer[..count] == buffer[..];
          return;
        }
      }
      i := i + 1;
    }
    count := written;
  }

  lemma Extends(prefix: seq<Extension>, extensions: seq<Extension>, layers: seq<LayerExtensions>)
    requires prefix <= extensions && |prefix| < |extensions|
    ensures |WithLayers(extensions, layers)| > |prefix| && prefix <= WithLayers(extensions, layers)
  {
  }

  /** `loader_add_to_ext_list` for one extension; the list never holds more than its capacity. */
  method AddToList(list: seq<Extension>, capacity: nat, e: Extension)
    returns (ok: bool, longer: seq<Extension>, size: nat)
    requires |list| <= capacity && capacity > 0
    ensures ok ==> longer == Add(list, e) && |longer| <= size && size >= capacity
  {
    ok, longer, size := true, list, capacity;
    var known := Has(list, e);
    if known {
      return;
    }
    if |list| >= capacity {
      ok := *;
      if !ok {
        return;
      }
      size := capacity * 2;
    }
    assert |list| < size;
    longer := list + [e];
  }

  /** The form that only counts: it reports how many there are without duplicates. */
  method Count(driver: Driver, layers: seq<LayerExtensions>) returns (r: Outcome, count: nat)
    ensures driver.Breaks? ==> r == DriverError
    ensures driver.Works? ==> r == Success || r == NoMemory
    ensures r == Success ==> driver.Works? && count == |WithLayers(driver.extensions, layers)|
  {
    count := 0;
    if driver.Breaks? {
      return DriverError, count;
    }
    var extensions := driver.extensions;
    count := |extensions|;
    var capacity := |extensions| + 20;
    var room: bool := *;
    if !room {
      return NoMemory, count;
    }
    var list := extensions;
    var i := 0;
    assert layers[0..] == layers;
    while i < |layers|
      invariant i <= |layers| && |list| <= capacity && capacity > 0
      invariant WithLayers(list, layers[i..]) == WithLayers(extensions, layers)
    {
      LayerStep(list, layers, i);
      if !layers[i].explicit_ {
        var more, j := layers[i].extensions, 0;
        ghost var after := AddAll(list, more);
        assert more[0..] == more;
        while j < |more|
          invariant j <= |more| && |list| <= capacity && capacity > 0
          invariant AddAll(list, more[j..]) == after
        {
          AddAllStep(list, more, j);
          var ok;
          ok, list, capacity := AddToList(list, capacity, more[j]);
          if !ok {
            return NoMemory, count;
          }
          j := j + 1;
        }
      }
      i := i + 1;
    }
    return Success, |list|;
  }

  /** The two forms agree: a buffer of the reported size is filled exactly. */
  method CountThenFill(driver: Driver, layers: seq<LayerExtensions>) returns (r: Outcome, all: seq<Extension>)
    ensures driver.Works? ==> r == Success || r == NoMemory
    ensures r == Success ==> driver.Works? && all == WithLayers(driver.extensions, layers)
  {
    all := [];
    var n;
    r, n := Count(driver, layers);
    if r == Success {
      var buffer := new Extension[n](_ => Extension("", 0));
      r, n := Fill(driver, layers, buffer);
      all := buffer[..];
    }
  }

  ghost predicate NoNameTwice(list: seq<Extension>) {
    forall i, j :: 0 <= i < j < |list| ==> list[i].name != list[j].name
  }

  lemma {:induction false} AddAllKeepsDistinct(list: seq<Extension>, more: seq<Extension>)
    requires NoNameTwice(list)
    ensures NoNameTwice(AddAll(list, more))
    ensures forall e :: HasName(AddAll(list, more), e) <==> HasName(list, e) || HasName(more, e)
    decreases |more|
  {
    if more != [] {
      var next := Add(list, more[0]);
      AddAllKeepsDistinct(next, more[1..]);
      forall e ensures HasName(next, e) || HasName(more[1..], e) <==> HasName(list, e) || HasName(more, e) {
        HasEither(list, more, next, e);
      }
    }
  }

  lemma HasEither(list: seq<Extension>, more: seq<Extension>, next: seq<Extension>, e: Extension)
    requires more != [] && next == Add(list, more[0])
    ensures HasName(next, e) || HasName(more[1..], e) <==> HasName(list, e) || HasName(more, e)
  {
    if HasName(list, e) {
      var i :| 0 <= i < |list| && list[i].name == e.name;
      assert next[i].name == e.name;
    }
    if HasName(more, e) {
      var i :| 0 <= i < |more| && more[i].name == e.name;
      if i > 0 {
        assert more[1..][i - 1].name == e.name;
      } else if HasName(list, more[0]) {
        var k :| 0 <= k < |list| && list[k].name == more[0].name;
        assert next[k].name == e.name;
      } else {
        assert next[|list|].name == e.name;
      }
    }
    if HasName(more[1..], e) {
      var i :| 0 <= i < |more| - 1 && more[1..][i].name == e.name;
      assert more[i + 1].name == e.name;
    }
    if HasName(next, e) {
      var i :| 0 <= i < |next| && next[i].name == e.name;
      assert i < |list| ==> list[i].name == e.name;
    }
  }

  /** The driver's extensions come first, and each layer's behind those of the layers before it. */
  lemma {:induction false} LayersInOrder(list: seq<Extension>, layers: seq<LayerExtensions>, k: nat)
    requires k <= |layers|
    ensures list <= WithLayers(list, layers[..k]) <= WithLayers(list, layers)
    decreases |layers|
  {
    if layers != [] {
      var next := if layers[0].explicit_ then list else AddAll(list, layers[0].extensions);
      hide AddAll;
      if k > 0 {
        assert layers[..k][1..] == layers[1..][..k - 1];
        LayersInOrder(next, layers[1..], k - 1);
      } else {
        LayersInOrder(next, layers[1..], 0);
      }
    }
  }

  /** With a driver that names nothing twice, no name is reported twice, and every name is that is there. */
  lemma {:induction false} NothingTwice(list: seq<Extension>, layers: seq<LayerExtensions>)
    requires NoNameTwice(list)
    ensures NoNameTwice(WithLayers(list, layers))
    ensures forall e :: HasName(WithLayers(list, layers), e) <==>
      HasName(list, e) || exists i :: 0 <= i < |layers| && !layers[i].explicit_ && HasName(layers[i].extensions, e)
    decreases |layers|
  {
    if layers != [] {
      var rest := layers[1..];
      var next := if layers[0].explicit_ then list else AddAll(list, layers[0].extensions);
      AddAllKeepsDistinct(list, layers[0].extensions);
      NothingTwice(next, rest);
      forall e ensures HasName(WithLayers(list, layers), e) <==>
        HasName(list, e) || exists i :: 0 <= i < |layers| && !layers[i].explicit_ && HasName(layers[i].extensions, e)
      {
        if i :| 0 <= i < |rest| && !rest[i].explicit_ && HasName(rest[i].extensions, e) {
          assert layers[i + 1] == rest[i];
        }
        if i :| 0 <= i < |layers| && !layers[i].explicit_ && HasName(layers[i].extensions, e) {
          assert i > 0 ==> rest[i - 1] == layers[i];
        }
      }
    }
  }
}
