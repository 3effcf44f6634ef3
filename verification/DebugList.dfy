/**
  The list of debug callbacks.  It has two heads: the current one, and the one of the callbacks that
  only serve instance creation and destruction, whose nodes are hung behind the others while the
  instance is being created or destroyed and are off the list in between.
*/
module DebugList {

  /** What a node answers to: the handle of a messenger or of a report callback. */
  datatype Key = Messenger(handle: nat) | Report(handle: nat)

  /** `VkLayerDbgFunctionNode`. */
  class Node {
    const key: Key
    var next: Node?

    constructor (key: Key, next: Node?)
      ensures this.key == key && this.next == next
    {
      this.key, this.next := key, next;
    }
  }

  /** The nodes follow each other, and `end` follows the last one. */
  ghost predicate Linked(nodes: seq<Node>, end: Node?)
    reads nodes
  {
    forall i :: 0 <= i < |nodes| ==> nodes[i].next == At(nodes, i + 1, end)
  }

  ghost function At(nodes: seq<Node>, i: nat, end: Node?): Node? {
    if i < |nodes| then nodes[i] else end
  }

  ghost predicate NoRepeats(nodes: seq<Node>) {
    forall i, j :: 0 <= i < j < |nodes| ==> nodes[i] != nodes[j]
  }

  ghost function Head(nodes: seq<Node>, end: Node?): Node? {
    if nodes == [] then end else nodes[0]
  }

  ghost function FirstWith(nodes: seq<Node>, key: Key): (i: nat)
    ensures i <= |nodes| && (i < |nodes| ==> nodes[i].key == key)
    ensures forall j :: 0 <= j < i ==> nodes[j].key != key
  {
    if nodes == [] || nodes[0].key == key then 0
    else
      var i := FirstWith(nodes[1..], key);
      assert forall j :: 1 <= j < i + 1 ==> nodes[j] == nodes[1..][j - 1];
      i + 1
  }

  lemma FirstIs(nodes: seq<Node>, key: Key, k: nat)
    requires k <= |nodes| && (k < |nodes| ==> nodes[k].key == key)
    requires forall j :: 0 <= j < k ==> nodes[j].key != key
    ensures k == FirstWith(nodes, key)
  {
  }

  ghost function Drop<T>(items: seq<T>, i: nat): seq<T> {
    if i < |items| then items[..i] + items[i + 1..] else items
  }

  lemma NoRepeatsParts(front: seq<Node>, base: seq<Node>)
    requires NoRepeats(front + base)
    ensures NoRepeats(front) && NoRepeats(base)
    ensures forall i, j :: 0 <= i < |front| && 0 <= j < |base| ==> front[i] != base[j]
  {
    var all := front + base;
    assert forall i :: 0 <= i < |front| ==> front[i] == all[i];
    assert forall j :: 0 <= j < |base| ==> base[j] == all[|front| + j];
  }

  lemma Prefixed(node: Node, nodes: seq<Node>, end: Node?)
    requires Linked(nodes, end) && node.next == Head(nodes, end)
    ensures Linked([node] + nodes, end)
  {
    var longer := [node] + nodes;
    forall i | 0 <= i < |longer| ensures longer[i].next == At(longer, i + 1, end) {
      if i > 0 {
        assert longer[i] == nodes[i - 1];
      }
    }
  }

  lemma PrefixedDistinct(node: Node, nodes: seq<Node>)
    requires NoRepeats(nodes) && node !in nodes
    ensures NoRepeats([node] + nodes)
  {
  }

  /** The list as it was, but for one node that may have been redirected. */
  ghost predicate LinkedBut(nodes: seq<Node>, end: Node?, redirected: Node)
    reads nodes
  {
    forall i :: 0 <= i < |nodes| ==> nodes[i] == redirected || nodes[i].next == At(nodes, i + 1, end)
  }

  /** A node that is followed by the first of `base` is the last of `front`. */
  lemma FollowedByBase(front: seq<Node>, base: seq<Node>, attached: bool, i: nat)
    requires NoRepeats(front + base) && i < |if attached then front + base else front|
    ensures var r := if attached then front + base else front;
            base != [] && At(r, i + 1, null) == base[0] ==> attached && i == |front| - 1
  {
    var all := front + base;
    assert forall k :: 0 <= k < |front| ==> front[k] == all[k];
    if base != [] {
      assert all[|front|] == base[0];
    }
  }

  /** Node `k` leaves a list when only the one before it is redirected. */
  lemma Spliced(nodes: seq<Node>, k: nat, end: Node?, previous: Node)
    requires k < |nodes| && NoRepeats(nodes) && LinkedBut(nodes, end, previous)
    requires k > 0 ==> previous == nodes[k - 1]
    requires k == 0 ==> previous == nodes[0] || previous !in nodes
    requires previous.next == At(nodes, k + 1, end)
    ensures Linked(Drop(nodes, k), end)
  {
    var rest := Drop(nodes, k);
    forall i | 0 <= i < |rest| ensures rest[i].next == At(rest, i + 1, end) {
      var j := if i < k then i else i + 1;
      assert rest[i] == nodes[j];
    }
  }

  /** Redirecting the last node gives the list another end. */
  lemma Retargeted(nodes: seq<Node>, was: Node?, end: Node?)
    requires nodes != [] && NoRepeats(nodes) && LinkedBut(nodes, was, nodes[|nodes| - 1])
    requires nodes[|nodes| - 1].next == end
    ensures Linked(nodes, end)
  {
  }

  lemma BasePushed(node: Node, base: seq<Node>)
    requires NoRepeats(base) && node !in base && Linked(base, null) && node.next == Head(base, null)
    ensures Linked([node] + base, null) && Linked([], node) && NoRepeats([] + ([node] + base))
  {
    PrefixedDistinct(node, base);
    Prefixed(node, base, null);
    assert [] + ([node] + base) == [node] + base;
  }

  lemma DropKeepsDistinct(nodes: seq<Node>, k: nat)
    requires NoRepeats(nodes)
    ensures NoRepeats(Drop(nodes, k))
  {
    assert forall i :: 0 <= i < |Drop(nodes, k)| ==> Drop(nodes, k)[i] == nodes[if i < k then i else i + 1];
  }

  lemma DropParts<T>(front: seq<T>, base: seq<T>, k: nat)
    ensures k < |front| ==> Drop(front, k) + base == Drop(front + base, k)
    ensures k >= |front| ==> front + Drop(base, k - |front|) == Drop(front + base, k)
  {
    var all := front + base;
    if k < |front| {
      assert all[..k] == front[..k];
      assert all[k + 1..] == front[k + 1..] + base;
    } else if k < |all| {
      assert all[..k] == front + base[..k - |front|];
      assert all[k + 1..] == base[k - |front| + 1..];
    }
  }

  lemma HeadOfDrop(nodes: seq<Node>, k: nat, end: Node?)
    requires k < |nodes| && NoRepeats(nodes)
    ensures Head(Drop(nodes, k), end) == if k == 0 then At(nodes, 1, end) else nodes[0]
    ensures k > 0 ==> nodes[0] != nodes[k]
  {
  }

  lemma FrontUnlinked(front: seq<Node>, base: seq<Node>, k: nat, end: Node?, previous: Node)
    requires k < |front| && NoRepeats(front + base)
    requires LinkedBut(front, end, previous) && LinkedBut(base, null, previous)
    requires previous == front[if k == 0 then 0 else k - 1] && previous.next == At(front, k + 1, end)
    ensures Linked(Drop(front, k), end) && Linked(base, null) && NoRepeats(Drop(front, k) + base)
    ensures Head(Drop(front, k), end) == if k == 0 then At(front, 1, end) else front[0]
    ensures base != [] ==> base[0] != front[k]
    ensures k > 0 ==> front[0] != front[k]
  {
    hide Drop, NoRepeats;
    NoRepeatsParts(front, base);
    DropKeepsDistinct(front + base, k);
    DropParts(front, base, k);
    HeadOfDrop(front, k, end);
    Spliced(front, k, end, previous);
  }

  lemma BaseUnlinked(front: seq<Node>, base: seq<Node>, k: nat, previous: Node)
    requires k < |base| && NoRepeats(front + base)
    requires LinkedBut(front, Head(base, null), previous) && LinkedBut(base, null, previous)
    requires previous == if k > 0 then base[k - 1] else if front != [] then front[|front| - 1] else base[0]
    requires previous.next == At(base, k + 1, null)
    ensures Linked(Drop(base, k), null) && Linked(front, Head(Drop(base, k), null)) && NoRepeats(front + Drop(base, k))
    ensures Head(Drop(base, k), null) == if k == 0 then At(base, 1, null) else base[0]
    ensures front != [] ==> front[0] != base[k]
    ensures k > 0 ==> base[0] != base[k]
  {
    hide Drop, NoRepeats;
    NoRepeatsParts(front, base);
    DropKeepsDistinct(front + base, |front| + k);
    DropParts(front, base, |front| + k);
    HeadOfDrop(base, k, null);
    Spliced(base, k, null, previous);
    if front != [] && k == 0 {
      Retargeted(front, Head(base, null), Head(Drop(base, k), null));
    }
  }

  lemma Successor(front: seq<Node>, base: seq<Node>, end: Node?, k: nat, node: Node)
    requires Linked(front, end) && Linked(base, null) && k < |front| + |base|
    requires node == if k < |front| then front[k] else base[k - |front|]
    ensures node.next == if k < |front| then At(front, k + 1, end) else At(base, k - |front| + 1, null)
  {
  }

  method Redirect(previous: Node, next: Node?, ghost front: seq<Node>, ghost base: seq<Node>, ghost end: Node?)
    requires Linked(front, end) && Linked(base, null)
    modifies previous`next
    ensures previous.next == next && LinkedBut(front, end, previous) && LinkedBut(base, null, previous)
  {
    previous.next := next;
  }

  /** The list by its keys: created by terminators, instance-only, and whether the latter are attached. */
  datatype State = State(front: seq<Key>, base: seq<Key>, attached: bool)

  datatype Op =
    | Create(key: Key)
    | CreateInstanceOnly(key: Key)
    | Attach
    | Detach
    | Destroy(key: Key)

  ghost function Keys(nodes: seq<Node>): seq<Key> {
    seq(|nodes|, i requires 0 <= i < |nodes| => nodes[i].key)
  }

  ghost function First(keys: seq<Key>, key: Key): (i: nat)
    ensures i <= |keys| && (i < |keys| <==> key in keys)
    ensures i < |keys| ==> keys[i] == key
    ensures key !in keys[..i]
  {
    if keys == [] || keys[0] == key then 0
    else
      var i := First(keys[1..], key);
      assert keys == [keys[0]] + keys[1..];
      assert keys[..i + 1] == [keys[0]] + keys[1..][..i];
      i + 1
  }

  ghost function Visible(s: State): seq<Key> {
    if s.attached then s.front + s.base else s.front
  }

  ghost function Apply(s: State, op: Op): State {
    match op
    case Create(key) => s.(front := [key] + s.front)
    case CreateInstanceOnly(key) => State([], [key] + s.base, true)
    case Attach => s.(attached := true)
    case Detach => s.(attached := false)
    case Destroy(key) =>
      var k := First(Visible(s), key);
      if k < |s.front| then s.(front := Drop(s.front, k))
      else if k < |Visible(s)| then s.(base := Drop(s.base, k - |s.front|))
      else s
  }

  ghost function After(ops: seq<Op>): State {
    if ops == [] then State([], [], false) else Apply(After(ops[..|ops| - 1]), ops[|ops| - 1])
  }

  ghost function Created(ops: seq<Op>): multiset<Key> {
    if ops == [] then multiset{}
    else
      var last := ops[|ops| - 1];
      Created(ops[..|ops| - 1]) + if last.Create? || last.CreateInstanceOnly? then multiset{last.key} else multiset{}
  }

  /** The destroyed keys, each counted when it could be seen. */
  ghost function Destroyed(ops: seq<Op>): multiset<Key> {
    if ops == [] then multiset{}
    else
      var rest, last := ops[..|ops| - 1], ops[|ops| - 1];
      Destroyed(rest) + if last.Destroy? && last.key in Visible(After(rest)) then multiset{last.key} else multiset{}
  }

  /** The keys cut off when an instance-only callback is created while others are on the list. */
  ghost function CutOff(ops: seq<Op>): multiset<Key> {
    if ops == [] then multiset{}
    else
      var rest, last := ops[..|ops| - 1], ops[|ops| - 1];
      CutOff(rest) + if last.CreateInstanceOnly? then multiset(After(rest).front) else multiset{}
  }

  lemma {:induction false} KeysFirst(nodes: seq<Node>, key: Key)
    ensures First(Keys(nodes), key) == FirstWith(nodes, key)
  {
    if nodes != [] && nodes[0].key != key {
      KeysFirst(nodes[1..], key);
      assert Keys(nodes)[1..] == Keys(nodes[1..]);
    }
  }

  lemma KeysAppend(front: seq<Node>, base: seq<Node>)
    ensures Keys(front + base) == Keys(front) + Keys(base)
  {
  }

  lemma KeysDrop(nodes: seq<Node>, k: nat)
    ensures Keys(Drop(nodes, k)) == Drop(Keys(nodes), k)
  {
  }

  lemma CreateByKeys(node: Node, front: seq<Node>, base: seq<Node>, attached: bool)
    ensures Apply(State(Keys(front), Keys(base), attached), Create(node.key))
         == State(Keys([node] + front), Keys(base), attached)
    ensures Apply(State(Keys(front), Keys(base), attached), CreateInstanceOnly(node.key))
         == State(Keys([]), Keys([node] + base), true)
  {
    KeysAppend([node], front);
    KeysAppend([node], base);
  }

  lemma HangByKeys(s: State)
    ensures Apply(s, Attach) == State(s.front, s.base, true)
    ensures Apply(s, Detach) == State(s.front, s.base, false)
  {
  }

  lemma DestroyByKeys(front: seq<Node>, base: seq<Node>, attached: bool, key: Key)
    ensures
      var reachable := if attached then front + base else front;
      var k := FirstWith(reachable, key);
      Apply(State(Keys(front), Keys(base), attached), Destroy(key))
      == State(
        Keys(if k < |front| then Drop(front, k) else front),
        Keys(if |front| <= k < |reachable| then Drop(base, k - |front|) else base),
        attached)
  {
    var reachable := if attached then front + base else front;
    var k := FirstWith(reachable, key);
    hide Keys, Drop, FirstWith, First;
    KeysFirst(reachable, key);
    KeysAppend(front, base);
    KeysLength(front);
    KeysLength(reachable);
    KeysDrop(front, k);
    if k >= |front| {
      KeysDrop(base, k - |front|);
    }
  }

  lemma KeysLength(nodes: seq<Node>)
    ensures |Keys(nodes)| == |nodes|
  {
  }

  lemma DropCounts(keys: seq<Key>, i: nat)
    requires i < |keys|
    ensures multiset(keys) == multiset(Drop(keys, i)) + multiset{keys[i]}
  {
    assert keys == keys[..i] + [keys[i]] + keys[i + 1..];
  }

  lemma DestroyCounts(s: State, key: Key)
    ensures
      var t := Apply(s, Destroy(key));
      multiset(s.front) + multiset(s.base)
      == multiset(t.front) + multiset(t.base) + if key in Visible(s) then multiset{key} else multiset{}
  {
    var k := First(Visible(s), key);
    hide First, Drop;
    if k < |s.front| {
      DropCounts(s.front, k);
    } else if k < |Visible(s)| {
      DropCounts(s.base, k - |s.front|);
    }
  }

  /** Over every run: what was created is on the list, hung up, destroyed, or was cut off. */
  lemma {:induction false} NothingElseIsLost(ops: seq<Op>)
    ensures multiset(After(ops).front) + multiset(After(ops).base) + Destroyed(ops) + CutOff(ops) == Created(ops)
  {
    if ops != [] {
      var rest, last := ops[..|ops| - 1], ops[|ops| - 1];
      NothingElseIsLost(rest);
      if last.Destroy? {
        hide Drop, First;
        DestroyCounts(After(rest), last.key);
      }
    }
  }

  /** When every instance-only callback comes first, the runs of instance creation lose nothing. */
  lemma {:induction false} InstanceOnlyFirst(ops: seq<Op>)
    requires forall i, j :: 0 <= i < j < |ops| && ops[i].Create? ==> !ops[j].CreateInstanceOnly?
    ensures CutOff(ops) == multiset{}
    ensures (forall i :: 0 <= i < |ops| ==> !ops[i].Create?) ==> After(ops).front == []
  {
    if ops != [] {
      var rest := ops[..|ops| - 1];
      forall i, j | 0 <= i < j < |rest| && rest[i].Create? ensures !rest[j].CreateInstanceOnly? {
        assert rest[i] == ops[i] && rest[j] == ops[j];
      }
      InstanceOnlyFirst(rest);
      assert forall i :: 0 <= i < |rest| ==> rest[i] == ops[i];
    }
  }

  /** Destroying a callback takes the first visible one and nothing else out of the walk. */
  lemma DestroyTakesTheFirst(s: State, key: Key)
    ensures Visible(Apply(s, Destroy(key))) == Drop(Visible(s), First(Visible(s), key))
  {
    hide First;
    DropParts(s.front, s.base, First(Visible(s), key));
  }

  /** Hanging the instance-only callbacks off and on again makes the walk as it was. */
  lemma AttachUndoesDetach(s: State)
    requires s.attached
    ensures Apply(Apply(s, Detach), Attach) == s
    ensures Visible(s) == Visible(Apply(s, Detach)) + s.base
  {
  }

  class CallbackList {
    var current: Node?
    var instanceOnly: Node?
    ghost var front: seq<Node>    // nodes that terminators created
    ghost var base: seq<Node>     // nodes that only serve the instance
    ghost var attached: bool      // the latter hang behind the former

    ghost predicate Valid()
      reads this, front, base
    {
      && Linked(base, null)
      && Linked(front, if attached then Head(base, null) else null)
      && NoRepeats(front + base)
      && instanceOnly == Head(base, null)
      && current == Head(front, if attached then instanceOnly else null)
    }

    /** What a walk from the current head comes by. */
    ghost function Reachable(): seq<Node>
      reads this
    {
      if attached then front + base else front
    }

    ghost function Abstract(): State
      reads this
    {
      State(Keys(front), Keys(base), attached)
    }

    constructor ()
      ensures Valid() && front == [] && base == [] && !attached
    {
      current, instanceOnly := null, null;
      front, base, attached := [], [], false;
    }

    /** The node part of `terminator_CreateDebugUtilsMessengerEXT`; false when memory runs out. */
    method Push(key: Key) returns (ok: bool)
      requires Valid()
      modifies this
      ensures Valid() && base == old(base) && attached == old(attached)
      ensures !ok ==> front == old(front)
      ensures Abstract() == if ok then Apply(old(Abstract()), Create(key)) else old(Abstract())
      ensures ok ==> front != [] && front == [front[0]] + old(front) && front[0].key == key && fresh(front[0])
    {
      ok := *;
      if !ok {
        return;
      }
      hide Linked, NoRepeats, Keys, Apply;
      var node := new Node(key, current);
      CreateByKeys(node, front, base, attached);
      assert [node] + front + base == [node] + (front + base);
      assert node !in front + base;
      PrefixedDistinct(node, front + base);
      Prefixed(node, front, if attached then instanceOnly else null);
      current := node;
      front := [node] + front;
    }

    /**
      `util_CreateDebugUtilsMessenger`: the new node goes in front of the instance-only nodes and the
      current head is set to it, so nodes that terminators created before drop out of the list.
    */
    method PushInstanceOnly(key: Key) returns (ok: bool)
      requires Valid()
      modifies this
      ensures Valid()
      ensures !ok ==> front == old(front) && base == old(base) && attached == old(attached)
      ensures ok ==> attached && front == []
      ensures ok ==> Abstract() == Apply(old(Abstract()), CreateInstanceOnly(key))
      ensures ok ==> base != [] && base == [base[0]] + old(base) && base[0].key == key && fresh(base[0])
    {
      ok := *;
      if !ok {
        return;
      }
      hide Linked, NoRepeats, Keys, Apply;
      NoRepeatsParts(front, base);
      var node := new Node(key, instanceOnly);
      CreateByKeys(node, front, base, attached);
      assert node !in base;
      BasePushed(node, base);
      instanceOnly := node;
      current := instanceOnly;
      base := [node] + base;
      front, attached := [], true;
    }

    /** `loader_add_instance_only_debug_funcs`: whatever the state was, everything is reachable now. */
    method Attach()
      requires Valid()
      modifies this, front
      ensures Valid() && attached && front == old(front) && base == old(base)
    {
      NoRepeatsParts(front, base);
      if current == null {
        current := instanceOnly;
      } else {
        ghost var i: nat := 0;
        var node := current;
        while node != null
          invariant i <= |front| && front == old(front) && base == old(base) && attached == old(attached)
          invariant instanceOnly == Head(base, null) && current == Head(front, instanceOnly)
          invariant Linked(base, null)
          invariant node == if i < |front| then front[i] else instanceOnly
          invariant i < |front| ==> Linked(front, if attached then instanceOnly else null)
          invariant i == |front| ==> Linked(front, instanceOnly)
          decreases |front| - i, node != null
        {
          if node == instanceOnly {
            break;
          } else if node.next == null {
            node.next := instanceOnly;
          }
          node := node.next;
          i := i + 1;
        }
      }
      attached := true;
    }

    /** `loader_remove_instance_only_debug_funcs`: only what terminators created stays reachable. */
    method Detach()
      requires Valid()
      modifies this, front
      ensures Valid() && !attached && front == old(front) && base == old(base)
    {
      NoRepeatsParts(front, base);
      var node := current;
      if node == instanceOnly {
        current := null;
      }
      ghost var r := Reachable();
      ghost var i: nat := 0;
      hide NoRepeats;
      while node != null
        invariant i <= |r| && node == if i < |r| then r[i] else null
        invariant Linked(base, null) && Linked(front, if attached then instanceOnly else null)
        invariant attached && front != [] ==> i < |front|
        decreases |r| - i, node != null
      {
        if node.next == instanceOnly {
          FollowedByBase(front, base, attached, i);
          node.next := null;
          if attached && base != [] {
            Retargeted(front, instanceOnly, null);
          }
          break;
        }
        node := node.next;
        i := i + 1;
      }
      attached := false;
    }

    method Unlink(previous: Node, node: Node, ghost k: nat)
      requires Valid() && k < |Reachable()|
      requires k < |front| ==> node == front[k] && previous == front[if k == 0 then 0 else k - 1]
      requires k >= |front| ==> node == base[k - |front|]
      requires k > |front| ==> previous == base[k - |front| - 1]
      requires k == |front| ==> previous == if front == [] then node else front[|front| - 1]
      modifies this, front, base
      ensures Valid() && attached == old(attached)
      ensures front == if k < |old(front)| then Drop(old(front), k) else old(front)
      ensures base == if k < |old(front)| then old(base) else Drop(old(base), k - |old(front)|)
    {
      hide Linked, NoRepeats, Drop, LinkedBut;
      ghost var end := if attached then Head(base, null) else null;
      Successor(front, base, end, k, node);
      var next := node.next;
      Redirect(previous, next, front, base, end);
      if k < |front| {
        FrontUnlinked(front, base, k, end, previous);
        assert (current == node <==> k == 0) && instanceOnly != node;
        front := Drop(front, k);
      } else {
        BaseUnlinked(front, base, k - |front|, previous);
        assert (current == node <==> k == 0) && (instanceOnly == node <==> k == |front|);
        base := Drop(base, k - |front|);
      }
      if current == node {
        current := next;
      }
      if instanceOnly == node {
        instanceOnly := next;
      }
    }

    method Find(key: Key) returns (node: Node?, previous: Node?, ghost k: nat)
      requires Valid()
      ensures k == FirstWith(Reachable(), key)
      ensures node == if k < |Reachable()| then Reachable()[k] else null
      ensures k < |Reachable()| ==> previous == if k == 0 then node else Reachable()[k - 1]
    {
      hide NoRepeats, FirstWith;
      ghost var r := Reachable();
      k, node := 0, current;
      previous := node;
      while node != null && node.key != key
        invariant k <= |r| && node == if k < |r| then r[k] else null
        invariant previous == if k == 0 then node else r[k - 1]
        invariant forall j :: 0 <= j < k ==> r[j].key != key
        decreases |r| - k
      {
        previous := node;
        node := node.next;
        k := k + 1;
      }
      FirstIs(r, key, k);
    }

    /** `util_DestroyDebugUtilsMessenger`: the first reachable node with the key is taken out, if any. */
    method Remove(key: Key) returns (ghost k: nat)
      requires Valid()
      modifies this, front, base
      ensures Valid() && attached == old(attached)
      ensures Abstract() == Apply(old(Abstract()), Destroy(key))
      ensures k == FirstWith(old(Reachable()), key)
      ensures front == if k < |old(front)| then Drop(old(front), k) else old(front)
      ensures base == if |old(front)| <= k < |old(Reachable())| then Drop(old(base), k - |old(front)|) else old(base)
    {
      hide NoRepeats, FirstWith, Drop, Linked, Keys, Apply;
      DestroyByKeys(front, base, attached, key);
      var node, previous;
      node, previous, k := Find(key);
      if node != null {
        Unlink(previous, node, k);
      }
    }

    /** One operation; a creation may fail for lack of memory and then changes nothing. */
    method Step(op: Op) returns (ok: bool)
      requires Valid()
      modifies this, front, base
      ensures Valid()
      ensures Abstract() == if ok then Apply(old(Abstract()), op) else old(Abstract())
      ensures !ok ==> op.Create? || op.CreateInstanceOnly?
    {
      hide Linked, NoRepeats, Keys, Apply;
      ok := true;
      HangByKeys(Abstract());
      match op
      case Create(key) =>
        ok := Push(key);
      case CreateInstanceOnly(key) =>
        ok := PushInstanceOnly(key);
      case Attach =>
        Attach();
      case Detach =>
        Detach();
      case Destroy(key) =>
        ghost var k := Remove(key);
    }
  }
}
