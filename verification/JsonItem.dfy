/** The items that the JSON parser allocates and links, and the values they stand for. */
module JsonItem {
  import opened Utf8
  import opened JsonGrammar

  datatype Type = Invalid | IsNull | IsFalse | IsTrue | IsNumber | IsString | IsArray | IsObject

  /** `cJSON`.  `text` is the string with all its bytes, zero bytes included, or the text that stands for the number. */
  class Item {
    var next: Item?
    var prev: Item?
    var child: Item?
    var type_: Type
    var text: seq<Byte>
    var name: seq<Byte>
    ghost var children: seq<Item>   // the siblings from `child` on
    ghost var below: set<Item>      // all items below this one

    /** `cJSON_New_Item`: everything is cleared. */
    constructor ()
      ensures next == null && prev == null && child == null && type_ == Invalid
      ensures text == [] && name == [] && children == [] && below == {}
    {
      next, prev, child, type_, text, name := null, null, null, Invalid, [], [];
      children, below := [], {};
    }
  }

  ghost function Follower(items: seq<Item>, i: nat): Item? {
    if i + 1 < |items| then items[i + 1] else null
  }

  /** The `next` pointers run through the items and end in null; each later `prev` is the one before. */
  ghost predicate Chained(items: seq<Item>)
    reads items`next, items`prev
  {
    forall i :: 0 <= i < |items| ==>
      && items[i].next == Follower(items, i)
      && (i > 0 ==> items[i].prev == items[i - 1])
  }

  /** A finished list of siblings: chained, and the first one's `prev` is the last. */
  ghost predicate Siblings(items: seq<Item>, child: Item?)
    reads items`next, items`prev
  {
    && Chained(items)
    && child == (if items == [] then null else items[0])
    && (items != [] ==> items[0].prev == items[|items| - 1])
  }

  /** The item, with what is below it, is the tree of the value. */
  ghost predicate Holds(item: Item, v: Json)
    reads item`type_, item`text, item`child, item`children, item`below, item.below
    decreases v
  {
    match v
    case Null => item.type_ == IsNull
    case False => item.type_ == IsFalse
    case True => item.type_ == IsTrue
    case Number(t) => item.type_ == IsNumber && item.text == t
    case String(s) => item.type_ == IsString && item.text == s
    case Array(items) =>
      && item.type_ == IsArray && |item.children| == |items| && Inside(item.children, item.below)
      && Siblings(item.children, item.child)
      && forall i :: 0 <= i < |items| ==> Holds(item.children[i], items[i])
    case Object(members) =>
      && item.type_ == IsObject && |item.children| == |members| && Inside(item.children, item.below)
      && Siblings(item.children, item.child)
      && forall i :: 0 <= i < |members| ==>
        item.children[i].name == members[i].name && Holds(item.children[i], members[i].value)
  }

  /** The items and all below them are in the set, and none is below another. */
  ghost predicate Inside(items: seq<Item>, all: set<Item>)
    reads all`below
  {
    && (forall i :: 0 <= i < |items| ==> items[i] in all && items[i].below <= all)
    && (forall i, j :: 0 <= i < |items| && 0 <= j < |items| ==> items[j] !in items[i].below)
    && (forall i, j :: 0 <= i < j < |items| ==> items[i] != items[j] && items[i].below !! items[j].below)
  }

  /** An item is the tree of one value at most. */
  lemma {:induction false} HoldsOne(item: Item, v: Json, w: Json)
    requires Holds(item, v) && Holds(item, w)
    ensures v == w
    decreases v
  {
    match v
    case Null =>
    case False =>
    case True =>
    case Number(_) =>
    case String(_) =>
    case Array(items) =>
      forall i | 0 <= i < |items| ensures items[i] == w.items[i] {
        HoldsOne(item.children[i], items[i], w.items[i]);
      }
      assert items == w.items;
    case Object(members) =>
      forall i | 0 <= i < |members| ensures members[i] == w.members[i] {
        HoldsOne(item.children[i], members[i].value, w.members[i].value);
      }
      assert members == w.members;
  }

  // ---------------------------------------------------------------- lists under construction

  /** A list whose items are complete, but for the first one's `prev`. */
  ghost predicate Growing(nodes: seq<Item>, all: set<Item>, values: seq<Json>)
    reads all
  {
    && |nodes| == |values| && Inside(nodes, all) && Chained(nodes)
    && forall i :: 0 <= i < |nodes| ==> Holds(nodes[i], values[i])
  }

  /** The newest item, and what is below it, has nothing in common with the rest. */
  ghost predicate Apart(item: Item, all: set<Item>)
    reads item`below
  {
    item !in all && item !in item.below && item.below !! all
  }

  lemma InsideGrows(nodes: seq<Item>, all: set<Item>, item: Item)
    requires Inside(nodes, all) && Apart(item, all)
    ensures Inside(nodes + [item], all + {item} + item.below)
  {
    var longer, more := nodes + [item], all + {item} + item.below;
    forall i, j | 0 <= i < |longer| && 0 <= j < |longer| ensures longer[j] !in longer[i].below {
      assert i < |nodes| ==> longer[i] == nodes[i];
      assert j < |nodes| ==> longer[j] == nodes[j];
    }
  }

  lemma Grown(nodes: seq<Item>, all: set<Item>, values: seq<Json>, item: Item, v: Json)
    requires Inside(nodes, all) && |nodes| == |values| && forall i :: 0 <= i < |nodes| ==> Holds(nodes[i], values[i])
    requires Apart(item, all) && Chained(nodes + [item]) && Holds(item, v)
    ensures Growing(nodes + [item], all + {item} + item.below, values + [v])
  {
    hide Holds, Inside, Chained;
    InsideGrows(nodes, all, item);
  }

  ghost predicate Spans(nodes: seq<Item>, head: Item?, current: Item?) {
    if nodes == [] then head == null && current == null else head == nodes[0] && current == nodes[|nodes| - 1]
  }

  ghost function ValuesOf(members: seq<Member>): (r: seq<Json>)
    ensures |r| == |members| && forall i :: 0 <= i < |r| ==> r[i] == members[i].value
  {
    seq(|members|, i requires 0 <= i < |members| => members[i].value)
  }

  ghost predicate Named(nodes: seq<Item>, members: seq<Member>)
    reads nodes`name
  {
    |nodes| == |members| && forall i :: 0 <= i < |nodes| ==> nodes[i].name == members[i].name
  }

  lemma NothingGrowing()
    ensures Growing([], {}, [])
  {
  }

  lemma NothingNamed()
    ensures Growing([], {}, ValuesOf([])) && Named([], [])
  {
  }

  /** The allocation of the next item and its place at the end of the list. */
  method Attach(head: Item?, current: Item?, ghost nodes: seq<Item>) returns (first: Item, item: Item)
    requires Chained(nodes)
    requires Spans(nodes, head, current)
    requires forall i, j :: 0 <= i < j < |nodes| ==> nodes[i] != nodes[j]
    modifies (if current == null then {} else {current})`next
    ensures fresh(item) && item.children == [] && item.below == {}
    ensures Chained(nodes + [item]) && first == (nodes + [item])[0]
  {
    item := new Item();
    if head == null {
      first := item;
    } else {
      first := head;
      current.next := item;
      item.prev := current;
    }
  }

  /** The same on a list under construction, whose items stay complete. */
  method AttachTo(head: Item?, current: Item?, ghost nodes: seq<Item>, ghost all: set<Item>, ghost values: seq<Json>)
    returns (first: Item, item: Item)
    requires Growing(nodes, all, values) && Spans(nodes, head, current)
    modifies (if current == null then {} else {current})`next
    ensures fresh(item) && item.children == [] && item.below == {} && item !in all
    ensures Chained(nodes + [item]) && Spans(nodes + [item], first, item) && (first == item || first in all)
    ensures Inside(nodes, all) && |nodes| == |values| && forall i :: 0 <= i < |nodes| ==> Holds(nodes[i], values[i])
  {
    hide Holds, Chained;
    first, item := Attach(head, current, nodes);
  }

  method SetLast(head: Item, last: Item, ghost nodes: seq<Item>)
    requires Chained(nodes) && nodes != [] && head == nodes[0] && last == nodes[|nodes| - 1]
    requires forall i :: 0 < i < |nodes| ==> nodes[i] != nodes[0]
    modifies head`prev
    ensures Siblings(nodes, head)
  {
    head.prev := last;
    forall i | 0 <= i < |nodes|
      ensures nodes[i].next == Follower(nodes, i)
      ensures i > 0 ==> nodes[i].prev == nodes[i - 1]
    {
      assert old(nodes[i].next) == Follower(nodes, i);
      if i > 0 {
        assert nodes[i] != nodes[0];
        assert old(nodes[i].prev) == nodes[i - 1];
      }
    }
  }

  /** The end of `parse_array` and `parse_object`: the first item gets the last as its `prev`, the parent its child. */
  method Close(item: Item, type_: Type, head: Item?, current: Item?, ghost nodes: seq<Item>, ghost all: set<Item>,
               ghost values: seq<Json>)
    requires Growing(nodes, all, values) && item !in all
    requires Spans(nodes, head, current)
    modifies item`type_, item`child, item`children, item`below, (if head == null then {} else {head})`prev
    ensures item.type_ == type_ && item.children == nodes && item.below == all
    ensures Inside(nodes, all) && Siblings(nodes, item.child)
    ensures |nodes| == |values| && forall i :: 0 <= i < |nodes| ==> Holds(nodes[i], values[i])
  {
    hide Holds, Chained, Siblings;
    NoneBelow(nodes, all, item);
    if head != null {
      SetLast(head, current, nodes);
    } else {
      NoSiblings();
    }
    hide Inside;
    item.type_, item.child := type_, head;
    item.children, item.below := nodes, all;
  }

  method CloseArray(item: Item, head: Item?, current: Item?, ghost nodes: seq<Item>, ghost all: set<Item>,
                    ghost items: seq<Json>)
    requires Growing(nodes, all, items) && item !in all && Spans(nodes, head, current)
    modifies item`type_, item`child, item`children, item`below, (if head == null then {} else {head})`prev
    ensures Holds(item, Array(items)) && item.below == all
  {
    hide Inside, Siblings, Growing;
    Close(item, IsArray, head, current, nodes, all, items);
  }

  method CloseObject(item: Item, head: Item?, current: Item?, ghost nodes: seq<Item>, ghost all: set<Item>,
                     ghost members: seq<Member>)
    requires Growing(nodes, all, ValuesOf(members)) && item !in all && Spans(nodes, head, current)
    requires Named(nodes, members)
    modifies item`type_, item`child, item`children, item`below, (if head == null then {} else {head})`prev
    ensures Holds(item, Object(members)) && item.below == all
  {
    hide Inside, Siblings, Growing;
    Close(item, IsObject, head, current, nodes, all, ValuesOf(members));
    assert Named(nodes, members);
  }

  lemma NoSiblings()
    ensures Siblings([], null)
  {
  }

  /** Neither the parent nor the first item is below any of the items. */
  lemma NoneBelow(nodes: seq<Item>, all: set<Item>, item: Item)
    requires Inside(nodes, all) && item !in all
    ensures forall i :: 0 <= i < |nodes| ==> item != nodes[i] && item !in nodes[i].below
    ensures forall i :: 0 <= i < |nodes| ==> nodes[0] !in nodes[i].below
    ensures forall i :: 0 < i < |nodes| ==> nodes[i] != nodes[0]
  {
  }
}
