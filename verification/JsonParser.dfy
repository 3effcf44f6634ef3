/** The parser over its mutable cursor, down to the array that a decoded string is written to. */
module JsonParser {
  import opened Common
  import opened Utf8
  import opened JsonString
  import opened JsonGrammar
  import opened JsonTheory
  import opened JsonItem
  import Rfc = JsonRfc
  import Refusal = JsonRefusal

  /** `outOfMemory` is the flag the parser hands up to its caller. */
  datatype Outcome = Ok | Fail(outOfMemory: bool)

  /** What was parsed agrees with the computed answer, unless memory ran out. */
  ghost predicate Agrees<T>(r: Outcome, v: T, end: nat, expected: Option<Parsed<T>>) {
    match r
    case Ok => expected == Some(Parsed(v, end))
    case Fail(oom) => oom || expected.None?
  }

  /** A list of values read so far, in front of what is still to be read. */
  function After<T>(head: seq<T>, rest: Option<Parsed<seq<T>>>): Option<Parsed<seq<T>>> {
    if rest.None? then None else Some(Parsed(head + rest.value.value, rest.value.end))
  }

  lemma AfterNothing<T>(rest: Option<Parsed<seq<T>>>)
    ensures After([], rest) == rest
  {
    if rest.Some? {
      assert [] + rest.value.value == rest.value.value;
    }
  }

  lemma AfterOne<T>(head: seq<T>, x: T, rest: Option<Parsed<seq<T>>>)
    ensures After(head, After([x], rest)) == After(head + [x], rest)
  {
    if rest.Some? {
      assert head + ([x] + rest.value.value) == head + [x] + rest.value.value;
    }
  }

  lemma ElementsTurn(c: seq<Byte>, q: nat, depth: nat)
    requires q <= |c|
    ensures var v := ValueAt(c, Skip(c, q), depth);
            if v.None? then ElementsAt(c, q, depth).None?
            else
              var s := Skip(c, v.value.end);
              if Is(c, s, COMMA) then ElementsAt(c, q, depth) == After([v.value.value], ElementsAt(c, s + 1, depth))
              else if Is(c, s, CLOSE_BRACKET) then ElementsAt(c, q, depth) == Some(Parsed([v.value.value], s + 1))
              else ElementsAt(c, q, depth).None?
  {
    hide ValueAt, Skip;
  }

  lemma MembersTurn(c: seq<Byte>, q: nat, depth: nat)
    requires q <= |c|
    ensures var key := KeyAt(c, q);
            if key.None? || ValueAt(c, Skip(c, key.value.end), depth).None? then MembersAt(c, q, depth).None?
            else
              var v := ValueAt(c, Skip(c, key.value.end), depth).value;
              var m, s := Member(key.value.value, v.value), Skip(c, v.end);
              if Is(c, s, COMMA) then MembersAt(c, q, depth) == After([m], MembersAt(c, s + 1, depth))
              else if Is(c, s, CLOSE_BRACE) then MembersAt(c, q, depth) == Some(Parsed([m], s + 1))
              else MembersAt(c, q, depth).None?
  {
    hide KeyAt, ValueAt, Skip;
  }

  lemma RunGoesOn(c: seq<Byte>, p: nat, stop: nat)
    requires p < stop && p < |c| && NumberChar(c[p])
    ensures RunEnd(c, p, stop) == RunEnd(c, p + 1, stop)
  {
  }

  lemma RunStops(c: seq<Byte>, p: nat, stop: nat)
    requires p <= stop && p <= |c| && (p == stop || p == |c| || !NumberChar(c[p]))
    ensures RunEnd(c, p, stop) == p
  {
  }

  /** The loop of `parse_number`: the copy of the run fits its 64 bytes with the terminator. */
  method CopyRun(c: seq<Byte>, o: nat) returns (copy: array<Byte>, i: nat)
    requires o <= |c|
    ensures fresh(copy) && copy.Length == 64 && i < 64 && copy[i] == 0
    ensures o + i == RunEnd(c, o, o + 63) && copy[..i] == c[o..o + i]
  {
    hide NumberChar, RunEnd;
    copy := new Byte[64];
    i := 0;
    ghost var stop := o + 63;
    while i < 63 && o + i < |c| && NumberChar(c[o + i])
      invariant 0 <= i <= 63 && o + i <= |c|
      invariant RunEnd(c, o + i, stop) == RunEnd(c, o, stop)
      invariant forall j :: 0 <= j < i ==> copy[j] == c[o + j]
    {
      RunGoesOn(c, o + i, stop);
      copy[i] := c[o + i];
      i := i + 1;
    }
    copy[i] := 0;
    RunStops(c, o + i, stop);
    assert copy[..i] == c[o..o + i];
  }

  /** `parse_buffer`.  Every method keeps the cursor within the content, also when it fails. */
  class ParseBuffer {
    const content: seq<Byte>
    var offset: nat
    var depth: nat

    constructor (content: seq<Byte>)
      ensures this.content == content && offset == 0 && depth == 0
    {
      this.content := content;
      offset, depth := 0, 0;
    }

    ghost predicate Valid()
      reads this
    {
      offset <= |content| && depth <= NESTING_LIMIT
    }

    /** `buffer_skip_whitespace`. */
    method SkipWhitespace()
      requires Valid()
      modifies this`offset
      ensures Valid() && offset == Skip(content, old(offset))
    {
      if offset >= |content| {
        return;
      }
      while offset < |content| && content[offset] <= 32
        invariant old(offset) <= offset <= |content|
        invariant BlankEnd(content, offset) == BlankEnd(content, old(offset))
      {
        offset := offset + 1;
      }
      if offset == |content| {
        offset := offset - 1;
      }
    }

    /** `skip_utf8_bom`, which is called at offset 0. */
    method SkipBom()
      requires Valid() && offset == 0
      modifies this`offset
      ensures Valid() && offset == Bom(content)
      ensures offset == if |content| >= 5 && content[..3] == [0xEF, 0xBB, 0xBF] then 3 else 0
    {
      if |content| > 4 && content[0] == 0xEF && content[1] == 0xBB && content[2] == 0xBF {
        offset := 3;
      }
    }

    /** `parse_number`. */
    method ParseNumber(item: Item) returns (r: Outcome, ghost t: seq<Byte>)
      requires Valid() && offset < |content|
      modifies this`offset, item`type_, item`text
      ensures Valid() && Agrees(r, t, offset, NumberAt(content, old(offset))) && r != Fail(true)
      ensures r.Ok? ==> Holds(item, Number(t))
    {
      hide StrtodLength, RunEnd;
      t := [];
      var copy, i := CopyRun(content, offset);
      var length := StrtodLength(copy[..i]);
      if length == 0 {
        return Fail(false), t;
      }
      item.type_, item.text := IsNumber, content[offset..offset + length];
      t := item.text;
      offset := offset + length;
      r := Ok;
    }

    /** `parse_string`. */
    method ParseString(item: Item) returns (r: Outcome, ghost s: seq<Byte>)
      requires Valid() && offset < |content|
      modifies this`offset, item`type_, item`text
      ensures Valid() && Agrees(r, s, offset, StringAt(content, old(offset)))
      ensures r.Ok? ==> Holds(item, String(s))
    {
      hide Decoded, Written, Tokens, Scan;
      s := [];
      if content[offset] != QUOTE {
        offset := offset + 1;
        return Fail(false), s;
      }
      var end, length := FirstPass(content, offset);
      if end.None? {
        offset := offset + 1;
        return Fail(false), s;
      }
      var gotMemory: bool := *;
      if !gotMemory {
        offset := offset + 1;
        return Fail(true), s;
      }
      var output := new Byte[length + 1];
      EstimateSuffices(content, offset + 1, end.value);
      var ok, p, n := SecondPass(content, offset + 1, end.value, output);
      if !ok {
        offset := p;
        return Fail(false), s;
      }
      item.type_, item.text := IsString, output[..n];
      s := item.text;
      offset := end.value + 1;
      r := Ok;
    }

    /** `parse_value`: on success the item, with what was allocated below it, is the tree of the value. */
    method ParseValue(item: Item) returns (r: Outcome, ghost v: Json)
      requires Valid()
      modifies this, item`type_, item`text, item`child, item`children, item`below
      ensures offset <= |content| && depth <= NESTING_LIMIT
      ensures Agrees(r, v, offset, ValueAt(content, old(offset), old(depth)))
      ensures r.Ok? ==> depth == old(depth) && Holds(item, v) && (item.below == old(item.below) || fresh(item.below))
      decreases |content| - offset, 1
    {
      hide StringAt, NumberAt, ArrayAt, ObjectAt;
      v, r := Null, Ok;
      if Reads(content, offset, NULL_TEXT) {
        item.type_, offset := IsNull, offset + 4;
        return;
      }
      if Reads(content, offset, FALSE_TEXT) {
        item.type_, offset, v := IsFalse, offset + 5, False;
        return;
      }
      if Reads(content, offset, TRUE_TEXT) {
        item.type_, offset, v := IsTrue, offset + 4, True;
        return;
      }
      if offset < |content| && content[offset] == QUOTE {
        ghost var s;
        r, s := ParseString(item);
        v := String(s);
        return;
      }
      if offset < |content| && (content[offset] == MINUS || IsDigit(content[offset])) {
        ghost var t;
        r, t := ParseNumber(item);
        v := Number(t);
        return;
      }
      if offset < |content| && content[offset] == OPEN_BRACKET {
        r, v := ParseArray(item);
        return;
      }
      if offset < |content| && content[offset] == OPEN_BRACE {
        r, v := ParseObject(item);
        return;
      }
      r := Fail(false);
    }

    /** `parse_array`. */
    method ParseArray(item: Item) returns (r: Outcome, ghost v: Json)
      requires Valid() && offset < |content| && content[offset] == OPEN_BRACKET
      modifies this, item`type_, item`text, item`child, item`children, item`below
      ensures offset <= |content| && depth <= NESTING_LIMIT
      ensures Agrees(r, v, offset, ArrayAt(content, old(offset), old(depth)))
      ensures r.Ok? ==> depth == old(depth) && Holds(item, v) && fresh(item.below)
      decreases |content| - offset, 0
    {
      hide ValueAt, ElementsAt, Skip, Holds, Growing;
      v := Null;
      if depth >= NESTING_LIMIT {
        return Fail(false), v;
      }
      depth := depth + 1;
      offset := offset + 1;
      SkipWhitespace();
      var head: Item?, current: Item? := null, null;
      ghost var nodes: seq<Item>, all: set<Item>, items: seq<Json> := [], {}, [];
      NothingGrowing();
      if offset < |content| && content[offset] == CLOSE_BRACKET {
        offset := offset + 1;
      } else {
        if offset >= |content| {
          offset := offset - 1;
          return Fail(false), v;
        }
        r, head, current, nodes, all, items := ParseElements();
        if r.Fail? {
          return;
        }
      }
      depth := depth - 1;
      v := Array(items);
      CloseArray(item, head, current, nodes, all, items);
      r := Ok;
    }

    /** Its loop, which starts one byte before the first element and ends behind the bracket. */
    method ParseElements()
      returns (r: Outcome, head: Item?, current: Item?, ghost nodes: seq<Item>, ghost all: set<Item>,
               ghost items: seq<Json>)
      requires Valid() && 0 < offset
      modifies this
      ensures offset <= |content| && depth <= NESTING_LIMIT
      ensures Agrees(r, items, offset, ElementsAt(content, old(offset), old(depth)))
      ensures r.Ok? ==> depth == old(depth) && fresh(all) && Growing(nodes, all, items) && Spans(nodes, head, current)
      ensures r.Ok? ==> head in all
      decreases |content| - offset, 3
    {
      hide ValueAt, ElementsAt, Skip, Growing;
      offset := offset - 1;
      head, current, nodes, all, items := null, null, [], {}, [];
      NothingGrowing();
      var more := true;
      AfterNothing(ElementsAt(content, offset + 1, depth));
      while more
        invariant old(offset) <= offset + 1 <= |content| + 1 && depth == old(depth) <= NESTING_LIMIT
        invariant more ==> offset < |content| || offset + 1 == old(offset)
        invariant more ==>
          && offset + 1 <= |content|
          && ElementsAt(content, old(offset), depth) == After(items, ElementsAt(content, offset + 1, depth))
        invariant !more ==>
          && offset <= |content|
          && ElementsAt(content, old(offset), depth)
             == if Is(content, offset, CLOSE_BRACKET) then Some(Parsed(items, offset + 1)) else None
        invariant fresh(all) && Growing(nodes, all, items) && Spans(nodes, head, current) && (!more ==> head in all)
        invariant current != null ==> current in all && head in all
        decreases more, |content| - offset
      {
        ElementsTurn(content, offset + 1, depth);
        ghost var v;
        r, head, current, nodes, all, v := ParseElement(head, current, nodes, all, items);
        if r.Fail? {
          return;
        }
        if Is(content, offset, COMMA) {
          AfterOne(items, v, ElementsAt(content, offset + 1, depth));
        }
        items := items + [v];
        more := Is(content, offset, COMMA);
      }
      if !Is(content, offset, CLOSE_BRACKET) {
        r := Fail(false);
        return;
      }
      offset := offset + 1;
      r := Ok;
    }

    /** One turn of the loop: a new item at the end of the list, and the value parsed into it. */
    method ParseElement(
      head: Item?, current: Item?, ghost nodes: seq<Item>, ghost all: set<Item>, ghost items: seq<Json>)
      returns (r: Outcome, first: Item?, item: Item?, ghost longer: seq<Item>, ghost more: set<Item>, ghost v: Json)
      requires offset + 1 <= |content| && depth <= NESTING_LIMIT
      requires Growing(nodes, all, items) && Spans(nodes, head, current)
      modifies this, (if current == null then {} else {current})`next
      ensures offset <= |content| && depth <= NESTING_LIMIT
      ensures
        var expected := ValueAt(content, Skip(content, old(offset) + 1), old(depth));
        && (r.Ok? ==> expected.Some? && v == expected.value.value && offset == Skip(content, expected.value.end))
        && (r == Fail(false) ==> expected.None?)
      ensures r.Ok? ==> depth == old(depth) && Growing(longer, more, items + [v]) && Spans(longer, first, item)
      ensures r.Ok? ==> fresh(more - all) && item in more && first in more
      decreases |content| - offset - 1, 2
    {
      hide ValueAt, Skip, Holds, Chained, Inside, Growing;
      first, item, longer, more, v, r := head, current, nodes, all, Null, Ok;
      var gotMemory: bool := *;
      if !gotMemory {
        r := Fail(true);
        return;
      }
      first, item := AttachTo(head, current, nodes, all, items);
      NoneBelow(nodes, all, item);
      offset := offset + 1;
      SkipWhitespace();
      r, v := ParseValue(item);
      if r.Fail? {
        return;
      }
      SkipWhitespace();
      Grown(nodes, all, items, item, v);
      longer, more := nodes + [item], all + {item} + item.below;
    }

    /** `parse_object`. */
    method ParseObject(item: Item) returns (r: Outcome, ghost v: Json)
      requires Valid() && offset < |content| && content[offset] == OPEN_BRACE
      modifies this, item`type_, item`text, item`child, item`children, item`below
      ensures offset <= |content| && depth <= NESTING_LIMIT
      ensures Agrees(r, v, offset, ObjectAt(content, old(offset), old(depth)))
      ensures r.Ok? ==> depth == old(depth) && Holds(item, v) && fresh(item.below)
      decreases |content| - offset, 0
    {
      hide ValueAt, MembersAt, Skip, Holds, Growing, Named;
      v := Null;
      if depth >= NESTING_LIMIT {
        return Fail(false), v;
      }
      depth := depth + 1;
      offset := offset + 1;
      SkipWhitespace();
      var head: Item?, current: Item? := null, null;
      ghost var nodes: seq<Item>, all: set<Item>, members: seq<Member> := [], {}, [];
      NothingNamed();
      if offset < |content| && content[offset] == CLOSE_BRACE {
        offset := offset + 1;
      } else {
        if offset >= |content| {
          offset := offset - 1;
          return Fail(false), v;
        }
        r, head, current, nodes, all, members := ParseMembers();
        if r.Fail? {
          return;
        }
      }
      depth := depth - 1;
      v := Object(members);
      CloseObject(item, head, current, nodes, all, members);
      r := Ok;
    }

    /** The name of a member up to and including its colon; `offset` is at the byte before it. */
    method ParseKey(item: Item) returns (r: Outcome, ghost name: seq<Byte>)
      requires Valid() && offset < |content|
      modifies this`offset, item`type_, item`text, item`name
      ensures offset <= |content|
      ensures Agrees(r, name, offset, KeyAt(content, old(offset) + 1))
      ensures r.Ok? ==> item.name == name
    {
      hide StringAt, Skip;
      name := [];
      if offset + 1 >= |content| {
        return Fail(false), name;
      }
      offset := offset + 1;
      SkipWhitespace();
      r, name := ParseString(item);
      if r.Fail? {
        return;
      }
      SkipWhitespace();
      item.name, item.text := item.text, [];
      if !Is(content, offset, COLON) {
        r := Fail(false);
        return;
      }
      offset := offset + 1;
    }

    /** Its loop. */
    method ParseMembers()
      returns (r: Outcome, head: Item?, current: Item?, ghost nodes: seq<Item>, ghost all: set<Item>,
               ghost members: seq<Member>)
      requires Valid() && 0 < offset
      modifies this
      ensures offset <= |content| && depth <= NESTING_LIMIT
      ensures Agrees(r, members, offset, MembersAt(content, old(offset), old(depth)))
      ensures r.Ok? ==> depth == old(depth) && fresh(all) && Growing(nodes, all, ValuesOf(members))
      ensures r.Ok? ==> Spans(nodes, head, current) && head in all && Named(nodes, members)
      decreases |content| - offset, 3
    {
      hide ValueAt, MembersAt, KeyAt, Skip, Growing, Named;
      offset := offset - 1;
      head, current, nodes, all, members := null, null, [], {}, [];
      NothingNamed();
      var more := true;
      AfterNothing(MembersAt(content, offset + 1, depth));
      while more
        invariant old(offset) <= offset + 1 <= |content| + 1 && depth == old(depth) <= NESTING_LIMIT
        invariant more ==>
          && offset + 1 <= |content|
          && MembersAt(content, old(offset), depth) == After(members, MembersAt(content, offset + 1, depth))
        invariant !more ==>
          && offset <= |content|
          && MembersAt(content, old(offset), depth)
             == if Is(content, offset, CLOSE_BRACE) then Some(Parsed(members, offset + 1)) else None
        invariant fresh(all) && Growing(nodes, all, ValuesOf(members)) && Spans(nodes, head, current)
        invariant !more ==> head in all
        invariant current != null ==> current in all && head in all
        invariant Named(nodes, members)
        decreases more, |content| - offset
      {
        MembersTurn(content, offset + 1, depth);
        ghost var m;
        r, head, current, nodes, all, m := ParseMember(head, current, nodes, all, members);
        if r.Fail? {
          return;
        }
        if Is(content, offset, COMMA) {
          AfterOne(members, m, MembersAt(content, offset + 1, depth));
        }
        members := members + [m];
        more := Is(content, offset, COMMA);
      }
      if !Is(content, offset, CLOSE_BRACE) {
        r := Fail(false);
        return;
      }
      offset := offset + 1;
      r := Ok;
    }

    /** One turn of that loop: a new item at the end of the list, and a name and a value parsed into it. */
    method ParseMember(
      head: Item?, current: Item?, ghost nodes: seq<Item>, ghost all: set<Item>, ghost members: seq<Member>)
      returns (r: Outcome, first: Item?, item: Item?, ghost longer: seq<Item>, ghost more: set<Item>, ghost m: Member)
      requires offset + 1 <= |content| && depth <= NESTING_LIMIT
      requires Growing(nodes, all, ValuesOf(members)) && Spans(nodes, head, current) && Named(nodes, members)
      modifies this, (if current == null then {} else {current})`next
      ensures offset <= |content| && depth <= NESTING_LIMIT
      ensures r.Ok? ==> depth == old(depth) && offset > old(offset)
      ensures Follows(r, m, offset, KeyAt(content, old(offset) + 1), old(depth))
      ensures r.Ok? ==> Growing(longer, more, ValuesOf(members + [m])) && Spans(longer, first, item)
      ensures r.Ok? ==> Named(longer, members + [m])
      ensures r.Ok? ==> fresh(more - all) && item in more && first in more
      decreases |content| - offset - 1, 2
    {
      hide ValueAt, KeyAt, Skip, Holds, Chained, Inside, Growing;
      first, item, longer, more, m, r := head, current, nodes, all, Member([], Null), Ok;
      var gotMemory: bool := *;
      if !gotMemory {
        r := Fail(true);
        return;
      }
      first, item := AttachTo(head, current, nodes, all, ValuesOf(members));
      NoneBelow(nodes, all, item);
      r, m := ParsePair(item);
      if r.Fail? {
        return;
      }
      Grown(nodes, all, ValuesOf(members), item, m.value);
      assert ValuesOf(members) + [m.value] == ValuesOf(members + [m]);
      longer, more := nodes + [item], all + {item} + item.below;
    }

    /** The name, the colon and the value of one member. */
    method ParsePair(item: Item) returns (r: Outcome, ghost m: Member)
      requires offset + 1 <= |content| && depth <= NESTING_LIMIT
      modifies this, item`type_, item`text, item`name, item`child, item`children, item`below
      ensures offset <= |content| && depth <= NESTING_LIMIT
      ensures Follows(r, m, offset, KeyAt(content, old(offset) + 1), old(depth))
      ensures r.Ok? ==> depth == old(depth) && offset > old(offset) && item.name == m.name
      ensures r.Ok? ==> Holds(item, m.value) && (item.below == old(item.below) || fresh(item.below))
      decreases |content| - offset - 1, 1
    {
      hide ValueAt, KeyAt, Skip, Holds;
      m := Member([], Null);
      if offset + 1 >= |content| {
        return Fail(false), m;
      }
      ghost var name, v;
      r, name := ParseKey(item);
      if r.Fail? {
        return;
      }
      SkipWhitespace();
      r, v := ParseValue(item);
      if r.Fail? {
        return;
      }
      SkipWhitespace();
      m := Member(name, v);
    }

    /** What one turn of the member loop gives, after the name at `key`. */
    ghost predicate Follows(r: Outcome, m: Member, end: nat, key: Option<Parsed<seq<Byte>>>, depth: nat)
      requires key.Some? ==> key.value.end <= |content|
    {
      var v := if key.None? then None else ValueAt(content, Skip(content, key.value.end), depth);
      match r
      case Ok => v.Some? && m == Member(key.value.value, v.value.value) && end == Skip(content, v.value.end)
      case Fail(oom) => oom || v.None?
    }
  }

  // ---------------------------------------------------------------- whole documents

  /** The bytes of a byte order mark at the start, which is only looked for in five bytes or more. */
  function Bom(c: seq<Byte>): (n: nat)
    ensures n <= |c|
  {
    if |c| > 4 && c[0] == 0xEF && c[1] == 0xBB && c[2] == 0xBF then 3 else 0
  }

  /** `c` is a document of `v` that ends at `e`; white space before it is skipped. */
  ghost predicate Document(c: seq<Byte>, v: Json, e: nat) {
    exists o: nat :: Blank(c, Bom(c), o) && Val(c, o, e, v)
  }

  /** Behind the document the first byte that is no white space, or the last byte, is the terminator. */
  ghost predicate Terminated(c: seq<Byte>, e: nat) {
    e <= |c| && Is(c, Skip(c, e), 0)
  }

  lemma DocumentIsParsed(c: seq<Byte>, v: Json, e: nat)
    ensures ValueAt(c, Skip(c, Bom(c)), 0) == Some(Parsed(v, e)) <==> Document(c, v, e) && Depth(v) <= NESTING_LIMIT
  {
    hide ValueAt, Val;
    var o := Skip(c, Bom(c));
    ParserIsGrammar(c, o, e, v, 0);
    if o': nat :| Blank(c, Bom(c), o') && Val(c, o', e, v) {
      ValStarts(c, o', e, v);
      SkipFinds(c, Bom(c), o');
    }
  }

  /** The same, by the grammar of the RFC. */
  ghost predicate RfcDocument(c: seq<Byte>, v: Json, e: nat) {
    exists o: nat :: Rfc.Ws(c, Bom(c), o) && Rfc.RfcVal(c, o, e, v)
  }

  /**
    Every document of the RFC whose surrogates all come in pairs is parsed to its value when its nesting is within
    the limit, and what is parsed is such a document when its numbers, its strings and its white space are as the
    RFC wants them.
  */
  lemma RfcDocumentIsParsed(c: seq<Byte>, v: Json, e: nat)
    ensures RfcDocument(c, v, e) && Depth(v) <= 1000 && e <= |c| && Rfc.PairedText(c, Bom(c), e) <==>
      && ValueAt(c, Skip(c, Bom(c)), 0) == Some(Parsed(v, e))
      && Rfc.RfcNumbers(v) && (v.Number? ==> Rfc.NumberStops(c, e))
      && Bom(c) <= e <= |c| && Rfc.CleanText(c, Bom(c), e)
  {
    hide ValueAt, Val, Rfc.RfcVal, Rfc.CleanText, Rfc.PairedText, Rfc.RfcNumbers, Rfc.Reaches, Depth, Skip;
    var b, o := Bom(c), Skip(c, Bom(c));
    Rfc.ParserIsRfc(c, o, e, v, 0);
    if RfcDocument(c, v, e) {
      StartsAt(c, v, e);
      Rfc.CleanSkips(c, b, o, e);
    }
    if ValueAt(c, o, 0) == Some(Parsed(v, e)) && e <= |c| && Rfc.CleanText(c, b, e) {
      Rfc.CleanSkips(c, b, o, e);
      Rfc.BlankOutsideIsWs(c, b, o);
    }
  }

  lemma StartsAt(c: seq<Byte>, v: Json, e: nat)
    requires RfcDocument(c, v, e)
    ensures var o := Skip(c, Bom(c)); Rfc.Ws(c, Bom(c), o) && Rfc.RfcVal(c, o, e, v) && o <= e <= |c|
  {
    hide Rfc.RfcVal, Rfc.Reaches, Rfc.PairedText, Rfc.CleanText, Rfc.RfcNumbers, Val, Skip;
    var o: nat :| Rfc.Ws(c, Bom(c), o) && Rfc.RfcVal(c, o, e, v);
    Rfc.RfcIsVal(c, o, e, v);
    Refusal.RfcStarts(c, o, e, v);
    Rfc.WsIsBlank(c, Bom(c), o);
    SkipFinds(c, Bom(c), o);
  }

  /** A document of the RFC within the limits is read if and only if all surrogates in it come in pairs. */
  lemma RfcDocumentIsReadIff(c: seq<Byte>, v: Json, e: nat)
    requires RfcDocument(c, v, e) && Depth(v) <= 1000
    ensures Bom(c) <= e <= |c|
    ensures ValueAt(c, Skip(c, Bom(c)), 0).Some? <==> Rfc.PairedText(c, Bom(c), e)
  {
    hide ValueAt, Rfc.RfcVal, Rfc.PairedText, Rfc.CleanText, Depth, Skip;
    var o := Skip(c, Bom(c));
    StartsAt(c, v, e);
    Rfc.CleanSkips(c, Bom(c), o, e);
    Refusal.RfcIsReadIffPaired(c, o, e, v, 0);
  }

  /** What a caller may ask of the end of the text. */
  ghost predicate Ends(c: seq<Byte>, e: nat, requireTerminator: bool) {
    requireTerminator ==> Terminated(c, e)
  }

  /**
    `loader_cJSON_ParseWithLengthOpts`: the item returned is the tree of the value of the document.  Without
    memory it fails, and otherwise only on what is no document.
  */
  method Parse(c: seq<Byte>, requireTerminator: bool)
    returns (item: Item?, outOfMemory: bool, ghost v: Json, ghost e: nat)
    ensures item != null ==> Document(c, v, e) && Depth(v) <= 1000 && Ends(c, e, requireTerminator)
    ensures item != null ==> fresh(item) && fresh(item.below) && Holds(item, v)
    ensures item != null ==> item.next == null && item.prev == null
    ensures item == null && !outOfMemory ==>
      forall v', e': nat :: Document(c, v', e') && Depth(v') <= 1000 ==> !Ends(c, e', requireTerminator)
  {
    hide ValueAt, Document, Skip, Bom, Holds;
    forall v', e': nat
      ensures ValueAt(c, Skip(c, Bom(c)), 0) == Some(Parsed(v', e')) <==>
        Document(c, v', e') && Depth(v') <= NESTING_LIMIT
    {
      DocumentIsParsed(c, v', e');
    }
    item, outOfMemory, v, e := null, true, Null, 0;
    var gotMemory: bool := *;
    if !gotMemory {
      return;
    }
    var root := new Item();
    var buffer := new ParseBuffer(c);
    buffer.SkipBom();
    buffer.SkipWhitespace();
    var r;
    r, v := buffer.ParseValue(root);
    e := buffer.offset;
    if r.Fail? {
      outOfMemory := r.outOfMemory;
      return;
    }
    if requireTerminator {
      buffer.SkipWhitespace();
      if !Is(c, buffer.offset, 0) {
        outOfMemory := false;
        return;
      }
    }
    item, outOfMemory := root, false;
  }
}
