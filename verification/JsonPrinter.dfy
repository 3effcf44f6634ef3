/**
  The printer of `cJSON.c`: a buffer that is reallocated as needed, and the recursive printing of values
  into it.
*/
module JsonPrinter {
  import opened Utf8
  import opened JsonGrammar
  import opened JsonRender

  /** How a step of printing ends. */
  datatype Outcome = Done | NoMemory | NoSpace | BadNumber

  lemma Reached(bytes: seq<Byte>, before: seq<Byte>, text: seq<Byte>, zero: seq<Byte>)
    requires |before| + |text| + |zero| <= |bytes| && |zero| <= 1
    requires bytes[..|before| + |text| + |zero|] == before + (text + zero)
    ensures bytes[..|before| + |text|] == before + text
    ensures zero != [] ==> bytes[|before| + |text|] == zero[0]
  {
    var all := bytes[..|before| + |text| + |zero|];
    assert all[..|before| + |text|] == bytes[..|before| + |text|];
    assert (before + (text + zero))[..|before| + |text|] == before + text;
    if zero != [] {
      assert all[|before| + |text|] == zero[0];
    }
  }

  lemma ZeroOverZero(was: seq<Byte>, now: seq<Byte>, p: nat)
    requires p < |was| == |now| && was[p] == 0 && now[..p + 1] == was[..p] + [0]
    requires forall k :: p < k < |now| ==> now[k] == was[k]
    ensures now == was
  {
    forall k | 0 <= k < |now| ensures now[k] == was[k] {
      if k <= p {
        assert now[k] == now[..p + 1][k];
      }
    }
  }

  lemma NotYetZero(bytes: seq<Byte>, before: seq<Byte>, text: seq<Byte>)
    requires |before| + |text| <= |bytes| && bytes[..|before| + |text|] == before + text && 0 !in text
    ensures forall k :: |before| <= k < |before| + |text| ==> bytes[k] != 0
  {
    forall k | |before| <= k < |before| + |text| ensures bytes[k] != 0 {
      assert bytes[k] == bytes[..|before| + |text|][k] == text[k - |before|];
    }
  }

  class PrintBuffer {
    var bytes: seq<Byte>       // the buffer; its length is the length on record
    var released: bool         // the buffer is gone after a failed reallocation
    var offset: nat
    var depth: nat
    const noalloc: bool
    const format: bool
    const zeroing: bool        // a grown buffer comes with zeroes behind the old bytes

    constructor (bytes: seq<Byte>, noalloc: bool, format: bool, zeroing: bool)
      ensures this.bytes == bytes && offset == 0 && depth == 0 && !released
      ensures this.noalloc == noalloc && this.format == format && this.zeroing == zeroing
    {
      this.bytes, offset, depth, released := bytes, 0, 0, false;
      this.noalloc, this.format, this.zeroing := noalloc, format, zeroing;
    }

    /** The offset is inside the buffer, and behind `end` a zeroing buffer holds zeroes. */
    ghost predicate Valid(end: nat)
      reads this
    {
      && !released && |bytes| <= INT_MAX
      && offset <= end && (end < |bytes| || (bytes == [] && end == 0))
      && (zeroing ==> forall k :: end <= k < |bytes| ==> bytes[k] == 0)
    }

    /** How long the buffer can get. */
    ghost function Limit(): nat
      reads this
    {
      if noalloc then |bytes| else INT_MAX
    }

    /** What has been printed and stepped over. */
    ghost function Text(): seq<Byte>
      requires offset <= |bytes|
      reads this
    {
      bytes[..offset]
    }

    /** `ensure`: room for `needed` bytes and one more, unless memory or the limit stands against it. */
    method Ensure(needed: nat) returns (r: Outcome)
      requires Valid(offset)
      modifies this`bytes, this`released
      ensures r == Done ==> Valid(offset) && offset + needed + 1 <= |bytes| && old(bytes) <= bytes
      ensures r == NoSpace ==> offset + needed + 1 > old(Limit())
      ensures r == Done ==> |bytes| == if offset + needed + 1 <= |old(bytes)| then |old(bytes)|
        else if offset + needed + 1 <= 0x3FFF_FFFF then 2 * (offset + needed + 1) else 0x7FFF_FFFF
      ensures noalloc ==> bytes == old(bytes) && r != NoMemory
      ensures r != BadNumber
    {
      if released {
        return NoMemory;
      }
      if |bytes| > 0 && offset >= |bytes| {
        return NoSpace;
      }
      if needed > INT_MAX {
        return NoSpace;
      }
      var total := needed + offset + 1;
      if total <= |bytes| {
        return Done;
      }
      if noalloc {
        return NoSpace;
      }
      var size := 0;
      if total > INT_MAX / 2 {
        if total <= INT_MAX {
          size := INT_MAX;
        } else {
          return NoSpace;
        }
      } else {
        size := total * 2;
      }
      var room: bool := *;
      if !room {
        bytes, released := [], true;
        return NoMemory;
      }
      var behind: seq<Byte> := *;
      behind := seq(size - |bytes|, i => if !zeroing && 0 <= i < |behind| then behind[i] else 0);
      bytes := bytes + behind;
      return Done;
    }

    /** Stores bytes from the position on. */
    method Store(at: nat, text: seq<Byte>)
      requires at + |text| <= |bytes|
      modifies this`bytes
      ensures |bytes| == |old(bytes)|
      ensures bytes[..at + |text|] == old(bytes)[..at] + text
      ensures forall k :: at + |text| <= k < |bytes| ==> bytes[k] == old(bytes)[k]
    {
      bytes := bytes[..at] + text + bytes[at + |text|..];
    }

    /** A text and the zero byte that ends it stand behind what was there before. */
    ghost predicate Pending(before: seq<Byte>, text: seq<Byte>)
      reads this
    {
      var end := |before| + |text|;
      && Valid(end) && |before| <= offset && end + 2 <= |bytes|
      && bytes[..end] == before + text && bytes[end] == 0
    }

    /** Reserves space, stores a text and steps over it. */
    method Append(text: seq<Byte>, needed: nat, terminated: bool) returns (r: Outcome)
      requires Valid(offset) && |text| + (if terminated then 1 else 0) <= needed
      modifies this`bytes, this`released, this`offset
      ensures r == Done ==> Valid(offset) && offset < |bytes| && Text() == old(Text()) + text
      ensures r == NoSpace ==> old(offset) + needed + 1 > old(Limit())
      ensures noalloc ==> |bytes| == |old(bytes)| && r != NoMemory
      ensures r != BadNumber
    {
      r := Ensure(needed);
      if r == Done {
        ghost var before := Text();
        Store(offset, if terminated then text + [0] else text);
        Reached(bytes, before, text, if terminated then [0] else []);
        offset := offset + |text|;
      }
    }

    /** Reserves space and stores a text with its end, without stepping over it. */
    method Finish(text: seq<Byte>) returns (r: Outcome)
      requires Valid(offset)
      modifies this`bytes, this`released
      ensures r == Done ==> Pending(old(Text()), text)
      ensures r == NoSpace ==> offset + |text| + 2 > old(Limit())
      ensures noalloc ==> |bytes| == |old(bytes)| && r != NoMemory
      ensures r != BadNumber
    {
      r := Ensure(|text| + 1);
      if r == Done {
        StoreWithEnd(text);
      }
    }

    method StoreWithEnd(text: seq<Byte>)
      requires Valid(offset) && offset + |text| + 2 <= |bytes|
      modifies this`bytes
      ensures Pending(old(Text()), text) && |bytes| == |old(bytes)|
    {
      ghost var before := Text();
      Store(offset, text + [0]);
      Reached(bytes, before, text, [0]);
    }

    /** `update_offset`: steps over the text, wherever in it the offset stands. */
    method UpdateOffset(ghost before: seq<Byte>, ghost text: seq<Byte>)
      requires Pending(before, text) && 0 !in text
      modifies this`offset
      ensures Valid(offset) && offset < |bytes| && Text() == before + text
    {
      NotYetZero(bytes, before, text);
      while bytes[offset] != 0
        invariant |before| <= offset <= |before| + |text| < |bytes|
        decreases |bytes| - offset
      {
        offset := offset + 1;
      }
    }

    /** `print_number`, given the text of the number. */
    method PrintNumber(t: seq<Byte>) returns (r: Outcome)
      requires Valid(offset)
      modifies this`bytes, this`released, this`offset
      ensures r == Done ==> Pending(old(Text()), CString(t))
      ensures r == NoSpace ==> old(offset) + |CString(t)| + 2 > old(Limit())
      ensures r == BadNumber <==> |CString(t)| >= 26
      ensures noalloc ==> |bytes| == |old(bytes)| && r != NoMemory
    {
      var text := CString(t);
      if |text| > NUMBER_BUFFER - 1 {
        return BadNumber;
      }
      r := Finish(text);
      if r == Done {
        offset := offset + |text|;
      }
    }

    /** The next character of the escaped copy. */
    method ShowOne(at: nat, b: Byte, size: nat, ghost done: seq<Byte>)
      requires Cost(b) <= size && at + size < |bytes| && at == |done| && bytes[..at] == done
      requires forall k :: at <= k < |bytes| ==> bytes[k] == 0
      modifies this`bytes
      ensures |bytes| == |old(bytes)| && bytes[..at + |Shown(b)|] == done + Shown(b)
      ensures forall k :: at + |Shown(b)| <= k < |bytes| ==> bytes[k] == 0
    {
      if ByNumber(b) {
        Format(at, size, Shown(b));
        Reached(bytes, done, Shown(b), [0]);
      } else {
        Store(at, [b]);
      }
    }

    /** The escaped copy of `print_string_ptr`, in a buffer that holds zeroes behind the offset. */
    method CopyShown(text: seq<Byte>, length: nat)
      requires Valid(offset) && zeroing && length == CostAll(text) && offset + length + 2 <= |bytes|
      modifies this`bytes
      ensures |bytes| == |old(bytes)| && Pending(old(Text()), ShownAll(text))
    {
      hide Shown, ShownAll, Cost, CostAll;
      ghost var before := Text();
      ghost var size := |bytes|;
      var at := offset;
      var i := 0;
      ShownNone(text);
      assert before + [] == before;
      while i < |text|
        invariant i <= |text| && |bytes| == size
        invariant offset <= at == offset + |ShownAll(text[..i])| <= offset + CostAll(text[..i])
        invariant CostAll(text[..i]) <= length
        invariant bytes[..at] == before + ShownAll(text[..i])
        invariant forall k :: at <= k < |bytes| ==> bytes[k] == 0
      {
        var b := text[i];
        CostStep(text, i);
        ShownStep(text, i);
        ghost var done := before + ShownAll(text[..i]);
        assert done + Shown(b) == before + (ShownAll(text[..i]) + Shown(b));
        ShowOne(at, b, length - (at - offset), done);
        at := at + |Shown(b)|;
        i := i + 1;
      }
      assert text[..i] == text;
      ghost var written := bytes;
      Store(offset + length, [0]);
      ZeroOverZero(written, bytes, offset + length);
    }

    /** `snprintf` into a space of the given size. */
    method Format(at: nat, size: nat, text: seq<Byte>)
      requires 0 < size && at + size <= |bytes|
      modifies this`bytes
      ensures |bytes| == |old(bytes)|
      ensures |text| < size ==> bytes[..at + |text| + 1] == old(bytes)[..at] + (text + [0])
      ensures |text| < size ==> forall k :: at + |text| + 1 <= k < |bytes| ==> bytes[k] == old(bytes)[k]
    {
      Store(at, (if |text| < size then text else text[..size - 1]) + [0]);
    }

    /** `print_string_ptr`. */
    method PrintString(s: seq<Byte>) returns (r: Outcome)
      requires Valid(offset) && (zeroing || PlainString(s))
      modifies this`bytes, this`released
      ensures r == Done ==> Pending(old(Text()), ShownAll(CString(s)))
      ensures r == NoSpace && PlainString(s) ==> offset + |ShownAll(CString(s))| + 2 > old(Limit())
      ensures r != BadNumber
      ensures noalloc ==> |bytes| == |old(bytes)| && r != NoMemory
    {
      hide CString, ShownAll, CostAll, PlainString;
      var text := CString(s);
      var escapes := CountEscapes(text);
      var length := |text| + escapes;
      PlainHasNoEscapes(s);
      r := Ensure(length + 1);
      if r == Done && escapes == 0 {
        CostIsLength(text);
        StoreWithEnd(text);
      } else if r == Done {
        CopyShown(text, length);
      }
    }

    /**
      What printing a text promises: on success the text stands behind the old one, however often the
      buffer was reallocated; for a plain text only the limit or memory stands against it.
    */
    ghost predicate Printed(r: Outcome, before: seq<Byte>, text: seq<Byte>, plain: bool, limit: nat, size: nat)
      reads this
    {
      && (r == Done ==> Pending(before, text))
      && (r == NoSpace && plain ==> |before| + |text| + 2 > limit)
      && (r == BadNumber ==> !plain)
      && (noalloc ==> |bytes| == size && r != NoMemory)
    }

    /** `print_value`. */
    method PrintValue(v: Json) returns (r: Outcome)
      requires Valid(offset) && (zeroing || Plain(v))
      modifies this
      ensures Printed(r, old(Text()), Render(v, format, old(depth)), Plain(v), old(Limit()), old(|bytes|))
      ensures depth >= old(depth) && (r == Done ==> depth == old(depth))
      decreases v, 2
    {
      match v
      case Null => r := Finish(NULL_TEXT);
      case False => r := Finish(FALSE_TEXT);
      case True => r := Finish(TRUE_TEXT);
      case Number(t) => r := PrintNumber(t);
      case String(s) => r := PrintString(s);
      case Array(items) => r := PrintArray(items);
      case Object(members) => r := PrintObject(members);
    }

    /** Part of the text is printed, and the rest is still to come. */
    ghost predicate Along(total: seq<Byte>, rest: seq<Byte>, from: nat, limit: nat, size: nat)
      reads this
    {
      && Valid(offset) && from <= offset < |bytes| && (noalloc ==> |bytes| == size) && limit == Limit()
      && Text() + rest == total
    }

    /** `print_array`. */
    method PrintArray(items: seq<Json>) returns (r: Outcome)
      requires Valid(offset) && (zeroing || PlainItems(items))
      modifies this
      ensures Printed(
        r, old(Text()), [OPEN_BRACKET] + RenderItems(items, format, old(depth) + 1), PlainItems(items),
        old(Limit()), old(|bytes|))
      ensures depth >= old(depth) && (r == Done ==> depth == old(depth))
      decreases items, 1
    {
      hide RenderItems, PlainItems;
      ghost var before, rest := Text(), RenderItems(items, format, depth + 1);
      r := Append([OPEN_BRACKET], 1, false);
      if r != Done {
        return;
      }
      depth := depth + 1;
      r := PrintItems(items);
      Regroup(before, [OPEN_BRACKET], rest);
      if r == Done {
        depth := depth - 1;
      }
    }

    /** Its loop over the children, and the closing bracket. */
    method PrintItems(items: seq<Json>) returns (r: Outcome)
      requires Valid(offset) && offset < |bytes| && (zeroing || PlainItems(items)) && depth > 0
      modifies this
      ensures Printed(
        r, old(Text()), RenderItems(items, format, old(depth)), PlainItems(items), old(Limit()), old(|bytes|))
      ensures depth >= old(depth) && (r == Done ==> depth == old(depth))
      decreases items, 0
    {
      hide RenderItem, RenderItems, PlainItems, Plain;
      ghost var before := Text();
      ghost var total := before + RenderItems(items, format, depth);
      ghost var limit, size, plain := Limit(), |bytes|, PlainItems(items);
      var i := 0;
      assert items[0..] == items;
      while i < |items|
        invariant i <= |items| && depth == old(depth)
        invariant Along(total, RenderItems(items[i..], format, depth), |before|, limit, size)
        invariant plain ==> PlainItems(items[i..])
        invariant zeroing || plain
        decreases |items| - i
      {
        ItemsStep(items, i, format, depth);
        ghost var here := Text();
        r := PrintItem(items[i], i + 1 < |items|);
        if r != Done {
          return;
        }
        Regroup(here, RenderItem(items[i], format, depth, i + 1 < |items|), RenderItems(items[i + 1..], format, depth));
        i := i + 1;
      }
      ItemsEnd(items[i..], format, depth);
      r := Finish([CLOSE_BRACKET]);
    }

    method PrintItem(v: Json, more: bool) returns (r: Outcome)
      requires Valid(offset) && (zeroing || Plain(v))
      modifies this
      ensures r == Done ==> Valid(offset) && offset < |bytes| && depth == old(depth)
      ensures depth >= old(depth)
      ensures r == Done ==> Text() == old(Text()) + RenderItem(v, format, depth, more)
      ensures r == NoSpace && Plain(v) ==>
        old(offset) + |RenderItem(v, format, old(depth), more)| + (if more then 1 else 0) + 2 > old(Limit())
      ensures r == BadNumber ==> !Plain(v)
      ensures noalloc ==> |bytes| == old(|bytes|) && r != NoMemory
      decreases v, 3
    {
      ghost var before, text := Text(), Render(v, format, depth);
      r := PrintValue(v);
      if r != Done {
        return;
      }
      NoZeroIn(v, format, depth);
      UpdateOffset(before, text);
      if more {
        r := Append(Between(format), |Between(format)| + 1, true);
        Regroup(before, text, Between(format));
      }
    }

    /** `print_object`. */
    method PrintObject(members: seq<Member>) returns (r: Outcome)
      requires Valid(offset) && (zeroing || PlainMembers(members))
      modifies this
      ensures Printed(
        r, old(Text()), ObjectStart(format) + RenderMembers(members, format, old(depth) + 1), PlainMembers(members),
        old(Limit()), old(|bytes|))
      ensures depth >= old(depth) && (r == Done ==> depth == old(depth))
      decreases members, 1
    {
      hide RenderMembers, PlainMembers;
      ghost var before, rest := Text(), RenderMembers(members, format, depth + 1);
      r := Append(ObjectStart(format), |ObjectStart(format)| + 1, false);
      if r != Done {
        return;
      }
      depth := depth + 1;
      r := PrintMembers(members);
      Regroup(before, ObjectStart(format), rest);
      if r == Done {
        depth := depth - 1;
      }
    }

    /** Its loop over the children, and the closing bracket. */
    method PrintMembers(members: seq<Member>) returns (r: Outcome)
      requires Valid(offset) && offset < |bytes| && (zeroing || PlainMembers(members)) && depth > 0
      modifies this
      ensures Printed(
        r, old(Text()), RenderMembers(members, format, old(depth)), PlainMembers(members), old(Limit()), old(|bytes|))
      ensures depth >= old(depth) && (r == Done ==> depth == old(depth))
      decreases members, 0
    {
      hide RenderMember, RenderMembers, PlainMembers, Plain, PlainString, ObjectEnd;
      ghost var before := Text();
      ghost var total := before + RenderMembers(members, format, depth);
      ghost var limit, size, plain := Limit(), |bytes|, PlainMembers(members);
      var i := 0;
      assert members[0..] == members;
      while i < |members|
        invariant i <= |members| && depth == old(depth)
        invariant Along(total, RenderMembers(members[i..], format, depth), |before|, limit, size)
        invariant plain ==> PlainMembers(members[i..])
        invariant zeroing || plain
        decreases |members| - i
      {
        MembersStep(members, i, format, depth);
        ghost var here := Text();
        r := PrintMember(members[i], i + 1 < |members|);
        if r != Done {
          return;
        }
        Regroup(
          here, RenderMember(members[i], format, depth, i + 1 < |members|),
          RenderMembers(members[i + 1..], format, depth));
        i := i + 1;
      }
      MembersEnd(members[i..], format, depth);
      r := Finish(ObjectEnd(format, depth));
    }

    method PrintKey(name: seq<Byte>) returns (r: Outcome)
      requires Valid(offset) && (zeroing || PlainString(name))
      modifies this`bytes, this`released, this`offset
      ensures r == Done ==> Valid(offset) && offset < |bytes| && Text() == old(Text()) + RenderKey(name, format, depth)
      ensures r == NoSpace && PlainString(name) ==> old(offset) + |RenderKey(name, format, depth)| + 1 > old(Limit())
      ensures r != BadNumber
      ensures noalloc ==> |bytes| == old(|bytes|) && r != NoMemory
    {
      hide ShownAll, CString, PlainString;
      ghost var before, key := Text(), ShownAll(CString(name));
      var indent := if format then Tabs(depth) else [];
      if format {
        r := Append(indent, depth, false);
        if r != Done {
          return;
        }
      }
      ghost var indented := Text();
      assert indented == before + indent;
      r := PrintString(name);
      if r != Done {
        return;
      }
      UpdateOffset(indented, key);
      r := Append(AfterKey(format), |AfterKey(format)|, false);
      Regroup(indented, key, AfterKey(format));
      Regroup(before, indent, key + AfterKey(format));
    }

    method PrintMember(m: Member, more: bool) returns (r: Outcome)
      requires Valid(offset) && (zeroing || (PlainString(m.name) && Plain(m.value)))
      modifies this
      ensures r == Done ==> Valid(offset) && offset < |bytes| && depth == old(depth)
      ensures depth >= old(depth)
      ensures r == Done ==> Text() == old(Text()) + RenderMember(m, format, depth, more)
      ensures r == NoSpace && PlainString(m.name) && Plain(m.value) ==>
        old(offset) + |RenderMember(m, format, old(depth), more)| + 2 > old(Limit())
      ensures r == BadNumber ==> !Plain(m.value)
      ensures noalloc ==> |bytes| == old(|bytes|) && r != NoMemory
      decreases m, 3
    {
      hide Render, RenderKey, Plain, PlainString;
      ghost var before, key := Text(), RenderKey(m.name, format, depth);
      ghost var value, after := Render(m.value, format, depth), AfterMember(format, more);
      r := PrintKey(m.name);
      if r != Done {
        return;
      }
      ghost var here := Text();
      r := PrintValue(m.value);
      if r != Done {
        return;
      }
      NoZeroIn(m.value, format, depth);
      UpdateOffset(here, value);
      r := Append(AfterMember(format, more), |AfterMember(format, more)| + 1, true);
      Regroup(here, value, after);
      Regroup(before, key, value + after);
    }
  }

  const DEFAULT_BUFFER_SIZE: nat := 256

  /** `loader_cJSON_Print`: the rendering and a zero byte, unless memory or the limit of sizes stands against it. */
  method Print(v: Json, format: bool, zeroing: bool) returns (r: Outcome, printed: seq<Byte>)
    requires zeroing || Plain(v)
    ensures r == Done ==> printed == Render(v, format, 0) + [0]
    ensures r == NoSpace && Plain(v) ==> |Render(v, format, 0)| + 2 > 0x7FFF_FFFF
    ensures r == BadNumber ==> !Plain(v)
  {
    hide Render;
    printed := [];
    var room: bool := *;
    if !room {
      return NoMemory, printed;
    }
    var buffer := new PrintBuffer(seq(DEFAULT_BUFFER_SIZE, _ => 0), false, format, zeroing);
    r := buffer.PrintValue(v);
    if r != Done {
      return;
    }
    NoZeroIn(v, format, 0);
    buffer.UpdateOffset([], Render(v, format, 0));
    room := *;
    if !room {
      return NoMemory, printed;
    }
    printed := buffer.bytes[..buffer.offset + 1];
  }

  /**
    `loader_cJSON_PrintPreallocated`: for a plain value it succeeds exactly when the buffer has room for
    the rendering and two more bytes, one more than the zero byte takes.
  */
  method PrintPreallocated(v: Json, buffer: seq<Byte>, length: int, format: bool) returns (ok: bool, printed: seq<Byte>)
    requires Plain(v) && length <= 0x7FFF_FFFF && (length >= 0 ==> length == |buffer|)
    ensures ok <==> |Render(v, format, 0)| + 2 <= length
    ensures ok ==> |printed| == |buffer| && Render(v, format, 0) + [0] <= printed
  {
    hide Render, Plain;
    printed := buffer;
    if length < 0 {
      return false, printed;
    }
    var p := new PrintBuffer(buffer, true, format, false);
    var r := p.PrintValue(v);
    ok, printed := r == Done, p.bytes;
    if ok {
      assert printed[..|Render(v, format, 0)| + 1] == Render(v, format, 0) + [0];
    }
  }

  lemma Regroup(a: seq<Byte>, b: seq<Byte>, c: seq<Byte>)
    ensures a + (b + c) == a + b + c
  {
  }

  lemma ItemsStep(items: seq<Json>, i: nat, format: bool, depth: nat)
    requires i < |items|
    ensures RenderItems(items[i..], format, depth)
         == RenderItem(items[i], format, depth, i + 1 < |items|) + RenderItems(items[i + 1..], format, depth)
    ensures PlainItems(items[i..]) ==> Plain(items[i]) && PlainItems(items[i + 1..])
  {
    hide RenderItem, Plain;
    assert items[i..][1..] == items[i + 1..];
  }

  lemma ItemsEnd(items: seq<Json>, format: bool, depth: nat)
    requires items == []
    ensures RenderItems(items, format, depth) == [CLOSE_BRACKET]
  {
  }

  lemma MembersStep(members: seq<Member>, i: nat, format: bool, depth: nat)
    requires i < |members| && depth > 0
    ensures RenderMembers(members[i..], format, depth)
         == RenderMember(members[i], format, depth, i + 1 < |members|) + RenderMembers(members[i + 1..], format, depth)
    ensures PlainMembers(members[i..]) ==>
      PlainString(members[i].name) && Plain(members[i].value) && PlainMembers(members[i + 1..])
  {
    hide RenderMember, Plain, PlainString;
    assert members[i..][1..] == members[i + 1..];
  }

  lemma MembersEnd(members: seq<Member>, format: bool, depth: nat)
    requires members == [] && depth > 0
    ensures RenderMembers(members, format, depth) == ObjectEnd(format, depth)
  {
  }

  lemma PlainHasNoEscapes(s: seq<Byte>)
    ensures PlainString(s) ==> CostAll(CString(s)) == |CString(s)| && ShownAll(CString(s)) == CString(s)
  {
    if PlainString(s) {
      PlainCost(CString(s));
    }
  }

  lemma ShownNone(text: seq<Byte>)
    ensures ShownAll(text[..0]) == [] && CostAll(text[..0]) == 0
  {
  }

  lemma ShownStep(text: seq<Byte>, i: nat)
    requires i < |text|
    ensures ShownAll(text[..i + 1]) == ShownAll(text[..i]) + Shown(text[i])
    ensures |Shown(text[i])| <= Cost(text[i])
  {
    assert text[..i + 1][..i] == text[..i];
  }

  method CountEscapes(text: seq<Byte>) returns (n: nat)
    ensures |text| + n == CostAll(text)
  {
    n := 0;
    var i := 0;
    while i < |text|
      invariant i <= |text| && i + n == CostAll(text[..i])
    {
      assert text[..i + 1][..i] == text[..i];
      if Named(text[i]) {
        n := n + 1;
      } else if text[i] < 32 {
        n := n + 5;
      }
      i := i + 1;
    }
    assert text[..i] == text;
  }

  lemma {:induction false} CostStep(text: seq<Byte>, i: nat)
    requires i < |text|
    ensures CostAll(text[..i + 1]) == CostAll(text[..i]) + Cost(text[i]) <= CostAll(text)
    decreases |text| - i
  {
    assert text[..i + 1][..i] == text[..i];
    if i + 1 < |text| {
      CostStep(text, i + 1);
    } else {
      assert text[..i + 1] == text;
    }
  }

  lemma {:induction false} CostIsLength(s: seq<Byte>)
    requires CostAll(s) == |s|
    ensures ShownAll(s) == s
  {
    if s != [] {
      CostIsLength(s[..|s| - 1]);
      assert s == s[..|s| - 1] + [s[|s| - 1]];
    }
  }
}
