/**
  How printed values look, byte by byte: parts, what stands between them, and what stands around them.
*/
module JsonLayout {
  import opened Utf8
  import opened JsonGrammar
  import opened JsonRender

  /** The parts one after the other, with the separator between them. */
  function Joined(parts: seq<seq<Byte>>, separator: seq<Byte>): seq<Byte> {
    if parts == [] then []
    else if |parts| == 1 then parts[0]
    else parts[0] + separator + Joined(parts[1..], separator)
  }

  /** A byte of a string is printed as itself, or with `u` and four digits if it is a control without a name. */
  lemma ShownIs(b: Byte)
    ensures b >= 0x20 || b in [0x08, 0x09, 0x0A, 0x0C, 0x0D] ==> Shown(b) == [b]
    ensures b < 0x20 && b !in [0x08, 0x09, 0x0A, 0x0C, 0x0D] ==>
      Shown(b) == [0x75, 0x30, 0x30] + [if b < 16 then 0x30 else 0x31]
        + [if b % 16 < 10 then 0x30 + b % 16 else 0x61 + b % 16 - 10]
  {
  }

  lemma OneShown(b: Byte)
    ensures ShownAll([]) == [] && ShownAll([b]) == Shown(b)
  {
    assert [b][..0] == [] && [] + Shown(b) == Shown(b);
  }

  /** The bytes of a string are shown one by one. */
  lemma {:induction false} ShownByByte(s: seq<Byte>, t: seq<Byte>)
    ensures ShownAll(s + t) == ShownAll(s) + ShownAll(t)
    decreases |t|
  {
    hide Shown;
    if t == [] {
      assert s + t == s;
    } else {
      var front, last := t[..|t| - 1], t[|t| - 1];
      ShownByByte(s, front);
      assert (s + t)[..|s + t| - 1] == s + front && (s + t)[|s + t| - 1] == last;
      assert ShownAll(s + t) == ShownAll(s + front) + Shown(last);
      assert ShownAll(t) == ShownAll(front) + Shown(last);
      hide ShownAll;
    }
  }

  /** A string ends at its first zero byte. */
  lemma {:induction false} CStringIs(s: seq<Byte>, t: seq<Byte>)
    requires 0 !in s
    ensures CString(s) == s && CString(s + [0] + t) == s
  {
    if s == [] {
      assert s + [0] + t == [0] + t;
    } else {
      CStringIs(s[1..], t);
      assert (s + [0] + t)[1..] == s[1..] + [0] + t && s == [s[0]] + s[1..];
    }
  }

  lemma LeavesLook(format: bool, depth: nat)
    ensures Render(Null, format, depth) == [0x6E, 0x75, 0x6C, 0x6C]
    ensures Render(True, format, depth) == [0x74, 0x72, 0x75, 0x65]
    ensures Render(False, format, depth) == [0x66, 0x61, 0x6C, 0x73, 0x65]
    ensures forall t :: Render(Number(t), format, depth) == CString(t)
    ensures forall s :: Render(String(s), format, depth) == ShownAll(CString(s))
  {
  }

  // ---------------------------------------------------------------- arrays

  function Items(items: seq<Json>, format: bool, depth: nat): (r: seq<seq<Byte>>)
    ensures |r| == |items|
  {
    seq(|items|, i requires 0 <= i < |items| => Render(items[i], format, depth))
  }

  /** `[`, the items with a comma between them and a blank behind it in a formatted text, and `]`. */
  lemma ArraysLook(items: seq<Json>, format: bool, depth: nat)
    ensures Render(Array(items), format, depth)
         == [0x5B] + Joined(Items(items, format, depth + 1), if format then [0x2C, 0x20] else [0x2C]) + [0x5D]
  {
    ItemsLook(items, format, depth + 1);
    hide Items, Joined, RenderItems;
    assert Render(Array(items), format, depth) == [0x5B] + RenderItems(items, format, depth + 1);
  }

  lemma {:induction false} ItemsLook(items: seq<Json>, format: bool, depth: nat)
    ensures RenderItems(items, format, depth)
         == Joined(Items(items, format, depth), if format then [0x2C, 0x20] else [0x2C]) + [0x5D]
  {
    if items != [] {
      var parts, comma := Items(items, format, depth), if format then [0x2C, 0x20] else [0x2C];
      ItemsLook(items[1..], format, depth);
      assert parts[1..] == Items(items[1..], format, depth);
      hide Items;
      var rest := Joined(parts[1..], comma);
      if |items| == 1 {
        assert rest == [];
        assert RenderItems(items, format, depth) == (parts[0] + []) + ([] + [0x5D]);
      } else {
        assert RenderItems(items, format, depth) == (parts[0] + comma) + (rest + [0x5D]);
      }
    }
  }

  // ---------------------------------------------------------------- objects

  function Indent(n: nat): seq<Byte> {
    seq(n, _ => 0x09)
  }

  /** Name, colon and value; in a formatted text behind as many tabs as it is deep, and a tab behind the colon. */
  function Entry(m: Member, format: bool, depth: nat): seq<Byte> {
    if format then Indent(depth) + ShownAll(CString(m.name)) + [0x3A, 0x09] + Render(m.value, true, depth)
    else ShownAll(CString(m.name)) + [0x3A] + Render(m.value, false, depth)
  }

  function Entries(members: seq<Member>, format: bool, depth: nat): (r: seq<seq<Byte>>)
    ensures |r| == |members|
  {
    seq(|members|, i requires 0 <= i < |members| => Entry(members[i], format, depth))
  }

  /** `{`, the entries with commas between them, and `}`; formatted, every entry has a line of its own. */
  lemma ObjectsLook(members: seq<Member>, depth: nat)
    ensures Render(Object(members), false, depth)
         == [0x7B] + Joined(Entries(members, false, depth + 1), [0x2C]) + [0x7D]
    ensures Render(Object(members), true, depth)
         == [0x7B, 0x0A] + Joined(Entries(members, true, depth + 1), [0x2C, 0x0A])
            + (if members == [] then [] else [0x0A]) + Indent(depth) + [0x7D]
  {
    PlainEntriesLook(members, depth + 1);
    LinesLook(members, depth + 1);
    hide Entries, Joined, RenderMembers, Indent;
    assert Render(Object(members), false, depth) == [0x7B] + RenderMembers(members, false, depth + 1);
    assert Render(Object(members), true, depth) == [0x7B, 0x0A] + RenderMembers(members, true, depth + 1);
  }

  lemma EntryLooks(m: Member, format: bool, depth: nat, more: bool)
    ensures RenderMember(m, format, depth, more)
         == Entry(m, format, depth) + (if more then [0x2C] else []) + (if format then [0x0A] else [])
  {
    var x, y := if more then [0x2C] else [], if format then [0x0A] else [];
    EntryIs(m, format, depth);
    MemberIs(m, format, depth, more);
    var name, value := ShownAll(CString(m.name)), Render(m.value, format, depth);
    hide ShownAll, CString, Render, Tabs, Indent, Entry, RenderMember;
    RegroupEntry(if format then Indent(depth) else [], name, if format then [0x3A, 0x09] else [0x3A], value, x, y);
  }

  lemma EntryIs(m: Member, format: bool, depth: nat)
    ensures Entry(m, format, depth)
         == (if format then Indent(depth) else []) + ShownAll(CString(m.name))
            + (if format then [0x3A, 0x09] else [0x3A]) + Render(m.value, format, depth)
  {
    hide ShownAll, CString, Render, Indent;
    if !format {
      assert [] + ShownAll(CString(m.name)) == ShownAll(CString(m.name));
    }
  }

  lemma MemberIs(m: Member, format: bool, depth: nat, more: bool)
    ensures RenderMember(m, format, depth, more)
         == ((if format then Indent(depth) else [])
             + (ShownAll(CString(m.name)) + (if format then [0x3A, 0x09] else [0x3A])))
            + (Render(m.value, format, depth) + ((if more then [0x2C] else []) + (if format then [0x0A] else [])))
  {
    assert Tabs(depth) == Indent(depth);
    hide ShownAll, CString, Render, Tabs, Indent;
  }

  lemma RegroupEntry(t: seq<Byte>, n: seq<Byte>, c: seq<Byte>, v: seq<Byte>, x: seq<Byte>, y: seq<Byte>)
    ensures (t + (n + c)) + (v + (x + y)) == (t + n + c + v) + x + y
  {
  }

  lemma JoinedStep(parts: seq<seq<Byte>>, separator: seq<Byte>)
    requires parts != []
    ensures Joined(parts, separator)
         == parts[0] + ((if |parts| > 1 then separator else []) + Joined(parts[1..], separator))
  {
  }

  lemma MembersLook(members: seq<Member>, format: bool, depth: nat)
    requires members != [] && depth > 0
    ensures RenderMembers(members, format, depth)
         == Entry(members[0], format, depth)
            + ((if |members| > 1 then [0x2C] else []) + (if format then [0x0A] else [])
               + RenderMembers(members[1..], format, depth))
  {
    EntryLooks(members[0], format, depth, |members| > 1);
    var x, y := if |members| > 1 then [0x2C] else [], if format then [0x0A] else [];
    Regroup(Entry(members[0], format, depth), x, y, RenderMembers(members[1..], format, depth));
    hide Entry, RenderMember;
  }

  lemma Regroup(a: seq<Byte>, x: seq<Byte>, y: seq<Byte>, b: seq<Byte>)
    ensures (a + x + y) + b == a + (x + y + b)
  {
  }

  lemma LinesStep(first: seq<Byte>, more: bool, rest: seq<Byte>, indent: seq<Byte>)
    requires !more ==> rest == []
    ensures first + ((if more then [0x2C] else []) + [0x0A] + (rest + (if more then [0x0A] else []) + indent + [0x7D]))
         == (first + ((if more then [0x2C, 0x0A] else []) + rest)) + [0x0A] + indent + [0x7D]
  {
    if more {
      assert [0x2C] + [0x0A] == [0x2C, 0x0A];
    }
  }

  lemma EntriesStep(members: seq<Member>, format: bool, depth: nat)
    requires members != []
    ensures Entries(members, format, depth)[0] == Entry(members[0], format, depth)
    ensures Entries(members, format, depth)[1..] == Entries(members[1..], format, depth)
  {
    hide Entry;
  }

  lemma {:induction false} PlainEntriesLook(members: seq<Member>, depth: nat)
    requires depth > 0
    ensures RenderMembers(members, false, depth) == Joined(Entries(members, false, depth), [0x2C]) + [0x7D]
  {
    if members != [] {
      hide Entries, Entry, RenderMembers, Joined;
      PlainEntriesLook(members[1..], depth);
      EntriesStep(members, false, depth);
      MembersLook(members, false, depth);
      JoinedStep(Entries(members, false, depth), [0x2C]);
    }
  }

  lemma {:induction false} LinesLook(members: seq<Member>, depth: nat)
    requires depth > 0
    ensures RenderMembers(members, true, depth)
         == Joined(Entries(members, true, depth), [0x2C, 0x0A]) + (if members == [] then [] else [0x0A])
            + Indent(depth - 1) + [0x7D]
  {
    if members == [] {
      assert Tabs(depth - 1) == Indent(depth - 1);
    } else {
      hide Entries, Entry, RenderMembers, Joined, Indent;
      LinesLook(members[1..], depth);
      EntriesStep(members, true, depth);
      MembersLook(members, true, depth);
      JoinedStep(Entries(members, true, depth), [0x2C, 0x0A]);
      NothingJoined([0x2C, 0x0A]);
      LinesStep(
        Entry(members[0], true, depth), |members| > 1, Joined(Entries(members[1..], true, depth), [0x2C, 0x0A]),
        Indent(depth - 1));
    }
  }

  lemma NothingJoined(separator: seq<Byte>)
    ensures Joined([], separator) == []
  {
  }

  // ---------------------------------------------------------------- what is escaped

  /** The room reserved for a byte, and that a plain string is one without any that is escaped. */
  lemma ReservedFor(b: Byte)
    ensures Cost(b) == if b in [0x22, 0x5C, 0x08, 0x0C, 0x0A, 0x0D, 0x09] then 2 else if b < 0x20 then 6 else 1
  {
  }

  lemma PlainStringIs(s: seq<Byte>)
    ensures PlainString(s) <==> forall b <- CString(s) :: b >= 0x20 && b != 0x22 && b != 0x5C
  {
  }

  /** Values without strings, names and long numbers in them are plain. */
  lemma {:induction false} PlainIs(v: Json)
    ensures Plain(Null) && Plain(False) && Plain(True) && Plain(Array([])) && Plain(Object([]))
    ensures v.Number? ==> (Plain(v) <==> |CString(v.text)| < 26)
    ensures v.Array? ==> (Plain(v) <==> forall i :: 0 <= i < |v.items| ==> Plain(v.items[i]))
    ensures v.Object? ==> (Plain(v) <==>
      forall i :: 0 <= i < |v.members| ==> PlainString(v.members[i].name) && Plain(v.members[i].value))
  {
    match v
    case Array(items) => PlainItemsAre(items);
    case Object(members) => PlainMembersAre(members);
    case _ =>
  }

  lemma {:induction false} PlainItemsAre(items: seq<Json>)
    ensures PlainItems(items) <==> forall i :: 0 <= i < |items| ==> Plain(items[i])
    decreases |items|
  {
    hide Plain;
    if items != [] {
      PlainItemsAre(items[1..]);
      assert forall i :: 1 <= i < |items| ==> items[i] == items[1..][i - 1];
    }
  }

  lemma {:induction false} PlainMembersAre(members: seq<Member>)
    ensures PlainMembers(members) <==>
      forall i :: 0 <= i < |members| ==> PlainString(members[i].name) && Plain(members[i].value)
    decreases |members|
  {
    hide Plain, PlainString;
    if members != [] {
      PlainMembersAre(members[1..]);
      assert forall i :: 1 <= i < |members| ==> members[i] == members[1..][i - 1];
    }
  }
}
