/**
  Counting what is not blank.  A printed value has no more ink than its mass, and a text that is read as
  the value has more by one for every string and every member, because of the quotation marks.
*/
module JsonInk {
  import opened Common
  import opened Utf8
  import opened JsonString
  import opened JsonStringGrammar
  import opened JsonGrammar
  import opened JsonTheory
  import R = JsonRender

  function Visible(b: Byte): nat {
    if b > 32 then 1 else 0
  }

  /** The bytes from `o` to `e` that are not blank. */
  function Ink(c: seq<Byte>, o: nat, e: nat): nat
    requires e <= |c|
  {
    if o >= e then 0 else Ink(c, o, e - 1) + Visible(c[e - 1])
  }

  function InkOf(t: seq<Byte>): nat {
    Ink(t, 0, |t|)
  }

  lemma {:induction false} InkSplit(c: seq<Byte>, o: nat, m: nat, e: nat)
    requires o <= m <= e <= |c|
    ensures Ink(c, o, e) == Ink(c, o, m) + Ink(c, m, e)
    decreases e - m
  {
    if m < e {
      InkSplit(c, o, m, e - 1);
    }
  }

  lemma {:induction false} InkMoves(c: seq<Byte>, o: nat, d: seq<Byte>, p: nat, n: nat)
    requires o + n <= |c| && p + n <= |d| && forall i :: o <= i < o + n ==> c[i] == d[p + (i - o)]
    ensures Ink(c, o, o + n) == Ink(d, p, p + n)
  {
    if n > 0 {
      InkMoves(c, o, d, p, n - 1);
    }
  }

  lemma InkAppend(a: seq<Byte>, b: seq<Byte>)
    ensures InkOf(a + b) == InkOf(a) + InkOf(b)
  {
    InkSplit(a + b, 0, |a|, |a + b|);
    InkMoves(a + b, 0, a, 0, |a|);
    InkMoves(a + b, |a|, b, 0, |b|);
  }

  lemma InkOne(b: Byte)
    ensures InkOf([b]) == Visible(b)
  {
    assert Ink([b], 0, 0) == 0;
  }

  lemma InkReads(c: seq<Byte>, o: nat, t: seq<Byte>)
    requires Reads(c, o, t)
    ensures Ink(c, o, o + |t|) == InkOf(t)
  {
    forall i | o <= i < o + |t| ensures c[i] == t[i - o] {
      assert c[o..o + |t|][i - o] == c[i];
    }
    InkMoves(c, o, t, 0, |t|);
  }

  lemma InkStep(c: seq<Byte>, o: nat, e: nat)
    requires o < e <= |c|
    ensures Ink(c, o, e) == Visible(c[o]) + Ink(c, o + 1, e)
  {
    InkSplit(c, o, o + 1, e);
    assert Ink(c, o, o) == 0;
  }

  // ---------------------------------------------------------------- strings

  /** The ink of a byte of a string when it is printed; a zero byte ends the string. */
  function Weight(b: Byte): nat {
    if b == 0 then 0 else if R.ByNumber(b) then 5 else Visible(b)
  }

  function WeightOf(s: seq<Byte>): nat {
    if s == [] then 0 else Weight(s[0]) + WeightOf(s[1..])
  }

  lemma {:induction false} WeightAppend(a: seq<Byte>, b: seq<Byte>)
    ensures WeightOf(a + b) == WeightOf(a) + WeightOf(b)
  {
    if a == [] {
      assert a + b == b;
    } else {
      assert (a + b)[1..] == a[1..] + b;
      WeightAppend(a[1..], b);
    }
  }

  lemma {:induction false} CStringWeighs(s: seq<Byte>)
    ensures WeightOf(R.CString(s)) <= WeightOf(s)
  {
    if s != [] && s[0] != 0 {
      CStringWeighs(s[1..]);
      assert R.CString(s)[1..] == R.CString(s[1..]);
    }
  }

  lemma ShownInk(b: Byte)
    requires b != 0
    ensures InkOf(R.Shown(b)) == Weight(b)
  {
    var t := R.Shown(b);
    if R.ByNumber(b) {
      assert Ink(t, 0, 0) == 0;
      assert Ink(t, 0, 1) == 1;
      assert Ink(t, 0, 2) == 2;
      assert Ink(t, 0, 3) == 3;
      assert Ink(t, 0, 4) == 4;
    } else {
      InkOne(b);
    }
  }

  lemma {:induction false} ShownAllInk(s: seq<Byte>)
    requires 0 !in s
    ensures InkOf(R.ShownAll(s)) == WeightOf(s)
  {
    if s != [] {
      var front, last := s[..|s| - 1], s[|s| - 1];
      ShownAllInk(front);
      ShownInk(last);
      InkAppend(R.ShownAll(front), R.Shown(last));
      WeightAppend(front, [last]);
      assert s == front + [last] && [last][1..] == [];
    }
  }

  /** What is printed of a string has at most its weight in ink. */
  lemma PrintedStringInk(s: seq<Byte>)
    ensures InkOf(R.ShownAll(R.CString(s))) <= WeightOf(s)
  {
    ShownAllInk(R.CString(s));
    CStringWeighs(s);
  }

  /** No byte of the text is one that the printer shows by its number. */
  ghost predicate NoRaw(c: seq<Byte>) {
    forall i :: 0 <= i < |c| ==> !R.ByNumber(c[i])
  }

  lemma EncodedWeighs(u: nat)
    requires u <= 0x10FFFF
    ensures WeightOf(Encode(u)) <= 5 && (u >= 0x80 ==> WeightOf(Encode(u)) <= 4)
    ensures u == 0 ==> WeightOf(Encode(u)) == 0
  {
    var s := Encode(u);
    assert WeightOf(s[|s|..]) == 0;
    if |s| == 1 {
      assert WeightOf(s) == Weight(s[0]) + WeightOf(s[1..]);
    } else {
      HighBytesWeigh(s);
    }
  }

  lemma {:induction false} HighBytesWeigh(s: seq<Byte>)
    requires forall i :: 0 <= i < |s| ==> s[i] >= 0x80
    ensures WeightOf(s) == |s|
  {
    if s != [] {
      HighBytesWeigh(s[1..]);
    }
  }

  lemma UnitInk(c: seq<Byte>, p: nat, d: seq<Byte>)
    requires |d| == 4 && UnitAt(c, p, d)
    ensures Ink(c, p, p + 6) >= 2 && (AllHex(d) ==> Ink(c, p, p + 6) == 6)
  {
    InkStep(c, p, p + 6);
    InkStep(c, p + 1, p + 6);
    InkStep(c, p + 2, p + 6);
    InkStep(c, p + 3, p + 6);
    InkStep(c, p + 4, p + 6);
    InkStep(c, p + 5, p + 6);
    assert Ink(c, p + 6, p + 6) == 0;
    assert d[0] == c[p + 2] && d[1] == c[p + 3] && d[2] == c[p + 4] && d[3] == c[p + 5];
  }

  lemma ItemInk(c: seq<Byte>, p: nat, i: Item)
    requires NoRaw(c) && Lenient(i) && At(c, p, i)
    ensures p + Size(i) <= |c| && Ink(c, p, p + Size(i)) >= WeightOf(Value(i))
  {
    match i
    case Plain(b) =>
      InkStep(c, p, p + 1);
      assert [b][1..] == [];
    case Short(b) =>
      InkStep(c, p, p + 2);
      InkStep(c, p + 1, p + 2);
      assert [Unescape(b).value][1..] == [];
    case Uni(d) =>
      UnitInk(c, p, d);
      EncodedWeighs(Hex4(d));
    case Pair(h, l) =>
      UnitInk(c, p, h);
      UnitInk(c, p + 6, l);
      InkSplit(c, p, p + 6, p + 12);
      EncodedWeighs(Combine(Hex4(h), Hex4(l)));
  }

  lemma {:induction false} BodyInk(c: seq<Byte>, p: nat, e: nat, items: seq<Item>)
    requires NoRaw(c) && AllLenient(items) && Body(c, p, e, items) && p <= |c|
    ensures p <= e <= |c| && Ink(c, p, e) >= WeightOf(ValueOf(items))
    decreases |items|
  {
    if items != [] {
      var q := p + Size(items[0]);
      ItemInk(c, p, items[0]);
      BodyInk(c, q, e, items[1..]);
      InkSplit(c, p, q, e);
      WeightAppend(Value(items[0]), ValueOf(items[1..]));
    }
  }

  /** A text that is read as a string has more ink than the string weighs. */
  lemma StringInk(c: seq<Byte>, o: nat, s: seq<Byte>, e: nat)
    requires NoRaw(c) && o < |c| && StringAt(c, o) == Some(Parsed(s, e))
    ensures o < e <= |c| && Ink(c, o, e) >= WeightOf(s) + 1
  {
    var end := Scan(c, o + 1).value;
    ItemsAreTheBody(c, o + 1, end);
    var halt, items := Halt(c, o + 1, end), Items(c, o + 1, end);
    hide Decoded, StringAt, Scan, Items, Halt;
    BodyInk(c, o + 1, halt, items);
    InkStep(c, o, e);
    InkSplit(c, o + 1, halt, e);
  }

  // ---------------------------------------------------------------- values

  /** The ink of a value when it is printed, at most. */
  function Mass(v: Json): nat
    decreases v, 1
  {
    match v
    case Null => 4
    case False => 5
    case True => 4
    case Number(t) => InkOf(t)
    case String(s) => WeightOf(s)
    case Array(items) => 1 + MassOf(items)
    case Object(members) => 1 + MassOfMembers(members)
  }

  function MassOf(items: seq<Json>): nat
    decreases items, 0
  {
    if items == [] then 1 else Mass(items[0]) + (if |items| > 1 then 1 else 0) + MassOf(items[1..])
  }

  function MassOfMembers(members: seq<Member>): nat
    decreases members, 0
  {
    if members == [] then 1
    else
      WeightOf(members[0].name) + 1 + Mass(members[0].value) + (if |members| > 1 then 1 else 0)
      + MassOfMembers(members[1..])
  }

  /** The number of strings, names included. */
  function Strings(v: Json): nat
    decreases v, 1
  {
    match v
    case String(_) => 1
    case Array(items) => StringsOf(items)
    case Object(members) => StringsOfMembers(members)
    case _ => 0
  }

  function StringsOf(items: seq<Json>): nat
    decreases items, 0
  {
    if items == [] then 0 else Strings(items[0]) + StringsOf(items[1..])
  }

  function StringsOfMembers(members: seq<Member>): nat
    decreases members, 0
  {
    if members == [] then 0 else 1 + Strings(members[0].value) + StringsOfMembers(members[1..])
  }

  // ---------------------------------------------------------------- what is printed

  lemma {:induction false} BlankInk(t: seq<Byte>)
    requires forall i :: 0 <= i < |t| ==> t[i] <= 32
    ensures InkOf(t) == 0
  {
    if t != [] {
      var front := t[..|t| - 1];
      BlankInk(front);
      InkAppend(front, [t[|t| - 1]]);
      InkOne(t[|t| - 1]);
      assert t == front + [t[|t| - 1]];
    }
  }

  lemma BracketsInk(format: bool, depth: nat, more: bool)
    requires depth > 0
    ensures InkOf(R.ObjectStart(format)) == 1 && InkOf(R.ObjectEnd(format, depth)) == 1
    ensures InkOf(R.Between(format)) == 1 && InkOf(R.AfterKey(format)) == 1
    ensures InkOf(R.AfterMember(format, more)) == if more then 1 else 0
    ensures InkOf(if format then R.Tabs(depth) else []) == 0
  {
    BlankInk(R.Tabs(depth));
    BlankInk(R.Tabs(depth - 1));
    BlankInk([R.NEWLINE]);
    BlankInk([R.TAB]);
    BlankInk([R.SPACE]);
    InkOne(OPEN_BRACE);
    InkOne(CLOSE_BRACE);
    InkOne(COMMA);
    InkOne(COLON);
    InkAppend([OPEN_BRACE], [R.NEWLINE]);
    InkAppend([COMMA], [R.SPACE]);
    InkAppend([COLON], [R.TAB]);
    InkAppend(if format then R.Tabs(depth - 1) else [], [CLOSE_BRACE]);
    InkAppend(if more then [COMMA] else [], if format then [R.NEWLINE] else []);
    assert [OPEN_BRACE] + [R.NEWLINE] == [OPEN_BRACE, R.NEWLINE];
    assert [COMMA] + [R.SPACE] == [COMMA, R.SPACE];
    assert [COLON] + [R.TAB] == [COLON, R.TAB];
  }

  lemma LiteralsInk()
    ensures InkOf(NULL_TEXT) == 4 && InkOf(FALSE_TEXT) == 5 && InkOf(TRUE_TEXT) == 4
  {
    FullInk(NULL_TEXT);
    FullInk(FALSE_TEXT);
    FullInk(TRUE_TEXT);
  }

  lemma {:induction false} FullInk(t: seq<Byte>)
    requires forall i :: 0 <= i < |t| ==> t[i] > 32
    ensures InkOf(t) == |t|
  {
    if t != [] {
      var front := t[..|t| - 1];
      FullInk(front);
      InkAppend(front, [t[|t| - 1]]);
      InkOne(t[|t| - 1]);
      assert t == front + [t[|t| - 1]];
    }
  }

  lemma PrefixInk(t: seq<Byte>, s: seq<Byte>)
    requires t <= s
    ensures InkOf(t) <= InkOf(s)
  {
    InkAppend(t, s[|t|..]);
    assert s == t + s[|t|..];
  }

  lemma {:induction false} PrintedInk(v: Json, format: bool, depth: nat)
    ensures InkOf(R.Render(v, format, depth)) <= Mass(v)
    decreases v, 1
  {
    hide Ink;
    LiteralsInk();
    match v
    case Null =>
    case False =>
    case True =>
    case Number(t) => PrefixInk(R.CString(t), t);
    case String(s) => PrintedStringInk(s);
    case Array(items) =>
      InkOne(OPEN_BRACKET);
      InkAppend([OPEN_BRACKET], R.RenderItems(items, format, depth + 1));
      PrintedItemsInk(items, format, depth + 1);
    case Object(members) =>
      BracketsInk(format, depth + 1, false);
      InkAppend(R.ObjectStart(format), R.RenderMembers(members, format, depth + 1));
      PrintedMembersInk(members, format, depth + 1);
  }

  lemma {:induction false} PrintedItemsInk(items: seq<Json>, format: bool, depth: nat)
    requires depth > 0
    ensures InkOf(R.RenderItems(items, format, depth)) <= MassOf(items)
    decreases items, 0
  {
    hide InkOf;
    if items == [] {
      InkOne(CLOSE_BRACKET);
    } else {
      var text, between := R.Render(items[0], format, depth), if |items| > 1 then R.Between(format) else [];
      PrintedInk(items[0], format, depth);
      PrintedItemsInk(items[1..], format, depth);
      BracketsInk(format, depth, false);
      BlankInk([]);
      InkAppend(text, between);
      InkAppend(text + between, R.RenderItems(items[1..], format, depth));
    }
  }

  lemma {:induction false} PrintedMembersInk(members: seq<Member>, format: bool, depth: nat)
    requires depth > 0
    ensures InkOf(R.RenderMembers(members, format, depth)) <= MassOfMembers(members)
    decreases members, 0
  {
    hide InkOf;
    BracketsInk(format, depth, |members| > 1);
    if members != [] {
      var m, more := members[0], |members| > 1;
      var indent, name := if format then R.Tabs(depth) else [], R.ShownAll(R.CString(m.name));
      var value, after := R.Render(m.value, format, depth), R.AfterMember(format, more);
      PrintedStringInk(m.name);
      PrintedInk(m.value, format, depth);
      PrintedMembersInk(members[1..], format, depth);
      InkAppend(name, R.AfterKey(format));
      InkAppend(indent, name + R.AfterKey(format));
      InkAppend(value, after);
      InkAppend(R.RenderKey(m.name, format, depth), value + after);
      InkAppend(R.RenderMember(m, format, depth, more), R.RenderMembers(members[1..], format, depth));
    }
  }

  // ---------------------------------------------------------------- what is read

  lemma {:induction false} ReadInk(c: seq<Byte>, o: nat, e: nat, v: Json)
    requires NoRaw(c) && Val(c, o, e, v)
    ensures o <= e <= |c| && Ink(c, o, e) >= Mass(v) + Strings(v)
    decreases v, 1
  {
    hide Ink;
    ValWithin(c, o, e, v);
    LiteralsInk();
    match v
    case Null => InkReads(c, o, NULL_TEXT);
    case False => InkReads(c, o, FALSE_TEXT);
    case True => InkReads(c, o, TRUE_TEXT);
    case Number(t) => InkReads(c, o, t);
    case String(s) => StringInk(c, o, s, e);
    case Array(items) =>
      InkStep(c, o, e);
      if items == [] {
        ClosesInk(c, o + 1, e, CLOSE_BRACKET);
      } else {
        ReadElementsInk(c, o + 1, e, items);
      }
    case Object(members) =>
      InkStep(c, o, e);
      if members == [] {
        ClosesInk(c, o + 1, e, CLOSE_BRACE);
      } else {
        ReadMembersInk(c, o + 1, e, members);
      }
  }

  lemma ClosesInk(c: seq<Byte>, q: nat, e: nat, bracket: Byte)
    requires Closes(c, q, e, bracket) && bracket > 32
    ensures q < e <= |c| && Ink(c, q, e) >= 1
  {
    InkSplit(c, q, e - 1, e);
    InkStep(c, e - 1, e);
  }

  /** White space, a value, white space, and one more byte that is not blank. */
  lemma {:induction false} ReadElementInk(c: seq<Byte>, q: nat, p: nat, r: nat, s: nat, v: Json)
    requires NoRaw(c) && Element(c, q, p, r, s, v) && s < |c| && c[s] > 32
    ensures q <= s && Ink(c, q, s + 1) >= Mass(v) + Strings(v) + 1
    decreases v, 2
  {
    hide Ink, Val;
    ReadInk(c, p, r, v);
    InkSplit(c, q, p, s + 1);
    InkSplit(c, p, r, s + 1);
    InkSplit(c, r, s, s + 1);
    InkStep(c, s, s + 1);
  }

  lemma {:induction false} ReadElementsInk(c: seq<Byte>, q: nat, e: nat, items: seq<Json>)
    requires NoRaw(c) && items != [] && Elements(c, q, e, items)
    ensures q < e <= |c| && Ink(c, q, e) >= MassOf(items) + StringsOf(items)
    decreases items, 0
  {
    var p, r, s := SplitElements(c, q, e, items);
    hide Ink, Val, Elements, Element;
    ReadElementInk(c, q, p, r, s, items[0]);
    if |items| > 1 {
      ReadElementsInk(c, s + 1, e, items[1..]);
      InkSplit(c, q, s + 1, e);
    } else {
      assert items[1..] == [];
    }
  }

  lemma KeyInk(c: seq<Byte>, q: nat, n: nat, m: nat, k: nat, name: seq<Byte>)
    requires NoRaw(c) && Key(c, q, n, m, k, name)
    ensures q <= k <= |c| && Ink(c, q, k) >= WeightOf(name) + 2
  {
    StringInk(c, n, name, m);
    hide StringAt;
    ClosesInk(c, m, k, COLON);
    InkSplit(c, q, n, k);
    InkSplit(c, n, m, k);
  }

  lemma {:induction false} ReadMembersInk(c: seq<Byte>, q: nat, e: nat, members: seq<Member>)
    requires NoRaw(c) && members != [] && Members(c, q, e, members)
    ensures q < e <= |c| && Ink(c, q, e) >= MassOfMembers(members) + StringsOfMembers(members)
    decreases members, 0
  {
    hide Ink, Val, Members, Element, Key, WeightOf, Mass, Strings;
    var n, m, k, p, r, s := SplitMembers(c, q, e, members);
    KeyInk(c, q, n, m, k, members[0].name);
    ReadElementInk(c, k, p, r, s, members[0].value);
    InkSplit(c, q, k, s + 1);
    if |members| > 1 {
      ReadMembersInk(c, s + 1, e, members[1..]);
      InkSplit(c, q, s + 1, e);
    } else {
      NoMembersInk(members[1..]);
    }
  }

  lemma NoMembersInk(members: seq<Member>)
    requires members == []
    ensures MassOfMembers(members) == 1 && StringsOfMembers(members) == 0
  {
  }
}
