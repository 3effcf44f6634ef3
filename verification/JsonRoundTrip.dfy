/** Which printed values the parser reads back. */
module JsonRoundTrip {
  import opened Common
  import opened Utf8
  import opened JsonString
  import opened JsonGrammar
  import opened JsonRender
  import opened JsonTheory
  import opened JsonInk
  import opened JsonRfc

  /** A text that the parser takes for a number as a whole. */
  ghost predicate NumberText(t: seq<Byte>) {
    && 0 < |t| <= 63 && (t[0] == MINUS || IsDigit(t[0]))
    && StrtodLength(t) == |t| && forall b <- t :: NumberChar(b)
  }

  /** No strings, and no members with their names: nothing that would need quotation marks. */
  ghost predicate Unquoted(v: Json)
    decreases v, 1
  {
    match v
    case Number(t) => NumberText(t)
    case String(_) => false
    case Array(items) => UnquotedItems(items)
    case Object(members) => members == []
    case _ => true
  }

  ghost predicate UnquotedItems(items: seq<Json>)
    decreases items, 0
  {
    items == [] || (Unquoted(items[0]) && UnquotedItems(items[1..]))
  }

  lemma {:induction false} WholeCString(t: seq<Byte>)
    requires 0 !in t
    ensures CString(t) == t
  {
    if t != [] {
      WholeCString(t[1..]);
      assert t == [t[0]] + t[1..];
    }
  }

  lemma ReadsAt(c: seq<Byte>, o: nat, t: seq<Byte>)
    requires Reads(c, o, t)
    ensures forall k :: 0 <= k < |t| ==> t[k] == c[o + k]
  {
    assert forall k :: 0 <= k < |t| ==> t[k] == c[o..o + |t|][k];
  }

  lemma NumberReadsBack(c: seq<Byte>, o: nat, t: seq<Byte>)
    requires NumberText(t) && Reads(c, o, t) && NumberStops(c, o + |t|)
    ensures Val(c, o, o + |t|, Number(t))
  {
    var e := RunEnd(c, o, o + 63);
    ReadsAt(c, o, t);
    assert t[0] == c[o];
    forall k | o <= k < o + |t| ensures NumberChar(c[k]) {
      assert t[k - o] in t;
    }
  }

  lemma Prefix(c: seq<Byte>, o: nat, a: seq<Byte>, b: seq<Byte>)
    requires Reads(c, o, a + b)
    ensures Reads(c, o, a) && Reads(c, o + |a|, b)
  {
    var all := c[o..o + |a + b|];
    assert all[..|a|] == c[o..o + |a|];
    assert all[|a|..] == c[o + |a|..o + |a| + |b|];
  }

  lemma ReadsFirst(c: seq<Byte>, o: nat, t: seq<Byte>)
    requires Reads(c, o, t) && t != []
    ensures o < |c| && c[o] == t[0]
  {
    ReadsAt(c, o, t);
  }

  lemma BlankText(c: seq<Byte>, o: nat, t: seq<Byte>)
    requires Reads(c, o, t) && forall b <- t :: b <= 32
    ensures Blank(c, o, o + |t|)
  {
    ReadsAt(c, o, t);
    forall k | o <= k < o + |t| ensures c[k] <= 32 {
      assert t[k - o] in t;
    }
  }

  lemma LiteralReadsBack(c: seq<Byte>, o: nat, v: Json, format: bool, depth: nat)
    requires v.Null? || v.False? || v.True?
    requires Reads(c, o, Render(v, format, depth))
    ensures Val(c, o, o + |Render(v, format, depth)|, v)
  {
  }

  /** The rendering of an unquoted value is a text of that value, wherever it stands. */
  lemma {:induction false} ReadsBack(c: seq<Byte>, o: nat, v: Json, format: bool, depth: nat)
    requires Unquoted(v) && Reads(c, o, Render(v, format, depth)) && NumberStops(c, o + |Render(v, format, depth)|)
    ensures Val(c, o, o + |Render(v, format, depth)|, v)
    decreases v, 1
  {
    hide Val, UnquotedItems, RenderItems, Reads, NumberText, NumberStops;
    match v
    case Null => LiteralReadsBack(c, o, v, format, depth);
    case False => LiteralReadsBack(c, o, v, format, depth);
    case True => LiteralReadsBack(c, o, v, format, depth);
    case Number(t) =>
      NumberIsWhole(t);
      NumberReadsBack(c, o, t);
    case Array(items) =>
      ArrayReadsBack(c, o, items, format, depth);
    case Object(_) =>
      EmptyObjectReadsBack(c, o, format, depth);
  }

  lemma NumberIsWhole(t: seq<Byte>)
    requires NumberText(t)
    ensures CString(t) == t
  {
    WholeCString(t);
  }

  lemma EmptyObjectText(format: bool, depth: nat, blank: seq<Byte>)
    requires blank == if format then [NEWLINE] + Tabs(depth) else []
    ensures Render(Object([]), format, depth) == [OPEN_BRACE] + (blank + [CLOSE_BRACE])
    ensures forall b <- blank :: b <= 32
  {
  }

  lemma EmptyBraces(c: seq<Byte>, o: nat, blank: seq<Byte>)
    requires Reads(c, o, [OPEN_BRACE] + (blank + [CLOSE_BRACE])) && forall b <- blank :: b <= 32
    ensures Val(c, o, o + |blank| + 2, Object([]))
  {
    hide Reads;
    Prefix(c, o, [OPEN_BRACE], blank + [CLOSE_BRACE]);
    ReadsFirst(c, o, [OPEN_BRACE]);
    Prefix(c, o + 1, blank, [CLOSE_BRACE]);
    ReadsFirst(c, o + 1 + |blank|, [CLOSE_BRACE]);
    BlankText(c, o + 1, blank);
  }

  lemma EmptyObjectReadsBack(c: seq<Byte>, o: nat, format: bool, depth: nat)
    requires Reads(c, o, Render(Object([]), format, depth))
    ensures Val(c, o, o + |Render(Object([]), format, depth)|, Object([]))
  {
    hide Render, Reads, Val;
    var blank := if format then [NEWLINE] + Tabs(depth) else [];
    EmptyObjectText(format, depth, blank);
    EmptyBraces(c, o, blank);
  }

  lemma {:induction false} ArrayReadsBack(c: seq<Byte>, o: nat, items: seq<Json>, format: bool, depth: nat)
    requires UnquotedItems(items) && Reads(c, o, [OPEN_BRACKET] + RenderItems(items, format, depth + 1))
    ensures Val(c, o, o + |[OPEN_BRACKET] + RenderItems(items, format, depth + 1)|, Array(items))
    decreases items, 1
  {
    hide UnquotedItems;
    var rest := RenderItems(items, format, depth + 1);
    Prefix(c, o, [OPEN_BRACKET], rest);
    ReadsFirst(c, o, [OPEN_BRACKET]);
    if items == [] {
      ReadsFirst(c, o + 1, [CLOSE_BRACKET]);
    } else {
      hide Elements, RenderItems;
      ItemsReadBack(c, o + 1, items, format, depth + 1);
    }
  }

  lemma LastItem(c: seq<Byte>, q: nat, s: nat, items: seq<Json>)
    requires |items| == 1 && q <= s <= |c| && Val(c, q, s, items[0]) && Is(c, s, CLOSE_BRACKET)
    ensures Elements(c, q, s + 1, items)
  {
    hide Val;
    assert Element(c, q, q, s, s, items[0]);
  }

  lemma ItemAndMore(c: seq<Byte>, q: nat, s: nat, e: nat, items: seq<Json>)
    requires |items| > 1 && q <= s <= |c| && Val(c, q, s, items[0])
    requires Is(c, s, COMMA) && Elements(c, s + 1, e, items[1..])
    ensures Elements(c, q, e, items)
  {
    hide Val;
    assert Element(c, q, q, s, s, items[0]);
  }

  lemma {:induction false} ItemsReadBack(c: seq<Byte>, q: nat, items: seq<Json>, format: bool, depth: nat)
    requires items != [] && UnquotedItems(items) && Reads(c, q, RenderItems(items, format, depth))
    ensures Elements(c, q, q + |RenderItems(items, format, depth)|, items)
    decreases items, 0
  {
    hide Val, Unquoted, UnquotedItems, Render, Elements, RenderItems, Reads, Between;
    var text, more, rest := Render(items[0], format, depth), |items| > 1, RenderItems(items[1..], format, depth);
    var between := if more then Between(format) else [];
    ItemsLaidOut(c, q, items, format, depth, between);
    var s := q + |text|;
    assert Val(c, q, s, items[0]) by {
      hide Is;
      ReadsBack(c, q, items[0], format, depth);
    }
    if more {
      var q' := s + |between|;
      ItemsReadBack(c, q', items[1..], format, depth);
      AfterComma(c, s, between, format);
      BlankBefore(c, s + 1, q', q' + |rest|, items[1..]);
      ItemAndMore(c, q, s, q' + |rest|, items);
    } else {
      LastItem(c, q, s, items);
    }
  }

  /** Where the first item, what separates it from the others, and the others stand. */
  lemma ItemsLaidOut(c: seq<Byte>, q: nat, items: seq<Json>, format: bool, depth: nat, between: seq<Byte>)
    requires items != [] && UnquotedItems(items) && Reads(c, q, RenderItems(items, format, depth))
    requires between == if |items| > 1 then Between(format) else []
    ensures Unquoted(items[0]) && UnquotedItems(items[1..])
    ensures var text, rest := Render(items[0], format, depth), RenderItems(items[1..], format, depth);
            var s := q + |text|;
            && |RenderItems(items, format, depth)| == |text| + |between| + |rest| && s < |c|
            && Reads(c, q, text) && Reads(c, s, between) && Reads(c, s + |between|, rest)
            && (|items| > 1 ==> Is(c, s, COMMA)) && (|items| == 1 ==> Is(c, s, CLOSE_BRACKET) && |rest| == 1)
            && NumberStops(c, s)
  {
    hide Unquoted, UnquotedItems, Render, RenderItems, Reads, Between;
    var text, rest := Render(items[0], format, depth), RenderItems(items[1..], format, depth);
    ItemsParts(items, format, depth, between);
    Prefix(c, q, text + between, rest);
    Prefix(c, q, text, between);
    ReadsFirst(c, q + |text|, if |items| > 1 then between else rest);
  }

  lemma ItemsParts(items: seq<Json>, format: bool, depth: nat, between: seq<Byte>)
    requires items != [] && UnquotedItems(items) && between == if |items| > 1 then Between(format) else []
    ensures Unquoted(items[0]) && UnquotedItems(items[1..])
    ensures RenderItems(items, format, depth)
         == (Render(items[0], format, depth) + between) + RenderItems(items[1..], format, depth)
    ensures |items| == 1 ==> RenderItems(items[1..], format, depth) == [CLOSE_BRACKET]
    ensures |items| > 1 ==> between != [] && between[0] == COMMA
  {
    hide Unquoted, Render;
  }

  lemma AfterComma(c: seq<Byte>, s: nat, between: seq<Byte>, format: bool)
    requires between == Between(format) && Reads(c, s, between)
    ensures Blank(c, s + 1, s + |between|)
  {
    ReadsAt(c, s, between);
    assert format ==> between[1] == c[s + 1];
  }

  // ---------------------------------------------------------------- what is not read back

  lemma {:induction false} DigitRunCut(t: seq<Byte>, n: nat, i: nat)
    requires i <= n <= |t|
    ensures DigitRun(t[..n], i) == if i + DigitRun(t, i) <= n then DigitRun(t, i) else n - i
    decreases n - i
  {
    if i < n {
      DigitRunCut(t, n, i + 1);
    }
  }

  lemma MantissaCut(t: seq<Byte>, n: nat)
    requires 0 < MantissaEnd(t) <= n <= |t|
    ensures MantissaEnd(t[..n]) == MantissaEnd(t)
  {
    var start := if IsSign(t[0]) then 1 else 0;
    var whole := start + DigitRun(t, start);
    DigitRunCut(t, n, start);
    if whole < |t| && t[whole] == POINT {
      DigitRunCut(t, n, whole + 1);
    }
  }

  lemma ExponentCut(t: seq<Byte>, m: nat)
    requires m <= |t|
    ensures ExponentEnd(t[..ExponentEnd(t, m)], m) == ExponentEnd(t, m)
  {
    var n := ExponentEnd(t, m);
    if m < n {
      DigitRunCut(t, n, if m + 1 < |t| && IsSign(t[m + 1]) then m + 2 else m + 1);
    }
  }

  /** What `strtod` converts of a run, it converts as a whole. */
  lemma StrtodCut(t: seq<Byte>)
    ensures StrtodLength(t[..StrtodLength(t)]) == StrtodLength(t)
  {
    hide ExponentEnd, MantissaEnd;
    if StrtodLength(t) > 0 {
      MantissaCut(t, StrtodLength(t));
      ExponentCut(t, MantissaEnd(t));
    } else if MantissaEnd(t) == 0 {
      NoMantissa();
    }
  }

  lemma NoMantissa()
    ensures MantissaEnd([]) == 0
  {
  }

  lemma ReadNumberIsWhole(c: seq<Byte>, o: nat, t: seq<Byte>, e: nat)
    requires Val(c, o, e, Number(t))
    ensures NumberText(t)
  {
    var run := c[o..RunEnd(c, o, o + 63)];
    var n := StrtodLength(run);
    StrtodCut(run);
    assert run[..n] == c[o..o + n] == t;
    forall b <- t ensures NumberChar(b) {
      var k :| 0 <= k < |t| && t[k] == b;
      assert c[o + k] == b;
    }
  }

  /** Every number is a whole text. */
  ghost predicate Numbers(v: Json)
    decreases v, 1
  {
    match v
    case Number(t) => NumberText(t)
    case Array(items) => NumbersOf(items)
    case Object(members) => NumbersOfMembers(members)
    case _ => true
  }

  ghost predicate NumbersOf(items: seq<Json>)
    decreases items, 0
  {
    items == [] || (Numbers(items[0]) && NumbersOf(items[1..]))
  }

  ghost predicate NumbersOfMembers(members: seq<Member>)
    decreases members, 0
  {
    members == [] || (Numbers(members[0].value) && NumbersOfMembers(members[1..]))
  }

  lemma {:induction false} ReadNumbersAreWhole(c: seq<Byte>, o: nat, e: nat, v: Json)
    requires Val(c, o, e, v)
    ensures Numbers(v)
    decreases v, 1
  {
    hide NumberText, StringAt, NumberAt;
    match v
    case Number(t) => ReadNumberIsWhole(c, o, t, e);
    case Array(items) =>
      if items != [] {
        ReadItemsAreWhole(c, o + 1, e, items);
      }
    case Object(members) =>
      if members != [] {
        ReadMembersAreWhole(c, o + 1, e, members);
      }
    case _ =>
  }

  lemma {:induction false} ReadItemsAreWhole(c: seq<Byte>, q: nat, e: nat, items: seq<Json>)
    requires items != [] && Elements(c, q, e, items)
    ensures NumbersOf(items)
    decreases items, 0
  {
    hide Val, Elements, Numbers;
    var p, r, s := SplitElements(c, q, e, items);
    ReadNumbersAreWhole(c, p, r, items[0]);
    if |items| > 1 {
      ReadItemsAreWhole(c, s + 1, e, items[1..]);
    } else {
      assert items[1..] == [];
    }
  }

  lemma {:induction false} ReadMembersAreWhole(c: seq<Byte>, q: nat, e: nat, members: seq<Member>)
    requires members != [] && Members(c, q, e, members)
    ensures NumbersOfMembers(members)
    decreases members, 0
  {
    hide Val, Members, Key, Numbers;
    var n, m, k, p, r, s := SplitMembers(c, q, e, members);
    ReadNumbersAreWhole(c, p, r, members[0].value);
    if |members| > 1 {
      ReadMembersAreWhole(c, s + 1, e, members[1..]);
    } else {
      assert members[1..] == [];
    }
  }

  lemma {:induction false} UnquotedIs(v: Json)
    ensures Unquoted(v) <==> Numbers(v) && Strings(v) == 0
    decreases v, 1
  {
    match v
    case Array(items) => UnquotedItemsAre(items);
    case Object(members) =>
    case _ =>
  }

  lemma {:induction false} UnquotedItemsAre(items: seq<Json>)
    ensures UnquotedItems(items) <==> NumbersOf(items) && StringsOf(items) == 0
    decreases items, 0
  {
    hide Unquoted, Numbers, Strings;
    if items != [] {
      UnquotedIs(items[0]);
      UnquotedItemsAre(items[1..]);
    }
  }

  lemma {:induction false} ShownIsNotRaw(s: seq<Byte>)
    ensures NoRaw(ShownAll(s))
  {
    if s != [] {
      ShownIsNotRaw(s[..|s| - 1]);
    }
  }

  lemma BracketsAreNotRaw(format: bool, depth: nat, more: bool)
    requires depth > 0
    ensures NoRaw(ObjectStart(format)) && NoRaw(ObjectEnd(format, depth)) && NoRaw(Between(format))
    ensures NoRaw(AfterKey(format)) && NoRaw(AfterMember(format, more)) && NoRaw(if format then Tabs(depth) else [])
  {
  }

  lemma {:induction false} RenderedIsNotRaw(v: Json, format: bool, depth: nat)
    requires Numbers(v)
    ensures NoRaw(Render(v, format, depth))
    decreases v, 1
  {
    hide RenderItems, RenderMembers, ShownAll, CString, NumberText, NumbersOf, NumbersOfMembers;
    match v
    case Number(t) => NumberIsNotRaw(t);
    case String(s) => ShownIsNotRaw(CString(s));
    case Array(items) => RenderedItemsAreNotRaw(items, format, depth + 1);
    case Object(members) =>
      BracketsAreNotRaw(format, depth + 1, false);
      RenderedMembersAreNotRaw(members, format, depth + 1);
    case _ =>
  }

  lemma NumberIsNotRaw(t: seq<Byte>)
    requires NumberText(t)
    ensures NoRaw(CString(t))
  {
    forall i | 0 <= i < |CString(t)| ensures !ByNumber(CString(t)[i]) {
      assert t[i] in t;
    }
  }

  lemma {:induction false} RenderedItemsAreNotRaw(items: seq<Json>, format: bool, depth: nat)
    requires NumbersOf(items) && depth > 0
    ensures NoRaw(RenderItems(items, format, depth))
    decreases items, 0
  {
    hide Numbers, Render;
    if items != [] {
      BracketsAreNotRaw(format, depth, false);
      RenderedIsNotRaw(items[0], format, depth);
      RenderedItemsAreNotRaw(items[1..], format, depth);
    }
  }

  lemma {:induction false} RenderedMembersAreNotRaw(members: seq<Member>, format: bool, depth: nat)
    requires NumbersOfMembers(members) && depth > 0
    ensures NoRaw(RenderMembers(members, format, depth))
    decreases members, 0
  {
    hide Numbers, Render, ShownAll, CString;
    BracketsAreNotRaw(format, depth, |members| > 1);
    if members != [] {
      ShownIsNotRaw(CString(members[0].name));
      RenderedIsNotRaw(members[0].value, format, depth);
      RenderedMembersAreNotRaw(members[1..], format, depth);
    }
  }

  /** A rendering that is a text of its value has no string in it, because of the quotation marks it lacks. */
  lemma ReadBackHasNoStrings(v: Json, format: bool)
    requires Val(Render(v, format, 0), 0, |Render(v, format, 0)|, v)
    ensures Numbers(v) && Strings(v) == 0
  {
    var c := Render(v, format, 0);
    ReadNumbersAreWhole(c, 0, |c|, v);
    hide Render, Val, Mass, Strings, Numbers;
    RenderedIsNotRaw(v, format, 0);
    ReadInk(c, 0, |c|, v);
    PrintedInk(v, format, 0);
  }

  /**
    What is printed of a value, the parser reads as the same value, if and only if the value holds no string
    and no member, its numbers are whole texts, and its nesting is within the limit.
  */
  lemma PrintedIsReadBackIff(v: Json, format: bool)
    ensures ValueAt(Render(v, format, 0), 0, 0) == Some(Parsed(v, |Render(v, format, 0)|)) <==>
      Unquoted(v) && Depth(v) <= NESTING_LIMIT
  {
    hide ValueAt, Render, Val;
    var c := Render(v, format, 0);
    ParserIsGrammar(c, 0, |c|, v, 0);
    UnquotedIs(v);
    if Unquoted(v) {
      assert c[0..|c|] == c;
      ReadsBack(c, 0, v, format, 0);
    }
    if Val(c, 0, |c|, v) {
      ReadBackHasNoStrings(v, format);
    }
  }
}
