/**
  The texts of the RFC that the parser refuses.  Besides the limits there is one reason only: a surrogate without
  its partner.
*/
module JsonRefusal {
  import opened Common
  import opened Utf8
  import opened JsonString
  import opened JsonStringGrammar
  import opened JsonUnits
  import opened JsonGrammar
  import opened JsonTheory
  import opened JsonRfc

  lemma RfcStarts(c: seq<Byte>, o: nat, e: nat, v: Json)
    requires RfcVal(c, o, e, v)
    ensures o < |c| && c[o] > 32 && c[o] != CLOSE_BRACKET && c[o] != CLOSE_BRACE
  {
    hide StringAt, RfcElements, RfcMembers, StrictString;
    match v
    case Null => FirstByte(c, o, NULL_TEXT);
    case False => FirstByte(c, o, FALSE_TEXT);
    case True => FirstByte(c, o, TRUE_TEXT);
    case Number(t) =>
      RfcNumberIsWhole(t);
      FirstByte(c, o, t);
    case String(s) => StringLeaf(c, o, e, s);
    case _ =>
  }

  lemma PairedReads(c: seq<Byte>, o: nat, t: seq<Byte>)
    requires Reads(c, o, t) && forall k :: 0 <= k < |t| ==> t[k] > 34
    ensures PairedText(c, o, o + |t|)
  {
    forall k | o <= k < o + |t| ensures c[k] > 34 {
      assert c[o..o + |t|][k - o] == c[k];
    }
    NoStrings(c, o, o + |t|);
  }

  // ---------------------------------------------------------------- what is read has its surrogates in pairs

  lemma StringOnlyIfPaired(c: seq<Byte>, o: nat, e: nat, s: seq<Byte>)
    requires StrictString(c, o, e, s)
    ensures o < e <= |c| && c[o] == QUOTE
    ensures StringAt(c, o).Some? ==> StringAt(c, o) == Some(Parsed(s, e)) && PairedText(c, o, e)
  {
    hide StringAt, CleanAt, StrictString, PairedAt, NoControls, Jump;
    StringLeaf(c, o, e, s);
    assert PairedText(c, e, e);
  }

  lemma {:induction false} ReadOnlyIfPaired(c: seq<Byte>, o: nat, e: nat, v: Json, depth: int)
    requires RfcVal(c, o, e, v) && depth <= NESTING_LIMIT
    ensures o < |c| && e <= |c| && (ValueAt(c, o, depth).Some? ==> PairedText(c, o, e))
    decreases v, 1
  {
    hide PairedText, StringAt, NumberAt, RfcElements, RfcMembers, ArrayAt, ObjectAt;
    RfcStarts(c, o, e, v);
    Literals(c, o);
    match v
    case Null => PairedReads(c, o, NULL_TEXT);
    case False => PairedReads(c, o, FALSE_TEXT);
    case True => PairedReads(c, o, TRUE_TEXT);
    case Number(t) =>
      RfcNumberIsWhole(t);
      PairedReads(c, o, t);
    case String(s) => StringOnlyIfPaired(c, o, e, s);
    case Array(items) => ArrayOnlyIfPaired(c, o, e, items, depth);
    case Object(members) => ObjectOnlyIfPaired(c, o, e, members, depth);
  }

  lemma {:induction false} ArrayOnlyIfPaired(c: seq<Byte>, o: nat, e: nat, items: seq<Json>, depth: int)
    requires RfcVal(c, o, e, Array(items)) && depth <= NESTING_LIMIT
    ensures o < |c| && e <= |c| && (ArrayAt(c, o, depth).Some? ==> PairedText(c, o, e))
    decreases items, 1
  {
    hide PairedText, ElementsAt, RfcElements, Skip;
    if items == [] {
      NoStrings(c, o, e);
    } else if depth < NESTING_LIMIT {
      ElementsOnlyIfPaired(c, o + 1, e, items, depth + 1);
      CleanSkips(c, o, o + 1, e);
    } else {
      RfcIsVal(c, o, e, Array(items));
    }
  }

  lemma {:induction false} ObjectOnlyIfPaired(c: seq<Byte>, o: nat, e: nat, members: seq<Member>, depth: int)
    requires RfcVal(c, o, e, Object(members)) && depth <= NESTING_LIMIT
    ensures o < |c| && e <= |c| && (ObjectAt(c, o, depth).Some? ==> PairedText(c, o, e))
    decreases members, 1
  {
    hide PairedText, MembersAt, RfcMembers, Skip;
    if members == [] {
      NoStrings(c, o, e);
    } else if depth < NESTING_LIMIT {
      MembersOnlyIfPaired(c, o + 1, e, members, depth + 1);
      CleanSkips(c, o, o + 1, e);
    } else {
      RfcIsVal(c, o, e, Object(members));
    }
  }

  /** The value that is read is the one of the grammar. */
  lemma SameValue(c: seq<Byte>, o: nat, e: nat, v: Json, depth: int)
    requires RfcVal(c, o, e, v) && depth <= NESTING_LIMIT && o <= |c| && e <= |c|
    requires ValueAt(c, o, depth).Some? && PairedText(c, o, e)
    ensures ValueAt(c, o, depth) == Some(Parsed(v, e))
  {
    hide RfcVal, Val, ValueAt, PairedText;
    RfcIsVal(c, o, e, v);
    ValueSound(c, o, depth);
    var r := ValueAt(c, o, depth).value;
    Unambiguous(c, o, e, v, r.end, r.value);
  }

  lemma {:induction false} ElementOnlyIfPaired(c: seq<Byte>, q: nat, p: nat, r: nat, s: nat, v: Json, depth: int)
    requires RfcElement(c, q, p, r, s, v) && s < |c| && c[s] > 34 && depth <= NESTING_LIMIT
    ensures q <= p < |c| && q <= s && Skip(c, q) == p && c[p] > 32 && c[p] != CLOSE_BRACKET && Reaches(c, q, s + 1)
    ensures ValueAt(c, p, depth).Some? ==>
      ValueAt(c, p, depth) == Some(Parsed(v, r)) && r <= |c| && Skip(c, r) == s && PairedText(c, q, s + 1)
    decreases v, 2
  {
    hide RfcVal, ValueAt, PairedText, Reaches, Skip;
    RfcIsElement(c, q, p, r, s, v);
    RfcStarts(c, p, r, v);
    RfcIsVal(c, p, r, v);
    WsIsBlank(c, q, p);
    SkipFinds(c, q, p);
    ReadOnlyIfPaired(c, p, r, v, depth);
    if ValueAt(c, p, depth).Some? {
      SameValue(c, p, r, v, depth);
      WsIsBlank(c, r, s);
      SkipFinds(c, r, s);
      PairedBetween(c, q, p, r, s, v);
    }
  }

  lemma PairedBetween(c: seq<Byte>, q: nat, p: nat, r: nat, s: nat, v: Json)
    requires RfcElement(c, q, p, r, s, v) && s < |c| && c[s] > 34 && r <= |c| && PairedText(c, p, r)
    ensures PairedText(c, q, s + 1)
  {
    hide RfcVal, PairedText, Reaches;
    RfcIsVal(c, p, r, v);
    CleanSkips(c, q, p, s + 1);
    ScanSplits(c, p, r, s + 1);
    NoStrings(c, r, s + 1);
  }

  lemma {:induction false} ElementsOnlyIfPaired(c: seq<Byte>, q: nat, e: nat, items: seq<Json>, depth: int)
    requires items != [] && RfcElements(c, q, e, items) && depth <= NESTING_LIMIT
    ensures q < e <= |c| && Skip(c, q) < |c| && c[Skip(c, q)] != CLOSE_BRACKET
    ensures ElementsAt(c, q, depth) == ElementsAt(c, Skip(c, q), depth)
    ensures ElementsAt(c, q, depth).Some? ==> PairedText(c, q, e)
    decreases items, 0
  {
    hide RfcElement, RfcElements, ValueAt, PairedText, Reaches, Skip;
    var p, r, s := SplitRfcElements(c, q, e, items);
    ElementOnlyIfPaired(c, q, p, r, s, items[0], depth);
    SkipFinds(c, p, p);
    if |items| > 1 {
      ElementsOnlyIfPaired(c, s + 1, e, items[1..], depth);
      ScanSplits(c, q, s + 1, e);
    }
  }

  lemma KeyOnlyIfPaired(c: seq<Byte>, q: nat, n: nat, m: nat, k: nat, name: seq<Byte>)
    requires Ws(c, q, n) && StrictString(c, n, m, name) && WsCloses(c, m, k, COLON)
    ensures q <= n < |c| && k <= |c| && Skip(c, q) == n && c[n] == QUOTE && Reaches(c, q, k)
    ensures KeyAt(c, q).Some? ==> KeyAt(c, q) == Some(Parsed(name, k)) && PairedText(c, q, k)
  {
    hide StringAt, StrictString, PairedText, Reaches, Skip;
    RfcIsKey(c, q, n, m, k, name);
    StringOnlyIfPaired(c, n, m, name);
    WsIsBlank(c, q, n);
    SkipFinds(c, q, n);
    if StringAt(c, n).Some? {
      WsIsBlank(c, m, k - 1);
      SkipFinds(c, m, k - 1);
      CleanSkips(c, q, n, k);
      SweepString(c, n, m, name);
      ScanSplits(c, n, m, k);
      NoStrings(c, m, k);
    }
  }

  /** The name and the value that the member loop reads at `q`. */
  ghost predicate MemberAt(c: seq<Byte>, q: nat, depth: int)
    requires q <= |c|
  {
    KeyAt(c, q).Some? && ValueAt(c, Skip(c, KeyAt(c, q).value.end), depth).Some?
  }

  lemma {:induction false} MemberOnlyIfPaired(
    c: seq<Byte>, q: nat, n: nat, m: nat, k: nat, p: nat, r: nat, s: nat, x: Member, depth: int)
    requires RfcPair(c, q, n, m, k, p, r, s, x) && s < |c| && c[s] > 34 && depth <= NESTING_LIMIT
    ensures q <= n < |c| && q <= s && Skip(c, q) == n && c[n] == QUOTE && Reaches(c, q, s + 1)
    ensures MemberAt(c, q, depth) ==>
      && KeyAt(c, q) == Some(Parsed(x.name, k)) && k <= p < |c| && Skip(c, k) == p && r <= |c|
      && ValueAt(c, p, depth) == Some(Parsed(x.value, r)) && Skip(c, r) == s && PairedText(c, q, s + 1)
    decreases x, 4
  {
    hide RfcElement, StrictString, ValueAt, KeyAt, PairedText, Reaches, Skip;
    KeyOnlyIfPaired(c, q, n, m, k, x.name);
    ElementOnlyIfPaired(c, k, p, r, s, x.value, depth);
    ScanSplits(c, q, k, s + 1);
  }

  lemma {:induction false} MembersOnlyIfPaired(c: seq<Byte>, q: nat, e: nat, members: seq<Member>, depth: int)
    requires members != [] && RfcMembers(c, q, e, members) && depth <= NESTING_LIMIT
    ensures q < e <= |c| && Skip(c, q) < |c| && c[Skip(c, q)] != CLOSE_BRACE
    ensures MembersAt(c, q, depth) == MembersAt(c, Skip(c, q), depth)
    ensures MembersAt(c, q, depth).Some? ==> PairedText(c, q, e)
    decreases members, 0
  {
    hide RfcPair, RfcMembers, MemberAt, MembersAt, ValueAt, KeyAt, PairedText, Reaches, Skip;
    var n, m, k, p, r, s := SplitRfcMembers(c, q, e, members);
    MemberOnlyIfPaired(c, q, n, m, k, p, r, s, members[0], depth);
    SkipFinds(c, n, n);
    MembersAtSkip(c, q, n, depth);
    if MembersAt(c, q, depth).Some? {
      MembersGoOn(c, q, depth);
    }
    if |members| > 1 {
      MembersOnlyIfPaired(c, s + 1, e, members[1..], depth);
      ScanSplits(c, q, s + 1, e);
    }
  }

  lemma MembersAtSkip(c: seq<Byte>, q: nat, n: nat, depth: int)
    requires q <= |c| && Skip(c, q) == n < |c| && Skip(c, n) == n
    ensures MembersAt(c, q, depth) == MembersAt(c, n, depth)
  {
    hide Skip, ValueAt, StringAt;
    assert KeyAt(c, q) == KeyAt(c, n);
    hide KeyAt;
  }

  /** Members are read when the first one is, and those behind its comma. */
  lemma MembersGoOn(c: seq<Byte>, q: nat, depth: int)
    requires q <= |c| && MembersAt(c, q, depth).Some?
    ensures MemberAt(c, q, depth)
    ensures var s := Skip(c, ValueAt(c, Skip(c, KeyAt(c, q).value.end), depth).value.end);
            Is(c, s, COMMA) ==> MembersAt(c, s + 1, depth).Some?
  {
    hide KeyAt, ValueAt, Skip;
  }

  /** A text of the RFC within the limits is read, to its value, if and only if all surrogates in it come in pairs. */
  lemma RfcIsReadIffPaired(c: seq<Byte>, o: nat, e: nat, v: Json, depth: int)
    requires RfcVal(c, o, e, v) && depth + Depth(v) <= 1000
    ensures o < |c| && e <= |c|
    ensures ValueAt(c, o, depth).Some? <==> PairedText(c, o, e)
    ensures PairedText(c, o, e) ==> ValueAt(c, o, depth) == Some(Parsed(v, e))
  {
    hide RfcVal, ValueAt, PairedText, Depth, RfcNumbers, CleanText;
    ReadOnlyIfPaired(c, o, e, v, depth);
    ParserIsRfc(c, o, e, v, depth);
  }

  /** `"\uDEAD"` is a text of the RFC, and no text for the parser. */
  lemma DeadIsRefused(depth: int)
    ensures exists s :: RfcVal(DeadText, 0, 8, String(s))
    ensures !PairedText(DeadText, 0, 8) && ValueAt(DeadText, 0, depth).None?
  {
    LoneSurrogateIsRefused();
    var s := Meaning([Uni(DEAD)]);
    assert Spells(DeadText, 0, 8, [Uni(DEAD)], s);
    assert RfcVal(DeadText, 0, 8, String(s));
    Literals(DeadText, 0);
    assert !PairedAt(DeadText, 0);
  }
}
