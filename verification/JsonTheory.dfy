/** The parser computes exactly the grammar, up to the nesting limit. */
module JsonTheory {
  import opened Common
  import opened Utf8
  import opened JsonString
  import opened JsonGrammar

  ghost predicate WithinLimit(depth: int, more: nat) {
    depth + more <= NESTING_LIMIT
  }

  lemma FirstByte(c: seq<Byte>, p: nat, text: seq<Byte>)
    requires text != [] && Reads(c, p, text)
    ensures p < |c| && c[p] == text[0]
  {
    assert c[p..p + |text|][0] == c[p];
  }

  /** Which of the literals can start at a byte. */
  lemma Literals(c: seq<Byte>, p: nat)
    requires p < |c|
    ensures Reads(c, p, NULL_TEXT) ==> c[p] == 0x6E
    ensures Reads(c, p, FALSE_TEXT) ==> c[p] == 0x66
    ensures Reads(c, p, TRUE_TEXT) ==> c[p] == 0x74
  {
    if Reads(c, p, NULL_TEXT) {
      FirstByte(c, p, NULL_TEXT);
    }
    if Reads(c, p, FALSE_TEXT) {
      FirstByte(c, p, FALSE_TEXT);
    }
    if Reads(c, p, TRUE_TEXT) {
      FirstByte(c, p, TRUE_TEXT);
    }
  }

  // ---------------------------------------------------------------- single steps of the definitions

  lemma OneElement(c: seq<Byte>, q: nat, p: nat, r: nat, s: nat, v: Json)
    requires Element(c, q, p, r, s, v) && Is(c, s, CLOSE_BRACKET)
    ensures Elements(c, q, s + 1, [v])
  {
    assert Element(c, q, p, r, s, [v][0]);
  }

  lemma MoreElements(c: seq<Byte>, q: nat, p: nat, r: nat, s: nat, v: Json, e: nat, rest: seq<Json>)
    requires Element(c, q, p, r, s, v) && Is(c, s, COMMA) && rest != [] && Elements(c, s + 1, e, rest)
    ensures Elements(c, q, e, [v] + rest)
  {
    assert Element(c, q, p, r, s, ([v] + rest)[0]);
    assert ([v] + rest)[1..] == rest;
  }

  lemma SplitElements(c: seq<Byte>, q: nat, e: nat, items: seq<Json>) returns (p: nat, r: nat, s: nat)
    requires items != [] && Elements(c, q, e, items)
    ensures Element(c, q, p, r, s, items[0])
    ensures if |items| == 1 then Is(c, s, CLOSE_BRACKET) && e == s + 1
            else Is(c, s, COMMA) && Elements(c, s + 1, e, items[1..])
  {
    p, r, s :| Element(c, q, p, r, s, items[0]) &&
      if |items| == 1 then Is(c, s, CLOSE_BRACKET) && e == s + 1
      else Is(c, s, COMMA) && Elements(c, s + 1, e, items[1..]);
  }

  lemma OneMember(c: seq<Byte>, q: nat, n: nat, m: nat, k: nat, s: nat, x: Member)
    requires Key(c, q, n, m, k, x.name) && Pair(c, k, s, x.value) && Is(c, s, CLOSE_BRACE)
    ensures Members(c, q, s + 1, [x])
  {
    assert Key(c, q, n, m, k, [x][0].name) && Pair(c, k, s, [x][0].value);
  }

  lemma MoreMembers(c: seq<Byte>, q: nat, n: nat, m: nat, k: nat, s: nat, x: Member, e: nat, rest: seq<Member>)
    requires Key(c, q, n, m, k, x.name) && Pair(c, k, s, x.value)
    requires Is(c, s, COMMA) && rest != [] && Members(c, s + 1, e, rest)
    ensures Members(c, q, e, [x] + rest)
  {
    assert Key(c, q, n, m, k, ([x] + rest)[0].name) && Pair(c, k, s, ([x] + rest)[0].value);
    assert ([x] + rest)[1..] == rest;
  }

  lemma SplitMembers(c: seq<Byte>, q: nat, e: nat, members: seq<Member>)
    returns (n: nat, m: nat, k: nat, p: nat, r: nat, s: nat)
    requires members != [] && Members(c, q, e, members)
    ensures Key(c, q, n, m, k, members[0].name) && Element(c, k, p, r, s, members[0].value)
    ensures if |members| == 1 then Is(c, s, CLOSE_BRACE) && e == s + 1
            else Is(c, s, COMMA) && Members(c, s + 1, e, members[1..])
  {
    n, m, k, s :| Key(c, q, n, m, k, members[0].name) && Pair(c, k, s, members[0].value) &&
      if |members| == 1 then Is(c, s, CLOSE_BRACE) && e == s + 1
      else Is(c, s, COMMA) && Members(c, s + 1, e, members[1..]);
    p, r := SplitPair(c, k, s, members[0].value);
  }

  lemma MakePair(c: seq<Byte>, k: nat, p: nat, r: nat, s: nat, v: Json)
    requires Element(c, k, p, r, s, v)
    ensures Pair(c, k, s, v)
  {
  }

  lemma SplitPair(c: seq<Byte>, k: nat, s: nat, v: Json) returns (p: nat, r: nat)
    requires Pair(c, k, s, v)
    ensures Element(c, k, p, r, s, v)
  {
    p, r :| Element(c, k, p, r, s, v);
  }

  /** One turn of the array loop. */
  lemma ElementsStep(c: seq<Byte>, q: nat, p: nat, r: nat, s: nat, v: Json, depth: int)
    requires q <= |c| && Skip(c, q) == p && ValueAt(c, p, depth) == Some(Parsed(v, r)) && Skip(c, r) == s
    ensures Is(c, s, CLOSE_BRACKET) ==> ElementsAt(c, q, depth) == Some(Parsed([v], s + 1))
    ensures Is(c, s, COMMA) && ElementsAt(c, s + 1, depth).Some? ==>
              var rest := ElementsAt(c, s + 1, depth).value;
              ElementsAt(c, q, depth) == Some(Parsed([v] + rest.value, rest.end))
  {
    hide Skip, ValueAt;
  }

  /** One turn of the object loop. */
  lemma MembersStep(c: seq<Byte>, q: nat, k: nat, p: nat, r: nat, s: nat, x: Member, depth: int)
    requires q <= |c| && KeyAt(c, q) == Some(Parsed(x.name, k))
    requires Skip(c, k) == p && ValueAt(c, p, depth) == Some(Parsed(x.value, r)) && Skip(c, r) == s
    ensures Is(c, s, CLOSE_BRACE) ==> MembersAt(c, q, depth) == Some(Parsed([x], s + 1))
    ensures Is(c, s, COMMA) && MembersAt(c, s + 1, depth).Some? ==>
              var rest := MembersAt(c, s + 1, depth).value;
              MembersAt(c, q, depth) == Some(Parsed([x] + rest.value, rest.end))
  {
    hide KeyAt, Skip, ValueAt;
  }

  // ---------------------------------------------------------------- what is parsed is derived

  lemma {:induction false} ValueSound(c: seq<Byte>, o: nat, depth: int)
    requires o <= |c| && depth <= NESTING_LIMIT
    ensures var r := ValueAt(c, o, depth);
            r.Some? ==> Val(c, o, r.value.end, r.value.value) && WithinLimit(depth, Depth(r.value.value))
    decreases |c| - o, 1
  {
    if o < |c| {
      Literals(c, o);
      if c[o] == OPEN_BRACKET {
        ArraySound(c, o, depth);
      } else if c[o] == OPEN_BRACE {
        ObjectSound(c, o, depth);
      }
    }
  }

  lemma {:induction false} ArraySound(c: seq<Byte>, o: nat, depth: int)
    requires o < |c| && c[o] == OPEN_BRACKET && depth <= NESTING_LIMIT
    ensures var r := ArrayAt(c, o, depth);
            r.Some? ==> Val(c, o, r.value.end, r.value.value) && WithinLimit(depth, Depth(r.value.value))
    decreases |c| - o, 0
  {
    hide ElementsAt, Elements;
    if depth < NESTING_LIMIT {
      var first := Skip(c, o + 1);
      if first < |c| && c[first] != CLOSE_BRACKET {
        if ElementsAt(c, first, depth + 1).Some? {
          ElementsSound(c, first, depth + 1);
          var r := ElementsAt(c, first, depth + 1).value;
          BlankBefore(c, o + 1, first, r.end, r.value);
        }
      } else if first < |c| {
        assert Closes(c, o + 1, first + 1, CLOSE_BRACKET);
      }
    }
  }

  lemma BlankBefore(c: seq<Byte>, q: nat, q': nat, e: nat, items: seq<Json>)
    requires items != [] && Blank(c, q, q') && Elements(c, q', e, items)
    ensures Elements(c, q, e, items)
  {
    var p, r, s := SplitElements(c, q', e, items);
    assert Element(c, q, p, r, s, items[0]);
  }

  lemma {:induction false} ElementsSound(c: seq<Byte>, q: nat, depth: int)
    requires q <= |c| && depth <= NESTING_LIMIT && ElementsAt(c, q, depth).Some?
    ensures var r := ElementsAt(c, q, depth).value;
            Elements(c, q, r.end, r.value) && WithinLimit(depth, DepthOf(r.value))
    decreases |c| - q, 3
  {
    hide Skip, ValueAt, Element, Elements, Val;
    var p := Skip(c, q);
    var v := ValueAt(c, p, depth).value;
    var s := Skip(c, v.end);
    ElementSound(c, q, depth);
    if c[s] == COMMA {
      var rest := ElementsAt(c, s + 1, depth).value;
      ElementsSound(c, s + 1, depth);
      MoreElements(c, q, p, v.end, s, v.value, rest.end, rest.value);
      DepthMore(v.value, rest.value);
    } else {
      OneElement(c, q, p, v.end, s, v.value);
      DepthOne(v.value);
    }
  }

  lemma {:induction false} ElementSound(c: seq<Byte>, q: nat, depth: int)
    requires q <= |c| && depth <= NESTING_LIMIT && ValueAt(c, Skip(c, q), depth).Some?
    ensures var v := ValueAt(c, Skip(c, q), depth).value;
            Element(c, q, Skip(c, q), v.end, Skip(c, v.end), v.value) && WithinLimit(depth, Depth(v.value))
    decreases |c| - q, 2
  {
    hide Skip, ValueAt, Val;
    ValueSound(c, Skip(c, q), depth);
  }

  lemma DepthOne(v: Json)
    ensures DepthOf([v]) == Depth(v)
  {
  }

  lemma DepthMore(v: Json, rest: seq<Json>)
    ensures DepthOf([v] + rest) == Max(Depth(v), DepthOf(rest))
  {
    assert ([v] + rest)[1..] == rest;
  }

  lemma {:induction false} ObjectSound(c: seq<Byte>, o: nat, depth: int)
    requires o < |c| && c[o] == OPEN_BRACE && depth <= NESTING_LIMIT
    ensures var r := ObjectAt(c, o, depth);
            r.Some? ==> Val(c, o, r.value.end, r.value.value) && WithinLimit(depth, Depth(r.value.value))
    decreases |c| - o, 0
  {
    hide MembersAt, Members;
    if depth < NESTING_LIMIT {
      var first := Skip(c, o + 1);
      if first < |c| && c[first] != CLOSE_BRACE {
        if MembersAt(c, first, depth + 1).Some? {
          var r := MembersAt(c, first, depth + 1).value;
          assert Members(c, o + 1, r.end, r.value) && WithinLimit(depth + 1, DepthOfMembers(r.value)) by {
            MembersSound(c, first, depth + 1);
            BlankBeforeMembers(c, o + 1, first, r.end, r.value);
          }
        }
      } else if first < |c| {
        assert Closes(c, o + 1, first + 1, CLOSE_BRACE);
      }
    }
  }

  lemma BlankBeforeMembers(c: seq<Byte>, q: nat, q': nat, e: nat, members: seq<Member>)
    requires members != [] && Blank(c, q, q') && Members(c, q', e, members)
    ensures Members(c, q, e, members)
  {
    var n, m, k, p, r, s := SplitMembers(c, q', e, members);
    assert Key(c, q, n, m, k, members[0].name) && Pair(c, k, s, members[0].value);
  }

  lemma KeySound(c: seq<Byte>, q: nat) returns (n: nat, m: nat)
    requires q <= |c| && KeyAt(c, q).Some?
    ensures Key(c, q, n, m, KeyAt(c, q).value.end, KeyAt(c, q).value.value)
  {
    n := Skip(c, q);
    m := StringAt(c, n).value.end;
    assert Closes(c, m, KeyAt(c, q).value.end, COLON);
  }

  lemma {:induction false} MembersSound(c: seq<Byte>, q: nat, depth: int)
    requires q <= |c| && depth <= NESTING_LIMIT && MembersAt(c, q, depth).Some?
    ensures var r := MembersAt(c, q, depth).value;
            Members(c, q, r.end, r.value) && WithinLimit(depth, DepthOfMembers(r.value))
    decreases |c| - q, 3
  {
    hide Skip, KeyAt, ValueAt, Key, Element, Pair, Members, Val;
    var key := KeyAt(c, q).value;
    var n, m := KeySound(c, q);
    var p := Skip(c, key.end);
    var v := ValueAt(c, p, depth).value;
    var s := Skip(c, v.end);
    var x := Member(key.value, v.value);
    ElementSound(c, key.end, depth);
    MakePair(c, key.end, p, v.end, s, v.value);
    MembersStep(c, q, key.end, p, v.end, s, x, depth);
    if c[s] == COMMA {
      var rest := MembersAt(c, s + 1, depth).value;
      MembersSound(c, s + 1, depth);
      MoreMembers(c, q, n, m, key.end, s, x, rest.end, rest.value);
      DepthMoreMembers(x, rest.value);
    } else {
      OneMember(c, q, n, m, key.end, s, x);
      DepthOneMember(x);
    }
  }

  lemma DepthOneMember(x: Member)
    ensures DepthOfMembers([x]) == Depth(x.value)
  {
  }

  lemma DepthMoreMembers(x: Member, rest: seq<Member>)
    ensures DepthOfMembers([x] + rest) == Max(Depth(x.value), DepthOfMembers(rest))
  {
    assert ([x] + rest)[1..] == rest;
  }

  // ---------------------------------------------------------------- what is derived is parsed

  /** A text of a value starts with a byte that is no white space, and is not empty. */
  lemma ValStarts(c: seq<Byte>, o: nat, e: nat, v: Json)
    requires Val(c, o, e, v)
    ensures o < |c| && c[o] > 32
  {
    match v
    case Null => FirstByte(c, o, NULL_TEXT);
    case False => FirstByte(c, o, FALSE_TEXT);
    case True => FirstByte(c, o, TRUE_TEXT);
    case Number(_) =>
    case String(_) =>
    case Array(_) =>
    case Object(_) =>
  }

  lemma {:induction false} ValueComplete(c: seq<Byte>, o: nat, e: nat, v: Json, depth: int)
    requires Val(c, o, e, v) && WithinLimit(depth, Depth(v))
    ensures o <= |c| && ValueAt(c, o, depth) == Some(Parsed(v, e))
    decreases v, 1
  {
    hide ArrayAt, ObjectAt, NumberAt, Elements, Members;
    ValStarts(c, o, e, v);
    Literals(c, o);
    match v
    case Null =>
    case False =>
    case True =>
    case Number(_) =>
    case String(_) =>
    case Array(items) => ArrayComplete(c, o, e, items, depth);
    case Object(members) => ObjectComplete(c, o, e, members, depth);
  }

  lemma ArrayCloseComplete(c: seq<Byte>, o: nat, e: nat, depth: int)
    requires Is(c, o, OPEN_BRACKET) && depth < NESTING_LIMIT && Closes(c, o + 1, e, CLOSE_BRACKET)
    ensures ArrayAt(c, o, depth) == Some(Parsed(Array([]), e))
  {
    SkipFinds(c, o + 1, e - 1);
    hide Skip, ValueAt, ElementsAt;
  }

  lemma ObjectCloseComplete(c: seq<Byte>, o: nat, e: nat, depth: int)
    requires Is(c, o, OPEN_BRACE) && depth < NESTING_LIMIT && Closes(c, o + 1, e, CLOSE_BRACE)
    ensures ObjectAt(c, o, depth) == Some(Parsed(Object([]), e))
  {
    SkipFinds(c, o + 1, e - 1);
    hide Skip, ValueAt, MembersAt;
  }

  lemma {:induction false} ArrayComplete(c: seq<Byte>, o: nat, e: nat, items: seq<Json>, depth: int)
    requires Is(c, o, OPEN_BRACKET) && WithinLimit(depth, 1 + DepthOf(items))
    requires if items == [] then Closes(c, o + 1, e, CLOSE_BRACKET) else Elements(c, o + 1, e, items)
    ensures ArrayAt(c, o, depth) == Some(Parsed(Array(items), e))
    decreases items, 1
  {
    hide Skip, ValueAt, ElementsAt, Elements, DepthOf;
    if items == [] {
      ArrayCloseComplete(c, o, e, depth);
    } else {
      ElementsComplete(c, o + 1, e, items, depth + 1);
    }
  }

  lemma {:induction false} ObjectComplete(c: seq<Byte>, o: nat, e: nat, members: seq<Member>, depth: int)
    requires Is(c, o, OPEN_BRACE) && WithinLimit(depth, 1 + DepthOfMembers(members))
    requires if members == [] then Closes(c, o + 1, e, CLOSE_BRACE) else Members(c, o + 1, e, members)
    ensures ObjectAt(c, o, depth) == Some(Parsed(Object(members), e))
    decreases members, 1
  {
    hide Skip, ValueAt, MembersAt, Members, DepthOfMembers;
    if members == [] {
      ObjectCloseComplete(c, o, e, depth);
    } else {
      MembersComplete(c, o + 1, e, members, depth + 1);
    }
  }

  /** The byte behind an element or a member, as the loops of the parser find it. */
  lemma {:induction false} ElementComplete(c: seq<Byte>, q: nat, p: nat, r: nat, s: nat, v: Json, depth: int)
    requires Element(c, q, p, r, s, v) && s < |c| && c[s] > 32 && WithinLimit(depth, Depth(v))
    ensures q <= |c| && Skip(c, q) == p && ValueAt(c, p, depth) == Some(Parsed(v, r)) && Skip(c, r) == s
    ensures c[p] > 32
    decreases v, 2
  {
    ValueComplete(c, p, r, v, depth);
    SkipFinds(c, q, p);
    SkipFinds(c, r, s);
  }

  /** The elements parse alike from behind the bracket and from the first byte that is not blank. */
  lemma {:induction false} ElementsComplete(c: seq<Byte>, q: nat, e: nat, items: seq<Json>, depth: int)
    requires items != [] && Elements(c, q, e, items) && WithinLimit(depth, DepthOf(items))
    ensures q <= |c| && Skip(c, q) < |c| && c[Skip(c, q)] != CLOSE_BRACKET
    ensures ElementsAt(c, q, depth) == Some(Parsed(items, e)) == ElementsAt(c, Skip(c, q), depth)
    decreases items, 0
  {
    hide Skip, ValueAt, ElementsAt, Element, Elements, Val;
    var p, r, s := SplitElements(c, q, e, items);
    ElementComplete(c, q, p, r, s, items[0], depth);
    NotABracket(c, p, depth);
    SkipFinds(c, p, p);
    ElementsStep(c, q, p, r, s, items[0], depth);
    ElementsStep(c, p, p, r, s, items[0], depth);
    if |items| > 1 {
      ElementsComplete(c, s + 1, e, items[1..], depth);
      assert items == [items[0]] + items[1..];
    } else {
      assert items == [items[0]];
    }
  }

  lemma NotABracket(c: seq<Byte>, p: nat, depth: int)
    requires p < |c| && ValueAt(c, p, depth).Some?
    ensures c[p] != CLOSE_BRACKET
  {
    Literals(c, p);
  }

  lemma KeyComplete(c: seq<Byte>, q: nat, n: nat, m: nat, k: nat, name: seq<Byte>)
    requires Key(c, q, n, m, k, name)
    ensures q <= |c| && Skip(c, q) == n < |c| && c[n] == QUOTE
    ensures KeyAt(c, q) == Some(Parsed(name, k)) == KeyAt(c, Skip(c, q))
  {
    SkipFinds(c, q, n);
    SkipFinds(c, n, n);
    SkipFinds(c, m, k - 1);
  }

  lemma {:induction false} MembersComplete(c: seq<Byte>, q: nat, e: nat, members: seq<Member>, depth: int)
    requires members != [] && Members(c, q, e, members) && WithinLimit(depth, DepthOfMembers(members))
    ensures q <= |c| && Skip(c, q) < |c| && c[Skip(c, q)] != CLOSE_BRACE
    ensures MembersAt(c, q, depth) == Some(Parsed(members, e)) == MembersAt(c, Skip(c, q), depth)
    decreases members, 0
  {
    hide Skip, KeyAt, ValueAt, MembersAt, Key, Element, Members, Val;
    var n, m, k, p, r, s := SplitMembers(c, q, e, members);
    KeyComplete(c, q, n, m, k, members[0].name);
    ElementComplete(c, k, p, r, s, members[0].value, depth);
    MembersStep(c, q, k, p, r, s, members[0], depth);
    MembersStep(c, n, k, p, r, s, members[0], depth);
    if |members| > 1 {
      MembersComplete(c, s + 1, e, members[1..], depth);
      assert members == [members[0]] + members[1..];
    } else {
      assert members == [members[0]];
    }
  }

  /** The parser accepts exactly the texts of the grammar whose nesting stays within the limit. */
  lemma ParserIsGrammar(c: seq<Byte>, o: nat, e: nat, v: Json, depth: int)
    requires o <= |c| && depth <= NESTING_LIMIT
    ensures ValueAt(c, o, depth) == Some(Parsed(v, e)) <==> Val(c, o, e, v) && WithinLimit(depth, Depth(v))
  {
    ValueSound(c, o, depth);
    if Val(c, o, e, v) && WithinLimit(depth, Depth(v)) {
      ValueComplete(c, o, e, v, depth);
    }
  }

  lemma ValWithin(c: seq<Byte>, o: nat, e: nat, v: Json)
    requires Val(c, o, e, v)
    ensures o < e <= |c|
  {
    hide ValueAt, Val, Depth;
    ValueComplete(c, o, e, v, NESTING_LIMIT - Depth(v));
  }

  /** The grammar is unambiguous: a text has one value, and no prefix of it has another. */
  lemma Unambiguous(c: seq<Byte>, o: nat, e: nat, v: Json, e': nat, v': Json)
    requires Val(c, o, e, v) && Val(c, o, e', v')
    ensures e == e' && v == v'
  {
    hide ValueAt, Val, Depth;
    var depth := NESTING_LIMIT - Depth(v) - Depth(v');
    ValueComplete(c, o, e, v, depth);
    ValueComplete(c, o, e', v', depth);
  }
}
