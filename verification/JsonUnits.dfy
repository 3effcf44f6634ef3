/**
  The strings of RFC 8259, section 7, unit by unit.  An escape is any four hexadecimal digits after `\u`, so a
  string may hold a surrogate without its partner; the decoder refuses exactly those strings.
*/
module JsonUnits {
  import opened Common
  import opened Utf8
  import opened JsonString
  import opened JsonStringGrammar

  /** The bytes that may follow a backslash besides `u`, and what they stand for. */
  function ShortEscapes(): map<Byte, Byte> {
    map[0x22 := 0x22, 0x5C := 0x5C, 0x2F := 0x2F, 0x62 := 0x08, 0x66 := 0x0C, 0x6E := 0x0A, 0x72 := 0x0D, 0x74 := 0x09]
  }

  /** The hexadecimal digits of either case, with their values. */
  function HexDigits(): map<Byte, nat> {
    map[0x30 := 0, 0x31 := 1, 0x32 := 2, 0x33 := 3, 0x34 := 4, 0x35 := 5, 0x36 := 6, 0x37 := 7, 0x38 := 8, 0x39 := 9,
        0x41 := 10, 0x42 := 11, 0x43 := 12, 0x44 := 13, 0x45 := 14, 0x46 := 15,
        0x61 := 10, 0x62 := 11, 0x63 := 12, 0x64 := 13, 0x65 := 14, 0x66 := 15]
  }

  predicate FourDigits(d: seq<Byte>) {
    |d| == 4 && forall b <- d :: b in HexDigits()
  }

  function DigitOf(b: Byte): (v: nat)
    requires b in HexDigits()
    ensures v < 16
  {
    HexDigits()[b]
  }

  function NumberOf(d: seq<Byte>): (n: nat)
    requires FourDigits(d)
    ensures n < 0x10000
  {
    ((DigitOf(d[0]) * 16 + DigitOf(d[1])) * 16 + DigitOf(d[2])) * 16 + DigitOf(d[3])
  }

  /** Bytes are read as digits if and only if they are digits, and then as their number. */
  lemma DigitsAreRead(d: seq<Byte>)
    requires |d| == 4
    ensures AllHex(d) <==> FourDigits(d)
    ensures FourDigits(d) ==> Hex4(d) == NumberOf(d)
  {
    DigitIsRead(d[0]);
    DigitIsRead(d[1]);
    DigitIsRead(d[2]);
    DigitIsRead(d[3]);
    hide IsHex, HexValue, HexDigits, DigitOf;
  }

  lemma DigitIsRead(b: Byte)
    ensures IsHex(b) <==> b in HexDigits()
    ensures b in HexDigits() ==> HexValue(b) == DigitOf(b)
  {
  }

  /** `char`: an unescaped byte from 0x20 on, a short escape, or four digits. */
  predicate Rfc(i: Item) {
    match i
    case Plain(b) => b >= 0x20 && b != 0x22 && b != 0x5C
    case Short(b) => b in ShortEscapes()
    case Uni(d) => FourDigits(d)
    case Pair(_, _) => false
  }

  predicate AllRfc(items: seq<Item>) {
    forall k :: 0 <= k < |items| ==> Rfc(items[k])
  }

  /** The items as they are written. */
  function Written(items: seq<Item>): seq<Byte>
    requires AllRfc(items)
  {
    if items == [] then []
    else
      (match items[0]
       case Plain(b) => [b]
       case Short(b) => [0x5C, b]
       case Uni(d) => [0x5C, 0x75] + d) + Written(items[1..])
  }

  /** `string`: the text from `o` to `e` is the items between quotation marks. */
  ghost predicate RfcString(c: seq<Byte>, o: nat, e: nat, items: seq<Item>) {
    AllRfc(items) && o <= e <= |c| && c[o..e] == [0x22] + Written(items) + [0x22]
  }

  /** The same, byte by byte as the decoder goes over them. */
  ghost predicate Quoted(c: seq<Byte>, o: nat, e: nat, items: seq<Item>) {
    && AllRfc(items)
    && o + 1 < e <= |c| && c[o] == QUOTE && c[e - 1] == QUOTE
    && Body(c, o + 1, e - 1, items)
  }

  predicate High(i: Item) {
    i.Uni? && FourDigits(i.d) && 0xD800 <= NumberOf(i.d) < 0xDC00
  }

  predicate Low(i: Item) {
    i.Uni? && FourDigits(i.d) && 0xDC00 <= NumberOf(i.d) < 0xE000
  }

  /** Every high surrogate is followed by a low one, and every low one follows a high one. */
  predicate Paired(items: seq<Item>) {
    && (forall k :: 0 <= k < |items| && High(items[k]) ==> k + 1 < |items| && Low(items[k + 1]))
    && (forall k :: 0 <= k < |items| && Low(items[k]) ==> k > 0 && High(items[k - 1]))
  }

  predicate PairAhead(items: seq<Item>) {
    |items| > 1 && High(items[0]) && Low(items[1])
  }

  /** The bytes one item stands for; a surrogate on its own gets the three bytes of its number. */
  function One(i: Item): seq<Byte>
    requires Rfc(i)
  {
    match i
    case Plain(b) => [b]
    case Short(b) => [ShortEscapes()[b]]
    case Uni(d) => Encode(NumberOf(d))
  }

  /** The code point of a surrogate pair: ten bits from each. */
  function FromPair(high: Item, low: Item): (c: nat)
    requires High(high) && Low(low)
    ensures c <= 0x10FFFF
  {
    0x10000 + (NumberOf(high.d) - 0xD800) * 0x400 + (NumberOf(low.d) - 0xDC00)
  }

  function Meaning(items: seq<Item>): seq<Byte>
    requires AllRfc(items)
  {
    if items == [] then []
    else if PairAhead(items) then Encode(FromPair(items[0], items[1])) + Meaning(items[2..])
    else One(items[0]) + Meaning(items[1..])
  }

  /** The items are a string from `o` to `e` that means `v`. */
  ghost predicate Spells(c: seq<Byte>, o: nat, e: nat, items: seq<Item>, v: seq<Byte>) {
    RfcString(c, o, e, items) && Meaning(items) == v
  }

  // ---------------------------------------------------------------- written text and bytes at their places

  lemma ItemIsWritten(c: seq<Byte>, p: nat, i: Item)
    requires Rfc(i)
    ensures |Written([i])| == Size(i)
    ensures At(c, p, i) <==> p + Size(i) <= |c| && c[p..p + Size(i)] == Written([i])
  {
    assert [i][1..] == [];
    var t := Written([i]);
    if At(c, p, i) {
      match i
      case Plain(_) =>
      case Short(_) =>
      case Uni(d) => assert c[p..p + 6] == c[p..p + 2] + c[p + 2..p + 6];
    } else if p + |t| <= |c| && c[p..p + |t|] == t {
      assert forall k :: 0 <= k < |t| ==> c[p + k] == c[p..p + |t|][k] == t[k];
      match i
      case Uni(d) =>
        assert c[p] == t[0] && c[p + 1] == t[1];
        assert c[p + 2..p + 6] == t[2..] == d;
      case _ =>
    }
  }

  lemma WrittenStep(items: seq<Item>)
    requires AllRfc(items) && items != []
    ensures AllRfc(items[1..]) && AllRfc([items[0]])
    ensures Written(items) == Written([items[0]]) + Written(items[1..])
  {
    assert [items[0]][1..] == [];
    hide Rfc;
  }

  lemma {:induction false} BodyIsWritten(c: seq<Byte>, p: nat, end: nat, items: seq<Item>)
    requires AllRfc(items) && p <= end <= |c|
    ensures Body(c, p, end, items) <==> c[p..end] == Written(items)
    decreases |items|
  {
    if items != [] {
      WrittenStep(items);
      ItemIsWritten(c, p, items[0]);
      var i, mid := items[0], p + Size(items[0]);
      hide Rfc, At, Size, Written;
      if mid <= end {
        BodyIsWritten(c, mid, end, items[1..]);
        SlicesAgree(c, p, mid, end, Written([i]), Written(items[1..]));
      } else if Body(c, p, end, items) {
        BodyWithin(c, mid, end, items[1..]);
      }
    }
  }

  lemma SlicesAgree(c: seq<Byte>, p: nat, mid: nat, end: nat, a: seq<Byte>, b: seq<Byte>)
    requires p <= mid <= end <= |c| && |a| == mid - p
    ensures c[p..end] == a + b <==> c[p..mid] == a && c[mid..end] == b
  {
    var all := c[p..end];
    assert all == c[p..mid] + c[mid..end];
    if all == a + b {
      assert c[p..mid] == all[..|a|] == a && c[mid..end] == all[|a|..] == b;
    }
  }

  lemma BothEnds(c: seq<Byte>, o: nat, e: nat)
    requires o + 1 < e <= |c|
    ensures c[o..e] == [c[o]] + c[o + 1..e - 1] + [c[e - 1]]
  {
    var whole, parts := c[o..e], [c[o]] + c[o + 1..e - 1] + [c[e - 1]];
    forall k | 0 <= k < |whole| ensures whole[k] == parts[k] {
    }
  }

  lemma RfcStringIsQuoted(c: seq<Byte>, o: nat, e: nat, items: seq<Item>)
    ensures RfcString(c, o, e, items) <==> Quoted(c, o, e, items)
  {
    hide AllRfc, Written, Body;
    if AllRfc(items) {
      if o + 1 < e <= |c| {
        BodyIsWritten(c, o + 1, e - 1, items);
        BothEnds(c, o, e);
        var text := [0x22] + Written(items) + [0x22];
        if c[o..e] == text {
          assert c[o] == text[0] && c[e - 1] == text[|text| - 1];
          assert c[o + 1..e - 1] == c[o..e][1..e - o - 1] == text[1..|text| - 1] == Written(items);
        }
      }
    }
  }

  // ---------------------------------------------------------------- the decoder's items and those of the RFC

  /** The decoder reads short escapes and digits as the RFC does, and knows the same surrogates. */
  lemma RfcIsToken(i: Item)
    requires Rfc(i)
    ensures Token(i) && !i.Pair?
    ensures i.Short? ==> Unescape(i.b) == Some(One(i)[0])
    ensures i.Uni? ==> |i.d| == 4 && AllHex(i.d) && Hex4(i.d) == NumberOf(i.d)
    ensures High(i) <==> i.Uni? && IsHigh(Hex4(i.d))
    ensures Low(i) <==> i.Uni? && IsLow(Hex4(i.d))
  {
    if i.Uni? {
      DigitsAreRead(i.d);
      hide FourDigits, NumberOf, Hex4, AllHex;
    }
  }

  lemma PairIsCombined(high: Item, low: Item)
    requires High(high) && Low(low) && |high.d| == 4 == |low.d|
    ensures Hex4(high.d) == NumberOf(high.d) && Hex4(low.d) == NumberOf(low.d)
    ensures FromPair(high, low) == Combine(Hex4(high.d), Hex4(low.d))
  {
    hide Hex4, NumberOf, FourDigits, Combine, AllHex;
    DigitsAreRead(high.d);
    DigitsAreRead(low.d);
    CombineIs(NumberOf(high.d), NumberOf(low.d));
  }

  lemma CombineIs(high: nat, low: nat)
    requires 0xD800 <= high < 0xDC00 <= low < 0xE000
    ensures Combine(high, low) == 0x10000 + (high - 0xD800) * 0x400 + (low - 0xDC00)
  {
    assert high % 0x400 == high - 0xD800 && low % 0x400 == low - 0xDC00;
  }

  lemma SoundIsUnit(i: Item)
    requires Sound(i) && !i.Pair? && (i.Plain? ==> i.b >= 0x20)
    ensures Rfc(i) && !High(i) && !Low(i)
  {
    if i.Uni? {
      DigitsAreRead(i.d);
      hide FourDigits, NumberOf, Hex4, AllHex;
    }
  }

  lemma SurrogateIsUnit(d: seq<Byte>)
    requires |d| == 4 && (IsHigh(Hex4(d)) || IsLow(Hex4(d)))
    ensures Rfc(Uni(d)) && (High(Uni(d)) <==> IsHigh(Hex4(d))) && (Low(Uni(d)) <==> IsLow(Hex4(d)))
  {
    DigitsAreRead(d);
    assert Hex4(d) != 0;
    hide FourDigits, NumberOf, Hex4;
  }

  // ---------------------------------------------------------------- pairs

  /** Pairs can be told from the front. */
  lemma PairedFromFront(items: seq<Item>)
    requires items != []
    ensures Low(items[0]) ==> !Paired(items)
    ensures High(items[0]) ==> (Paired(items) <==> |items| > 1 && Low(items[1]) && Paired(items[2..]))
    ensures !Low(items[0]) && !High(items[0]) ==> (Paired(items) <==> Paired(items[1..]))
  {
    assert !(High(items[0]) && Low(items[0]));
    hide High, Low;
    if High(items[0]) {
      if |items| > 1 && Low(items[1]) {
        PairInFront(items);
      }
    } else if !Low(items[0]) {
      OtherInFront(items);
    }
  }

  lemma OtherInFront(items: seq<Item>)
    requires items != [] && !Low(items[0]) && !High(items[0])
    ensures Paired(items) <==> Paired(items[1..])
  {
    hide High, Low;
    var rest := items[1..];
    assert forall k :: 0 <= k < |rest| ==> rest[k] == items[k + 1];
    assert forall k :: 1 <= k < |items| ==> items[k] == rest[k - 1];
  }

  lemma PairInFront(items: seq<Item>)
    requires |items| > 1 && High(items[0]) && Low(items[1])
    ensures Paired(items) <==> Paired(items[2..])
  {
    assert !Low(items[0]) && !High(items[1]);
    hide High, Low;
    var rest := items[2..];
    assert forall k :: 0 <= k < |rest| ==> rest[k] == items[k + 2];
    assert forall k :: 2 <= k < |items| ==> items[k] == rest[k - 2];
  }

  /** The items as the decoder reads them, a pair of surrogates as one. */
  function Join(items: seq<Item>): seq<Item>
    requires AllRfc(items)
  {
    if items == [] then []
    else if PairAhead(items) then [JsonStringGrammar.Pair(items[0].d, items[1].d)] + Join(items[2..])
    else [items[0]] + Join(items[1..])
  }

  /** A pair in front stands in the text as one item of the decoder. */
  lemma PairStands(c: seq<Byte>, p: nat, end: nat, items: seq<Item>)
    requires AllRfc(items) && PairAhead(items) && Body(c, p, end, items)
    ensures var pair := JsonStringGrammar.Pair(items[0].d, items[1].d);
            && items[0].Uni? && items[1].Uni? && Sound(pair) && Lenient(pair) && At(c, p, pair)
            && Body(c, p + 12, end, items[2..]) && AllRfc(items[2..])
            && Value(pair) == Encode(FromPair(items[0], items[1]))
  {
    RfcIsToken(items[0]);
    RfcIsToken(items[1]);
    PairIsCombined(items[0], items[1]);
    hide Hex4, High, Low, FromPair, Combine, NumberOf, FourDigits;
    assert items[1..][1..] == items[2..] && items[1..][0] == items[1];
    assert Body(c, p + 6, end, items[1..]);
  }

  lemma OtherStands(c: seq<Byte>, p: nat, end: nat, items: seq<Item>)
    requires AllRfc(items) && items != [] && !High(items[0]) && !Low(items[0]) && Body(c, p, end, items)
    ensures Sound(items[0]) && Lenient(items[0]) && At(c, p, items[0]) && Body(c, p + Size(items[0]), end, items[1..])
    ensures AllRfc(items[1..]) && Value(items[0]) == One(items[0])
  {
    RfcIsToken(items[0]);
    hide Hex4, High, Low, NumberOf, FourDigits, Unescape, ShortEscapes, AllHex, Encode;
  }

  lemma {:induction false} JoinIsSound(c: seq<Byte>, p: nat, end: nat, items: seq<Item>)
    requires AllRfc(items) && Paired(items) && Body(c, p, end, items)
    ensures AllSound(Join(items)) && Body(c, p, end, Join(items)) && ValueOf(Join(items)) == Meaning(items)
    decreases |items|
  {
    hide Paired, AllRfc, Rfc, Sound, At, Value, Encode, Hex4, One, High, Low;
    if items != [] {
      hide AllSound, Body, ValueOf;
      PairedFromFront(items);
      if PairAhead(items) {
        JoinIsSoundAfterPair(c, p, end, items);
      } else {
        OtherStands(c, p, end, items);
        JoinIsSound(c, p + Size(items[0]), end, items[1..]);
        JoinStep(c, p, end, items[0], Join(items[1..]));
      }
    }
  }

  lemma {:induction false} JoinIsSoundAfterPair(c: seq<Byte>, p: nat, end: nat, items: seq<Item>)
    requires AllRfc(items) && PairAhead(items) && Paired(items[2..]) && Body(c, p, end, items)
    ensures AllSound(Join(items)) && Body(c, p, end, Join(items)) && ValueOf(Join(items)) == Meaning(items)
    decreases |items| - 1
  {
    hide Paired, AllRfc, AllSound, Body, ValueOf, Sound, At, Value, Encode, Hex4, One;
    PairStands(c, p, end, items);
    JoinIsSound(c, p + 12, end, items[2..]);
    JoinStep(c, p, end, JsonStringGrammar.Pair(items[0].d, items[1].d), Join(items[2..]));
  }

  lemma JoinStep(c: seq<Byte>, p: nat, end: nat, i: Item, rest: seq<Item>)
    requires Sound(i) && At(c, p, i) && AllSound(rest) && Body(c, p + Size(i), end, rest)
    ensures AllSound([i] + rest) && Body(c, p, end, [i] + rest) && ValueOf([i] + rest) == Value(i) + ValueOf(rest)
  {
    assert ([i] + rest)[1..] == rest;
  }

  // ---------------------------------------------------------------- which strings are decoded

  lemma NothingIsPaired()
    ensures Paired([])
  {
  }

  /** The item is decoded in one turn, and what follows fails. */
  lemma StopsLater(c: seq<Byte>, p: nat, end: nat, i: Item)
    requires Lenient(i) && At(c, p, i) && p + Size(i) <= end < |c| && Decoded(c, p + Size(i), end).None?
    ensures Decoded(c, p, end).None?
  {
    ItemSteps(c, p, end, i);
    hide StepAt, Lenient, At, Value;
  }

  lemma StopsHere(c: seq<Byte>, p: nat, end: nat)
    requires p < end < |c| && StepAt(c, p, end).Stop?
    ensures Decoded(c, p, end).None?
  {
    hide StepAt;
  }

  lemma {:induction false} UnpairedStops(c: seq<Byte>, p: nat, end: nat, items: seq<Item>)
    requires AllRfc(items) && !Paired(items) && Body(c, p, end, items) && end < |c|
    ensures p <= end && Decoded(c, p, end).None?
    decreases |items|
  {
    hide Paired, AllRfc, Rfc, Sound, Lenient, At, Body, Value, Encode, High, Low, StepAt, Decoded, FromPair, One;
    NothingIsPaired();
    PairedFromFront(items);
    if PairAhead(items) {
      PairStands(c, p, end, items);
      BodyWithin(c, p + 12, end, items[2..]);
      UnpairedStops(c, p + 12, end, items[2..]);
      StopsLater(c, p, end, JsonStringGrammar.Pair(items[0].d, items[1].d));
    } else if High(items[0]) || Low(items[0]) {
      LoneStops(c, p, end, items);
      StopsHere(c, p, end);
    } else {
      OtherStands(c, p, end, items);
      BodyWithin(c, p + Size(items[0]), end, items[1..]);
      UnpairedStops(c, p + Size(items[0]), end, items[1..]);
      StopsLater(c, p, end, items[0]);
    }
  }

  /** A surrogate without its partner ends the second pass. */
  lemma LoneStops(c: seq<Byte>, p: nat, end: nat, items: seq<Item>)
    requires AllRfc(items) && items != [] && Body(c, p, end, items) && end < |c|
    requires Low(items[0]) || (High(items[0]) && !PairAhead(items))
    ensures p < end && StepAt(c, p, end).Stop?
  {
    hide Hex4, High, Low, NumberOf, FourDigits, ShortEscapes, AllHex, Encode, Rfc, One;
    RfcIsToken(items[0]);
    BodyWithin(c, p + 6, end, items[1..]);
    if |items| > 1 && High(items[0]) {
      var next := items[1];
      RfcIsToken(next);
      assert Rfc(next) && At(c, p + 6, next);
      BodyWithin(c, p + 6 + Size(next), end, items[1..][1..]);
      assert UnitAt(c, p, items[0].d) && !PairAhead(items) && !Low(next);
      if next.Uni? {
        assert UnitAt(c, p + 6, next.d) && !IsLow(Hex4(next.d));
      } else {
        assert c[p + 6] != BACKSLASH || c[p + 7] != LOWER_U;
      }
      assert Literal(c, p, end).None?;
    } else {
      assert UnitAt(c, p, items[0].d);
      assert High(items[0]) ==> items[1..] == [] && end == p + 6;
      assert Literal(c, p, end).None?;
    }
  }

  lemma {:induction false} TokensScan(c: seq<Byte>, p: nat, end: nat, items: seq<Item>)
    requires AllRfc(items) && Body(c, p, end, items) && end < |c| && c[end] == QUOTE
    ensures p <= end && Scan(c, p) == Some(end)
  {
    forall i <- items ensures Token(i) {
      RfcIsToken(i);
    }
    BodyScans(c, p, end, items);
  }

  lemma PairedIsDecoded(c: seq<Byte>, o: nat, e: nat, items: seq<Item>)
    requires Quoted(c, o, e, items) && Paired(items) && Scan(c, o + 1) == Some(e - 1)
    ensures StringAt(c, o) == Some(Parsed(Meaning(items), e)) && CleanAt(c, o)
  {
    hide AllSound, Body, ValueOf, Paired, AllRfc, Scan, StringAt, CleanAt, Join, Meaning;
    JoinIsSound(c, o + 1, e - 1, items);
    SoundStringIsDecoded(c, o, e, Join(items), Meaning(items));
    SoundStringIsClean(c, o, e - 1, Join(items));
  }

  lemma UnpairedIsRefused(c: seq<Byte>, o: nat, e: nat, items: seq<Item>)
    requires Quoted(c, o, e, items) && !Paired(items) && Scan(c, o + 1) == Some(e - 1)
    ensures StringAt(c, o).None?
  {
    hide AllRfc, Body, Scan, Decoded, Paired;
    UnpairedStops(c, o + 1, e - 1, items);
  }

  /** A string of the RFC is decoded, to its meaning, if and only if its surrogates come in pairs. */
  lemma DecodedIffPaired(c: seq<Byte>, o: nat, e: nat, items: seq<Item>)
    requires RfcString(c, o, e, items)
    ensures o + 1 < e <= |c| && c[o] == QUOTE && Scan(c, o + 1) == Some(e - 1)
    ensures StringAt(c, o).Some? <==> Paired(items)
    ensures Paired(items) ==> StringAt(c, o) == Some(Parsed(Meaning(items), e)) && CleanAt(c, o)
  {
    RfcStringIsQuoted(c, o, e, items);
    hide Body, Paired, AllRfc, Scan, StringAt, CleanAt, Meaning, RfcString;
    TokensScan(c, o + 1, e - 1, items);
    if Paired(items) {
      PairedIsDecoded(c, o, e, items);
    } else {
      UnpairedIsRefused(c, o, e, items);
    }
  }

  // ---------------------------------------------------------------- control characters

  ghost predicate NoControls(c: seq<Byte>, a: nat, b: nat)
    requires b <= |c|
  {
    forall k :: a <= k < b ==> c[k] >= 0x20
  }

  lemma DigitsAreNoControls(c: seq<Byte>, p: nat, d: seq<Byte>)
    requires |d| == 4 && AllHex(d) && UnitAt(c, p, d)
    ensures NoControls(c, p, p + 6)
  {
    assert d[0] == c[p + 2] && d[1] == c[p + 3] && d[2] == c[p + 4] && d[3] == c[p + 5];
  }

  lemma {:induction false} RfcHasNoControls(c: seq<Byte>, p: nat, end: nat, items: seq<Item>)
    requires AllRfc(items) && Body(c, p, end, items) && end <= |c|
    ensures p <= end && NoControls(c, p, end)
    decreases |items|
  {
    if items != [] {
      var i := items[0];
      assert Rfc(i) && At(c, p, i);
      RfcHasNoControls(c, p + Size(i), end, items[1..]);
      if i.Uni? {
        RfcIsToken(i);
        DigitsAreNoControls(c, p, i.d);
      }
    }
  }

  // ---------------------------------------------------------------- what is decoded, unit by unit

  function Units(items: seq<Item>): seq<Item> {
    if items == [] then []
    else
      (match items[0] case Pair(h, l) => [Uni(h), Uni(l)] case i => [i]) + Units(items[1..])
  }

  lemma {:induction false} UnitsAreRfc(c: seq<Byte>, p: nat, end: nat, items: seq<Item>)
    requires AllSound(items) && Body(c, p, end, items) && end <= |c| && NoControls(c, p, end)
    ensures AllRfc(Units(items)) && Paired(Units(items)) && Body(c, p, end, Units(items))
    decreases |items|
  {
    if items != [] {
      var i, rest := items[0], Units(items[1..]);
      assert Sound(i) && At(c, p, i) && AllSound(items[1..]);
      assert i.Plain? ==> i.b == c[p];
      hide AllSound, AllRfc, Paired, Sound, At;
      BodyWithin(c, p + Size(i), end, items[1..]);
      UnitsAreRfc(c, p + Size(i), end, items[1..]);
      match i
      case Pair(h, l) => UnitsOfPair(c, p, end, h, l, rest);
      case _ => UnitsOfOther(c, p, end, i, rest);
    }
  }

  lemma OneMore(c: seq<Byte>, p: nat, end: nat, i: Item, rest: seq<Item>)
    requires Rfc(i) && At(c, p, i) && AllRfc(rest) && Body(c, p + Size(i), end, rest)
    ensures AllRfc([i] + rest) && Body(c, p, end, [i] + rest)
  {
    hide Rfc, At, Size;
    assert ([i] + rest)[1..] == rest;
  }

  lemma UnitsOfPair(c: seq<Byte>, p: nat, end: nat, h: seq<Byte>, l: seq<Byte>, rest: seq<Item>)
    requires Sound(JsonStringGrammar.Pair(h, l)) && UnitAt(c, p, h) && UnitAt(c, p + 6, l)
    requires AllRfc(rest) && Paired(rest) && Body(c, p + 12, end, rest)
    ensures var all := [Uni(h), Uni(l)] + rest; AllRfc(all) && Paired(all) && Body(c, p, end, all)
  {
    hide Paired, AllRfc, Rfc, High, Low, Hex4, Body, UnitAt;
    SurrogateIsUnit(h);
    SurrogateIsUnit(l);
    OneMore(c, p + 6, end, Uni(l), rest);
    OneMore(c, p, end, Uni(h), [Uni(l)] + rest);
    var all := [Uni(h), Uni(l)] + rest;
    assert all == [Uni(h)] + ([Uni(l)] + rest) && all[2..] == rest;
    PairedFromFront(all);
  }

  lemma UnitsOfOther(c: seq<Byte>, p: nat, end: nat, i: Item, rest: seq<Item>)
    requires Sound(i) && !i.Pair? && (i.Plain? ==> i.b >= 0x20) && At(c, p, i)
    requires AllRfc(rest) && Paired(rest) && Body(c, p + Size(i), end, rest)
    ensures AllRfc([i] + rest) && Paired([i] + rest) && Body(c, p, end, [i] + rest)
  {
    hide Paired, AllRfc, Rfc, High, Low, Sound, Body, At, Size;
    SoundIsUnit(i);
    OneMore(c, p, end, i, rest);
    assert ([i] + rest)[1..] == rest;
    PairedFromFront([i] + rest);
  }

  /**
    What the decoder reads with four digits in every escape and without control characters are exactly the strings
    of section 7 whose surrogates come in pairs.
  */
  lemma StringIffRfc(c: seq<Byte>, o: nat, v: seq<Byte>, e: nat)
    requires o < |c|
    ensures (StringAt(c, o) == Some(Parsed(v, e)) && CleanAt(c, o) && NoControls(c, o, e)) <==>
            exists items :: Spells(c, o, e, items, v) && Paired(items)
  {
    hide StringAt, CleanAt, Paired, Meaning, AllRfc, Body, NoControls;
    if StringAt(c, o) == Some(Parsed(v, e)) && CleanAt(c, o) && NoControls(c, o, e) {
      var items := DecodedIsRfc(c, o);
      DecodedIffPaired(c, o, e, items);
      assert Spells(c, o, e, items, v);
    }
    if items :| Spells(c, o, e, items, v) && Paired(items) {
      DecodedIffPaired(c, o, e, items);
      StringHasNoControls(c, o, e, items);
    }
  }

  lemma DecodedIsRfc(c: seq<Byte>, o: nat) returns (items: seq<Item>)
    requires o < |c| && StringAt(c, o).Some? && CleanAt(c, o) && NoControls(c, o, StringAt(c, o).value.end)
    ensures RfcString(c, o, StringAt(c, o).value.end, items) && Paired(items)
  {
    hide CleanAt, Paired, Items, SoundString, Quoted, RfcString, NoControls, Scan, Decoded;
    var r := StringAt(c, o).value;
    DecodedIsSoundString(c, o);
    items := Units(Items(c, o + 1, r.end - 1));
    SoundIsRfc(c, o, r.end, Items(c, o + 1, r.end - 1), r.value);
    RfcStringIsQuoted(c, o, r.end, items);
  }

  lemma SoundIsRfc(c: seq<Byte>, o: nat, e: nat, sound: seq<Item>, v: seq<Byte>)
    requires SoundString(c, o, e, sound, v) && e <= |c| && NoControls(c, o, e)
    ensures Quoted(c, o, e, Units(sound)) && Paired(Units(sound))
  {
    hide Paired, AllSound, AllRfc, Body, Units, ValueOf;
    UnitsAreRfc(c, o + 1, e - 1, sound);
  }

  lemma StringHasNoControls(c: seq<Byte>, o: nat, e: nat, items: seq<Item>)
    requires RfcString(c, o, e, items)
    ensures o < e <= |c| && NoControls(c, o, e)
  {
    RfcStringIsQuoted(c, o, e, items);
    RfcHasNoControls(c, o + 1, e - 1, items);
  }

  // ---------------------------------------------------------------- a string of the RFC that is refused

  const DEAD: seq<Byte> := [0x44, 0x45, 0x41, 0x44]

  /** `"\uDEAD"`, the example of section 8.2. */
  const DeadText: seq<Byte> := [QUOTE, BACKSLASH, LOWER_U] + DEAD + [QUOTE]

  lemma LoneSurrogateIsRefused()
    ensures RfcString(DeadText, 0, 8, [Uni(DEAD)]) && !Paired([Uni(DEAD)])
    ensures StringAt(DeadText, 0).None?
  {
    var items := [Uni(DEAD)];
    assert DeadText[3..7] == DEAD && UnitAt(DeadText, 1, DEAD) && items[1..] == [];
    assert AllHex(DEAD) && Low(items[0]);
    assert DeadText[0..8] == DeadText && Written(items) == [0x5C, 0x75] + DEAD;
    assert RfcString(DeadText, 0, 8, items);
    DecodedIffPaired(DeadText, 0, 8, items);
  }
}
