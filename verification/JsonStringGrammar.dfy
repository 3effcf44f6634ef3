/**
  What the string decoder accepts and what it yields, as a grammar of items: the lenient items that it lets
  through, and the sound ones among them, on which its two passes agree.
*/
module JsonStringGrammar {
  import opened Common
  import opened Utf8
  import opened JsonString

  /** One character of a string body as it is written. */
  datatype Item =
    | Plain(b: Byte)                            // b
    | Short(b: Byte)                            // \b
    | Uni(d: seq<Byte>)                         // \uXXXX
    | Pair(high: seq<Byte>, low: seq<Byte>)     // \uXXXX\uXXXX

  function Size(i: Item): nat {
    match i
    case Plain(_) => 1
    case Short(_) => 2
    case Uni(_) => 6
    case Pair(_, _) => 12
  }

  /** The text of the item stands in `c` at `p`. */
  predicate At(c: seq<Byte>, p: nat, i: Item) {
    match i
    case Plain(b) => p < |c| && c[p] == b
    case Short(b) => p + 1 < |c| && c[p] == BACKSLASH && c[p + 1] == b
    case Uni(d) => UnitAt(c, p, d)
    case Pair(h, l) => UnitAt(c, p, h) && UnitAt(c, p + 6, l)
  }

  predicate UnitAt(c: seq<Byte>, p: nat, d: seq<Byte>) {
    p + 6 <= |c| && c[p] == BACKSLASH && c[p + 1] == LOWER_U && c[p + 2..p + 6] == d
  }

  /** What the decoder lets through: any byte but a backslash, and any four bytes after `\u`. */
  predicate Lenient(i: Item) {
    match i
    case Plain(b) => b != BACKSLASH
    case Short(b) => Unescape(b).Some?
    case Uni(d) => |d| == 4 && !IsHigh(Hex4(d)) && !IsLow(Hex4(d))
    case Pair(h, l) => |h| == 4 == |l| && IsHigh(Hex4(h)) && IsLow(Hex4(l))
  }

  /** A lenient item without a bare quotation mark, and with hexadecimal digits after `\u`. */
  predicate Sound(i: Item) {
    Lenient(i) && (i.Plain? ==> i.b != QUOTE) && (i.Uni? ==> AllHex(i.d))
  }

  /** What the first pass reads as it is written, whatever the digits stand for. */
  predicate Token(i: Item) {
    match i
    case Plain(b) => b != BACKSLASH && b != QUOTE
    case Short(b) => Unescape(b).Some?
    case Uni(d) => |d| == 4 && AllHex(d)
    case Pair(h, l) => |h| == 4 == |l| && AllHex(h) && AllHex(l)
  }

  function Value(i: Item): seq<Byte>
    requires Lenient(i)
  {
    match i
    case Plain(b) => [b]
    case Short(b) => [Unescape(b).value]
    case Uni(d) => Encode(Hex4(d))
    case Pair(h, l) => Encode(Combine(Hex4(h), Hex4(l)))
  }

  /** The items, one after the other, are the text of `c` from `p` to `end`. */
  predicate Body(c: seq<Byte>, p: nat, end: nat, items: seq<Item>)
    decreases |items|
  {
    if items == [] then p == end
    else At(c, p, items[0]) && Body(c, p + Size(items[0]), end, items[1..])
  }

  predicate AllLenient(items: seq<Item>) {
    forall k :: 0 <= k < |items| ==> Lenient(items[k])
  }

  predicate AllSound(items: seq<Item>) {
    forall k :: 0 <= k < |items| ==> Sound(items[k])
  }

  function ValueOf(items: seq<Item>): seq<Byte>
    requires AllLenient(items)
  {
    if items == [] then [] else Value(items[0]) + ValueOf(items[1..])
  }

  // ---------------------------------------------------------------- one item

  lemma UnitScans(c: seq<Byte>, p: nat, d: seq<Byte>)
    requires |d| == 4 && AllHex(d) && UnitAt(c, p, d)
    ensures Scan(c, p) == Scan(c, p + 6)
  {
    HexIsPlain(c, p + 2);
    assert Scan(c, p) == Scan(c, p + 2) == Scan(c, p + 3) == Scan(c, p + 4) == Scan(c, p + 5) == Scan(c, p + 6);
  }

  /** The first pass goes over a token from end to end. */
  lemma ItemScans(c: seq<Byte>, p: nat, i: Item)
    requires Token(i) && At(c, p, i)
    ensures p + Size(i) <= |c| && Scan(c, p) == Scan(c, p + Size(i))
  {
    match i
    case Plain(b) =>
    case Short(b) =>
    case Uni(d) =>
      UnitScans(c, p, d);
    case Pair(h, l) =>
      UnitScans(c, p, h);
      UnitScans(c, p + 6, l);
  }

  /** The second pass decodes a lenient item in one turn. */
  lemma ItemSteps(c: seq<Byte>, p: nat, end: nat, i: Item)
    requires Lenient(i) && At(c, p, i) && p + Size(i) <= end < |c|
    ensures StepAt(c, p, end) == Go(p + Size(i), Value(i))
  {
  }

  /** The item the second pass reads at `p`. */
  function ItemAt(c: seq<Byte>, p: nat, end: nat): (i: Item)
    requires p < end < |c| && StepAt(c, p, end).Go?
  {
    if c[p] != BACKSLASH then Plain(c[p])
    else if c[p + 1] != LOWER_U then Short(c[p + 1])
    else if Literal(c, p, end).value.length == 6 then Uni(c[p + 2..p + 6])
    else Pair(c[p + 2..p + 6], c[p + 8..p + 12])
  }

  lemma ItemStands(c: seq<Byte>, p: nat, end: nat)
    requires p < end < |c| && StepAt(c, p, end).Go?
    ensures var i := ItemAt(c, p, end); Lenient(i) && At(c, p, i) && StepAt(c, p, end) == Go(p + Size(i), Value(i))
  {
  }

  /** A sound item is read back as itself. */
  lemma ItemRead(c: seq<Byte>, p: nat, end: nat, i: Item)
    requires Sound(i) && At(c, p, i) && p + Size(i) <= end < |c|
    ensures StepAt(c, p, end).Go? && ItemAt(c, p, end) == i
  {
    ItemSteps(c, p, end, i);
  }

  // ---------------------------------------------------------------- every sound string is decoded

  lemma {:induction false} BodyWithin(c: seq<Byte>, p: nat, end: nat, items: seq<Item>)
    requires Body(c, p, end, items)
    ensures p <= end
    decreases |items|
  {
    if items != [] {
      BodyWithin(c, p + Size(items[0]), end, items[1..]);
    }
  }

  lemma {:induction false} BodyScans(c: seq<Byte>, p: nat, end: nat, items: seq<Item>)
    requires (forall i <- items :: Token(i)) && Body(c, p, end, items) && end < |c| && c[end] == QUOTE
    ensures p <= end && Scan(c, p) == Some(end)
    decreases |items|
  {
    if items != [] {
      var i, rest := items[0], items[1..];
      BodyScans(c, p + Size(i), end, rest);
      ItemScans(c, p, i);
    }
  }

  lemma {:induction false} BodyDecodes(c: seq<Byte>, p: nat, end: nat, items: seq<Item>)
    requires AllLenient(items) && Body(c, p, end, items) && end < |c|
    ensures p <= end && Decoded(c, p, end) == Some(ValueOf(items))
    decreases |items|
  {
    BodyWithin(c, p, end, items);
    if items != [] {
      BodyWithin(c, p + Size(items[0]), end, items[1..]);
      ItemSteps(c, p, end, items[0]);
      BodyDecodes(c, p + Size(items[0]), end, items[1..]);
    }
  }

  /** The items, between quotes, are the text from `o` to `e`, and stand for `v`. */
  ghost predicate SoundString(c: seq<Byte>, o: nat, e: nat, items: seq<Item>, v: seq<Byte>) {
    && AllSound(items)
    && ValueOf(items) == v
    && o < |c| && c[o] == QUOTE
    && o + 1 < e <= |c| && c[e - 1] == QUOTE
    && Body(c, o + 1, e - 1, items)
  }

  lemma SoundStringIsDecoded(c: seq<Byte>, o: nat, e: nat, items: seq<Item>, v: seq<Byte>)
    requires SoundString(c, o, e, items, v)
    ensures StringAt(c, o) == Some(Parsed(v, e))
  {
    hide Body, AllSound, ValueOf, Scan, Decoded;
    BodyIsDecoded(c, o + 1, e - 1, items);
  }

  lemma BodyIsDecoded(c: seq<Byte>, p: nat, end: nat, items: seq<Item>)
    requires AllSound(items) && Body(c, p, end, items) && end < |c| && c[end] == QUOTE
    ensures p <= end && Scan(c, p) == Some(end) && AllLenient(items) && Decoded(c, p, end) == Some(ValueOf(items))
  {
    assert AllLenient(items);
    BodyScans(c, p, end, items);
    BodyDecodes(c, p, end, items);
  }

  // ---------------------------------------------------------------- everything decoded is a lenient string

  function Items(c: seq<Byte>, p: nat, end: nat): seq<Item>
    requires p <= end + 1 && end < |c| && Decoded(c, p, end).Some?
    decreases end + 1 - p
  {
    if p >= end then [] else [ItemAt(c, p, end)] + Items(c, StepAt(c, p, end).next, end)
  }

  /** Where the second pass stops: at the closing quote, or behind it when an escape straddles it. */
  function Halt(c: seq<Byte>, p: nat, end: nat): (e: nat)
    requires p <= end + 1 && end < |c| && Decoded(c, p, end).Some?
    ensures e == end || e == end + 1
    decreases end + 1 - p
  {
    if p >= end then p else Halt(c, StepAt(c, p, end).next, end)
  }

  /** The items read are lenient, stand for the decoded bytes and are the text the pass went over. */
  lemma {:induction false} ItemsAreTheBody(c: seq<Byte>, p: nat, end: nat)
    requires p <= end + 1 && end < |c| && Decoded(c, p, end).Some?
    ensures var items := Items(c, p, end);
            && AllLenient(items)
            && ValueOf(items) == Decoded(c, p, end).value
            && Body(c, p, Halt(c, p, end), items)
    decreases end + 1 - p
  {
    if p < end {
      ItemStands(c, p, end);
      var next := StepAt(c, p, end).next;
      ItemsAreTheBody(c, next, end);
      var items, rest := Items(c, p, end), Items(c, next, end);
      assert items[0] == ItemAt(c, p, end) && items[1..] == rest;
    }
  }

  /** Every `\u` among the items has four hexadecimal digits. */
  predicate CleanHex(items: seq<Item>) {
    forall k :: 0 <= k < |items| && items[k].Uni? ==> AllHex(items[k].d)
  }

  /** With proper hexadecimal digits the two passes agree on every token. */
  lemma {:induction false} CleanItemsAreSound(c: seq<Byte>, p: nat, end: nat)
    requires end < |c| && Boundary(c, p, end) && Decoded(c, p, end).Some? && CleanHex(Items(c, p, end))
    ensures AllSound(Items(c, p, end)) && Halt(c, p, end) == end
    decreases end + 1 - p
  {
    if p < end {
      var i := ItemAt(c, p, end);
      var next := StepAt(c, p, end).next;
      var items, rest := Items(c, p, end), Items(c, next, end);
      assert items[0] == i && items[1..] == rest;
      ItemStands(c, p, end);
      ItemScans(c, p, i);
      CleanItemsAreSound(c, next, end);
    }
  }

  /** Every `\u` the decoder meets in the string at `o` has four hexadecimal digits. */
  ghost predicate CleanAt(c: seq<Byte>, o: nat)
    requires o < |c| && StringAt(c, o).Some?
  {
    CleanHex(Items(c, o + 1, Scan(c, o + 1).value))
  }

  lemma DecodedIsSoundString(c: seq<Byte>, o: nat)
    requires o < |c| && StringAt(c, o).Some? && CleanAt(c, o)
    ensures var r := StringAt(c, o).value;
            SoundString(c, o, r.end, Items(c, o + 1, r.end - 1), r.value)
  {
    hide Body, AllSound, ValueOf, Scan, Decoded, Items, Halt, CleanHex;
    var end := Scan(c, o + 1).value;
    CleanItemsAreSound(c, o + 1, end);
    ItemsAreTheBody(c, o + 1, end);
  }

  lemma {:induction false} SoundIsRead(c: seq<Byte>, p: nat, end: nat, items: seq<Item>)
    requires AllSound(items) && Body(c, p, end, items) && end < |c|
    ensures p <= end && Decoded(c, p, end).Some? && Items(c, p, end) == items
    decreases |items|
  {
    BodyWithin(c, p, end, items);
    if items != [] {
      var i, rest := items[0], items[1..];
      BodyWithin(c, p + Size(i), end, rest);
      assert ItemAt(c, p, end) == i && StepAt(c, p, end).Go? && StepAt(c, p, end).next == p + Size(i) by {
        ItemRead(c, p, end, i);
        ItemSteps(c, p, end, i);
      }
      assert AllSound(rest);
      SoundIsRead(c, p + Size(i), end, rest);
      assert Items(c, p, end) == [i] + rest == items;
    }
  }

  lemma SoundStringIsClean(c: seq<Byte>, o: nat, end: nat, items: seq<Item>)
    requires AllSound(items) && o < end < |c| && Body(c, o + 1, end, items)
    requires StringAt(c, o).Some? && Scan(c, o + 1) == Some(end)
    ensures CleanAt(c, o)
  {
    SoundIsRead(c, o + 1, end, items);
    assert CleanHex(items);
  }

  /** The decoder, on properly written escapes, reads exactly the sound strings. */
  lemma StringIffSound(c: seq<Byte>, o: nat, v: seq<Byte>, e: nat)
    requires o < |c|
    ensures (StringAt(c, o) == Some(Parsed(v, e)) && CleanAt(c, o)) <==> exists items :: SoundString(c, o, e, items, v)
  {
    if StringAt(c, o) == Some(Parsed(v, e)) && CleanAt(c, o) {
      DecodedIsSoundString(c, o);
    }
    if items :| SoundString(c, o, e, items, v) {
      SoundStringIsDecoded(c, o, e, items, v);
      SoundStringIsClean(c, o, e - 1, items);
    }
  }

  // ---------------------------------------------------------------- escapes carry any text

  /** The item writes a scalar value with `\u`, in digits of either case: one escape, or a surrogate pair. */
  predicate Escapes(i: Item, u: nat) {
    match i
    case Uni(d) => |d| == 4 && AllHex(d) && Hex4(d) == u
    case Pair(h, l) => |h| == 4 == |l| && 0x10000 <= u <= 0x10FFFF && Hex4(h) == HighOf(u) && Hex4(l) == LowOf(u)
    case _ => false
  }

  lemma EscapeIsSound(i: Item, u: nat)
    requires IsScalar(u) && Escapes(i, u)
    ensures Sound(i) && Value(i) == Encode(u)
  {
    if i.Pair? {
      CombineInverts(u);
    }
  }

  /** Every scalar value can be written so. */
  lemma EscapeExists(u: nat) returns (i: Item)
    requires IsScalar(u)
    ensures Escapes(i, u)
  {
    if u <= 0xFFFF {
      DigitsRead(u);
      i := Uni(Digits(u));
    } else {
      DigitsRead(HighOf(u));
      DigitsRead(LowOf(u));
      i := Pair(Digits(HighOf(u)), Digits(LowOf(u)));
    }
  }

  predicate AllScalar(us: seq<nat>) {
    forall k :: 0 <= k < |us| ==> IsScalar(us[k])
  }

  predicate EscapesAll(items: seq<Item>, us: seq<nat>) {
    |items| == |us| && forall k :: 0 <= k < |us| ==> Escapes(items[k], us[k])
  }

  function EncodeAll(us: seq<nat>): seq<Byte>
    requires AllScalar(us)
  {
    if us == [] then [] else assert IsScalar(us[0]); Encode(us[0]) + EncodeAll(us[1..])
  }

  lemma {:induction false} EscapesEncode(items: seq<Item>, us: seq<nat>)
    requires AllScalar(us) && EscapesAll(items, us)
    ensures AllSound(items) && ValueOf(items) == EncodeAll(us)
    decreases |us|
  {
    if us != [] {
      EscapeIsSound(items[0], us[0]);
      EscapesEncode(items[1..], us[1..]);
      forall k | 0 <= k < |items| ensures Sound(items[k]) {
        assert k > 0 ==> items[k] == items[1..][k - 1];
      }
    }
  }

  /** Any sequence of Unicode scalar values written as escapes decodes to its UTF-8 encoding. */
  lemma EscapedTextIsUtf8(c: seq<Byte>, o: nat, e: nat, items: seq<Item>, us: seq<nat>)
    requires AllScalar(us) && EscapesAll(items, us)
    requires o < |c| && c[o] == QUOTE && o + 1 < e <= |c| && c[e - 1] == QUOTE && Body(c, o + 1, e - 1, items)
    ensures StringAt(c, o) == Some(Parsed(EncodeAll(us), e))
  {
    EscapesEncode(items, us);
    SoundStringIsDecoded(c, o, e, items, EncodeAll(us));
  }

  // ---------------------------------------------------------------- where the second pass goes too far

  /** A turn of the second pass from `p` starts at `q`. */
  ghost predicate TurnAt(c: seq<Byte>, p: nat, end: nat, q: nat)
    requires p <= end + 1 && end < |c|
    decreases end + 1 - p
  {
    p < end && (p == q || (StepAt(c, p, end).Go? && TurnAt(c, StepAt(c, p, end).next, end, q)))
  }

  /** The second pass reads the closing quote if and only if a turn starts right before it on a backslash. */
  lemma {:induction false} ReadsClosingQuoteIff(c: seq<Byte>, p: nat, end: nat)
    requires p <= end < |c| && Decoded(c, p, end).Some?
    ensures Halt(c, p, end) == end + 1 <==> end > 0 && c[end - 1] == BACKSLASH && TurnAt(c, p, end, end - 1)
    decreases end - p
  {
    if p < end {
      var next := StepAt(c, p, end).next;
      if next <= end {
        ReadsClosingQuoteIff(c, next, end);
      }
    }
  }

  /** `"\u123\\"`: the bad digits swallow half of an escape, and the closing quote is read twice. */
  const Swallow: seq<Byte> :=
    [QUOTE, BACKSLASH, LOWER_U, 0x31, 0x32, 0x33, BACKSLASH, BACKSLASH, QUOTE]

  lemma BadHexReadsClosingQuote()
    ensures StringAt(Swallow, 0) == Some(Parsed([0, QUOTE], 9))
    ensures !CleanAt(Swallow, 0) && Halt(Swallow, 1, 8) == 9
  {
    var c := Swallow;
    assert Scan(c, 8) == Some(8) && Scan(c, 6) == Some(8);
    assert Scan(c, 5) == Scan(c, 4) == Scan(c, 3) == Some(8);
    assert Scan(c, 1) == Some(8);
    assert !AllHex(c[3..7]) by {
      assert c[3..7][3] == BACKSLASH;
    }
    assert StepAt(c, 1, 8) == Go(7, [0]);
    assert StepAt(c, 7, 8) == Go(9, [QUOTE]);
    assert Decoded(c, 9, 8) == Some([]);
    assert [QUOTE] + [] == [QUOTE] && [0] + [QUOTE] == [0, QUOTE];
    assert Decoded(c, 7, 8) == Some([QUOTE]);
    assert Decoded(c, 1, 8) == Some([0, QUOTE]);
    assert Halt(c, 7, 8) == Halt(c, 9, 8) == 9;
    assert Items(c, 1, 8)[0] == Uni(c[3..7]);
  }
}
