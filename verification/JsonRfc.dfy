/**
  The grammar of RFC 8259, sections 2 to 7, on its own: four bytes are white space, strings are those of section
  7, surrogates without a partner included, and numbers are those of section 6, of at most 63 bytes.  Bytes above
  0x7F are taken as they are: whether they are UTF-8 is not asked.
*/
module JsonRfc {
  import opened Common
  import opened Utf8
  import opened JsonString
  import opened JsonStringGrammar
  import opened JsonUnits
  import opened JsonGrammar
  import opened JsonTheory

  const NUMBER_LIMIT: nat := 63

  // ---------------------------------------------------------------- numbers

  ghost predicate DigitsIn(t: seq<Byte>, i: nat, j: nat) {
    i < j <= |t| && forall k :: i <= k < j ==> 0x30 <= t[k] <= 0x39
  }

  /** `int`, from `i` to `j`: digits without a leading zero. */
  ghost predicate IntIn(t: seq<Byte>, i: nat, j: nat) {
    DigitsIn(t, i, j) && (t[i] == 0x30 ==> j == i + 1)
  }

  /** `[ frac ]`, from `j` to `k`. */
  ghost predicate FracIn(t: seq<Byte>, j: nat, k: nat) {
    j == k || (j < |t| && t[j] == 0x2E && DigitsIn(t, j + 1, k))
  }

  /** `[ exp ]`, from `k` to the end, with its digits from `d` on. */
  ghost predicate ExpIn(t: seq<Byte>, k: nat, d: nat) {
    k == |t| || (
      && k + 1 < |t| && (t[k] == 0x45 || t[k] == 0x65) && DigitsIn(t, d, |t|)
      && (d == k + 1 || (d == k + 2 && (t[k + 1] == 0x2B || t[k + 1] == 0x2D))))
  }

  /** `number = [ minus ] int [ frac ] [ exp ]`. */
  ghost predicate NumberParts(t: seq<Byte>, i: nat, j: nat, k: nat, d: nat) {
    && (i == 0 || (i == 1 && |t| > 0 && t[0] == 0x2D))
    && IntIn(t, i, j) && FracIn(t, j, k) && ExpIn(t, k, d)
  }

  ghost predicate RfcNumber(t: seq<Byte>) {
    exists i: nat, j: nat, k: nat, d: nat :: NumberParts(t, i, j, k, d)
  }

  lemma {:induction false} DigitRunIs(t: seq<Byte>, i: nat, j: nat)
    requires i <= j <= |t| && (forall k :: i <= k < j ==> IsDigit(t[k])) && (j < |t| ==> !IsDigit(t[j]))
    ensures DigitRun(t, i) == j - i
    decreases j - i
  {
    if i < j {
      DigitRunIs(t, i + 1, j);
    }
  }

  /** `strtod` converts such a number as a whole. */
  lemma RfcNumberIsWhole(t: seq<Byte>)
    requires RfcNumber(t)
    ensures StrtodLength(t) == |t| > 0 && (t[0] == MINUS || IsDigit(t[0]))
    ensures forall k :: 0 <= k < |t| ==> NumberChar(t[k])
  {
    var i: nat, j: nat, k: nat, d: nat :| NumberParts(t, i, j, k, d);
    PartsMantissa(t, i, j, k, d);
    PartsExponent(t, i, j, k, d);
    hide MantissaEnd, ExponentEnd;
  }

  lemma PartsMantissa(t: seq<Byte>, i: nat, j: nat, k: nat, d: nat)
    requires NumberParts(t, i, j, k, d)
    ensures MantissaEnd(t) == k > 0
  {
    DigitRunIs(t, i, j);
    if j < k {
      DigitRunIs(t, j + 1, k);
    }
  }

  lemma PartsExponent(t: seq<Byte>, i: nat, j: nat, k: nat, d: nat)
    requires NumberParts(t, i, j, k, d)
    ensures k <= |t| && ExponentEnd(t, k) == |t|
  {
    if k < |t| {
      DigitRunIs(t, d, |t|);
    }
  }

  /** No number goes on at the position. */
  ghost predicate NumberStops(c: seq<Byte>, e: nat) {
    e < |c| ==> !(0x30 <= c[e] <= 0x39) && c[e] !in [0x2B, 0x2D, 0x2E, 0x45, 0x65]
  }

  // ---------------------------------------------------------------- the grammar

  /** `ws`: space, tab, line feed and carriage return. */
  predicate IsWs(b: Byte) {
    b == 0x20 || b == 0x09 || b == 0x0A || b == 0x0D
  }

  ghost predicate Ws(c: seq<Byte>, a: nat, b: nat) {
    a <= b <= |c| && forall i :: a <= i < b ==> IsWs(c[i])
  }

  ghost predicate WsCloses(c: seq<Byte>, q: nat, e: nat, bracket: Byte) {
    e > 0 && Ws(c, q, e - 1) && Is(c, e - 1, bracket)
  }

  /** A string of section 7 that means `s`. */
  ghost predicate StrictString(c: seq<Byte>, o: nat, e: nat, s: seq<Byte>) {
    exists items :: Spells(c, o, e, items, s)
  }

  ghost predicate RfcVal(c: seq<Byte>, o: nat, e: nat, v: Json)
    decreases v, 1
  {
    match v
    case Null => e == o + 4 && Reads(c, o, [0x6E, 0x75, 0x6C, 0x6C])
    case False => e == o + 5 && Reads(c, o, [0x66, 0x61, 0x6C, 0x73, 0x65])
    case True => e == o + 4 && Reads(c, o, [0x74, 0x72, 0x75, 0x65])
    case Number(t) => e == o + |t| && Reads(c, o, t) && RfcNumber(t) && |t| <= NUMBER_LIMIT && NumberStops(c, e)
    case String(s) => StrictString(c, o, e, s)
    case Array(items) =>
      && Is(c, o, 0x5B)
      && if items == [] then WsCloses(c, o + 1, e, 0x5D) else RfcElements(c, o + 1, e, items)
    case Object(members) =>
      && Is(c, o, 0x7B)
      && if members == [] then WsCloses(c, o + 1, e, 0x7D) else RfcMembers(c, o + 1, e, members)
  }

  ghost predicate RfcElements(c: seq<Byte>, q: nat, e: nat, items: seq<Json>)
    requires items != []
    decreases items, 0
  {
    exists p: nat, r: nat, s: nat :: RfcElement(c, q, p, r, s, items[0]) &&
      if |items| == 1 then Is(c, s, 0x5D) && e == s + 1
      else Is(c, s, 0x2C) && RfcElements(c, s + 1, e, items[1..])
  }

  ghost predicate RfcElement(c: seq<Byte>, q: nat, p: nat, r: nat, s: nat, v: Json)
    decreases v, 2
  {
    Ws(c, q, p) && RfcVal(c, p, r, v) && Ws(c, r, s)
  }

  ghost predicate RfcMembers(c: seq<Byte>, q: nat, e: nat, members: seq<Member>)
    requires members != []
    decreases members, 0
  {
    exists n: nat, m: nat, k: nat, p: nat, r: nat, s: nat :: RfcPair(c, q, n, m, k, p, r, s, members[0]) &&
      if |members| == 1 then Is(c, s, 0x7D) && e == s + 1
      else Is(c, s, 0x2C) && RfcMembers(c, s + 1, e, members[1..])
  }

  /** A name from `n` to `m`, a colon right before `k`, and a value from `p` to `r`, with white space between. */
  ghost predicate RfcPair(c: seq<Byte>, q: nat, n: nat, m: nat, k: nat, p: nat, r: nat, s: nat, x: Member)
    decreases x, 3
  {
    && Ws(c, q, n) && StrictString(c, n, m, x.name) && WsCloses(c, m, k, 0x3A)
    && RfcElement(c, k, p, r, s, x.value)
  }

  lemma SplitRfcElements(c: seq<Byte>, q: nat, e: nat, items: seq<Json>) returns (p: nat, r: nat, s: nat)
    requires items != [] && RfcElements(c, q, e, items)
    ensures RfcElement(c, q, p, r, s, items[0])
    ensures if |items| == 1 then Is(c, s, CLOSE_BRACKET) && e == s + 1
            else Is(c, s, COMMA) && RfcElements(c, s + 1, e, items[1..])
  {
    hide RfcElement;
    p, r, s :| RfcElement(c, q, p, r, s, items[0]) &&
      if |items| == 1 then Is(c, s, CLOSE_BRACKET) && e == s + 1
      else Is(c, s, COMMA) && RfcElements(c, s + 1, e, items[1..]);
  }

  lemma SplitRfcMembers(c: seq<Byte>, q: nat, e: nat, members: seq<Member>)
    returns (n: nat, m: nat, k: nat, p: nat, r: nat, s: nat)
    requires members != [] && RfcMembers(c, q, e, members)
    ensures RfcPair(c, q, n, m, k, p, r, s, members[0])
    ensures if |members| == 1 then Is(c, s, CLOSE_BRACE) && e == s + 1
            else Is(c, s, COMMA) && RfcMembers(c, s + 1, e, members[1..])
  {
    hide RfcPair;
    n, m, k, p, r, s :| RfcPair(c, q, n, m, k, p, r, s, members[0]) &&
      if |members| == 1 then Is(c, s, CLOSE_BRACE) && e == s + 1
      else Is(c, s, COMMA) && RfcMembers(c, s + 1, e, members[1..]);
  }

  // ---------------------------------------------------------------- numbers and strings that the RFC knows

  ghost predicate RfcNumbers(v: Json)
    decreases v, 1
  {
    match v
    case Number(t) => RfcNumber(t)
    case Array(items) => RfcNumbersOf(items)
    case Object(members) => RfcNumbersOfMembers(members)
    case _ => true
  }

  ghost predicate RfcNumbersOf(items: seq<Json>)
    decreases items, 0
  {
    items == [] || (RfcNumbers(items[0]) && RfcNumbersOf(items[1..]))
  }

  ghost predicate RfcNumbersOfMembers(members: seq<Member>)
    decreases members, 0
  {
    members == [] || (RfcNumbers(members[0].value) && RfcNumbersOfMembers(members[1..]))
  }

  // ---------------------------------------------------------------- scanning a text, string by string

  /** Behind the string at `p`, or behind the byte if there is none. */
  function Jump(c: seq<Byte>, p: nat): (q: nat)
    requires p < |c|
    ensures p < q <= |c|
  {
    if c[p] == QUOTE && Scan(c, p + 1).Some? then Scan(c, p + 1).value + 1 else p + 1
  }

  /** The scan from `p` comes to `e`. */
  ghost predicate Reaches(c: seq<Byte>, p: nat, e: nat)
    decreases e - p
  {
    p == e || (p < e <= |c| && Reaches(c, Jump(c, p), e))
  }

  /** The string at `o`, if it is one of section 7, has its surrogates in pairs. */
  ghost predicate PairedAt(c: seq<Byte>, o: nat) {
    forall e: nat, items :: RfcString(c, o, e, items) ==> Paired(items)
  }

  /** Surrogates come in pairs in every string from `p` to `e`. */
  ghost predicate PairedText(c: seq<Byte>, p: nat, e: nat)
    requires e <= |c|
    decreases e - p
  {
    p >= e || ((c[p] == QUOTE ==> PairedAt(c, p)) && PairedText(c, Jump(c, p), e))
  }

  /** What may stand outside a string: anything visible, and white space. */
  predicate Outside(b: Byte) {
    b > 32 || IsWs(b)
  }

  /**
    A string that is decoded, every `\u` in it with four hexadecimal digits and without a raw control character; or
    a byte that may stand outside of strings.
  */
  ghost predicate CleanPlace(c: seq<Byte>, p: nat)
    requires p < |c|
  {
    if c[p] == QUOTE then StringAt(c, p).Some? && CleanAt(c, p) && NoControls(c, p, StringAt(c, p).value.end)
    else Outside(c[p])
  }

  ghost predicate CleanText(c: seq<Byte>, p: nat, e: nat)
    requires e <= |c|
    decreases e - p
  {
    p >= e || (CleanPlace(c, p) && CleanText(c, Jump(c, p), e))
  }

  /** A scan that comes by `r` does its work before and after it. */
  lemma {:induction false} ScanSplits(c: seq<Byte>, p: nat, r: nat, e: nat)
    requires Reaches(c, p, r) && r <= e <= |c|
    ensures p <= r
    ensures PairedText(c, p, e) <==> PairedText(c, p, r) && PairedText(c, r, e)
    ensures CleanText(c, p, e) <==> CleanText(c, p, r) && CleanText(c, r, e)
    ensures Reaches(c, r, e) ==> Reaches(c, p, e)
    decreases r - p
  {
    hide PairedAt, CleanPlace, Jump;
    if p < r {
      ScanSplits(c, Jump(c, p), r, e);
    }
  }

  ghost predicate AllOutside(c: seq<Byte>, a: nat, b: nat)
    requires b <= |c|
  {
    forall k :: a <= k < b ==> Outside(c[k])
  }

  lemma {:induction false} NoStrings(c: seq<Byte>, a: nat, b: nat)
    requires a <= b <= |c| && forall k :: a <= k < b ==> c[k] != QUOTE
    ensures Reaches(c, a, b) && PairedText(c, a, b) && (CleanText(c, a, b) <==> AllOutside(c, a, b))
    decreases b - a
  {
    if a < b {
      NoStrings(c, a + 1, b);
    }
  }

  lemma CleanSkips(c: seq<Byte>, a: nat, b: nat, e: nat)
    requires a <= b <= e <= |c| && forall k :: a <= k < b ==> c[k] != QUOTE
    ensures CleanText(c, a, e) == (AllOutside(c, a, b) && CleanText(c, b, e))
    ensures PairedText(c, a, e) == PairedText(c, b, e)
  {
    hide CleanText, PairedText, Reaches, AllOutside;
    NoStrings(c, a, b);
    ScanSplits(c, a, b, e);
  }

  /** Nothing that is decoded has a surrogate without its partner. */
  lemma {:induction false} CleanIsPaired(c: seq<Byte>, p: nat, e: nat)
    requires e <= |c| && CleanText(c, p, e)
    ensures PairedText(c, p, e)
    decreases e - p
  {
    if p < e {
      CleanIsPaired(c, Jump(c, p), e);
      hide CleanText, Jump, RfcString, Paired, StringAt, CleanAt;
      if c[p] == QUOTE {
        forall d: nat, items | RfcString(c, p, d, items) ensures Paired(items) {
          DecodedIffPaired(c, p, d, items);
        }
      }
    }
  }

  lemma CleanReads(c: seq<Byte>, o: nat, t: seq<Byte>, e: nat)
    requires Reads(c, o, t) && o + |t| <= e <= |c| && forall k :: 0 <= k < |t| ==> t[k] > 34
    ensures CleanText(c, o, e) == CleanText(c, o + |t|, e)
  {
    forall k | o <= k < o + |t| ensures c[k] > 34 {
      assert c[o..o + |t|][k - o] == c[k];
    }
    CleanSkips(c, o, o + |t|, e);
  }

  lemma CleanCloses(c: seq<Byte>, q: nat, e: nat, bracket: Byte, end: nat)
    requires Closes(c, q, e, bracket) && bracket > 34 && e <= end <= |c|
    ensures WsCloses(c, q, e, bracket) ==> CleanText(c, q, end) == CleanText(c, e, end)
    ensures CleanText(c, q, end) ==> WsCloses(c, q, e, bracket) && CleanText(c, e, end)
  {
    CleanSkips(c, q, e, end);
    hide CleanText;
    if AllOutside(c, q, e) {
      assert forall k :: q <= k < e - 1 ==> Outside(c[k]) && c[k] <= 32;
    }
  }

  lemma WsIsBlank(c: seq<Byte>, a: nat, b: nat)
    requires Ws(c, a, b)
    ensures Blank(c, a, b)
  {
  }

  // ---------------------------------------------------------------- the leaves

  lemma NumberLeaf(c: seq<Byte>, o: nat, e: nat, t: seq<Byte>)
    ensures RfcVal(c, o, e, Number(t)) <==> Val(c, o, e, Number(t)) && RfcNumber(t) && NumberStops(c, e)
  {
    if RfcVal(c, o, e, Number(t)) {
      RfcNumberIsWhole(t);
      forall k | o <= k < e ensures c[k] == t[k - o] {
        assert c[o..e][k - o] == c[k];
      }
      hide StrtodLength;
      var end := RunEnd(c, o, o + 63);
      assert end >= e;
      assert c[o..end] == t;
    }
  }

  /** Where a string of section 7 ends, and that it is decoded if and only if its surrogates come in pairs. */
  lemma StringLeaf(c: seq<Byte>, o: nat, e: nat, s: seq<Byte>)
    ensures StrictString(c, o, e, s) && PairedAt(c, o) <==>
            Val(c, o, e, String(s)) && CleanAt(c, o) && NoControls(c, o, e)
    ensures StrictString(c, o, e, s) ==> o < e <= |c| && c[o] == QUOTE && Jump(c, o) == e
    ensures StrictString(c, o, e, s) && !PairedAt(c, o) ==> StringAt(c, o).None?
  {
    hide StringAt, CleanAt, Paired, RfcString, NoControls, Meaning, Scan;
    if o < |c| {
      StringIffRfc(c, o, s, e);
    }
    forall d: nat, items | RfcString(c, o, d, items)
      ensures o < d <= |c| && c[o] == QUOTE && Jump(c, o) == d && (StringAt(c, o).Some? <==> Paired(items))
    {
      StringStands(c, o, d, items);
      DecodedIffPaired(c, o, d, items);
    }
  }

  lemma StringStands(c: seq<Byte>, o: nat, e: nat, items: seq<Item>)
    requires RfcString(c, o, e, items)
    ensures o < e <= |c| && c[o] == QUOTE
  {
  }

  // ---------------------------------------------------------------- every RFC text is one of the parser's grammar

  /** The scan goes from `o` to `e`, and when all surrogates come in pairs the text is clean and `derived` holds. */
  ghost predicate Swept(c: seq<Byte>, o: nat, e: nat, derived: bool) {
    o <= e <= |c| && Reaches(c, o, e) && (PairedText(c, o, e) ==> derived && CleanText(c, o, e))
  }

  lemma SweepOn(c: seq<Byte>, o: nat, r: nat, e: nat, first: bool, second: bool)
    requires Swept(c, o, r, first) && Swept(c, r, e, second)
    ensures Swept(c, o, e, first && second)
  {
    hide Reaches, PairedText, CleanText;
    ScanSplits(c, o, r, e);
  }

  lemma SweepGives(c: seq<Byte>, o: nat, e: nat, derived: bool, more: bool)
    requires Swept(c, o, e, derived) && (derived ==> more)
    ensures Swept(c, o, e, more)
  {
    hide Reaches, PairedText, CleanText;
  }

  lemma SweepGap(c: seq<Byte>, a: nat, b: nat)
    requires a <= b <= |c| && forall k :: a <= k < b ==> Outside(c[k]) && c[k] != QUOTE
    ensures Swept(c, a, b, true)
  {
    NoStrings(c, a, b);
  }

  lemma SweepReads(c: seq<Byte>, o: nat, t: seq<Byte>)
    requires Reads(c, o, t) && forall k :: 0 <= k < |t| ==> t[k] > 34
    ensures Swept(c, o, o + |t|, true)
  {
    forall k | o <= k < o + |t| ensures c[k] > 34 {
      assert c[o..o + |t|][k - o] == c[k];
    }
    SweepGap(c, o, o + |t|);
  }

  lemma SweepString(c: seq<Byte>, o: nat, e: nat, s: seq<Byte>)
    requires StrictString(c, o, e, s)
    ensures Swept(c, o, e, Val(c, o, e, String(s)))
  {
    hide StringAt, CleanAt, StrictString, PairedAt, NoControls, Jump;
    StringLeaf(c, o, e, s);
    assert Reaches(c, e, e) && PairedText(c, e, e) && CleanText(c, e, e);
  }

  lemma {:induction false} RfcIsVal(c: seq<Byte>, o: nat, e: nat, v: Json)
    requires RfcVal(c, o, e, v)
    ensures Swept(c, o, e, Val(c, o, e, v)) && RfcNumbers(v) && (v.Number? ==> NumberStops(c, e))
    decreases v, 1
  {
    hide Swept, StringAt, NumberAt, RfcElements, RfcMembers, Elements, Members;
    match v
    case Null => SweepReads(c, o, NULL_TEXT);
    case False => SweepReads(c, o, FALSE_TEXT);
    case True => SweepReads(c, o, TRUE_TEXT);
    case Number(t) =>
      NumberLeaf(c, o, e, t);
      RfcNumberIsWhole(t);
      SweepReads(c, o, t);
    case String(s) => SweepString(c, o, e, s);
    case Array(items) => RfcIsArray(c, o, e, items);
    case Object(members) => RfcIsObject(c, o, e, members);
  }

  lemma {:induction false} RfcIsArray(c: seq<Byte>, o: nat, e: nat, items: seq<Json>)
    requires RfcVal(c, o, e, Array(items))
    ensures Swept(c, o, e, Val(c, o, e, Array(items))) && RfcNumbersOf(items)
    decreases items, 1
  {
    hide Swept, RfcElements, Elements, RfcNumbersOf;
    if items == [] {
      NoRfcNumbers();
      WsIsBlank(c, o + 1, e - 1);
      SweepGap(c, o, e);
    } else {
      SweepGap(c, o, o + 1);
      RfcIsElements(c, o + 1, e, items);
      SweepOn(c, o, o + 1, e, true, Elements(c, o + 1, e, items));
    }
  }

  lemma {:induction false} RfcIsObject(c: seq<Byte>, o: nat, e: nat, members: seq<Member>)
    requires RfcVal(c, o, e, Object(members))
    ensures Swept(c, o, e, Val(c, o, e, Object(members))) && RfcNumbersOfMembers(members)
    decreases members, 1
  {
    hide Swept, RfcMembers, Members, RfcNumbersOfMembers;
    if members == [] {
      NoRfcNumbers();
      WsIsBlank(c, o + 1, e - 1);
      SweepGap(c, o, e);
    } else {
      SweepGap(c, o, o + 1);
      RfcIsMembers(c, o + 1, e, members);
      SweepOn(c, o, o + 1, e, true, Members(c, o + 1, e, members));
    }
  }

  lemma NoRfcNumbers()
    ensures RfcNumbersOf([]) && RfcNumbersOfMembers([])
  {
  }

  lemma {:induction false} RfcIsElement(c: seq<Byte>, q: nat, p: nat, r: nat, s: nat, v: Json)
    requires RfcElement(c, q, p, r, s, v) && s < |c| && c[s] > 34
    ensures Swept(c, q, s + 1, Element(c, q, p, r, s, v)) && RfcNumbers(v)
    decreases v, 2
  {
    hide RfcVal, Val, Swept;
    RfcIsVal(c, p, r, v);
    SweepGap(c, q, p);
    SweepGap(c, r, s + 1);
    SweepOn(c, q, p, r, true, Val(c, p, r, v));
    SweepOn(c, q, r, s + 1, Val(c, p, r, v), true);
    WsIsBlank(c, q, p);
    WsIsBlank(c, r, s);
  }

  lemma {:induction false} RfcIsElements(c: seq<Byte>, q: nat, e: nat, items: seq<Json>)
    requires items != [] && RfcElements(c, q, e, items)
    ensures Swept(c, q, e, Elements(c, q, e, items)) && RfcNumbersOf(items)
    decreases items, 0
  {
    hide RfcElement, RfcElements, Element, Elements, RfcNumbers, Swept;
    var p, r, s := SplitRfcElements(c, q, e, items);
    RfcIsElement(c, q, p, r, s, items[0]);
    if |items| > 1 {
      RfcIsElements(c, s + 1, e, items[1..]);
      var first, rest := Element(c, q, p, r, s, items[0]), Elements(c, s + 1, e, items[1..]);
      SweepOn(c, q, s + 1, e, first, rest);
      if first && rest {
        MoreElements(c, q, p, r, s, items[0], e, items[1..]);
        assert items == [items[0]] + items[1..];
      }
      SweepGives(c, q, e, first && rest, Elements(c, q, e, items));
    } else {
      if Element(c, q, p, r, s, items[0]) {
        OneElement(c, q, p, r, s, items[0]);
        assert items == [items[0]];
      }
      SweepGives(c, q, e, Element(c, q, p, r, s, items[0]), Elements(c, q, e, items));
    }
  }

  lemma RfcIsKey(c: seq<Byte>, q: nat, n: nat, m: nat, k: nat, name: seq<Byte>)
    requires Ws(c, q, n) && StrictString(c, n, m, name) && WsCloses(c, m, k, COLON)
    ensures Swept(c, q, k, Key(c, q, n, m, k, name))
  {
    hide StringAt, StrictString, Swept;
    var derived := Val(c, n, m, String(name));
    SweepString(c, n, m, name);
    SweepGap(c, q, n);
    SweepGap(c, m, k);
    SweepOn(c, q, n, m, true, derived);
    SweepOn(c, q, m, k, derived, true);
    WsIsBlank(c, q, n);
    WsIsBlank(c, m, k - 1);
  }

  lemma {:induction false} RfcIsPair(
    c: seq<Byte>, q: nat, n: nat, m: nat, k: nat, p: nat, r: nat, s: nat, x: Member)
    requires RfcPair(c, q, n, m, k, p, r, s, x) && s < |c| && c[s] > 34
    ensures Swept(c, q, s + 1, Key(c, q, n, m, k, x.name) && JsonGrammar.Pair(c, k, s, x.value))
    ensures RfcNumbers(x.value)
    decreases x, 4
  {
    hide RfcElement, Element, Key, StrictString, Swept;
    var key, element := Key(c, q, n, m, k, x.name), Element(c, k, p, r, s, x.value);
    RfcIsKey(c, q, n, m, k, x.name);
    RfcIsElement(c, k, p, r, s, x.value);
    SweepOn(c, q, k, s + 1, key, element);
    SweepGives(c, q, s + 1, key && element, key && JsonGrammar.Pair(c, k, s, x.value));
  }

  lemma {:induction false} RfcIsMembers(c: seq<Byte>, q: nat, e: nat, members: seq<Member>)
    requires members != [] && RfcMembers(c, q, e, members)
    ensures Swept(c, q, e, Members(c, q, e, members)) && RfcNumbersOfMembers(members)
    decreases members, 0
  {
    hide RfcPair, RfcMembers, RfcNumbers, Key, JsonGrammar.Pair, Members, Swept;
    var n, m, k, p, r, s := SplitRfcMembers(c, q, e, members);
    var x, rest := members[0], members[1..];
    var first := Key(c, q, n, m, k, x.name) && JsonGrammar.Pair(c, k, s, x.value);
    RfcIsPair(c, q, n, m, k, p, r, s, x);
    assert members == [x] + rest;
    if rest != [] {
      RfcIsMembers(c, s + 1, e, rest);
      SweepOn(c, q, s + 1, e, first, Members(c, s + 1, e, rest));
      if first && Members(c, s + 1, e, rest) {
        MoreMembers(c, q, n, m, k, s, x, e, rest);
      }
      SweepGives(c, q, e, first && Members(c, s + 1, e, rest), Members(c, q, e, members));
    } else {
      if first {
        OneMember(c, q, n, m, k, s, x);
        assert members == [x];
      }
      SweepGives(c, q, e, first, Members(c, q, e, members));
    }
  }

  // ---------------------------------------------------------------- and every proper one is an RFC text

  lemma CleanString(c: seq<Byte>, o: nat, e: nat, s: seq<Byte>, end: nat)
    requires Val(c, o, e, String(s)) && e <= end <= |c|
    ensures c[o] == QUOTE && o < e
    ensures CleanText(c, o, end) == (CleanAt(c, o) && NoControls(c, o, e) && CleanText(c, e, end))
  {
    hide CleanAt;
  }

  lemma {:induction false} ValIsRfc(c: seq<Byte>, o: nat, e: nat, v: Json, end: nat)
    requires Val(c, o, e, v) && RfcNumbers(v) && (v.Number? ==> NumberStops(c, e))
    requires e <= end <= |c| && CleanText(c, o, end)
    ensures RfcVal(c, o, e, v) && CleanText(c, e, end)
    decreases v, 1
  {
    ValWithin(c, o, e, v);
    hide CleanText, StringAt, NumberAt, Elements, Members, RfcElements, RfcMembers, RfcNumbersOf, RfcNumbersOfMembers;
    match v
    case Null => CleanReads(c, o, NULL_TEXT, end);
    case False => CleanReads(c, o, FALSE_TEXT, end);
    case True => CleanReads(c, o, TRUE_TEXT, end);
    case Number(t) => NumberIsRfc(c, o, e, t, end);
    case String(s) => StringIsRfc(c, o, e, s, end);
    case Array(items) => ArrayIsRfc(c, o, e, items, end);
    case Object(members) => ObjectIsRfc(c, o, e, members, end);
  }

  lemma NumberIsRfc(c: seq<Byte>, o: nat, e: nat, t: seq<Byte>, end: nat)
    requires Val(c, o, e, Number(t)) && RfcNumber(t) && NumberStops(c, e) && o < e <= end <= |c| && CleanText(c, o, end)
    ensures RfcVal(c, o, e, Number(t)) && CleanText(c, e, end)
  {
    NumberLeaf(c, o, e, t);
    hide CleanText, NumberAt, RfcNumber;
    RfcNumberIsWhole(t);
    CleanReads(c, o, t, end);
  }

  lemma StringIsRfc(c: seq<Byte>, o: nat, e: nat, s: seq<Byte>, end: nat)
    requires Val(c, o, e, String(s)) && e <= end <= |c| && CleanText(c, o, end)
    ensures RfcVal(c, o, e, String(s)) && CleanText(c, e, end)
  {
    hide CleanText, CleanAt, NoControls, PairedAt, StrictString, StringAt;
    CleanString(c, o, e, s, end);
    StringLeaf(c, o, e, s);
  }

  lemma {:induction false} ArrayIsRfc(c: seq<Byte>, o: nat, e: nat, items: seq<Json>, end: nat)
    requires Val(c, o, e, Array(items)) && RfcNumbersOf(items) && o < e <= end <= |c| && CleanText(c, o, end)
    ensures RfcVal(c, o, e, Array(items)) && CleanText(c, e, end)
    decreases items, 1
  {
    hide CleanText, RfcElements, Elements, RfcNumbersOf;
    CleanSkips(c, o, o + 1, end);
    if items == [] {
      CleanCloses(c, o + 1, e, CLOSE_BRACKET, end);
    } else {
      ElementsAreRfc(c, o + 1, e, items, end);
    }
  }

  lemma {:induction false} ObjectIsRfc(c: seq<Byte>, o: nat, e: nat, members: seq<Member>, end: nat)
    requires Val(c, o, e, Object(members)) && RfcNumbersOfMembers(members)
    requires o < e <= end <= |c| && CleanText(c, o, end)
    ensures RfcVal(c, o, e, Object(members)) && CleanText(c, e, end)
    decreases members, 1
  {
    hide CleanText, RfcMembers, Members, RfcNumbersOfMembers;
    CleanSkips(c, o, o + 1, end);
    if members == [] {
      CleanCloses(c, o + 1, e, CLOSE_BRACE, end);
    } else {
      MembersAreRfc(c, o + 1, e, members, end);
    }
  }

  lemma BlankOutsideIsWs(c: seq<Byte>, a: nat, b: nat)
    requires Blank(c, a, b) && AllOutside(c, a, b)
    ensures Ws(c, a, b)
  {
  }

  lemma {:induction false} ElementIsRfc(c: seq<Byte>, q: nat, p: nat, r: nat, s: nat, v: Json, end: nat)
    requires Element(c, q, p, r, s, v) && RfcNumbers(v)
    requires s < end <= |c| && c[s] > 34 && !NumberChar(c[s]) && q <= end && CleanText(c, q, end)
    ensures RfcElement(c, q, p, r, s, v) && CleanText(c, s + 1, end)
    decreases v, 2
  {
    hide Val, RfcVal, CleanText;
    ValWithin(c, p, r, v);
    CleanSkips(c, q, p, end);
    BlankOutsideIsWs(c, q, p);
    assert NumberStops(c, r);
    ValIsRfc(c, p, r, v, end);
    CleanSkips(c, r, s + 1, end);
    BlankOutsideIsWs(c, r, s);
  }

  lemma {:induction false} ElementsAreRfc(c: seq<Byte>, q: nat, e: nat, items: seq<Json>, end: nat)
    requires items != [] && Elements(c, q, e, items) && RfcNumbersOf(items)
    requires q <= e <= end <= |c| && CleanText(c, q, end)
    ensures RfcElements(c, q, e, items) && CleanText(c, e, end)
    decreases items, 0
  {
    hide Element, Elements, RfcElement, RfcNumbers, CleanText;
    var p, r, s := SplitElements(c, q, e, items);
    if |items| > 1 {
      ElementsWithin(c, s + 1, e, items[1..]);
      ElementIsRfc(c, q, p, r, s, items[0], end);
      ElementsAreRfc(c, s + 1, e, items[1..], end);
    } else {
      ElementIsRfc(c, q, p, r, s, items[0], end);
    }
  }

  lemma ElementsWithin(c: seq<Byte>, q: nat, e: nat, items: seq<Json>)
    requires items != [] && Elements(c, q, e, items)
    ensures q < e <= |c|
  {
    hide ElementsAt, Elements, DepthOf, Skip;
    ElementsComplete(c, q, e, items, NESTING_LIMIT - DepthOf(items));
  }

  lemma MembersWithin(c: seq<Byte>, q: nat, e: nat, members: seq<Member>)
    requires members != [] && Members(c, q, e, members)
    ensures q < e <= |c|
  {
    hide MembersAt, Members, DepthOfMembers, Skip;
    MembersComplete(c, q, e, members, NESTING_LIMIT - DepthOfMembers(members));
  }

  lemma KeyIsRfc(c: seq<Byte>, q: nat, n: nat, m: nat, k: nat, name: seq<Byte>, end: nat)
    requires Key(c, q, n, m, k, name) && q <= k <= end <= |c| && CleanText(c, q, end)
    ensures Ws(c, q, n) && StrictString(c, n, m, name) && WsCloses(c, m, k, COLON)
    ensures CleanText(c, k, end)
  {
    StringLeaf(c, n, m, name);
    hide StringAt, CleanAt, CleanText, StrictString;
    CleanSkips(c, q, n, end);
    BlankOutsideIsWs(c, q, n);
    CleanString(c, n, m, name, end);
    CleanCloses(c, m, k, COLON, end);
  }

  lemma {:induction false} PairIsRfc(
    c: seq<Byte>, q: nat, n: nat, m: nat, k: nat, p: nat, r: nat, s: nat, x: Member, end: nat)
    requires Key(c, q, n, m, k, x.name) && Element(c, k, p, r, s, x.value) && RfcNumbers(x.value)
    requires s < end <= |c| && c[s] > 34 && !NumberChar(c[s]) && q <= end && CleanText(c, q, end)
    ensures RfcPair(c, q, n, m, k, p, r, s, x) && CleanText(c, s + 1, end)
    decreases x, 4
  {
    assert q <= k <= end by {
      KeyComplete(c, q, n, m, k, x.name);
      hide Val;
      ValWithin(c, p, r, x.value);
    }
    hide Key, Element, RfcElement, CleanText, StrictString;
    KeyIsRfc(c, q, n, m, k, x.name, end);
    ElementIsRfc(c, k, p, r, s, x.value, end);
  }

  lemma {:induction false} MembersAreRfc(c: seq<Byte>, q: nat, e: nat, members: seq<Member>, end: nat)
    requires members != [] && Members(c, q, e, members) && RfcNumbersOfMembers(members)
    requires q <= e <= end <= |c| && CleanText(c, q, end)
    ensures RfcMembers(c, q, e, members) && CleanText(c, e, end)
    decreases members, 0
  {
    hide Key, Element, Members, RfcPair, RfcNumbers, CleanText;
    var n, m, k, p, r, s := SplitMembers(c, q, e, members);
    if |members| > 1 {
      MembersWithin(c, s + 1, e, members[1..]);
      PairIsRfc(c, q, n, m, k, p, r, s, members[0], end);
      MembersAreRfc(c, s + 1, e, members[1..], end);
    } else {
      PairIsRfc(c, q, n, m, k, p, r, s, members[0], end);
    }
  }

  /**
    The texts of the RFC, within the limits and with all surrogates in pairs, are exactly the texts that the parser
    reads in which numbers are those of section 6 and strings and white space are clean; and it gives them their
    value.
  */
  lemma ParserIsRfc(c: seq<Byte>, o: nat, e: nat, v: Json, depth: int)
    requires o <= |c| && depth <= 1000
    ensures RfcVal(c, o, e, v) && depth + Depth(v) <= 1000 && e <= |c| && PairedText(c, o, e) <==>
      && ValueAt(c, o, depth) == Some(Parsed(v, e))
      && RfcNumbers(v) && (v.Number? ==> NumberStops(c, e)) && e <= |c| && CleanText(c, o, e)
  {
    hide RfcVal, Val, ValueAt, Depth, RfcNumbers, PairedText, CleanText, Reaches;
    ParserIsGrammar(c, o, e, v, depth);
    if RfcVal(c, o, e, v) {
      RfcIsVal(c, o, e, v);
    }
    if Val(c, o, e, v) && RfcNumbers(v) && (v.Number? ==> NumberStops(c, e)) && e <= |c| && CleanText(c, o, e) {
      ValIsRfc(c, o, e, v, e);
      CleanIsPaired(c, o, e);
    }
  }
}
