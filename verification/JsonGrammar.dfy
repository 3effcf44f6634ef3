/**
  JSON texts.  `Val` is the grammar of RFC 8259, sections 2 to 5, with the liberties the parser
  takes: any byte up to 0x20 counts as white space, strings are those of `JsonString`, and a number
  is whatever prefix of a run of number characters the C library converts.  `ValueAt` is what the
  parser computes.  The two are shown to be the same relation, up to the nesting limit.
*/
module JsonGrammar {
  import opened Common
  import opened Utf8
  import opened JsonString

  datatype Json =
    | Null
    | False
    | True
    | Number(text: seq<Byte>)
    | String(bytes: seq<Byte>)
    | Array(items: seq<Json>)
    | Object(members: seq<Member>)

  datatype Member = Member(name: seq<Byte>, value: Json)

  const NESTING_LIMIT: nat := 1000

  const COMMA: Byte := 0x2C
  const COLON: Byte := 0x3A
  const OPEN_BRACKET: Byte := 0x5B
  const CLOSE_BRACKET: Byte := 0x5D
  const OPEN_BRACE: Byte := 0x7B
  const CLOSE_BRACE: Byte := 0x7D
  const MINUS: Byte := 0x2D
  const PLUS: Byte := 0x2B
  const POINT: Byte := 0x2E

  const NULL_TEXT: seq<Byte> := [0x6E, 0x75, 0x6C, 0x6C]
  const FALSE_TEXT: seq<Byte> := [0x66, 0x61, 0x6C, 0x73, 0x65]
  const TRUE_TEXT: seq<Byte> := [0x74, 0x72, 0x75, 0x65]

  predicate Is(c: seq<Byte>, p: nat, b: Byte) {
    p < |c| && c[p] == b
  }

  predicate Reads(c: seq<Byte>, p: nat, text: seq<Byte>) {
    p + |text| <= |c| && c[p..p + |text|] == text
  }

  // ---------------------------------------------------------------- numbers

  predicate IsDigit(b: Byte) { 0x30 <= b <= 0x39 }

  predicate IsExponent(b: Byte) { b == 0x65 || b == 0x45 }

  predicate IsSign(b: Byte) { b == PLUS || b == MINUS }

  predicate NumberChar(b: Byte) {
    IsDigit(b) || IsSign(b) || IsExponent(b) || b == POINT
  }

  /** The end of the run of number characters from `p`, cut off at `stop`. */
  function RunEnd(c: seq<Byte>, p: nat, stop: nat): (e: nat)
    requires p <= stop && p <= |c|
    ensures p <= e <= stop && e <= |c|
    ensures forall i :: p <= i < e ==> NumberChar(c[i])
    ensures e == stop || e == |c| || !NumberChar(c[e])
    decreases stop - p
  {
    if p == stop || p == |c| || !NumberChar(c[p]) then p else RunEnd(c, p + 1, stop)
  }

  function DigitRun(t: seq<Byte>, i: nat): (n: nat)
    requires i <= |t|
    ensures i + n <= |t|
    decreases |t| - i
  {
    if i < |t| && IsDigit(t[i]) then 1 + DigitRun(t, i + 1) else 0
  }

  /** The end of a sign, digits, a point and digits; 0 when there is no digit. */
  function MantissaEnd(t: seq<Byte>): (n: nat)
    ensures n <= |t|
  {
    var start := if |t| > 0 && IsSign(t[0]) then 1 else 0;
    var whole := start + DigitRun(t, start);
    var point := whole < |t| && t[whole] == POINT;
    var end := if point then whole + 1 + DigitRun(t, whole + 1) else whole;
    if end - start - (if point then 1 else 0) == 0 then 0 else end
  }

  /** The end of a complete exponent at `m`, or `m` when there is none. */
  function ExponentEnd(t: seq<Byte>, m: nat): (n: nat)
    requires m <= |t|
    ensures m <= n <= |t|
  {
    if m < |t| && IsExponent(t[m]) then
      var digits := if m + 1 < |t| && IsSign(t[m + 1]) then m + 2 else m + 1;
      if DigitRun(t, digits) > 0 then digits + DigitRun(t, digits) else m
    else m
  }

  /** How much of a run `strtod` converts: a mantissa with a digit in it, and a complete exponent. */
  function StrtodLength(t: seq<Byte>): (n: nat)
    ensures n <= |t|
  {
    if MantissaEnd(t) == 0 then 0 else ExponentEnd(t, MantissaEnd(t))
  }

  function NumberAt(c: seq<Byte>, o: nat): (r: Option<Parsed<seq<Byte>>>)
    requires o <= |c|
    ensures r.Some? ==> o < r.value.end <= |c|
  {
    var n := StrtodLength(c[o..RunEnd(c, o, o + 63)]);
    if n == 0 then None else Some(Parsed(c[o..o + n], o + n))
  }

  // ---------------------------------------------------------------- the grammar

  ghost predicate Blank(c: seq<Byte>, a: nat, b: nat) {
    a <= b <= |c| && forall i :: a <= i < b ==> c[i] <= 32
  }

  /** `c[o..e]` is a text of the value `v`. */
  ghost predicate Val(c: seq<Byte>, o: nat, e: nat, v: Json)
    decreases v, 1
  {
    match v
    case Null => e == o + 4 && Reads(c, o, NULL_TEXT)
    case False => e == o + 5 && Reads(c, o, FALSE_TEXT)
    case True => e == o + 4 && Reads(c, o, TRUE_TEXT)
    case Number(t) => o < |c| && (c[o] == MINUS || IsDigit(c[o])) && NumberAt(c, o) == Some(Parsed(t, e))
    case String(s) => o < |c| && StringAt(c, o) == Some(Parsed(s, e))
    case Array(items) =>
      && Is(c, o, OPEN_BRACKET)
      && if items == [] then Closes(c, o + 1, e, CLOSE_BRACKET) else Elements(c, o + 1, e, items)
    case Object(members) =>
      && Is(c, o, OPEN_BRACE)
      && if members == [] then Closes(c, o + 1, e, CLOSE_BRACE) else Members(c, o + 1, e, members)
  }

  ghost predicate Closes(c: seq<Byte>, q: nat, e: nat, bracket: Byte) {
    e > 0 && Blank(c, q, e - 1) && Is(c, e - 1, bracket)
  }

  /** The elements of a nonempty array, from behind the bracket or a comma to behind the closing bracket. */
  ghost predicate Elements(c: seq<Byte>, q: nat, e: nat, items: seq<Json>)
    requires items != []
    decreases items, 0
  {
    exists p: nat, r: nat, s: nat :: Element(c, q, p, r, s, items[0]) &&
                      if |items| == 1 then Is(c, s, CLOSE_BRACKET) && e == s + 1
                      else Is(c, s, COMMA) && Elements(c, s + 1, e, items[1..])
  }

  ghost predicate Element(c: seq<Byte>, q: nat, p: nat, r: nat, s: nat, v: Json)
    decreases v, 2
  {
    Blank(c, q, p) && Val(c, p, r, v) && Blank(c, r, s)
  }

  ghost predicate Members(c: seq<Byte>, q: nat, e: nat, members: seq<Member>)
    requires members != []
    decreases members, 0
  {
    exists n: nat, m: nat, k: nat, s: nat :: Key(c, q, n, m, k, members[0].name) && Pair(c, k, s, members[0].value) &&
                         if |members| == 1 then Is(c, s, CLOSE_BRACE) && e == s + 1
                         else Is(c, s, COMMA) && Members(c, s + 1, e, members[1..])
  }

  /** White space, a name from `n` to `m`, white space, and a colon right before `k`. */
  ghost predicate Key(c: seq<Byte>, q: nat, n: nat, m: nat, k: nat, name: seq<Byte>) {
    Blank(c, q, n) && n < |c| && StringAt(c, n) == Some(Parsed(name, m)) && Closes(c, m, k, COLON)
  }

  /** What follows the colon, from `k` up to the byte `s` behind the value. */
  ghost predicate Pair(c: seq<Byte>, k: nat, s: nat, v: Json)
    decreases v, 3
  {
    exists p: nat, r: nat :: Element(c, k, p, r, s, v)
  }

  function Max(a: nat, b: nat): nat { if a < b then b else a }

  function Depth(v: Json): nat
    decreases v, 1
  {
    match v
    case Array(items) => 1 + DepthOf(items)
    case Object(members) => 1 + DepthOfMembers(members)
    case _ => 0
  }

  function DepthOf(items: seq<Json>): nat
    decreases items, 0
  {
    if items == [] then 0 else Max(Depth(items[0]), DepthOf(items[1..]))
  }

  function DepthOfMembers(members: seq<Member>): nat
    decreases members, 0
  {
    if members == [] then 0 else Max(Depth(members[0].value), DepthOfMembers(members[1..]))
  }

  // ---------------------------------------------------------------- what the parser computes

  function BlankEnd(c: seq<Byte>, q: nat): (p: nat)
    requires q <= |c|
    ensures q <= p <= |c| && Blank(c, q, p) && (p < |c| ==> c[p] > 32)
    decreases |c| - q
  {
    if q < |c| && c[q] <= 32 then BlankEnd(c, q + 1) else q
  }

  /** `buffer_skip_whitespace`: it steps back when it runs into the end. */
  function Skip(c: seq<Byte>, q: nat): (p: nat)
    requires q <= |c|
    ensures q <= p <= |c| && Blank(c, q, p) && (q < |c| ==> p < |c|)
  {
    if q == |c| then q
    else if BlankEnd(c, q) == |c| then |c| - 1
    else BlankEnd(c, q)
  }

  lemma SkipFinds(c: seq<Byte>, q: nat, p: nat)
    requires Blank(c, q, p) && p < |c| && c[p] > 32
    ensures Skip(c, q) == p
  {
    assert BlankEnd(c, q) == p;
  }

  function ValueAt(c: seq<Byte>, o: nat, depth: int): (r: Option<Parsed<Json>>)
    requires o <= |c|
    ensures r.Some? ==> o < r.value.end <= |c| && c[o] > 32
    decreases |c| - o, 1
  {
    if Reads(c, o, NULL_TEXT) then assert c[o..o + 4][0] == c[o]; Some(Parsed(Null, o + 4))
    else if Reads(c, o, FALSE_TEXT) then assert c[o..o + 5][0] == c[o]; Some(Parsed(False, o + 5))
    else if Reads(c, o, TRUE_TEXT) then assert c[o..o + 4][0] == c[o]; Some(Parsed(True, o + 4))
    else if o == |c| then None
    else if c[o] == QUOTE then
      var s := StringAt(c, o);
      if s.None? then None else Some(Parsed(String(s.value.value), s.value.end))
    else if c[o] == MINUS || IsDigit(c[o]) then
      var n := NumberAt(c, o);
      if n.None? then None else Some(Parsed(Number(n.value.value), n.value.end))
    else if c[o] == OPEN_BRACKET then ArrayAt(c, o, depth)
    else if c[o] == OPEN_BRACE then ObjectAt(c, o, depth)
    else None
  }

  function ArrayAt(c: seq<Byte>, o: nat, depth: int): (r: Option<Parsed<Json>>)
    requires o < |c|
    ensures r.Some? ==> o < r.value.end <= |c|
    decreases |c| - o, 0
  {
    if depth >= NESTING_LIMIT then None
    else
      var first := Skip(c, o + 1);
      if first == |c| then None
      else if c[first] == CLOSE_BRACKET then Some(Parsed(Array([]), first + 1))
      else
        var items := ElementsAt(c, first, depth + 1);
        if items.None? then None else Some(Parsed(Array(items.value.value), items.value.end))
  }

  function ElementsAt(c: seq<Byte>, q: nat, depth: int): (r: Option<Parsed<seq<Json>>>)
    requires q <= |c|
    ensures r.Some? ==> q < r.value.end <= |c| && r.value.value != []
    decreases |c| - q, 2
  {
    var v := ValueAt(c, Skip(c, q), depth);
    if v.None? then None
    else
      var s := Skip(c, v.value.end);
      if Is(c, s, COMMA) then
        var rest := ElementsAt(c, s + 1, depth);
        if rest.None? then None else Some(Parsed([v.value.value] + rest.value.value, rest.value.end))
      else if Is(c, s, CLOSE_BRACKET) then Some(Parsed([v.value.value], s + 1))
      else None
  }

  function ObjectAt(c: seq<Byte>, o: nat, depth: int): (r: Option<Parsed<Json>>)
    requires o < |c|
    ensures r.Some? ==> o < r.value.end <= |c|
    decreases |c| - o, 0
  {
    if depth >= NESTING_LIMIT then None
    else
      var first := Skip(c, o + 1);
      if first == |c| then None
      else if c[first] == CLOSE_BRACE then Some(Parsed(Object([]), first + 1))
      else
        var members := MembersAt(c, first, depth + 1);
        if members.None? then None else Some(Parsed(Object(members.value.value), members.value.end))
  }

  /** A name and its colon: the name and the position behind the colon. */
  function KeyAt(c: seq<Byte>, q: nat): (r: Option<Parsed<seq<Byte>>>)
    requires q <= |c|
    ensures r.Some? ==> q < r.value.end <= |c|
  {
    var n := Skip(c, q);
    if n == |c| then None
    else
      var name := StringAt(c, n);
      if name.None? then None
      else
        var k := Skip(c, name.value.end);
        if Is(c, k, COLON) then Some(Parsed(name.value.value, k + 1)) else None
  }

  function MembersAt(c: seq<Byte>, q: nat, depth: int): (r: Option<Parsed<seq<Member>>>)
    requires q <= |c|
    ensures r.Some? ==> q < r.value.end <= |c| && r.value.value != []
    decreases |c| - q, 2
  {
    var key := KeyAt(c, q);
    if key.None? then None
    else
      var v := ValueAt(c, Skip(c, key.value.end), depth);
      if v.None? then None
      else
        var s := Skip(c, v.value.end);
        var m := Member(key.value.value, v.value.value);
        if Is(c, s, COMMA) then
          var rest := MembersAt(c, s + 1, depth);
          if rest.None? then None else Some(Parsed([m] + rest.value.value, rest.value.end))
        else if Is(c, s, CLOSE_BRACE) then Some(Parsed([m], s + 1))
        else None
  }
}
