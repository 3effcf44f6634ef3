/**
  What the printer of `cJSON.c` prints.  Strings are printed without quotation marks, and an escaped
  character without its backslash.  A number is printed as the text that stands for it.
*/
module JsonRender {
  import opened Utf8
  import opened JsonGrammar

  const INT_MAX: nat := 0x7FFF_FFFF
  const NUMBER_BUFFER: nat := 26
  const TAB: Byte := 0x09
  const NEWLINE: Byte := 0x0A
  const SPACE: Byte := 0x20

  // ---------------------------------------------------------------- what is printed

  /** The bytes of a C string. */
  function CString(s: seq<Byte>): (r: seq<Byte>)
    ensures r <= s && 0 !in r
  {
    if s == [] || s[0] == 0 then [] else [s[0]] + CString(s[1..])
  }

  /** The characters with an escape of their own; the others below 0x20 are printed by number. */
  predicate Named(b: Byte) {
    b == QUOTE || b == BACKSLASH || b == 0x08 || b == 0x0C || b == 0x0A || b == 0x0D || b == 0x09
  }

  predicate ByNumber(b: Byte) {
    b < 32 && !Named(b)
  }

  function Shown(b: Byte): (r: seq<Byte>)
    ensures 1 <= |r| <= 5
    ensures b != 0 ==> 0 !in r
  {
    if ByNumber(b) then [LOWER_U, 0x30, 0x30, Digit(b / 16), Digit(b % 16)] else [b]
  }

  function ShownAll(s: seq<Byte>): (r: seq<Byte>)
    ensures 0 !in s ==> 0 !in r
  {
    if s == [] then [] else ShownAll(s[..|s| - 1]) + Shown(s[|s| - 1])
  }

  /** What is counted for a character when space is reserved. */
  function Cost(b: Byte): nat {
    if Named(b) then 2 else if b < 32 then 6 else 1
  }

  function CostAll(s: seq<Byte>): (n: nat)
    ensures n >= |s|
  {
    if s == [] then 0 else CostAll(s[..|s| - 1]) + Cost(s[|s| - 1])
  }

  function Tabs(n: nat): (r: seq<Byte>)
    ensures |r| == n && 0 !in r
  {
    seq(n, _ => TAB)
  }

  function Render(v: Json, format: bool, depth: nat): seq<Byte>
    decreases v, 1
  {
    match v
    case Null => NULL_TEXT
    case False => FALSE_TEXT
    case True => TRUE_TEXT
    case Number(t) => CString(t)
    case String(s) => ShownAll(CString(s))
    case Array(items) => [OPEN_BRACKET] + RenderItems(items, format, depth + 1)
    case Object(members) => ObjectStart(format) + RenderMembers(members, format, depth + 1)
  }

  function ObjectStart(format: bool): seq<Byte> {
    if format then [OPEN_BRACE, NEWLINE] else [OPEN_BRACE]
  }

  function Between(format: bool): seq<Byte> {
    if format then [COMMA, SPACE] else [COMMA]
  }

  function RenderItem(v: Json, format: bool, depth: nat, more: bool): seq<Byte>
    decreases v, 2
  {
    Render(v, format, depth) + if more then Between(format) else []
  }

  function RenderItems(items: seq<Json>, format: bool, depth: nat): (r: seq<Byte>)
    ensures r != []
    decreases items, 0
  {
    if items == [] then [CLOSE_BRACKET]
    else RenderItem(items[0], format, depth, |items| > 1) + RenderItems(items[1..], format, depth)
  }

  function AfterKey(format: bool): seq<Byte> {
    if format then [COLON, TAB] else [COLON]
  }

  function AfterMember(format: bool, more: bool): seq<Byte> {
    (if more then [COMMA] else []) + (if format then [NEWLINE] else [])
  }

  function RenderKey(name: seq<Byte>, format: bool, depth: nat): seq<Byte> {
    (if format then Tabs(depth) else []) + (ShownAll(CString(name)) + AfterKey(format))
  }

  function RenderMember(m: Member, format: bool, depth: nat, more: bool): seq<Byte>
    decreases m, 2
  {
    RenderKey(m.name, format, depth) + (Render(m.value, format, depth) + AfterMember(format, more))
  }

  function ObjectEnd(format: bool, depth: nat): seq<Byte>
    requires depth > 0
  {
    (if format then Tabs(depth - 1) else []) + [CLOSE_BRACE]
  }

  function RenderMembers(members: seq<Member>, format: bool, depth: nat): (r: seq<Byte>)
    requires depth > 0
    ensures r != []
    decreases members, 0
  {
    if members == [] then ObjectEnd(format, depth)
    else RenderMember(members[0], format, depth, |members| > 1) + RenderMembers(members[1..], format, depth)
  }

  /** Nothing in the value is escaped, and no number is too long to print. */
  predicate Plain(v: Json)
    decreases v, 1
  {
    match v
    case Number(t) => |CString(t)| < NUMBER_BUFFER
    case String(s) => PlainString(s)
    case Array(items) => PlainItems(items)
    case Object(members) => PlainMembers(members)
    case _ => true
  }

  predicate PlainString(s: seq<Byte>) {
    forall b <- CString(s) :: Cost(b) == 1
  }

  predicate PlainItems(items: seq<Json>)
    decreases items, 0
  {
    items == [] || (Plain(items[0]) && PlainItems(items[1..]))
  }

  predicate PlainMembers(members: seq<Member>)
    decreases members, 0
  {
    members == [] || (PlainString(members[0].name) && Plain(members[0].value) && PlainMembers(members[1..]))
  }

  lemma {:induction false} PlainCost(s: seq<Byte>)
    requires forall b <- s :: Cost(b) == 1
    ensures CostAll(s) == |s| && ShownAll(s) == s
  {
    if s != [] {
      PlainCost(s[..|s| - 1]);
      assert Cost(s[|s| - 1]) == 1;
      assert s == s[..|s| - 1] + [s[|s| - 1]];
    }
  }

  lemma {:induction false} NoZeroIn(v: Json, format: bool, depth: nat)
    ensures 0 !in Render(v, format, depth)
    decreases v, 1
  {
    match v
    case Array(items) => NoZeroInItems(items, format, depth + 1);
    case Object(members) => NoZeroInMembers(members, format, depth + 1);
    case _ =>
  }

  lemma {:induction false} NoZeroInItems(items: seq<Json>, format: bool, depth: nat)
    ensures 0 !in RenderItems(items, format, depth)
    decreases items, 0
  {
    if items != [] {
      NoZeroIn(items[0], format, depth);
      NoZeroInItems(items[1..], format, depth);
    }
  }

  lemma {:induction false} NoZeroInMembers(members: seq<Member>, format: bool, depth: nat)
    requires depth > 0
    ensures 0 !in RenderMembers(members, format, depth)
    decreases members, 0
  {
    if members != [] {
      NoZeroIn(members[0].value, format, depth);
      NoZeroInMembers(members[1..], format, depth);
    }
  }
}
