/**
  Hexadecimal digits, UTF-16 code units and the UTF-8 encoding that the string decoder produces.
  Shifts and masks by constants are written as the equal divisions and remainders.
*/
module Utf8 {

  type Byte = b: int | 0 <= b < 256

  const QUOTE: Byte := 0x22
  const BACKSLASH: Byte := 0x5C
  const SLASH: Byte := 0x2F
  const LOWER_U: Byte := 0x75

  predicate IsHex(b: Byte) {
    0x30 <= b <= 0x39 || 0x41 <= b <= 0x46 || 0x61 <= b <= 0x66
  }

  function HexValue(b: Byte): (v: nat)
    requires IsHex(b)
    ensures v < 16
  {
    if b <= 0x39 then b - 0x30 else if b <= 0x46 then b - 0x41 + 10 else b - 0x61 + 10
  }

  predicate AllHex(d: seq<Byte>) {
    forall i :: 0 <= i < |d| ==> IsHex(d[i])
  }

  /** The value of four digits; anything that is not four hexadecimal digits reads as 0. */
  function Hex4(d: seq<Byte>): (h: nat)
    requires |d| == 4
    ensures h <= 0xFFFF
    ensures h != 0 ==> AllHex(d)
  {
    if AllHex(d) then
      HexValue(d[0]) * 0x1000 + HexValue(d[1]) * 0x100 + HexValue(d[2]) * 0x10 + HexValue(d[3])
    else 0
  }

  /** The digits read before position `i`, shifted as `parse_hex4` keeps them. */
  function HexPrefix(d: seq<Byte>, i: nat): nat
    requires i <= |d| == 4 && forall j :: 0 <= j < i ==> IsHex(d[j])
  {
    if i == 0 then 0
    else if i < 4 then (HexPrefix(d, i - 1) + HexValue(d[i - 1])) * 16
    else HexPrefix(d, 3) + HexValue(d[3])
  }

  lemma HexPrefixIsHex4(d: seq<Byte>)
    requires |d| == 4 && AllHex(d)
    ensures HexPrefix(d, 4) == Hex4(d)
  {
    assert HexPrefix(d, 1) == HexValue(d[0]) * 16;
    assert HexPrefix(d, 2) == (HexPrefix(d, 1) + HexValue(d[1])) * 16;
    assert HexPrefix(d, 3) == (HexPrefix(d, 2) + HexValue(d[2])) * 16;
  }

  /** `parse_hex4`. */
  method ParseHex4(d: seq<Byte>) returns (h: nat)
    requires |d| == 4
    ensures h == Hex4(d)
  {
    h := 0;
    var i := 0;
    while i < 4
      invariant 0 <= i <= 4
      invariant forall j :: 0 <= j < i ==> IsHex(d[j])
      invariant h == HexPrefix(d, i)
    {
      if !IsHex(d[i]) {
        return 0;
      }
      h := h + HexValue(d[i]);
      if i < 3 {
        h := h * 16;
      }
      i := i + 1;
    }
    HexPrefixIsHex4(d);
  }

  /** The four lower-case digits of a code unit. */
  function Digits(u: nat): (d: seq<Byte>)
    requires u <= 0xFFFF
    ensures |d| == 4 && AllHex(d)
  {
    [Digit(u / 16 / 16 / 16), Digit(u / 16 / 16 % 16), Digit(u / 16 % 16), Digit(u % 16)]
  }

  lemma DigitsRead(u: nat)
    requires u <= 0xFFFF
    ensures Hex4(Digits(u)) == u
  {
    var a, b, c := u / 16, u / 16 / 16, u / 16 / 16 / 16;
    assert u == a * 16 + u % 16 && a == b * 16 + a % 16 && b == c * 16 + b % 16;
    var d := Digits(u);
    assert HexValue(d[0]) == c && HexValue(d[1]) == b % 16 && HexValue(d[2]) == a % 16 && HexValue(d[3]) == u % 16;
  }

  function Digit(v: nat): (b: Byte)
    requires v < 16
    ensures IsHex(b) && HexValue(b) == v
  {
    if v < 10 then 0x30 + v else 0x61 + v - 10
  }

  predicate IsHigh(u: nat) { 0xD800 <= u <= 0xDBFF }

  predicate IsLow(u: nat) { 0xDC00 <= u <= 0xDFFF }

  /** A Unicode scalar value: a code point that is no surrogate. */
  predicate IsScalar(c: nat) {
    c <= 0x10FFFF && !(0xD800 <= c <= 0xDFFF)
  }

  /** The code point of a surrogate pair. */
  function Combine(high: nat, low: nat): (c: nat)
    requires IsHigh(high) && IsLow(low)
    ensures 0x10000 <= c <= 0x10FFFF
  {
    0x10000 + high % 0x400 * 0x400 + low % 0x400
  }

  function HighOf(c: nat): (u: nat)
    requires 0x10000 <= c <= 0x10FFFF
    ensures IsHigh(u)
  {
    0xD800 + (c - 0x10000) / 0x400
  }

  function LowOf(c: nat): (u: nat)
    requires 0x10000 <= c <= 0x10FFFF
    ensures IsLow(u)
  {
    0xDC00 + (c - 0x10000) % 0x400
  }

  lemma CombineInverts(c: nat)
    requires 0x10000 <= c <= 0x10FFFF
    ensures Combine(HighOf(c), LowOf(c)) == c
  {
    var x := c - 0x10000;
    assert (0xD800 + x / 0x400) % 0x400 == x / 0x400;
  }

  // ---------------------------------------------------------------- section 3 of RFC 3629

  function Length(c: nat): (n: nat)
    ensures 1 <= n <= 4
  {
    if c < 0x80 then 1 else if c < 0x800 then 2 else if c < 0x10000 then 3 else 4
  }

  function Trail(c: nat): (b: Byte)
    ensures 0x80 <= b < 0xC0
  {
    0x80 + c % 64
  }

  /** The bit distribution table of RFC 3629. */
  function Encode(c: nat): (s: seq<Byte>)
    requires c <= 0x10FFFF
    ensures |s| == Length(c)
  {
    if c < 0x80 then [c]
    else if c < 0x800 then [0xC0 + c / 64, Trail(c)]
    else if c < 0x10000 then [0xE0 + c / 64 / 64, Trail(c / 64), Trail(c)]
    else [0xF0 + c / 64 / 64 / 64, Trail(c / 64 / 64), Trail(c / 64), Trail(c)]
  }

  /** The code point back from its encoding: the low bits of each byte, side by side. */
  function Decode(s: seq<Byte>): int
    requires 1 <= |s| <= 4
  {
    var lead: int := s[0];
    if |s| == 1 then lead
    else if |s| == 2 then Append(lead % 32, s[1])
    else if |s| == 3 then Append(Append(lead % 16, s[1]), s[2])
    else Append(Append(Append(lead % 8, s[1]), s[2]), s[3])
  }

  function Append(bits: int, trail: int): int {
    bits * 64 + trail % 64
  }

  lemma AppendTrail(c: nat)
    ensures Append(c / 64, Trail(c)) == c
  {
    assert c == c / 64 * 64 + c % 64;
  }

  lemma LeadBits(x: nat)
    ensures x < 32 ==> (0xC0 + x) % 32 == x
    ensures x < 16 ==> (0xE0 + x) % 16 == x
    ensures x < 8 ==> (0xF0 + x) % 8 == x
  {
  }

  lemma EncodeDecodes(c: nat)
    requires c <= 0x10FFFF
    ensures Decode(Encode(c)) == c
  {
    hide Append, Trail, Shift;
    var x, y, z := Shift(c, 1), Shift(c, 2), Shift(c, 3);
    ShiftsLeaveLead(c);
    AppendTrail(c);
    if 0x80 <= c < 0x800 {
      LeadBits(x);
    } else if 0x800 <= c < 0x10000 {
      AppendTrail(x);
      LeadBits(y);
    } else if 0x10000 <= c {
      AppendTrail(x);
      AppendTrail(y);
      LeadBits(z);
    }
  }

  /** The lead byte tells the length, and the others are from 0x80 to 0xBF. */
  lemma EncodeLooks(c: nat)
    requires c <= 0x10FFFF
    ensures var e := Encode(c);
            && (c < 0x80 ==> e == [c])
            && (0x80 <= c < 0x800 ==> |e| == 2 && 0xC2 <= e[0] <= 0xDF)
            && (0x800 <= c < 0x10000 ==> |e| == 3 && 0xE0 <= e[0] <= 0xEF)
            && (0x10000 <= c ==> |e| == 4 && 0xF0 <= e[0] <= 0xF4)
            && forall k :: 1 <= k < |e| ==> 0x80 <= e[k] <= 0xBF
  {
    hide Trail;
  }

  function Mark(n: nat): Byte {
    if n == 2 then 0xC0 else if n == 3 then 0xE0 else 0xF0
  }

  function Shift(c: nat, k: nat): nat {
    if k == 0 then c else Shift(c, k - 1) / 64
  }

  lemma ShiftsLeaveLead(c: nat)
    requires c <= 0x10FFFF
    ensures Length(c) == 1 ==> Shift(c, 0) < 0x80
    ensures Length(c) == 2 ==> Shift(c, 1) < 0x20
    ensures Length(c) == 3 ==> Shift(c, 2) < 0x10
    ensures Length(c) == 4 ==> Shift(c, 3) < 0x08
    ensures Shift(c, 1) == c / 64 && Shift(c, 2) == c / 64 / 64 && Shift(c, 3) == c / 64 / 64 / 64
  {
    assert Shift(c, 1) == c / 64;
    assert Shift(c, 2) == c / 64 / 64;
    assert Shift(c, 3) == c / 64 / 64 / 64;
  }

  /** Bytes `p` and up of the encoding, as the loop of `utf16_literal_to_utf8` writes them. */
  lemma TailIsEncode(c: nat, p: nat)
    requires c <= 0x10FFFF && 0 < p < Length(c)
    ensures Encode(c)[p] == Trail(Shift(c, Length(c) - 1 - p))
  {
    ShiftsLeaveLead(c);
  }

  lemma HeadIsEncode(c: nat)
    requires c <= 0x10FFFF
    ensures Encode(c)[0] == if Length(c) > 1 then Mark(Length(c)) + Shift(c, Length(c) - 1) else c
  {
    ShiftsLeaveLead(c);
  }

  /** The encoding loop: bytes are written from the last to the first. */
  method WriteBackwards(code: nat, n: nat, output: array<Byte>, at: nat, ghost text: seq<Byte>)
    requires 1 <= n == |text| && at + n <= output.Length
    requires forall p :: 0 < p < n ==> text[p] == Trail(Shift(code, n - 1 - p))
    requires if n > 1 then Shift(code, n - 1) + Mark(n) == text[0] else code == text[0]
    modifies output
    ensures output[..at + n] == old(output[..at]) + text
  {
    var p := n - 1;
    var rest := code;
    while p > 0
      invariant 0 <= p < n && rest == Shift(code, n - 1 - p)
      invariant forall j :: p < j < n ==> output[at + j] == text[j]
      invariant forall j :: 0 <= j < at ==> output[j] == old(output[j])
    {
      output[at + p] := 0x80 + rest % 64;
      rest := rest / 64;
      p := p - 1;
    }
    output[at] := if n > 1 then Mark(n) + rest else rest;
  }

  /** The encoding part of `utf16_literal_to_utf8`. */
  method EncodeInto(code: nat, output: array<Byte>, at: nat) returns (next: nat)
    requires code <= 0x10FFFF && at + Length(code) <= output.Length
    modifies output
    ensures next == at + Length(code)
    ensures output[..next] == old(output[..at]) + Encode(code)
  {
    var n := Length(code);
    HeadIsEncode(code);
    forall p | 0 < p < n
      ensures Encode(code)[p] == Trail(Shift(code, n - 1 - p))
    {
      TailIsEncode(code, p);
    }
    WriteBackwards(code, n, output, at, Encode(code));
    next := at + n;
  }
}
