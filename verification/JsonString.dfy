/**
  The string decoder.  A first pass finds the closing quote and sizes the output; a second pass
  decodes.  The passes split the text differently when a `\u` is not followed by four hexadecimal
  digits: the second pass then skips four bytes that the first pass may have read as escapes.
*/
module JsonString {
  import opened Common
  import opened Utf8

  // ---------------------------------------------------------------- first pass

  /** The closing quote the first pass finds from `p`, which is the start of one of its tokens. */
  function Scan(c: seq<Byte>, p: nat): (r: Option<nat>)
    requires p <= |c|
    ensures r.Some? ==> p <= r.value < |c| && c[r.value] == QUOTE
    decreases |c| - p
  {
    if p == |c| then None
    else if c[p] == QUOTE then Some(p)
    else if c[p] == BACKSLASH then (if p + 1 == |c| then None else Scan(c, p + 2))
    else Scan(c, p + 1)
  }

  /** The first pass passes through a token boundary at `p` on its way to `end`. */
  predicate Boundary(c: seq<Byte>, p: nat, end: nat) {
    p <= |c| && Scan(c, p) == Some(end)
  }

  /** The tokens of the first pass from `p` to the closing quote; it reserves one byte for each. */
  function Tokens(c: seq<Byte>, p: nat, end: nat): nat
    requires Boundary(c, p, end)
    decreases |c| - p
  {
    if p == end then 0 else 1 + Tokens(c, if c[p] == BACKSLASH then p + 2 else p + 1, end)
  }

  /** The loop that estimates the output size. */
  method FirstPass(c: seq<Byte>, o: nat) returns (end: Option<nat>, length: nat)
    requires o < |c| && c[o] == QUOTE
    ensures end == Scan(c, o + 1)
    ensures end.Some? ==> length == 1 + Tokens(c, o + 1, end.value)
  {
    var p, skipped := o + 1, 0;
    ghost var tokens := 0;
    while p < |c| && c[p] != QUOTE
      invariant o + 1 <= p <= |c| && Scan(c, p) == Scan(c, o + 1)
      invariant tokens == p - (o + 1) - skipped
      invariant Scan(c, p).Some? ==> Tokens(c, o + 1, Scan(c, p).value) == tokens + Tokens(c, p, Scan(c, p).value)
      decreases |c| - p
    {
      if c[p] == BACKSLASH {
        if p + 1 >= |c| {
          return None, 0;
        }
        skipped := skipped + 1;
        p := p + 1;
      }
      p := p + 1;
      tokens := tokens + 1;
    }
    if p >= |c| || c[p] != QUOTE {
      return None, 0;
    }
    return Some(p), p - o - skipped;
  }

  // ---------------------------------------------------------------- second pass

  function Unescape(b: Byte): Option<Byte> {
    if b == 0x62 then Some(0x08)
    else if b == 0x66 then Some(0x0C)
    else if b == 0x6E then Some(0x0A)
    else if b == 0x72 then Some(0x0D)
    else if b == 0x74 then Some(0x09)
    else if b == QUOTE || b == BACKSLASH || b == SLASH then Some(b)
    else None
  }

  datatype Unit = Unit(length: nat, code: nat)

  /** The code point that the `\u` at `p` denotes, with the number of bytes it takes up. */
  function Literal(c: seq<Byte>, p: nat, end: nat): (r: Option<Unit>)
    requires p < end <= |c|
    ensures r.Some? ==> r.value.code <= 0x10FFFF && p + r.value.length <= end
    ensures r.Some? ==> r.value.length == 6 || r.value.length == 12
  {
    if end - p < 6 then None
    else
      var first := Hex4(c[p + 2..p + 6]);
      if IsLow(first) then None
      else if !IsHigh(first) then Some(Unit(6, first))
      else if end - p < 12 || c[p + 6] != BACKSLASH || c[p + 7] != LOWER_U then None
      else
        var second := Hex4(c[p + 8..p + 12]);
        if !IsLow(second) then None else Some(Unit(12, Combine(first, second)))
  }

  datatype Step = Stop | Go(next: nat, bytes: seq<Byte>)

  /** One turn of the decoding loop. */
  function StepAt(c: seq<Byte>, p: nat, end: nat): (s: Step)
    requires p < end < |c|
    ensures s.Go? ==> p < s.next <= end + 1
  {
    if c[p] != BACKSLASH then Go(p + 1, [c[p]])
    else if c[p + 1] == LOWER_U then
      var u := Literal(c, p, end);
      if u.None? then Stop else Go(p + u.value.length, Encode(u.value.code))
    else
      var b := Unescape(c[p + 1]);
      if b.None? then Stop else Go(p + 2, [b.value])
  }

  function Decoded(c: seq<Byte>, p: nat, end: nat): Option<seq<Byte>>
    requires p <= end + 1 && end < |c|
    decreases end + 1 - p
  {
    if p >= end then Some([])
    else
      var s := StepAt(c, p, end);
      if s.Stop? then None
      else
        var rest := Decoded(c, s.next, end);
        if rest.None? then None else Some(s.bytes + rest.value)
  }

  /** The number of bytes the second pass writes from `p` on, whether or not it then fails. */
  function Written(c: seq<Byte>, p: nat, end: nat): nat
    requires p <= end + 1 && end < |c|
    decreases end + 1 - p
  {
    if p >= end then 0
    else
      var s := StepAt(c, p, end);
      if s.Stop? then 0 else |s.bytes| + Written(c, s.next, end)
  }

  /** `utf16_literal_to_utf8`: 0 signals failure. */
  method ConvertLiteral(c: seq<Byte>, p: nat, end: nat, output: array<Byte>, at: nat) returns (length: nat, next: nat)
    requires p < end <= |c|
    requires Literal(c, p, end).Some? ==> at + Length(Literal(c, p, end).value.code) <= output.Length
    modifies output
    ensures length == 0 <==> Literal(c, p, end).None?
    ensures length != 0 ==>
              && length == Literal(c, p, end).value.length
              && next == at + Length(Literal(c, p, end).value.code) <= output.Length
              && output[..next] == old(output[..at]) + Encode(Literal(c, p, end).value.code)
  {
    next := at;
    if end - p < 6 {
      return 0, at;
    }
    var first := ParseHex4(c[p + 2..p + 6]);
    if IsLow(first) {
      return 0, at;
    }
    var code := first;
    if IsHigh(first) {
      length := 12;
      if end - (p + 6) < 6 || c[p + 6] != BACKSLASH || c[p + 7] != LOWER_U {
        return 0, at;
      }
      var second := ParseHex4(c[p + 8..p + 12]);
      if !IsLow(second) {
        return 0, at;
      }
      code := Combine(first, second);
    } else {
      length := 6;
    }
    next := EncodeInto(code, output, at);
  }

  /** The decoding loop; every write is inside `output`. */
  method SecondPass(c: seq<Byte>, start: nat, end: nat, output: array<Byte>) returns (ok: bool, p: nat, n: nat)
    requires start <= end < |c| && Written(c, start, end) < output.Length
    modifies output
    ensures ok <==> Decoded(c, start, end).Some?
    ensures n <= output.Length && start <= p <= end + 1 && (!ok ==> p < end)
    ensures ok ==> Decoded(c, start, end).value == output[..n] && n < output.Length && output[n] == 0
  {
    p, n := start, 0;
    assert forall rest: seq<Byte> :: output[..0] + rest == rest;
    while p < end
      invariant start <= p <= end + 1 && n + Written(c, p, end) == Written(c, start, end)
      invariant Decoded(c, start, end) ==
                var rest := Decoded(c, p, end); if rest.None? then None else Some(output[..n] + rest.value)
      decreases end + 1 - p
    {
      ghost var before := output[..n];
      ghost var step := StepAt(c, p, end);
      if c[p] != BACKSLASH {
        output[n] := c[p];
        n, p := n + 1, p + 1;
      } else if c[p + 1] == LOWER_U {
        var length, next := ConvertLiteral(c, p, end, output, n);
        if length == 0 {
          return false, p, n;
        }
        n, p := next, p + length;
      } else {
        var b := Unescape(c[p + 1]);
        if b.None? {
          return false, p, n;
        }
        output[n] := b.value;
        n, p := n + 1, p + 2;
      }
      assert output[..n] == before + step.bytes && p == step.next;
      Regroup(before, step.bytes, Decoded(c, p, end));
    }
    output[n] := 0;
    assert output[..n] + [] == output[..n];
    return true, p, n;
  }

  lemma Regroup(a: seq<Byte>, b: seq<Byte>, rest: Option<seq<Byte>>)
    ensures rest.Some? ==> a + (b + rest.value) == (a + b) + rest.value
  {
  }

  // ---------------------------------------------------------------- the estimate is large enough

  /** Passing over `n` bytes, the first pass ends at the same place or one byte further on. */
  lemma {:induction false} Advance(c: seq<Byte>, p: nat, n: nat, end: nat)
    requires Boundary(c, p, end) && p + n <= end
    ensures || (Boundary(c, p + n, end) && Tokens(c, p, end) >= Tokens(c, p + n, end) + (n + 1) / 2)
            || (Boundary(c, p + n + 1, end) && Tokens(c, p, end) >= Tokens(c, p + n + 1, end) + (n + 1) / 2)
    decreases n
  {
    if n > 0 {
      if c[p] == BACKSLASH {
        if n > 1 {
          Advance(c, p + 2, n - 2, end);
        }
      } else {
        Advance(c, p + 1, n - 1, end);
      }
    }
  }

  /** Bytes that are neither quotes nor backslashes are one token each. */
  lemma {:induction false} AdvancePlain(c: seq<Byte>, p: nat, n: nat, end: nat)
    requires Boundary(c, p, end) && p + n <= |c|
    requires forall i :: p <= i < p + n ==> c[i] != QUOTE && c[i] != BACKSLASH
    ensures Boundary(c, p + n, end) && Tokens(c, p, end) == n + Tokens(c, p + n, end)
    decreases n
  {
    if n > 0 {
      AdvancePlain(c, p + 1, n - 1, end);
    }
  }

  /**
    The decoder stands at `p`, which is a boundary of the first pass or lies one byte before one.
    In the second case it may still write one byte more than there are tokens left.
  */
  ghost predicate Fits(c: seq<Byte>, p: nat, end: nat)
    requires p <= end + 1 && end < |c|
  {
    && (Boundary(c, p, end) ==> Written(c, p, end) <= Tokens(c, p, end))
    && (Boundary(c, p + 1, end) ==> Written(c, p, end) <= Tokens(c, p + 1, end) + 1)
  }

  lemma HexIsPlain(c: seq<Byte>, p: nat)
    requires p + 4 <= |c| && AllHex(c[p..p + 4])
    ensures forall i :: p <= i < p + 4 ==> c[i] != QUOTE && c[i] != BACKSLASH
  {
    forall i | p <= i < p + 4
      ensures c[i] != QUOTE && c[i] != BACKSLASH
    {
      assert c[p..p + 4][i - p] == c[i];
    }
  }

  /** A `\u` whose digits start at the boundary `q`. */
  lemma LiteralFits(c: seq<Byte>, p: nat, end: nat, q: nat)
    requires p < end < |c| && c[p] == BACKSLASH && c[p + 1] == LOWER_U && Literal(c, p, end).Some?
    requires q == p + 2 && Boundary(c, q, end)
    requires Fits(c, p + Literal(c, p, end).value.length, end)
    ensures Written(c, p, end) <= Tokens(c, q, end) + 1
  {
    var u := Literal(c, p, end).value;
    assert StepAt(c, p, end) == Go(p + u.length, Encode(u.code));
    var first := Hex4(c[p + 2..p + 6]);
    if u.length == 12 {
      HexIsPlain(c, p + 2);
      AdvancePlain(c, q, 4, end);
      PairFits(c, p, end);
    } else if first == 0 {
      Advance(c, q, 4, end);
    } else {
      HexIsPlain(c, p + 2);
      AdvancePlain(c, q, 4, end);
    }
  }

  lemma PairFits(c: seq<Byte>, p: nat, end: nat)
    requires p + 12 <= end < |c| && Boundary(c, p + 6, end)
    requires c[p + 6] == BACKSLASH && c[p + 7] == LOWER_U && Hex4(c[p + 8..p + 12]) != 0
    ensures Boundary(c, p + 12, end) && Tokens(c, p + 6, end) == 5 + Tokens(c, p + 12, end)
  {
    HexIsPlain(c, p + 8);
    assert Boundary(c, p + 8, end);
    AdvancePlain(c, p + 8, 4, end);
  }

  lemma ShortStepFits(c: seq<Byte>, p: nat, end: nat)
    requires p < end < |c| && StepAt(c, p, end).Go? && |StepAt(c, p, end).bytes| == 1
    requires !(c[p] == BACKSLASH && c[p + 1] == LOWER_U)
    requires Fits(c, StepAt(c, p, end).next, end)
    ensures Fits(c, p, end)
  {
  }

  lemma LongStepFits(c: seq<Byte>, p: nat, end: nat)
    requires p < end < |c| && StepAt(c, p, end).Go? && c[p] == BACKSLASH && c[p + 1] == LOWER_U
    requires Fits(c, StepAt(c, p, end).next, end)
    ensures Fits(c, p, end)
  {
    if Boundary(c, p, end) {
      LiteralFits(c, p, end, p + 2);
    }
    if Boundary(c, p + 1, end) {
      AdvancePlain(c, p + 1, 1, end);
      LiteralFits(c, p, end, p + 2);
    }
  }

  lemma {:induction false} SecondPassFits(c: seq<Byte>, p: nat, end: nat)
    requires p <= end + 1 && end < |c|
    ensures Fits(c, p, end)
    decreases end + 1 - p
  {
    if p < end && StepAt(c, p, end).Go? {
      SecondPassFits(c, StepAt(c, p, end).next, end);
      if c[p] == BACKSLASH && c[p + 1] == LOWER_U {
        LongStepFits(c, p, end);
      } else {
        ShortStepFits(c, p, end);
      }
    }
  }

  /** What the second pass writes, with the terminator, is within what the first pass reserved. */
  lemma EstimateSuffices(c: seq<Byte>, start: nat, end: nat)
    requires Boundary(c, start, end)
    ensures Written(c, start, end) <= Tokens(c, start, end)
  {
    SecondPassFits(c, start, end);
  }

  // ---------------------------------------------------------------- the whole decoder

  datatype Parsed<+T> = Parsed(value: T, end: nat)

  /** The decoded bytes of the string that starts at `o`, and the position after its closing quote. */
  function StringAt(c: seq<Byte>, o: nat): (r: Option<Parsed<seq<Byte>>>)
    requires o < |c|
    ensures r.Some? ==> o < r.value.end <= |c|
  {
    if c[o] != QUOTE then None
    else
      var end := Scan(c, o + 1);
      if end.None? then None
      else
        var bytes := Decoded(c, o + 1, end.value);
        if bytes.None? then None else Some(Parsed(bytes.value, end.value + 1))
  }
}
