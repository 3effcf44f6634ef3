/** The check of strings that applications pass in: a bounded, terminated, roughly UTF-8 text. */
module StringValidate {
  import opened Utf8
  import opened JsonStringGrammar

  predicate IsPrintable(b: Byte) { 0x20 <= b < 0x7F }

  predicate IsTrail(b: Byte) { 0x80 <= b < 0xC0 }

  /** How many trailing bytes a byte announces; 0 when it starts no multi-byte character. */
  function Announced(b: Byte): (k: nat)
    ensures k <= 3
  {
    if 0xC0 <= b < 0xE0 then 1 else if 0xE0 <= b < 0xF0 then 2 else if 0xF0 <= b < 0xF8 then 3 else 0
  }

  predicate Trails(s: seq<Byte>, p: nat, n: nat) {
    n <= |s| && forall i :: p <= i < n ==> IsTrail(s[i])
  }

  /** From `p` to `n` stand printable characters and lead bytes with the trailing bytes they announce. */
  predicate WellFormed(s: seq<Byte>, p: nat, n: nat)
    requires n <= |s|
    decreases n - p
  {
    if p >= n then p == n
    else if IsPrintable(s[p]) then WellFormed(s, p + 1, n)
    else
      var k := Announced(s[p]);
      k > 0 && p + 1 + k <= n && Trails(s, p + 1, p + 1 + k) && WellFormed(s, p + 1 + k, n)
  }

  /** Index of the terminator, or `|s|`. */
  function Terminator(s: seq<Byte>): (n: nat)
    ensures n <= |s| && (n < |s| ==> s[n] == 0)
    ensures forall i :: 0 <= i < n ==> s[i] != 0
  {
    if s == [] || s[0] == 0 then 0
    else
      var n := Terminator(s[1..]);
      assert forall i :: 1 <= i < n + 1 ==> s[i] == s[1..][i - 1];
      n + 1
  }

  /** The string ends within the limit and is well formed up to its terminator. */
  predicate Acceptable(s: seq<Byte>, max: nat) {
    Terminator(s) < |s| && Terminator(s) <= max && WellFormed(s, 0, Terminator(s))
  }

  datatype Flags = Flags(tooLong: bool, badData: bool)

  const NONE := Flags(false, false)

  /** The scan over the trailing bytes; `ended` says that it met the terminator and the caller returns. */
  method ScanTrails(s: seq<Byte>, start: nat, count: nat, max: nat, before: Flags)
    returns (i: nat, flags: Flags, ended: bool)
    requires start < max && start < Terminator(s) && (max < |s| || Terminator(s) < |s|)
    ensures ended ==> flags.badData
    ensures !ended ==> start <= i <= max && (i < Terminator(s) || i == max)
    ensures before != NONE ==> flags != NONE
    ensures before == NONE && Terminator(s) <= max ==>
              (flags == NONE <==> start + 1 + count <= Terminator(s) && start + count < max
                                  && Trails(s, start + 1, start + 1 + count))
    ensures flags == NONE ==> i == start + count < max
  {
    i, flags, ended := start, before, false;
    var j := 0;
    while j < count && i < max
      invariant 0 <= j <= count && i == start + j < max && i < Terminator(s)
      invariant before != NONE ==> flags != NONE
      invariant before == NONE ==> (flags == NONE <==> Trails(s, start + 1, i + 1))
    {
      i := i + 1;
      if i == max {
        flags := flags.(tooLong := true);
        return;
      }
      if s[i] == 0 {
        flags := flags.(badData := true);
        return i, flags, true;
      }
      if !IsTrail(s[i]) {
        flags := flags.(badData := true);
      }
      j := j + 1;
    }
  }

  /** `vk_string_validate` on a string that is readable up to its terminator or the limit. */
  method Validate(max: nat, s: seq<Byte>) returns (flags: Flags)
    requires max < |s| || Terminator(s) < |s|
    ensures flags == NONE <==> Acceptable(s, max)
  {
    flags := NONE;
    var count := 0;
    var i := 0;
    ghost var n := Terminator(s);
    while i <= max
      invariant 0 <= i <= max + 1 && (i <= n || i == max + 1)
      invariant flags == NONE ==> i <= n && i <= max
      invariant flags == NONE ==> (Acceptable(s, max) <==> n < |s| && n <= max && WellFormed(s, i, n))
      invariant flags != NONE ==> !Acceptable(s, max)
    {
      if s[i] == 0 {
        break;
      }
      if i == max {
        flags := flags.(tooLong := true);
        break;
      }
      if IsPrintable(s[i]) {
        count := 0;
      } else if Announced(s[i]) > 0 {
        count := Announced(s[i]);
      } else {
        flags := Flags(false, true);
      }
      assert i < n;
      var ended;
      i, flags, ended := ScanTrails(s, i, count, max, flags);
      if ended {
        return;
      }
      i := i + 1;
    }
  }

  // ---------------------------------------------------------------- what is acceptable, character by character

  /** A printable ASCII character, or a lead byte with one, two or three bytes from 0x80 to 0xBF. */
  predicate IsCharacter(c: seq<Byte>) {
    && (|c| == 1 ==> 0x20 <= c[0] <= 0x7E)
    && (|c| == 2 ==> 0xC0 <= c[0] <= 0xDF)
    && (|c| == 3 ==> 0xE0 <= c[0] <= 0xEF)
    && (|c| == 4 ==> 0xF0 <= c[0] <= 0xF7)
    && 1 <= |c| <= 4 && forall k :: 1 <= k < |c| ==> 0x80 <= c[k] <= 0xBF
  }

  function Joined(cs: seq<seq<Byte>>): seq<Byte> {
    if cs == [] then [] else cs[0] + Joined(cs[1..])
  }

  predicate AllCharacters(cs: seq<seq<Byte>>) {
    forall k :: 0 <= k < |cs| ==> IsCharacter(cs[k])
  }

  lemma CharacterParts(c: seq<Byte>)
    requires IsCharacter(c)
    ensures 0 !in c && (|c| == 1 <==> IsPrintable(c[0])) && (|c| > 1 ==> Announced(c[0]) == |c| - 1)
    ensures forall k :: 1 <= k < |c| ==> IsTrail(c[k])
  {
  }

  lemma CharacterFits(s: seq<Byte>, p: nat, n: nat, c: seq<Byte>)
    requires p + |c| <= n <= |s| && s[p..p + |c|] == c && IsCharacter(c)
    ensures WellFormed(s, p, n) <==> WellFormed(s, p + |c|, n)
  {
    CharacterParts(c);
    hide IsCharacter, IsPrintable, Announced, IsTrail;
    assert forall k :: 0 <= k < |c| ==> s[p + k] == s[p..p + |c|][k] == c[k];
    assert Trails(s, p + 1, p + |c|) by {
      assert forall i :: p + 1 <= i < p + |c| ==> s[i] == c[i - p];
    }
  }

  lemma {:induction false} CharactersAreWellFormed(s: seq<Byte>, p: nat, cs: seq<seq<Byte>>)
    requires AllCharacters(cs) && p + |Joined(cs)| <= |s| && s[p..p + |Joined(cs)|] == Joined(cs)
    ensures WellFormed(s, p, p + |Joined(cs)|) && 0 !in Joined(cs)
    decreases |cs|
  {
    hide IsCharacter;
    if cs != [] {
      var c, rest := cs[0], Joined(cs[1..]);
      SplitSlice(s, p, c, rest);
      CharactersAreWellFormed(s, p + |c|, cs[1..]);
      hide WellFormed;
      CharacterFits(s, p, p + |c + rest|, c);
      CharacterParts(c);
    }
  }

  /** The first character of a well formed text. */
  lemma FirstCharacter(s: seq<Byte>, p: nat, n: nat) returns (c: seq<Byte>)
    requires p < n <= |s| && WellFormed(s, p, n)
    ensures IsCharacter(c) && p + |c| <= n && s[p..p + |c|] == c && WellFormed(s, p + |c|, n)
  {
    var k := if IsPrintable(s[p]) then 0 else Announced(s[p]);
    c := s[p..p + 1 + k];
    assert forall i :: 1 <= i < |c| ==> c[i] == s[p + i];
    hide WellFormed;
  }

  lemma {:induction false} WellFormedHasCharacters(s: seq<Byte>, p: nat, n: nat) returns (cs: seq<seq<Byte>>)
    requires p <= n <= |s| && WellFormed(s, p, n)
    ensures AllCharacters(cs) && Joined(cs) == s[p..n]
    decreases n - p
  {
    cs := [];
    if p < n {
      hide IsCharacter, WellFormed;
      var c := FirstCharacter(s, p, n);
      assert |c| > 0 by {
        CharacterIsNotEmpty(c);
      }
      var rest := WellFormedHasCharacters(s, p + |c|, n);
      cs := [c] + rest;
      assert cs[1..] == rest && s[p..n] == s[p..p + |c|] + s[p + |c|..n];
    }
  }

  lemma CharacterIsNotEmpty(c: seq<Byte>)
    requires IsCharacter(c)
    ensures |c| > 0
  {
  }

  /** A string is acceptable if and only if it is such characters, within the limit, and a zero byte. */
  lemma AcceptableIff(s: seq<Byte>, max: nat)
    ensures Acceptable(s, max) <==>
      exists cs :: AllCharacters(cs) && |Joined(cs)| <= max && Joined(cs) + [0] <= s
  {
    hide IsCharacter, WellFormed;
    if Acceptable(s, max) {
      var n := Terminator(s);
      var cs := WellFormedHasCharacters(s, 0, n);
      assert Joined(cs) + [0] == s[..n + 1];
    }
    if cs :| AllCharacters(cs) && |Joined(cs)| <= max && Joined(cs) + [0] <= s {
      var n := |Joined(cs)|;
      assert s[0..0 + n] == Joined(cs) by {
        assert (Joined(cs) + [0])[..n] == Joined(cs);
      }
      CharactersAreWellFormed(s, 0, cs);
      assert s[n] == (Joined(cs) + [0])[n];
      forall i | 0 <= i < n ensures s[i] != 0 {
        assert s[i] == Joined(cs)[i];
      }
      assert Terminator(s) == n;
    }
  }

  // ---------------------------------------------------------------- decoded escapes are acceptable

  /** A scalar value other than the control characters the check refuses. */
  predicate IsTextual(u: nat) {
    IsScalar(u) && u >= 0x20 && u != 0x7F
  }

  predicate AllTextual(us: seq<nat>) {
    forall k :: 0 <= k < |us| ==> IsTextual(us[k])
  }

  /** The encoding of one such character: a printable byte, or a lead byte and what it announces. */
  lemma EncodedShape(u: nat)
    requires IsTextual(u)
    ensures var e := Encode(u);
            && (forall i :: 0 <= i < |e| ==> e[i] != 0)
            && (|e| == 1 ==> IsPrintable(e[0]))
            && (|e| > 1 ==> !IsPrintable(e[0]) && Announced(e[0]) == |e| - 1)
            && (forall i :: 1 <= i < |e| ==> IsTrail(e[i]))
  {
  }

  lemma CharacterIsWellFormed(s: seq<Byte>, p: nat, n: nat, u: nat)
    requires IsTextual(u) && p + |Encode(u)| <= n <= |s| && s[p..p + |Encode(u)|] == Encode(u)
    requires WellFormed(s, p + |Encode(u)|, n)
    ensures WellFormed(s, p, n)
  {
    var e := Encode(u);
    EncodedShape(u);
    hide Encode, IsTextual;
    assert forall i :: 0 <= i < |e| ==> s[p + i] == s[p..p + |e|][i] == e[i];
    assert Trails(s, p + 1, p + |e|) by {
      forall i | p + 1 <= i < p + |e|
        ensures IsTrail(s[i])
      {
        assert s[i] == e[i - p];
      }
    }
  }

  lemma SplitSlice(s: seq<Byte>, p: nat, a: seq<Byte>, b: seq<Byte>)
    requires p + |a| + |b| <= |s| && s[p..p + |a + b|] == a + b
    ensures s[p..p + |a|] == a && s[p + |a|..p + |a| + |b|] == b
  {
    assert s[p..p + |a|] == (a + b)[..|a|];
    assert s[p + |a|..p + |a| + |b|] == (a + b)[|a|..];
  }

  lemma TextParts(us: seq<nat>)
    requires AllTextual(us) && AllScalar(us) && us != []
    ensures IsTextual(us[0]) && us[0] <= 0x10FFFF && AllTextual(us[1..]) && AllScalar(us[1..])
    ensures EncodeAll(us) == Encode(us[0]) + EncodeAll(us[1..])
  {
    hide Encode;
    assert IsTextual(us[0]);
  }

  lemma {:induction false} TextIsWellFormed(s: seq<Byte>, p: nat, us: seq<nat>)
    requires AllTextual(us) && AllScalar(us) && p + |EncodeAll(us)| <= |s| && s[p..p + |EncodeAll(us)|] == EncodeAll(us)
    ensures WellFormed(s, p, p + |EncodeAll(us)|)
    decreases |us|
  {
    hide Encode, IsTextual, IsScalar, AllTextual, AllScalar, IsPrintable, Announced, Trails;
    if us != [] {
      hide WellFormed, EncodeAll;
      TextParts(us);
      var e, rest := Encode(us[0]), EncodeAll(us[1..]);
      SplitSlice(s, p, e, rest);
      TextIsWellFormed(s, p + |e|, us[1..]);
      assert p + |EncodeAll(us)| == p + |e| + |rest|;
      CharacterIsWellFormed(s, p, p + |EncodeAll(us)|, us[0]);
    }
  }

  lemma {:induction false} TextHasNoZero(us: seq<nat>, i: nat)
    requires AllTextual(us) && AllScalar(us) && i < |EncodeAll(us)|
    ensures EncodeAll(us)[i] != 0
    decreases |us|
  {
    var e, rest := Encode(us[0]), EncodeAll(us[1..]);
    assert IsTextual(us[0]);
    EncodedShape(us[0]);
    hide Encode;
    assert EncodeAll(us) == e + rest;
    if i >= |e| {
      TextHasNoZero(us[1..], i - |e|);
    }
  }

  /** What the JSON parser decodes from escapes passes the check, if it is short enough. */
  lemma EscapedTextIsAcceptable(us: seq<nat>, max: nat)
    requires AllTextual(us) && AllScalar(us) && |EncodeAll(us)| <= max
    ensures Acceptable(EncodeAll(us) + [0], max)
  {
    var e := EncodeAll(us);
    var s := e + [0];
    hide EncodeAll;
    forall i | 0 <= i < |e|
      ensures s[i] != 0
    {
      TextHasNoZero(us, i);
    }
    assert s[|e|] == 0;
    assert Terminator(s) == |e|;
    assert s[0..0 + |e|] == e;
    TextIsWellFormed(s, 0, us);
  }
}
