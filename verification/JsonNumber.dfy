/**
  What `strtod` converts, described without its scan: the longest prefix that is a decimal number, a sign, digits
  with a point among them, and an exponent with digits of its own.
*/
module JsonNumber {
  import opened Utf8
  import opened JsonGrammar

  ghost predicate AllDigits(t: seq<Byte>, i: nat, j: nat) {
    i <= j <= |t| && forall k :: i <= k < j ==> 0x30 <= t[k] <= 0x39
  }

  /** Digits up to `j`, a point and digits up to `k` if it is not `j`; one digit at least. */
  ghost predicate IsMantissa(t: seq<Byte>, i: nat, j: nat, k: nat) {
    && (i == 0 || (i == 1 && |t| > 0 && (t[0] == 0x2B || t[0] == 0x2D)))
    && AllDigits(t, i, j) && j <= k <= |t|
    && (if j == k then j > i else t[j] == 0x2E && AllDigits(t, j + 1, k) && (j > i || k > j + 1))
  }

  /** Nothing, or `e` or `E`, a sign if any, and at least one digit, from `d` on. */
  ghost predicate IsExponentPart(t: seq<Byte>, k: nat, d: nat) {
    k == |t| || (
      && k < d < |t| && (t[k] == 0x45 || t[k] == 0x65) && AllDigits(t, d, |t|)
      && (d == k + 1 || (d == k + 2 && (t[k + 1] == 0x2B || t[k + 1] == 0x2D))))
  }

  ghost predicate DecimalParts(t: seq<Byte>, i: nat, j: nat, k: nat, d: nat) {
    IsMantissa(t, i, j, k) && IsExponentPart(t, k, d)
  }

  ghost predicate Decimal(t: seq<Byte>) {
    exists i: nat, j: nat, k: nat, d: nat :: DecimalParts(t, i, j, k, d)
  }

  lemma {:induction false} RunIsDigits(t: seq<Byte>, i: nat)
    requires i <= |t|
    ensures var e := i + DigitRun(t, i);
            AllDigits(t, i, e) && (e < |t| ==> !(0x30 <= t[e] <= 0x39))
    decreases |t| - i
  {
    if i < |t| && IsDigit(t[i]) {
      RunIsDigits(t, i + 1);
    }
  }

  /** No run of digits goes further. */
  lemma RunIsLongest(t: seq<Byte>, i: nat, j: nat)
    requires AllDigits(t, i, j)
    ensures j <= i + DigitRun(t, i)
  {
    RunIsDigits(t, i);
  }

  /** The mantissa that the scan finds is one, with the place of its point. */
  lemma MantissaIs(t: seq<Byte>)
    ensures var n := MantissaEnd(t);
            n > 0 ==> exists i: nat, j: nat :: IsMantissa(t, i, j, n)
  {
    var start := if |t| > 0 && IsSign(t[0]) then 1 else 0;
    var whole := start + DigitRun(t, start);
    RunIsDigits(t, start);
    if whole < |t| && t[whole] == POINT {
      RunIsDigits(t, whole + 1);
    }
    if MantissaEnd(t) > 0 {
      assert IsMantissa(t, start, whole, MantissaEnd(t));
    }
  }

  /** Every mantissa of the text ends there or before, and before an exponent it is that one. */
  lemma MantissaIsLongest(t: seq<Byte>, i: nat, j: nat, k: nat)
    requires IsMantissa(t, i, j, k)
    ensures 0 < k <= MantissaEnd(t)
    ensures k < |t| && t[k] != 0x2E && !(0x30 <= t[k] <= 0x39) ==> k == MantissaEnd(t)
  {
    var start := if |t| > 0 && IsSign(t[0]) then 1 else 0;
    assert i == start;
    var whole := start + DigitRun(t, start);
    RunIsDigits(t, start);
    RunIsLongest(t, start, j);
    if j < k {
      assert j == whole;
      RunIsDigits(t, whole + 1);
      RunIsLongest(t, whole + 1, k);
    }
  }

  lemma ExponentIs(t: seq<Byte>, m: nat)
    requires m <= |t|
    ensures var n := ExponentEnd(t, m);
            exists d: nat :: IsExponentPart(t[..n], m, d)
  {
    var n := ExponentEnd(t, m);
    if n == m {
      assert IsExponentPart(t[..n], m, m);
    } else {
      var d := if m + 1 < |t| && IsSign(t[m + 1]) then m + 2 else m + 1;
      RunIsDigits(t, d);
      assert IsExponentPart(t[..n], m, d);
    }
  }

  lemma ExponentIsLongest(t: seq<Byte>, m: nat, e: nat, d: nat)
    requires m <= e <= |t| && IsExponentPart(t[..e], m, d)
    ensures e <= ExponentEnd(t, m)
  {
    if m < e {
      var p := t[..e];
      assert p[m] == t[m] && p[d] == t[d] && p[m + 1] == t[m + 1];
      assert AllDigits(t, d, e) by {
        assert forall k :: d <= k < e ==> t[k] == p[k];
      }
      RunIsLongest(t, d, e);
    }
  }

  /** A mantissa is one in every text that begins like that. */
  lemma MantissaOfPrefix(t: seq<Byte>, e: nat, i: nat, j: nat, k: nat)
    requires k <= e <= |t|
    ensures IsMantissa(t[..e], i, j, k) <==> IsMantissa(t, i, j, k)
  {
    var p := t[..e];
    assert forall x :: 0 <= x < e ==> p[x] == t[x];
    if e == 0 {
      assert !IsMantissa(t, i, j, k);
    }
  }

  /** What is converted is a decimal number, and no longer prefix of the text is one. */
  lemma StrtodIsLongest(t: seq<Byte>)
    ensures StrtodLength(t) > 0 ==> Decimal(t[..StrtodLength(t)])
    ensures forall e :: StrtodLength(t) < e <= |t| ==> !Decimal(t[..e])
  {
    var m, n := MantissaEnd(t), StrtodLength(t);
    hide MantissaEnd, ExponentEnd, IsMantissa, IsExponentPart;
    MantissaIs(t);
    if n > 0 {
      var i: nat, j: nat :| IsMantissa(t, i, j, m);
      MantissaOfPrefix(t, n, i, j, m);
      ExponentIs(t, m);
      var d: nat :| IsExponentPart(t[..n], m, d);
      assert DecimalParts(t[..n], i, j, m, d);
    }
    forall e | n < e <= |t| ensures !Decimal(t[..e]) {
      if Decimal(t[..e]) {
        var i: nat, j: nat, k: nat, d: nat :| DecimalParts(t[..e], i, j, k, d);
        NothingLonger(t, e, i, j, k, d);
      }
    }
  }

  lemma NothingLonger(t: seq<Byte>, e: nat, i: nat, j: nat, k: nat, d: nat)
    requires e <= |t| && DecimalParts(t[..e], i, j, k, d)
    ensures e <= StrtodLength(t)
  {
    assert k <= e && (k < e ==> t[..e][k] == t[k] && (t[k] == 0x45 || t[k] == 0x65)) by {
      hide AllDigits;
    }
    MantissaOfPrefix(t, e, i, j, k);
    hide MantissaEnd, ExponentEnd, IsMantissa, IsExponentPart;
    MantissaIsLongest(t, i, j, k);
    if k < e {
      ExponentIsLongest(t, k, e, d);
    }
  }
}
