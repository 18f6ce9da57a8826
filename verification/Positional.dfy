/** Big-endian numbers: digit strings in a fixed base and the naturals they
    denote. Shared by the base32 codec, the packet counter and the wire format. */
module Positional {

  function Pow(b: nat, n: nat): (r: nat)
    ensures b > 0 ==> r > 0
  {
    if n == 0 then 1 else
      var p := Pow(b, n - 1);
      assert b > 0 ==> b * p > 0;
      b * p
  }

  ghost predicate AreDigits(b: nat, s: seq<nat>) {
    forall i | 0 <= i < |s| :: s[i] < b
  }

  /** The natural a digit string denotes, most significant digit first. */
  function Value(b: nat, s: seq<nat>): nat {
    if s == [] then 0 else Value(b, s[..|s| - 1]) * b + s[|s| - 1]
  }

  /** The n low-order digits of v. */
  function Digits(b: nat, n: nat, v: nat): (s: seq<nat>)
    requires b > 0
    ensures |s| == n && AreDigits(b, s)
  {
    if n == 0 then [] else Digits(b, n - 1, v / b) + [v % b]
  }

  lemma ValueSnoc(b: nat, s: seq<nat>, d: nat)
    ensures Value(b, s + [d]) == Value(b, s) * b + d
  {
    assert (s + [d])[..|s|] == s;
  }

  lemma {:induction false} ValueBound(b: nat, s: seq<nat>)
    requires AreDigits(b, s)
    ensures Value(b, s) < Pow(b, |s|)
  {
    if s != [] {
      var n := |s| - 1;
      ValueBound(b, s[..n]);
      var v, p, d := Value(b, s[..n]), Pow(b, n), s[n];
      assert v + 1 <= p;
      assert (v + 1) * b <= p * b by { MulMono(v + 1, p, b); }
      assert v * b + d < (v + 1) * b;
    }
  }

  lemma MulMono(x: nat, y: nat, k: nat)
    requires x <= y
    ensures x * k <= y * k
  {
  }

  /** Quotient and remainder are determined by their defining equation. */
  lemma DivModUnique(x: nat, d: nat, q: nat, r: nat)
    requires d > 0 && r < d && x == q * d + r
    ensures x / d == q && x % d == r
  {
    var q', r' := x / d, x % d;
    assert x == q' * d + r';
    if q' < q {
      MulMono(q' + 1, q, d);
    } else if q < q' {
      MulMono(q + 1, q', d);
    }
  }

  /** Reading the digits back out of the value of a digit string. */
  lemma {:induction false} DigitsOfValue(b: nat, s: seq<nat>)
    requires b > 0 && AreDigits(b, s)
    ensures Digits(b, |s|, Value(b, s)) == s
  {
    if s != [] {
      var n := |s| - 1;
      DigitsOfValue(b, s[..n]);
      DivModUnique(Value(b, s), b, Value(b, s[..n]), s[n]);
    }
  }

  lemma DivBound(v: nat, b: nat, p: nat)
    requires b > 0 && v < b * p
    ensures v / b < p && v == (v / b) * b + v % b
  {
    if v / b >= p { MulMono(p, v / b, b); }
  }

  lemma {:induction false} ValueOfDigits(b: nat, n: nat, v: nat)
    requires b > 0 && v < Pow(b, n)
    ensures Value(b, Digits(b, n, v)) == v
  {
    if n > 0 {
      var p := Pow(b, n - 1);
      DivBound(v, b, p);
      ValueOfDigits(b, n - 1, v / b);
      ValueSnoc(b, Digits(b, n - 1, v / b), v % b);
    }
  }

  /** Digit strings of equal length and equal value are equal. */
  lemma ValueInjective(b: nat, s: seq<nat>, t: seq<nat>)
    requires b > 0 && AreDigits(b, s) && AreDigits(b, t)
    requires |s| == |t| && Value(b, s) == Value(b, t)
    ensures s == t
  {
    DigitsOfValue(b, s);
    DigitsOfValue(b, t);
  }
}
