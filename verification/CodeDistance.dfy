/** How much damage the error-correction symbols survive: two codewords of a length
    the field allows differ in at least nineteen symbols. */
module CodeDistance {
  import opened GaloisField
  import opened ReedSolomon

  // ---- Sparse polynomials ----

  /** coef times x to the power at. */
  datatype Term = Term(coef: Elem, at: nat)

  /** The value of the sum of the terms at the k-th power of the generator. */
  function TermSum(ts: seq<Term>, k: nat): Elem {
    if ts == [] then ZERO else
      var n := |ts| - 1;
      Xor(TermSum(ts[..n], k), Times(ts[n].at * k, ts[n].coef))
  }

  ghost predicate Spread(ts: seq<Term>) {
    && (forall i | 0 <= i < |ts| :: ts[i].at < 255)
    && forall i, j | 0 <= i < j < |ts| :: ts[i].at != ts[j].at
  }

  lemma SumSnoc(ts: seq<Term>, t: Term, k: nat)
    ensures TermSum(ts + [t], k) == Xor(TermSum(ts, k), Times(t.at * k, t.coef))
  {
    hide Xor, Times;
    assert (ts + [t])[..|ts|] == ts;
  }

  /** Each term times (x^at - x^e), which drops the term at e. */
  function Reduce(ts: seq<Term>, e: nat): (r: seq<Term>)
    ensures |r| == |ts|
  {
    seq(|ts|, i requires 0 <= i < |ts| =>
      Term(Xor(Times(ts[i].at, ts[i].coef), Times(e, ts[i].coef)), ts[i].at))
  }

  lemma ReduceTerm(t: Term, e: nat, k: nat)
    ensures Times(t.at * k, Xor(Times(t.at, t.coef), Times(e, t.coef)))
         == Xor(Times(t.at * (k + 1), t.coef), Times(e, Times(t.at * k, t.coef)))
  {
    hide Xor, Times;
    TimesXor(t.at * k, Times(t.at, t.coef), Times(e, t.coef));
    TimesTimes(t.at * k, t.at, t.coef);
    TimesTimes(t.at * k, e, t.coef);
    TimesTimes(e, t.at * k, t.coef);
    assert t.at * k + t.at == t.at * (k + 1);
  }

  lemma {:induction false} ReduceSum(ts: seq<Term>, e: nat, k: nat)
    ensures TermSum(Reduce(ts, e), k) == Xor(TermSum(ts, k + 1), Times(e, TermSum(ts, k)))
  {
    hide Xor, Times;
    if ts == [] {
      TimesZero(e, ZERO);
      XorCancel(ZERO, ZERO);
    } else {
      var n := |ts| - 1;
      var rest, t := ts[..n], ts[n];
      assert Reduce(ts, e)[..n] == Reduce(rest, e);
      ReduceSum(rest, e, k);
      ReduceTerm(t, e, k);
      TimesXor(e, TermSum(rest, k), Times(t.at * k, t.coef));
      XorSwap(TermSum(rest, k + 1), Times(e, TermSum(rest, k)),
              Times(t.at * (k + 1), t.coef), Times(e, Times(t.at * k, t.coef)));
    }
  }

  /** Eliminating the last term from two successive equations. */
  lemma Eliminate(rest: seq<Term>, t: Term, k: nat)
    requires TermSum(rest + [t], k) == ZERO && TermSum(rest + [t], k + 1) == ZERO
    ensures TermSum(Reduce(rest, t.at), k) == ZERO
  {
    hide Xor, Times, TermSum;
    SumSnoc(rest, t, k);
    SumSnoc(rest, t, k + 1);
    XorCancel(TermSum(rest, k), Times(t.at * k, t.coef));
    XorCancel(TermSum(rest, k + 1), Times(t.at * (k + 1), t.coef));
    ReduceSum(rest, t.at, k);
    TimesTimes(t.at, t.at * k, t.coef);
    assert t.at + t.at * k == t.at * (k + 1);
    XorCancel(TermSum(rest, k + 1), TermSum(rest, k + 1));
  }

  lemma {:induction false} ZeroTerms(ts: seq<Term>, k: nat)
    requires forall i | 0 <= i < |ts| :: ts[i].coef == ZERO
    ensures TermSum(ts, k) == ZERO
  {
    hide Xor, Times;
    if ts != [] {
      var n := |ts| - 1;
      ZeroTerms(ts[..n], k);
      TimesZero(ts[n].at * k, ZERO);
      XorCancel(ZERO, ZERO);
    }
  }

  /** A sum of n terms at different powers that vanishes at the first n powers of the
      generator has only zero coefficients. */
  lemma {:induction false} Vandermonde(ts: seq<Term>)
    requires Spread(ts) && forall k: nat | k < |ts| :: TermSum(ts, k) == ZERO
    ensures forall i | 0 <= i < |ts| :: ts[i].coef == ZERO
    decreases |ts|
  {
    hide Xor, Times, TermSum;
    if ts != [] {
      var n := |ts| - 1;
      var rest, t := ts[..n], ts[n];
      assert ts == rest + [t];
      forall k: nat | k < n
        ensures TermSum(Reduce(rest, t.at), k) == ZERO
      {
        Eliminate(rest, t, k);
      }
      Vandermonde(Reduce(rest, t.at));
      forall i | 0 <= i < n
        ensures rest[i].coef == ZERO
      {
        var c := rest[i].coef;
        assert Reduce(rest, t.at)[i].coef == ZERO;
        XorCancel(Times(rest[i].at, c), Times(t.at, c));
        DistinctRoots(rest[i].at, t.at, c);
      }
      ZeroTerms(rest, 0);
      SumSnoc(rest, t, 0);
      TimesNought(t.coef);
      XorCancel(ZERO, t.coef);
    }
  }

  lemma NothingLeft(ts: seq<Term>)
    requires Spread(ts) && forall i | 0 <= i < |ts| :: ts[i].coef != ZERO
    requires forall k: nat | k < |ts| :: TermSum(ts, k) == ZERO
    ensures ts == []
  {
    hide TermSum;
    if ts != [] {
      assert ts[0].coef != ZERO;
      Vandermonde(ts);
    }
  }

  // ---- The nonzero symbols of a word ----

  function Raised(ts: seq<Term>): (r: seq<Term>)
    ensures |r| == |ts|
  {
    seq(|ts|, i requires 0 <= i < |ts| => Term(ts[i].coef, ts[i].at + 1))
  }

  function Support(p: seq<Elem>): seq<Term> {
    if p == [] then [] else
      var n := |p| - 1;
      Raised(Support(p[..n])) + if p[n] == ZERO then [] else [Term(p[n], 0)]
  }

  lemma {:induction false} RaisedSum(ts: seq<Term>, k: nat)
    ensures TermSum(Raised(ts), k) == Times(k, TermSum(ts, k))
  {
    hide Xor, Times;
    if ts == [] {
      TimesZero(k, ZERO);
    } else {
      var n := |ts| - 1;
      var t := ts[n];
      assert Raised(ts)[..n] == Raised(ts[..n]);
      RaisedSum(ts[..n], k);
      TimesXor(k, TermSum(ts[..n], k), Times(t.at * k, t.coef));
      TimesTimes(k, t.at * k, t.coef);
      assert k + t.at * k == (t.at + 1) * k;
    }
  }

  /** The support is the same polynomial. */
  lemma {:induction false} SupportSum(p: seq<Elem>, k: nat)
    ensures TermSum(Support(p), k) == Eval(p, k)
  {
    hide Xor, Times, TermSum;
    if p == [] {
      ZeroTerms([], k);
    } else {
      var n := |p| - 1;
      var ts := Raised(Support(p[..n]));
      SupportSum(p[..n], k);
      RaisedSum(Support(p[..n]), k);
      if p[n] == ZERO {
        assert ts + [] == ts;
        XorCancel(TermSum(ts, k), ZERO);
      } else {
        SumSnoc(ts, Term(p[n], 0), k);
        TimesNought(p[n]);
      }
    }
  }

  lemma {:induction false} SupportShape(p: seq<Elem>)
    ensures forall i | 0 <= i < |Support(p)| :: Support(p)[i].coef != ZERO && Support(p)[i].at < |p|
    ensures forall i, j | 0 <= i < j < |Support(p)| :: Support(p)[i].at != Support(p)[j].at
  {
    if p != [] { SupportShape(p[..|p| - 1]); }
  }

  // ---- Distance ----

  /** The number of places where two words differ. */
  function Differences(p: seq<Elem>, q: seq<Elem>): nat
    requires |p| == |q|
  {
    if p == [] then 0 else
      var n := |p| - 1;
      Differences(p[..n], q[..n]) + if p[n] == q[n] then 0 else 1
  }

  lemma {:induction false} SupportCounts(p: seq<Elem>, q: seq<Elem>)
    requires |p| == |q|
    ensures |Support(Sum(p, q))| == Differences(p, q)
  {
    hide Xor;
    if p != [] {
      var n := |p| - 1;
      SupportCounts(p[..n], q[..n]);
      assert Sum(p, q)[..n] == Sum(p[..n], q[..n]);
      XorCancel(p[n], q[n]);
    }
  }

  lemma {:induction false} NoDifference(p: seq<Elem>, q: seq<Elem>)
    requires |p| == |q| && Differences(p, q) == 0
    ensures p == q
  {
    if p != [] {
      var n := |p| - 1;
      NoDifference(p[..n], q[..n]);
      assert p == p[..n] + [p[n]] && q == q[..n] + [q[n]];
    }
  }

  /** Two different codewords of the same length up to 255 differ in at least nineteen
      symbols. */
  lemma MinimumDistance(p: seq<Elem>, q: seq<Elem>)
    requires |p| == |q| <= 255 && Codeword(p) && Codeword(q) && p != q
    ensures Differences(p, q) >= 19
  {
    hide Eval, Xor, TermSum, Support;
    var ts := Support(Sum(p, q));
    SupportCounts(p, q);
    SupportShape(Sum(p, q));
    if |ts| <= N {
      forall k: nat | k < |ts|
        ensures TermSum(ts, k) == ZERO
      {
        EvalSum(p, q, k);
        XorCancel(ZERO, ZERO);
        SupportSum(Sum(p, q), k);
      }
      NothingLeft(ts);
      NoDifference(p, q);
    }
  }

  lemma {:induction false} Triangle(p: seq<Elem>, w: seq<Elem>, q: seq<Elem>)
    requires |p| == |w| == |q|
    ensures Differences(p, q) <= Differences(w, p) + Differences(w, q)
  {
    if p != [] {
      var n := |p| - 1;
      Triangle(p[..n], w[..n], q[..n]);
    }
  }

  /** Up to nine wrong symbols leave the codeword determined. */
  lemma CorrectsNine(w: seq<Elem>, p: seq<Elem>, q: seq<Elem>)
    requires |w| == |p| == |q| <= 255 && Codeword(p) && Codeword(q)
    requires Differences(w, p) <= 9 && Differences(w, q) <= 9
    ensures p == q
  {
    Triangle(p, w, q);
    if p != q { MinimumDistance(p, q); }
  }
}
