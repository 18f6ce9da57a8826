/** The error-correction codewords of the QR encoder: 18 symbols that complete
    a data block of any length to a polynomial vanishing at the powers 0..17
    of the field's generator (ISO/IEC 18004:2015, section 7.5.2). */
module ReedSolomon {
  import opened GaloisField

  const N: nat := 18

  // ---- Polynomials, highest coefficient first ----

  /** The value at the k-th power of the generator, by Horner's rule. */
  function Eval(p: seq<Elem>, k: nat): Elem {
    if p == [] then ZERO else Xor(Times(k, Eval(p[..|p| - 1], k)), p[|p| - 1])
  }

  function Sum(p: seq<Elem>, q: seq<Elem>): (s: seq<Elem>)
    requires |p| == |q|
    ensures |s| == |p|
  {
    seq(|p|, i requires 0 <= i < |p| => Xor(p[i], q[i]))
  }

  function Scale(p: seq<Elem>, c: Elem): (s: seq<Elem>)
    ensures |s| == |p|
  {
    seq(|p|, i requires 0 <= i < |p| => PolyMul(p[i], c))
  }

  /** A codeword: zero at the first eighteen powers. */
  ghost predicate Codeword(p: seq<Elem>) {
    forall k: nat | k < N :: Eval(p, k) == ZERO
  }

  lemma EvalSnoc(p: seq<Elem>, c: Elem, k: nat)
    ensures Eval(p + [c], k) == Xor(Times(k, Eval(p, k)), c)
  {
    hide Times, Xor;
    assert (p + [c])[..|p|] == p;
  }

  lemma XorSwap(a: Elem, b: Elem, c: Elem, d: Elem)
    ensures Xor(Xor(a, b), Xor(c, d)) == Xor(Xor(a, c), Xor(b, d))
  {
    hide Xor;
    XorAssoc(a, b, Xor(c, d));
    XorAssoc(b, c, d);
    XorComm(b, c);
    XorAssoc(c, b, d);
    XorAssoc(a, c, Xor(b, d));
  }

  lemma {:induction false} EvalSum(p: seq<Elem>, q: seq<Elem>, k: nat)
    requires |p| == |q|
    ensures Eval(Sum(p, q), k) == Xor(Eval(p, k), Eval(q, k))
  {
    if p == [] {
      XorCancel(ZERO, ZERO);
    } else {
      hide Times, Xor;
      var n := |p| - 1;
      assert Sum(p, q)[..n] == Sum(p[..n], q[..n]);
      EvalSum(p[..n], q[..n], k);
      TimesXor(k, Eval(p[..n], k), Eval(q[..n], k));
      XorSwap(Times(k, Eval(p[..n], k)), Times(k, Eval(q[..n], k)), p[n], q[n]);
    }
  }

  lemma MulTimes(x: Elem, c: Elem, k: nat)
    ensures PolyMul(Times(k, x), c) == Times(k, PolyMul(x, c))
  {
    hide Times, PolyMul;
    TimesPolyMul(k, x, c);
  }

  lemma ProductXor(a: Elem, b: Elem, c: Elem)
    ensures PolyMul(Xor(a, b), c) == Xor(PolyMul(a, c), PolyMul(b, c))
  {
    hide PolyMul, Mul;
    MulIsPolyMul(Xor(a, b), c);
    MulIsPolyMul(a, c);
    MulIsPolyMul(b, c);
    MulXor(a, b, c);
  }

  lemma {:induction false} EvalScale(p: seq<Elem>, c: Elem, k: nat)
    ensures Eval(Scale(p, c), k) == PolyMul(Eval(p, k), c)
  {
    hide Times, PolyMul, Xor;
    if p == [] {
      PolyMulZero(c);
    } else {
      var n := |p| - 1;
      assert Scale(p, c)[..n] == Scale(p[..n], c);
      EvalScale(p[..n], c, k);
      ProductXor(Times(k, Eval(p[..n], k)), p[n], c);
      MulTimes(Eval(p[..n], k), c, k);
    }
  }

  lemma {:induction false} EvalConcat(p: seq<Elem>, q: seq<Elem>, k: nat)
    ensures Eval(p + q, k) == Xor(Times(k * |q|, Eval(p, k)), Eval(q, k))
  {
    hide Times, Xor;
    if q == [] {
      assert p + q == p;
      assert Times(0, Eval(p, k)) == Eval(p, k) by { TimesNought(Eval(p, k)); }
      XorCancel(Eval(p, k), ZERO);
    } else {
      var n := |q| - 1;
      assert (p + q)[..|p| + n] == p + q[..n];
      EvalConcat(p, q[..n], k);
      var a, b := Times(k * n, Eval(p, k)), Eval(q[..n], k);
      TimesXor(k, a, b);
      TimesTimes(k, k * n, Eval(p, k));
      assert k * |q| == k + k * n;
      XorAssoc(Times(k, a), Times(k, b), q[n]);
    }
  }

  lemma TimesNought(x: Elem)
    ensures Times(0, x) == x
  {
  }

  lemma EvalLeadingZero(p: seq<Elem>, k: nat)
    ensures Eval([ZERO] + p, k) == Eval(p, k)
  {
    EvalConcat([ZERO], p, k);
    EvalSnoc([], ZERO, k);
    hide Xor, Times;
    assert [] + [ZERO] == [ZERO];
    TimesZero(k, ZERO);
    XorCancel(ZERO, ZERO);
    TimesZero(k * |p|, ZERO);
    XorComm(ZERO, Eval(p, k));
    XorCancel(Eval(p, k), ZERO);
  }

  // ---- The generator polynomial ----

  /** Multiplying the partial product by (x - root) in place; the coefficient
      leaving at the top is dropped. */
  function GenStep(g: seq<Elem>, root: Elem): (s: seq<Elem>)
    requires |g| == N
    ensures |s| == N
  {
    seq(N, j requires 0 <= j < N => Xor(PolyMul(g[j], root), if j + 1 < N then g[j + 1] else ZERO))
  }

  lemma ProductExp(x: Elem, r: nat)
    requires r < 255
    ensures PolyMul(x, Exp(r)) == Times(r, x)
  {
    hide PolyMul, Times;
    MulIsPolyMul(x, Exp(r));
    ExpNonzero(r);
    ExpInjective(Log(Exp(r)), r);
  }

  lemma GenStepIsSum(g: seq<Elem>, root: Elem)
    requires |g| == N
    ensures [g[0]] + GenStep(g, root) == Sum(g + [ZERO], [ZERO] + Scale(g, root))
  {
    hide Xor, PolyMul;
    var l, r := [g[0]] + GenStep(g, root), Sum(g + [ZERO], [ZERO] + Scale(g, root));
    XorCancel(g[0], ZERO);
    forall j | 0 <= j < N + 1 ensures l[j] == r[j] {
      if j > 0 {
        XorComm(PolyMul(g[j - 1], root), if j < N then g[j] else ZERO);
      }
    }
  }

  lemma EvalGenStep(g: seq<Elem>, r: nat, k: nat)
    requires |g| == N && r < 255
    ensures Eval([g[0]] + GenStep(g, Exp(r)), k) == Xor(Times(k, Eval(g, k)), Times(r, Eval(g, k)))
  {
    hide Xor, Times, PolyMul, GenStep, Eval, Scale, Sum;
    GenStepIsSum(g, Exp(r));
    EvalSum(g + [ZERO], [ZERO] + Scale(g, Exp(r)), k);
    EvalSnoc(g, ZERO, k);
    XorCancel(Times(k, Eval(g, k)), ZERO);
    EvalLeadingZero(Scale(g, Exp(r)), k);
    EvalScale(g, Exp(r), k);
    ProductExp(Eval(g, k), r);
  }

  /** After i steps: the monic product of the first i linear factors. */
  ghost predicate Partial(g: seq<Elem>, i: nat) {
    |g| == N && i < N &&
    (forall j | 0 <= j < N - 1 - i :: g[j] == ZERO) && g[N - 1 - i] == ONE &&
    forall k: nat | k < i :: Eval(g, k) == ZERO
  }

  /** The finished generator: its leading one is implicit. */
  ghost predicate IsGenerator(g: seq<Elem>) {
    |g| == N && Codeword([ONE] + g)
  }

  /** (x - root i) kills the new root and keeps the old ones. */
  lemma GenStepVanishes(g: seq<Elem>, i: nat, k: nat)
    requires Partial(g, i) && k <= i
    ensures Eval([g[0]] + GenStep(g, Exp(i)), k) == ZERO
  {
    hide Xor, Times, PolyMul, GenStep, Exp;
    EvalGenStep(g, i, k);
    if k < i {
      assert Eval(g, k) == ZERO;
      TimesZero(k, ZERO);
      TimesZero(i, ZERO);
    }
    XorCancel(Times(i, Eval(g, k)), Times(i, Eval(g, k)));
  }

  lemma PartialStep(g: seq<Elem>, i: nat)
    requires Partial(g, i) && i + 1 < N
    ensures Partial(GenStep(g, Exp(i)), i + 1)
  {
    hide Xor, Times, PolyMul, Exp, Eval;
    var h := GenStep(g, Exp(i));
    PolyMulZero(Exp(i));
    XorCancel(ZERO, ZERO);
    XorComm(ZERO, ONE);
    XorCancel(ONE, ZERO);
    assert h[N - 2 - i] == ONE;
    forall k: nat | k < i + 1 ensures Eval(h, k) == ZERO {
      GenStepVanishes(g, i, k);
      EvalLeadingZero(h, k);
    }
  }

  lemma LastStep(g: seq<Elem>)
    requires Partial(g, N - 1)
    ensures IsGenerator(GenStep(g, Exp(N - 1)))
  {
    hide Xor, Times, PolyMul, Exp, Eval, GenStep;
    var p := [ONE] + GenStep(g, Exp(N - 1));
    forall k: nat | k < N ensures Eval(p, k) == ZERO {
      GenStepVanishes(g, N - 1, k);
    }
  }

  lemma {:induction false} EvalZeros(p: seq<Elem>, k: nat)
    requires forall j | 0 <= j < |p| :: p[j] == ZERO
    ensures Eval(p, k) == ZERO
  {
    hide Times, Xor;
    if p != [] {
      EvalZeros(p[..|p| - 1], k);
      TimesZero(k, ZERO);
      XorCancel(ZERO, ZERO);
    }
  }

  /** The first root: replaces the unit polynomial by x - 1. */
  lemma PartialStart(g: seq<Elem>)
    requires |g| == N && g[N - 1] == ONE && forall j | 0 <= j < N - 1 :: g[j] == ZERO
    ensures Partial(g, 0)
  {
  }

  lemma TableExp(exp: seq<Elem>, log: seq<nat>, i: nat)
    requires Tables(exp, log) && i < 512
    ensures exp[i] == Exp(i)
  {
  }

  lemma GenStepAt(g: seq<Elem>, root: Elem, j: nat)
    requires |g| == N && j < N
    ensures GenStep(g, root)[j] == if j + 1 < N then Xor(PolyMul(g[j], root), g[j + 1]) else PolyMul(g[j], root)
  {
    hide Xor, PolyMul;
    XorCancel(PolyMul(g[j], root), ZERO);
  }

  /** One pass of the inner loop. */
  method MultiplyByRoot(exp: array<Elem>, log: array<nat>, generator: array<Elem>, root: Elem)
    requires generator.Length == N && generator != exp && Tables(exp[..], log[..])
    modifies generator
    ensures generator[..] == GenStep(old(generator[..]), root)
  {
    hide Xor, PolyMul, Tables, GenStep;
    ghost var g := generator[..];
    ghost var target := GenStep(g, root);
    var j := 0;
    while j < N
      invariant 0 <= j <= N
      invariant forall x | 0 <= x < j :: generator[x] == target[x]
      invariant forall x | j <= x < N :: generator[x] == g[x]
      invariant Tables(exp[..], log[..])
    {
      GenStepAt(g, root, j);
      var product := GfMul(exp, log, generator[j], root);
      generator[j] := product;
      if j + 1 < N {
        generator[j] := Xor(generator[j], generator[j + 1]);
      }
      j := j + 1;
    }
    assert generator[..] == target;
  }

  method ComputeGenerator(exp: array<Elem>, log: array<nat>, generator: array<Elem>)
    requires generator.Length == N && generator != exp && Tables(exp[..], log[..])
    modifies generator
    ensures IsGenerator(generator[..])
  {
    hide Xor, Times, PolyMul, Exp, Eval, Tables, Partial, IsGenerator, GenStep;
    for j := 0 to N
      invariant forall x | 0 <= x < j :: generator[x] == ZERO
      invariant Tables(exp[..], log[..])
    {
      generator[j] := ZERO;
    }
    generator[N - 1] := ONE;
    PartialStart(generator[..]);
    var i := 0;
    while i < N
      invariant 0 <= i <= N
      invariant if i < N then Partial(generator[..], i) else IsGenerator(generator[..])
      invariant Tables(exp[..], log[..])
    {
      var root := TableEntry(exp, log, i);
      ghost var g := generator[..];
      MultiplyByRoot(exp, log, generator, root);
      if i + 1 < N {
        PartialStep(g, i);
      } else {
        LastStep(g);
      }
      i := i + 1;
    }
  }

  method TableEntry(exp: array<Elem>, log: array<nat>, i: nat) returns (x: Elem)
    requires Tables(exp[..], log[..]) && i < 512
    ensures x == Exp(i)
  {
    TableExp(exp[..], log[..], i);
    x := exp[i];
  }

  // ---- The remainder ----

  /** One data symbol: shift the remainder and subtract the multiple of the
      generator that clears the symbol leaving at the top. */
  function EccStep(ecc: seq<Elem>, g: seq<Elem>, d: Elem): (s: seq<Elem>)
    requires |ecc| == N && |g| == N
    ensures |s| == N
  {
    var factor := Xor(d, ecc[0]);
    Sum(ecc[1..] + [ZERO], Scale(g, factor))
  }

  lemma EvalGenerator(g: seq<Elem>, k: nat)
    requires IsGenerator(g) && k < N
    ensures Eval(g, k) == Times(k * N, ONE)
  {
    hide Times, Xor;
    EvalConcat([ONE], g, k);
    assert Eval([ONE], k) == ONE by {
      assert [] + [ONE] == [ONE];
      EvalSnoc([], ONE, k);
      TimesZero(k, ZERO);
      XorComm(ZERO, ONE);
      XorCancel(ONE, ZERO);
    }
    XorCancel(Times(k * N, ONE), Eval(g, k));
  }

  lemma ProductOne(k: nat, c: Elem)
    ensures PolyMul(Times(k, ONE), c) == Times(k, c)
  {
    hide Times, PolyMul;
    TimesPolyMul(k, ONE, c);
    PolyMulOne(c);
  }

  /** Dropping the first coefficient and appending a zero. */
  lemma EvalShift(ecc: seq<Elem>, k: nat)
    requires |ecc| == N
    ensures Eval(ecc[1..] + [ZERO], k) == Xor(Times(k, Eval(ecc, k)), Times(k * N, ecc[0]))
  {
    hide Times, Xor, Eval;
    var e0, rest := ecc[0], ecc[1..];
    assert ecc + [ZERO] == [e0] + (rest + [ZERO]);
    EvalConcat([e0], rest + [ZERO], k);
    EvalSnoc(ecc, ZERO, k);
    XorCancel(Times(k, Eval(ecc, k)), ZERO);
    assert Eval([e0], k) == e0 by {
      EvalSingle(e0, k);
    }
    var x, y, z := Times(k, Eval(ecc, k)), Times(k * N, e0), Eval(rest + [ZERO], k);
    assert x == Xor(y, z);
    XorComm(y, z);
    XorAssoc(z, y, y);
    XorCancel(y, y);
    XorCancel(z, z);
  }

  lemma EvalSingle(c: Elem, k: nat)
    ensures Eval([c], k) == c
  {
    hide Times, Xor;
    assert [] + [c] == [c];
    EvalSnoc([], c, k);
    TimesZero(k, ZERO);
    XorComm(ZERO, c);
    XorCancel(c, ZERO);
  }

  lemma EvalEccStep(ecc: seq<Elem>, g: seq<Elem>, d: Elem, k: nat)
    requires |ecc| == N && IsGenerator(g) && k < N
    ensures Eval(EccStep(ecc, g, d), k) == Xor(Times(k, Eval(ecc, k)), Times(k * N, d))
  {
    hide Times, Xor, Eval, PolyMul, IsGenerator;
    var f := Xor(d, ecc[0]);
    assert |g| == N by { GeneratorLength(g); }
    EvalSum(ecc[1..] + [ZERO], Scale(g, f), k);
    EvalScale(g, f, k);
    EvalGenerator(g, k);
    ProductOne(k * N, f);
    EvalShift(ecc, k);
    TimesXor(k * N, d, ecc[0]);
    var x, y, z := Times(k, Eval(ecc, k)), Times(k * N, ecc[0]), Times(k * N, d);
    XorComm(z, y);
    XorAssoc(x, y, Xor(y, z));
    XorAssoc(y, y, z);
    XorCancel(y, y);
    XorComm(ZERO, z);
    XorCancel(z, z);
  }

  lemma GeneratorLength(g: seq<Elem>)
    requires IsGenerator(g)
    ensures |g| == N
  {
  }

  /** The running remainder keeps the prefix a codeword. */
  lemma EccStepKeeps(data: seq<Elem>, ecc: seq<Elem>, g: seq<Elem>, d: Elem)
    requires |ecc| == N && IsGenerator(g) && Codeword(data + ecc)
    ensures Codeword(data + [d] + EccStep(ecc, g, d))
  {
    hide Times, Xor, Eval, IsGenerator, EccStep;
    GeneratorLength(g);
    forall k: nat | k < N ensures Eval(data + [d] + EccStep(ecc, g, d), k) == ZERO {
      var e := EccStep(ecc, g, d);
      EvalConcat(data + [d], e, k);
      EvalSnoc(data, d, k);
      EvalEccStep(ecc, g, d, k);
      EvalConcat(data, ecc, k);
      EccAlgebra(k, Eval(data, k), Eval(ecc, k), d);
    }
  }

  lemma EccAlgebra(k: nat, a: Elem, e: Elem, d: Elem)
    requires Xor(Times(k * N, a), e) == ZERO
    ensures Xor(Times(k * N, Xor(Times(k, a), d)), Xor(Times(k, e), Times(k * N, d))) == ZERO
  {
    hide Times, Xor;
    XorCancel(Times(k * N, a), e);
    TimesXor(k * N, Times(k, a), d);
    TimesTimes(k * N, k, a);
    TimesTimes(k, k * N, a);
    var x, y := Times(k, e), Times(k * N, d);
    assert Times(k * N, Times(k, a)) == x;
    XorCancel(Xor(x, y), Xor(x, y));
  }

  lemma CodewordZeros(p: seq<Elem>)
    requires forall j | 0 <= j < |p| :: p[j] == ZERO
    ensures Codeword(p)
  {
    forall k: nat | k < N ensures Eval(p, k) == ZERO { EvalZeros(p, k); }
  }

  /** One pass of the outer loop. */
  method AbsorbSymbol(exp: array<Elem>, log: array<nat>, generator: array<Elem>, d: Elem, ecc: array<Elem>)
    requires generator.Length == N && ecc.Length == N && ecc != exp && ecc != generator
    requires Tables(exp[..], log[..])
    modifies ecc
    ensures ecc[..] == EccStep(old(ecc[..]), generator[..], d)
  {
    hide Xor, PolyMul, Tables;
    ghost var e := ecc[..];
    var factor := Xor(d, ecc[0]);
    ghost var shifted := e[1..] + [ZERO];
    for j := 0 to N - 1
      invariant forall x | 0 <= x < j :: ecc[x] == e[x + 1]
      invariant forall x | j <= x < N :: ecc[x] == e[x]
      invariant Tables(exp[..], log[..])
    {
      ecc[j] := ecc[j + 1];
    }
    ecc[N - 1] := ZERO;
    assert ecc[..] == shifted;
    for j := 0 to N
      invariant forall x | 0 <= x < j :: ecc[x] == Xor(shifted[x], PolyMul(generator[x], factor))
      invariant forall x | j <= x < N :: ecc[x] == shifted[x]
      invariant Tables(exp[..], log[..])
    {
      var product := GfMul(exp, log, generator[j], factor);
      ecc[j] := Xor(ecc[j], product);
    }
    assert ecc[..] == Sum(shifted, Scale(generator[..], factor));
  }

  /** The eighteen error-correction symbols of a data block. */
  method ComputeEcc(exp: array<Elem>, log: array<nat>, generator: array<Elem>, data: seq<Elem>, ecc: array<Elem>)
    requires generator.Length == N && ecc.Length == N && ecc != exp && ecc != generator
    requires Tables(exp[..], log[..]) && IsGenerator(generator[..])
    modifies ecc
    ensures Codeword(data + ecc[..])
  {
    hide Xor, PolyMul, Tables, IsGenerator, Codeword, EccStep;
    for j := 0 to N
      invariant forall x | 0 <= x < j :: ecc[x] == ZERO
      invariant Tables(exp[..], log[..]) && IsGenerator(generator[..])
    {
      ecc[j] := ZERO;
    }
    CodewordZeros([] + ecc[..]);
    var i := 0;
    assert data[..0] == [];
    while i < |data|
      invariant 0 <= i <= |data|
      invariant Codeword(data[..i] + ecc[..])
      invariant Tables(exp[..], log[..]) && IsGenerator(generator[..])
    {
      ghost var e := ecc[..];
      AbsorbSymbol(exp, log, generator, data[i], ecc);
      EccStepKeeps(data[..i], e, generator[..], data[i]);
      assert data[..i + 1] == data[..i] + [data[i]];
      i := i + 1;
    }
    assert data[..i] == data;
  }

  // ---- The remainder is unique ----

  /** Synthetic division by (x - root): the running Horner values. */
  ghost function Quotient(p: seq<Elem>, r: nat): (q: seq<Elem>)
    requires p != []
    ensures |q| == |p| - 1
  {
    seq(|p| - 1, i requires 0 <= i < |p| - 1 => Eval(p[..i + 1], r))
  }

  lemma QuotientSnoc(p: seq<Elem>, r: nat)
    requires |p| > 1
    ensures var n := |p| - 1; Quotient(p, r) == Quotient(p[..n], r) + [Eval(p[..n], r)]
  {
    hide Eval;
    var n := |p| - 1;
    var l, m := Quotient(p, r), Quotient(p[..n], r);
    forall i | 0 <= i < n - 1 ensures l[i] == m[i] {
      assert p[..i + 1] == p[..n][..i + 1];
    }
  }

  /** p(y) = (y - root) q(y) + p(root). */
  lemma {:induction false} Division(p: seq<Elem>, r: nat, y: nat)
    requires p != []
    ensures var q := Eval(Quotient(p, r), y);
            Eval(p, y) == Xor(Xor(Times(y, q), Times(r, q)), Eval(p, r))
    decreases |p|
  {
    hide Times, Xor;
    var n := |p| - 1;
    if n == 0 {
      assert p == [p[0]] && Quotient(p, r) == [];
      EvalSingle(p[0], y);
      EvalSingle(p[0], r);
      TimesZero(y, ZERO);
      TimesZero(r, ZERO);
      XorCancel(ZERO, ZERO);
      XorComm(ZERO, p[0]);
      XorCancel(p[0], ZERO);
    } else {
      var p', c := p[..n], p[n];
      assert p == p' + [c];
      var qs, e := Quotient(p', r), Eval(p', r);
      QuotientSnoc(p, r);
      Division(p', r, y);
      EvalSnoc(qs, e, y);
      EvalSnoc(p', c, y);
      EvalSnoc(p', c, r);
      DivisionAlgebra(y, r, Eval(qs, y), e, c);
    }
  }

  lemma DivisionAlgebra(y: nat, r: nat, q: Elem, e: Elem, c: Elem)
    ensures Xor(Times(y, Xor(Xor(Times(y, q), Times(r, q)), e)), c) ==
            Xor(Xor(Times(y, Xor(Times(y, q), e)), Times(r, Xor(Times(y, q), e))), Xor(Times(r, e), c))
  {
    hide Times, Xor;
    var yq, rq := Times(y, q), Times(r, q);
    TimesXor(y, Xor(yq, rq), e);
    TimesXor(y, yq, rq);
    TimesXor(y, yq, e);
    TimesXor(r, yq, e);
    TimesTimes(y, r, q);
    TimesTimes(r, y, q);
    DivisionXor(Times(y, yq), Times(y, rq), Times(y, e), Times(r, e), c);
  }

  lemma DivisionXor(a: Elem, b: Elem, d: Elem, f: Elem, c: Elem)
    ensures Xor(Xor(Xor(a, b), d), c) == Xor(Xor(Xor(a, d), Xor(b, f)), Xor(f, c))
  {
    hide Xor;
    XorSwap(a, d, b, f);
    XorAssoc(Xor(a, b), Xor(d, f), Xor(f, c));
    XorAssoc(d, f, Xor(f, c));
    XorAssoc(f, f, c);
    XorCancel(f, f);
    XorComm(ZERO, c);
    XorCancel(c, c);
    XorAssoc(Xor(a, b), d, c);
  }

  /** Distinct powers act differently on every nonzero element. */
  lemma DistinctRoots(y: nat, r: nat, q: Elem)
    requires y < 255 && r < 255 && y != r && Times(y, q) == Times(r, q)
    ensures q == ZERO
  {
    if y < r { OrderedRoots(y, r, q); } else { OrderedRoots(r, y, q); }
  }

  lemma OrderedRoots(y: nat, r: nat, q: Elem)
    requires y < r < 255 && Times(y, q) == Times(r, q)
    ensures q == ZERO
  {
    hide Times;
    TimesTimes(y, r - y, q);
    TimesInjective(y, q, Times(r - y, q));
    if q != ZERO {
      var m := Log(q);
      TimesTimes(r - y, m, ONE);
      TimesTimes(m, r - y, ONE);
      TimesNoughtLeft(m);
      TimesInjective(m, ONE, Exp(r - y));
      Order(r - y);
    }
  }

  lemma TimesNoughtLeft(m: nat)
    ensures Times(m, ONE) == Exp(m)
  {
  }

  ghost predicate DistinctPowers(roots: seq<nat>) {
    && (forall i | 0 <= i < |roots| :: roots[i] < 255)
    && forall i, j | 0 <= i < j < |roots| :: roots[i] != roots[j]
  }

  /** Dividing by one root leaves a polynomial with the other roots. */
  lemma QuotientRoot(p: seq<Elem>, r: nat, k: nat)
    requires p != [] && r < 255 && k < 255 && k != r && Eval(p, r) == ZERO && Eval(p, k) == ZERO
    ensures Eval(Quotient(p, r), k) == ZERO
  {
    hide Times, Xor, Eval;
    Division(p, r, k);
    var v := Eval(Quotient(p, r), k);
    XorCancel(Xor(Times(k, v), Times(r, v)), ZERO);
    XorCancel(Times(k, v), Times(r, v));
    DistinctRoots(k, r, v);
  }

  /** A polynomial whose quotient by a root is zero is zero. */
  lemma ZeroQuotient(p: seq<Elem>, r: nat, i: nat)
    requires i < |p| && Eval(p, r) == ZERO
    requires forall j | 0 <= j < |p| - 1 :: Quotient(p, r)[j] == ZERO
    ensures p[i] == ZERO
  {
    hide Times, Xor, Eval;
    var before, q := p[..i], Quotient(p, r);
    assert Eval(before, r) == ZERO by {
      if i == 0 { EvalZeros(before, r); } else { assert q[i - 1] == ZERO; }
    }
    assert Eval(p[..i + 1], r) == ZERO by {
      if i == |p| - 1 { assert p[..i + 1] == p; } else { assert q[i] == ZERO; }
    }
    assert p[..i + 1] == before + [p[i]];
    EvalSnoc(before, p[i], r);
    TimesZero(r, ZERO);
    XorComm(ZERO, p[i]);
    XorCancel(p[i], ZERO);
  }

  /** A polynomial with as many different nonzero roots as coefficients is zero. */
  lemma {:induction false} ManyRoots(p: seq<Elem>, roots: seq<nat>)
    requires |p| <= |roots| && DistinctPowers(roots)
    requires forall i | 0 <= i < |roots| :: Eval(p, roots[i]) == ZERO
    ensures forall i | 0 <= i < |p| :: p[i] == ZERO
    decreases |p|
  {
    if p != [] {
      hide Times, Xor, Eval;
      var n := |roots| - 1;
      var r := roots[n];
      forall i | 0 <= i < n
        ensures Eval(Quotient(p, r), roots[..n][i]) == ZERO
      {
        QuotientRoot(p, r, roots[i]);
      }
      ManyRoots(Quotient(p, r), roots[..n]);
      forall i | 0 <= i < |p|
        ensures p[i] == ZERO
      {
        ZeroQuotient(p, r, i);
      }
    }
  }

  /** Two completions of the same data to a codeword are equal, so the encoder's
      output is the only one. */
  lemma EccUnique(data: seq<Elem>, e: seq<Elem>, f: seq<Elem>)
    requires |e| == N && |f| == N && Codeword(data + e) && Codeword(data + f)
    ensures e == f
  {
    hide Times, Xor, Eval;
    var s := Sum(e, f);
    forall k: nat | k < |s| ensures Eval(s, k) == ZERO {
      EvalConcat(data, e, k);
      EvalConcat(data, f, k);
      var t := Times(k * N, Eval(data, k));
      XorCancel(t, Eval(e, k));
      XorCancel(t, Eval(f, k));
      EvalSum(e, f, k);
      XorCancel(t, t);
    }
    ManyRoots(s, seq(N, k => k));
    forall i | 0 <= i < N ensures e[i] == f[i] {
      assert s[i] == Xor(e[i], f[i]);
      XorCancel(e[i], f[i]);
    }
  }
}
