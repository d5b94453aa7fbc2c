/**
 Polynomials over GF(256), lowest coefficient first, and the two facts about them that
 Reed-Solomon decoding rests on: a non-zero polynomial has fewer roots than coefficients
 (`RootBound`), and power sums over distinct points that vanish often enough have no
 terms (`PowerSumsVanish`).
 */
module Polynomials {
  import opened GF256

  function Eval(p: seq<bv8>, x: bv8): bv8 {
    if p == [] then 0 else Add(p[0], Mul(x, Eval(p[1..], x)))
  }

  predicate AllZero(p: seq<bv8>) {
    forall i :: 0 <= i < |p| ==> p[i] == 0
  }

  lemma {:induction false} EvalSnoc(p: seq<bv8>, a: bv8, x: bv8)
    ensures Eval(p + [a], x) == Add(Eval(p, x), Mul(a, Power(x, |p|)))
  {
    hide Add, Mul;
    if p == [] {
      assert (p + [a])[1..] == [];
      MulUnit(x);
      MulUnit(a);
      AddComm(0, a);
    } else {
      var q := p[1..];
      assert (p + [a])[1..] == q + [a];
      EvalSnoc(q, a, x);
      MulAddRight(x, Eval(q, x), Mul(a, Power(x, |q|)));
      AddAssoc(p[0], Mul(x, Eval(q, x)), Mul(x, Mul(a, Power(x, |q|))));
      MulAssoc(x, a, Power(x, |q|));
      MulComm(x, a);
      MulAssoc(a, x, Power(x, |q|));
    }
  }

  lemma {:induction false} EvalZero(p: seq<bv8>, x: bv8)
    requires AllZero(p)
    ensures Eval(p, x) == 0
  {
    hide Add, Mul;
    if p != [] {
      EvalZero(p[1..], x);
      MulUnit(x);
      AddZero(0);
    }
  }

  lemma {:induction false} EvalTrim(p: seq<bv8>, n: nat, x: bv8)
    requires n <= |p| && AllZero(p[n..])
    ensures Eval(p, x) == Eval(p[..n], x)
    decreases n
  {
    hide Add, Mul;
    if n == 0 {
      assert p[n..] == p;
      EvalZero(p, x);
    } else {
      assert p[1..][n - 1..] == p[n..];
      assert p[..n][1..] == p[1..][..n - 1];
      EvalTrim(p[1..], n - 1, x);
    }
  }

  /** Evaluation is linear. */
  lemma {:induction false} EvalLinear(p: seq<bv8>, q: seq<bv8>, c: bv8, r: seq<bv8>, x: bv8)
    requires |p| == |q| == |r|
    requires forall i :: 0 <= i < |p| ==> r[i] == Add(p[i], Mul(c, q[i]))
    ensures Eval(r, x) == Add(Eval(p, x), Mul(c, Eval(q, x)))
  {
    hide Add, Mul;
    if p == [] {
      MulUnit(c);
      AddZero(0);
    } else {
      var p', q' := Eval(p[1..], x), Eval(q[1..], x);
      EvalLinear(p[1..], q[1..], c, r[1..], x);
      MulAddRight(x, p', Mul(c, q'));
      AddSwap(p[0], Mul(c, q[0]), Mul(x, p'), Mul(x, Mul(c, q')));
      MulAddRight(c, q[0], Mul(x, q'));
      MulAssoc(x, c, q');
      MulComm(x, c);
      MulAssoc(c, x, q');
    }
  }

  // ---------------------------------------------------------------- roots

  /** The quotient of p by (x - y); the remainder is p(y). */
  function Quotient(p: seq<bv8>, y: bv8): (q: seq<bv8>)
    ensures |q| == if p == [] then 0 else |p| - 1
  {
    if |p| <= 1 then [] else [Eval(p[1..], y)] + Quotient(p[1..], y)
  }

  lemma {:induction false} QuotientEval(p: seq<bv8>, x: bv8, y: bv8)
    ensures Add(Eval(p, x), Eval(p, y)) == Mul(Add(x, y), Eval(Quotient(p, y), x))
  {
    hide Add, Mul;
    if p == [] {
      AddZero(0);
      MulUnit(Add(x, y));
    } else if |p| == 1 {
      MulUnit(x);
      MulUnit(y);
      MulUnit(Add(x, y));
      AddSelf(Add(p[0], 0));
    } else {
      var p' := p[1..];
      var ex, ey, q := Eval(p', x), Eval(p', y), Eval(Quotient(p', y), x);
      QuotientEval(p', x, y);
      assert Quotient(p, y)[1..] == Quotient(p', y);
      calc {
        Add(Eval(p, x), Eval(p, y));
        { AddSwap(p[0], Mul(x, ex), p[0], Mul(y, ey)); AddSelf(p[0]); AddZero(Add(Mul(x, ex), Mul(y, ey))); }
        Add(Mul(x, ex), Mul(y, ey));
        { AddCancel(Mul(x, ex), Mul(x, ey)); AddCross(Mul(x, ex), Mul(x, ey), Mul(y, ey)); }
        Add(Add(Mul(x, ex), Mul(x, ey)), Add(Mul(x, ey), Mul(y, ey)));
        { MulAddRight(x, ex, ey); MulAddLeft(x, y, ey); }
        Add(Mul(x, Add(ex, ey)), Mul(Add(x, y), ey));
        { MulAssoc(x, Add(x, y), q); MulComm(x, Add(x, y)); MulAssoc(Add(x, y), x, q); }
        Add(Mul(Add(x, y), Mul(x, q)), Mul(Add(x, y), ey));
        { MulAddRight(Add(x, y), Mul(x, q), ey); AddComm(Mul(x, q), ey); }
        Mul(Add(x, y), Add(ey, Mul(x, q)));
      }
    }
  }

  lemma AddCross(a: bv8, b: bv8, c: bv8)
    ensures Add(Add(a, b), Add(b, c)) == Add(a, c)
  {
    hide Add;
    AddAssoc(a, b, Add(b, c));
    AddCancel(b, c);
  }

  lemma {:induction false} QuotientZero(p: seq<bv8>, y: bv8)
    requires Eval(p, y) == 0 && AllZero(Quotient(p, y))
    ensures AllZero(p)
  {
    hide Add, Mul;
    if |p| == 1 {
      MulUnit(y);
      AddZero(p[0]);
    } else if |p| > 1 {
      var q := Quotient(p, y);
      assert q[0] == 0 && q[1..] == Quotient(p[1..], y);
      assert AllZero(q[1..]);
      QuotientZero(p[1..], y);
      MulUnit(y);
      AddZero(p[0]);
      assert p == [p[0]] + p[1..];
    }
  }

  /** A polynomial with as many distinct roots as coefficients is zero. */
  lemma {:induction false} RootBound(p: seq<bv8>, roots: set<bv8>)
    requires forall y :: y in roots ==> Eval(p, y) == 0
    requires |roots| >= |p|
    ensures AllZero(p)
    decreases |p|
  {
    if p != [] {
      var y := Member(roots);
      var q := Quotient(p, y);
      forall x | x in roots - {y}
        ensures Eval(q, x) == 0
      {
        RootOfQuotient(p, x, y);
      }
      RootBound(q, roots - {y});
      QuotientZero(p, y);
    }
  }

  lemma Member<T>(s: set<T>) returns (y: T)
    requires |s| > 0
    ensures y in s
  {
    y :| y in s;
  }

  lemma RootOfQuotient(p: seq<bv8>, x: bv8, y: bv8)
    requires Eval(p, x) == 0 && Eval(p, y) == 0 && x != y
    ensures Eval(Quotient(p, y), x) == 0
  {
    hide Add, Mul, Eval;
    QuotientEval(p, x, y);
    AddZero(0);
    AddCancel(x, y);
    MulNonZero(Add(x, y), Eval(Quotient(p, y), x));
  }

  // ---------------------------------------------------------------- power sums

  /** The sum over j < n of z[j] * xs[j]^k. */
  function PowerSum(z: seq<bv8>, xs: seq<bv8>, k: nat, n: nat): bv8
    requires n <= |z| && n <= |xs|
    decreases n
  {
    if n == 0 then 0 else Add(PowerSum(z, xs, k, n - 1), Mul(z[n - 1], Power(xs[n - 1], k)))
  }

  function Support(z: seq<bv8>): set<int> {
    set j | 0 <= j < |z| && z[j] != 0
  }

  predicate DistinctNonZero(xs: seq<bv8>) {
    && (forall j :: 0 <= j < |xs| ==> xs[j] != 0)
    && (forall i, j :: 0 <= i < j < |xs| ==> xs[i] != xs[j])
  }

  lemma SubsetCard<T>(a: set<T>, b: set<T>)
    requires a <= b
    ensures |a| <= |b|
  {
    assert b == a + (b - a);
  }

  lemma {:induction false} PowerSumZero(z: seq<bv8>, xs: seq<bv8>, k: nat, n: nat)
    requires n <= |z| == |xs|
    requires forall j :: 0 <= j < n ==> z[j] == 0
    ensures PowerSum(z, xs, k, n) == 0
  {
    hide Add, Mul;
    if n > 0 {
      PowerSumZero(z, xs, k, n - 1);
      MulUnit(Power(xs[n - 1], k));
      AddZero(0);
    }
  }

  lemma {:induction false} PowerSumSingle(z: seq<bv8>, xs: seq<bv8>, k: nat, n: nat, j: nat)
    requires j < n <= |z| == |xs|
    requires forall i :: 0 <= i < n && i != j ==> z[i] == 0
    ensures PowerSum(z, xs, k, n) == Mul(z[j], Power(xs[j], k))
  {
    hide Add, Mul;
    if j == n - 1 {
      PowerSumZero(z, xs, k, n - 1);
      AddZero(Mul(z[j], Power(xs[j], k)));
    } else {
      PowerSumSingle(z, xs, k, n - 1, j);
      MulUnit(Power(xs[n - 1], k));
      AddZero(Mul(z[j], Power(xs[j], k)));
    }
  }

  /** Multiplying every weight by (xs[j] - y) shifts the power sums. */
  lemma {:induction false} PowerSumEliminate(z: seq<bv8>, w: seq<bv8>, xs: seq<bv8>, y: bv8, k: nat, n: nat)
    requires n <= |z| == |xs| == |w|
    requires forall j :: 0 <= j < n ==> w[j] == Mul(z[j], Add(xs[j], y))
    ensures PowerSum(w, xs, k, n) == Add(PowerSum(z, xs, k + 1, n), Mul(y, PowerSum(z, xs, k, n)))
  {
    hide Add, Mul;
    if n == 0 {
      MulUnit(y);
      AddZero(0);
    } else {
      PowerSumEliminate(z, w, xs, y, k, n - 1);
      var a, x, p := z[n - 1], xs[n - 1], Power(xs[n - 1], k);
      var s0, s1 := PowerSum(z, xs, k, n - 1), PowerSum(z, xs, k + 1, n - 1);
      EliminateTerm(a, x, y, p);
      MulAddRight(y, s0, Mul(a, p));
      AddSwap(s1, Mul(y, s0), Mul(a, Mul(x, p)), Mul(y, Mul(a, p)));
    }
  }

  lemma EliminateTerm(a: bv8, x: bv8, y: bv8, p: bv8)
    ensures Mul(Mul(a, Add(x, y)), p) == Add(Mul(a, Mul(x, p)), Mul(y, Mul(a, p)))
  {
    hide Add, Mul;
    MulAssoc(a, Add(x, y), p);
    MulAddLeft(x, y, p);
    MulAddRight(a, Mul(x, p), Mul(y, p));
    MulAssoc(a, y, p);
    MulComm(a, y);
    MulAssoc(y, a, p);
  }

  /**
   Power sums over distinct non-zero points: if at most m weights are non-zero and m
   consecutive power sums vanish, all the weights are zero.
   */
  lemma {:induction false} PowerSumsVanish(z: seq<bv8>, xs: seq<bv8>, k0: nat, m: nat)
    requires |z| == |xs| && DistinctNonZero(xs)
    requires |Support(z)| <= m
    requires forall k :: k0 <= k < k0 + m ==> PowerSum(z, xs, k, |z|) == 0
    ensures AllZero(z)
    decreases m
  {
    hide Add, Mul, PowerSum, Power;
    if !AllZero(z) {
      var j :| 0 <= j < |z| && z[j] != 0;
      assert j in Support(z);
      var w := seq(|z|, i requires 0 <= i < |z| => Mul(z[i], Add(xs[i], xs[j])));
      AddSelf(xs[j]);
      MulUnit(z[j]);
      assert w[j] == 0;
      forall i | 0 <= i < |z|
        ensures w[i] == 0 <==> z[i] == 0 || i == j
      {
        if i != j { AddCancel(xs[i], xs[j]); }
        MulNonZero(z[i], Add(xs[i], xs[j]));
      }
      assert Support(w) <= Support(z) - {j};
      SubsetCard(Support(w), Support(z) - {j});
      forall k | k0 <= k < k0 + (m - 1)
        ensures PowerSum(w, xs, k, |w|) == 0
      {
        PowerSumEliminate(z, w, xs, xs[j], k, |z|);
        MulUnit(xs[j]);
        AddZero(0);
      }
      PowerSumsVanish(w, xs, k0, m - 1);
      PowerSumSingle(z, xs, k0, |z|, j);
      PowerNonZero(xs[j], k0);
      MulNonZero(z[j], Power(xs[j], k0));
    }
  }
}
