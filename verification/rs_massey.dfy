/**
 The Berlekamp-Massey iteration of `decode_rs_8`, as a step on values, and what every step
 keeps.  Polynomials here have 33 coefficients, as the arrays of the source do.
 */
module RSMassey {
  import opened GF256
  import opened Polynomials
  import opened RSCode

  const SIZE := NROOTS + 1

  /** The first m terms of the k-th coefficient of l(x) * s(x). */
  function Convolve(l: seq<bv8>, s: seq<bv8>, k: nat, m: nat): bv8
    requires m <= |l| && m <= k + 1 && k < |s|
    decreases m
  {
    if m == 0 then 0 else Add(Convolve(l, s, k, m - 1), Mul(l[m - 1], s[k - (m - 1)]))
  }

  /** The k-th coefficient of l(x) * s(x): the discrepancy of l at symbol k. */
  function Discrepancy(l: seq<bv8>, s: seq<bv8>, k: nat): bv8
    requires |l| == SIZE && |s| == NROOTS && k < NROOTS
  {
    Convolve(l, s, k, k + 1)
  }

  /** The iteration's variables: lambda, b (in polynomial form) and el. */
  datatype State = State(lambda: seq<bv8>, b: seq<bv8>, el: int)
  {
    ghost predicate Sized() { |lambda| == SIZE && |b| == SIZE }
  }

  /** x * b(x), cut to 33 coefficients. */
  function TimesX(b: seq<bv8>): (r: seq<bv8>)
    requires |b| == SIZE
    ensures |r| == SIZE
  {
    [0] + b[..NROOTS]
  }

  /** lambda(x) - d * x * b(x). */
  function Corrected(l: seq<bv8>, b: seq<bv8>, d: bv8): (t: seq<bv8>)
    requires |l| == SIZE && |b| == SIZE
    ensures |t| == SIZE
  {
    seq(SIZE, i requires 0 <= i < SIZE => if i == 0 then l[0] else Add(l[i], Mul(d, b[i - 1])))
  }

  /** lambda(x) / d. */
  function Divided(l: seq<bv8>, d: bv8): (b: seq<bv8>)
    requires |l| == SIZE && d != 0
    ensures |b| == SIZE
  {
    seq(SIZE, i requires 0 <= i < SIZE => Mul(l[i], Inv(d)))
  }

  /** The step that takes r symbols to r + 1. */
  function Step(s: seq<bv8>, eras: nat, r: nat, st: State): (st': State)
    requires |s| == NROOTS && r < NROOTS && |st.lambda| == SIZE && |st.b| == SIZE
    ensures |st'.lambda| == SIZE && |st'.b| == SIZE
  {
    var d := Discrepancy(st.lambda, s, r);
    if d == 0 then
      State(st.lambda, TimesX(st.b), st.el)
    else if 2 * st.el <= r + eras then
      State(Corrected(st.lambda, st.b, d), Divided(st.lambda, d), r + 1 + eras - st.el)
    else
      State(Corrected(st.lambda, st.b, d), TimesX(st.b), st.el)
  }

  /** The steps from symbol r to the last. */
  function Run(s: seq<bv8>, eras: nat, r: nat, st: State): (st': State)
    requires |s| == NROOTS && r <= NROOTS && |st.lambda| == SIZE && |st.b| == SIZE
    ensures |st'.lambda| == SIZE && |st'.b| == SIZE
    decreases NROOTS - r
  {
    if r == NROOTS then st else Run(s, eras, r + 1, Step(s, eras, r, st))
  }

  // ---------------------------------------------------------------- what every step keeps

  /** lambda has degree at most el and predicts the symbols from el to r. */
  ghost predicate Predicts(s: seq<bv8>, r: nat, l: seq<bv8>, el: int)
    requires |s| == NROOTS && r <= NROOTS && |l| == SIZE
  {
    && l[0] == 1
    && (forall i :: 0 <= el < i < SIZE ==> l[i] == 0)
    && (forall k :: 0 <= el <= k < r ==> Discrepancy(l, s, k) == 0)
  }

  /**
   b is the polynomial that lambda was at its last change of length, multiplied by a power of x:
   its discrepancy is one at the last symbol and zero at the symbols before it, as far as its degree reaches.
   */
  ghost predicate Corrects(s: seq<bv8>, eras: nat, r: nat, b: seq<bv8>, el: int)
    requires |s| == NROOTS && r <= NROOTS && |b| == SIZE
  {
    && (forall i :: 0 <= r - el + eras < i < SIZE ==> b[i] == 0)
    && (el > eras && r > 0 ==> Discrepancy(b, s, r - 1) == 1)
    && (el > eras ==> forall k :: 0 <= r - el + eras <= k < r - 1 ==> Discrepancy(b, s, k) == 0)
  }

  ghost predicate Invariant(s: seq<bv8>, eras: nat, r: nat, st: State)
    requires |s| == NROOTS && r <= NROOTS
  {
    && st.Sized()
    && eras <= st.el <= r
    && Predicts(s, r, st.lambda, st.el)
    && Corrects(s, eras, r, st.b, st.el)
  }

  // ---------------------------------------------------------------- discrepancies are linear

  lemma CorrectedCoeff(l: seq<bv8>, b: seq<bv8>, d: bv8, i: nat)
    requires |l| == SIZE && |b| == SIZE && i < SIZE
    ensures Corrected(l, b, d)[i] == if i == 0 then l[0] else Add(l[i], Mul(d, b[i - 1]))
  {
    hide Add, Mul;
  }

  lemma {:induction false} ConvolveCorrected(l: seq<bv8>, b: seq<bv8>, d: bv8, s: seq<bv8>, k: nat, m: nat)
    requires |l| == SIZE && |b| == SIZE && |s| == NROOTS && 1 <= k < NROOTS && 1 <= m <= k + 1
    ensures Convolve(Corrected(l, b, d), s, k, m)
         == Add(Convolve(l, s, k, m), Mul(d, Convolve(b, s, k - 1, m - 1)))
    decreases m
  {
    hide Add, Mul, Corrected;
    var t := Corrected(l, b, d);
    CorrectedCoeff(l, b, d, m - 1);
    if m == 1 {
      assert Convolve(b, s, k - 1, 0) == 0;
      assert Convolve(t, s, k, 0) == 0 == Convolve(l, s, k, 0);
      MulUnit(d);
      AddZero(Convolve(l, s, k, m));
    } else {
      ConvolveCorrected(l, b, d, s, k, m - 1);
      var x := s[k - (m - 1)];
      var c, e := Convolve(l, s, k, m - 1), Convolve(b, s, k - 1, m - 2);
      MulAddLeft(l[m - 1], Mul(d, b[m - 2]), x);
      MulAssoc(d, b[m - 2], x);
      AddSwap(c, Mul(d, e), Mul(l[m - 1], x), Mul(d, Mul(b[m - 2], x)));
      MulAddRight(d, e, Mul(b[m - 2], x));
    }
  }

  lemma {:induction false} ConvolveTimesX(b: seq<bv8>, s: seq<bv8>, k: nat, m: nat)
    requires |b| == SIZE && |s| == NROOTS && 1 <= k < NROOTS && 1 <= m <= k + 1
    ensures Convolve(TimesX(b), s, k, m) == Convolve(b, s, k - 1, m - 1)
    decreases m
  {
    hide Add, Mul;
    if m == 1 {
      assert Convolve(TimesX(b), s, k, 0) == 0;
      MulUnit(s[k]);
      AddZero(0);
    } else {
      ConvolveTimesX(b, s, k, m - 1);
    }
  }

  lemma {:induction false} ConvolveDivided(l: seq<bv8>, d: bv8, s: seq<bv8>, k: nat, m: nat)
    requires |l| == SIZE && |s| == NROOTS && k < NROOTS && m <= k + 1 && d != 0
    ensures Convolve(Divided(l, d), s, k, m) == Mul(Convolve(l, s, k, m), Inv(d))
    decreases m
  {
    hide Add, Mul, Inv;
    if m == 0 {
      MulUnit(Inv(d));
    } else {
      ConvolveDivided(l, d, s, k, m - 1);
      var x := s[k - (m - 1)];
      MulAddLeft(Convolve(l, s, k, m - 1), Mul(l[m - 1], x), Inv(d));
      MulAssoc(l[m - 1], Inv(d), x);
      MulComm(Inv(d), x);
      MulAssoc(l[m - 1], x, Inv(d));
    }
  }

  // ---------------------------------------------------------------- the step keeps the invariant

  lemma StartInvariant(s: seq<bv8>, eras: nat, l: seq<bv8>)
    requires |s| == NROOTS && eras <= NROOTS && |l| == SIZE
    requires l[0] == 1 && forall i :: eras < i < SIZE ==> l[i] == 0
    ensures Invariant(s, eras, eras, State(l, l, eras))
  {}

  /** Multiplying b by x loses no coefficient. */
  lemma NothingLost(s: seq<bv8>, eras: nat, r: nat, st: State)
    requires |s| == NROOTS && r < NROOTS && Invariant(s, eras, r, st)
    ensures st.b[NROOTS] == 0
  {}

  lemma StepUnchanged(s: seq<bv8>, eras: nat, r: nat, b: seq<bv8>, el: int)
    requires |s| == NROOTS && r < NROOTS && |b| == SIZE && eras <= el <= r
    requires Corrects(s, eras, r, b, el)
    ensures Corrects(s, eras, r + 1, TimesX(b), el)
  {
    hide Add, Mul, Convolve;
    if el > eras {
      forall k | r + 1 - el + eras <= k < r
        ensures Discrepancy(TimesX(b), s, k) == 0
      {
        ConvolveTimesX(b, s, k, k + 1);
        assert Discrepancy(b, s, k - 1) == 0;
      }
      ConvolveTimesX(b, s, r, r + 1);
      assert Discrepancy(b, s, r - 1) == 1;
    }
  }

  lemma StepCorrected(s: seq<bv8>, eras: nat, r: nat, st: State, d: bv8, el: int)
    requires |s| == NROOTS && r < NROOTS && Invariant(s, eras, r, st)
    requires d == Discrepancy(st.lambda, s, r) != 0
    requires el == if 2 * st.el <= r + eras then r + 1 + eras - st.el else st.el
    ensures Predicts(s, r + 1, Corrected(st.lambda, st.b, d), el)
  {
    hide Add, Mul, Convolve;
    var l, b := st.lambda, st.b;
    var t := Corrected(l, b, d);
    forall i | el < i < SIZE
      ensures t[i] == 0
    {
      assert l[i] == 0 && b[i - 1] == 0;
      MulUnit(d);
      AddZero(0);
    }
    forall k | el <= k < r + 1
      ensures Discrepancy(t, s, k) == 0
    {
      CorrectedAt(s, eras, r, st, d, k);
    }
  }

  lemma CorrectedAt(s: seq<bv8>, eras: nat, r: nat, st: State, d: bv8, k: nat)
    requires |s| == NROOTS && r < NROOTS && Invariant(s, eras, r, st)
    requires d == Discrepancy(st.lambda, s, r) != 0
    requires st.el <= k <= r && r + 1 + eras - st.el <= k
    ensures Discrepancy(Corrected(st.lambda, st.b, d), s, k) == 0
  {
    hide Add, Mul, Convolve;
    var l, b := st.lambda, st.b;
    ConvolveCorrected(l, b, d, s, k, k + 1);
    MulUnit(d);
    if k < r {
      assert Discrepancy(l, s, k) == 0;
      assert Discrepancy(b, s, k - 1) == 0;
      AddZero(0);
    } else {
      assert Discrepancy(b, s, r - 1) == 1;
      AddSelf(d);
    }
  }

  lemma StepLengthened(s: seq<bv8>, eras: nat, r: nat, st: State, d: bv8)
    requires |s| == NROOTS && r < NROOTS && Invariant(s, eras, r, st)
    requires d == Discrepancy(st.lambda, s, r) != 0
    requires 2 * st.el <= r + eras
    ensures Corrects(s, eras, r + 1, Divided(st.lambda, d), r + 1 + eras - st.el)
  {
    hide Add, Mul, Convolve, Inv;
    var l, b := st.lambda, Divided(st.lambda, d);
    forall i | st.el < i < SIZE
      ensures b[i] == 0
    {
      MulUnit(Inv(d));
    }
    ConvolveDivided(l, d, s, r, r + 1);
    MulInv(d);
    forall k | st.el <= k < r
      ensures Discrepancy(b, s, k) == 0
    {
      ConvolveDivided(l, d, s, k, k + 1);
      assert Discrepancy(l, s, k) == 0;
      MulUnit(Inv(d));
    }
  }

  /** Every step keeps the invariant, whatever the syndromes are. */
  lemma StepInvariant(s: seq<bv8>, eras: nat, r: nat, st: State)
    requires |s| == NROOTS && r < NROOTS && Invariant(s, eras, r, st)
    ensures Invariant(s, eras, r + 1, Step(s, eras, r, st))
  {
    hide Add, Mul, Convolve, Divided, Corrected, TimesX;
    var d := Discrepancy(st.lambda, s, r);
    if d == 0 {
      StepUnchanged(s, eras, r, st.b, st.el);
    } else if 2 * st.el <= r + eras {
      StepCorrected(s, eras, r, st, d, r + 1 + eras - st.el);
      StepLengthened(s, eras, r, st, d);
    } else {
      StepCorrected(s, eras, r, st, d, st.el);
      StepUnchanged(s, eras, r, st.b, st.el);
    }
  }

  lemma {:induction false} RunInvariant(s: seq<bv8>, eras: nat, r: nat, st: State)
    requires |s| == NROOTS && r <= NROOTS && Invariant(s, eras, r, st)
    ensures Invariant(s, eras, NROOTS, Run(s, eras, r, st))
    decreases NROOTS - r
  {
    hide Step, Invariant;
    if r < NROOTS {
      StepInvariant(s, eras, r, st);
      InvariantSized(s, eras, r, st);
      RunInvariant(s, eras, r + 1, Step(s, eras, r, st));
    }
  }

  lemma InvariantSized(s: seq<bv8>, eras: nat, r: nat, st: State)
    requires |s| == NROOTS && r <= NROOTS && Invariant(s, eras, r, st)
    ensures |st.lambda| == SIZE && |st.b| == SIZE
  {}
}
