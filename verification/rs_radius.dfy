/**
 What Berlekamp-Massey finds when the block is a codeword with few enough symbols changed:
 with `rho` erased locations and `nu` other errors, 2 nu + rho <= 32, the final lambda has
 degree rho + nu and its roots are exactly the inverse locators of those locations.
 */
module RSRadius {
  import opened GF256
  import opened Polynomials
  import opened RSCode
  import opened RSLocations
  import opened RSMassey

  /** Where a locator polynomial shows that a location is suspect. */
  function InvLocator(loc: nat): bv8
    requires loc < NN
  {
    LocatorNonZero(loc);
    Inv(Locator(loc))
  }

  lemma LocatorNonZero(loc: nat)
    requires loc < NN
    ensures Locator(loc) != 0
  {
    hide Pow;
    LogPow(PRIM * (NN - 1 - loc));
  }

  predicate Locations(eras: set<int>) {
    forall l :: l in eras ==> 0 <= l < NN
  }

  /** The locations in error that are not marked as erased. */
  function Errors(e: seq<bv8>, eras: set<int>): set<int>
    requires |e| == NN
  {
    set l | 0 <= l < NN && e[l] != 0 && l !in eras
  }

  /** All the locations the decoder has to deal with. */
  function Suspects(e: seq<bv8>, eras: set<int>): set<int>
    requires |e| == NN
  {
    Errors(e, eras) + eras
  }

  /** p vanishes at every erased location. */
  ghost predicate Erases(p: seq<bv8>, eras: set<int>)
    requires Locations(eras)
  {
    forall l :: l in eras ==> Eval(p, InvLocator(l)) == 0
  }

  /** The weights with which the locations enter the discrepancies of p. */
  function Residues(p: seq<bv8>, e: seq<bv8>): (z: seq<bv8>)
    requires |e| == NN
    ensures |z| == NN
  {
    seq(NN, l requires 0 <= l < NN => Mul(Weights(e)[l], Eval(p, InvLocator(l))))
  }

  // ---------------------------------------------------------------- discrepancies are power sums

  lemma {:induction false} PowerInv(x: bv8, k: nat, p: nat)
    requires x != 0 && p <= k
    ensures Mul(Power(Inv(x), p), Power(x, k)) == Power(x, k - p)
  {
    hide Mul, Inv;
    if p == 0 {
      MulUnit(Power(x, k));
    } else {
      PowerInv(x, k - 1, p - 1);
      var y := Inv(x);
      var a, b := Power(y, p - 1), Power(x, k - 1);
      MulInv(x);
      MulComm(y, a);
      MulAssoc(a, y, Mul(x, b));
      MulAssoc(y, x, b);
      MulUnit(b);
    }
  }

  lemma {:induction false} PowerSumTerm(z: seq<bv8>, w: seq<bv8>, c: bv8, p: nat, z': seq<bv8>, k: nat, n: nat)
    requires n <= NN == |z| == |w| == |z'| && p <= k
    requires forall l :: 0 <= l < NN ==> z'[l] == Add(z[l], Mul(w[l], Mul(c, Power(InvLocator(l), p))))
    ensures PowerSum(z', Locators(), k, n)
         == Add(PowerSum(z, Locators(), k, n), Mul(c, PowerSum(w, Locators(), k - p, n)))
  {
    hide Add, Mul, Inv, Pow;
    if n == 0 {
      MulUnit(c);
      AddZero(0);
    } else {
      var l := n - 1;
      var x, y := Locator(l), InvLocator(l);
      LocatorNonZero(l);
      PowerSumTerm(z, w, c, p, z', k, l);
      var s, t := PowerSum(z, Locators(), k, l), PowerSum(w, Locators(), k - p, l);
      var v := Mul(w[l], Mul(c, Power(y, p)));
      MulAddLeft(z[l], v, Power(x, k));
      TermValue(w[l], c, x, k, p);
      AddSwap(s, Mul(c, t), Mul(z[l], Power(x, k)), Mul(c, Mul(w[l], Power(x, k - p))));
      MulAddRight(c, t, Mul(w[l], Power(x, k - p)));
    }
  }

  lemma TermValue(w: bv8, c: bv8, x: bv8, k: nat, p: nat)
    requires x != 0 && p <= k
    ensures Mul(Mul(w, Mul(c, Power(Inv(x), p))), Power(x, k)) == Mul(c, Mul(w, Power(x, k - p)))
  {
    hide Mul, Inv, Power;
    var q := Power(Inv(x), p);
    MulAssoc(w, Mul(c, q), Power(x, k));
    MulAssoc(c, q, Power(x, k));
    PowerInv(x, k, p);
    MulAssoc(w, c, Power(x, k - p));
    MulComm(w, c);
    MulAssoc(c, w, Power(x, k - p));
  }

  lemma ResiduesSnoc(p: seq<bv8>, c: bv8, e: seq<bv8>)
    requires |e| == NN
    ensures forall i :: 0 <= i < NN ==>
      Residues(p + [c], e)[i] == Add(Residues(p, e)[i], Mul(Weights(e)[i], Mul(c, Power(InvLocator(i), |p|))))
  {
    hide Add, Mul, Inv, Pow, Eval, Weights, Power;
    forall i | 0 <= i < NN
      ensures Residues(p + [c], e)[i] == Add(Residues(p, e)[i], Mul(Weights(e)[i], Mul(c, Power(InvLocator(i), |p|))))
    {
      EvalSnoc(p, c, InvLocator(i));
      MulAddRight(Weights(e)[i], Eval(p, InvLocator(i)), Mul(c, Power(InvLocator(i), |p|)));
    }
  }

  lemma ResiduesEmpty(e: seq<bv8>)
    requires |e| == NN
    ensures AllZero(Residues([], e))
  {
    hide Mul, Inv, Pow, Weights;
    forall i | 0 <= i < NN
      ensures Residues([], e)[i] == 0
    {
      MulUnit(Weights(e)[i]);
    }
  }

  lemma {:induction false} ConvolvePowerSum(l: seq<bv8>, e: seq<bv8>, s: seq<bv8>, k: nat, m: nat)
    requires |l| == SIZE && |e| == NN && s == Syndromes(e) && k < NROOTS && m <= k + 1
    ensures Convolve(l, s, k, m) == PowerSum(Residues(l[..m], e), Locators(), k, NN)
    decreases m
  {
    hide Add, Mul, Inv, Pow, Horner, Root, Residues, Weights, PowerSum, Power, Locators, InvLocator;
    if m == 0 {
      ResiduesEmpty(e);
      PowerSumZero(Residues([], e), Locators(), k, NN);
      assert l[..0] == [];
    } else {
      var p, c := m - 1, l[m - 1];
      ConvolvePowerSum(l, e, s, k, p);
      SyndromePowerSum(e, k - p);
      assert l[..m] == l[..p] + [c];
      ResiduesSnoc(l[..p], c, e);
      PowerSumTerm(Residues(l[..p], e), Weights(e), c, p, Residues(l[..m], e), k, NN);
    }
  }

  /** The discrepancy of a polynomial of degree at most k, from its values at the inverse locators. */
  lemma DiscrepancyPowerSum(l: seq<bv8>, e: seq<bv8>, s: seq<bv8>, k: nat)
    requires |l| == SIZE && |e| == NN && s == Syndromes(e) && k < NROOTS
    requires forall i :: k < i < SIZE ==> l[i] == 0
    ensures Discrepancy(l, s, k) == PowerSum(Residues(l, e), Locators(), k, NN)
  {
    hide Add, Mul, Inv, Pow, Horner, Root, Convolve, Eval, PowerSum;
    ConvolvePowerSum(l, e, s, k, k + 1);
    forall i | 0 <= i < NN
      ensures Residues(l[..k + 1], e)[i] == Residues(l, e)[i]
    {
      EvalTrim(l, k + 1, InvLocator(i));
    }
    assert Residues(l[..k + 1], e) == Residues(l, e);
  }

  // ---------------------------------------------------------------- erasures stay roots

  lemma TimesXErases(b: seq<bv8>, eras: set<int>)
    requires |b| == SIZE && b[NROOTS] == 0 && Locations(eras) && Erases(b, eras)
    ensures Erases(TimesX(b), eras)
  {
    hide Add, Mul, Inv, Eval;
    forall l | l in eras
      ensures Eval(TimesX(b), InvLocator(l)) == 0
    {
      EvalTimesX(b, InvLocator(l));
      MulUnit(InvLocator(l));
    }
  }

  lemma EvalTimesX(b: seq<bv8>, y: bv8)
    requires |b| == SIZE && b[NROOTS] == 0
    ensures Eval(TimesX(b), y) == Mul(y, Eval(b, y))
  {
    hide Add, Mul, Eval;
    EvalTrim(b, NROOTS, y);
    EvalPadLeft(b[..NROOTS], y);
  }

  lemma EvalCorrected(l: seq<bv8>, b: seq<bv8>, d: bv8, y: bv8)
    requires |l| == SIZE && |b| == SIZE && b[NROOTS] == 0
    ensures Eval(Corrected(l, b, d), y) == Add(Eval(l, y), Mul(d, Mul(y, Eval(b, y))))
  {
    hide Add, Mul, Eval;
    var t := Corrected(l, b, d);
    forall i | 0 <= i < SIZE
      ensures t[i] == Add(l[i], Mul(d, TimesX(b)[i]))
    {
      MulUnit(d);
      AddZero(l[i]);
    }
    EvalLinear(l, TimesX(b), d, t, y);
    EvalTimesX(b, y);
  }

  lemma CorrectedErases(l: seq<bv8>, b: seq<bv8>, d: bv8, eras: set<int>)
    requires |l| == SIZE && |b| == SIZE && b[NROOTS] == 0 && Locations(eras)
    requires Erases(l, eras) && Erases(b, eras)
    ensures Erases(Corrected(l, b, d), eras)
  {
    hide Add, Mul, Inv, Eval, Corrected;
    forall i | i in eras
      ensures Eval(Corrected(l, b, d), InvLocator(i)) == 0
    {
      EvalCorrected(l, b, d, InvLocator(i));
      MulUnit(InvLocator(i));
      MulUnit(d);
      AddZero(0);
    }
  }

  lemma DividedErases(l: seq<bv8>, d: bv8, eras: set<int>)
    requires |l| == SIZE && d != 0 && Locations(eras) && Erases(l, eras)
    ensures Erases(Divided(l, d), eras)
  {
    hide Add, Mul, Inv, Eval;
    forall i | i in eras
      ensures Eval(Divided(l, d), InvLocator(i)) == 0
    {
      forall t | 0 <= t < SIZE
        ensures Divided(l, d)[t] == Mul(Inv(d), l[t])
      {
        MulComm(l[t], Inv(d));
      }
      EvalScale(l, Inv(d), Divided(l, d), InvLocator(i));
      MulUnit(Inv(d));
    }
  }

  // ---------------------------------------------------------------- el never exceeds the number of suspects

  /** The invariant of the iteration when the syndromes are those of an error pattern. */
  ghost predicate Bounded(e: seq<bv8>, eras: set<int>, r: nat, st: State)
    requires |e| == NN && r <= NROOTS && Locations(eras)
  {
    && Invariant(Syndromes(e), |eras|, r, st)
    && Erases(st.lambda, eras) && Erases(st.b, eras)
    && st.el <= |eras| + |Errors(e, eras)|
  }

  lemma ResiduesSupport(l: seq<bv8>, e: seq<bv8>, eras: set<int>)
    requires |e| == NN && Locations(eras) && Erases(l, eras)
    ensures Support(Residues(l, e)) <= Errors(e, eras)
    ensures |Support(Residues(l, e))| <= |Errors(e, eras)|
  {
    hide Mul, Inv, Pow, Eval;
    forall i | i in Support(Residues(l, e))
      ensures i in Errors(e, eras)
    {
      WeightZero(e, i);
      MulUnit(Weights(e)[i]);
      MulUnit(Eval(l, InvLocator(i)));
    }
    SubsetCard(Support(Residues(l, e)), Errors(e, eras));
  }

  /** If lambda predicts enough symbols, it predicts the next one. */
  lemma EnoughPredicted(e: seq<bv8>, eras: set<int>, r: nat, st: State)
    requires |e| == NN && r <= NROOTS && Locations(eras) && Bounded(e, eras, r, st)
    requires |Errors(e, eras)| <= r - st.el
    ensures AllZero(Residues(st.lambda, e))
  {
    hide Mul, Inv, Pow, Eval, Horner, Root, Residues, Discrepancy, PowerSum, Corrects;
    var l, s, z := st.lambda, Syndromes(e), Residues(st.lambda, e);
    forall k | st.el <= k < st.el + (r - st.el)
      ensures PowerSum(z, Locators(), k, |z|) == 0
    {
      DiscrepancyPowerSum(l, e, s, k);
      assert Discrepancy(l, s, k) == 0;
    }
    ResiduesSupport(l, e, eras);
    LocatorsDistinct();
    PowerSumsVanish(z, Locators(), st.el, r - st.el);
  }

  /** A change of length is forced by an error not yet accounted for. */
  lemma LengthJustified(e: seq<bv8>, eras: set<int>, r: nat, st: State)
    requires |e| == NN && r < NROOTS && Locations(eras) && Bounded(e, eras, r, st)
    requires Discrepancy(st.lambda, Syndromes(e), r) != 0
    ensures r + 1 + |eras| - st.el <= |eras| + |Errors(e, eras)|
  {
    hide Mul, Inv, Pow, Eval, Horner, Root, Residues, Discrepancy, PowerSum, Corrects;
    if |Errors(e, eras)| <= r - st.el {
      EnoughPredicted(e, eras, r, st);
      DiscrepancyPowerSum(st.lambda, e, Syndromes(e), r);
      PowerSumZero(Residues(st.lambda, e), Locators(), r, NN);
    }
  }

  lemma StepBounded(e: seq<bv8>, eras: set<int>, r: nat, st: State)
    requires |e| == NN && r < NROOTS && Locations(eras) && Bounded(e, eras, r, st)
    ensures |st.lambda| == SIZE && |st.b| == SIZE
    ensures Bounded(e, eras, r + 1, Step(Syndromes(e), |eras|, r, st))
  {
    hide Mul, Inv, Pow, Horner, Root, Discrepancy, Corrected, Divided, TimesX, Predicts, Corrects, Erases;
    var s := Syndromes(e);
    StepInvariant(s, |eras|, r, st);
    NothingLost(s, |eras|, r, st);
    var d := Discrepancy(st.lambda, s, r);
    if d == 0 {
      TimesXErases(st.b, eras);
    } else {
      CorrectedErases(st.lambda, st.b, d, eras);
      if 2 * st.el <= r + |eras| {
        DividedErases(st.lambda, d, eras);
        LengthJustified(e, eras, r, st);
      } else {
        TimesXErases(st.b, eras);
      }
    }
  }

  lemma {:induction false} RunBounded(e: seq<bv8>, eras: set<int>, r: nat, st: State)
    requires |e| == NN && r <= NROOTS && Locations(eras) && Bounded(e, eras, r, st)
    ensures |st.lambda| == SIZE && |st.b| == SIZE
    ensures Bounded(e, eras, NROOTS, Run(Syndromes(e), |eras|, r, st))
    decreases NROOTS - r
  {
    hide Step, Bounded, Syndromes;
    BoundedSized(e, eras, r, st);
    if r < NROOTS {
      StepBounded(e, eras, r, st);
      RunBounded(e, eras, r + 1, Step(Syndromes(e), |eras|, r, st));
    }
  }

  lemma BoundedSized(e: seq<bv8>, eras: set<int>, r: nat, st: State)
    requires |e| == NN && r <= NROOTS && Locations(eras) && Bounded(e, eras, r, st)
    ensures |st.lambda| == SIZE && |st.b| == SIZE
  {}

  // ---------------------------------------------------------------- the locator polynomial

  /** l is the locator polynomial of the suspects: its degree is their number, and its roots are theirs. */
  ghost predicate Locates(l: seq<bv8>, e: seq<bv8>, eras: set<int>)
    requires |e| == NN && Locations(eras)
  {
    && |l| == SIZE && |Suspects(e, eras)| <= NROOTS
    && l[0] == 1
    && (forall i :: |Suspects(e, eras)| < i < SIZE ==> l[i] == 0)
    && (forall i :: i in Suspects(e, eras) ==> Eval(l, InvLocator(i)) == 0)
  }

  lemma SuspectsCard(e: seq<bv8>, eras: set<int>)
    requires |e| == NN
    ensures |Suspects(e, eras)| == |Errors(e, eras)| + |eras|
  {
    assert Errors(e, eras) !! eras;
  }

  lemma LocatorFound(e: seq<bv8>, eras: set<int>, st: State)
    requires |e| == NN && Locations(eras) && Bounded(e, eras, NROOTS, st)
    requires 2 * |Errors(e, eras)| + |eras| <= NROOTS
    ensures Locates(st.lambda, e, eras)
  {
    hide Mul, Inv, Pow, Eval, Horner, Root, Discrepancy, PowerSum, Corrects, Weights;
    SuspectsCard(e, eras);
    EnoughPredicted(e, eras, NROOTS, st);
    forall i | i in Errors(e, eras)
      ensures Eval(st.lambda, InvLocator(i)) == 0
    {
      WeightZero(e, i);
      assert Residues(st.lambda, e)[i] == 0;
      MulNonZero(Weights(e)[i], Eval(st.lambda, InvLocator(i)));
    }
  }
}
