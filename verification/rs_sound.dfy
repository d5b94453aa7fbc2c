/**
 What a return of `decode_rs_8` that is not -1 is worth, for every received block, however many symbols
 of it are wrong: the block handed back is a codeword exactly when the degree of lambda is the
 length of the recurrence, and no correction other than zero falls into the padding.  The source
 compares the number of roots with the degree only.
 */
module RSSound {
  import opened GF256
  import opened Polynomials
  import opened RSCode
  import opened RSLocations
  import opened RSMassey
  import opened RSRadius
  import opened RSForney
  import opened RSDecoder

  // ---------------------------------------------------------------- a locator with all its roots

  /** l has degree n at most, and roots lists n roots of it. */
  ghost predicate Complete(l: seq<bv8>, n: nat, roots: seq<int>) {
    && |l| == SIZE && n <= NROOTS && l[0] == 1
    && (forall i :: n < i < SIZE ==> l[i] == 0)
    && |roots| == n && RootsBelow(l, NN + 1, roots)
  }

  /** e is zero outside the locations of the roots. */
  ghost predicate Within(e: seq<bv8>, roots: seq<int>)
    requires |e| == NN
  {
    forall loc :: 0 <= loc < NN && e[loc] != 0 ==> loc in LocationsOf(roots)
  }

  lemma RootsVanish(l: seq<bv8>, n: nat, roots: seq<int>, loc: int)
    requires Complete(l, n, roots) && loc in LocationsOf(roots)
    ensures Eval(l, InvLocator(loc)) == 0
  {
    hide Eval, Pow, InvLocator, LocationOf;
    var j :| 0 <= j < |roots| && loc == LocationOf(roots[j]);
    RootLocation(roots[j]);
  }

  /** Any pattern at those locations has l as its locator, when all of them are taken as erased. */
  lemma CompleteLocates(l: seq<bv8>, n: nat, roots: seq<int>, e: seq<bv8>)
    requires Complete(l, n, roots) && |e| == NN && Within(e, roots)
    ensures Suspects(e, LocationsOf(roots)) == LocationsOf(roots) && |LocationsOf(roots)| == n
    ensures Locates(l, e, LocationsOf(roots))
  {
    hide Eval, Pow, InvLocator, LocationOf, LocationsOf;
    LocationsOfCard(l, NN + 1, roots);
    assert Errors(e, LocationsOf(roots)) == {};
    forall loc | loc in LocationsOf(roots)
      ensures Eval(l, InvLocator(loc)) == 0
    {
      RootsVanish(l, n, roots, loc);
    }
  }

  /** A location that is no root's is no zero of l. */
  lemma NoOtherRoot(l: seq<bv8>, n: nat, roots: seq<int>, loc: nat)
    requires Complete(l, n, roots) && loc < NN && Eval(l, InvLocator(loc)) == 0
    ensures loc in LocationsOf(roots)
  {
    hide Eval, Pow, InvLocator, LocationOf, LocationsOf, Complete;
    var none := seq(NN, _ => 0 as bv8);
    CompleteLocates(l, n, roots, none);
    LocatorRoots(l, none, LocationsOf(roots), loc);
  }

  // ---------------------------------------------------------------- the corrections, as a pattern

  /** The corrections at the locations of the roots. */
  function Corrections(l: seq<bv8>, s: seq<bv8>, n: nat, roots: seq<int>): (e: seq<bv8>)
    requires |l| == SIZE && |s| == NROOTS && n <= NROOTS
    ensures |e| == NN
  {
    seq(NN, loc requires 0 <= loc < NN =>
      if loc in LocationsOf(roots) then Magnitude(l, s, n, ExponentOf(loc)) else 0)
  }

  lemma ExponentOfLocation(i: nat)
    requires 1 <= i <= NN
    ensures ExponentOf(LocationOf(i)) == i
  {
    hide LocationOf;
    var x := ExponentOf(LocationOf(i));
    LocationOfExponent(LocationOf(i));
    if x < i { LocationInjective(x, i); }
    if i < x { LocationInjective(i, x); }
  }

  lemma CorrectionAt(l: seq<bv8>, s: seq<bv8>, n: nat, roots: seq<int>, j: nat)
    requires Complete(l, n, roots) && |s| == NROOTS && j < |roots|
    ensures Corrections(l, s, n, roots)[LocationOf(roots[j])] == Magnitude(l, s, n, roots[j])
  {
    hide Magnitude, LocationOf, Eval;
    ExponentOfLocation(roots[j]);
    InLocations(roots, j);
  }

  /** Forney's quotient determines the evaluator. */
  lemma SameQuotient(l: seq<bv8>, s: seq<bv8>, t: seq<bv8>, n: nat, i: nat)
    requires |l| == SIZE && |s| == NROOTS == |t| && n <= NROOTS
    requires Derivative(l, Pow(i), NROOTS / 2) != 0
    requires Magnitude(l, s, n, i) == Magnitude(l, t, n, i)
    ensures Eval(Evaluator(l, s, n), Pow(i)) == Eval(Evaluator(l, t, n), Pow(i))
  {
    hide Mul, Inv, Pow, Power, Eval, Evaluator, Derivative;
    var y, den := Pow(i), Derivative(l, Pow(i), NROOTS / 2);
    var a, b, p := Eval(Evaluator(l, s, n), y), Eval(Evaluator(l, t, n), y), Power(y, FCR - 1);
    MulInv(den);
    MulComm(Mul(a, p), Inv(den));
    MulComm(Mul(b, p), Inv(den));
    MulCancel(Inv(den), Mul(a, p), Mul(b, p));
    LogPow(i);
    PowerNonZero(y, FCR - 1);
    MulComm(a, p);
    MulComm(b, p);
    MulCancel(p, a, b);
  }

  lemma SameAtRoot(l: seq<bv8>, s: seq<bv8>, n: nat, roots: seq<int>, k: nat)
    requires Complete(l, n, roots) && |s| == NROOTS && k in LocationsOf(roots)
    ensures var t := Syndromes(Corrections(l, s, n, roots));
      k < NN && Eval(Evaluator(l, s, n), InvLocator(k)) == Eval(Evaluator(l, t, n), InvLocator(k))
  {
    hide Mul, Inv, Pow, Eval, Evaluator, Derivative, Magnitude, Syndromes, InvLocator, LocationOf, PartsAt;
    var e, where := Corrections(l, s, n, roots), LocationsOf(roots);
    var j :| 0 <= j < |roots| && k == LocationOf(roots[j]);
    CompleteLocates(l, n, roots, e);
    CorrectionAt(l, s, n, roots, j);
    MagnitudeIsError(l, e, where, roots[j]);
    RootLocation(roots[j]);
    DerivativeAtSuspect(l, e, where, k);
    OwnPartsNonZero(l, e, where, k);
    LocatorNonZero(k);
    MulNonZero(Locator(k), PartsAt(l, n, k, k));
    SameQuotient(l, s, Syndromes(e), n, roots[j]);
  }

  /** The sum of two polynomials of the same size. */
  function PolySum(p: seq<bv8>, q: seq<bv8>): (r: seq<bv8>)
    requires |p| == |q|
    ensures |r| == |p|
  {
    seq(|p|, i requires 0 <= i < |p| => Add(p[i], q[i]))
  }

  lemma SumVanishes(p: seq<bv8>, q: seq<bv8>, y: bv8)
    requires |p| == |q| && Eval(p, y) == Eval(q, y)
    ensures Eval(PolySum(p, q), y) == 0
  {
    hide Add, Mul, Eval;
    var r := PolySum(p, q);
    forall i | 0 <= i < |p|
      ensures r[i] == Add(p[i], Mul(1, q[i]))
    {
      MulUnit(q[i]);
    }
    EvalLinear(p, q, 1, r, y);
    MulUnit(Eval(q, y));
    AddSelf(Eval(p, y));
  }

  lemma SumIsZero(p: seq<bv8>, q: seq<bv8>)
    requires |p| == |q| && AllZero(PolySum(p, q))
    ensures p == q
  {
    hide Add;
    forall i | 0 <= i < |p|
      ensures p[i] == q[i]
    {
      assert PolySum(p, q)[i] == 0;
      AddCancel(p[i], q[i]);
    }
  }

  /** Polynomials that agree at as many locations as they have coefficients are the same. */
  lemma SamePolynomial(p: seq<bv8>, q: seq<bv8>, where: set<int>)
    requires Locations(where) && |p| == |q| <= |where|
    requires forall k :: k in where ==> Eval(p, InvLocator(k)) == Eval(q, InvLocator(k))
    ensures p == q
  {
    hide Add, Eval, InvLocator, PolySum;
    forall y | y in InvLocators(where)
      ensures Eval(PolySum(p, q), y) == 0
    {
      SumVanishes(p, q, y);
    }
    InvLocatorsCard(where);
    RootBound(PolySum(p, q), InvLocators(where));
    SumIsZero(p, q);
  }

  // ---------------------------------------------------------------- the corrections explain the syndromes

  /** Symbols that are the same up to k are the same at k if their convolutions there are. */
  lemma {:induction false} ConvolveDiffers(l: seq<bv8>, s: seq<bv8>, t: seq<bv8>, k: nat, m: nat)
    requires 1 <= m <= |l| && m <= k + 1 && k < |s| == |t| && l[0] == 1
    requires forall i :: 0 <= i < k ==> s[i] == t[i]
    ensures Convolve(l, s, k, m) == Convolve(l, t, k, m) ==> s[k] == t[k]
    decreases m
  {
    hide Add, Mul;
    if m == 1 {
      assert Convolve(l, s, k, 0) == 0 == Convolve(l, t, k, 0);
      MulUnit(s[k]);
      MulUnit(t[k]);
      AddZero(s[k]);
      AddZero(t[k]);
    } else {
      ConvolveDiffers(l, s, t, k, m - 1);
      var x := Mul(l[m - 1], s[k - (m - 1)]);
      AddCancel(Convolve(l, s, k, m - 1), x);
      AddCancel(Convolve(l, t, k, m - 1), x);
    }
  }

  lemma {:induction false} SameSymbols(l: seq<bv8>, s: seq<bv8>, t: seq<bv8>, n: nat)
    requires |l| == SIZE && |s| == NROOTS == |t| && l[0] == 1 && n <= NROOTS
    requires forall k :: 0 <= k < NROOTS ==> Discrepancy(l, s, k) == Discrepancy(l, t, k)
    ensures s[..n] == t[..n]
  {
    hide Convolve;
    if n > 0 {
      SameSymbols(l, s, t, n - 1);
      assert forall i :: 0 <= i < n - 1 ==> s[i] == s[..n - 1][i] == t[..n - 1][i] == t[i];
      assert Discrepancy(l, s, n - 1) == Discrepancy(l, t, n - 1);
      ConvolveDiffers(l, s, t, n - 1, n);
    }
  }

  /** The syndromes of a pattern at the roots of l obey the recurrence l from n on. */
  lemma PatternPredicted(l: seq<bv8>, n: nat, roots: seq<int>, e: seq<bv8>, k: nat)
    requires Complete(l, n, roots) && |e| == NN && Within(e, roots) && n <= k < NROOTS
    ensures Discrepancy(l, Syndromes(e), k) == 0
  {
    hide Mul, Eval, InvLocator, Syndromes, Weights, LocationsOf, Convolve, PowerSum;
    var z := Residues(l, e);
    forall m | 0 <= m < NN
      ensures z[m] == 0
    {
      WeightZero(e, m);
      if m in LocationsOf(roots) { RootsVanish(l, n, roots, m); }
      MulUnit(Weights(e)[m]);
      MulUnit(Eval(l, InvLocator(m)));
    }
    DiscrepancyPowerSum(l, e, Syndromes(e), k);
    PowerSumZero(z, Locators(), k, NN);
  }

  /** If l has all its roots and generates every symbol from its degree on, the corrections have those symbols as syndromes. */
  lemma CorrectionsExplain(l: seq<bv8>, s: seq<bv8>, n: nat, roots: seq<int>)
    requires Complete(l, n, roots) && |s| == NROOTS && Predicts(s, NROOTS, l, n)
    ensures Syndromes(Corrections(l, s, n, roots)) == s
  {
    hide Eval, InvLocator, Syndromes, LocationsOf, Magnitude, Discrepancy;
    var e := Corrections(l, s, n, roots);
    var t := Syndromes(e);
    CompleteLocates(l, n, roots, e);
    forall k | k in LocationsOf(roots)
      ensures Eval(Evaluator(l, s, n), InvLocator(k)) == Eval(Evaluator(l, t, n), InvLocator(k))
    {
      SameAtRoot(l, s, n, roots, k);
    }
    SamePolynomial(Evaluator(l, s, n), Evaluator(l, t, n), LocationsOf(roots));
    forall k | 0 <= k < NROOTS
      ensures Discrepancy(l, s, k) == Discrepancy(l, t, k)
    {
      if k < n {
        assert Evaluator(l, s, n)[k] == Evaluator(l, t, n)[k];
      } else {
        PatternPredicted(l, n, roots, e, k);
      }
    }
    SameSymbols(l, s, t, NROOTS);
    assert s[..NROOTS] == s && t[..NROOTS] == t;
  }

  // ---------------------------------------------------------------- the block that is handed back

  /** The variables of the iteration when it ends. */
  function Final(s: seq<bv8>, eras: seq<int>): (st: State)
    requires |s| == NROOTS && ErasuresInRange(eras)
    ensures |st.lambda| == SIZE && st.lambda == ErrorLocator(s, eras)
  {
    var start := ErasureLocator(eras);
    Run(s, |eras|, |eras|, State(start, start, |eras|))
  }

  lemma FinalPredicts(s: seq<bv8>, eras: seq<int>)
    requires |s| == NROOTS && ErasuresInRange(eras)
    ensures var st := Final(s, eras);
      Predicts(s, NROOTS, st.lambda, st.el) && Degree(st.lambda, SIZE) <= st.el
  {
    hide Run, ErasureLocator, Corrects, Discrepancy;
    var start := ErasureLocator(eras);
    ErasureLocatorShape(eras);
    StartInvariant(s, |eras|, start);
    RunInvariant(s, |eras|, |eras|, State(start, start, |eras|));
    var l := Final(s, eras).lambda;
    if Degree(l, SIZE) > 0 { DegreeNonZero(l, SIZE); }
  }

  /** What the search finds, and the corrections it leads to. */
  function Roots(s: seq<bv8>, eras: seq<int>): (roots: seq<int>)
    requires |s| == NROOTS && ErasuresInRange(eras)
  {
    var l := ErrorLocator(s, eras);
    Scan(l, Degree(l, SIZE), 1, [])
  }

  function Pattern(s: seq<bv8>, eras: seq<int>): (e: seq<bv8>)
    requires |s| == NROOTS && ErasuresInRange(eras)
    ensures |e| == NN
  {
    var l := ErrorLocator(s, eras);
    Corrections(l, s, Degree(l, SIZE), Roots(s, eras))
  }

  /** No correction other than zero lies in the padding of a block of length n. */
  predicate NoSpill(e: seq<bv8>, n: nat)
    requires |e| == NN
  {
    forall loc :: 0 <= loc < NN - n ==> e[loc] == 0
  }

  /** A block that is not given up: the search found as many roots as the degree says. */
  lemma NotGivenUp(d: seq<bv8>, eras: seq<int>)
    requires |d| <= NN && ErasuresInRange(eras) && !IsCodeword(d) && Decode(d, eras).count >= 0
    ensures var s, l, r := Syndromes(d), ErrorLocator(Syndromes(d), eras), Decode(d, eras);
      var roots := Roots(s, eras);
      && Complete(l, Degree(l, SIZE), roots) && r.count == Degree(l, SIZE)
      && r.data == Repair(d, l, s, r.count, roots, r.count)
  {
    hide Syndromes, ErrorLocator, Repair, Eval, LocationOf, Scan, IsCodeword, Decode, Degree;
    var s, l := Syndromes(d), ErrorLocator(Syndromes(d), eras);
    NotAllZero(d);
    ErrorLocatorShape(s, eras);
    DegreeTop(l, SIZE);
    ScanInRange(l, Degree(l, SIZE), 1, []);
    EnoughRoots(d, eras);
    DecodeUnfold(d, eras, l, Roots(s, eras));
  }

  lemma EnoughRoots(d: seq<bv8>, eras: seq<int>)
    requires |d| <= NN && ErasuresInRange(eras) && !AllZero(Syndromes(d)) && Decode(d, eras).count >= 0
    ensures |Roots(Syndromes(d), eras)| == Degree(ErrorLocator(Syndromes(d), eras), SIZE)
  {
    hide Syndromes, ErrorLocator, Repair, Scan, Degree, LocationOf;
  }

  lemma {:induction false} RepairElsewhere(d: seq<bv8>, l: seq<bv8>, s: seq<bv8>, deg: nat, roots: seq<int>, n: nat, p: nat)
    requires |d| <= NN && |l| == SIZE && |s| == NROOTS && deg <= NROOTS && n <= |roots| && p < |d|
    requires forall j :: 0 <= j < |roots| ==> roots[j] >= 0
    requires p + (NN - |d|) !in LocationsOf(roots)
    ensures Repair(d, l, s, deg, roots, n)[p] == d[p]
    decreases n
  {
    hide Magnitude, LocationOf, LocationsOf;
    if n > 0 {
      InLocations(roots, n - 1);
      RepairElsewhere(Fix(d, l, s, deg, roots[n - 1]), l, s, deg, roots, n - 1, p);
    }
  }

  /** A block whose difference from d has the syndromes of d is a codeword. */
  lemma DifferenceExplains(d: seq<bv8>, c: seq<bv8>)
    requires |d| == |c| <= NN && Syndromes(ErrorPattern(d, c)) == Syndromes(d)
    ensures IsCodeword(c)
  {
    hide Add, Mul, Horner, Root, Difference, Padded;
    forall i | 0 <= i < NROOTS
      ensures Horner(c, Root(i)) == 0
    {
      var x := Root(i);
      assert Syndromes(ErrorPattern(d, c))[i] == Syndromes(d)[i];
      HornerPadded(Difference(d, c), x);
      HornerDifference(d, c, x);
      AddCancel(Horner(d, x), Horner(c, x));
      AddSelf(Horner(d, x));
    }
  }

  /** Corrections that explain the syndromes and stay in the block lead to a codeword. */
  lemma SoundIf(d: seq<bv8>, eras: seq<int>)
    requires |d| <= NN && ErasuresInRange(eras) && !IsCodeword(d) && Decode(d, eras).count >= 0
    requires Final(Syndromes(d), eras).el == Decode(d, eras).count
    requires NoSpill(Pattern(Syndromes(d), eras), |d|)
    ensures IsCodeword(Decode(d, eras).data)
  {
    hide Syndromes, ErrorLocator, Final, Repair, Decode, IsCodeword, Complete, Locates, Suspects, LocationsOf, Predicts,
      Roots, Degree, Magnitude, LocationOf;
    var s := Syndromes(d);
    var l, roots, e, c := ErrorLocator(s, eras), Roots(s, eras), Pattern(s, eras), Decode(d, eras).data;
    var n := Degree(l, SIZE);
    NotGivenUp(d, eras);
    FinalPredicts(s, eras);
    CompleteParts(l, n, roots);
    CorrectionsExplain(l, s, n, roots);
    CompleteLocates(l, n, roots, e);
    assert roots[..n] == roots;
    forall loc | NN - |d| <= loc < NN
      ensures ErrorPattern(d, c)[loc] == e[loc]
    {
      var p := loc - (NN - |d|);
      RepairAt(d, l, e, LocationsOf(roots), roots, n, p);
      PatternIs(d, c, p);
      DifferenceIs(d[p], e[loc]);
    }
    SamePattern(d, c, e);
    DifferenceExplains(d, c);
  }

  lemma CompleteParts(l: seq<bv8>, n: nat, roots: seq<int>)
    requires Complete(l, n, roots)
    ensures |l| == SIZE && n <= NROOTS && |roots| == n && RootsBelow(l, NN + 1, roots)
    ensures forall j :: 0 <= j < n ==> roots[j] >= 0
  {
    hide Eval, Pow;
  }

  lemma DifferenceIs(a: bv8, b: bv8)
    ensures Add(a, Add(a, b)) == b && Add(a, a) == 0
  {
    AddCancel(a, b);
    AddSelf(a);
  }

  lemma SamePattern(d: seq<bv8>, c: seq<bv8>, e: seq<bv8>)
    requires |d| == |c| <= NN == |e| && NoSpill(e, |d|)
    requires forall loc :: NN - |d| <= loc < NN ==> ErrorPattern(d, c)[loc] == e[loc]
    ensures ErrorPattern(d, c) == e
  {
    hide Add;
  }

  lemma PatternIs(d: seq<bv8>, c: seq<bv8>, p: nat)
    requires |d| == |c| <= NN && p < |d|
    ensures ErrorPattern(d, c)[p + (NN - |d|)] == Add(d[p], c[p])
  {
    hide Add;
  }

  /** A codeword among the possible results is only reached in that way. */
  lemma SoundOnlyIf(d: seq<bv8>, eras: seq<int>)
    requires |d| <= NN && ErasuresInRange(eras) && Distinct(eras) && !IsCodeword(d) && Decode(d, eras).count >= 0
    requires IsCodeword(Decode(d, eras).data)
    ensures Final(Syndromes(d), eras).el == Decode(d, eras).count
    ensures NoSpill(Pattern(Syndromes(d), eras), |d|)
  {
    hide Syndromes, ErrorLocator, Repair, Decode, IsCodeword, Complete, Locates, Suspects, LocationsOf, Predicts,
      Roots, Degree, Magnitude, LocationOf, Bounded, Run, ErasureLocator, ErrorPattern, Errors;
    var s := Syndromes(d);
    var l, roots, c := ErrorLocator(s, eras), Roots(s, eras), Decode(d, eras).data;
    var n, e, t := Degree(l, SIZE), ErrorPattern(d, c), ToSet(eras);
    NotGivenUp(d, eras);
    FinalPredicts(s, eras);
    CompleteParts(l, n, roots);
    SyndromesOfPattern(d, c);
    PatternWithin(d, l, s, n, roots);
    CompleteLocates(l, n, roots, e);
    StartBounded(e, eras);
    RunBounded(e, t, |eras|, State(ErasureLocator(eras), ErasureLocator(eras), |eras|));
    AllAccounted(e, t, Final(s, eras), n, roots);
    forall loc | 0 <= loc < NN - |d|
      ensures Pattern(s, eras)[loc] == 0
    {
      if loc in LocationsOf(roots) {
        PaddingCorrection(d, c, l, s, n, roots, loc);
      }
    }
  }

  /** Where nothing was corrected, the pattern of a repair is zero. */
  lemma PatternElsewhere(d: seq<bv8>, l: seq<bv8>, s: seq<bv8>, n: nat, roots: seq<int>, loc: nat)
    requires |d| <= NN && |l| == SIZE && |s| == NROOTS && n <= NROOTS && n == |roots| && loc < NN
    requires forall j :: 0 <= j < |roots| ==> roots[j] >= 0
    requires loc !in LocationsOf(roots)
    ensures ErrorPattern(d, Repair(d, l, s, n, roots, n))[loc] == 0
  {
    hide Add, Repair, LocationsOf;
    if loc >= NN - |d| {
      var p := loc - (NN - |d|);
      RepairElsewhere(d, l, s, n, roots, n, p);
      AddSelf(d[p]);
    }
  }

  lemma PatternWithin(d: seq<bv8>, l: seq<bv8>, s: seq<bv8>, n: nat, roots: seq<int>)
    requires |d| <= NN && |s| == NROOTS && Complete(l, n, roots)
    ensures forall j :: 0 <= j < |roots| ==> roots[j] >= 0
    ensures Within(ErrorPattern(d, Repair(d, l, s, n, roots, n)), roots)
  {
    hide Repair, LocationsOf, Complete, ErrorPattern;
    CompleteParts(l, n, roots);
    forall loc | 0 <= loc < NN && loc !in LocationsOf(roots)
      ensures ErrorPattern(d, Repair(d, l, s, n, roots, n))[loc] == 0
    {
      PatternElsewhere(d, l, s, n, roots, loc);
    }
  }

  /** The length never exceeds the number of locations in question, and those are all among the roots'. */
  lemma AllAccounted(e: seq<bv8>, eras: set<int>, st: State, n: nat, roots: seq<int>)
    requires |e| == NN && Locations(eras) && Bounded(e, eras, NROOTS, st)
    requires Complete(st.lambda, n, roots) && Within(e, roots)
    ensures st.el <= n
  {
    hide Eval, InvLocator, LocationsOf, Complete, Invariant, Syndromes;
    forall loc | loc in Suspects(e, eras)
      ensures loc in LocationsOf(roots)
    {
      if loc in eras { NoOtherRoot(st.lambda, n, roots, loc); }
    }
    SuspectsCard(e, eras);
    SubsetCard(Suspects(e, eras), LocationsOf(roots));
    CompleteLocates(st.lambda, n, roots, e);
  }

  /** At a location that cannot be corrected, the correction of a consistent pattern is zero. */
  lemma PaddingCorrection(d: seq<bv8>, c: seq<bv8>, l: seq<bv8>, s: seq<bv8>, n: nat, roots: seq<int>, loc: nat)
    requires |d| == |c| <= NN && s == Syndromes(ErrorPattern(d, c)) && Complete(l, n, roots)
    requires Within(ErrorPattern(d, c), roots) && loc < NN - |d| && loc in LocationsOf(roots)
    ensures Corrections(l, s, n, roots)[loc] == 0
  {
    hide Magnitude, LocationOf, Syndromes, Complete, Locates, Suspects, Add, Difference;
    var e := ErrorPattern(d, c);
    var j :| 0 <= j < |roots| && loc == LocationOf(roots[j]);
    CompleteParts(l, n, roots);
    CompleteLocates(l, n, roots, e);
    CorrectionAt(l, s, n, roots, j);
    MagnitudeIsError(l, e, LocationsOf(roots), roots[j]);
  }

  /**
   For every received block that is no codeword and is not given up: what is handed back is a codeword if and
   only if the degree of lambda is the length of the recurrence and nothing had to be corrected in the padding.
   */
  lemma OutputIsCodeword(d: seq<bv8>, eras: seq<int>)
    requires |d| <= NN && ErasuresInRange(eras) && Distinct(eras) && !IsCodeword(d) && Decode(d, eras).count >= 0
    ensures IsCodeword(Decode(d, eras).data) <==>
      Final(Syndromes(d), eras).el == Decode(d, eras).count && NoSpill(Pattern(Syndromes(d), eras), |d|)
  {
    hide Decode, Final, Pattern, NoSpill, IsCodeword, Syndromes;
    if IsCodeword(Decode(d, eras).data) {
      SoundOnlyIf(d, eras);
    } else if Final(Syndromes(d), eras).el == Decode(d, eras).count && NoSpill(Pattern(Syndromes(d), eras), |d|) {
      SoundIf(d, eras);
    }
  }

  // ---------------------------------------------------------------- every outcome, without the search

  /** The correction that Forney's formula gives at a location where l vanishes; none elsewhere. */
  function CorrectionAtLocation(l: seq<bv8>, s: seq<bv8>, deg: nat, loc: nat): bv8
    requires |l| == SIZE && |s| == NROOTS && deg <= NROOTS && loc < NN
  {
    if loc in RootLocations(l) then Magnitude(l, s, deg, ExponentOf(loc)) else 0
  }

  /** Repairing the first n roots corrects each of their locations once. */
  lemma {:induction false} RepairGives(d: seq<bv8>, l: seq<bv8>, s: seq<bv8>, deg: nat, roots: seq<int>, n: nat, p: nat)
    requires |d| <= NN && |l| == SIZE && |s| == NROOTS && deg <= NROOTS && p < |d|
    requires RootsBelow(l, NN + 1, roots) && n <= |roots|
    ensures forall j :: 0 <= j < n ==> roots[j] >= 0
    ensures var loc := p + (NN - |d|);
      Repair(d, l, s, deg, roots, n)[p]
        == if loc in LocationsOf(roots[..n]) then Add(d[p], Magnitude(l, s, deg, ExponentOf(loc))) else d[p]
    decreases n
  {
    hide Add, Eval, Pow, LocationOf, Magnitude, LocationsOf;
    if n == 0 {
      NoLocations();
      assert roots[..0] == [];
    } else {
      var i := roots[n - 1];
      ExponentOfLocation(i);
      RepairGives(Fix(d, l, s, deg, i), l, s, deg, roots, n - 1, p);
      LastLocation(l, roots, n - 1);
    }
  }

  /** The roots' locations, in the order of the search. */
  ghost predicate Lists(locs: seq<int>, l: seq<bv8>) {
    && ToSet(locs) == RootLocations(l)
    && (forall j :: 0 <= j < |locs| ==> 0 <= locs[j] < NN)
    && (forall j, k :: 0 <= j < k < |locs| ==> ExponentOf(locs[j]) < ExponentOf(locs[k]))
  }

  /**
   What becomes of a block d: a codeword is left alone, a block for which lambda has fewer roots than its
   degree is given up and left alone, and in any other every root's location gets its correction and is listed.
   */
  ghost predicate Settled(d: seq<bv8>, eras: seq<int>, d': seq<bv8>, count: int, locs: seq<int>)
    requires |d| <= NN && ErasuresInRange(eras)
  {
    var s, l := Syndromes(d), ErrorLocator(Syndromes(d), eras);
    var deg := Degree(l, SIZE);
    && (IsCodeword(d) ==> count == 0 && d' == d && locs == [])
    && (Hopeless(d, eras) ==> count == -1 && d' == d && locs == [])
    && (!IsCodeword(d) && !Hopeless(d, eras) ==>
         && count == deg == |locs| == |RootLocations(l)| && Lists(locs, l) && |d'| == |d|
         && forall p :: 0 <= p < |d| ==> d'[p] == Add(d[p], CorrectionAtLocation(l, s, deg, p + (NN - |d|))))
  }

  lemma LocationsListed(l: seq<bv8>, roots: seq<int>, locs: seq<int>)
    requires RootsBelow(l, NN + 1, roots) && |roots| == |RootLocations(l)| == |locs|
    requires forall j :: 0 <= j < |locs| ==> locs[j] == LocationOf(roots[j])
    ensures Lists(locs, l) && LocationsOf(roots) == RootLocations(l)
  {
    hide Eval, LocationOf, RootLocations, ExponentOf, LocationsOf, Pow;
    FoundAreRoots(l, roots);
    LocationsOfCard(l, NN + 1, roots);
    EqualCard(LocationsOf(roots), RootLocations(l));
    LocationsAsSet(roots, locs);
    forall j | 0 <= j < |locs|
      ensures ExponentOf(locs[j]) == roots[j]
    {
      ExponentOfLocation(roots[j]);
    }
  }

  lemma CorrectedEverywhere(d: seq<bv8>, l: seq<bv8>, s: seq<bv8>, deg: nat, roots: seq<int>)
    requires |d| <= NN && |s| == NROOTS && Complete(l, deg, roots) && LocationsOf(roots) == RootLocations(l)
    ensures forall j :: 0 <= j < deg ==> roots[j] >= 0
    ensures forall p :: 0 <= p < |d| ==>
      Repair(d, l, s, deg, roots, deg)[p] == Add(d[p], CorrectionAtLocation(l, s, deg, p + (NN - |d|)))
  {
    hide Add, Eval, Magnitude, LocationsOf, RootLocations, Repair, RootsBelow;
    CompleteParts(l, deg, roots);
    assert roots[..deg] == roots;
    forall p | 0 <= p < |d|
      ensures Repair(d, l, s, deg, roots, deg)[p] == Add(d[p], CorrectionAtLocation(l, s, deg, p + (NN - |d|)))
    {
      RepairGives(d, l, s, deg, roots, deg, p);
      AddZero(d[p]);
    }
  }

  /** The decoding function has exactly these outcomes. */
  lemma DecodeSettles(d: seq<bv8>, eras: seq<int>)
    requires |d| <= NN && ErasuresInRange(eras)
    ensures Settled(d, eras, Decode(d, eras).data, Decode(d, eras).count, Decode(d, eras).locations)
  {
    hide Syndromes, ErrorLocator, Repair, LocationOf, Scan, Degree, RootLocations, Decode, Hopeless, IsCodeword,
      CorrectionAtLocation, Lists, Complete;
    GivenUp(d, eras);
    if IsCodeword(d) {
      DecodeCodeword(d, eras);
    } else if !Hopeless(d, eras) {
      SettledByCorrection(d, eras);
    }
  }

  lemma SettledByCorrection(d: seq<bv8>, eras: seq<int>)
    requires |d| <= NN && ErasuresInRange(eras) && !IsCodeword(d) && Decode(d, eras).count >= 0
    ensures var s, l, r := Syndromes(d), ErrorLocator(Syndromes(d), eras), Decode(d, eras);
      && r.count == Degree(l, SIZE) == |r.locations| == |RootLocations(l)| && Lists(r.locations, l) && |r.data| == |d|
      && forall p :: 0 <= p < |d| ==> r.data[p] == Add(d[p], CorrectionAtLocation(l, s, Degree(l, SIZE), p + (NN - |d|)))
  {
    hide Syndromes, ErrorLocator, Repair, LocationOf, Scan, Degree, RootLocations, Decode, IsCodeword,
      CorrectionAtLocation, Lists, Complete, LocationsOf, Add;
    var s, l, roots := Syndromes(d), ErrorLocator(Syndromes(d), eras), Roots(Syndromes(d), eras);
    NotGivenUp(d, eras);
    CompleteParts(l, Degree(l, SIZE), roots);
    NotAllZero(d);
    DecodeUnfold(d, eras, l, roots);
    ErrorLocatorShape(s, eras);
    DegreeTop(l, SIZE);
    ScanFallsShort(l, Degree(l, SIZE));
    LocationsListed(l, roots, Decode(d, eras).locations);
    CorrectedEverywhere(d, l, s, Degree(l, SIZE), roots);
  }
}
