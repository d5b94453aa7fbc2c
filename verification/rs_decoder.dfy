/**
 `decode_rs_8` as a function of the received block, and its correctness: a codeword with
 `rho` erased locations and `nu` other errors, 2 nu + rho <= 32, is restored exactly.
 The method that computes this function in place is in module RSDecoderCode.
 */
module RSDecoder {
  import opened GF256
  import opened Polynomials
  import opened RSCode
  import opened RSLocations
  import opened RSMassey
  import opened RSRadius
  import opened RSForney

  // ---------------------------------------------------------------- the specification

  function One(): (l: seq<bv8>)
    ensures |l| == SIZE
  {
    [1] + seq(NROOTS, _ => 0)
  }

  predicate ErasuresInRange(eras: seq<int>) {
    |eras| <= NROOTS && forall i :: 0 <= i < |eras| ==> 0 <= eras[i] < NN
  }

  /** The product of (1 - X x) over the erased locations. */
  function ErasureLocator(eras: seq<int>): (l: seq<bv8>)
    requires ErasuresInRange(eras)
    ensures |l| == SIZE
  {
    if eras == [] then One()
    else
      var l := ErasureLocator(eras[..|eras| - 1]);
      Corrected(l, l, Locator(eras[|eras| - 1]))
  }

  function ErrorLocator(s: seq<bv8>, eras: seq<int>): (l: seq<bv8>)
    requires |s| == NROOTS && ErasuresInRange(eras)
    ensures |l| == SIZE
  {
    var start := ErasureLocator(eras);
    Run(s, |eras|, |eras|, State(start, start, |eras|)).lambda
  }

  /** The highest index below n of a non-zero coefficient, or zero. */
  function Degree(l: seq<bv8>, n: nat): (deg: nat)
    requires n <= |l|
    ensures deg == 0 || deg < n
  {
    if n == 0 then 0 else if l[n - 1] != 0 then n - 1 else Degree(l, n - 1)
  }

  /** Add the correction of the root x^i to its location, unless that lies in the padding. */
  function Fix(d: seq<bv8>, l: seq<bv8>, s: seq<bv8>, deg: nat, i: nat): (d': seq<bv8>)
    requires |d| <= NN && |l| == SIZE && |s| == NROOTS && deg <= NROOTS
    ensures |d'| == |d|
  {
    var p := LocationOf(i) - (NN - |d|);
    if p >= 0 then d[p := Add(d[p], Magnitude(l, s, deg, i))] else d
  }

  /** Fix the first n roots, last one first. */
  function Repair(d: seq<bv8>, l: seq<bv8>, s: seq<bv8>, deg: nat, roots: seq<int>, n: nat): (d': seq<bv8>)
    requires |d| <= NN && |l| == SIZE && |s| == NROOTS && deg <= NROOTS && n <= |roots|
    requires forall j :: 0 <= j < n ==> roots[j] >= 0
    ensures |d'| == |d|
    decreases n
  {
    if n == 0 then d else Repair(Fix(d, l, s, deg, roots[n - 1]), l, s, deg, roots, n - 1)
  }

  datatype Outcome = Outcome(count: int, data: seq<bv8>, locations: seq<int>)

  function Decode(d: seq<bv8>, eras: seq<int>): (r: Outcome)
    requires |d| <= NN && ErasuresInRange(eras)
    ensures |r.data| == |d|
  {
    var s := Syndromes(d);
    if AllZero(s) then Outcome(0, d, [])
    else
      var l := ErrorLocator(s, eras);
      var deg := Degree(l, SIZE);
      var roots := Scan(l, deg, 1, []);
      ScanInRange(l, deg, 1, []);
      if |roots| != deg then Outcome(-1, d, [])
      else Outcome(deg, Repair(d, l, s, deg, roots, deg), seq(deg, j requires 0 <= j < deg => LocationOf(roots[j])))
  }

  lemma {:induction false} ScanInRange(l: seq<bv8>, deg: int, i: int, found: seq<int>)
    requires 1 <= i <= NN + 1 && RootsBelow(l, i, found)
    ensures var r := Scan(l, deg, i, found);
      RootsBelow(l, NN + 1, r) && |r| >= |found| && (|found| < deg ==> |r| <= deg)
    decreases NN - i
  {
    hide Eval, Pow;
    if i > NN {
    } else if Eval(l, Pow(i)) != 0 {
      ScanInRange(l, deg, i + 1, found);
    } else if |found| + 1 == deg {
    } else {
      ScanInRange(l, deg, i + 1, found + [i]);
    }
  }

  // ---------------------------------------------------------------- the start of the iteration

  function ToSet(eras: seq<int>): set<int> {
    set i | 0 <= i < |eras| :: eras[i]
  }

  predicate Distinct(eras: seq<int>) {
    forall i, j :: 0 <= i < j < |eras| ==> eras[i] != eras[j]
  }

  lemma ToSetSnoc(eras: seq<int>, x: int)
    ensures ToSet(eras + [x]) == ToSet(eras) + {x}
  {
    var r := eras + [x];
    forall y | y in ToSet(eras)
      ensures y in ToSet(r)
    {
      var j :| 0 <= j < |eras| && y == eras[j];
      assert r[j] == y;
    }
    assert r[|eras|] == x;
  }

  lemma {:induction false} ToSetCard(eras: seq<int>)
    requires Distinct(eras)
    ensures |ToSet(eras)| == |eras|
    ensures eras != [] ==> ToSet(eras) == ToSet(eras[..|eras| - 1]) + {eras[|eras| - 1]}
  {
    if eras != [] {
      var n := |eras| - 1;
      ToSetCard(eras[..n]);
      assert eras == eras[..n] + [eras[n]];
      ToSetSnoc(eras[..n], eras[n]);
    }
  }

  lemma CorrectedDegree(l: seq<bv8>, u: bv8, n: nat)
    requires |l| == SIZE && n < NROOTS
    requires l[0] == 1 && forall i :: n < i < SIZE ==> l[i] == 0
    ensures var t := Corrected(l, l, u);
      t[0] == 1 && forall i :: n + 1 < i < SIZE ==> t[i] == 0
  {
    hide Add, Mul;
    forall i | n + 1 < i < SIZE
      ensures Corrected(l, l, u)[i] == 0
    {
      MulUnit(u);
      AddZero(0);
    }
  }

  lemma {:induction false} ErasureLocatorShape(eras: seq<int>)
    requires ErasuresInRange(eras)
    ensures var l := ErasureLocator(eras);
      l[0] == 1 && forall i :: |eras| < i < SIZE ==> l[i] == 0
  {
    hide Pow, Corrected;
    if eras != [] {
      var n := |eras| - 1;
      ErasureLocatorShape(eras[..n]);
      CorrectedDegree(ErasureLocator(eras[..n]), Locator(eras[n]), n);
    }
  }

  /** Whatever was received, the final lambda has the constant term one. */
  lemma ErrorLocatorShape(s: seq<bv8>, eras: seq<int>)
    requires |s| == NROOTS && ErasuresInRange(eras)
    ensures ErrorLocator(s, eras)[0] == 1
  {
    hide Run, ErasureLocator, Corrects;
    var start := ErasureLocator(eras);
    ErasureLocatorShape(eras);
    StartInvariant(s, |eras|, start);
    RunInvariant(s, |eras|, |eras|, State(start, start, |eras|));
  }

  /** The erasure locator vanishes at the erased locations. */
  lemma {:induction false} ErasureLocatorRoots(eras: seq<int>)
    requires ErasuresInRange(eras) && Distinct(eras)
    ensures Locations(ToSet(eras))
    ensures Erases(ErasureLocator(eras), ToSet(eras))
  {
    hide Add, Mul, Inv, Eval, Pow, Corrected;
    ToSetCard(eras);
    if eras == [] {
      assert ToSet(eras) == {};
    } else {
      var n := |eras| - 1;
      ErasureLocatorRoots(eras[..n]);
      ErasureLocatorShape(eras[..n]);
      var l, u := ErasureLocator(eras[..n]), Locator(eras[n]);
      CorrectedErases(l, l, u, ToSet(eras[..n]));
      NewErasure(l, eras[n]);
    }
  }

  lemma NewErasure(l: seq<bv8>, loc: nat)
    requires |l| == SIZE && l[NROOTS] == 0 && loc < NN
    ensures Eval(Corrected(l, l, Locator(loc)), InvLocator(loc)) == 0
  {
    hide Add, Mul, Inv, Eval, Pow, Corrected;
    var u, y := Locator(loc), InvLocator(loc);
    LocatorNonZero(loc);
    EvalCorrected(l, l, u, y);
    MulInv(u);
    MulAssoc(u, y, Eval(l, y));
    MulUnit(Eval(l, y));
    AddSelf(Eval(l, y));
  }

  // ---------------------------------------------------------------- correctness

  /** The received block d is the codeword c with few enough symbols changed, given the erasures. */
  ghost predicate WithinRadius(d: seq<bv8>, c: seq<bv8>, eras: seq<int>) {
    && |d| == |c| <= NN
    && IsCodeword(c)
    && ErasuresInRange(eras) && Distinct(eras)
    && 2 * |Errors(ErrorPattern(d, c), ToSet(eras))| + |eras| <= NROOTS
  }

  /** The difference between two blocks at the 255 locations. */
  function ErrorPattern(d: seq<bv8>, c: seq<bv8>): (e: seq<bv8>)
    requires |d| == |c| <= NN
    ensures |e| == NN
  {
    Padded(Difference(d, c))
  }

  lemma SyndromesOfPattern(d: seq<bv8>, c: seq<bv8>)
    requires |d| == |c| <= NN && IsCodeword(c)
    ensures Syndromes(ErrorPattern(d, c)) == Syndromes(d)
  {
    hide Add, Mul, Horner, Root, Difference, Padded;
    forall i | 0 <= i < NROOTS
      ensures Syndromes(ErrorPattern(d, c))[i] == Syndromes(d)[i]
    {
      HornerPadded(Difference(d, c), Root(i));
      HornerDifference(d, c, Root(i));
      AddZero(Horner(d, Root(i)));
    }
  }

  lemma StartBounded(e: seq<bv8>, eras: seq<int>)
    requires |e| == NN && ErasuresInRange(eras) && Distinct(eras)
    ensures Locations(ToSet(eras)) && |ToSet(eras)| == |eras|
    ensures var l := ErasureLocator(eras);
      Bounded(e, ToSet(eras), |eras|, State(l, l, |eras|))
  {
    hide ErasureLocator, Eval, Syndromes;
    ErasureLocatorRoots(eras);
    ErasureLocatorShape(eras);
    ToSetCard(eras);
    StartInvariant(Syndromes(e), |eras|, ErasureLocator(eras));
  }

  /** The iteration ends with the locator polynomial of the suspects. */
  lemma ErrorLocatorLocates(d: seq<bv8>, c: seq<bv8>, eras: seq<int>)
    requires WithinRadius(d, c, eras)
    ensures Locations(ToSet(eras))
    ensures Locates(ErrorLocator(Syndromes(d), eras), ErrorPattern(d, c), ToSet(eras))
  {
    hide Syndromes, Run, ErasureLocator, ErrorPattern, Bounded, Locates, Errors, IsCodeword;
    var e, t, l := ErrorPattern(d, c), ToSet(eras), ErasureLocator(eras);
    SyndromesOfPattern(d, c);
    StartBounded(e, eras);
    RunBounded(e, t, |eras|, State(l, l, |eras|));
    LocatorFound(e, t, Run(Syndromes(d), |eras|, |eras|, State(l, l, |eras|)));
  }

  lemma {:induction false} DegreeIs(l: seq<bv8>, n: nat, deg: nat)
    requires deg < n <= |l| && l[deg] != 0
    requires forall i :: deg < i < n ==> l[i] == 0
    ensures Degree(l, n) == deg
  {
    if n - 1 > deg { DegreeIs(l, n - 1, deg); }
  }

  lemma {:induction false} DegreeTop(l: seq<bv8>, n: nat)
    requires n <= |l|
    ensures forall i :: Degree(l, n) < i < n ==> l[i] == 0
  {
    if n > 0 { DegreeTop(l, n - 1); }
  }

  lemma {:induction false} DegreeNonZero(l: seq<bv8>, n: nat)
    requires n <= |l| && Degree(l, n) > 0
    ensures l[Degree(l, n)] != 0
  {
    if l[n - 1] == 0 { DegreeNonZero(l, n - 1); }
  }

  lemma LastLocation(l: seq<bv8>, roots: seq<int>, n: nat)
    requires RootsBelow(l, NN + 1, roots) && n < |roots|
    ensures LocationsOf(roots[..n + 1]) == LocationsOf(roots[..n]) + {LocationOf(roots[n])}
    ensures LocationOf(roots[n]) !in LocationsOf(roots[..n])
  {
    hide LocationOf, Eval, Pow;
    forall j | 0 <= j < n
      ensures LocationOf(roots[..n][j]) != LocationOf(roots[n])
    {
      LocationInjective(roots[j], roots[n]);
    }
    assert roots[..n + 1] == roots[..n] + [roots[n]];
    LocationsSnoc(roots[..n], roots[n]);
  }

  /** Repairing the first n roots adds the error at their locations and nothing elsewhere. */
  lemma {:induction false} RepairAt(d: seq<bv8>, l: seq<bv8>, e: seq<bv8>, eras: set<int>, roots: seq<int>, n: nat, p: nat)
    requires |d| <= NN == |e| && Locations(eras) && Locates(l, e, eras)
    requires RootsBelow(l, NN + 1, roots) && n <= |roots| && LocationsOf(roots) == Suspects(e, eras)
    requires p < |d|
    ensures var loc := p + (NN - |d|);
      Repair(d, l, Syndromes(e), |Suspects(e, eras)|, roots, n)[p]
        == if loc in LocationsOf(roots[..n]) then Add(d[p], e[loc]) else d[p]
    decreases n
  {
    hide Add, Mul, Eval, Pow, LocationOf, Magnitude, Syndromes, Suspects, LocationsOf, Locates;
    LocatesSize(l, e, eras);
    if n == 0 {
      NoLocations();
      assert roots[..0] == [];
    } else {
      var i, loc := roots[n - 1], p + (NN - |d|);
      assert LocationOf(i) in Suspects(e, eras) by { InLocations(roots, n - 1); }
      MagnitudeIsError(l, e, eras, i);
      var d' := Fix(d, l, Syndromes(e), |Suspects(e, eras)|, i);
      RepairAt(d', l, e, eras, roots, n - 1, p);
      LastLocation(l, roots, n - 1);
    }
  }

  lemma LocatesSize(l: seq<bv8>, e: seq<bv8>, eras: set<int>)
    requires |e| == NN && Locations(eras) && Locates(l, e, eras)
    ensures |l| == SIZE && |Suspects(e, eras)| <= NROOTS
  {}

  lemma NoLocations()
    ensures LocationsOf([]) == {}
  {}

  lemma InLocations(roots: seq<int>, j: nat)
    requires j < |roots|
    ensures LocationOf(roots[j]) in LocationsOf(roots)
  {}

  lemma NonZeroSyndromes(e: seq<bv8>, eras: set<int>)
    requires |e| == NN && !AllZero(Syndromes(e))
    ensures Suspects(e, eras) != {}
  {
    hide Horner, Root, Mul, Add;
    if Suspects(e, eras) == {} {
      forall i | 0 <= i < NN
        ensures e[i] == 0
      {
        assert i !in Errors(e, eras) && i !in eras;
      }
      forall i | 0 <= i < NROOTS
        ensures Syndromes(e)[i] == 0
      {
        HornerZero(e, Root(i));
      }
    }
  }

  lemma DecodeUnfold(d: seq<bv8>, eras: seq<int>, l: seq<bv8>, roots: seq<int>)
    requires |d| <= NN && ErasuresInRange(eras) && !AllZero(Syndromes(d))
    requires l == ErrorLocator(Syndromes(d), eras)
    requires roots == Scan(l, Degree(l, SIZE), 1, []) && |roots| == Degree(l, SIZE)
    requires RootsBelow(l, NN + 1, roots)
    ensures var r := Decode(d, eras);
      && r.count == |roots| == |r.locations|
      && (forall j :: 0 <= j < |roots| ==> r.locations[j] == LocationOf(roots[j]))
      && r.data == Repair(d, l, Syndromes(d), |roots|, roots, |roots|)
  {
    hide Syndromes, ErrorLocator, Scan, Repair, Degree, LocationOf;
  }

  /** The roots the decoder finds are those of the suspects, and it repairs the block with them. */
  lemma DecodeFinds(d: seq<bv8>, c: seq<bv8>, eras: seq<int>) returns (l: seq<bv8>, roots: seq<int>)
    requires WithinRadius(d, c, eras)
    requires !IsCodeword(d)
    ensures Locations(ToSet(eras)) && Locates(l, ErrorPattern(d, c), ToSet(eras))
    ensures RootsBelow(l, NN + 1, roots) && LocationsOf(roots) == Suspects(ErrorPattern(d, c), ToSet(eras))
    ensures var w, r := |Suspects(ErrorPattern(d, c), ToSet(eras))|, Decode(d, eras);
      && |roots| == w == r.count == |r.locations|
      && (forall j :: 0 <= j < w ==> r.locations[j] == LocationOf(roots[j]))
      && r.data == Repair(d, l, Syndromes(ErrorPattern(d, c)), w, roots, w)
  {
    hide Eval, Pow, Syndromes, ErrorLocator, Repair, Locates, Suspects, LocationOf, LocationsOf, ErrorPattern,
      IsCodeword, Scan, Decode;
    var e, t := ErrorPattern(d, c), ToSet(eras);
    l := ErrorLocator(Syndromes(d), eras);
    NotAllZero(d);
    SyndromesOfPattern(d, c);
    ErrorLocatorLocates(d, c, eras);
    NonZeroSyndromes(e, t);
    LocatesSize(l, e, t);
    LocatorDegree(l, e, t);
    LocatesDegree(l, e, t);
    ScanFinds(l, e, t, 1, []);
    roots := Scan(l, |Suspects(e, t)|, 1, []);
    DecodeUnfold(d, eras, l, roots);
  }

  /**
   Errors and erasures within the code's radius are corrected: the block is restored, the number
   of suspect locations is returned, and they are the locations reported.
   */
  lemma DecodeCorrects(d: seq<bv8>, c: seq<bv8>, eras: seq<int>)
    requires WithinRadius(d, c, eras)
    ensures Decode(d, eras).data == c
    ensures d == c ==> Decode(d, eras).count == 0
    ensures d != c ==>
      && Decode(d, eras).count == |Suspects(ErrorPattern(d, c), ToSet(eras))| == |Decode(d, eras).locations|
      && ToSet(Decode(d, eras).locations) == Suspects(ErrorPattern(d, c), ToSet(eras))
  {
    hide Decode, LocationOf, Locates, Repair, IsCodeword, ErrorPattern, Suspects;
    if IsCodeword(d) {
      DecodeCodeword(d, eras);
      CodewordWithinRadius(d, c, eras);
    } else {
      var l, roots := DecodeFinds(d, c, eras);
      var e, t, w := ErrorPattern(d, c), ToSet(eras), |roots|;
      assert roots[..w] == roots;
      forall p | 0 <= p < |d|
        ensures Decode(d, eras).data[p] == c[p]
      {
        RepairAt(d, l, e, t, roots, w, p);
        PatternAt(d, c, eras, p);
      }
      LocationsAsSet(roots, Decode(d, eras).locations);
    }
  }

  /** A codeword within the radius of another is that codeword. */
  lemma CodewordWithinRadius(d: seq<bv8>, c: seq<bv8>, eras: seq<int>)
    requires WithinRadius(d, c, eras) && IsCodeword(d)
    ensures d == c
  {
    hide Horner, Root, IsCodeword, Weights, Padded, Difference;
    var e, t := ErrorPattern(d, c), ToSet(eras);
    ToSetCard(eras);
    SupportOfDifference(d, c);
    SuspectsCard(e, t);
    forall l | l in Support(Weights(e))
      ensures l in Suspects(e, t)
    {
      WeightZero(e, l);
    }
    SubsetCard(Support(Weights(e)), Suspects(e, t));
    if d != c { MinimumDistance(d, c); }
  }

  /** One changed symbol, anywhere in the block: found, corrected and counted. */
  lemma DecodeSingleError(c: seq<bv8>, p: nat, v: bv8)
    requires |c| <= NN && IsCodeword(c) && p < |c| && v != c[p]
    ensures Decode(c[p := v], []).count == 1
    ensures Decode(c[p := v], []).data == c
    ensures Decode(c[p := v], []).locations == [p + (NN - |c|)]
  {
    hide Horner, Root, IsCodeword, Decode;
    var d, loc := c[p := v], p + (NN - |c|);
    var e := ErrorPattern(d, c);
    forall l | 0 <= l < NN
      ensures e[l] != 0 <==> l == loc
    {
      if l >= NN - |c| {
        AddSelf(c[l - (NN - |c|)]);
        AddCancel(d[l - (NN - |c|)], c[l - (NN - |c|)]);
      }
    }
    assert Errors(e, {}) == {loc} == Suspects(e, {});
    assert ToSet([]) == {};
    DecodeCorrects(d, c, []);
    var locs := Decode(d, []).locations;
    assert locs[0] in ToSet(locs);
  }

  lemma NotAllZero(d: seq<bv8>)
    ensures AllZero(Syndromes(d)) <==> IsCodeword(d)
  {
    hide Horner, Root;
    if AllZero(Syndromes(d)) {
      forall i | 0 <= i < NROOTS
        ensures Horner(d, Root(i)) == 0
      {
        assert Syndromes(d)[i] == 0;
      }
    }
  }

  lemma LocatesDegree(l: seq<bv8>, e: seq<bv8>, eras: set<int>)
    requires |e| == NN && Locations(eras) && Locates(l, e, eras)
    requires Suspects(e, eras) != {} && |Suspects(e, eras)| < |l| && l[|Suspects(e, eras)|] != 0
    ensures |l| == SIZE && Degree(l, SIZE) == |Suspects(e, eras)| > 0
  {
    hide Eval, Suspects, InvLocator;
    DegreeIs(l, SIZE, |Suspects(e, eras)|);
  }

  lemma PatternAt(d: seq<bv8>, c: seq<bv8>, eras: seq<int>, p: nat)
    requires |d| == |c| <= NN && p < |d|
    ensures var e, loc := ErrorPattern(d, c), p + (NN - |d|);
      c[p] == if loc in Suspects(e, ToSet(eras)) then Add(d[p], e[loc]) else d[p]
  {
    hide Add;
    AddCancel(d[p], c[p]);
    AddSelf(d[p]);
  }

  lemma LocationsAsSet(roots: seq<int>, locs: seq<int>)
    requires |locs| == |roots| && forall j :: 0 <= j < |locs| ==> locs[j] == LocationOf(roots[j])
    ensures ToSet(locs) == LocationsOf(roots)
  {
    hide LocationOf;
    forall x | x in LocationsOf(roots)
      ensures x in ToSet(locs)
    {
      var j :| 0 <= j < |roots| && x == LocationOf(roots[j]);
      assert locs[j] == x;
    }
    forall x | x in ToSet(locs)
      ensures x in LocationsOf(roots)
    {
      var j :| 0 <= j < |locs| && x == locs[j];
      assert LocationOf(roots[j]) == x;
    }
  }

  /** A codeword is left alone, whatever is marked as erased. */
  lemma DecodeCodeword(d: seq<bv8>, eras: seq<int>)
    requires |d| <= NN && ErasuresInRange(eras)
    requires IsCodeword(d)
    ensures Decode(d, eras) == Outcome(0, d, [])
  {
    hide Horner, Root;
  }

  // ---------------------------------------------------------------- giving up

  /** The locations at which a locator polynomial vanishes. */
  function RootLocations(l: seq<bv8>): (t: set<int>)
    ensures Locations(t)
  {
    set loc | 0 <= loc < NN && Eval(l, InvLocator(loc)) == 0
  }

  /** The search stops at as many roots as the degree, or it has seen them all. */
  lemma {:induction false} ScanSeesAll(l: seq<bv8>, deg: int, i: int, found: seq<int>)
    requires 1 <= i <= NN + 1 && RootsBelow(l, i, found) && AllRootsBelow(l, i, found)
    ensures var r := Scan(l, deg, i, found);
      RootsBelow(l, NN + 1, r) && (|r| == deg || AllRootsBelow(l, NN + 1, r))
    decreases NN - i
  {
    hide Eval, Pow, RootsBelow, AllRootsBelow;
    if i > NN {
    } else if Eval(l, Pow(i)) != 0 {
      NoRoot(l, i, found);
      ScanSeesAll(l, deg, i + 1, found);
    } else {
      NextRoot(l, i, found);
      if |found| + 1 != deg { ScanSeesAll(l, deg, i + 1, found + [i]); }
    }
  }

  /** Roots found are locations where the polynomial vanishes, each counted once. */
  lemma FoundAreRoots(l: seq<bv8>, roots: seq<int>)
    requires RootsBelow(l, NN + 1, roots)
    ensures LocationsOf(roots) <= RootLocations(l) && |roots| <= |RootLocations(l)|
  {
    hide Eval, Pow, LocationOf, InvLocator;
    forall loc | loc in LocationsOf(roots)
      ensures loc in RootLocations(l)
    {
      var j :| 0 <= j < |roots| && loc == LocationOf(roots[j]);
      RootLocation(roots[j]);
    }
    LocationsOfCard(l, NN + 1, roots);
    SubsetCard(LocationsOf(roots), RootLocations(l));
  }

  lemma AllFound(l: seq<bv8>, roots: seq<int>)
    requires RootsBelow(l, NN + 1, roots) && AllRootsBelow(l, NN + 1, roots)
    ensures |roots| == |RootLocations(l)|
  {
    hide Eval, Pow, LocationOf, InvLocator;
    forall loc | loc in RootLocations(l)
      ensures loc in LocationsOf(roots)
    {
      LocationOfExponent(loc);
      RootLocation(ExponentOf(loc));
      var j :| 0 <= j < |roots| && roots[j] == ExponentOf(loc);
    }
    FoundAreRoots(l, roots);
    LocationsOfCard(l, NN + 1, roots);
    SubsetCard(RootLocations(l), LocationsOf(roots));
  }

  /** A polynomial of degree deg with the constant term one vanishes at no more than deg locations. */
  lemma RootsWithinDegree(l: seq<bv8>, deg: nat)
    requires |l| == SIZE && deg < SIZE && l[0] == 1 && forall i :: deg < i < SIZE ==> l[i] == 0
    ensures |RootLocations(l)| <= deg
  {
    hide Eval, InvLocator;
    forall loc | loc in RootLocations(l)
      ensures Eval(l[..deg + 1], InvLocator(loc)) == 0
    {
      EvalTrim(l, deg + 1, InvLocator(loc));
    }
    LocationBound(l[..deg + 1], RootLocations(l));
  }

  /** A search that falls short of the degree has found as many roots as there are. */
  lemma ScanFallsShort(l: seq<bv8>, deg: nat)
    requires |l| == SIZE && deg < SIZE && l[0] == 1 && forall i :: deg < i < SIZE ==> l[i] == 0
    ensures |Scan(l, deg, 1, [])| == deg <==> |RootLocations(l)| == deg
  {
    hide Eval, Scan, RootLocations;
    var r := Scan(l, deg, 1, []);
    ScanSeesAll(l, deg, 1, []);
    RootsWithinDegree(l, deg);
    FoundAreRoots(l, r);
    if |r| != deg { AllFound(l, r); }
  }

  /** The block is no codeword, and lambda has fewer roots than its degree. */
  ghost predicate Hopeless(d: seq<bv8>, eras: seq<int>)
    requires |d| <= NN && ErasuresInRange(eras)
  {
    var l := ErrorLocator(Syndromes(d), eras);
    !IsCodeword(d) && |RootLocations(l)| < Degree(l, SIZE)
  }

  /** What becomes of a block that is given up, and when it is. */
  lemma GivenUp(d: seq<bv8>, eras: seq<int>)
    requires |d| <= NN && ErasuresInRange(eras)
    ensures Decode(d, eras).count == -1 <==> Hopeless(d, eras)
    ensures Decode(d, eras).count >= -1
    ensures Decode(d, eras).count == -1 ==> Decode(d, eras).data == d && Decode(d, eras).locations == []
  {
    hide Syndromes, ErrorLocator, Repair, LocationOf, Scan, IsCodeword, Degree, RootLocations;
    var s := Syndromes(d);
    var l := ErrorLocator(s, eras);
    NotAllZero(d);
    ErrorLocatorShape(s, eras);
    DegreeTop(l, SIZE);
    ScanFallsShort(l, Degree(l, SIZE));
    RootsWithinDegree(l, Degree(l, SIZE));
  }
}
