/**
 From the locator polynomial to the corrections: the Chien search finds exactly the suspect
 locations, and the Forney quotient at each of them is the error there.
 */
module RSForney {
  import opened GF256
  import opened Polynomials
  import opened RSCode
  import opened RSLocations
  import opened RSMassey
  import opened RSRadius

  // ---------------------------------------------------------------- the specification

  /** The location that the root x^i of the locator polynomial stands for: IPRIM * i - 1 modulo 255. */
  function LocationOf(i: int): (loc: int)
    ensures 0 <= loc < NN
  {
    (IPRIM * i + NN - 1) % NN
  }

  /** The Chien search from x^i on: the roots in order, cut off when there are as many as the degree. */
  function Scan(l: seq<bv8>, deg: int, i: int, found: seq<int>): seq<int>
    requires 1 <= i <= NN + 1
    decreases NN - i
  {
    if i > NN then found
    else if Eval(l, Pow(i)) != 0 then Scan(l, deg, i + 1, found)
    else if |found| + 1 == deg then found + [i]
    else Scan(l, deg, i + 1, found + [i])
  }

  /** The evaluator polynomial: the first deg coefficients of lambda(x) * s(x). */
  function Evaluator(l: seq<bv8>, s: seq<bv8>, deg: nat): (w: seq<bv8>)
    requires |l| == SIZE && |s| == NROOTS && deg <= NROOTS
    ensures |w| == deg
  {
    seq(deg, i requires 0 <= i < deg => Discrepancy(l, s, i))
  }

  /** The sum of l[2j + 1] * y^2j over j < h: the derivative of l at y, characteristic two. */
  function Derivative(l: seq<bv8>, y: bv8, h: nat): bv8
    requires 2 * h <= |l|
    decreases h
  {
    if h == 0 then 0 else Add(Derivative(l, y, h - 1), Mul(l[2 * h - 1], Power(y, 2 * h - 2)))
  }

  /** The quotient as the source computes it: the logarithm of zero counts as that of one. */
  function Quot(num: bv8, den: bv8): bv8 {
    if den == 0 then num else Mul(num, Inv(den))
  }

  /** The correction at the root x^i. */
  function Magnitude(l: seq<bv8>, s: seq<bv8>, deg: nat, i: nat): bv8
    requires |l| == SIZE && |s| == NROOTS && deg <= NROOTS
  {
    var y := Pow(i);
    Quot(Mul(Eval(Evaluator(l, s, deg), y), Power(y, FCR - 1)), Derivative(l, y, NROOTS / 2))
  }

  // ---------------------------------------------------------------- roots and locations

  lemma LocationExponent(i: nat)
    ensures (PRIM * (NN - 1 - LocationOf(i)) + i) % 255 == 0
  {
    var q := (IPRIM * i + NN - 1) / NN;
    var loc := LocationOf(i);
    assert IPRIM * i + NN - 1 == NN * q + loc;
    assert PRIM * (NN - 1 - loc) + i == 255 * (PRIM * q - 5 * i);
    MultipleOf255(PRIM * (NN - 1 - loc) + i, PRIM * q - 5 * i);
  }

  lemma MultipleOf255(x: int, q: int)
    requires x == 255 * q
    ensures x % 255 == 0
  {}

  lemma RootLocation(i: nat)
    ensures InvLocator(LocationOf(i)) == Pow(i)
  {
    hide Mul, Pow, Inv, LocationOf;
    var x := Locator(LocationOf(i));
    LocatorNonZero(LocationOf(i));
    var a := PRIM * (NN - 1 - LocationOf(i));
    PowAdd(a, i);
    LocationExponent(i);
    PowMod(a + i);
    PowZero();
    MulInv(x);
    MulCancel(x, Inv(x), Pow(i));
  }

  /** Different exponents stand for different locations, and every location has one. */
  lemma LocationInjective(i: nat, j: nat)
    requires 1 <= i < j <= NN
    ensures LocationOf(i) != LocationOf(j)
  {
    hide Pow, Inv, LocationOf;
    RootLocation(i);
    RootLocation(j);
    LogPow(i);
    LogPow(j);
  }

  function ExponentOf(loc: nat): (i: nat)
    requires loc < NN
    ensures 1 <= i <= NN
  {
    var m := (PRIM * (loc + 1)) % NN;
    if m == 0 then NN else m
  }

  lemma LocationOfExponent(loc: nat)
    requires loc < NN
    ensures LocationOf(ExponentOf(loc)) == loc
  {
    var m := (PRIM * (loc + 1)) % NN;
    var q := (PRIM * (loc + 1)) / NN;
    assert IPRIM * m + NN - 1 == loc + NN * (5 * loc + 6 - IPRIM * q);
    ReduceTo(IPRIM * m + NN - 1, loc, 5 * loc + 6 - IPRIM * q);
    ReduceTo(IPRIM * NN + NN - 1, NN - 1, IPRIM);
    if m == 0 {
      ReduceTo(NN - 1, loc, 5 * loc + 6 - IPRIM * q);
    }
  }

  lemma ReduceTo(x: int, r: int, q: int)
    requires x == r + NN * q && 0 <= r < NN
    ensures x % NN == r
  {}

  lemma InvLocatorInjective(i: nat, j: nat)
    requires i < NN && j < NN && InvLocator(i) == InvLocator(j)
    ensures i == j
  {
    hide Mul, Pow, Inv;
    var x, y := Locator(i), Locator(j);
    LocatorNonZero(i);
    LocatorNonZero(j);
    MulInv(x);
    MulInv(y);
    MulCancel(Inv(x), x, y);
    LocatorsDistinct();
    assert Locators()[i] == x && Locators()[j] == y;
  }

  function InvLocators(t: set<int>): set<bv8>
    requires Locations(t)
  {
    set l | l in t :: InvLocator(l)
  }

  lemma {:induction false} InvLocatorsCard(t: set<int>)
    requires Locations(t)
    ensures |InvLocators(t)| == |t|
    decreases |t|
  {
    hide InvLocator;
    if |t| > 0 {
      var x := Member(t);
      InvLocatorsCard(t - {x});
      forall y | y in InvLocators(t) - {InvLocator(x)}
        ensures y in InvLocators(t - {x})
      {}
      forall y | y in InvLocators(t - {x})
        ensures y in InvLocators(t) - {InvLocator(x)}
      {
        var j :| j in t - {x} && y == InvLocator(j);
        if y == InvLocator(x) { InvLocatorInjective(j, x); }
      }
      assert InvLocators(t) - {InvLocator(x)} == InvLocators(t - {x});
      assert InvLocator(x) in InvLocators(t);
    }
  }

  /** A polynomial with n coefficients and a constant term vanishes at fewer than n locations. */
  lemma LocationBound(p: seq<bv8>, t: set<int>)
    requires Locations(t) && Erases(p, t)
    requires p != [] && p[0] != 0
    ensures |t| < |p|
  {
    hide InvLocator, Eval;
    InvLocatorsCard(t);
    if |t| >= |p| { RootBound(p, InvLocators(t)); }
  }

  /** The degree of the locator polynomial is the number of suspects. */
  lemma LocatorDegree(l: seq<bv8>, e: seq<bv8>, eras: set<int>)
    requires |e| == NN && Locations(eras) && Locates(l, e, eras)
    requires Suspects(e, eras) != {}
    ensures l[|Suspects(e, eras)|] != 0
  {
    hide InvLocator, Eval;
    var t := Suspects(e, eras);
    if l[|t|] == 0 {
      forall i | i in t
        ensures Eval(l[..|t|], InvLocator(i)) == 0
      {
        EvalTrim(l, |t|, InvLocator(i));
      }
      LocationBound(l[..|t|], t);
    }
  }

  /** The locator polynomial has no other roots. */
  lemma LocatorRoots(l: seq<bv8>, e: seq<bv8>, eras: set<int>, loc: nat)
    requires |e| == NN && Locations(eras) && Locates(l, e, eras) && loc < NN
    ensures Eval(l, InvLocator(loc)) == 0 <==> loc in Suspects(e, eras)
  {
    hide InvLocator, Eval;
    var t := Suspects(e, eras);
    if Eval(l, InvLocator(loc)) == 0 && loc !in t {
      forall i | i in t + {loc}
        ensures Eval(l[..|t| + 1], InvLocator(i)) == 0
      {
        EvalTrim(l, |t| + 1, InvLocator(i));
      }
      LocationBound(l[..|t| + 1], t + {loc});
    }
  }

  // ---------------------------------------------------------------- the search

  function LocationsOf(found: seq<int>): (t: set<int>)
    ensures Locations(t)
  {
    set j | 0 <= j < |found| :: LocationOf(found[j])
  }

  /** found lists, in order, the roots of l among x^1, ..., x^(i - 1). */
  ghost predicate RootsBelow(l: seq<bv8>, i: int, found: seq<int>) {
    && (forall j :: 0 <= j < |found| ==> 1 <= found[j] < i && Eval(l, Pow(found[j])) == 0)
    && (forall j, k :: 0 <= j < k < |found| ==> found[j] < found[k])
  }

  ghost predicate AllRootsBelow(l: seq<bv8>, i: int, found: seq<int>) {
    forall r :: 1 <= r < i && Eval(l, Pow(r)) == 0 ==> r in found
  }

  lemma LocationsSnoc(found: seq<int>, i: int)
    ensures LocationsOf(found + [i]) == LocationsOf(found) + {LocationOf(i)}
  {
    hide LocationOf;
    var r := found + [i];
    forall x | x in LocationsOf(found)
      ensures x in LocationsOf(r)
    {
      var j :| 0 <= j < |found| && x == LocationOf(found[j]);
      assert r[j] == found[j];
    }
    assert r[|found|] == i;
  }

  lemma {:induction false} LocationsOfCard(l: seq<bv8>, i: int, found: seq<int>)
    requires RootsBelow(l, i, found) && i <= NN + 1
    ensures |LocationsOf(found)| == |found|
    decreases |found|
  {
    hide LocationOf, Eval, Pow;
    if |found| > 0 {
      var n := |found| - 1;
      LocationsOfCard(l, i, found[..n]);
      forall j | 0 <= j < n
        ensures LocationOf(found[..n][j]) != LocationOf(found[n])
      {
        LocationInjective(found[j], found[n]);
      }
      assert found == found[..n] + [found[n]];
      LocationsSnoc(found[..n], found[n]);
    }
  }

  lemma EqualCard<T>(a: set<T>, b: set<T>)
    requires a <= b && |a| == |b|
    ensures a == b
  {
    assert b == a + (b - a);
  }

  /** If the search saw every root it saw every suspect. */
  lemma SuspectsSeen(l: seq<bv8>, e: seq<bv8>, eras: set<int>, found: seq<int>)
    requires |e| == NN && Locations(eras) && Locates(l, e, eras)
    requires RootsBelow(l, NN + 1, found) && AllRootsBelow(l, NN + 1, found)
    ensures |found| >= |Suspects(e, eras)|
  {
    hide LocationOf, Eval, Pow, InvLocator;
    forall x | x in Suspects(e, eras)
      ensures x in LocationsOf(found)
    {
      LocationOfExponent(x);
      RootLocation(ExponentOf(x));
      var j :| 0 <= j < |found| && found[j] == ExponentOf(x);
    }
    SubsetCard(Suspects(e, eras), LocationsOf(found));
    LocationsOfCard(l, NN + 1, found);
  }

  lemma RootsAreSuspects(l: seq<bv8>, e: seq<bv8>, eras: set<int>, i: int, found: seq<int>)
    requires |e| == NN && Locations(eras) && Locates(l, e, eras)
    requires RootsBelow(l, i, found)
    ensures LocationsOf(found) <= Suspects(e, eras)
  {
    hide LocationOf, Eval, Pow, InvLocator;
    forall j | 0 <= j < |found|
      ensures LocationOf(found[j]) in Suspects(e, eras)
    {
      RootLocation(found[j]);
      LocatorRoots(l, e, eras, LocationOf(found[j]));
    }
  }

  /** Another root, larger than those found so far. */
  lemma NextRoot(l: seq<bv8>, i: int, found: seq<int>)
    requires 1 <= i <= NN && RootsBelow(l, i, found) && Eval(l, Pow(i)) == 0
    ensures RootsBelow(l, NN + 1, found + [i]) && RootsBelow(l, i + 1, found + [i])
    ensures AllRootsBelow(l, i, found) ==> AllRootsBelow(l, i + 1, found + [i])
  {
    hide Eval, Pow;
    var r := found + [i];
    assert r[|found|] == i && forall j :: 0 <= j < |found| ==> r[j] == found[j];
    if AllRootsBelow(l, i, found) {
      forall q | 1 <= q < i + 1 && Eval(l, Pow(q)) == 0
        ensures q in r
      {
        if q < i { assert q in found; }
      }
    }
  }

  lemma NoRoot(l: seq<bv8>, i: int, found: seq<int>)
    requires 1 <= i <= NN && RootsBelow(l, i, found) && AllRootsBelow(l, i, found) && Eval(l, Pow(i)) != 0
    ensures RootsBelow(l, i + 1, found) && AllRootsBelow(l, i + 1, found)
  {
    hide Eval, Pow;
  }

  /** As many roots as suspects: they are the suspects. */
  lemma EnoughFound(l: seq<bv8>, e: seq<bv8>, eras: set<int>, r: seq<int>)
    requires |e| == NN && Locations(eras) && Locates(l, e, eras)
    requires RootsBelow(l, NN + 1, r) && |r| == |Suspects(e, eras)|
    ensures LocationsOf(r) == Suspects(e, eras)
  {
    hide LocationOf, Eval, Pow, InvLocator, LocationsOf, Locates, Suspects, RootsBelow;
    RootsAreSuspects(l, e, eras, NN + 1, r);
    LocationsOfCard(l, NN + 1, r);
    EqualCard(LocationsOf(r), Suspects(e, eras));
  }

  /** The search finds the suspects, each once. */
  lemma {:induction false} ScanFinds(l: seq<bv8>, e: seq<bv8>, eras: set<int>, i: int, found: seq<int>)
    requires |e| == NN && Locations(eras) && Locates(l, e, eras)
    requires 1 <= i <= NN + 1 && RootsBelow(l, i, found) && AllRootsBelow(l, i, found)
    requires |found| < |Suspects(e, eras)|
    ensures var r := Scan(l, |Suspects(e, eras)|, i, found);
      RootsBelow(l, NN + 1, r) && |r| == |Suspects(e, eras)| && LocationsOf(r) == Suspects(e, eras)
    decreases NN - i
  {
    hide LocationOf, Eval, Pow, InvLocator, LocationsOf, Locates, Suspects, RootsBelow, AllRootsBelow;
    if i > NN {
      SuspectsSeen(l, e, eras, found);
    } else if Eval(l, Pow(i)) != 0 {
      NoRoot(l, i, found);
      ScanFinds(l, e, eras, i + 1, found);
    } else {
      NextRoot(l, i, found);
      if |found| + 1 == |Suspects(e, eras)| {
        EnoughFound(l, e, eras, found + [i]);
      } else {
        ScanFinds(l, e, eras, i + 1, found + [i]);
      }
    }
  }

  // ---------------------------------------------------------------- the quotients lambda(x) / (1 - X x)

  /** The i-th coefficient of the power series lambda(x) / (1 - X x). */
  function Part(l: seq<bv8>, x: bv8, i: nat): bv8
    requires i < |l|
  {
    if i == 0 then l[0] else Add(l[i], Mul(x, Part(l, x, i - 1)))
  }

  function Parts(l: seq<bv8>, x: bv8, n: nat): (w: seq<bv8>)
    requires n <= |l|
    ensures |w| == n
  {
    seq(n, i requires 0 <= i < n => Part(l, x, i))
  }

  lemma PartsSnoc(l: seq<bv8>, x: bv8, n: nat, y: bv8)
    requires n < |l|
    ensures Eval(Parts(l, x, n + 1), y) == Add(Eval(Parts(l, x, n), y), Mul(Part(l, x, n), Power(y, n)))
  {
    hide Add, Mul, Eval, Part;
    assert Parts(l, x, n + 1) == Parts(l, x, n) + [Part(l, x, n)];
    EvalSnoc(Parts(l, x, n), Part(l, x, n), y);
  }

  lemma PrefixSnoc(l: seq<bv8>, n: nat, y: bv8)
    requires n < |l|
    ensures Eval(l[..n + 1], y) == Add(Eval(l[..n], y), Mul(l[n], Power(y, n)))
  {
    hide Add, Mul, Eval;
    assert l[..n + 1] == l[..n] + [l[n]];
    EvalSnoc(l[..n], l[n], y);
  }

  lemma {:induction false} PartValue(l: seq<bv8>, x: bv8, n: nat)
    requires n < |l| && x != 0
    ensures Part(l, x, n) == Mul(Power(x, n), Eval(l[..n + 1], Inv(x)))
  {
    hide Add, Mul, Inv, Eval;
    var y := Inv(x);
    PrefixSnoc(l, n, y);
    if n == 0 {
      assert l[..0] == [];
      EvalZero([], y);
      MulUnit(l[0]);
      AddZero(l[0]);
    } else {
      var q := Eval(l[..n], y);
      PartValue(l, x, n - 1);
      MulAddRight(Power(x, n), q, Mul(l[n], Power(y, n)));
      MulComm(l[n], Power(y, n));
      MulAssoc(Power(x, n), Power(y, n), l[n]);
      MulComm(Power(x, n), Power(y, n));
      PowerInv(x, n, n);
      assert Power(x, 0) == 1;
      MulUnit(l[n]);
      MulAssoc(x, Power(x, n - 1), q);
      AddComm(Mul(Power(x, n), q), l[n]);
    }
  }

  /** (1 - X y) times the first n parts, at y. */
  lemma {:induction false} PartsProduct(l: seq<bv8>, x: bv8, n: nat, y: bv8)
    requires 1 <= n <= |l|
    ensures Add(Eval(Parts(l, x, n), y), Mul(Mul(x, y), Eval(Parts(l, x, n), y)))
         == Add(Eval(l[..n], y), Mul(Mul(x, Part(l, x, n - 1)), Power(y, n)))
  {
    hide Add, Mul, Eval;
    var m := n - 1;
    var p, w, pw, lw, xy := Eval(Parts(l, x, m), y), Part(l, x, m), Power(y, m), Eval(l[..m], y), Mul(x, y);
    PartsSnoc(l, x, m, y);
    PrefixSnoc(l, m, y);
    MulAddRight(xy, p, Mul(w, pw));
    AddSwap(p, Mul(w, pw), Mul(xy, p), Mul(xy, Mul(w, pw)));
    PartsProductTerm(x, y, w, pw);
    if m == 0 {
      assert Parts(l, x, 0) == [] && l[..0] == [];
      EvalZero([], y);
      MulUnit(xy);
      AddZero(0);
      AddZero(Mul(w, pw));
      AddZero(Add(Mul(w, pw), Mul(Mul(x, w), Power(y, n))));
    } else {
      PartsProduct(l, x, m, y);
      var v := Mul(x, Part(l, x, m - 1));
      MulAddLeft(l[m], v, pw);
      PartsProductSum(lw, Mul(l[m], pw), Mul(v, pw), Mul(Mul(x, w), Power(y, n)));
    }
  }

  lemma PartsProductTerm(x: bv8, y: bv8, w: bv8, pw: bv8)
    ensures Mul(Mul(x, y), Mul(w, pw)) == Mul(Mul(x, w), Mul(y, pw))
  {
    hide Mul;
    MulAssoc(x, y, Mul(w, pw));
    MulAssoc(y, w, pw);
    MulComm(y, w);
    MulAssoc(w, y, pw);
    MulAssoc(x, w, Mul(y, pw));
  }

  lemma PartsProductSum(a: bv8, b: bv8, c: bv8, d: bv8)
    ensures Add(Add(a, c), Add(Add(b, c), d)) == Add(Add(a, b), d)
  {
    hide Add;
    AddComm(b, c);
    AddAssoc(c, b, d);
    AddAssoc(Add(a, c), c, Add(b, d));
    AddAssoc(a, c, c);
    AddSelf(c);
    AddZero(a);
    AddAssoc(a, b, d);
  }

  /** The parts of a root X stop at the degree: the division by (1 - X x) is exact. */
  lemma PartsStop(l: seq<bv8>, x: bv8, deg: nat, i: nat)
    requires deg <= i < |l| && x != 0
    requires forall j :: deg < j < |l| ==> l[j] == 0
    requires Eval(l, Inv(x)) == 0
    ensures Part(l, x, i) == 0
  {
    hide Add, Mul, Inv, Eval, Part;
    EvalTrim(l, i + 1, Inv(x));
    PartValue(l, x, i);
    MulUnit(Power(x, i));
  }

  // ---------------------------------------------------------------- the evaluator at a suspect location

  /** Parts of l for location m, at the inverse locator of location k. */
  function PartsAt(l: seq<bv8>, deg: nat, m: nat, k: nat): bv8
    requires deg <= |l| && m < NN && k < NN
  {
    Eval(Parts(l, Locator(m), deg), InvLocator(k))
  }

  /** (1 - X y) parts(y) = lambda(y). */
  lemma ExactQuotient(l: seq<bv8>, e: seq<bv8>, eras: set<int>, m: nat, y: bv8)
    requires |e| == NN && Locations(eras) && Locates(l, e, eras)
    requires m < NN && m in Suspects(e, eras)
    ensures var p := Eval(Parts(l, Locator(m), |Suspects(e, eras)|), y);
      Add(p, Mul(Mul(Locator(m), y), p)) == Eval(l, y)
  {
    hide Add, Mul, Inv, Eval, Pow, Suspects;
    var x, t := Locator(m), |Suspects(e, eras)|;
    LocatorNonZero(m);
    NonEmptyCard(Suspects(e, eras), m);
    PartsProduct(l, x, t, y);
    PartsStop(l, x, t, t);
    var w := Mul(x, Part(l, x, t - 1));
    assert Part(l, x, t) == Add(l[t], w);
    AddCancel(l[t], w);
    PrefixSnoc(l, t, y);
    EvalTrim(l, t + 1, y);
  }

  lemma NonEmptyCard<T>(s: set<T>, x: T)
    requires x in s
    ensures |s| >= 1
  {
    assert s == (s - {x}) + {x};
  }

  lemma OtherPartsVanish(l: seq<bv8>, e: seq<bv8>, eras: set<int>, m: nat, k: nat)
    requires |e| == NN && Locations(eras) && Locates(l, e, eras)
    requires m < NN && k < NN && m != k && m in Suspects(e, eras) && k in Suspects(e, eras)
    ensures PartsAt(l, |Suspects(e, eras)|, m, k) == 0
  {
    hide Add, Mul, Inv, Eval, Pow, Suspects, Parts;
    var x, y := Locator(m), InvLocator(k);
    var p := PartsAt(l, |Suspects(e, eras)|, m, k);
    ExactQuotient(l, e, eras, m, y);
    AddCancel(p, Mul(Mul(x, y), p));
    LocatorNonZero(m);
    LocatorNonZero(k);
    MulComm(Mul(x, y), p);
    if p != 0 {
      MulUnit(p);
      MulCancel(p, 1, Mul(x, y));
      MulInv(x);
      MulCancel(x, y, Inv(x));
      InvLocatorInjective(m, k);
    }
  }

  lemma OwnPartsNonZero(l: seq<bv8>, e: seq<bv8>, eras: set<int>, k: nat)
    requires |e| == NN && Locations(eras) && Locates(l, e, eras)
    requires k < NN && k in Suspects(e, eras)
    ensures PartsAt(l, |Suspects(e, eras)|, k, k) != 0
  {
    hide Add, Mul, Inv, Eval, Pow, Suspects;
    var t := Suspects(e, eras);
    NonEmptyCard(t, k);
    if PartsAt(l, |t|, k, k) == 0 {
      OwnPartsRoots(l, e, eras, k);
      LocationBound(Parts(l, Locator(k), |t|), t);
    }
  }

  lemma OwnPartsRoots(l: seq<bv8>, e: seq<bv8>, eras: set<int>, k: nat)
    requires |e| == NN && Locations(eras) && Locates(l, e, eras)
    requires k < NN && k in Suspects(e, eras)
    requires PartsAt(l, |Suspects(e, eras)|, k, k) == 0
    ensures Locations(Suspects(e, eras))
    ensures Erases(Parts(l, Locator(k), |Suspects(e, eras)|), Suspects(e, eras))
  {
    hide Add, Mul, Inv, Eval, Pow, Parts;
    var t := Suspects(e, eras);
    ParametricRoots(l, e, eras, k);
  }

  lemma ParametricRoots(l: seq<bv8>, e: seq<bv8>, eras: set<int>, k: nat)
    requires |e| == NN && Locations(eras) && Locates(l, e, eras)
    requires k < NN && k in Suspects(e, eras)
    ensures forall i :: i in Suspects(e, eras) && i != k ==> Eval(Parts(l, Locator(k), |Suspects(e, eras)|), InvLocator(i)) == 0
  {
    hide Add, Mul, Inv, Eval, Pow, Parts, Suspects;
    assert Locations(Suspects(e, eras)) by { SuspectLocations(e, eras); }
    forall i | i in Suspects(e, eras) && i != k
      ensures Eval(Parts(l, Locator(k), |Suspects(e, eras)|), InvLocator(i)) == 0
    {
      OtherPartsVanish(l, e, eras, k, i);
    }
  }

  lemma SuspectLocations(e: seq<bv8>, eras: set<int>)
    requires |e| == NN && Locations(eras)
    ensures Locations(Suspects(e, eras))
  {}

  // ---------------------------------------------------------------- sums over the locations

  function Sum(z: seq<bv8>, n: nat): bv8
    requires n <= |z|
  {
    if n == 0 then 0 else Add(Sum(z, n - 1), z[n - 1])
  }

  lemma {:induction false} SumOfPowers(z: seq<bv8>, k: nat, w: seq<bv8>, n: nat)
    requires n <= NN == |z| == |w|
    requires forall i :: 0 <= i < NN ==> w[i] == Mul(z[i], Power(Locator(i), k))
    ensures PowerSum(z, Locators(), k, n) == Sum(w, n)
  {
    hide Add, Mul, Pow, Power;
    if n > 0 { SumOfPowers(z, k, w, n - 1); }
  }

  lemma {:induction false} SumLinear(z: seq<bv8>, w: seq<bv8>, c: bv8, r: seq<bv8>, n: nat)
    requires n <= |z| == |w| == |r|
    requires forall i :: 0 <= i < |z| ==> r[i] == Add(z[i], Mul(w[i], c))
    ensures Sum(r, n) == Add(Sum(z, n), Mul(Sum(w, n), c))
  {
    hide Add, Mul;
    if n == 0 {
      MulUnit(c);
      AddZero(0);
    } else {
      SumLinear(z, w, c, r, n - 1);
      AddSwap(Sum(z, n - 1), Mul(Sum(w, n - 1), c), z[n - 1], Mul(w[n - 1], c));
      MulAddLeft(Sum(w, n - 1), w[n - 1], c);
    }
  }

  lemma {:induction false} SumSingle(z: seq<bv8>, n: nat, k: nat)
    requires n <= |z| && k < |z|
    requires forall i :: 0 <= i < |z| && i != k ==> z[i] == 0
    ensures Sum(z, n) == if k < n then z[k] else 0
  {
    hide Add;
    if n > 0 {
      SumSingle(z, n - 1, k);
      AddZero(z[n - 1]);
      AddZero(Sum(z, n - 1));
    }
  }

  /** The weights of the locations in the n-term evaluator. */
  function Shares(l: seq<bv8>, e: seq<bv8>, n: nat, k: nat): (z: seq<bv8>)
    requires |l| == SIZE && |e| == NN && n <= SIZE && k < NN
    ensures |z| == NN
  {
    seq(NN, m requires 0 <= m < NN => Mul(Weights(e)[m], PartsAt(l, n, m, k)))
  }

  /** The weights of the locations in one coefficient of the evaluator. */
  function CoeffShares(l: seq<bv8>, e: seq<bv8>, n: nat): (z: seq<bv8>)
    requires |l| == SIZE && |e| == NN && n < SIZE
    ensures |z| == NN
  {
    seq(NN, m requires 0 <= m < NN => Mul(Weights(e)[m], Part(l, Locator(m), n)))
  }

  lemma EvaluatorCoeff(l: seq<bv8>, e: seq<bv8>, n: nat)
    requires |l| == SIZE && |e| == NN && n < NROOTS
    ensures Discrepancy(l, Syndromes(e), n) == Sum(CoeffShares(l, e, n), NN)
  {
    hide Add, Mul, Inv, Eval, Pow, Power, Horner, Root, PowerSum, Convolve, Sum, Part, Weights;
    ConvolvePowerSum(l, e, Syndromes(e), n, n + 1);
    var z, w := Residues(l[..n + 1], e), CoeffShares(l, e, n);
    forall m | 0 <= m < NN
      ensures w[m] == Mul(z[m], Power(Locator(m), n))
    {
      LocatorNonZero(m);
      PartValue(l, Locator(m), n);
      var v, p := Eval(l[..n + 1], InvLocator(m)), Power(Locator(m), n);
      MulAssoc(Weights(e)[m], v, p);
      MulComm(v, p);
    }
    SumOfPowers(z, n, w, NN);
  }

  lemma SharesSnoc(l: seq<bv8>, e: seq<bv8>, n: nat, k: nat)
    requires |l| == SIZE && |e| == NN && n < NROOTS && k < NN
    ensures forall m :: 0 <= m < NN ==>
      Shares(l, e, n + 1, k)[m] == Add(Shares(l, e, n, k)[m], Mul(CoeffShares(l, e, n)[m], Power(InvLocator(k), n)))
  {
    hide Add, Mul, Inv, Eval, Pow, Power, Part, Weights, Parts;
    forall m | 0 <= m < NN
      ensures Shares(l, e, n + 1, k)[m]
           == Add(Shares(l, e, n, k)[m], Mul(CoeffShares(l, e, n)[m], Power(InvLocator(k), n)))
    {
      var y, c, w := InvLocator(k), Weights(e)[m], Part(l, Locator(m), n);
      PartsSnoc(l, Locator(m), n, y);
      MulAddRight(c, PartsAt(l, n, m, k), Mul(w, Power(y, n)));
      MulAssoc(c, w, Power(y, n));
    }
  }

  lemma {:induction false} EvaluatorSum(l: seq<bv8>, e: seq<bv8>, n: nat, k: nat)
    requires |l| == SIZE && |e| == NN && n <= NROOTS && k < NN
    ensures Eval(Evaluator(l, Syndromes(e), n), InvLocator(k)) == Sum(Shares(l, e, n, k), NN)
  {
    hide Add, Mul, Inv, Eval, Pow, Power, Syndromes, Discrepancy, Shares, CoeffShares;
    var y, s := InvLocator(k), Syndromes(e);
    if n == 0 {
      EvalZero([], y);
      SharesEmpty(l, e, k);
      hide Sum;
      assert Evaluator(l, s, 0) == [];
      SumSingle(Shares(l, e, 0, k), NN, 0);
    } else {
      hide Sum;
      var m := n - 1;
      EvaluatorSum(l, e, m, k);
      assert Evaluator(l, s, n) == Evaluator(l, s, m) + [Discrepancy(l, s, m)];
      EvalSnoc(Evaluator(l, s, m), Discrepancy(l, s, m), y);
      EvaluatorCoeff(l, e, m);
      SharesSnoc(l, e, m, k);
      SumLinear(Shares(l, e, m, k), CoeffShares(l, e, m), Power(y, m), Shares(l, e, n, k), NN);
    }
  }

  lemma SharesEmpty(l: seq<bv8>, e: seq<bv8>, k: nat)
    requires |l| == SIZE && |e| == NN && k < NN
    ensures forall m :: 0 <= m < NN ==> Shares(l, e, 0, k)[m] == 0
  {
    hide Mul, Inv, Eval, Pow, Weights;
    forall m | 0 <= m < NN
      ensures Shares(l, e, 0, k)[m] == 0
    {
      assert Parts(l, Locator(m), 0) == [];
      EvalZero([], InvLocator(k));
      MulUnit(Weights(e)[m]);
    }
  }

  /** At a suspect location the evaluator is that location's weight times its parts. */
  lemma EvaluatorAtSuspect(l: seq<bv8>, e: seq<bv8>, eras: set<int>, k: nat)
    requires |e| == NN && Locations(eras) && Locates(l, e, eras)
    requires k < NN && k in Suspects(e, eras)
    ensures Eval(Evaluator(l, Syndromes(e), |Suspects(e, eras)|), InvLocator(k))
         == Mul(Weights(e)[k], PartsAt(l, |Suspects(e, eras)|, k, k))
  {
    hide Mul, Inv, Eval, Pow, Weights, PartsAt, Evaluator, Syndromes, Sum;
    var n := |Suspects(e, eras)|;
    EvaluatorSum(l, e, n, k);
    var z := Shares(l, e, n, k);
    forall m | 0 <= m < NN && m != k
      ensures z[m] == 0
    {
      if m in Suspects(e, eras) {
        OtherPartsVanish(l, e, eras, m, k);
      } else {
        WeightZero(e, m);
      }
      MulUnit(Weights(e)[m]);
      MulUnit(PartsAt(l, n, m, k));
    }
    SumSingle(z, NN, k);
  }

  // ---------------------------------------------------------------- the derivative at a suspect location

  lemma {:induction false} DerivativeParts(l: seq<bv8>, x: bv8, h: nat)
    requires 2 * h <= |l| && x != 0
    ensures Derivative(l, Inv(x), h) == Mul(x, Eval(Parts(l, x, 2 * h), Inv(x)))
  {
    hide Add, Mul, Inv, Eval, Part, Power;
    var y := Inv(x);
    if h == 0 {
      assert Parts(l, x, 0) == [];
      EvalZero([], y);
      MulUnit(x);
    } else {
      var i := 2 * h - 2;
      DerivativeParts(l, x, h - 1);
      PartsSnoc(l, x, i, y);
      PartsSnoc(l, x, i + 1, y);
      DerivativeTerm(l, x, i);
      var p, u, v := Eval(Parts(l, x, i), y), Mul(Part(l, x, i), Power(y, i)), Mul(Part(l, x, i + 1), Power(y, i + 1));
      AddAssoc(p, u, v);
      MulAddRight(x, p, Add(u, v));
    }
  }

  lemma DerivativeTerm(l: seq<bv8>, x: bv8, i: nat)
    requires i + 1 < |l| && x != 0
    ensures Mul(x, Add(Mul(Part(l, x, i), Power(Inv(x), i)), Mul(Part(l, x, i + 1), Power(Inv(x), i + 1))))
         == Mul(l[i + 1], Power(Inv(x), i))
  {
    hide Add, Mul, Inv, Eval;
    var y, a, b, p := Inv(x), Part(l, x, i), Part(l, x, i + 1), Power(Inv(x), i);
    assert b == Add(l[i + 1], Mul(x, a));
    assert Power(y, i + 1) == Mul(y, p);
    hide Power, Part;
    calc {
      Mul(x, Add(Mul(a, p), Mul(b, Mul(y, p))));
      { MulAddRight(x, Mul(a, p), Mul(b, Mul(y, p))); }
      Add(Mul(x, Mul(a, p)), Mul(x, Mul(b, Mul(y, p))));
      { MulAssoc(x, a, p); InverseMoves(x, b, p); }
      Add(Mul(Mul(x, a), p), Mul(b, p));
      { MulAddLeft(Mul(x, a), b, p); }
      Mul(Add(Mul(x, a), b), p);
      { AddComm(l[i + 1], Mul(x, a)); AddCancel(Mul(x, a), l[i + 1]); }
      Mul(l[i + 1], p);
    }
  }

  lemma InverseMoves(x: bv8, b: bv8, p: bv8)
    requires x != 0
    ensures Mul(x, Mul(b, Mul(Inv(x), p))) == Mul(b, p)
  {
    hide Mul, Inv;
    var y := Inv(x);
    MulInv(x);
    MulAssoc(b, y, p);
    MulComm(b, y);
    MulAssoc(y, b, p);
    MulAssoc(x, y, Mul(b, p));
    MulUnit(Mul(b, p));
  }

  lemma DerivativeAtSuspect(l: seq<bv8>, e: seq<bv8>, eras: set<int>, k: nat)
    requires |e| == NN && Locations(eras) && Locates(l, e, eras)
    requires k < NN && k in Suspects(e, eras)
    ensures Derivative(l, InvLocator(k), NROOTS / 2) == Mul(Locator(k), PartsAt(l, |Suspects(e, eras)|, k, k))
  {
    hide Add, Mul, Inv, Eval, Pow, Part, Suspects;
    var x, t := Locator(k), |Suspects(e, eras)|;
    LocatorNonZero(k);
    DerivativeParts(l, x, NROOTS / 2);
    var w := Parts(l, x, NROOTS);
    forall i | t <= i < NROOTS
      ensures w[i] == 0
    {
      PartsStop(l, x, t, i);
    }
    assert w[..t] == Parts(l, x, t);
    EvalTrim(w, t, InvLocator(k));
  }

  // ---------------------------------------------------------------- the correction

  /** The correction computed for a suspect location is the error there. */
  lemma MagnitudeIsError(l: seq<bv8>, e: seq<bv8>, eras: set<int>, i: nat)
    requires |e| == NN && Locations(eras) && Locates(l, e, eras)
    requires LocationOf(i) in Suspects(e, eras)
    ensures Magnitude(l, Syndromes(e), |Suspects(e, eras)|, i) == e[LocationOf(i)]
  {
    hide Mul, Inv, Eval, Pow, Power, PartsAt, Evaluator, Syndromes, Derivative, Suspects, LocationOf, Weights;
    var k, n := LocationOf(i), |Suspects(e, eras)|;
    RootLocation(i);
    EvaluatorAtSuspect(l, e, eras, k);
    DerivativeAtSuspect(l, e, eras, k);
    OwnPartsNonZero(l, e, eras, k);
    LocatorNonZero(k);
    var x, p := Locator(k), PartsAt(l, n, k, k);
    MulNonZero(x, p);
    WeightOf(e, k);
    ForneyQuotient(e[k], x, p);
  }

  lemma WeightOf(e: seq<bv8>, k: nat)
    requires |e| == NN && k < NN
    ensures Weights(e)[k] == Mul(e[k], Power(Locator(k), FCR))
  {}

  /** e x^112 p y^111 / (x p) = e, where y is the inverse of x. */
  lemma ForneyQuotient(e: bv8, x: bv8, p: bv8)
    requires x != 0 && p != 0 && Mul(x, p) != 0
    ensures Mul(Mul(Mul(Mul(e, Power(x, FCR)), p), Power(Inv(x), FCR - 1)), Inv(Mul(x, p))) == e
  {
    hide Mul, Inv, Power;
    var a, b, q := Power(x, FCR), Power(Inv(x), FCR - 1), Mul(x, p);
    assert Mul(b, a) == x by {
      PowerInv(x, FCR, FCR - 1);
      PowerOne(x);
    }
    calc {
      Mul(Mul(Mul(e, a), p), b);
      { MulAssoc(Mul(e, a), p, b); MulComm(p, b); MulAssoc(Mul(e, a), b, p); }
      Mul(Mul(Mul(e, a), b), p);
      { MulAssoc(e, a, b); MulComm(a, b); }
      Mul(Mul(e, x), p);
      { MulAssoc(e, x, p); }
      Mul(e, q);
    }
    MulAssoc(e, q, Inv(q));
    MulInv(q);
    MulUnit(e);
  }

  lemma PowerOne(x: bv8)
    ensures Power(x, 1) == x
  {
    hide Mul;
    assert Power(x, 0) == 1;
    MulUnit(x);
  }
}
