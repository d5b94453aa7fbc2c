/**
 The syndromes of a block as power sums over its 255 locations.  Two blocks with equal
 syndromes therefore differ in more than 32 places or not at all: any two codewords are at
 least 33 symbols apart.
 */
module RSLocations {
  import opened GF256
  import opened Polynomials
  import opened RSCode

  /** The locator of a location: location 254 holds the constant coefficient. */
  function Locator(loc: nat): bv8
    requires loc < NN
  {
    Pow(PRIM * (NN - 1 - loc))
  }

  function Locators(): (xs: seq<bv8>)
    ensures |xs| == NN
  {
    seq(NN, l requires 0 <= l < NN => Locator(l))
  }

  /** The coefficient with which the symbol at each location enters the power sums. */
  function Weights(e: seq<bv8>): (z: seq<bv8>)
    requires |e| == NN
    ensures |z| == NN
  {
    seq(NN, l requires 0 <= l < NN => Mul(e[l], Power(Locator(l), FCR)))
  }

  function Difference(d: seq<bv8>, c: seq<bv8>): (e: seq<bv8>)
    requires |d| == |c|
    ensures |e| == |d|
  {
    seq(|d|, i requires 0 <= i < |d| => Add(d[i], c[i]))
  }

  /** A shortened block as a full one. */
  function Padded(d: seq<bv8>): (p: seq<bv8>)
    requires |d| <= NN
    ensures |p| == NN
  {
    seq(NN - |d|, _ => 0) + d
  }

  /** The positions where two blocks differ. */
  function Differing(d: seq<bv8>, c: seq<bv8>): set<int>
    requires |d| == |c|
  {
    set i | 0 <= i < |d| && d[i] != c[i]
  }

  function Shifted(t: set<int>, n: int): set<int> {
    set i | i in t :: i + n
  }

  lemma LocatorsDistinct()
    ensures DistinctNonZero(Locators())
  {
    hide Pow;
    forall l | 0 <= l < NN
      ensures Locators()[l] != 0
    {
      LogPow(PRIM * (NN - 1 - l));
    }
    forall l, m | 0 <= l < m < NN
      ensures Locators()[l] != Locators()[m]
    {
      LogPow(PRIM * (NN - 1 - l));
      LogPow(PRIM * (NN - 1 - m));
      ElevenInjective(NN - 1 - m, NN - 1 - l);
    }
  }

  lemma WeightZero(e: seq<bv8>, l: nat)
    requires |e| == NN && l < NN
    ensures Weights(e)[l] == 0 <==> e[l] == 0
  {
    hide Mul, Pow;
    LogPow(PRIM * (NN - 1 - l));
    PowerNonZero(Locator(l), FCR);
    MulNonZero(e[l], Power(Locator(l), FCR));
  }

  // ---------------------------------------------------------------- evaluation

  lemma {:induction false} HornerDifference(d: seq<bv8>, c: seq<bv8>, x: bv8)
    requires |d| == |c|
    ensures Horner(Difference(d, c), x) == Add(Horner(d, x), Horner(c, x))
  {
    hide Add, Mul;
    var e := Difference(d, c);
    if d == [] {
      AddZero(0);
    } else {
      var n := |d| - 1;
      assert e[..n] == Difference(d[..n], c[..n]);
      HornerDifference(d[..n], c[..n], x);
      MulAddRight(x, Horner(d[..n], x), Horner(c[..n], x));
      AddSwap(Mul(x, Horner(d[..n], x)), Mul(x, Horner(c[..n], x)), d[n], c[n]);
    }
  }

  lemma {:induction false} HornerConcat(d: seq<bv8>, c: seq<bv8>, x: bv8)
    ensures Horner(d + c, x) == Add(Mul(Power(x, |c|), Horner(d, x)), Horner(c, x))
  {
    hide Add, Mul;
    if c == [] {
      assert d + c == d;
      MulUnit(Horner(d, x));
      AddZero(Horner(d, x));
    } else {
      var n := |c| - 1;
      assert (d + c)[..|d + c| - 1] == d + c[..n];
      HornerConcat(d, c[..n], x);
      var a, b := Mul(Power(x, n), Horner(d, x)), Horner(c[..n], x);
      MulAddRight(x, a, b);
      MulAssoc(x, Power(x, n), Horner(d, x));
      AddAssoc(Mul(x, a), Mul(x, b), c[n]);
    }
  }

  lemma {:induction false} HornerZero(d: seq<bv8>, x: bv8)
    requires AllZero(d)
    ensures Horner(d, x) == 0
  {
    hide Add, Mul;
    if d != [] {
      HornerZero(d[..|d| - 1], x);
      MulUnit(x);
      AddZero(0);
    }
  }

  lemma HornerPadded(d: seq<bv8>, x: bv8)
    requires |d| <= NN
    ensures Horner(Padded(d), x) == Horner(d, x)
  {
    hide Add, Mul, Horner;
    var z := seq(NN - |d|, _ => 0 as bv8);
    HornerConcat(z, d, x);
    HornerZero(z, x);
    MulUnit(Power(x, |d|));
    AddZero(Horner(d, x));
  }

  // ---------------------------------------------------------------- syndromes are power sums

  lemma LocatorPower(l: nat, k: nat)
    requires l < NN
    ensures Power(Root(k), NN - 1 - l) == Mul(Power(Locator(l), FCR), Power(Locator(l), k))
  {
    hide Mul, Pow, Power;
    var p := NN - 1 - l;
    PowerOfPow(PRIM * (FCR + k), p);
    PowerOfPow(PRIM * p, FCR + k);
    assert PRIM * (FCR + k) * p == PRIM * p * (FCR + k);
    PowerAdd(Locator(l), FCR, k);
  }

  lemma {:induction false} PrefixPowerSum(e: seq<bv8>, k: nat, n: nat)
    requires |e| == NN && n <= NN
    ensures n == 0 ==> PowerSum(Weights(e), Locators(), k, n) == 0 && Horner(e[..n], Root(k)) == 0
    ensures n > 0 ==>
      Mul(Power(Root(k), NN - n), Horner(e[..n], Root(k))) == PowerSum(Weights(e), Locators(), k, n)
  {
    hide Add, Mul, Pow, Root;
    if n > 0 {
      var x, l := Root(k), n - 1;
      var h := Horner(e[..l], x);
      assert e[..n][..l] == e[..l];
      PrefixPowerSum(e, k, l);
      MulAddRight(Power(x, NN - n), Mul(x, h), e[l]);
      MulAssoc(Power(x, NN - n), x, h);
      MulComm(Power(x, NN - n), x);
      LocatorPower(l, k);
      MulComm(Power(x, NN - n), e[l]);
      MulAssoc(e[l], Power(Locator(l), FCR), Power(Locator(l), k));
      if l == 0 { MulUnit(Mul(x, Power(x, NN - n))); }
    }
  }

  lemma SyndromePowerSum(e: seq<bv8>, k: nat)
    requires |e| == NN
    ensures Horner(e, Root(k)) == PowerSum(Weights(e), Locators(), k, NN)
  {
    hide Add, Mul, Pow, Root, Horner, PowerSum;
    PrefixPowerSum(e, k, NN);
    assert e[..NN] == e;
    MulUnit(Horner(e, Root(k)));
  }

  // ---------------------------------------------------------------- minimum distance

  /** Blocks with the same syndromes are equal or differ in more than 32 symbols. */
  lemma EqualSyndromes(d: seq<bv8>, c: seq<bv8>)
    requires |d| == |c| <= NN
    requires Syndromes(d) == Syndromes(c)
    requires |Differing(d, c)| <= NROOTS
    ensures d == c
  {
    hide Add, Mul, Pow, Root, Horner, PowerSum;
    var e := Padded(Difference(d, c));
    var z, pad := Weights(e), NN - |d|;
    forall k | 0 <= k < NROOTS
      ensures PowerSum(z, Locators(), k, NN) == 0
    {
      SyndromePowerSum(e, k);
      HornerPadded(Difference(d, c), Root(k));
      HornerDifference(d, c, Root(k));
      assert Syndromes(d)[k] == Syndromes(c)[k];
      AddSelf(Horner(d, Root(k)));
    }
    SupportOfDifference(d, c);
    LocatorsDistinct();
    PowerSumsVanish(z, Locators(), 0, NROOTS);
    forall i | 0 <= i < |d|
      ensures d[i] == c[i]
    {
      WeightZero(e, pad + i);
      assert e[pad + i] == Add(d[i], c[i]);
      AddCancel(d[i], c[i]);
    }
  }

  lemma SupportOfDifference(d: seq<bv8>, c: seq<bv8>)
    requires |d| == |c| <= NN
    ensures |Support(Weights(Padded(Difference(d, c))))| == |Differing(d, c)|
    ensures Support(Weights(Padded(Difference(d, c)))) == Shifted(Differing(d, c), NN - |d|)
  {
    hide Add, Mul, Pow;
    var e, pad := Padded(Difference(d, c)), NN - |d|;
    var s, t := Support(Weights(e)), Differing(d, c);
    forall l | 0 <= l < NN
      ensures l in s <==> l - pad in t
    {
      WeightZero(e, l);
      if l >= pad {
        AddCancel(d[l - pad], c[l - pad]);
        AddSelf(d[l - pad]);
      }
    }
    forall l | l in s
      ensures l in Shifted(t, pad)
    {
      assert l - pad in t;
    }
    assert s == Shifted(t, pad);
    ShiftCard(t, pad);
  }

  lemma {:induction false} ShiftCard(t: set<int>, n: int)
    ensures |Shifted(t, n)| == |t|
    decreases |t|
  {
    if |t| > 0 {
      var x := Member(t);
      ShiftCard(t - {x}, n);
      assert x + n in Shifted(t, n);
      forall y | y in Shifted(t, n) - {x + n}
        ensures y in Shifted(t - {x}, n)
      {
        assert y - n in t - {x};
      }
      assert Shifted(t, n) - {x + n} == Shifted(t - {x}, n);
    }
  }

  /** Two codewords are equal or at least 33 symbols apart. */
  lemma MinimumDistance(d: seq<bv8>, c: seq<bv8>)
    requires |d| == |c| <= NN
    requires IsCodeword(d) && IsCodeword(c) && d != c
    ensures |Differing(d, c)| > NROOTS
  {
    hide Horner, Root;
    if |Differing(d, c)| <= NROOTS {
      assert Syndromes(d) == Syndromes(c);
      EqualSyndromes(d, c);
    }
  }
}
