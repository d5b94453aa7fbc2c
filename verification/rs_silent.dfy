/**
 What a zero return of `decode_rs_8` does not mean.  The syndrome test recognises exactly the
 codewords, but the return value does not: when only the first sixteen syndromes can be non-zero,
 the iteration ends with the locator one, and the block is handed back unchanged with the count zero.
 */
module RSSilent {
  import opened GF256
  import opened Polynomials
  import opened RSCode
  import opened RSLocations
  import opened RSEncoder
  import opened RSMassey
  import opened RSForney
  import opened RSDecoder

  /** The symbols from m on are zero. */
  predicate ZeroFrom(s: seq<bv8>, m: nat) {
    forall k :: m <= k < |s| ==> s[k] == 0
  }

  // ---------------------------------------------------------------- the length stays below m

  /** All terms of the first m are zero. */
  lemma {:induction false} ConvolveZero(l: seq<bv8>, s: seq<bv8>, k: nat, m: nat)
    requires m <= |l| && m <= k + 1 && k < |s|
    requires forall i :: 0 <= i < m ==> l[i] == 0 || s[k - i] == 0
    ensures Convolve(l, s, k, m) == 0
    decreases m
  {
    hide Add, Mul;
    if m > 0 {
      ConvolveZero(l, s, k, m - 1);
      MulUnit(l[m - 1]);
      MulUnit(s[k - (m - 1)]);
      AddZero(0);
    }
  }

  /** Only the term j of the first m is not zero. */
  lemma {:induction false} ConvolveSingle(l: seq<bv8>, s: seq<bv8>, k: nat, m: nat, j: nat)
    requires j < m <= |l| && m <= k + 1 && k < |s|
    requires forall i :: 0 <= i < m && i != j ==> l[i] == 0 || s[k - i] == 0
    ensures Convolve(l, s, k, m) == Mul(l[j], s[k - j])
    decreases m
  {
    hide Add, Mul;
    if j == m - 1 {
      ConvolveZero(l, s, k, j);
      AddZero(Mul(l[j], s[k - j]));
    } else {
      ConvolveSingle(l, s, k, m - 1, j);
      MulUnit(l[m - 1]);
      MulUnit(s[k - (m - 1)]);
      AddZero(Mul(l[j], s[k - j]));
    }
  }

  /** A length change past m would need a discrepancy among symbols that are all zero. */
  lemma StepShort(s: seq<bv8>, m: nat, r: nat, st: State)
    requires |s| == NROOTS && r < NROOTS && ZeroFrom(s, m)
    requires Invariant(s, 0, r, st) && st.el <= m
    ensures |st.lambda| == SIZE && |st.b| == SIZE && Step(s, 0, r, st).el <= m
  {
    hide Convolve, Corrected, Divided, TimesX, Corrects;
    if r + 1 - st.el > m {
      ConvolveZero(st.lambda, s, r, r + 1);
    }
  }

  lemma {:induction false} RunShort(s: seq<bv8>, m: nat, r: nat, st: State)
    requires |s| == NROOTS && r <= NROOTS && ZeroFrom(s, m)
    requires Invariant(s, 0, r, st) && st.el <= m
    ensures |st.lambda| == SIZE && |st.b| == SIZE
    ensures var end := Run(s, 0, r, st);
      Invariant(s, 0, NROOTS, end) && end.el <= m
    decreases NROOTS - r
  {
    hide Step, Invariant;
    InvariantSized(s, 0, r, st);
    if r < NROOTS {
      StepShort(s, m, r, st);
      StepInvariant(s, 0, r, st);
      RunShort(s, m, r + 1, Step(s, 0, r, st));
    }
  }

  // ---------------------------------------------------------------- the locator is one

  /** A recurrence no longer than half the run that annihilates a finite burst is trivial. */
  lemma ShortRecurrence(s: seq<bv8>, m: nat, l: seq<bv8>, el: int)
    requires |s| == NROOTS && |l| == SIZE && 1 <= m && 2 * m <= NROOTS
    requires ZeroFrom(s, m) && s[m - 1] != 0
    requires Predicts(s, NROOTS, l, el) && 0 <= el <= m
    ensures l == One()
  {
    hide Add, Mul, Convolve;
    var j := Degree(l, SIZE);
    DegreeTop(l, SIZE);
    if j > 0 {
      assert l[j] != 0 by { DegreeNonZero(l, SIZE); }
      var k := j + (m - 1);
      ConvolveSingle(l, s, k, k + 1, j);
      assert Discrepancy(l, s, k) == 0;
      MulNonZero(l[j], s[m - 1]);
    }
  }

  lemma {:induction false} LastNonZero(s: seq<bv8>, n: nat) returns (m: nat)
    requires n <= |s| && ZeroFrom(s, n) && !AllZero(s)
    ensures 1 <= m <= n && ZeroFrom(s, m) && s[m - 1] != 0
  {
    if n > 0 && s[n - 1] == 0 {
      m := LastNonZero(s, n - 1);
    } else {
      m := n;
    }
  }

  lemma LocatorIsOne(s: seq<bv8>)
    requires |s| == NROOTS && ZeroFrom(s, NROOTS / 2) && !AllZero(s)
    ensures ErrorLocator(s, []) == One()
  {
    hide Run, Invariant;
    var m := LastNonZero(s, NROOTS / 2);
    StartInvariant(s, 0, One());
    var start := State(One(), One(), 0);
    RunShort(s, m, 0, start);
    RunPredicts(s, Run(s, 0, 0, start));
    ShortRecurrence(s, m, Run(s, 0, 0, start).lambda, Run(s, 0, 0, start).el);
  }

  lemma RunPredicts(s: seq<bv8>, end: State)
    requires |s| == NROOTS && Invariant(s, 0, NROOTS, end)
    ensures |end.lambda| == SIZE && Predicts(s, NROOTS, end.lambda, end.el) && end.el >= 0
  {}

  lemma OneHasNoRoot(x: bv8)
    ensures Eval(One(), x) == 1
  {
    hide Add, Mul;
    assert AllZero(One()[1..]);
    EvalZero(One()[1..], x);
    MulUnit(x);
    AddZero(1);
  }

  lemma {:induction false} ScanOne(deg: int, i: int)
    requires 1 <= i <= NN + 1
    ensures Scan(One(), deg, i, []) == []
    decreases NN - i
  {
    hide Eval, Pow, One;
    if i <= NN {
      OneHasNoRoot(Pow(i));
      ScanOne(deg, i + 1);
    }
  }

  /** Syndromes that vanish from the seventeenth on are not noticed by the return value. */
  lemma SilentFailure(d: seq<bv8>)
    requires |d| <= NN && ZeroFrom(Syndromes(d), NROOTS / 2)
    ensures Decode(d, []) == Outcome(0, d, [])
  {
    hide Syndromes, ErrorLocator, Eval;
    if !AllZero(Syndromes(d)) {
      LocatorIsOne(Syndromes(d));
      DegreeIs(One(), SIZE, 0);
      ScanOne(0, 1);
    }
  }

  // ---------------------------------------------------------------- such a block exists

  function RootSet(n: nat): set<bv8> {
    if n == 0 then {} else RootSet(n - 1) + {Root(n)}
  }

  lemma RootsDiffer(i: nat, j: nat)
    requires i < j < NROOTS
    ensures Root(i) != Root(j)
  {
    hide Pow;
    ElevenInjective(FCR + i, FCR + j);
    LogPow(PRIM * (FCR + i));
    LogPow(PRIM * (FCR + j));
  }

  /** The roots 1, ..., n: all but the first. */
  lemma {:induction false} RootSetCard(n: nat)
    requires n < NROOTS
    ensures |RootSet(n)| == n
    ensures forall x :: x in RootSet(n) ==> exists i :: 1 <= i <= n && x == Root(i)
  {
    hide Root;
    if n > 0 {
      RootSetCard(n - 1);
      if Root(n) in RootSet(n - 1) {
        var i :| 1 <= i <= n - 1 && Root(n) == Root(i);
        RootsDiffer(i, n);
      }
    }
  }

  /** The generator polynomial without its first root. */
  function Cofactor(): (q: seq<bv8>)
    ensures |q| == NROOTS
  {
    Quotient(Generator(), Root(0))
  }

  lemma CofactorRoots(i: nat)
    requires 1 <= i < NROOTS
    ensures Eval(Cofactor(), Root(i)) == 0
  {
    hide Eval, Root, Quotient;
    GeneratorRoots(0);
    GeneratorRoots(i);
    RootsDiffer(0, i);
    RootOfQuotient(Generator(), Root(i), Root(0));
  }

  lemma CofactorNotZero()
    ensures Eval(Cofactor(), Root(0)) != 0
  {
    hide Eval, Root, Quotient;
    assert Generator()[0] == GenCoeff(0) == 1;
    if Eval(Cofactor(), Root(0)) == 0 {
      RootSetCard(NROOTS - 1);
      var roots := RootSet(NROOTS - 1) + {Root(0)};
      if Root(0) in RootSet(NROOTS - 1) {
        var i :| 1 <= i <= NROOTS - 1 && Root(0) == Root(i);
        RootsDiffer(0, i);
      }
      forall y | y in roots
        ensures Eval(Cofactor(), y) == 0
      {
        if y != Root(0) {
          var i :| 1 <= i <= NROOTS - 1 && y == Root(i);
          CofactorRoots(i);
        }
      }
      RootBound(Cofactor(), roots);
      GeneratorRoots(0);
      QuotientZero(Generator(), Root(0));
    }
  }

  /** In every block length that can hold the parity, a block that is no codeword is returned with the count zero. */
  lemma SilentBlock(n: nat) returns (d: seq<bv8>)
    requires NROOTS <= n <= NN
    ensures |d| == n && !IsCodeword(d)
    ensures Decode(d, []) == Outcome(0, d, [])
  {
    hide Eval, Root, Quotient, Horner, Decode, Add, Mul;
    var z := seq(n - NROOTS, _ => 0 as bv8);
    var q := Reversed(Cofactor());
    assert Reversed(q) == Cofactor();
    d := z + q;
    forall i | 0 <= i < NROOTS
      ensures Horner(d, Root(i)) == Eval(Cofactor(), Root(i))
    {
      HornerConcat(z, q, Root(i));
      HornerZero(z, Root(i));
      HornerReversed(q, Root(i));
      MulUnit(Power(Root(i), NROOTS));
      AddZero(Horner(q, Root(i)));
    }
    CofactorNotZero();
    assert Horner(d, Root(0)) != 0;
    forall k | 1 <= k < NROOTS
      ensures Syndromes(d)[k] == 0
    {
      CofactorRoots(k);
    }
    SilentFailure(d);
  }
}
