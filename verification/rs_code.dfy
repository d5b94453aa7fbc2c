/**
 The RS(255,223) code of `encode_rs_8`: its generator polynomial, what a codeword is, and
 the proof that the encoder's parity is the only one that makes a codeword.

 A block of n <= 255 symbols is the polynomial whose leading coefficient is its first
 symbol; a shortened block (`pad` > 0) is a full one whose first `pad` symbols are zero.
 */
module RSCode {
  import opened GF256
  import opened Polynomials

  const NN := 255
  const NROOTS := 32
  const FCR := 112
  const PRIM := 11
  const IPRIM := 116

  /** Logarithms of the generator polynomial's coefficients, lowest first. */
  const GENPOLY: seq<int> := [
    0x00, 0xF9, 0x3B, 0x42, 0x04, 0x2B, 0x7E, 0xFB, 0x61, 0x1E, 0x03, 0xD5, 0x32, 0x42, 0xAA, 0x05,
    0x18, 0x05, 0xAA, 0x42, 0x32, 0xD5, 0x03, 0x1E, 0x61, 0xFB, 0x7E, 0x2B, 0x04, 0x42, 0x3B, 0xF9,
    0x00]

  /** The i-th root of the generator polynomial. */
  function Root(i: nat): bv8 { Pow(PRIM * (FCR + i)) }

  /** The value at x of a block, first symbol leading. */
  function Horner(d: seq<bv8>, x: bv8): bv8 {
    if d == [] then 0 else Add(Mul(x, Horner(d[..|d| - 1], x)), d[|d| - 1])
  }

  /** A codeword vanishes at every root of the generator polynomial. */
  predicate IsCodeword(d: seq<bv8>) {
    forall i :: 0 <= i < NROOTS ==> Horner(d, Root(i)) == 0
  }

  function Syndromes(d: seq<bv8>): (s: seq<bv8>)
    ensures |s| == NROOTS
  {
    seq(NROOTS, i requires 0 <= i < NROOTS => Horner(d, Root(i)))
  }

  // ---------------------------------------------------------------- the generator polynomial

  function GenCoeff(t: nat): bv8
    requires t <= NROOTS
  {
    GenLogs();
    Pow(GENPOLY[t])
  }

  lemma GenLogs()
    ensures |GENPOLY| == NROOTS + 1
    ensures forall t :: 0 <= t <= NROOTS ==> 0 <= GENPOLY[t] < 255
  {}

  lemma GenPalindrome(t: nat)
    requires t <= NROOTS
    ensures |GENPOLY| == NROOTS + 1 && GENPOLY[t] == GENPOLY[NROOTS - t]
  {}

  function Generator(): (g: seq<bv8>)
    ensures |g| == NROOTS + 1
  {
    seq(NROOTS + 1, t requires 0 <= t <= NROOTS => GenCoeff(t))
  }

  /**
   One coefficient of the identity g(cx)(x + c^143) = c^32 (x + c^111) g(x), where c = x^PRIM.
   It holds because the roots of g are c^112, ..., c^143, and it moves each root to the next.
   `g` and `h` are the logarithms of two neighbouring coefficients.
   */
  predicate GenIdentity(t: nat, g: nat, h: nat)
    requires t >= 1
  {
    Add(Pow(g + 11 * (t - 1)), Pow(g + 352)) == Add(Pow(h + 1573), Pow(h + 1573 + 11 * t))
  }

  /** The logarithms of the four terms, reduced modulo 255, and the identity between the terms. */
  predicate GenTerms(t: int, g: int, h: int, i: bv8, j: bv8, k: bv8, l: bv8) {
    && i as int == (g + 11 * (t - 1)) % 255
    && j as int == (g + 352) % 255
    && k as int == (h + 1573) % 255
    && l as int == (h + 1573 + 11 * t) % 255
    && Add(AlphaTo(i), AlphaTo(j)) == Add(AlphaTo(k), AlphaTo(l))
  }

  lemma AlphaModByte(n: nat, i: bv8)
    requires i as int == n % 255
    ensures AlphaTo(i) == Pow(n)
  {
    hide Pow, AlphaTo, ByteOf;
    AlphaMod(n);
    ByteOfByte(i);
  }

  ghost predicate GenHolds(t: int, g: int, h: int) {
    exists i, j, k, l {:trigger GenTerms(t, g, h, i, j, k, l)} :: GenTerms(t, g, h, i, j, k, l)
  }

  lemma GenTermsIdentity(t: nat, g: nat, h: nat)
    requires t >= 1 && GenHolds(t, g, h)
    ensures GenIdentity(t, g, h)
  {
    hide Pow, AlphaTo, Add;
    var i, j, k, l :| GenTerms(t, g, h, i, j, k, l);
    AlphaModByte(g + 11 * (t - 1), i);
    AlphaModByte(g + 352, j);
    AlphaModByte(h + 1573, k);
    AlphaModByte(h + 1573 + 11 * t, l);
  }

  lemma GenTermsA()
    ensures GenHolds(1, 0x00, 0xF9) && GenHolds(2, 0xF9, 0x3B) && GenHolds(3, 0x3B, 0x42) && GenHolds(4, 0x42, 0x04)
    ensures GenHolds(5, 0x04, 0x2B) && GenHolds(6, 0x2B, 0x7E) && GenHolds(7, 0x7E, 0xFB) && GenHolds(8, 0xFB, 0x61)
  {
    assert GenTerms(1, 0x00, 0xF9, 0, 97, 37, 48);
    assert GenTerms(2, 0xF9, 0x3B, 5, 91, 102, 124);
    assert GenTerms(3, 0x3B, 0x42, 81, 156, 109, 142);
    assert GenTerms(4, 0x42, 0x04, 99, 163, 47, 91);
    assert GenTerms(5, 0x04, 0x2B, 48, 101, 86, 141);
    assert GenTerms(6, 0x2B, 0x7E, 98, 140, 169, 235);
    assert GenTerms(7, 0x7E, 0xFB, 192, 223, 39, 116);
    assert GenTerms(8, 0xFB, 0x61, 73, 93, 140, 228);
  }

  lemma GenTermsB()
    ensures GenHolds(9, 0x61, 0x1E) && GenHolds(10, 0x1E, 0x03) && GenHolds(11, 0x03, 0xD5) && GenHolds(12, 0xD5, 0x32)
    ensures GenHolds(13, 0x32, 0x42) && GenHolds(14, 0x42, 0xAA) && GenHolds(15, 0xAA, 0x05) && GenHolds(16, 0x05, 0x18)
  {
    assert GenTerms(9, 0x61, 0x1E, 185, 194, 73, 172);
    assert GenTerms(10, 0x1E, 0x03, 129, 127, 46, 156);
    assert GenTerms(11, 0x03, 0xD5, 113, 100, 1, 122);
    assert GenTerms(12, 0xD5, 0x32, 79, 55, 93, 225);
    assert GenTerms(13, 0x32, 0x42, 182, 147, 109, 252);
    assert GenTerms(14, 0x42, 0xAA, 209, 163, 213, 112);
    assert GenTerms(15, 0xAA, 0x05, 69, 12, 48, 213);
    assert GenTerms(16, 0x05, 0x18, 170, 102, 67, 243);
  }

  lemma GenTermsC()
    ensures GenHolds(17, 0x18, 0x05) && GenHolds(18, 0x05, 0xAA) && GenHolds(19, 0xAA, 0x42) && GenHolds(20, 0x42, 0x32)
    ensures GenHolds(21, 0x32, 0xD5) && GenHolds(22, 0xD5, 0x03) && GenHolds(23, 0x03, 0x1E) && GenHolds(24, 0x1E, 0x61)
  {
    assert GenTerms(17, 0x18, 0x05, 200, 121, 48, 235);
    assert GenTerms(18, 0x05, 0xAA, 192, 102, 213, 156);
    assert GenTerms(19, 0xAA, 0x42, 113, 12, 109, 63);
    assert GenTerms(20, 0x42, 0x32, 20, 163, 93, 58);
    assert GenTerms(21, 0x32, 0xD5, 15, 147, 1, 232);
    assert GenTerms(22, 0xD5, 0x03, 189, 55, 46, 33);
    assert GenTerms(23, 0x03, 0x1E, 245, 100, 73, 71);
    assert GenTerms(24, 0x1E, 0x61, 28, 127, 140, 149);
  }

  lemma GenTermsD()
    ensures GenHolds(25, 0x61, 0xFB) && GenHolds(26, 0xFB, 0x7E) && GenHolds(27, 0x7E, 0x2B) && GenHolds(28, 0x2B, 0x04)
    ensures GenHolds(29, 0x04, 0x42) && GenHolds(30, 0x42, 0x3B) && GenHolds(31, 0x3B, 0xF9) && GenHolds(32, 0xF9, 0x00)
  {
    assert GenTerms(25, 0x61, 0xFB, 106, 194, 39, 59);
    assert GenTerms(26, 0xFB, 0x7E, 16, 93, 169, 200);
    assert GenTerms(27, 0x7E, 0x2B, 157, 223, 86, 128);
    assert GenTerms(28, 0x2B, 0x04, 85, 140, 47, 100);
    assert GenTerms(29, 0x04, 0x42, 57, 101, 109, 173);
    assert GenTerms(30, 0x42, 0x3B, 130, 163, 102, 177);
    assert GenTerms(31, 0x3B, 0xF9, 134, 156, 37, 123);
    assert GenTerms(32, 0xF9, 0x00, 80, 91, 43, 140);
  }

  lemma GenIdentityAt(t: nat)
    requires 1 <= t <= NROOTS
    ensures |GENPOLY| == NROOTS + 1 && 0 <= GENPOLY[t - 1] && 0 <= GENPOLY[t]
    ensures GenIdentity(t, GENPOLY[t - 1], GENPOLY[t])
  {
    hide GenHolds, GenIdentity;
    GenTermsA();
    GenTermsB();
    GenTermsC();
    GenTermsD();
    GenTermsIdentity(t, GENPOLY[t - 1], GENPOLY[t]);
  }

  /** The generator polynomial's coefficients at cx: g(cx) as a polynomial in x. */
  function GeneratorShifted(): (g: seq<bv8>)
    ensures |g| == NROOTS + 1
  {
    seq(NROOTS + 1, t requires 0 <= t <= NROOTS => Mul(GenCoeff(t), Pow(11 * t)))
  }

  lemma GenIdentityRotated(t: nat, g: nat, h: nat)
    requires t >= 1 && GenIdentity(t, g, h)
    ensures Add(Pow(g + 11 * (t - 1)), Pow(1573 + (h + 11 * t))) == Add(Pow(352 + g), Pow(1573 + h))
  {
    hide Add, Pow;
    AddRotate(Pow(g + 11 * (t - 1)), Pow(g + 352), Pow(h + 1573), Pow(h + 1573 + 11 * t));
  }

  lemma PowAdd3(i: nat, j: nat, k: nat)
    ensures Mul(Pow(i), Mul(Pow(j), Pow(k))) == Pow(i + (j + k))
  {
    hide Mul, Pow;
    PowAdd(j, k);
    PowAdd(i, j + k);
  }

  lemma GenIdentityProducts(t: nat, g: nat, h: nat)
    requires t >= 1 && GenIdentity(t, g, h)
    ensures Add(Mul(Pow(g), Pow(11 * (t - 1))), Mul(Pow(1573), Mul(Pow(h), Pow(11 * t))))
         == Add(Mul(Pow(352), Pow(g)), Mul(Pow(1573), Pow(h)))
  {
    hide Add, Mul, Pow, GenIdentity;
    calc {
      Add(Mul(Pow(g), Pow(11 * (t - 1))), Mul(Pow(1573), Mul(Pow(h), Pow(11 * t))));
      { PowAdd(g, 11 * (t - 1)); }
      Add(Pow(g + 11 * (t - 1)), Mul(Pow(1573), Mul(Pow(h), Pow(11 * t))));
      { PowAdd3(1573, h, 11 * t); }
      Add(Pow(g + 11 * (t - 1)), Pow(1573 + (h + 11 * t)));
      { GenIdentityRotated(t, g, h); }
      Add(Pow(352 + g), Pow(1573 + h));
      { PowAdd(352, g); }
      Add(Mul(Pow(352), Pow(g)), Pow(1573 + h));
      { PowAdd(1573, h); }
      Add(Mul(Pow(352), Pow(g)), Mul(Pow(1573), Pow(h)));
    }
  }

  lemma GenIdentityCoeff(t: nat)
    requires 1 <= t <= NROOTS
    ensures Add(Mul(GenCoeff(t - 1), Pow(11 * (t - 1))), Mul(Pow(1573), Mul(GenCoeff(t), Pow(11 * t))))
         == Add(Mul(Pow(352), GenCoeff(t - 1)), Mul(Pow(1573), GenCoeff(t)))
  {
    hide Add, Mul, Pow, GenIdentity;
    GenIdentityAt(t);
    GenIdentityProducts(t, GENPOLY[t - 1], GENPOLY[t]);
  }

  lemma AddRotate(a: bv8, b: bv8, p: bv8, q: bv8)
    requires Add(a, b) == Add(p, q)
    ensures Add(a, q) == Add(b, p)
  {
    hide Add;
    AddComm(p, q);
    AddComm(a, b);
    AddCross(a, b, q);
    AddCross(b, a, q);
    calc {
      Add(a, q);
      { AddCancel(b, Add(a, q)); }
      Add(b, Add(b, Add(a, q)));
      { AddAssoc(b, a, q); }
      Add(b, Add(Add(q, p), q));
      { AddComm(q, p); AddCancel(p, q); }
      Add(b, p);
    }
  }

  lemma {:induction false} EvalScaled(p: seq<bv8>, r: seq<bv8>, d: bv8, c: bv8, x: bv8)
    requires |p| == |r|
    requires forall t :: 0 <= t < |p| ==> r[t] == Mul(d, Mul(p[t], Power(c, t)))
    ensures Eval(r, x) == Mul(d, Eval(p, Mul(c, x)))
  {
    hide Add, Mul;
    if p == [] {
      MulUnit(d);
    } else {
      var p', r' := p[1..], r[1..];
      var e := Eval(p', Mul(c, x));
      forall t | 0 <= t < |p'|
        ensures r'[t] == Mul(Mul(d, c), Mul(p'[t], Power(c, t)))
      {
        assert r'[t] == r[t + 1] && p'[t] == p[t + 1];
        MulSwap(d, p[t + 1], c, Power(c, t));
      }
      EvalScaled(p', r', Mul(d, c), c, x);
      MulUnit(p[0]);
      MulAddRight(d, p[0], Mul(Mul(c, x), e));
      MulComm(Mul(d, c), e);
      MulAssoc(x, e, Mul(d, c));
      MulComm(x, Mul(e, Mul(d, c)));
      ScaledTail(d, c, x, e);
    }
  }

  lemma MulSwap(d: bv8, p: bv8, c: bv8, q: bv8)
    ensures Mul(d, Mul(p, Mul(c, q))) == Mul(Mul(d, c), Mul(p, q))
  {
    hide Mul;
    MulAssoc(p, c, q);
    MulComm(p, c);
    MulAssoc(c, p, q);
    MulAssoc(d, c, Mul(p, q));
  }

  lemma ScaledTail(d: bv8, c: bv8, x: bv8, e: bv8)
    ensures Mul(x, Mul(Mul(d, c), e)) == Mul(d, Mul(Mul(c, x), e))
  {
    hide Mul;
    MulComm(x, Mul(Mul(d, c), e));
    MulAssoc(Mul(d, c), e, x);
    MulComm(e, x);
    MulAssoc(d, c, Mul(x, e));
    MulAssoc(c, x, e);
  }

  /** Both sides of the identity, as polynomials. */
  function GenLeft(): (l: seq<bv8>)
    ensures |l| == NROOTS + 2
  {
    var g := GeneratorShifted();
    seq(NROOTS + 2, t requires 0 <= t <= NROOTS + 1 => Add(([0] + g)[t], Mul(Pow(1573), (g + [0])[t])))
  }

  lemma GenLeftRight(t: nat)
    requires t <= NROOTS + 1
    ensures GenLeft()[t] == Add(Mul(Pow(352), ([0] + Generator())[t]), Mul(Pow(1573), (Generator() + [0])[t]))
  {
    hide Add, Mul, Pow, GenCoeff;
    if t == 0 {
      MulUnit(Pow(352));
      PowZero();
      MulUnit(GenCoeff(0));
    } else if t <= NROOTS {
      GenIdentityCoeff(t);
    } else {
      LeadingCoeff();
      MulUnit(Pow(1573));
      MulUnit(Pow(352));
    }
  }

  lemma LeadingCoeff()
    ensures GenCoeff(NROOTS) == 1
  {}

  lemma EvalPadLeft(p: seq<bv8>, x: bv8)
    ensures Eval([0] + p, x) == Mul(x, Eval(p, x))
  {
    hide Add, Mul;
    assert ([0] + p)[1..] == p;
    AddZero(Mul(x, Eval(p, x)));
  }

  lemma EvalPadRight(p: seq<bv8>, x: bv8)
    ensures Eval(p + [0], x) == Eval(p, x)
  {
    hide Add, Mul, Eval;
    EvalSnoc(p, 0, x);
    MulUnit(Power(x, |p|));
    AddZero(Eval(p, x));
  }

  /** g(cx)(x + c^143) = c^32 (x + c^111) g(x). */
  lemma GenFunctional(x: bv8)
    ensures Mul(Add(x, Pow(1573)), Eval(Generator(), Mul(Pow(11), x)))
         == Mul(Mul(Pow(352), Add(x, Pow(1221))), Eval(Generator(), x))
  {
    hide Add, Mul, Pow, Eval;
    var g, gs, l := Generator(), GeneratorShifted(), GenLeft();
    var v, w := Eval(g, x), Eval(gs, x);
    // the left side
    EvalLinear([0] + gs, gs + [0], Pow(1573), l, x);
    EvalPadLeft(gs, x);
    EvalPadRight(gs, x);
    MulAddLeft(x, Pow(1573), w);
    // the right side
    var r := seq(NROOTS + 2, t requires 0 <= t <= NROOTS + 1 => Mul(Pow(352), ([0] + g)[t]));
    forall t | 0 <= t < |l|
      ensures l[t] == Add(r[t], Mul(Pow(1573), (g + [0])[t]))
    {
      GenLeftRight(t);
    }
    EvalLinear(r, g + [0], Pow(1573), l, x);
    EvalScale([0] + g, Pow(352), r, x);
    EvalPadLeft(g, x);
    EvalPadRight(g, x);
    PowAdd(352, 1221);
    MulAssoc(Pow(352), x, v);
    MulAddRight(Pow(352), x, Pow(1221));
    MulAddLeft(Mul(Pow(352), x), Pow(1573), v);
    // the shifted polynomial
    forall t | 0 <= t < |g|
      ensures gs[t] == Mul(1, Mul(g[t], Power(Pow(11), t)))
    {
      PowerOfPow(11, t);
      MulUnit(gs[t]);
    }
    EvalScaled(g, gs, 1, Pow(11), x);
    MulUnit(Eval(g, Mul(Pow(11), x)));
  }

  lemma EvalScale(p: seq<bv8>, c: bv8, r: seq<bv8>, x: bv8)
    requires |p| == |r|
    requires forall t :: 0 <= t < |p| ==> r[t] == Mul(c, p[t])
    ensures Eval(r, x) == Mul(c, Eval(p, x))
  {
    hide Add, Mul, Eval;
    var z := seq(|p|, _ => 0 as bv8);
    forall t | 0 <= t < |p|
      ensures r[t] == Add(z[t], Mul(c, p[t]))
    {
      AddZero(r[t]);
    }
    EvalLinear(z, p, c, r, x);
    EvalZero(z, x);
    AddZero(Mul(c, Eval(p, x)));
  }

  /** PRIM is invertible modulo 255. */
  lemma ElevenMultiple(u: int, v: int)
    ensures 11 * u == 255 * v ==> u == 255 * (116 * v - 5 * u)
  {}

  lemma ElevenInjective(i: nat, j: nat)
    requires i < j < i + 255
    ensures (11 * i) % 255 != (11 * j) % 255
  {
    ElevenMultiple(j - i, 11 * j / 255 - 11 * i / 255);
  }

  /** The generator polynomial vanishes at c^112, ..., c^143. */
  lemma {:induction false} GeneratorRoots(i: nat)
    requires i < NROOTS
    ensures Eval(Generator(), Root(i)) == 0
  {
    hide Add, Mul, Pow, Eval;
    var x := Pow(11 * (111 + i));
    assert Root(i) == Mul(Pow(11), x) by { PowAdd(11, 11 * (111 + i)); }
    GenFunctional(x);
    if i == 0 {
      AddSelf(x);
      MulUnit(Pow(352));
      MulUnit(Eval(Generator(), x));
    } else {
      GeneratorRoots(i - 1);
      assert x == Root(i - 1);
      MulUnit(Mul(Pow(352), Add(x, Pow(1221))));
    }
    ElevenInjective(111 + i, 143);
    LogPow(11 * (111 + i));
    LogPow(1573);
    AddCancel(x, Pow(1573));
    MulNonZero(Add(x, Pow(1573)), Eval(Generator(), Root(i)));
  }
}
