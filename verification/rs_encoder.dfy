/**
 `encode_rs_8`: the shift-register encoder.  `Parity` is the register after the message has
 been shifted through it; the method computes it in place, and the lemmas show that it is
 the one parity that completes the message to a codeword.
 */
module RSEncoder {
  import opened GF256
  import opened Polynomials
  import opened RSCode
  import opened RSLocations

  /** The register with the feedback f added at the taps. */
  function Fed(par: seq<bv8>, f: bv8): (p: seq<bv8>)
    requires |par| == NROOTS
    ensures |p| == NROOTS
  {
    seq(NROOTS, k requires 0 <= k < NROOTS => if k == 0 then par[0] else Add(par[k], Mul(f, GenCoeff(NROOTS - k))))
  }

  /** One shift of the register: the feedback is the symbol plus what is shifted out. */
  function Shift(par: seq<bv8>, v: bv8): (p: seq<bv8>)
    requires |par| == NROOTS
    ensures |p| == NROOTS
  {
    var f := Add(v, par[0]);
    Fed(par, f)[1..] + [Mul(f, GenCoeff(0))]
  }

  function Parity(msg: seq<bv8>): (p: seq<bv8>)
    ensures |p| == NROOTS
  {
    if msg == [] then seq(NROOTS, _ => 0) else Shift(Parity(msg[..|msg| - 1]), msg[|msg| - 1])
  }

  // ---------------------------------------------------------------- the parity makes a codeword

  function Reversed(d: seq<bv8>): (r: seq<bv8>)
    ensures |r| == |d|
  {
    seq(|d|, i requires 0 <= i < |d| => d[|d| - 1 - i])
  }

  lemma {:induction false} HornerReversed(d: seq<bv8>, x: bv8)
    ensures Horner(d, x) == Eval(Reversed(d), x)
  {
    hide Add, Mul;
    if d != [] {
      var n := |d| - 1;
      HornerReversed(d[..n], x);
      assert Reversed(d)[1..] == Reversed(d[..n]);
      AddComm(Mul(x, Horner(d[..n], x)), d[n]);
    }
  }

  lemma HornerLinear(p: seq<bv8>, q: seq<bv8>, c: bv8, r: seq<bv8>, x: bv8)
    requires |p| == |q| == |r|
    requires forall i :: 0 <= i < |p| ==> r[i] == Add(p[i], Mul(c, q[i]))
    ensures Horner(r, x) == Add(Horner(p, x), Mul(c, Horner(q, x)))
  {
    hide Add, Mul, Horner, Eval;
    HornerReversed(p, x);
    HornerReversed(q, x);
    HornerReversed(r, x);
    EvalLinear(Reversed(p), Reversed(q), c, Reversed(r), x);
  }

  lemma HornerCons(a: bv8, d: seq<bv8>, x: bv8)
    ensures Horner([a] + d, x) == Add(Mul(Power(x, |d|), a), Horner(d, x))
  {
    hide Add, Mul;
    HornerConcat([a], d, x);
    MulUnit(x);
    AddZero(a);
  }

  /** The feedback taps: the generator polynomial without its leading coefficient. */
  function Taps(): (h: seq<bv8>)
    ensures |h| == NROOTS
  {
    seq(NROOTS, i requires 0 <= i < NROOTS => GenCoeff(NROOTS - 1 - i))
  }

  lemma TapsAtRoot(i: nat)
    requires i < NROOTS
    ensures Horner(Taps(), Root(i)) == Power(Root(i), NROOTS)
  {
    assert GenCoeff(0) == 1;
    hide Add, Mul, Horner, Eval, Power, Pow;
    var x, g := Root(i), Generator();
    forall t | 0 <= t <= NROOTS
      ensures g[t] == ([1] + Taps())[t] == Reversed(g)[t]
    {
      GenPalindrome(t);
    }
    assert [1] + Taps() == g == Reversed(g);
    HornerReversed(g, x);
    GeneratorRoots(i);
    HornerCons(1, Taps(), x);
    MulUnit(Power(x, NROOTS));
    AddCancel(Power(x, NROOTS), Horner(Taps(), x));
  }

  /** One step of the register at a root: the shifted content plus the feedback. */
  lemma ShiftFeedback(par: seq<bv8>, v: bv8, i: nat)
    requires |par| == NROOTS && i < NROOTS
    ensures Horner(Shift(par, v), Root(i))
         == Add(Mul(Root(i), Horner(par[1..], Root(i))), Mul(Add(v, par[0]), Power(Root(i), NROOTS)))
  {
    hide Add, Mul, Horner, Pow, Root, GenCoeff, Power;
    var x, f := Root(i), Add(v, par[0]);
    AddZero(Mul(f, GenCoeff(0)));
    HornerLinear(par[1..] + [0], Taps(), f, Shift(par, v), x);
    TapsAtRoot(i);
    HornerSnocZero(par[1..], x);
  }

  lemma HornerSnocZero(d: seq<bv8>, x: bv8)
    ensures Horner(d + [0], x) == Mul(x, Horner(d, x))
  {
    hide Add, Mul;
    AddZero(Mul(x, Horner(d, x)));
  }

  lemma ShiftAtRoot(par: seq<bv8>, v: bv8, i: nat)
    requires |par| == NROOTS && i < NROOTS
    ensures Horner(Shift(par, v), Root(i)) == Add(Mul(Root(i), Horner(par, Root(i))), Mul(v, Power(Root(i), NROOTS)))
  {
    hide Add, Mul, Horner, Pow, Root, GenCoeff, Shift;
    var x := Root(i);
    ShiftFeedback(par, v, i);
    assert [par[0]] + par[1..] == par;
    HornerCons(par[0], par[1..], x);
    ShiftAlgebra(v, par[0], x, Power(x, NROOTS - 1), Horner(par[1..], x));
  }

  lemma HornerSingle(a: bv8, x: bv8)
    ensures Horner([a], x) == a
  {
    hide Add, Mul;
    MulUnit(x);
    AddZero(a);
  }

  lemma ShiftAlgebra(v: bv8, a: bv8, x: bv8, p: bv8, t: bv8)
    ensures Add(Mul(x, t), Mul(Add(v, a), Mul(x, p))) == Add(Mul(x, Add(Mul(p, a), t)), Mul(v, Mul(x, p)))
  {
    hide Add, Mul;
    var w := Mul(x, p);
    MulAddLeft(v, a, w);
    MulAddRight(x, Mul(p, a), t);
    MulAssoc(x, p, a);
    MulComm(w, a);
    AddComm(Mul(v, w), Mul(a, w));
    AddComm(Mul(a, w), Mul(x, t));
    AddAssoc(Mul(x, t), Mul(a, w), Mul(v, w));
  }

  lemma {:induction false} ParityAtRoot(msg: seq<bv8>, i: nat)
    requires i < NROOTS
    ensures Horner(Parity(msg), Root(i)) == Mul(Power(Root(i), NROOTS), Horner(msg, Root(i)))
  {
    hide Add, Mul, Root, Shift;
    var x, top := Root(i), Power(Root(i), NROOTS);
    if msg == [] {
      HornerZero(Parity(msg), x);
      MulUnit(top);
    } else {
      var n := |msg| - 1;
      var h := Horner(msg[..n], x);
      ParityAtRoot(msg[..n], i);
      ShiftAtRoot(Parity(msg[..n]), msg[n], i);
      MulAddRight(top, Mul(x, h), msg[n]);
      MulComm(top, msg[n]);
      MulAssoc(top, x, h);
      MulComm(top, x);
      MulAssoc(x, top, h);
    }
  }

  lemma ParityIsCodeword(msg: seq<bv8>)
    ensures IsCodeword(msg + Parity(msg))
  {
    hide Add, Mul, Root, Horner, Power;
    forall i | 0 <= i < NROOTS
      ensures Horner(msg + Parity(msg), Root(i)) == 0
    {
      ParityAtRoot(msg, i);
      HornerConcat(msg, Parity(msg), Root(i));
      AddSelf(Horner(Parity(msg), Root(i)));
    }
  }

  /** The syndromes of a block vanish exactly when its last 32 symbols are the parity of the others. */
  lemma CodewordIffParity(msg: seq<bv8>, par: seq<bv8>)
    requires |msg| <= NN - NROOTS && |par| == NROOTS
    ensures IsCodeword(msg + par) <==> par == Parity(msg)
  {
    hide Horner, Root, Parity;
    ParityIsCodeword(msg);
    if IsCodeword(msg + par) && par != Parity(msg) {
      var d, c := msg + par, msg + Parity(msg);
      assert d[|msg|..] == par && c[|msg|..] == Parity(msg);
      MinimumDistance(d, c);
      SubsetCard(Differing(d, c), Interval(|msg|, |d|));
    }
  }

  function Interval(lo: int, hi: int): (r: set<int>)
    requires lo <= hi
    ensures forall i :: i in r <==> lo <= i < hi
    ensures |r| == hi - lo
    decreases hi - lo
  {
    if lo == hi then {} else Interval(lo, hi - 1) + {hi - 1}
  }

  // ---------------------------------------------------------------- the encoder

  /** `ALPHA_TO[mod255(x)]`. */
  method Antilog(x: int) returns (v: bv8)
    requires x >= 0
    ensures v == Pow(x)
  {
    var m := Mod255(x);
    v := AlphaTo(ByteOf(m));
    AlphaMod(x);
  }

  lemma FeedbackProduct(f: bv8, t: nat)
    requires f != 0 && t <= NROOTS
    ensures |GENPOLY| == NROOTS + 1 && GENPOLY[t] >= 0 && 0 <= Log(f) < 255
    ensures Pow(Log(f) + GENPOLY[t]) == Mul(f, GenCoeff(t))
  {
    hide Mul, Pow, Log;
    GenLogs();
    PowLog(f);
    PowAdd(Log(f), GENPOLY[t]);
  }

  method EncodeRs8(data: array<bv8>, parity: array<bv8>, pad: nat)
    requires pad <= NN - NROOTS <= data.Length + pad
    requires parity.Length == NROOTS && data != parity
    modifies parity
    ensures parity[..] == Parity(data[..NN - NROOTS - pad])
    ensures IsCodeword(data[..NN - NROOTS - pad] + parity[..])
  {
    hide Horner, Root, Shift;
    for k := 0 to NROOTS
      invariant forall j :: 0 <= j < k ==> parity[j] == 0
    {
      parity[k] := 0;
    }
    for i := 0 to NN - NROOTS - pad
      invariant parity[..] == Parity(data[..i])
    {
      assert data[..i + 1][..i] == data[..i];
      ShiftRegister(parity, data[i]);
    }
    ParityIsCodeword(data[..NN - NROOTS - pad]);
  }

  /** The body of the encoder's loop: one symbol into the register. */
  method ShiftRegister(parity: array<bv8>, symbol: bv8)
    requires parity.Length == NROOTS
    modifies parity
    ensures parity[..] == Shift(old(parity[..]), symbol)
  {
    var f := Add(symbol, parity[0]);
    hide Mul, Pow, Log, Add, GenCoeff, Fed;
    var last := FeedBack(parity, f);
    ShiftOut(parity, last);
  }

  /** Move the register one symbol towards its high end and enter a new last symbol. */
  method ShiftOut(parity: array<bv8>, last: bv8)
    requires parity.Length == NROOTS
    modifies parity
    ensures parity[..] == old(parity[1..]) + [last]
  {
    forall k | 0 <= k < NROOTS - 1 { parity[k] := parity[k + 1]; }
    parity[NROOTS - 1] := last;
  }

  /** Add the feedback at the taps, in logarithms, unless it is zero; `last` is its share of the new last symbol. */
  method FeedBack(parity: array<bv8>, f: bv8) returns (last: bv8)
    requires parity.Length == NROOTS
    modifies parity
    ensures parity[..] == Fed(old(parity[..]), f)
    ensures last == Mul(f, GenCoeff(0))
  {
    hide Mul, Pow, Log, Add, GenCoeff, Fed;
    var feedback := Log(f);
    LogRange(f);
    GenLogs();
    if feedback != 255 {
      AddFeedback(parity, feedback, f);
      FeedbackProduct(f, 0);
      last := Antilog(feedback + GENPOLY[0]);
    } else {
      FedZero(parity[..]);
      MulUnit(GenCoeff(0));
      last := 0;
    }
  }

  method AddFeedback(parity: array<bv8>, feedback: int, ghost f: bv8)
    requires parity.Length == NROOTS && f != 0 && feedback == Log(f)
    modifies parity
    ensures parity[..] == Fed(old(parity[..]), f)
  {
    hide Add, Mul, Pow, Log, GenCoeff;
    ghost var p, q := parity[..], Fed(parity[..], f);
    GenLogs();
    PowLog(f);
    for j := 1 to NROOTS
      invariant forall k :: 0 <= k < NROOTS ==> parity[k] == if k < j then q[k] else p[k]
    {
      var v := Antilog(feedback + GENPOLY[NROOTS - j]);
      FeedbackProduct(f, NROOTS - j);
      parity[j] := Add(parity[j], v);
    }
  }

  lemma FedZero(p: seq<bv8>)
    requires |p| == NROOTS
    ensures Fed(p, 0) == p
  {
    hide Mul, Add, Pow;
    forall k | 0 < k < NROOTS
      ensures Fed(p, 0)[k] == p[k]
    {
      MulUnit(GenCoeff(NROOTS - k));
      AddZero(p[k]);
    }
  }
}
