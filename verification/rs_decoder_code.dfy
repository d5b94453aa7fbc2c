/**
 `decode_rs_8` as the source computes it: in place, in logarithms, phase by phase.  Every phase
 is proved to compute its part of `RSDecoder.Decode`, for every block and every erasure list,
 and the last method restates what that means for blocks within the code's radius.

 An array that the source turns into index form in place (`s`, `lambda`, `omega`) is here a second
 array of numbers 0..255; 255 is the logarithm of zero.
 */
module RSDecoderCode {
  import opened GF256
  import opened Polynomials
  import opened RSCode
  import opened RSLocations
  import opened RSEncoder
  import opened RSMassey
  import opened RSRadius
  import opened RSForney
  import opened RSDecoder
  import opened RSSound

  /** li is l in index form. */
  ghost predicate IndexForm(li: seq<int>, l: seq<bv8>) {
    |li| == |l| && forall i :: 0 <= i < |l| ==> li[i] == Log(l[i])
  }

  /** The guard and the two lookups with which the source multiplies two elements. */
  lemma ProductOfLogs(a: bv8, b: bv8)
    ensures Log(a) == 255 <==> a == 0
    ensures Log(b) == 255 <==> b == 0
    ensures a == 0 || b == 0 ==> Mul(a, b) == 0
    ensures a != 0 && b != 0 ==> 0 <= Log(a) < 255 && 0 <= Log(b) < 255 && Pow(Log(a) + Log(b)) == Mul(a, b)
  {
    hide Mul, Pow, Log;
    LogRange(a);
    LogRange(b);
    MulUnit(a);
    MulUnit(b);
    if a != 0 && b != 0 {
      PowLog(a);
      PowLog(b);
      PowAdd(Log(a), Log(b));
    }
  }

  // ---------------------------------------------------------------- syndromes

  /** One Horner step of the i-th syndrome. */
  method SyndromeStep(cur: bv8, symbol: bv8, i: nat) returns (v: bv8)
    requires i < NROOTS
    ensures v == Add(Mul(Root(i), cur), symbol)
  {
    hide Mul, Pow, Log, Add;
    MulUnit(Root(i));
    AddZero(symbol);
    if cur == 0 {
      v := symbol;
    } else {
      PowLog(cur);
      var a := Antilog(Log(cur) + (FCR + i) * PRIM);
      PowAdd((FCR + i) * PRIM, Log(cur));
      v := Add(symbol, a);
      AddComm(symbol, a);
    }
  }

  lemma HornerStep(d: seq<bv8>, j: nat, x: bv8)
    requires j < |d|
    ensures Horner(d[..j + 1], x) == Add(Mul(x, Horner(d[..j], x)), d[j])
  {
    hide Mul, Add;
    assert d[..j + 1][..j] == d[..j];
  }

  method FormSyndromes(data: array<bv8>, n: nat, s: array<bv8>)
    requires 1 <= n <= data.Length && s.Length == NROOTS && s != data
    modifies s
    ensures s[..] == Syndromes(data[..n])
  {
    hide Mul, Add, Pow, Root, Horner;
    ghost var d := data[..];
    for i := 0 to NROOTS
      invariant forall k :: 0 <= k < i ==> s[k] == Horner(d[..1], Root(k))
    {
      s[i] := data[0];
      assert d[..1] == [d[0]];
      HornerSingle(d[0], Root(i));
    }
    for j := 1 to n
      invariant forall k :: 0 <= k < NROOTS ==> s[k] == Horner(d[..j], Root(k))
    {
      for i := 0 to NROOTS
        invariant forall k :: 0 <= k < NROOTS ==> s[k] == Horner(d[..if k < i then j + 1 else j], Root(k))
      {
        var v := SyndromeStep(s[i], data[j], i);
        HornerStep(d, j, Root(i));
        s[i] := v;
      }
    }
    assert d[..n] == data[..n];
  }

  lemma OrZero(a: bv8, b: bv8)
    ensures a | b == 0 <==> a == 0 && b == 0
  {}

  /** Convert the syndromes to index form, checking for a non-zero one. */
  method IndexSyndromes(s: seq<bv8>, si: array<int>) returns (synError: bv8)
    requires |s| == NROOTS == si.Length
    modifies si
    ensures IndexForm(si[..], s)
    ensures synError == 0 <==> AllZero(s)
  {
    hide Log;
    synError := 0;
    for i := 0 to NROOTS
      invariant forall k :: 0 <= k < i ==> si[k] == Log(s[k])
      invariant synError == 0 <==> forall k :: 0 <= k < i ==> s[k] == 0
    {
      OrZero(synError, s[i]);
      synError := synError | s[i];
      si[i] := Log(s[i]);
    }
  }

  // ---------------------------------------------------------------- the erasure locator

  method InitLambda(lambda: array<bv8>, eras: seq<int>)
    requires lambda.Length == SIZE && ErasuresInRange(eras)
    modifies lambda
    ensures lambda[..] == ErasureLocator(eras)
  {
    hide Mul, Add, Pow, Corrected;
    for i := 1 to SIZE
      invariant forall k :: 1 <= k < i ==> lambda[k] == 0
    {
      lambda[i] := 0;
    }
    lambda[0] := 1;
    if |eras| > 0 {
      lambda[1] := Antilog(PRIM * (NN - 1 - eras[0]));
      FirstErasure(eras[0]);
      assert eras[..1][..0] == [];
      for i := 1 to |eras|
        invariant lambda[..] == ErasureLocator(eras[..i])
        invariant lambda[0] == 1 && forall k :: i < k < SIZE ==> lambda[k] == 0
      {
        ghost var l, u := lambda[..], Locator(eras[i]);
        assert eras[..i + 1][..i] == eras[..i];
        CorrectedDegree(l, u, i);
        MultiplyByErasure(lambda, eras[i], i);
      }
      assert eras[..|eras|] == eras;
    }
  }

  /** 1 times (1 - X x). */
  lemma FirstErasure(pos: int)
    requires 0 <= pos < NN
    ensures Corrected(One(), One(), Locator(pos)) == [1, Locator(pos)] + seq(NROOTS - 1, _ => 0)
  {
    hide Mul, Add, Pow;
    var x := Locator(pos);
    MulUnit(x);
    AddZero(x);
    AddZero(0);
  }

  /** lambda(x) times (1 - X x), from the highest coefficient down. */
  method MultiplyByErasure(lambda: array<bv8>, pos: int, i: nat)
    requires lambda.Length == SIZE && 0 <= pos < NN && i < NROOTS
    requires lambda[0] == 1 && forall k :: i < k < SIZE ==> lambda[k] == 0
    modifies lambda
    ensures lambda[..] == Corrected(old(lambda[..]), old(lambda[..]), Locator(pos))
  {
    hide Mul, Add, Pow, Log, Corrected;
    ghost var l, x := lambda[..], Locator(pos);
    ghost var t := Corrected(l, l, x);
    CorrectedDegree(l, x, i);
    CorrectedCoeff(l, l, x, 0);
    var u := Mod255(PRIM * (NN - 1 - pos));
    PowMod(PRIM * (NN - 1 - pos));
    for j := i + 2 downto 1
      invariant forall k :: 0 <= k < SIZE ==> lambda[k] == if k >= j then t[k] else l[k]
    {
      CorrectedCoeff(l, l, x, j);
      var v := AddTerm(lambda[j], u, lambda[j - 1], x);
      lambda[j] := v;
    }
  }

  /** a + x * b, where u is the logarithm of x. */
  method AddTerm(a: bv8, u: int, b: bv8, ghost x: bv8) returns (v: bv8)
    requires u >= 0 && x == Pow(u)
    ensures v == Add(a, Mul(x, b))
  {
    hide Mul, Add, Pow, Log;
    LogRange(b);
    if Log(b) != 255 {
      PowLog(b);
      PowAdd(u, Log(b));
      v := Antilog(u + Log(b));
      v := Add(a, v);
    } else {
      MulUnit(x);
      AddZero(a);
      v := a;
    }
  }

  // ---------------------------------------------------------------- Berlekamp-Massey

  /** The discrepancy at symbol r, in polynomial form. */
  method ComputeDiscrepancy(l: seq<bv8>, si: seq<int>, ghost s: seq<bv8>, r: nat) returns (d: bv8)
    requires |l| == SIZE && |s| == NROOTS && r < NROOTS && IndexForm(si, s)
    ensures d == Discrepancy(l, s, r)
  {
    hide Mul, Add, Pow, Log;
    d := 0;
    for i := 0 to r + 1
      invariant d == Convolve(l, s, r, i)
    {
      ProductOfLogs(l[i], s[r - i]);
      AddZero(d);
      if l[i] != 0 && si[r - i] != 255 {
        var v := Antilog(Log(l[i]) + si[r - i]);
        d := Add(d, v);
      }
    }
  }

  /** t(x) = lambda(x) - discr * x * b(x). */
  method ComputeCorrected(t: array<bv8>, l: seq<bv8>, bi: seq<int>, ghost b: seq<bv8>, discr: int, ghost d: bv8)
    requires t.Length == SIZE && |l| == SIZE && |b| == SIZE && IndexForm(bi, b)
    requires d != 0 && discr == Log(d)
    modifies t
    ensures t[..] == Corrected(l, b, d)
  {
    hide Mul, Add, Pow, Log;
    t[0] := l[0];
    for i := 0 to NROOTS
      invariant t[0] == l[0]
      invariant forall k :: 1 <= k <= i ==> t[k] == Add(l[k], Mul(d, b[k - 1]))
    {
      ProductOfLogs(d, b[i]);
      AddZero(l[i + 1]);
      if bi[i] != 255 {
        var v := Antilog(discr + bi[i]);
        t[i + 1] := Add(l[i + 1], v);
      } else {
        t[i + 1] := l[i + 1];
      }
    }
  }

  lemma QuotientLog(a: bv8, d: bv8)
    requires d != 0
    ensures Log(0) == 255
    ensures a == 0 ==> Mul(a, Inv(d)) == 0
    ensures a != 0 ==> 0 <= Log(a) < 255 && 0 <= Log(d) < 255
    ensures a != 0 ==> Log(Mul(a, Inv(d))) == (Log(a) - Log(d) + NN) % 255
  {
    hide Mul, Pow, Log;
    LogRange(0);
    MulUnit(Inv(d));
    PowLog(d);
    if a != 0 {
      PowLog(a);
      PowAdd(Log(a), 255 - Log(d));
      LogPow(Log(a) + (255 - Log(d)));
    }
  }

  /** b(x) = lambda(x) / discr, in index form. */
  method ComputeDivided(b: array<int>, l: seq<bv8>, discr: int, ghost d: bv8)
    requires b.Length == SIZE && |l| == SIZE && d != 0 && discr == Log(d)
    modifies b
    ensures IndexForm(b[..], Divided(l, d))
  {
    hide Mul, Pow, Log, Inv;
    for i := 0 to SIZE
      invariant forall k :: 0 <= k < i ==> b[k] == Log(Divided(l, d)[k])
    {
      QuotientLog(l[i], d);
      if l[i] == 0 {
        b[i] := 255;
      } else {
        var m := Mod255(Log(l[i]) - discr + NN);
        b[i] := m;
      }
    }
  }

  /** b(x) = x * b(x), in index form. */
  method ShiftB(b: array<int>, ghost p: seq<bv8>)
    requires b.Length == SIZE && |p| == SIZE && IndexForm(b[..], p)
    modifies b
    ensures IndexForm(b[..], TimesX(p))
  {
    hide Log;
    ghost var bi := b[..];
    LogRange(0);
    forall k | 1 <= k < SIZE { b[k] := b[k - 1]; }
    b[0] := 255;
    forall k | 0 <= k < SIZE
      ensures b[k] == Log(TimesX(p)[k])
    {
      if k > 0 { assert bi[k - 1] == Log(p[k - 1]); }
    }
  }

  method BerlekampMassey(lambda: array<bv8>, si: seq<int>, ghost s: seq<bv8>, noEras: nat)
    requires lambda.Length == SIZE && noEras <= NROOTS && |s| == NROOTS && IndexForm(si, s)
    modifies lambda
    ensures lambda[..] == Run(s, noEras, noEras, State(old(lambda[..]), old(lambda[..]), noEras)).lambda
  {
    hide Mul, Add, Pow, Log, Convolve, Corrected, Divided, TimesX;
    var b, t := new int[SIZE], new bv8[SIZE];
    ghost var p, start := lambda[..], State(lambda[..], lambda[..], noEras);
    for i := 0 to SIZE
      invariant lambda[..] == p && forall k :: 0 <= k < i ==> b[k] == Log(p[k])
    {
      b[i] := Log(lambda[i]);
    }
    var el := noEras;
    for r := noEras to NROOTS
      invariant |p| == SIZE && IndexForm(b[..], p)
      invariant Run(s, noEras, noEras, start) == Run(s, noEras, r, State(lambda[..], p, el))
    {
      ghost var st := State(lambda[..], p, el);
      el, p := MasseyStep(lambda, b, t, si, s, noEras, r, el, p);
      assert State(lambda[..], p, el) == Step(s, noEras, r, st);
    }
  }

  /** One turn of the iteration, for step number r + 1. */
  method MasseyStep(lambda: array<bv8>, b: array<int>, t: array<bv8>, si: seq<int>, ghost s: seq<bv8>,
                    noEras: nat, r: nat, el0: int, ghost p: seq<bv8>)
    returns (el: int, ghost q: seq<bv8>)
    requires lambda.Length == SIZE == b.Length == t.Length && lambda != t
    requires b as object != t && b as object != lambda
    requires |s| == NROOTS && r < NROOTS && IndexForm(si, s) && |p| == SIZE && IndexForm(b[..], p)
    modifies lambda, b, t
    ensures |q| == SIZE && IndexForm(b[..], q)
    ensures State(lambda[..], q, el) == Step(s, noEras, r, State(old(lambda[..]), p, el0))
  {
    hide Mul, Add, Pow, Log, Convolve, Corrected, Divided, TimesX;
    el := el0;
    var l := lambda[..];
    var d := ComputeDiscrepancy(l, si, s, r);
    LogRange(d);
    var discr := Log(d);
    if discr == 255 {
      ShiftB(b, p);
      q := TimesX(p);
    } else {
      ComputeCorrected(t, l, b[..], p, discr, d);
      if 2 * el <= (r + 1) + noEras - 1 {
        el := (r + 1) + noEras - el;
        ComputeDivided(b, l, discr, d);
        q := Divided(l, d);
      } else {
        ShiftB(b, p);
        q := TimesX(p);
      }
      forall k | 0 <= k < SIZE { lambda[k] := t[k]; }
      assert lambda[..] == t[..];
    }
  }

  // ---------------------------------------------------------------- degree and Chien search

  /** Convert lambda to index form and find its degree. */
  method IndexLambda(l: seq<bv8>, li: array<int>) returns (deg: nat)
    requires |l| == SIZE == li.Length
    modifies li
    ensures IndexForm(li[..], l) && deg == Degree(l, SIZE)
  {
    hide Log;
    deg := 0;
    for i := 0 to SIZE
      invariant forall k :: 0 <= k < i ==> li[k] == Log(l[k])
      invariant deg == Degree(l, i)
    {
      LogRange(l[i]);
      li[i] := Log(l[i]);
      if li[i] != 255 { deg := i; }
    }
  }

  /** A register of the search after i steps: the logarithm of l[j] * x^(i j). */
  ghost predicate Register(reg: int, a: bv8, i: nat, j: nat) {
    if a == 0 then reg == 255 else 0 <= reg < 255 && Pow(reg) == Mul(a, Power(Pow(i), j))
  }

  lemma RegisterNext(reg: int, a: bv8, i: nat, j: nat)
    requires a != 0 && Register(reg, a, i, j)
    ensures Register((reg + j) % 255, a, i + 1, j)
    ensures reg + j >= 0 && Pow(reg + j) == Mul(a, Power(Pow(i + 1), j))
  {
    hide Mul, Pow, Power;
    PowAdd(reg, j);
    PowMod(reg + j);
    PowerOfPow(i, j);
    PowerOfPow(i + 1, j);
    assert (i + 1) * j == i * j + j;
    PowAdd(i * j, j);
    MulAssoc(a, Pow(i * j), Pow(j));
  }

  lemma RegisterStart(a: bv8, j: nat)
    ensures Register(Log(a), a, 0, j)
  {
    PowZero();
    hide Mul, Pow, Log, Power;
    LogRange(a);
    PowerOfPow(0, j);
    assert 0 * j == 0;
    MulUnit(a);
    if a != 0 { PowLog(a); }
  }

  lemma ChienSum(q: bv8, p: bv8, a: bv8, t: bv8)
    requires Add(q, Add(Add(p, a), 1)) == t
    ensures Add(Add(q, a), Add(p, 1)) == t
  {
    hide Add;
    AddComm(p, a);
    AddAssoc(a, p, 1);
    AddAssoc(q, a, Add(p, 1));
  }

  /** Advance the registers to x^i and add them up: the value of lambda there. */
  method ChienStep(reg: array<int>, ghost l: seq<bv8>, deg: nat, i: nat) returns (q: bv8)
    requires |l| == SIZE == reg.Length && deg < SIZE && i >= 1 && l[0] == 1
    requires forall k :: deg < k < SIZE ==> l[k] == 0
    requires forall k :: 1 <= k <= deg ==> Register(reg[k], l[k], i - 1, k)
    modifies reg
    ensures forall k :: 1 <= k <= deg ==> Register(reg[k], l[k], i, k)
    ensures q == Eval(l, Pow(i))
    ensures deg == 0 ==> q == 1
  {
    hide Mul, Add, Pow, Log, Power, Eval, Register;
    ghost var y := Pow(i);
    ghost var t := Eval(l[..deg + 1], y);
    EvalTrim(l, deg + 1, y);
    q := 1;
    AddComm(1, Add(t, 1));
    AddCancel(t, 1);
    for j := deg + 1 downto 1
      invariant forall k :: 1 <= k <= deg ==> Register(reg[k], l[k], if k >= j then i else i - 1, k)
      invariant Add(q, Add(Eval(l[..j], y), 1)) == t
      invariant deg == 0 ==> q == 1
    {
      PrefixSnoc(l, j, y);
      RegisterZero(reg[j], l[j], i - 1, j);
      if reg[j] != 255 {
        RegisterNext(reg[j], l[j], i - 1, j);
        var m := Mod255(reg[j] + j);
        reg[j] := m;
        AlphaMod(m);
        PowMod(m);
        PowMod(reg[j]);
        var v := AlphaTo(ByteOf(reg[j]));
        RegisterValue(m, l[j], i, j);
        ChienSum(q, Eval(l[..j], y), v, t);
        q := Add(q, v);
      } else {
        RegisterAlways255(l[j], i - 1, i, j);
        MulUnit(Power(y, j));
        AddZero(Eval(l[..j], y));
      }
    }
    EvalConstant(l, y);
    AddSelf(1);
    AddZero(q);
  }

  lemma RegisterZero(reg: int, a: bv8, i: nat, j: nat)
    requires Register(reg, a, i, j)
    ensures reg == 255 <==> a == 0
  {}

  lemma RegisterAlways255(a: bv8, i: nat, i': nat, j: nat)
    requires Register(255, a, i, j)
    ensures Register(255, a, i', j)
  {}

  lemma RegisterValue(reg: int, a: bv8, i: nat, j: nat)
    requires a != 0 && Register(reg, a, i, j)
    ensures 0 <= reg < 255 && AlphaTo(ByteOf(reg)) == Mul(a, Power(Pow(i), j))
  {
    hide AlphaTo, ByteOf, Mul, Pow, Power;
    AlphaIsPow(reg);
  }

  lemma EvalConstant(l: seq<bv8>, y: bv8)
    requires |l| >= 1
    ensures Eval(l[..1], y) == l[0]
  {
    hide Add, Mul;
    assert l[..1][1..] == [];
    MulUnit(y);
    AddZero(l[0]);
  }

  lemma LocationNext(i: nat)
    ensures (LocationOf(i) + IPRIM) % 255 == LocationOf(i + 1)
    ensures LocationOf(1) == IPRIM - 1
  {
    var x := IPRIM * i + NN - 1;
    assert x == x % NN + 255 * (x / NN);
    ModMultiple(x % NN + IPRIM, x / NN);
  }

  method ChienSearch(li: seq<int>, ghost l: seq<bv8>, deg: nat, root: array<int>, loc: array<int>)
    returns (count: nat)
    requires |l| == SIZE && IndexForm(li, l) && deg <= NROOTS && l[0] == 1
    requires forall k :: deg < k < SIZE ==> l[k] == 0
    requires root.Length == NROOTS == loc.Length && root != loc
    modifies root, loc
    ensures count <= NROOTS
    ensures root[..count] == Scan(l, deg, 1, [])
    ensures forall j :: 0 <= j < count ==> loc[j] == LocationOf(root[j])
  {
    hide Mul, Add, Pow, Log, Power, Eval, Register, LocationOf;
    var reg := new int[SIZE];
    forall k | 0 <= k < SIZE { reg[k] := li[k]; }
    forall k | 1 <= k <= deg
      ensures Register(reg[k], l[k], 0, k)
    {
      RegisterStart(l[k], k);
    }
    count := 0;
    var i, k := 1, IPRIM - 1;
    LocationNext(0);
    while i <= NN
      invariant 1 <= i <= NN + 1 && k == LocationOf(i)
      invariant count < deg || (count == 0 && deg == 0)
      invariant forall j :: 1 <= j <= deg ==> Register(reg[j], l[j], i - 1, j)
      invariant Scan(l, deg, 1, []) == Scan(l, deg, i, root[..count])
      invariant forall j :: 0 <= j < count ==> loc[j] == LocationOf(root[j])
    {
      var q := ChienStep(reg, l, deg, i);
      if q == 0 {
        ghost var found := root[..count];
        root[count] := i;
        loc[count] := k;
        count := count + 1;
        assert root[..count] == found + [i];
        if count == deg { break; }
      }
      LocationNext(i);
      k := Mod255(k + IPRIM);
      i := i + 1;
    }
  }

  // ---------------------------------------------------------------- evaluator and corrections

  method ComputeOmega(li: seq<int>, si: seq<int>, ghost l: seq<bv8>, ghost s: seq<bv8>, deg: nat, omega: array<int>)
    requires |l| == SIZE && |s| == NROOTS && IndexForm(li, l) && IndexForm(si, s)
    requires deg <= NROOTS && omega.Length == SIZE
    modifies omega
    ensures IndexForm(omega[..deg], Evaluator(l, s, deg))
  {
    hide Mul, Add, Pow, Log, Convolve;
    for i := 0 to deg
      invariant forall k :: 0 <= k < i ==> omega[k] == Log(Discrepancy(l, s, k))
    {
      var tmp := OmegaCoeff(li, si, l, s, i);
      omega[i] := Log(tmp);
    }
  }

  lemma DownSum(acc: bv8, p: bv8, a: bv8, t: bv8)
    requires Add(acc, Add(p, a)) == t
    ensures Add(Add(acc, a), p) == t
  {
    hide Add;
    AddComm(p, a);
    AddAssoc(acc, a, p);
  }

  method OmegaCoeff(li: seq<int>, si: seq<int>, ghost l: seq<bv8>, ghost s: seq<bv8>, i: nat) returns (tmp: bv8)
    requires |l| == SIZE && |s| == NROOTS && IndexForm(li, l) && IndexForm(si, s) && i < NROOTS
    ensures tmp == Discrepancy(l, s, i)
  {
    hide Mul, Add, Pow, Log;
    ghost var t := Convolve(l, s, i, i + 1);
    tmp := 0;
    AddZero(t);
    for j := i + 1 downto 0
      invariant Add(tmp, Convolve(l, s, i, j)) == t
    {
      ghost var p := Convolve(l, s, i, j);
      ProductOfLogs(s[i - j], l[j]);
      MulComm(s[i - j], l[j]);
      AddZero(p);
      if si[i - j] != 255 && li[j] != 255 {
        var v := Antilog(si[i - j] + li[j]);
        DownSum(tmp, p, v, t);
        tmp := Add(tmp, v);
      }
    }
    AddZero(tmp);
  }

  /** a * y^i, where y = x^root, by logarithms. */
  lemma TermByLogs(a: bv8, i: nat, root: nat)
    requires a != 0
    ensures 0 <= Log(a) < 255 && i * root >= 0
    ensures Pow(Log(a) + i * root) == Mul(a, Power(Pow(root), i))
  {
    hide Mul, Pow, Log, Power;
    PowLog(a);
    PowerOfPow(root, i);
    assert root * i == i * root;
    PowAdd(Log(a), i * root);
  }

  /** num1: the evaluator at x^root. */
  method Numerator(omega: seq<int>, ghost w: seq<bv8>, root: nat) returns (num: bv8)
    requires IndexForm(omega, w)
    ensures num == Eval(w, Pow(root))
  {
    hide Mul, Add, Pow, Log, Power, Eval;
    ghost var y := Pow(root);
    ghost var t := Eval(w, y);
    num := 0;
    AddZero(t);
    assert w[..|w|] == w;
    for i := |omega| downto 0
      invariant Add(num, Eval(w[..i], y)) == t
    {
      PrefixSnoc(w, i, y);
      LogRange(w[i]);
      MulUnit(Power(y, i));
      AddZero(Eval(w[..i], y));
      if omega[i] != 255 {
        TermByLogs(w[i], i, root);
        var v := Antilog(omega[i] + i * root);
        DownSum(num, Eval(w[..i], y), v, t);
        num := Add(num, v);
      }
    }
    EvalZero(w[..0], y);
    AddZero(num);
  }

  lemma {:induction false} DerivativeTop(l: seq<bv8>, y: bv8, h: nat, n: nat)
    requires h <= n && 2 * n <= |l|
    requires forall k :: 2 * h < k < |l| ==> l[k] == 0
    ensures Derivative(l, y, n) == Derivative(l, y, h)
  {
    hide Mul, Add, Power;
    if h < n {
      DerivativeTop(l, y, h, n - 1);
      MulUnit(Power(y, 2 * n - 2));
      AddZero(Derivative(l, y, h));
    }
  }

  /** den: the derivative of lambda at x^root, from the highest even power down. */
  method Denominator(li: seq<int>, ghost l: seq<bv8>, deg: nat, root: nat) returns (den: bv8)
    requires |l| == SIZE && IndexForm(li, l) && deg <= NROOTS
    requires forall k :: deg < k < SIZE ==> l[k] == 0
    ensures den == Derivative(l, Pow(root), NROOTS / 2)
  {
    hide Mul, Add, Pow, Log, Power, Eval;
    ghost var y := Pow(root);
    var m := if deg < NROOTS - 1 then deg else NROOTS - 1;
    ghost var t := Derivative(l, y, m / 2 + 1);
    DerivativeTop(l, y, m / 2 + 1, NROOTS / 2);
    den := 0;
    AddZero(t);
    var i := m - m % 2;
    while i >= 0
      invariant -2 <= i <= m && i % 2 == 0
      invariant Add(den, Derivative(l, y, i / 2 + 1)) == t
    {
      ghost var p := Derivative(l, y, i / 2);
      assert Derivative(l, y, i / 2 + 1) == Add(p, Mul(l[i + 1], Power(y, i)));
      LogRange(l[i + 1]);
      MulUnit(Power(y, i));
      AddZero(p);
      if li[i + 1] != 255 {
        TermByLogs(l[i + 1], i, root);
        var v := Antilog(li[i + 1] + i * root);
        DownSum(den, p, v, t);
        den := Add(den, v);
      }
      i := i - 2;
    }
    AddZero(den);
  }

  /** The quotient of the source's last lookup. */
  lemma QuotByLogs(a: bv8, b: bv8, den: bv8)
    requires a != 0 && b != 0
    ensures Log(a) + Log(b) + NN - Log(den) >= 0
    ensures Pow(Log(a) + Log(b) + NN - Log(den)) == Quot(Mul(a, b), den)
  {
    hide Mul, Pow, Log;
    PowLog(a);
    PowLog(b);
    LogRange(den);
    PowAdd(Log(a), Log(b));
    if den != 0 {
      PowAdd(Log(a) + Log(b), 255 - Log(den));
    }
  }

  /** num2: x^root to the power FCR - 1. */
  method RootPower(root: nat) returns (v: bv8)
    ensures v == Power(Pow(root), FCR - 1) != 0
  {
    hide Mul, Pow, Power;
    v := Antilog(root * (FCR - 1) + NN);
    PowPeriod(root * (FCR - 1));
    PowerOfPow(root, FCR - 1);
    LogPow(root);
    PowerNonZero(Pow(root), FCR - 1);
  }

  /** Compute one correction and apply it to the data. */
  method Correct(data: array<bv8>, n: nat, li: seq<int>, omega: seq<int>, ghost l: seq<bv8>, ghost s: seq<bv8>,
                 deg: nat, root: nat, loc: int)
    requires n <= NN && n <= data.Length && loc == LocationOf(root)
    requires |l| == SIZE && |s| == NROOTS && deg <= NROOTS && IndexForm(li, l)
    requires IndexForm(omega, Evaluator(l, s, deg))
    requires forall k :: deg < k < SIZE ==> l[k] == 0
    modifies data
    ensures data[..n] == Fix(old(data[..n]), l, s, deg, root)
    ensures data[n..] == old(data[n..])
  {
    hide Mul, Add, Pow, Log, Power, Eval, LocationOf, Derivative, Evaluator, Quot;
    var num1 := Numerator(omega, Evaluator(l, s, deg), root);
    var num2 := RootPower(root);
    var den := Denominator(li, l, deg, root);
    var pad := NN - n;
    NoCorrection(num2, den);
    if num1 != 0 && loc >= pad {
      QuotByLogs(num1, num2, den);
      var v := Antilog(Log(num1) + Log(num2) + NN - Log(den));
      data[loc - pad] := Add(data[loc - pad], v);
    } else if loc >= pad {
      AddZero(data[loc - pad]);
    }
  }

  lemma NoCorrection(num2: bv8, den: bv8)
    ensures Quot(Mul(0, num2), den) == 0
  {
    hide Mul, Inv;
    MulUnit(num2);
    if den != 0 { MulUnit(Inv(den)); }
  }

  method ApplyCorrections(data: array<bv8>, n: nat, li: seq<int>, omega: seq<int>, ghost l: seq<bv8>, ghost s: seq<bv8>,
                          deg: nat, root: seq<int>, loc: seq<int>)
    requires n <= NN && n <= data.Length
    requires |l| == SIZE && |s| == NROOTS && deg <= NROOTS && IndexForm(li, l)
    requires IndexForm(omega, Evaluator(l, s, deg))
    requires forall k :: deg < k < SIZE ==> l[k] == 0
    requires |root| == |loc| && forall j :: 0 <= j < |root| ==> root[j] >= 0 && loc[j] == LocationOf(root[j])
    modifies data
    ensures data[..n] == Repair(old(data[..n]), l, s, deg, root, |root|)
    ensures data[n..] == old(data[n..])
  {
    hide Fix, LocationOf, Evaluator, Log;
    for j := |root| downto 0
      invariant Repair(old(data[..n]), l, s, deg, root, |root|) == Repair(data[..n], l, s, deg, root, j)
      invariant data[n..] == old(data[n..])
    {
      Correct(data, n, li, omega, l, s, deg, root[j], loc[j]);
    }
  }

  // ---------------------------------------------------------------- decode_rs_8

  /** The phases after the syndromes: everything but the report of the locations. */
  method CorrectBlock(data: array<bv8>, n: nat, eras: seq<int>, s: seq<bv8>, si: seq<int>)
    returns (count: int, locs: seq<int>)
    requires n <= NN && n <= data.Length && ErasuresInRange(eras)
    requires s == Syndromes(data[..n]) && IndexForm(si, s) && !AllZero(s)
    modifies data
    ensures Outcome(count, data[..n], locs) == Decode(old(data[..n]), eras)
    ensures data[n..] == old(data[n..])
  {
    hide Log, Syndromes, Run, ErasureLocator, Degree, Scan, Repair, LocationOf, Evaluator;
    ghost var d := data[..n];
    var lambda := new bv8[SIZE];
    InitLambda(lambda, eras);
    BerlekampMassey(lambda, si, s, |eras|);
    var l := lambda[..];
    assert l == ErrorLocator(s, eras);
    ErrorLocatorShape(s, eras);
    DegreeTop(l, SIZE);

    var li := new int[SIZE];
    var deg := IndexLambda(l, li);
    var root, loc := new int[NROOTS], new int[NROOTS];
    ScanInRange(l, deg, 1, []);
    var found := ChienSearch(li[..], l, deg, root, loc);
    if found != deg {
      count, locs := -1, [];
    } else {
      var omega := new int[SIZE];
      ComputeOmega(li[..], si, l, s, deg, omega);
      ApplyCorrections(data, n, li[..], omega[..deg], l, s, deg, root[..found], loc[..found]);
      count, locs := found, loc[..found];
    }
  }

  /** Every codeword within the radius of the received block d is what the block became. */
  ghost predicate Restored(d: seq<bv8>, eras: seq<int>, d': seq<bv8>, count: int) {
    forall c :: WithinRadius(d, c, eras) ==>
      d' == c && count == if d == c then 0 else |Suspects(ErrorPattern(d, c), ToSet(eras))|
  }

  /** The syndromes, and the other phases if one of them is not zero. */
  method DecodeBlock(data: array<bv8>, n: nat, eras: seq<int>) returns (count: int, locs: seq<int>)
    requires 1 <= n <= NN && n <= data.Length && ErasuresInRange(eras)
    modifies data
    ensures Outcome(count, data[..n], locs) == Decode(old(data[..n]), eras)
    ensures data[n..] == old(data[n..])
  {
    hide Log, Syndromes, Decode;
    ghost var d := data[..n];
    var s, si := new bv8[NROOTS], new int[NROOTS];
    FormSyndromes(data, n, s);
    var synError := IndexSyndromes(s[..], si);
    if synError == 0 {
      count, locs := 0, [];
      DecodeZero(d, eras);
    } else {
      count, locs := CorrectBlock(data, n, eras, s[..], si[..]);
    }
  }

  method ReportLocations(erasPos: array<int>, locs: seq<int>)
    requires |locs| <= erasPos.Length
    modifies erasPos
    ensures erasPos[..] == locs + old(erasPos[|locs|..])
  {
    ghost var before := erasPos[..];
    for i := 0 to |locs|
      invariant forall k :: 0 <= k < erasPos.Length ==> erasPos[k] == if k < i then locs[k] else before[k]
    {
      erasPos[i] := locs[i];
    }
    assert erasPos[..] == locs + before[|locs|..];
  }

  /** The erasures that a call passes in. */
  function Erasures(erasPos: array?<int>, noEras: nat): seq<int>
    requires erasPos != null ==> noEras <= erasPos.Length
    reads erasPos
  {
    if erasPos == null then [] else erasPos[..noEras]
  }

  /**
   `decode_rs_8`.  `erasPos` is the erasure list on entry and the list of located symbols on
   return; it may be null.  Its callers provide room for NROOTS positions.
   */
  method DecodeRs8(data: array<bv8>, erasPos: array?<int>, noEras: nat, pad: int) returns (count: int)
    requires 0 <= pad <= 222 ==> data.Length >= NN - pad
    requires noEras <= NROOTS && (erasPos == null ==> noEras == 0)
    requires erasPos != null ==> erasPos as object != data && erasPos.Length >= NROOTS
    requires ErasuresInRange(Erasures(erasPos, noEras))
    modifies data, erasPos
    ensures !(0 <= pad <= 222) ==> count == -1 && data[..] == old(data[..])
    ensures !(0 <= pad <= 222) && erasPos != null ==> erasPos[..] == old(erasPos[..])
    ensures 0 <= pad <= 222 ==>
      var r := Decode(old(data[..NN - pad]), old(Erasures(erasPos, noEras)));
      && count == r.count
      && data[..NN - pad] == r.data
      && data[NN - pad..] == old(data[NN - pad..])
      && |r.locations| <= NROOTS
      && (erasPos != null ==> erasPos[..] == r.locations + old(erasPos[..])[|r.locations|..])
    ensures 0 <= pad <= 222 ==>
      Restored(old(data[..NN - pad]), old(Erasures(erasPos, noEras)), data[..NN - pad], count)
    ensures 0 <= pad <= 222 ==> (count == -1 <==> Hopeless(old(data[..NN - pad]), old(Erasures(erasPos, noEras))))
    ensures count == -1 ==> data[..] == old(data[..]) && (erasPos != null ==> erasPos[..] == old(erasPos[..]))
    ensures 0 <= pad <= 222 ==> exists locs ::
      && Settled(old(data[..NN - pad]), old(Erasures(erasPos, noEras)), data[..NN - pad], count, locs)
      && (erasPos != null ==> |locs| <= erasPos.Length && erasPos[..] == locs + old(erasPos[..])[|locs|..])
  {
    hide Decode, WithinRadius, ErasuresInRange, Settled, Hopeless;
    if pad < 0 || pad > 222 { return -1; }
    var n := NN - pad;
    var eras := Erasures(erasPos, noEras);
    ghost var d := data[..n];
    var locs;
    count, locs := DecodeBlock(data, n, eras);
    DecodeLocations(d, eras);
    DecodeRestores(d, eras);
    GivenUp(d, eras);
    DecodeSettles(d, eras);
    assert data[..] == data[..n] + data[n..];
    if erasPos != null {
      ReportLocations(erasPos, locs);
    }
  }

  lemma DecodeRestores(d: seq<bv8>, eras: seq<int>)
    requires |d| <= NN && ErasuresInRange(eras)
    ensures Restored(d, eras, Decode(d, eras).data, Decode(d, eras).count)
  {
    hide Decode, WithinRadius;
    forall c | WithinRadius(d, c, eras)
      ensures Decode(d, eras).data == c
      ensures Decode(d, eras).count == if d == c then 0 else |Suspects(ErrorPattern(d, c), ToSet(eras))|
    {
      RestoredWithinRadius(d, c, eras);
    }
  }

  lemma DecodeZero(d: seq<bv8>, eras: seq<int>)
    requires |d| <= NN && ErasuresInRange(eras) && AllZero(Syndromes(d))
    ensures Decode(d, eras) == Outcome(0, d, [])
  {}

  lemma DecodeLocations(d: seq<bv8>, eras: seq<int>)
    requires |d| <= NN && ErasuresInRange(eras)
    ensures var r := Decode(d, eras);
      |r.locations| <= NROOTS && -1 <= r.count && (r.count >= 0 ==> |r.locations| == r.count)
  {
    hide Syndromes, ErrorLocator, Scan, Repair, LocationOf;
  }

  lemma RestoredWithinRadius(d: seq<bv8>, c: seq<bv8>, eras: seq<int>)
    requires WithinRadius(d, c, eras)
    ensures Decode(d, eras).data == c
    ensures Decode(d, eras).count == if d == c then 0 else |Suspects(ErrorPattern(d, c), ToSet(eras))|
  {
    hide Decode, IsCodeword, Suspects, ErrorPattern;
    DecodeCorrects(d, c, eras);
  }
}
