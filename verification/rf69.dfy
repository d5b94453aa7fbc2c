/**
 The carrier frequency of the RFM69 radio: a licensed frequency in hertz is divided by the
 synthesizer's step, 32 MHz / 2^19, cut to an integer and stored in three registers; reading the
 frequency puts the registers together and multiplies by the step.
 */
module Rf69 {
  /** The synthesizer's step is 15625/256 Hz. */
  const STEP_NUM := 15625
  const STEP_DEN := 256

  const REG_FRFMSB := 0x07
  const REG_FRFLSB := 0x09
  const REG_COUNT := 0x80

  const SLEEP := 0
  const STANDBY := 1
  const SYNTH := 2
  const RX := 3
  const TX := 4

  type Byte = b: int | 0 <= b < 256

  /** `iFrfBounds`. */
  const BOUNDS: seq<(int, int)> := [
    (290_000_000, 340_000_000),
    (433_075_000, 434_775_000),
    (868_000_000, 870_000_000),
    (890_000_000, 1020_000_000)]

  predicate Licensed(f: int) {
    exists i :: 0 <= i < |BOUNDS| && BOUNDS[i].0 <= f <= BOUNDS[i].1
  }

  lemma LicensedIs(f: int)
    ensures Licensed(f) <==>
      || 290_000_000 <= f <= 340_000_000 || 433_075_000 <= f <= 434_775_000
      || 868_000_000 <= f <= 870_000_000 || 890_000_000 <= f <= 1020_000_000
  {
    if 290_000_000 <= f <= 340_000_000 { assert BOUNDS[0].0 <= f <= BOUNDS[0].1; }
    if 433_075_000 <= f <= 434_775_000 { assert BOUNDS[1].0 <= f <= BOUNDS[1].1; }
    if 868_000_000 <= f <= 870_000_000 { assert BOUNDS[2].0 <= f <= BOUNDS[2].1; }
    if 890_000_000 <= f <= 1020_000_000 { assert BOUNDS[3].0 <= f <= BOUNDS[3].1; }
  }

  // ---------------------------------------------------------------- hertz and steps

  /** The register value of a frequency: its number of whole steps. */
  function Steps(freq: nat): nat { freq * STEP_DEN / STEP_NUM }

  /** The frequency of a register value, in whole hertz. */
  function Hertz(steps: nat): nat { steps * STEP_NUM / STEP_DEN }

  /** The three registers, high byte first, as one number. */
  function Joined(high: Byte, mid: Byte, low: Byte): nat { 65536 * high + 256 * mid + low }

  /** A register's byte shifted to its place. */
  function Placed(b: Byte, shift: nat): nat {
    var n: nat := b;
    if shift == 16 then 65536 * n else if shift == 8 then 256 * n else n
  }

  /** The part of a value that goes into the register written with a given shift. */
  function Part(v: nat, shift: nat): Byte {
    if shift == 16 then v / 65536 % 256 else if shift == 8 then v / 256 % 256 else v % 256
  }

  /** The split into three registers loses nothing of a value that fits 24 bits. */
  lemma SplitJoined(v: nat)
    ensures Joined(Part(v, 16), Part(v, 8), Part(v, 0)) == v % 0x1000000
  {
    var q := v / 256;
    assert v / 65536 == q / 256;
    assert v % 0x1000000 == 256 * (q % 65536) + v % 256;
    assert q % 65536 == 256 * (q / 256 % 256) + q % 256;
  }

  lemma StepsFit(freq: nat)
    requires Licensed(freq)
    ensures Steps(freq) < 0x1000000
  {
    LicensedIs(freq);
  }

  /** Reading back what was set: at most 62 Hz below, and never above. */
  lemma ReadBack(freq: nat)
    ensures freq - 62 <= Hertz(Steps(freq)) <= freq
  {}

  /** The value read back can itself be set exactly if the frequency was not in the lowest step of the 433 MHz band. */
  lemma ReadBackLicensed(freq: nat)
    requires Licensed(freq)
    ensures Licensed(Hertz(Steps(freq))) <==> !(433_075_000 <= freq <= 433_075_012)
  {
    hide Licensed, Steps, Hertz;
    var h := Hertz(Steps(freq));
    LicensedIs(freq);
    LicensedIs(h);
    ReadBack(freq);
    BandEdges();
    if freq <= 340_000_000 {
      ReadOrdered(freq, 290_000_000);
    } else if freq <= 433_075_012 {
      ReadOrdered(433_075_012, freq);
    } else if freq <= 434_775_000 {
      ReadOrdered(freq, 433_075_013);
    } else if freq <= 870_000_000 {
      ReadOrdered(freq, 868_000_000);
    } else {
      ReadOrdered(freq, 890_000_000);
    }
  }

  /** What is read back at the lower edges of the bands. */
  lemma BandEdges()
    ensures Hertz(Steps(290_000_000)) == 290_000_000 && Hertz(Steps(868_000_000)) == 868_000_000
    ensures Hertz(Steps(890_000_000)) == 890_000_000
    ensures Hertz(Steps(433_075_012)) == 433_074_951 && Hertz(Steps(433_075_013)) == 433_075_012
  {
    hide Steps, Hertz;
    StepsIs(290_000_000, 4_751_360);
    HertzIs(4_751_360, 290_000_000);
    StepsIs(868_000_000, 14_221_312);
    HertzIs(14_221_312, 868_000_000);
    StepsIs(890_000_000, 14_581_760);
    HertzIs(14_581_760, 890_000_000);
    StepsIs(433_075_012, 7_095_500);
    HertzIs(7_095_500, 433_074_951);
    StepsIs(433_075_013, 7_095_501);
    HertzIs(7_095_501, 433_075_012);
  }

  lemma StepsIs(freq: nat, s: nat)
    requires STEP_NUM * s <= STEP_DEN * freq < STEP_NUM * (s + 1)
    ensures Steps(freq) == s
  {}

  lemma HertzIs(s: nat, freq: nat)
    requires STEP_DEN * freq <= STEP_NUM * s < STEP_DEN * (freq + 1)
    ensures Hertz(s) == freq
  {}

  /** A higher frequency is not read back lower. */
  lemma ReadOrdered(f: nat, g: nat)
    requires f >= g
    ensures Hertz(Steps(f)) >= Hertz(Steps(g))
  {
    hide Steps, Hertz;
    StepsOrdered(f, g);
    HertzOrdered(Steps(f), Steps(g));
  }

  lemma StepsOrdered(f: nat, g: nat)
    requires f >= g
    ensures Steps(f) >= Steps(g)
  {}

  lemma HertzOrdered(f: nat, g: nat)
    requires f >= g
    ensures Hertz(f) >= Hertz(g)
  {}

  // ---------------------------------------------------------------- setting what was read

  /** Setting the frequency that was read keeps the registers exactly when they hold a multiple of 256 steps; otherwise they go down by one. */
  lemma SetWhatWasRead(steps: nat)
    ensures Steps(Hertz(steps)) == if steps % STEP_DEN == 0 then steps else steps - 1
  {
    var h, m := Hertz(steps), steps * STEP_NUM % STEP_DEN;
    assert steps * STEP_NUM == STEP_DEN * h + m;
    NineTimes(steps);
    assert m == 0 <==> steps % STEP_DEN == 0;
    assert h * STEP_DEN == STEP_NUM * steps - m;
  }

  lemma NineTimes(s: nat)
    ensures s * STEP_NUM % STEP_DEN == 0 <==> s % STEP_DEN == 0
  {
    var q := s * STEP_NUM / STEP_DEN;
    // 15625 is 1 modulo 8 and has an inverse modulo 256
    if s * STEP_NUM % STEP_DEN == 0 { assert s == 256 * (57 * q - 3479 * s); }
    if s % STEP_DEN == 0 { assert s * STEP_NUM == 256 * (15625 * (s / 256)); }
  }

  /** The registers after the frequency has been read and set n times. */
  function Again(steps: nat, n: nat): nat {
    if n == 0 then steps else Steps(Hertz(Again(steps, n - 1)))
  }

  /** They creep down by one step a time, to the multiple of 256 below. */
  lemma {:induction false} Creeps(steps: nat, n: nat)
    ensures Again(steps, n) == if n <= steps % STEP_DEN then steps - n else steps - steps % STEP_DEN
  {
    hide Steps, Hertz;
    if n > 0 {
      Creeps(steps, n - 1);
      SetWhatWasRead(Again(steps, n - 1));
      Residue(steps, n - 1);
    }
  }

  lemma Residue(s: nat, n: nat)
    ensures n <= s % STEP_DEN ==> (s - n) % STEP_DEN == s % STEP_DEN - n
    ensures (s - s % STEP_DEN) % STEP_DEN == 0
  {}

  // ---------------------------------------------------------------- the radio

  /** What the radio is told: a mode, or a register's value. */
  datatype Action = Mode(m: int) | Write(reg: int, value: Byte)

  /** The three writes of a register value, high byte first. */
  function Writes(steps: nat): (w: seq<Action>)
    ensures |w| == 3
  {
    [Write(REG_FRFMSB, Part(steps, 16)), Write(REG_FRFMSB + 1, Part(steps, 8)), Write(REG_FRFLSB, Part(steps, 0))]
  }

  /** No register is written in the mode TX, when the actions start in a given mode. */
  predicate SilentWrites(mode: int, actions: seq<Action>)
    decreases |actions|
  {
    actions == []
    || match actions[0]
       case Mode(m) => SilentWrites(m, actions[1..])
       case Write(_, _) => mode != TX && SilentWrites(mode, actions[1..])
  }

  lemma {:induction false} SilentAppend(mode: int, a: seq<Action>, b: seq<Action>)
    requires forall i :: 0 <= i < |a| ==> a[i].Write?
    requires mode != TX && SilentWrites(mode, b)
    ensures SilentWrites(mode, a + b)
    decreases |a|
  {
    if a == [] {
      assert a + b == b;
    } else {
      assert (a + b)[0] == a[0] && (a + b)[1..] == a[1..] + b;
      SilentAppend(mode, a[1..], b);
    }
  }

  /** What setting a licensed frequency tells a radio in a given mode. */
  function Retuning(mode: int, steps: nat): seq<Action> {
    (if mode == TX then [Mode(RX)] else []) + Writes(steps)
      + (if mode == TX then [Mode(TX)] else if mode == RX then [Mode(SYNTH), Mode(RX)] else [])
  }

  /** It never writes a register while transmitting, and ends in the mode it found. */
  lemma RetuningSilent(mode: int, steps: nat)
    ensures SilentWrites(mode, Retuning(mode, steps))
    ensures var r := Retuning(mode, steps); var last := r[|r| - 1];
      (last.Mode? ==> last.m == mode) && (last.Write? ==> r == Writes(steps))
  {
    hide Part;
    var after := if mode == TX then [Mode(TX)] else if mode == RX then [Mode(SYNTH), Mode(RX)] else [];
    ModesSilent(after);
    SilentAppend(if mode == TX then RX else mode, Writes(steps), after);
    if mode == TX {
      assert Retuning(mode, steps)[1..] == Writes(steps) + after;
    } else {
      assert Retuning(mode, steps) == Writes(steps) + after;
    }
  }

  /** The three registers' writes at place i: 7, 8 and 9, the highest byte first. */
  predicate WritesAt(a: seq<Action>, i: nat, steps: nat) {
    && i + 3 <= |a| && a[i] == Write(7, steps / 65536 % 256) && a[i + 1] == Write(8, steps / 256 % 256)
    && a[i + 2] == Write(9, steps % 256)
  }

  /**
   What a retuning is, place by place.  A receiving radio (mode 3) is told its registers, then synthesizer (2)
   and then reception again; a sending one (mode 4) is told reception, its registers, and then to send; any
   other is told its registers.  Nothing else is told.
   */
  predicate Retuned(a: seq<Action>, mode: int, steps: nat) {
    && (mode == 3 ==> |a| == 5 && WritesAt(a, 0, steps) && a[3] == Mode(2) && a[4] == Mode(3))
    && (mode == 4 ==> |a| == 5 && a[0] == Mode(3) && WritesAt(a, 1, steps) && a[4] == Mode(4))
    && (mode != 3 && mode != 4 ==> |a| == 3 && WritesAt(a, 0, steps))
  }

  lemma RetuningOrder(mode: int, steps: nat)
    ensures Retuned(Retuning(mode, steps), mode, steps)
  {}

  /** The register value is the greatest number of steps of 15625/256 Hz that does not exceed the frequency. */
  lemma StepsAreGreatest(freq: nat)
    ensures 15625 * Steps(freq) <= 256 * freq < 15625 * (Steps(freq) + 1)
  {}

  /** The frequency read is the value of the registers in those steps, cut to hertz. */
  lemma HertzAreWhole(steps: nat)
    ensures 256 * Hertz(steps) <= 15625 * steps < 256 * (Hertz(steps) + 1)
  {}

  lemma {:induction false} ModesSilent(actions: seq<Action>)
    requires forall i :: 0 <= i < |actions| ==> actions[i].Mode?
    ensures forall m :: SilentWrites(m, actions)
    decreases |actions|
  {
    if actions != [] { ModesSilent(actions[1..]); }
  }

  class Radio {
    const regs: array<Byte>
    var mode: int

    /** What the radio was told, in order. */
    var log: seq<Action>

    predicate Valid()
      reads this
    {
      regs.Length == REG_COUNT
    }

    /** The value of the three frequency registers. */
    function Frf(): nat
      requires Valid()
      reads this, regs
    {
      Joined(regs[REG_FRFMSB], regs[REG_FRFMSB + 1], regs[REG_FRFLSB])
    }

    constructor (mode: int)
      ensures Valid() && fresh(regs) && this.mode == mode && log == []
    {
      regs := new Byte[REG_COUNT](_ => 0);
      this.mode, log := mode, [];
    }

    /** `bIsLicensedFreq`. */
    method IsLicensedFreq(f: int) returns (licensed: bool)
      ensures licensed <==> Licensed(f)
    {
      for i := 0 to 4
        invariant forall j :: 0 <= j < i ==> !(BOUNDS[j].0 <= f <= BOUNDS[j].1)
      {
        if f >= BOUNDS[i].0 && f <= BOUNDS[i].1 { return true; }
      }
      licensed := false;
    }

    /** `iRf69WriteReg`. */
    method WriteReg(reg: nat, b: Byte)
      requires Valid() && reg < REG_COUNT
      modifies `log, regs
      ensures regs[..] == old(regs[..])[reg := b] && log == old(log) + [Write(reg, b)]
    {
      regs[reg] := b;
      log := log + [Write(reg, b)];
    }

    /** `iSetFrequencyRegs`. */
    method SetFrequencyRegs(freq: int) returns (r: int)
      requires Valid()
      modifies `log, regs
      ensures !Licensed(freq) ==> r == -1 && regs[..] == old(regs[..]) && log == old(log)
      ensures Licensed(freq) ==> r == 0 && 0 <= freq && Frf() == Steps(freq) && log == old(log) + Writes(Steps(freq))
      ensures forall i :: 0 <= i < REG_COUNT && !(REG_FRFMSB <= i <= REG_FRFLSB) ==> regs[i] == old(regs[i])
    {
      hide Licensed, Steps, Part, Joined;
      var licensed := IsLicensedFreq(freq);
      if !licensed { return -1; }
      LicensedPositive(freq);
      var frf := Steps(freq);
      var sr: Byte := 16;
      ghost var w := Writes(frf);
      for reg := REG_FRFMSB to REG_FRFLSB + 1
        invariant sr == (if reg <= REG_FRFLSB then 8 * (REG_FRFLSB - reg) else 248)
        invariant log == old(log) + w[..reg - REG_FRFMSB]
        invariant forall i :: REG_FRFMSB <= i < reg ==> regs[i] == Part(frf, 8 * (REG_FRFLSB - i))
        invariant forall i :: 0 <= i < REG_COUNT && !(REG_FRFMSB <= i < reg) ==> regs[i] == old(regs[i])
      {
        ghost var n := reg - REG_FRFMSB;
        assert w[..n + 1] == w[..n] + [w[n]];
        ghost var before := regs[..];
        WriteReg(reg, Part(frf, sr));
        assert forall i :: 0 <= i < REG_COUNT ==> regs[i] == regs[..][i] == if i == reg then Part(frf, sr) else before[i];
        sr := if sr >= 8 then sr - 8 else sr + 248;
      }
      StepsFit(freq);
      SplitJoined(frf);
      r := 0;
    }

    /** `lRf69Frequency`. */
    method Frequency() returns (f: int)
      requires Valid()
      ensures f == Hertz(Frf())
    {
      f := 0;
      var ls: Byte := 16;
      for reg := REG_FRFMSB to REG_FRFLSB + 1
        invariant ls == (if reg <= REG_FRFLSB then 8 * (REG_FRFLSB - reg) else 248)
        invariant f == (if reg > 7 then Placed(regs[7], 16) else 0) + (if reg > 8 then Placed(regs[8], 8) else 0)
                       + (if reg > 9 then Placed(regs[9], 0) else 0)
      {
        f := f + Placed(regs[reg], ls);
        ls := if ls >= 8 then ls - 8 else ls + 248;
      }
      f := Hertz(f);
    }

    /** `iRf69SetMode`, as far as the mode itself goes. */
    method SetMode(m: int)
      modifies `mode, `log
      ensures mode == m && log == if old(mode) == m then old(log) else old(log) + [Mode(m)]
    {
      if m != mode {
        log := log + [Mode(m)];
        mode := m;
      }
    }

    /**
     `iRf69SetFrequency`.  A frequency that is not licensed is refused with the registers as they were, but a
     transmitting radio is then left receiving.
     */
    method SetFrequency(freq: int) returns (r: int)
      requires Valid()
      modifies this, regs
      ensures Valid() && r == if Licensed(freq) then 0 else -1
      ensures Licensed(freq) ==>
        0 <= freq && Frf() == Steps(freq) && mode == old(mode) && log == old(log) + Retuning(mode, Steps(freq))
      ensures Licensed(freq) ==> 0 <= freq && Retuned(log[|old(log)|..], old(mode), Steps(freq))
      ensures !Licensed(freq) ==>
        && regs[..] == old(regs[..]) && mode == (if old(mode) == TX then RX else old(mode))
        && log == old(log) + if old(mode) == TX then [Mode(RX)] else []
      ensures forall i :: 0 <= i < REG_COUNT && !(REG_FRFMSB <= i <= REG_FRFLSB) ==> regs[i] == old(regs[i])
    {
      hide Licensed, Steps, Joined, Writes, Retuned;
      var oldMode := mode;
      if oldMode == TX { SetMode(RX); }
      r := SetFrequencyRegs(freq);
      if r < 0 { return; }
      if oldMode == RX { SetMode(SYNTH); }
      SetMode(oldMode);
      RetuningOrder(oldMode, Steps(freq));
      assert log[|old(log)|..] == Retuning(oldMode, Steps(freq));
      r := 0;
    }
  }

  lemma LicensedPositive(freq: int)
    requires Licensed(freq)
    ensures freq >= 0
  {
    LicensedIs(freq);
  }
}
