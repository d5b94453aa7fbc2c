/**
 The input port's polling thread: it reads all pins into one word, confirms a change by reading
 again, scans the changed bits, and tells the callback of each changed pin which edge it saw.
 A state machine over words; module DInputPort has the object whose loops compute it.
 */
module DInput {
  const BITS := 32

  type Word = bv32

  // ---------------------------------------------------------------- bits of a word

  function And(a: Word, b: Word): Word { a & b }

  function Or(a: Word, b: Word): Word { a | b }

  function Xor(a: Word, b: Word): Word { a ^ b }

  function AndNot(a: Word, b: Word): Word { a & !b }

  function Up(a: Word): Word { a << 1 }

  function Down(a: Word): Word { a >> 1 }

  /** The mask of bit p, as the scan shifts it; zero after the last bit. */
  function MaskAt(p: nat): Word { if p == 0 then 1 else Up(MaskAt(p - 1)) }

  predicate Bit(v: Word, p: nat) { And(v, MaskAt(p)) != 0 }

  lemma AndUp(a: Word, m: Word)
    ensures And(a, Up(m)) == Up(And(Down(a), m))
  {}

  lemma UpAnd(m: Word, n: Word)
    ensures And(Up(m), Up(n)) == Up(And(m, n)) && Up(0) == 0
  {}

  lemma LowBit(a: Word)
    ensures And(1, Up(a)) == 0 && (And(a, 1) == 0 || And(a, 1) == 1)
  {}

  lemma AndComm(a: Word, b: Word)
    ensures And(a, b) == And(b, a)
  {}

  lemma AndOr(a: Word, b: Word, m: Word)
    ensures And(Or(a, b), m) == Or(And(a, m), And(b, m))
  {}

  lemma AndXor(a: Word, b: Word, m: Word)
    ensures And(Xor(a, b), m) == Xor(And(a, m), And(b, m))
  {}

  lemma AndAndNot(a: Word, b: Word, m: Word)
    ensures And(b, m) == 0 ==> And(AndNot(a, b), m) == And(a, m)
    ensures And(AndNot(a, m), m) == 0
  {}

  lemma Neutral(a: Word)
    ensures Or(a, 0) == a && Or(0, a) == a && Xor(a, 0) == a && Xor(0, a) == a && Xor(a, a) == 0 && And(a, a) == a
    ensures And(0, a) == 0 && Or(a, a) == a
  {}

  /** A mask selects one bit. */
  lemma {:induction false} OneBit(a: Word, p: nat)
    ensures And(a, MaskAt(p)) == 0 || And(a, MaskAt(p)) == MaskAt(p)
  {
    if p == 0 {
      LowBit(a);
    } else {
      hide And, Up, Down;
      OneBit(Down(a), p - 1);
      AndUp(a, MaskAt(p - 1));
      UpAnd(0, 0);
    }
  }

  lemma {:induction false} MasksApart(p: nat, q: nat)
    requires p != q
    ensures And(MaskAt(p), MaskAt(q)) == 0
    decreases p
  {
    if p == 0 {
      LowBit(MaskAt(q - 1));
    } else if q == 0 {
      AndComm(MaskAt(p), MaskAt(q));
      LowBit(MaskAt(p - 1));
    } else {
      hide And, Up;
      MasksApart(p - 1, q - 1);
      UpAnd(MaskAt(p - 1), MaskAt(q - 1));
      UpAnd(0, 0);
    }
  }

  lemma MaskTable()
    ensures MaskAt(0) == 0x1 && MaskAt(1) == 0x2 && MaskAt(2) == 0x4 && MaskAt(3) == 0x8
    ensures MaskAt(4) == 0x10 && MaskAt(5) == 0x20 && MaskAt(6) == 0x40 && MaskAt(7) == 0x80
    ensures MaskAt(8) == 0x100 && MaskAt(9) == 0x200 && MaskAt(10) == 0x400 && MaskAt(11) == 0x800
    ensures MaskAt(12) == 0x1000 && MaskAt(13) == 0x2000 && MaskAt(14) == 0x4000 && MaskAt(15) == 0x8000
    ensures MaskAt(16) == 0x10000 && MaskAt(17) == 0x20000 && MaskAt(18) == 0x40000 && MaskAt(19) == 0x80000
    ensures MaskAt(20) == 0x100000 && MaskAt(21) == 0x200000 && MaskAt(22) == 0x400000 && MaskAt(23) == 0x800000
    ensures MaskAt(24) == 0x1000000 && MaskAt(25) == 0x2000000 && MaskAt(26) == 0x4000000 && MaskAt(27) == 0x8000000
    ensures MaskAt(28) == 0x10000000 && MaskAt(29) == 0x20000000 && MaskAt(30) == 0x40000000 && MaskAt(31) == 0x80000000
  {
    assert MaskAt(0) == 0x1 && MaskAt(1) == 0x2 && MaskAt(2) == 0x4 && MaskAt(3) == 0x8;
    assert MaskAt(4) == 0x10 && MaskAt(5) == 0x20 && MaskAt(6) == 0x40 && MaskAt(7) == 0x80;
    assert MaskAt(8) == 0x100 && MaskAt(9) == 0x200 && MaskAt(10) == 0x400 && MaskAt(11) == 0x800;
    assert MaskAt(12) == 0x1000 && MaskAt(13) == 0x2000 && MaskAt(14) == 0x4000 && MaskAt(15) == 0x8000;
    assert MaskAt(16) == 0x10000 && MaskAt(17) == 0x20000 && MaskAt(18) == 0x40000 && MaskAt(19) == 0x80000;
    assert MaskAt(20) == 0x100000 && MaskAt(21) == 0x200000 && MaskAt(22) == 0x400000 && MaskAt(23) == 0x800000;
    assert MaskAt(24) == 0x1000000 && MaskAt(25) == 0x2000000 && MaskAt(26) == 0x4000000 && MaskAt(27) == 0x8000000;
    assert MaskAt(28) == 0x10000000 && MaskAt(29) == 0x20000000 && MaskAt(30) == 0x40000000 && MaskAt(31) == 0x80000000;
  }

  lemma MaskNonZero(p: nat)
    requires p < BITS
    ensures MaskAt(p) != 0
  {
    MaskTable();
  }

  /** A word without bits is zero. */
  lemma NoBits(v: Word)
    requires forall p :: 0 <= p < BITS ==> !Bit(v, p)
    ensures v == 0
  {
    MaskTable();
    assert !Bit(v, 0) && !Bit(v, 1) && !Bit(v, 2) && !Bit(v, 3) && !Bit(v, 4) && !Bit(v, 5) && !Bit(v, 6) && !Bit(v, 7);
    assert !Bit(v, 8) && !Bit(v, 9) && !Bit(v, 10) && !Bit(v, 11) && !Bit(v, 12) && !Bit(v, 13) && !Bit(v, 14);
    assert !Bit(v, 15) && !Bit(v, 16) && !Bit(v, 17) && !Bit(v, 18) && !Bit(v, 19) && !Bit(v, 20) && !Bit(v, 21);
    assert !Bit(v, 22) && !Bit(v, 23) && !Bit(v, 24) && !Bit(v, 25) && !Bit(v, 26) && !Bit(v, 27) && !Bit(v, 28);
    assert !Bit(v, 29) && !Bit(v, 30) && !Bit(v, 31);
    NoBitsOf(v);
  }

  lemma NoBitsOf(v: Word)
    requires v & 0x1 == 0 && v & 0x2 == 0 && v & 0x4 == 0 && v & 0x8 == 0 && v & 0x10 == 0 && v & 0x20 == 0
    requires v & 0x40 == 0 && v & 0x80 == 0 && v & 0x100 == 0 && v & 0x200 == 0 && v & 0x400 == 0 && v & 0x800 == 0
    requires v & 0x1000 == 0 && v & 0x2000 == 0 && v & 0x4000 == 0 && v & 0x8000 == 0 && v & 0x10000 == 0
    requires v & 0x20000 == 0 && v & 0x40000 == 0 && v & 0x80000 == 0 && v & 0x100000 == 0 && v & 0x200000 == 0
    requires v & 0x400000 == 0 && v & 0x800000 == 0 && v & 0x1000000 == 0 && v & 0x2000000 == 0 && v & 0x4000000 == 0
    requires v & 0x8000000 == 0 && v & 0x10000000 == 0 && v & 0x20000000 == 0 && v & 0x40000000 == 0
    requires v & 0x80000000 == 0
    ensures v == 0
  {}

  // The bit operations of the thread, bit by bit.

  lemma ZeroBits(p: nat)
    ensures !Bit(0, p)
  {
    hide And, MaskAt;
    Neutral(MaskAt(p));
  }

  lemma BitXor(a: Word, b: Word, p: nat)
    requires p < BITS
    ensures Bit(Xor(a, b), p) <==> Bit(a, p) != Bit(b, p)
  {
    hide And, Xor, MaskAt;
    AndXor(a, b, MaskAt(p));
    Neutral(MaskAt(p));
    Neutral(0);
    OneBit(a, p);
    OneBit(b, p);
    MaskNonZero(p);
  }

  lemma BitSet(a: Word, i: nat, p: nat)
    requires i < BITS && p < BITS
    ensures Bit(Or(a, MaskAt(i)), p) <==> p == i || Bit(a, p)
  {
    hide And, Or, MaskAt;
    AndOr(a, MaskAt(i), MaskAt(p));
    Neutral(MaskAt(p));
    Neutral(0);
    OneBit(a, p);
    MaskNonZero(p);
    if p != i { MasksApart(i, p); }
  }

  lemma BitCleared(a: Word, i: nat, p: nat)
    requires i < BITS && p < BITS
    ensures Bit(AndNot(a, MaskAt(i)), p) <==> p != i && Bit(a, p)
  {
    hide And, AndNot, MaskAt;
    AndAndNot(a, MaskAt(i), MaskAt(p));
    if p != i { MasksApart(i, p); }
  }

  // ---------------------------------------------------------------- the port

  datatype Option<T> = None | Some(value: T)

  /** `eDinEdge`: a set of edges. */
  datatype Edges = Edges(falling: bool, rising: bool)

  const NO_EDGE := Edges(false, false)

  function Meet(a: Edges, b: Edges): Edges { Edges(a.falling && b.falling, a.rising && b.rising) }

  function Edge(rising: bool): Edges { Edges(!rising, rising) }

  /** The level at which a pin is active, the edges it is configured for, and what its callback returns on a given call. */
  datatype Pin = Pin(act: bool, want: Edges, callback: Option<(Edges, nat) -> int>)

  datatype Event = Event(pin: nat, rising: bool)

  /** `prev_values`, `run`, each pin's `edge_occurred`, and the edges that callbacks were told. */
  datatype Port = Port(prev: Word, run: bool, occurred: seq<Edges>, log: seq<Event>)

  predicate Fits(cfg: seq<Pin>, st: Port) {
    |cfg| <= BITS && |st.occurred| == |cfg| && Below(st.prev, |cfg|)
  }

  predicate Below(v: Word, n: nat) {
    forall p :: n <= p < BITS ==> !Bit(v, p)
  }

  predicate Wants(pin: Pin, rising: bool) {
    pin.callback.Some? && Meet(Edge(rising), pin.want) != NO_EDGE
  }

  /** A changed bit: the edge is noted, and told to the callback; a callback that returns non-zero stops the thread. */
  function Visit(cfg: seq<Pin>, st: Port, p: nat, rising: bool): (r: Port)
    requires p < |cfg| == |st.occurred|
    ensures |r.occurred| == |cfg| && r.prev == st.prev
  {
    var st' := st.(occurred := st.occurred[p := Meet(Edge(rising), cfg[p].want)]);
    if Wants(cfg[p], rising) then
      var ret := cfg[p].callback.value(Edge(rising), |st.log|);
      st'.(log := st.log + [Event(p, rising)], run := st.run && ret == 0)
    else st'
  }

  /** What the scan still has to do: the changed bits from p on. */
  predicate Pending(diff: Word, p: nat, n: nat) {
    forall q :: 0 <= q < BITS && Bit(diff, q) ==> p <= q < n
  }

  lemma SomePending(diff: Word, p: nat, n: nat)
    requires Pending(diff, p, n) && diff != 0
    ensures p < BITS && p < n
  {
    hide Bit;
    if p >= BITS || p >= n { NoBits(diff); }
  }

  lemma StillPending(diff: Word, p: nat, n: nat)
    requires Pending(diff, p, n) && p < BITS
    ensures Bit(diff, p) ==> p < n && Pending(AndNot(diff, MaskAt(p)), p + 1, n)
    ensures !Bit(diff, p) ==> Pending(diff, p + 1, n)
  {
    hide Bit, MaskAt, AndNot;
    forall q | 0 <= q < BITS
      ensures Bit(AndNot(diff, MaskAt(p)), q) <==> q != p && Bit(diff, q)
    {
      BitCleared(diff, p, q);
    }
  }

  /** The scan of the changed bits, from bit p on. */
  function Scan(cfg: seq<Pin>, st: Port, values: Word, diff: Word, p: nat): (r: Port)
    requires |cfg| <= BITS && |st.occurred| == |cfg| && Pending(diff, p, |cfg|)
    ensures |r.occurred| == |cfg| && r.prev == st.prev
    decreases BITS - p
  {
    if diff == 0 then st
    else
      SomePending(diff, p, |cfg|);
      StillPending(diff, p, |cfg|);
      if Bit(diff, p) then
        var st' := Visit(cfg, st, p, Bit(values, p));
        if !st'.run then st' else Scan(cfg, st', values, AndNot(diff, MaskAt(p)), p + 1)
      else Scan(cfg, st, values, diff, p + 1)
  }

  lemma ChangesPending(v: Word, w: Word, n: nat)
    requires Below(v, n) && Below(w, n)
    ensures Pending(Xor(v, w), 0, n)
  {
    hide Bit, Xor;
    forall q | 0 <= q < BITS
      ensures Bit(Xor(v, w), q) <==> Bit(v, q) != Bit(w, q)
    {
      BitXor(v, w, q);
    }
  }

  /** A confirmed change. */
  function Change(cfg: seq<Pin>, st: Port, values: Word): (r: Port)
    requires Fits(cfg, st) && Below(values, |cfg|)
    ensures Fits(cfg, r) && r.prev == values
  {
    ChangesPending(values, st.prev, |cfg|);
    Scan(cfg, st, values, Xor(values, st.prev), 0).(prev := values)
  }

  /** The thread's loop on the words that it reads: a change counts if the next reading confirms it. */
  function Poll(cfg: seq<Pin>, st: Port, samples: seq<Word>): (r: Port)
    requires Fits(cfg, st) && forall v :: v in samples ==> Below(v, |cfg|)
    ensures Fits(cfg, r)
    decreases |samples|
  {
    if !st.run || samples == [] then st
    else if samples[0] == st.prev then Poll(cfg, st, samples[1..])
    else if |samples| == 1 then st
    else if samples[1] == samples[0] then Poll(cfg, Change(cfg, st, samples[0]), samples[2..])
    else Poll(cfg, st, samples[2..])
  }

  // ---------------------------------------------------------------- what one pin sees

  /** The edges told for one pin, in order. */
  function PinLog(log: seq<Event>, q: nat): seq<bool>
    decreases |log|
  {
    if log == [] then []
    else PinLog(log[..|log| - 1], q) + (if log[|log| - 1].pin == q then [log[|log| - 1].rising] else [])
  }

  lemma PinLogSnoc(log: seq<Event>, e: Event, q: nat)
    ensures PinLog(log + [e], q) == if e.pin == q then PinLog(log, q) + [e.rising] else PinLog(log, q)
  {
    assert (log + [e])[..|log|] == log;
  }

  /** From state a to state b pin q saw an edge: it was noted, and told if the pin wants it. */
  predicate Saw(cfg: seq<Pin>, a: Port, b: Port, q: nat, rising: bool)
    requires q < |cfg| == |a.occurred| == |b.occurred|
  {
    && b.occurred[q] == Meet(Edge(rising), cfg[q].want)
    && PinLog(b.log, q) == if Wants(cfg[q], rising) then PinLog(a.log, q) + [rising] else PinLog(a.log, q)
  }

  predicate SawNothing(a: Port, b: Port, q: nat)
    requires q < |a.occurred| == |b.occurred|
  {
    b.occurred[q] == a.occurred[q] && PinLog(b.log, q) == PinLog(a.log, q)
  }

  lemma VisitSeen(cfg: seq<Pin>, st: Port, p: nat, rising: bool, q: nat)
    requires p < |cfg| == |st.occurred| && q < |cfg|
    ensures var r := Visit(cfg, st, p, rising);
      (if q == p then Saw(cfg, st, r, q, rising) else SawNothing(st, r, q)) && (r.run ==> st.run)
  {
    PinLogSnoc(st.log, Event(p, rising), q);
  }

  /**
   What the scan does for pin q: if its bit is to do, and no callback stops the thread before, the pin
   sees its edge; otherwise it sees nothing.
   */
  lemma {:induction false} ScanSeen(cfg: seq<Pin>, st: Port, values: Word, diff: Word, p: nat, q: nat)
    requires |cfg| <= BITS && |st.occurred| == |cfg| && Pending(diff, p, |cfg|) && q < |cfg|
    ensures var r := Scan(cfg, st, values, diff, p);
      && (SawNothing(st, r, q) || (Bit(diff, q) && Saw(cfg, st, r, q, Bit(values, q))))
      && (r.run && Bit(diff, q) ==> Saw(cfg, st, r, q, Bit(values, q)))
      && (r.run ==> st.run)
    decreases BITS - p
  {
    hide Bit, MaskAt, AndNot, PinLog, Visit, Pending, Meet, Wants;
    if diff == 0 {
      ZeroBits(q);
    } else {
      SomePending(diff, p, |cfg|);
      StillPending(diff, p, |cfg|);
      if Bit(diff, p) {
        var st' := Visit(cfg, st, p, Bit(values, p));
        VisitSeen(cfg, st, p, Bit(values, p), q);
        BitCleared(diff, p, q);
        if st'.run { ScanSeen(cfg, st', values, AndNot(diff, MaskAt(p)), p + 1, q); }
      } else {
        ScanSeen(cfg, st, values, diff, p + 1, q);
      }
    }
  }

  /** A confirmed change, for pin q: its edge if its bit changed; possibly missed only when the thread stops. */
  lemma ChangeSeen(cfg: seq<Pin>, st: Port, values: Word, q: nat)
    requires Fits(cfg, st) && Below(values, |cfg|) && q < |cfg|
    ensures var r := Change(cfg, st, values);
      && (SawNothing(st, r, q) || (Bit(values, q) != Bit(st.prev, q) && Saw(cfg, st, r, q, Bit(values, q))))
      && (r.run && Bit(values, q) != Bit(st.prev, q) ==> Saw(cfg, st, r, q, Bit(values, q)))
      && (r.run ==> st.run)
  {
    hide Bit, Xor, Scan, PinLog, Meet, Wants;
    ChangesPending(values, st.prev, |cfg|);
    BitXor(values, st.prev, q);
    ScanSeen(cfg, st, values, Xor(values, st.prev), 0, q);
  }

  // ---------------------------------------------------------------- the edges alternate

  /** A pin that is told both edges. */
  predicate ToldBoth(pin: Pin) { pin.callback.Some? && pin.want == Edges(true, true) }

  /** Rising, falling, rising, ... */
  predicate Alternates(s: seq<bool>) {
    forall i :: 0 <= i < |s| ==> s[i] == (i % 2 == 0)
  }

  /** Risings minus fallings. */
  function Balance(s: seq<bool>): int
    decreases |s|
  {
    if s == [] then 0 else Balance(s[..|s| - 1]) + (if s[|s| - 1] then 1 else -1)
  }

  lemma {:induction false} AlternatingBalance(s: seq<bool>)
    requires Alternates(s)
    ensures Balance(s) == |s| % 2
    decreases |s|
  {
    if s != [] { AlternatingBalance(s[..|s| - 1]); }
  }

  /** The edges told for pin q alternate; while the thread runs, their balance is the pin's bit of `prev_values`. */
  ghost predicate InStep(st: Port, q: nat) {
    && Alternates(PinLog(st.log, q))
    && (st.run ==> Balance(PinLog(st.log, q)) == if Bit(st.prev, q) then 1 else 0)
  }

  lemma InStepSize(st: Port, q: nat)
    ensures InStep(st, q) <==>
      Alternates(PinLog(st.log, q)) && (st.run ==> (Bit(st.prev, q) <==> |PinLog(st.log, q)| % 2 == 1))
  {
    hide Bit;
    if Alternates(PinLog(st.log, q)) { AlternatingBalance(PinLog(st.log, q)); }
  }

  lemma ChangeInStep(cfg: seq<Pin>, st: Port, values: Word, q: nat)
    requires Fits(cfg, st) && Below(values, |cfg|) && q < |cfg| && ToldBoth(cfg[q])
    requires st.run && InStep(st, q)
    ensures InStep(Change(cfg, st, values), q)
  {
    hide Bit, Change, PinLog, InStep;
    var r := Change(cfg, st, values);
    ChangeSeen(cfg, st, values, q);
    InStepSize(st, q);
    InStepSize(r, q);
  }

  /** Every run keeps it, whatever the pins do and whatever the callbacks return. */
  lemma {:induction false} PollInStep(cfg: seq<Pin>, st: Port, samples: seq<Word>, q: nat)
    requires Fits(cfg, st) && q < |cfg| && ToldBoth(cfg[q]) && InStep(st, q)
    requires forall v :: v in samples ==> Below(v, |cfg|)
    ensures InStep(Poll(cfg, st, samples), q)
    decreases |samples|
  {
    hide InStep, Change, Below, ToldBoth;
    if !st.run || samples == [] {
    } else if samples[0] == st.prev {
      PollInStep(cfg, st, samples[1..], q);
    } else if |samples| > 1 {
      if samples[1] == samples[0] {
        ChangeInStep(cfg, st, samples[0], q);
        PollInStep(cfg, Change(cfg, st, samples[0]), samples[2..], q);
      } else {
        PollInStep(cfg, st, samples[2..], q);
      }
    }
  }

  /** A port that has just been opened. */
  function Opened(n: nat): Port {
    Port(0, true, seq(n, _ => NO_EDGE), [])
  }

  lemma OpenedInStep(n: nat, q: nat)
    ensures InStep(Opened(n), q)
  {
    hide Bit;
    ZeroBits(q);
  }

  // ---------------------------------------------------------------- runs, told by their confirmed values

  /** The values that the loop confirms. */
  function Confirmed(prev: Word, samples: seq<Word>): seq<Word>
    decreases |samples|
  {
    if |samples| == 0 then []
    else if samples[0] == prev then Confirmed(prev, samples[1..])
    else if |samples| == 1 then []
    else if samples[1] == samples[0] then [samples[0]] + Confirmed(samples[0], samples[2..])
    else Confirmed(prev, samples[2..])
  }

  /** The edges of one pin in a succession of values. */
  function PinEdges(prev: Word, values: seq<Word>, q: nat): seq<bool>
    decreases |values|
  {
    if values == [] then []
    else (if Bit(values[0], q) != Bit(prev, q) then [Bit(values[0], q)] else []) + PinEdges(values[0], values[1..], q)
  }

  /** Those of them that the pin is told. */
  function Wanted(pin: Pin, edges: seq<bool>): seq<bool> {
    if edges == [] then []
    else (if Wants(pin, edges[0]) then [edges[0]] else []) + Wanted(pin, edges[1..])
  }

  /** What is noted of a pin after some edges. */
  function Noted(want: Edges, before: Edges, edges: seq<bool>): Edges {
    if edges == [] then before else Meet(Edge(edges[|edges| - 1]), want)
  }

  /** No callback stops the thread. */
  ghost predicate NeverStops(cfg: seq<Pin>) {
    forall i, e, k :: 0 <= i < |cfg| && cfg[i].callback.Some? ==> cfg[i].callback.value(e, k) == 0
  }

  lemma VisitRuns(cfg: seq<Pin>, st: Port, p: nat, rising: bool)
    requires p < |cfg| == |st.occurred| && NeverStops(cfg) && st.run
    ensures Visit(cfg, st, p, rising).run
  {
    hide Wants;
    if Wants(cfg[p], rising) {
      assert cfg[p].callback.Some? by { WantsCallback(cfg[p], rising); }
    }
  }

  lemma WantsCallback(pin: Pin, rising: bool)
    requires Wants(pin, rising)
    ensures pin.callback.Some?
  {}

  lemma {:induction false} ScanRuns(cfg: seq<Pin>, st: Port, values: Word, diff: Word, p: nat)
    requires |cfg| <= BITS && |st.occurred| == |cfg| && Pending(diff, p, |cfg|)
    requires NeverStops(cfg) && st.run
    ensures Scan(cfg, st, values, diff, p).run
    decreases BITS - p
  {
    hide Bit, MaskAt, AndNot, Pending, Visit, NeverStops;
    if diff != 0 {
      SomePending(diff, p, |cfg|);
      StillPending(diff, p, |cfg|);
      if Bit(diff, p) {
        VisitRuns(cfg, st, p, Bit(values, p));
        ScanRuns(cfg, Visit(cfg, st, p, Bit(values, p)), values, AndNot(diff, MaskAt(p)), p + 1);
      } else {
        ScanRuns(cfg, st, values, diff, p + 1);
      }
    }
  }

  lemma ChangeRuns(cfg: seq<Pin>, st: Port, values: Word)
    requires Fits(cfg, st) && Below(values, |cfg|) && NeverStops(cfg) && st.run
    ensures Change(cfg, st, values).run
  {
    hide NeverStops, Xor;
    ChangesPending(values, st.prev, |cfg|);
    ScanRuns(cfg, st, values, Xor(values, st.prev), 0);
  }

  /** From state a to state b pin q was told what it wants of these edges, and the last of them was noted. */
  predicate Told(cfg: seq<Pin>, a: Port, b: Port, q: nat, edges: seq<bool>)
    requires q < |cfg| == |a.occurred| == |b.occurred|
  {
    && PinLog(b.log, q) == PinLog(a.log, q) + Wanted(cfg[q], edges)
    && b.occurred[q] == Noted(cfg[q].want, a.occurred[q], edges)
  }

  lemma ToldNothing(cfg: seq<Pin>, a: Port, b: Port, q: nat)
    requires q < |cfg| == |a.occurred| == |b.occurred| && SawNothing(a, b, q)
    ensures Told(cfg, a, b, q, [])
  {
    hide PinLog;
  }

  /** One more edge in front, or none. */
  lemma ToldMore(cfg: seq<Pin>, a: Port, m: Port, b: Port, q: nat, e: bool, edges: seq<bool>)
    requires q < |cfg| == |a.occurred| == |m.occurred| == |b.occurred| && Told(cfg, m, b, q, edges)
    ensures Saw(cfg, a, m, q, e) ==> Told(cfg, a, b, q, [e] + edges)
    ensures SawNothing(a, m, q) ==> Told(cfg, a, b, q, [] + edges)
  {
    hide PinLog, Wants, Meet;
    assert ([e] + edges)[1..] == edges && [] + edges == edges;
    if edges != [] { assert ([e] + edges)[|edges|] == edges[|edges| - 1]; }
  }

  lemma ChangeTells(cfg: seq<Pin>, st: Port, values: Word, q: nat)
    requires Fits(cfg, st) && Below(values, |cfg|) && q < |cfg| && NeverStops(cfg) && st.run
    ensures var r := Change(cfg, st, values);
      r.run && if Bit(values, q) != Bit(st.prev, q) then Saw(cfg, st, r, q, Bit(values, q)) else SawNothing(st, r, q)
  {
    hide Change, NeverStops, Below, Saw, SawNothing, Bit;
    ChangeSeen(cfg, st, values, q);
    ChangeRuns(cfg, st, values);
  }

  lemma EdgesUnfold(prev: Word, v: Word, values: seq<Word>, q: nat)
    ensures PinEdges(prev, [v] + values, q)
      == (if Bit(v, q) != Bit(prev, q) then [Bit(v, q)] else []) + PinEdges(v, values, q)
  {
    hide Bit;
    assert ([v] + values)[1..] == values;
  }

  /**
   A whole run, for pin q: the callback is told exactly the wanted edges of the confirmed values, once
   each and in order, and what is noted is the last edge, if it is a wanted one.
   */
  lemma {:induction false} RunTells(cfg: seq<Pin>, st: Port, samples: seq<Word>, q: nat)
    requires Fits(cfg, st) && q < |cfg| && NeverStops(cfg) && st.run
    requires forall v :: v in samples ==> Below(v, |cfg|)
    ensures Told(cfg, st, Poll(cfg, st, samples), q, PinEdges(st.prev, Confirmed(st.prev, samples), q))
    decreases |samples|
  {
    hide Change, Below, NeverStops, Bit, Told, Saw, SawNothing;
    NothingSeen(st, q);
    ToldNothing(cfg, st, st, q);
    if samples == [] {
    } else if samples[0] == st.prev {
      RunTells(cfg, st, samples[1..], q);
    } else if |samples| > 1 {
      if samples[1] == samples[0] {
        var v, st', r := samples[0], Change(cfg, st, samples[0]), Poll(cfg, st, samples);
        ChangeTells(cfg, st, v, q);
        RunTells(cfg, st', samples[2..], q);
        var rest := Confirmed(v, samples[2..]);
        EdgesUnfold(st.prev, v, rest, q);
        ToldMore(cfg, st, st', r, q, Bit(v, q), PinEdges(v, rest, q));
      } else {
        RunTells(cfg, st, samples[2..], q);
      }
    }
  }

  lemma NothingSeen(st: Port, q: nat)
    requires q < |st.occurred|
    ensures SawNothing(st, st, q)
  {}

  /** The edges of a pin alternate. */
  predicate Alternating(edges: seq<bool>) {
    forall i :: 0 < i < |edges| ==> edges[i] != edges[i - 1]
  }

  /** From any value on, a pin's edges alternate, and the first of them leads away from its bit. */
  lemma {:induction false} EdgesAlternate(prev: Word, values: seq<Word>, q: nat)
    ensures var edges := PinEdges(prev, values, q);
      Alternating(edges) && (edges != [] ==> edges[0] != Bit(prev, q))
    decreases |values|
  {
    hide Bit;
    if values != [] {
      EdgesAlternate(values[0], values[1..], q);
    }
  }

  lemma {:induction false} AllWanted(pin: Pin, edges: seq<bool>)
    requires ToldBoth(pin)
    ensures Wanted(pin, edges) == edges
  {
    if edges != [] { AllWanted(pin, edges[1..]); }
  }

  /**
   A callback that is set while the port is open joins in whatever state the port is in: it is told
   alternating edges, the first of which leads away from the pin's bit of `prev_values`.
   */
  lemma JoinedInStep(cfg: seq<Pin>, st: Port, samples: seq<Word>, q: nat)
    requires Fits(cfg, st) && q < |cfg| && NeverStops(cfg) && st.run && ToldBoth(cfg[q])
    requires forall v :: v in samples ==> Below(v, |cfg|)
    ensures var edges := PinEdges(st.prev, Confirmed(st.prev, samples), q);
      && PinLog(Poll(cfg, st, samples).log, q) == PinLog(st.log, q) + edges
      && Alternating(edges) && (edges != [] ==> edges[0] != Bit(st.prev, q))
  {
    hide Below, NeverStops, Bit, PinLog, ToldBoth, Poll, PinEdges, Confirmed, Wanted;
    var edges := PinEdges(st.prev, Confirmed(st.prev, samples), q);
    RunTells(cfg, st, samples, q);
    EdgesAlternate(st.prev, Confirmed(st.prev, samples), q);
    AllWanted(cfg[q], edges);
  }

  // ---------------------------------------------------------------- asking for an edge

  /** A caller that asks after some edges, having asked before them, learns of a wanted edge if there was one. */
  predicate ReportsRight(want: Edges, edges: seq<bool>) {
    Noted(want, NO_EDGE, edges) != NO_EDGE <==> exists i :: 0 <= i < |edges| && Meet(Edge(edges[i]), want) != NO_EDGE
  }

  ghost predicate AlwaysReportsRight(want: Edges) {
    forall edges: seq<bool> :: Alternating(edges) ==> ReportsRight(want, edges)
  }

  /**
   `iDinEdgeOccured` never misses a wanted edge exactly when both edges are wanted, or none: an edge that is
   wanted alone is forgotten when the pin goes back before the caller asks.
   */
  lemma AskingIff(want: Edges)
    ensures AlwaysReportsRight(want) <==> want.falling == want.rising
  {
    if want.falling != want.rising {
      var edges := [want.rising, want.falling];
      assert Alternating(edges);
      assert Meet(Edge(edges[0]), want) != NO_EDGE && Noted(want, NO_EDGE, edges) == NO_EDGE;
      assert !ReportsRight(want, edges);
    } else {
      forall edges: seq<bool> | Alternating(edges)
        ensures ReportsRight(want, edges)
      {
        if edges != [] { assert Meet(Edge(edges[|edges| - 1]), want) != NO_EDGE <==> want.rising; }
      }
    }
  }

  // ---------------------------------------------------------------- edges and readings, spelled out

  /** A rising edge is wanted by a pin with a callback that wants rising edges, and a falling one likewise. */
  lemma WantsIs(pin: Pin, rising: bool)
    ensures Wants(pin, rising) <==> pin.callback.Some? && if rising then pin.want.rising else pin.want.falling
  {}

  /** What is noted of the last edge: that edge, if it is wanted, and nothing else. */
  lemma NotedIs(want: Edges, before: Edges, edges: seq<bool>, e: bool)
    ensures Noted(want, before, edges + [e]) == if e then Edges(false, want.rising) else Edges(want.falling, false)
  {}

  /** A changed pin, seen from outside: what is noted, what the callback is called with, and when the thread stops. */
  lemma VisitIs(cfg: seq<Pin>, st: Port, p: nat, rising: bool)
    requires p < |cfg| == |st.occurred|
    ensures var r := Visit(cfg, st, p, rising);
      && r.occurred == st.occurred[p := if rising then Edges(false, cfg[p].want.rising) else Edges(cfg[p].want.falling, false)]
      && (cfg[p].callback.Some? && (if rising then cfg[p].want.rising else cfg[p].want.falling) ==>
           && r.log == st.log + [Event(p, rising)]
           && r.run == (st.run && cfg[p].callback.value(if rising then Edges(false, true) else Edges(true, false), |st.log|) == 0))
      && (!(cfg[p].callback.Some? && (if rising then cfg[p].want.rising else cfg[p].want.falling)) ==>
           r.log == st.log && r.run == st.run)
  {}

  /** What the callback returned to the k-th edge told. */
  function Returned(cfg: seq<Pin>, log: seq<Event>, k: nat): int
    requires k < |log|
  {
    var e := log[k];
    if e.pin < |cfg| && cfg[e.pin].callback.Some?
    then cfg[e.pin].callback.value(if e.rising then Edges(false, true) else Edges(true, false), k) else 0
  }

  /** Edges told behind the first m: in the order of the pins from p on, and answered with zero, except perhaps the last. */
  ghost predicate ToldInOrder(cfg: seq<Pin>, log: seq<Event>, m: nat, p: nat, stopped: bool) {
    && m <= |log|
    && (forall k :: m <= k < |log| ==> log[k].pin >= p)
    && (forall j, k :: m <= j < k < |log| ==> log[j].pin < log[k].pin)
    && (forall k :: m <= k < |log| - 1 ==> Returned(cfg, log, k) == 0)
    && (if stopped then m < |log| && Returned(cfg, log, |log| - 1) != 0
        else m < |log| ==> Returned(cfg, log, |log| - 1) == 0)
  }

  lemma VisitTold(cfg: seq<Pin>, st: Port, p: nat, rising: bool)
    requires p < |cfg| == |st.occurred| && st.run
    ensures var r := Visit(cfg, st, p, rising);
      && st.log <= r.log && |r.log| <= |st.log| + 1 && (|r.log| > |st.log| ==> r.log[|st.log|].pin == p)
      && ToldInOrder(cfg, r.log, |st.log|, p, !r.run)
  {}

  lemma ToldMoreInOrder(cfg: seq<Pin>, a: seq<Event>, b: seq<Event>, m: nat, p: nat, stopped: bool)
    requires m <= |a| <= m + 1 && a <= b && (|a| > m ==> a[m].pin == p)
    requires ToldInOrder(cfg, a, m, p, false) && ToldInOrder(cfg, b, |a|, p + 1, stopped)
    ensures ToldInOrder(cfg, b, m, p, stopped)
  {
    if |a| > m {
      assert b[m] == a[m];
      assert Returned(cfg, b, m) == Returned(cfg, a, m);
    }
  }

  /** The edges of one scan are told in the order of the pins, and a callback that returns non-zero ends the scan there. */
  lemma {:induction false} ScanTold(cfg: seq<Pin>, st: Port, values: Word, diff: Word, p: nat)
    requires |cfg| <= BITS && |st.occurred| == |cfg| && Pending(diff, p, |cfg|) && st.run
    ensures var r := Scan(cfg, st, values, diff, p);
      st.log <= r.log && ToldInOrder(cfg, r.log, |st.log|, p, !r.run)
    decreases BITS - p
  {
    hide Bit, MaskAt, AndNot, Pending, Visit, Returned, ToldInOrder;
    if diff == 0 {
      NothingTold(cfg, st.log, p);
    } else {
      SomePending(diff, p, |cfg|);
      StillPending(diff, p, |cfg|);
      if Bit(diff, p) {
        var st' := Visit(cfg, st, p, Bit(values, p));
        VisitTold(cfg, st, p, Bit(values, p));
        if st'.run {
          ScanTold(cfg, st', values, AndNot(diff, MaskAt(p)), p + 1);
          var r := Scan(cfg, st', values, AndNot(diff, MaskAt(p)), p + 1);
          ToldMoreInOrder(cfg, st'.log, r.log, |st.log|, p, !r.run);
        }
      } else {
        ScanTold(cfg, st, values, diff, p + 1);
        NothingTold(cfg, st.log, p);
        var r := Scan(cfg, st, values, diff, p + 1);
        ToldMoreInOrder(cfg, st.log, r.log, |st.log|, p, !r.run);
      }
    }
  }

  /** So it is for every confirmed change. */
  lemma ChangeTold(cfg: seq<Pin>, st: Port, values: Word)
    requires Fits(cfg, st) && Below(values, |cfg|) && st.run
    ensures var r := Change(cfg, st, values);
      st.log <= r.log && ToldInOrder(cfg, r.log, |st.log|, 0, !r.run)
  {
    hide Scan, Xor, ToldInOrder, Below;
    ChangesPending(values, st.prev, |cfg|);
    ScanTold(cfg, st, values, Xor(values, st.prev), 0);
  }

  lemma NothingTold(cfg: seq<Pin>, log: seq<Event>, p: nat)
    ensures ToldInOrder(cfg, log, |log|, p, false)
  {}

  /** The pins behind the one that stopped the scan see nothing of it. */
  lemma {:induction false} ScanLeaves(cfg: seq<Pin>, st: Port, values: Word, diff: Word, p: nat, q: nat)
    requires |cfg| <= BITS && |st.occurred| == |cfg| && Pending(diff, p, |cfg|) && st.run && q < |cfg|
    ensures var r := Scan(cfg, st, values, diff, p);
      !r.run && |r.log| > |st.log| && r.log[|r.log| - 1].pin < q ==> r.occurred[q] == st.occurred[q]
    decreases BITS - p
  {
    hide Bit, MaskAt, AndNot, Pending, Returned;
    if diff != 0 {
      SomePending(diff, p, |cfg|);
      StillPending(diff, p, |cfg|);
      if Bit(diff, p) {
        var st' := Visit(cfg, st, p, Bit(values, p));
        if st'.run {
          var d := AndNot(diff, MaskAt(p));
          ScanLeaves(cfg, st', values, d, p + 1, q);
          ScanTold(cfg, st', values, d, p + 1);
        }
      } else {
        ScanLeaves(cfg, st, values, diff, p + 1, q);
      }
    }
  }

  /** A level and the number of readings for which it is held. */
  datatype Held = Held(value: Word, readings: nat)

  function Readings(held: seq<Held>): seq<Word>
    decreases |held|
  {
    if held == [] then [] else seq(held[0].readings, _ => held[0].value) + Readings(held[1..])
  }

  /** The values among them that differ from the one before. */
  function Changes(prev: Word, held: seq<Held>): seq<Word>
    decreases |held|
  {
    if held == [] then []
    else (if held[0].value != prev then [held[0].value] else []) + Changes(held[0].value, held[1..])
  }

  /** Readings of the present value confirm nothing. */
  lemma {:induction false} SameReadings(v: Word, n: nat, rest: seq<Word>)
    ensures Confirmed(v, seq(n, _ => v) + rest) == Confirmed(v, rest)
    decreases n
  {
    var s := seq(n, _ => v) + rest;
    if n == 0 {
      assert s == rest;
    } else {
      assert s[0] == v && s[1..] == seq(n - 1, _ => v) + rest;
      SameReadings(v, n - 1, rest);
    }
  }

  /** When every level is held for two readings at least, the confirmed values are exactly its changes. */
  lemma {:induction false} HeldConfirmed(prev: Word, held: seq<Held>)
    requires forall h :: h in held ==> h.readings >= 2
    ensures Confirmed(prev, Readings(held)) == Changes(prev, held)
    decreases |held|
  {
    if held != [] {
      var v, n, rest := held[0].value, held[0].readings, Readings(held[1..]);
      HeldConfirmed(v, held[1..]);
      if v == prev {
        SameReadings(v, n, rest);
      } else {
        var s := Readings(held);
        assert s == seq(n, _ => v) + rest;
        assert s[0] == v && s[1] == v && s[2..] == seq(n - 2, _ => v) + rest;
        SameReadings(v, n - 2, rest);
      }
    }
  }

  /** A value read only once, between readings of the present one, is not confirmed. */
  lemma GlitchIgnored(prev: Word, glitch: Word, rest: seq<Word>)
    requires glitch != prev
    ensures Confirmed(prev, [glitch, prev] + rest) == Confirmed(prev, rest)
  {
    assert ([glitch, prev] + rest)[2..] == rest;
  }
}
