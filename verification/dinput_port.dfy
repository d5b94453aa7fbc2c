/**
 The input port object: the loops that read the pins into a word, poll for confirmed changes and
 scan the changed bits with a moving mask, on the port's fields.
 */
module DInputPort {
  import opened DInput

  /** Which of the first n pins are at their active level. */
  function ReadUpTo(cfg: seq<Pin>, levels: seq<bool>, n: nat): Word
    requires n <= |cfg| <= BITS && n <= |levels|
  {
    if n == 0 then 0
    else if levels[n - 1] == cfg[n - 1].act then Or(ReadUpTo(cfg, levels, n - 1), MaskAt(n - 1))
    else ReadUpTo(cfg, levels, n - 1)
  }

  /** The word that `iDinReadAll` makes of the pins' levels. */
  function ReadWord(cfg: seq<Pin>, levels: seq<bool>): Word
    requires |levels| == |cfg| <= BITS
  {
    ReadUpTo(cfg, levels, |cfg|)
  }

  lemma {:induction false} ReadBits(cfg: seq<Pin>, levels: seq<bool>, n: nat, p: nat)
    requires n <= |cfg| <= BITS && n <= |levels| && p < BITS
    ensures Bit(ReadUpTo(cfg, levels, n), p) <==> p < n && levels[p] == cfg[p].act
  {
    hide Bit, Or, MaskAt;
    if n == 0 {
      ZeroBits(p);
    } else {
      ReadBits(cfg, levels, n - 1, p);
      BitSet(ReadUpTo(cfg, levels, n - 1), n - 1, p);
    }
  }

  /** Every bit of the word is its pin's activity, and there are no others. */
  lemma ReadMeans(cfg: seq<Pin>, levels: seq<bool>)
    requires |levels| == |cfg| <= BITS
    ensures forall p :: 0 <= p < BITS ==> (Bit(ReadWord(cfg, levels), p) <==> p < |cfg| && levels[p] == cfg[p].act)
    ensures Below(ReadWord(cfg, levels), |cfg|)
  {
    hide Bit, ReadUpTo;
    forall p | 0 <= p < BITS
      ensures Bit(ReadWord(cfg, levels), p) <==> p < |cfg| && levels[p] == cfg[p].act
    {
      ReadBits(cfg, levels, |cfg|, p);
    }
  }

  function Words(cfg: seq<Pin>, samples: seq<seq<bool>>): (w: seq<Word>)
    requires |cfg| <= BITS && forall s :: s in samples ==> |s| == |cfg|
    ensures |w| == |samples|
    ensures forall v :: v in w ==> Below(v, |cfg|)
  {
    if samples == [] then []
    else
      ReadMeans(cfg, samples[0]);
      [ReadWord(cfg, samples[0])] + Words(cfg, samples[1..])
  }

  class InputPort {
    var pins: seq<Pin>
    var prev: Word
    var run: bool
    const occurred: array<Edges>

    /** The edges that callbacks were told. */
    var log: seq<Event>

    /** The levels that the pins will have at the readings to come. */
    var levels: seq<seq<bool>>

    ghost predicate Valid()
      reads this, occurred
    {
      && 0 < |pins| <= BITS && occurred.Length == |pins| && DInput.Fits(pins, State())
      && forall s :: s in levels ==> |s| == |pins|
    }

    ghost function State(): Port
      reads this, occurred
    {
      Port(prev, run, occurred[..], log)
    }

    /** `xDinOpen`. */
    constructor (pins: seq<Pin>, levels: seq<seq<bool>>)
      requires 0 < |pins| <= BITS && forall s :: s in levels ==> |s| == |pins|
      ensures Valid() && fresh(occurred) && State() == Opened(|pins|) && this.levels == levels
      ensures |this.pins| == |pins|
      ensures forall i :: 0 <= i < |pins| ==> this.pins[i] == Pin(pins[i].act, NO_EDGE, None)
    {
      this.pins := seq(|pins|, i requires 0 <= i < |pins| => Pin(pins[i].act, NO_EDGE, None));
      prev, run, log, this.levels := 0, true, [], levels;
      occurred := new Edges[|pins|](_ => NO_EDGE);
      new;
      NothingBelow(|pins|);
      assert occurred[..] == seq(|pins|, _ => NO_EDGE);
    }

    /** `iDinReadAll`: the levels of one reading. */
    method ReadAll() returns (mask: Word)
      requires Valid() && levels != []
      modifies `levels
      ensures Valid() && levels == old(levels)[1..]
      ensures mask == ReadWord(pins, old(levels)[0]) && Below(mask, |pins|)
    {
      hide Or, MaskAt, Below;
      var now := levels[0];
      levels := levels[1..];
      mask := 0;
      for i := 0 to |pins|
        invariant mask == ReadUpTo(pins, now, i)
      {
        if now[i] == pins[i].act { mask := Or(mask, MaskAt(i)); }
      }
      ReadMeans(pins, now);
    }

    /** `pvDinPoll`, until it is stopped or has to wait for another reading. */
    method Poll()
      requires Valid()
      modifies this, occurred
      ensures Valid() && pins == old(pins)
      ensures State() == old(DInput.Poll(pins, State(), Words(pins, levels)))
    {
      hide Change, Below, ReadWord, Words, DInput.Poll;
      ghost var end := DInput.Poll(pins, State(), Words(pins, levels));
      while run
        invariant Valid() && pins == old(pins)
        invariant DInput.Poll(pins, State(), Words(pins, levels)) == end
        decreases |levels|
      {
        PollUnfold(pins, State(), Words(pins, levels));
        WordsTail(pins, levels);
        if levels == [] { return; }
        WordsTail(pins, levels[1..]);
        var values := ReadAll();
        if values != prev {
          if levels == [] { return; }
          var again := ReadAll();
          if values == again {
            Confirm(values);
          }
        }
      }
      PollUnfold(pins, State(), Words(pins, levels));
    }

    /** The scan of a confirmed change. */
    method Confirm(values: Word)
      requires Valid() && Below(values, |pins|) && run
      modifies `prev, `run, `log, occurred
      ensures Valid() && State() == Change(pins, old(State()), values)
    {
      hide Bit, MaskAt, And, AndNot, Xor, Below, Visit, Pending, Wants, Meet;
      ChangesPending(values, prev, |pins|);
      var mask: Word, diff, p := 1, Xor(values, prev), 0;
      FirstMask();
      ghost var end := Scan(pins, State(), values, diff, 0);
      while diff != 0
        invariant run && DInput.Fits(pins, State()) && prev == old(prev) && |pins| == occurred.Length
        invariant 0 <= p <= BITS && mask == MaskAt(p) && Pending(diff, p, |pins|)
        invariant Scan(pins, State(), values, diff, p) == end
        decreases BITS - p
      {
        SomePending(diff, p, |pins|);
        StillPending(diff, p, |pins|);
        BitIs(diff, p);
        BitIs(values, p);
        NextMask(p);
        if And(diff, mask) != 0 {
          var rising := And(values, mask) != 0;
          diff := AndNot(diff, mask);
          var stop := Tell(p, rising);
          if stop { break; }
        }
        mask := Up(mask);
        p := p + 1;
      }
      prev := values;
    }

    /** One changed bit; tells whether the callback stopped the thread. */
    method Tell(p: nat, rising: bool) returns (stop: bool)
      requires p < |pins| == occurred.Length && run
      modifies `run, `log, occurred
      ensures State() == Visit(pins, old(State()), p, rising) && (stop <==> !run)
    {
      var edge, ret := Edge(rising), 0;
      occurred[p] := Meet(edge, pins[p].want);
      if Wants(pins[p], rising) {
        ret := pins[p].callback.value(edge, |log|);
        log := log + [Event(p, rising)];
      }
      stop := ret != 0;
      if stop { run := false; }
      assert occurred[..] == old(occurred[..])[p := Meet(edge, pins[p].want)];
    }

    // -------------------------------------------------------------- what other threads call

    /** `iDinSetCallback`, for a port without a group callback. */
    method SetCallback(p: nat, edge: Edges, callback: Option<(Edges, nat) -> int>) returns (r: int)
      requires Valid()
      modifies `pins
      ensures Valid() && r == if p < |pins| then 0 else -1
      ensures pins == if r == 0 then old(pins)[p := Pin(old(pins[p].act), edge, callback)] else old(pins)
    {
      if p >= |pins| { return -1; }
      pins := pins[p := pins[p].(want := edge, callback := callback)];
      r := 0;
    }

    /** `iDinClearCallback`. */
    method ClearCallback(p: nat) returns (r: int)
      requires Valid()
      modifies `pins
      ensures Valid() && r == if p < |pins| then 0 else -1
      ensures pins == if r == 0 then old(pins)[p := old(pins[p]).(callback := None)] else old(pins)
    {
      if p >= |pins| { return -1; }
      pins := pins[p := pins[p].(callback := None)];
      r := 0;
    }

    /** `iDinSetEdge`. */
    method SetEdge(p: nat, edge: Edges) returns (r: int)
      requires Valid()
      modifies `pins
      ensures Valid() && r == if p < |pins| then 0 else -1
      ensures pins == if r == 0 then old(pins)[p := old(pins[p]).(want := edge)] else old(pins)
    {
      if p >= |pins| { return -1; }
      pins := pins[p := pins[p].(want := edge)];
      r := 0;
    }

    /** `iDinEdgeOccured`: what was noted, which is then forgotten; nothing for a pin that does not exist. */
    method EdgeOccurred(p: nat) returns (edge: Option<Edges>)
      requires Valid()
      modifies occurred
      ensures Valid() && edge == if p < |pins| then Some(old(occurred[p])) else None
      ensures occurred[..] == if p < |pins| then old(occurred[..])[p := NO_EDGE] else old(occurred[..])
    {
      edge := None;
      if p < |pins| {
        edge := Some(occurred[p]);
        occurred[p] := NO_EDGE;
      }
    }
  }

  lemma WordsTail(cfg: seq<Pin>, samples: seq<seq<bool>>)
    requires |cfg| <= BITS && forall s :: s in samples ==> |s| == |cfg|
    ensures samples != [] ==>
      Words(cfg, samples)[0] == ReadWord(cfg, samples[0]) && Words(cfg, samples)[1..] == Words(cfg, samples[1..])
  {
    hide Below, ReadWord;
  }

  lemma PollUnfold(cfg: seq<Pin>, st: Port, w: seq<Word>)
    requires DInput.Fits(cfg, st) && forall v :: v in w ==> Below(v, |cfg|)
    ensures !st.run || w == [] ==> DInput.Poll(cfg, st, w) == st
    ensures st.run && w != [] && w[0] == st.prev ==> DInput.Poll(cfg, st, w) == DInput.Poll(cfg, st, w[1..])
    ensures st.run && |w| == 1 && w[0] != st.prev ==> DInput.Poll(cfg, st, w) == st
    ensures st.run && |w| > 1 && w[0] != st.prev && w[1..][0] != w[0] ==>
      DInput.Poll(cfg, st, w) == DInput.Poll(cfg, st, w[1..][1..])
    ensures st.run && |w| > 1 && w[0] != st.prev && w[1..][0] == w[0] ==>
      DInput.Poll(cfg, st, w) == DInput.Poll(cfg, Change(cfg, st, w[0]), w[1..][1..])
  {
    hide Below, Change;
    if |w| > 1 { assert w[1..][1..] == w[2..]; }
  }

  lemma NothingBelow(n: nat)
    ensures Below(0, n)
  {
    hide Bit;
    forall p | n <= p < BITS
      ensures !Bit(0, p)
    {
      ZeroBits(p);
    }
  }

  lemma FirstMask()
    ensures MaskAt(0) == 1
  {}

  lemma NextMask(p: nat)
    ensures MaskAt(p + 1) == Up(MaskAt(p))
  {}

  lemma BitIs(v: Word, p: nat)
    ensures Bit(v, p) <==> And(v, MaskAt(p)) != 0
  {}
}
