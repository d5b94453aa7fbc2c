/**
 The Blyss objects: a frame whose seven bytes the setters overwrite in place, and a remote control
 that stamps a frame with the next rolling code and token and puts it on the line, pulse by pulse.
 */
module BlyssPort {
  import opened Blyss

  const FLAG: bv16 := 0xFE

  class Frame {
    const raw: array<bv8>

    predicate Valid()
      reads this
    {
      raw.Length == RAW_LEN
    }

    /** The value of a field. */
    function Field(f: Field): bv16
      requires Valid()
      reads this, raw
    {
      Get(raw[..], f)
    }

    /** `vSetBits`; index and len count bits. */
    method SetBits(index: nat, len: nat, value: bv16)
      requires Valid() && index % 4 == 0 && len % 4 == 0 && Place(index / 4, len / 4)
      modifies raw
      ensures raw[..] == Blyss.SetBits(old(raw[..]), index / 4, len / 4, value)
    {
      hide Shr, Byte, PutHigh, PutLow, SetFrom;
      ghost var a, n, d := index / 4, len / 4, 0;
      ghost var all := SetFrom(raw[..], a, value, 0, n);
      var i, at, c := index / 8, index, 0;
      while c < len
        invariant d <= n && c == 4 * d && at == 4 * (a + d) && (d < n ==> i == (a + d) / 2)
        invariant all == SetFrom(raw[..], a + d, value, d, n - d)
        decreases len - c
      {
        ghost var before := raw[..];
        Units(a + d, d, n);
        SetUnfold(before, a + d, value, d, n - d);
        if at % 8 == 0 && len - c >= 8 {
          raw[i] := Byte(Shr(value, c / 4));
          c := c + 8;
          at := at + 8;
          d := d + 2;
        } else {
          if at % 8 == 0 {
            raw[i] := PutHigh(raw[i], Shr(value, (len - c - 4) / 4));
          } else {
            raw[i] := PutLow(raw[i], Shr(value, (len - c - 4) / 4));
          }
          c := c + 4;
          at := at + 4;
          d := d + 1;
        }
        assert raw[..] == before[i := raw[i]];
        i := i + 1;
      }
      SetNone(raw[..], a + d, value, d);
    }

    /** `usGetBits`; index and len count bits. */
    method GetBits(index: nat, len: nat) returns (value: bv16)
      requires Valid() && index % 4 == 0 && len % 4 == 0 && Place(index / 4, len / 4)
      ensures value == Blyss.GetBits(raw[..], index / 4, len / 4)
    {
      hide Shl, Wide, Or, Hi, Lo, GetFrom;
      value := 0;
      ghost var a, n, d := index / 4, len / 4, 0;
      var i, at, c := index / 8, index, 0;
      while c < len
        invariant d <= n && c == 4 * d && at == 4 * (a + d) && (d < n ==> i == (a + d) / 2)
        invariant GetFrom(raw[..], a, 0, n) == GetFrom(raw[..], a + d, value, n - d)
        decreases len - c
      {
        Units(a + d, d, n);
        GetUnfold(raw[..], a + d, value, n - d);
        var rest := len - c;
        if at % 8 == 0 && rest >= 8 {
          value := Or(value, Shl(Wide(raw[i]), (rest - 8) / 4));
          c := c + 8;
          at := at + 8;
          d := d + 2;
        } else {
          var nibble := if at % 8 == 0 then Hi(raw[i]) else Lo(raw[i]);
          value := Or(value, Shl(Wide(nibble), (rest - 4) / 4));
          c := c + 4;
          at := at + 4;
          d := d + 1;
        }
        i := i + 1;
      }
      GetNone(raw[..], a + d, value);
    }

    /** Write one field. */
    method SetField(f: Field, value: bv16)
      requires Valid() && Fits(value, Size(f))
      modifies raw
      ensures raw[..] == Set(old(raw[..]), f, value)
      ensures forall g :: Field(g) == if g == f then value else old(Field(g))
    {
      hide Fits, Blyss.SetBits, Blyss.GetBits;
      FieldsApart(f, f);
      FieldSet(raw[..], f, value);
      SetBits(4 * Start(f), 4 * Size(f), value);
    }

    method GetField(f: Field) returns (value: bv16)
      requires Valid()
      ensures value == Field(f)
    {
      FieldsApart(f, f);
      value := GetBits(4 * Start(f), 4 * Size(f));
    }

    /** `xBlyssFrameNew`. */
    constructor (global: bv8, high: bv8, low: bv8)
      ensures Valid() && fresh(raw)
      ensures Field(Flag) == 0xFE && Field(GlobalChannel) == Wide(Lo(global)) && Field(Address) == Word(high, low)
      ensures Field(Channel) == 0 && Field(State) == 0 && Field(RollingCode) == 0 && Field(Token) == 0
    {
      hide Get, Fits;
      raw := new bv8[RAW_LEN](_ => 0);
      new;
      ZeroFields(raw[..]);
      FlagFits();
      SetField(Flag, FLAG);
      SetTxId(global, high, low);
    }

    /** `vBlyssFrameSetTxId`; of the first byte only the low nibble has room. */
    method SetTxId(global: bv8, high: bv8, low: bv8)
      requires Valid()
      modifies raw
      ensures forall g :: Field(g) == if g == GlobalChannel then Wide(Lo(global))
                          else if g == Address then Word(high, low) else old(Field(g))
    {
      SetGlobalChannel(global);
      SetAddress(Word(high, low));
    }

    /** `vBlyssFrameSetGlobalChannel`. */
    method SetGlobalChannel(channel: bv8)
      requires Valid()
      modifies raw
      ensures forall g :: Field(g) == if g == GlobalChannel then Wide(Lo(channel)) else old(Field(g))
    {
      hide Fits, Blyss.SetBits, Blyss.GetBits;
      ghost var before := raw[..];
      CutAtHigh(before, 2, channel);
      FieldSet(before, GlobalChannel, Wide(Lo(channel)));
      SetBits(INDEX_GCHAN, 4, Wide(channel));
      assert raw[..] == Set(before, GlobalChannel, Wide(Lo(channel)));
    }

    /** `vBlyssFrameSetAddress`. */
    method SetAddress(address: bv16)
      requires Valid()
      modifies raw
      ensures forall g :: Field(g) == if g == Address then address else old(Field(g))
    {
      SetField(Address, address);
    }

    /** `vBlyssFrameSetChannel`: the last channel of the table is refused. */
    method SetChannel(channel: nat)
      requires Valid()
      modifies raw
      ensures channel < 8 ==>
        forall g :: Field(g) == if g == Channel then [0, 8, 4, 2, 1, 3, 5, 6][channel] else old(Field(g))
      ensures channel >= 8 ==> raw[..] == old(raw[..])
    {
      if channel < |CHANNELS| - 1 {
        ChannelFits(channel);
        SetField(Channel, CHANNELS[channel]);
      }
    }

    /** `ucBlyssFrameChannel`. */
    method GetChannel() returns (channel: nat)
      requires Valid()
      ensures channel == DecodeChannel(Field(Channel), 0)
    {
      var v := GetField(Channel);
      channel := 0;
      while channel < |CHANNELS|
        invariant channel <= |CHANNELS| && DecodeChannel(v, 0) == DecodeChannel(v, channel)
      {
        if v == CHANNELS[channel] { return; }
        channel := channel + 1;
      }
      channel := NO_CHANNEL;
    }

    /** `vBlyssFrameSetState` and `bBlyssFrameState`: zero stands for on. */
    method SetState(state: bool)
      requires Valid()
      modifies raw
      ensures forall g :: Field(g) == if g == State then (if state then 0 else 1) else old(Field(g))
    {
      SetField(State, if state then 0 else 1);
    }

    method GetState() returns (state: bool)
      requires Valid()
      ensures state <==> Field(State) == 0
    {
      var v := GetField(State);
      state := v == 0;
    }

    /** `bBlyssFrameIsValid`. */
    method IsValid() returns (valid: bool)
      requires Valid()
      ensures valid <==> Field(Flag) == 0xFE && Field(RollingCode) in {0x98, 0xDA, 0x1E, 0xE6, 0x67}
    {
      FlagIsFirst(raw[..]);
      if Wide(raw[0]) == FLAG {
        var code := GetField(RollingCode);
        valid := false;
        for i := 0 to |BARREL|
          invariant code !in BARREL[..i]
        {
          if BARREL[i] == code { return true; }
        }
        assert BARREL[..|BARREL|] == BARREL;
      } else {
        valid := false;
      }
    }
  }

  /** Bits and nibbles. */
  lemma Units(k: nat, d: nat, n: nat)
    requires d < n
    ensures (4 * k) % 8 == 0 <==> k % 2 == 0
    ensures 4 * k / 8 == k / 2 && 4 * d / 4 == d && (4 * n - 4 * d - 4) / 4 == n - d - 1
    ensures d + 2 <= n ==> (4 * n - 4 * d - 8) / 4 == n - d - 2
    ensures (k + 2) / 2 == k / 2 + 1 && (k % 2 == 1 ==> (k + 1) / 2 == k / 2 + 1)
  {}

  /** One step of the writing loop. */
  lemma SetUnfold(raw: Raw, a: nat, value: bv16, done: nat, left: nat)
    requires 0 < left && a + left <= NIBBLES
    ensures SetFrom(raw, a, value, done, left) ==
      if a % 2 == 0 && left >= 2 then SetFrom(raw[a / 2 := Byte(Shr(value, done))], a + 2, value, done + 2, left - 2)
      else
        var x := if a % 2 == 0 then PutHigh(raw[a / 2], Shr(value, left - 1)) else PutLow(raw[a / 2], Shr(value, left - 1));
        SetFrom(raw[a / 2 := x], a + 1, value, done + 1, left - 1)
  {
    hide Shr, Byte, PutHigh, PutLow;
  }

  lemma SetNone(raw: Raw, a: nat, value: bv16, done: nat)
    requires a <= NIBBLES
    ensures SetFrom(raw, a, value, done, 0) == raw
  {}

  /** One step of the reading loop. */
  lemma GetUnfold(raw: Raw, a: nat, value: bv16, left: nat)
    requires 0 < left && a + left <= NIBBLES
    ensures GetFrom(raw, a, value, left) ==
      if a % 2 == 0 && left >= 2 then GetFrom(raw, a + 2, Or(value, Shl(Wide(raw[a / 2]), left - 2)), left - 2)
      else
        var x := if a % 2 == 0 then Hi(raw[a / 2]) else Lo(raw[a / 2]);
        GetFrom(raw, a + 1, Or(value, Shl(Wide(x), left - 1)), left - 1)
  {
    hide Shl, Wide, Or, Hi, Lo;
  }

  lemma GetNone(raw: Raw, a: nat, value: bv16)
    requires a <= NIBBLES
    ensures GetFrom(raw, a, value, 0) == value
  {}

  /** Two bytes as one word. */
  function Word(high: bv8, low: bv8): bv16 { (Wide(high) << 8) | Wide(low) }

  lemma FlagFits()
    ensures Fits(FLAG, Size(Flag))
  {}

  lemma ZeroFields(raw: Raw)
    requires forall i :: 0 <= i < RAW_LEN ==> raw[i] == 0
    ensures forall f :: Get(raw, f) == 0
  {
    hide Nibbles, Joined, GetFrom, Or, Shl, Wide;
    forall f
      ensures Get(raw, f) == 0
    {
      FieldsApart(f, f);
      var s := Nibbles(raw, Start(f), Size(f));
      GetJoins(raw, Start(f), 0, Size(f));
      ZeroNibbles(raw, Start(f), Size(f));
      JoinedFour(s, 0);
      JoinZeros();
    }
  }

  lemma ZeroNibbles(raw: Raw, a: nat, n: nat)
    requires a + n <= NIBBLES && forall i :: 0 <= i < RAW_LEN ==> raw[i] == 0
    ensures forall i :: 0 <= i < n ==> Nibbles(raw, a, n)[i] == 0
  {
    forall i | 0 <= i < n
      ensures Nibbles(raw, a, n)[i] == 0
    {
      ZeroNibble(raw, a + i);
    }
  }

  lemma ZeroNibble(raw: Raw, k: nat)
    requires k < NIBBLES && forall i :: 0 <= i < RAW_LEN ==> raw[i] == 0
    ensures Nibble(raw, k) == 0
  {
    assert raw[k / 2] == 0;
  }

  lemma JoinZeros()
    ensures forall k :: 0 <= k <= 3 ==> Or(0, Shl(Wide(0), k)) == 0
  {}

  lemma ChannelFits(channel: nat)
    requires channel < |CHANNELS|
    ensures Fits(CHANNELS[channel], 1)
  {}

  lemma FlagIsFirst(raw: Raw)
    ensures Get(raw, Flag) == Wide(raw[0])
  {}

  /** A value too wide for a high nibble is cut. */
  lemma CutAtHigh(raw: Raw, a: nat, v: bv8)
    requires Place(a, 1) && a % 2 == 0
    ensures Blyss.SetBits(raw, a, 1, Wide(v)) == Blyss.SetBits(raw, a, 1, Wide(Lo(v))) && Fits(Wide(Lo(v)), 1)
  {
    CutBits(raw[a / 2], v);
  }

  lemma CutBits(b: bv8, v: bv8)
    ensures PutHigh(b, Wide(v)) == PutHigh(b, Wide(Lo(v)))
  {}

  // ---------------------------------------------------------------- the remote control

  class Remote {
    var out: bool
    var lastToken: bv8
    var rollIdx: nat

    /** The pulses put on the line. */
    var line: seq<Pulse>

    predicate Valid()
      reads this
    {
      rollIdx < |BARREL|
    }

    function Sender(): Sender
      reads this
    {
      Blyss.Sender(rollIdx, lastToken)
    }

    /** `xBlyssNew`, from a random number. */
    constructor (out: bool, random: bv8)
      ensures Valid() && this.out == out && Sender() == Blyss.Sender(0, random) && line == []
    {
      this.out, lastToken, rollIdx, line := out, random, 0, [];
    }

    /** `iSendBit`. */
    method SendBit(bit: bool)
      modifies `line
      ensures line == old(line) + BitPulses(bit)
    {
      line := line + [Pulse(false, if bit then T1 else T2)];
      line := line + [Pulse(true, if bit then T2 else T1)];
    }

    /** `iSendFrame`. */
    method SendFrame(f: Frame)
      requires f.Valid()
      modifies `line
      ensures line == old(line) + FramePulses(f.raw[..])
    {
      hide MaskAt, Pulses, BitPulses, SentBits, Has;
      ghost var bits := SentBits(f.raw[..]);
      line := line + [Pulse(true, HEADER_TIME)];
      ghost var start := line;
      var mask: bv8, byte: bv8 := 0, 0;
      NoPulses();
      for i := 0 to NOF_BITS
        invariant OnBit(f.raw[..], i, mask, byte)
        invariant line == start + Pulses(bits[..i])
      {
        OnBitStart(f.raw[..], i, mask, byte);
        if mask == 0 {
          mask := 0x80;
          byte := f.raw[i / 8];
        }
        OnBitNext(f.raw[..], i, mask, byte);
        PulsesStep(bits, i);
        SendBit(byte & mask != 0);
        mask := mask >> 1;
      }
      assert bits[..NOF_BITS] == bits;
      line := line + [Pulse(false, FOOTER_TIME)];
    }

    /** `vSetRollingCode`. */
    method SetRollingCode(f: Frame)
      requires Valid() && f.Valid()
      modifies `rollIdx, f.raw
      ensures Valid() && rollIdx == Next(old(Sender())).rollIdx
      ensures f.raw[..] == Set(old(f.raw[..]), RollingCode, BARREL[old(rollIdx)])
    {
      hide Fits, Set, Get;
      Codes();
      f.SetField(RollingCode, BARREL[rollIdx]);
      rollIdx := rollIdx + 1;
      if rollIdx >= |BARREL| { rollIdx := 0; }
    }

    /** `vSetToken`. */
    method SetToken(f: Frame)
      requires f.Valid()
      modifies `lastToken, f.raw
      ensures lastToken == old(lastToken) + 10
      ensures f.raw[..] == Set(old(f.raw[..]), Token, Wide(old(lastToken)))
    {
      hide Fits, Set, Get, Wide;
      Codes();
      f.SetField(Token, Wide(lastToken));
      lastToken := lastToken + 10;
    }

    /** The two stamps of a transmission. */
    method Stamp(f: Frame)
      requires Valid() && f.Valid()
      modifies `rollIdx, `lastToken, f.raw
      ensures Valid() && Sender() == Next(old(Sender())) && f.raw[..] == Stamped(old(f.raw[..]), old(Sender()))
    {
      hide Set, Wide;
      SetRollingCode(f);
      SetToken(f);
    }

    /** `iBlyssSend`. */
    method Send(f: Frame, repeat: nat)
      requires Valid() && f.Valid()
      modifies this, f.raw
      ensures Valid() && out == old(out)
      ensures !out ==> Sender() == old(Sender()) && f.raw[..] == old(f.raw[..]) && line == old(line)
      ensures out ==>
        && Sender() == Next(old(Sender())) && f.raw[..] == Stamped(old(f.raw[..]), old(Sender()))
        && line == old(line) + Repeated(FramePulses(f.raw[..]), repeat)
    {
      hide FramePulses, Stamped, Next;
      if out {
        Stamp(f);
        var left := repeat;
        while left > 0
          invariant 0 <= left <= repeat && Valid() && out == old(out)
          invariant Sender() == Next(old(Sender())) && f.raw[..] == Stamped(old(f.raw[..]), old(Sender()))
          invariant line == old(line) + Repeated(FramePulses(f.raw[..]), repeat - left)
        {
          left := left - 1;
          SendFrame(f);
        }
      }
    }
  }

  function Repeated(s: seq<Pulse>, n: nat): seq<Pulse> {
    if n == 0 then [] else Repeated(s, n - 1) + s
  }

  lemma NoPulses()
    ensures Pulses([]) == []
  {}

  lemma PulsesStep(bits: seq<bool>, i: nat)
    requires i < |bits|
    ensures Pulses(bits[..i + 1]) == Pulses(bits[..i]) + BitPulses(bits[i])
  {
    assert bits[..i + 1][..i] == bits[..i];
  }

  /** The sender's byte and mask before bit i: the mask is zero before each new byte. */
  predicate OnBit(raw: Raw, i: nat, mask: bv8, byte: bv8)
    requires i <= NOF_BITS
  {
    if i % 8 == 0 then mask == 0 else mask == MaskAt(i % 8) && byte == raw[i / 8]
  }

  /** A new byte is due exactly when the mask is zero. */
  lemma OnBitStart(raw: Raw, i: nat, mask: bv8, byte: bv8)
    requires i < NOF_BITS && OnBit(raw, i, mask, byte)
    ensures mask == 0 <==> i % 8 == 0
    ensures mask == 0 ==> MaskAt(i % 8) == 0x80
    ensures mask != 0 ==> mask == MaskAt(i % 8) && byte == raw[i / 8]
  {
    hide MaskAt;
    MaskEnds(i % 8);
  }

  lemma NextBit(i: nat)
    ensures if (i + 1) % 8 == 0 then i % 8 == 7 else (i + 1) % 8 == i % 8 + 1 && (i + 1) / 8 == i / 8
  {}

  lemma NextMask(j: nat)
    ensures MaskAt(j) >> 1 == MaskAt(j + 1) && MaskAt(8) == 0
  {
    MaskEnds(8);
  }

  /** With the byte and the mask of bit i, that bit is sent and the mask moves on. */
  lemma OnBitNext(raw: Raw, i: nat, mask: bv8, byte: bv8)
    requires i < NOF_BITS && mask == MaskAt(i % 8) && byte == raw[i / 8]
    ensures SentBits(raw)[i] == (byte & mask != 0)
    ensures OnBit(raw, i + 1, mask >> 1, byte)
  {
    hide MaskAt;
    NextBit(i);
    NextMask(i % 8);
  }
}
