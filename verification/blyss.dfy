/**
 The frames of Blyss remote controls: 13 nibbles packed into seven bytes by `vSetBits` and taken out
 again by `usGetBits`, which work on whole nibbles, byte by byte where they can.  Places and lengths
 are counted in nibbles here; the methods of module BlyssPort count bits, as the source does.
 */
module Blyss {
  const RAW_LEN := 7
  const NIBBLES := 14

  type Raw = r: seq<bv8> | |r| == RAW_LEN witness [0, 0, 0, 0, 0, 0, 0]

  // ---------------------------------------------------------------- bits

  /** A value shifted by n nibbles. */
  function Shr(v: bv16, n: nat): bv16 {
    if n == 0 then v else if n == 1 then v >> 4 else if n == 2 then v >> 8 else if n == 3 then v >> 12 else 0
  }

  function Shl(v: bv16, n: nat): bv16 {
    if n == 0 then v else if n == 1 then v << 4 else if n == 2 then v << 8 else if n == 3 then v << 12 else 0
  }

  /** A value cut to one byte. */
  function Byte(v: bv16): bv8 { (v & 0xFF) as bv8 }

  function Wide(b: bv8): bv16 { b as bv16 }

  function Or(a: bv16, b: bv16): bv16 { a | b }

  function Hi(b: bv8): bv8 { b >> 4 }

  function Lo(b: bv8): bv8 { b & 0x0F }

  /** A byte with its high or its low nibble replaced; a value too wide for the low nibble spills over. */
  function PutHigh(b: bv8, v: bv16): bv8 { (b & 0x0F) | Byte(v << 4) }

  function PutLow(b: bv8, v: bv16): bv8 { (b & 0xF0) | Byte(v) }

  // ---------------------------------------------------------------- the two loops

  /** Nibbles from place a on, n of them, that lie in the frame and make a value. */
  predicate Place(a: nat, n: nat) { 1 <= n <= 4 && a + n <= NIBBLES }

  /** The loop of `vSetBits`, with `left` nibbles to go and `done` of them done. */
  function SetFrom(raw: Raw, a: nat, value: bv16, done: nat, left: nat): Raw
    requires a + left <= NIBBLES
    decreases left
  {
    if left == 0 then raw
    else if a % 2 == 0 && left >= 2 then SetFrom(raw[a / 2 := Byte(Shr(value, done))], a + 2, value, done + 2, left - 2)
    else if a % 2 == 0 then raw[a / 2 := PutHigh(raw[a / 2], Shr(value, left - 1))]
    else SetFrom(raw[a / 2 := PutLow(raw[a / 2], Shr(value, left - 1))], a + 1, value, done + 1, left - 1)
  }

  function SetBits(raw: Raw, a: nat, n: nat, value: bv16): Raw
    requires Place(a, n)
  {
    SetFrom(raw, a, value, 0, n)
  }

  /** The loop of `usGetBits`, with `left` nibbles to go. */
  function GetFrom(raw: Raw, a: nat, value: bv16, left: nat): bv16
    requires a + left <= NIBBLES
    decreases left
  {
    if left == 0 then value
    else if a % 2 == 0 && left >= 2 then GetFrom(raw, a + 2, Or(value, Shl(Wide(raw[a / 2]), left - 2)), left - 2)
    else if a % 2 == 0 then Or(value, Shl(Wide(Hi(raw[a / 2])), left - 1))
    else GetFrom(raw, a + 1, Or(value, Shl(Wide(Lo(raw[a / 2])), left - 1)), left - 1)
  }

  function GetBits(raw: Raw, a: nat, n: nat): bv16
    requires Place(a, n)
  {
    GetFrom(raw, a, 0, n)
  }

  // ---------------------------------------------------------------- nibbles

  /** The k-th nibble of a frame, in the order of transmission. */
  function Nibble(raw: Raw, k: nat): bv8
    requires k < NIBBLES
  {
    if k % 2 == 0 then Hi(raw[k / 2]) else Lo(raw[k / 2])
  }

  /** The nibble of a value that has r nibbles after it. */
  function Digit(value: bv16, r: nat): bv8 { Lo(Byte(Shr(value, r))) }

  predicate Fits(value: bv16, n: nat) {
    (n <= 1 ==> value < 0x10) && (n <= 2 ==> value < 0x100) && (n <= 3 ==> value < 0x1000)
  }

  /** Nibbles put together, most significant first, below a value. */
  function Joined(nibbles: seq<bv8>, value: bv16): bv16
    decreases |nibbles|
  {
    if nibbles == [] then value
    else Joined(nibbles[1..], Or(value, Shl(Wide(nibbles[0]), |nibbles| - 1)))
  }

  /** The n nibbles of a frame from place a on. */
  function Nibbles(raw: Raw, a: nat, n: nat): (s: seq<bv8>)
    requires a + n <= NIBBLES
    ensures |s| == n
  {
    seq(n, i requires 0 <= i < n => Nibble(raw, a + i))
  }

  function Digits(value: bv16, n: nat): (s: seq<bv8>)
    ensures |s| == n
  {
    seq(n, i requires 0 <= i < n => Digit(value, n - 1 - i))
  }

  // ---------------------------------------------------------------- reading

  lemma ByteSplit(v: bv16, b: bv8, n: nat)
    requires n <= 2
    ensures Or(v, Shl(Wide(b), n)) == Or(Or(v, Shl(Wide(Hi(b)), n + 1)), Shl(Wide(Lo(b)), n))
  {
    if n == 0 {
      assert Wide(b) == (Wide(Hi(b)) << 4) | Wide(Lo(b));
    } else if n == 1 {
      assert Wide(b) << 4 == (Wide(Hi(b)) << 8) | (Wide(Lo(b)) << 4);
    } else {
      assert Wide(b) << 8 == (Wide(Hi(b)) << 12) | (Wide(Lo(b)) << 8);
    }
  }

  lemma JoinedStep(raw: Raw, a: nat, n: nat, value: bv16)
    requires a + n <= NIBBLES
    ensures n == 0 ==> Joined(Nibbles(raw, a, n), value) == value
    ensures n > 0 ==>
      Joined(Nibbles(raw, a, n), value) == Joined(Nibbles(raw, a + 1, n - 1), Or(value, Shl(Wide(Nibble(raw, a)), n - 1)))
  {
    hide Or, Shl, Wide, Nibble;
    if n > 0 { assert Nibbles(raw, a, n)[1..] == Nibbles(raw, a + 1, n - 1); }
  }

  lemma NibblesOfByte(raw: Raw, a: nat)
    requires a < NIBBLES
    ensures a % 2 == 0 ==> Nibble(raw, a) == Hi(raw[a / 2]) && Nibble(raw, a + 1) == Lo(raw[a / 2])
    ensures a % 2 == 1 ==> Nibble(raw, a) == Lo(raw[a / 2])
  {}

  /** A whole byte joined is its two nibbles joined. */
  lemma JoinedByte(raw: Raw, a: nat, n: nat, value: bv16)
    requires a % 2 == 0 && 2 <= n <= 4 && a + n <= NIBBLES
    ensures Joined(Nibbles(raw, a, n), value)
      == Joined(Nibbles(raw, a + 2, n - 2), Or(value, Shl(Wide(raw[a / 2]), n - 2)))
  {
    hide Or, Shl, Wide, Hi, Lo, Joined, Nibbles, Nibble;
    var v := Or(value, Shl(Wide(Nibble(raw, a)), n - 1));
    JoinedStep(raw, a, n, value);
    JoinedStep(raw, a + 1, n - 1, v);
    NibblesOfByte(raw, a);
    ByteSplit(value, raw[a / 2], n - 2);
  }

  /** `usGetBits` joins the nibbles, at any place. */
  lemma {:induction false} GetJoins(raw: Raw, a: nat, value: bv16, left: nat)
    requires left <= 4 && a + left <= NIBBLES
    ensures GetFrom(raw, a, value, left) == Joined(Nibbles(raw, a, left), value)
    decreases left
  {
    hide Or, Shl, Wide, Hi, Lo, Joined, Nibbles, Nibble;
    if left == 0 {
      JoinedStep(raw, a, left, value);
    } else if a % 2 == 0 && left >= 2 {
      JoinedByte(raw, a, left, value);
      GetJoins(raw, a + 2, Or(value, Shl(Wide(raw[a / 2]), left - 2)), left - 2);
    } else {
      var v := Or(value, Shl(Wide(Nibble(raw, a)), left - 1));
      NibblesOfByte(raw, a);
      JoinedStep(raw, a, left, value);
      GetJoins(raw, a + 1, v, left - 1);
    }
  }

  lemma DigitsJoinedBits(v: bv16)
    ensures Or(Or(Or(Or(0, Shl(Wide(Digit(v, 3)), 3)), Shl(Wide(Digit(v, 2)), 2)), Shl(Wide(Digit(v, 1)), 1)),
               Shl(Wide(Digit(v, 0)), 0)) == v
    ensures v < 0x1000 ==>
      Or(Or(Or(0, Shl(Wide(Digit(v, 2)), 2)), Shl(Wide(Digit(v, 1)), 1)), Shl(Wide(Digit(v, 0)), 0)) == v
    ensures v < 0x100 ==> Or(Or(0, Shl(Wide(Digit(v, 1)), 1)), Shl(Wide(Digit(v, 0)), 0)) == v
    ensures v < 0x10 ==> Or(0, Shl(Wide(Digit(v, 0)), 0)) == v
  {}

  lemma {:induction false} JoinedFour(s: seq<bv8>, v: bv16)
    requires |s| <= 4
    ensures |s| == 1 ==> Joined(s, v) == Or(v, Shl(Wide(s[0]), 0))
    ensures |s| == 2 ==> Joined(s, v) == Or(Or(v, Shl(Wide(s[0]), 1)), Shl(Wide(s[1]), 0))
    ensures |s| == 3 ==> Joined(s, v) == Or(Or(Or(v, Shl(Wide(s[0]), 2)), Shl(Wide(s[1]), 1)), Shl(Wide(s[2]), 0))
    ensures |s| == 4 ==>
      Joined(s, v) == Or(Or(Or(Or(v, Shl(Wide(s[0]), 3)), Shl(Wide(s[1]), 2)), Shl(Wide(s[2]), 1)), Shl(Wide(s[3]), 0))
    decreases |s|
  {
    hide Or, Shl, Wide;
    if |s| > 1 {
      JoinedFour(s[1..], Or(v, Shl(Wide(s[0]), |s| - 1)));
    }
  }

  /** The digits of a value that fits give the value. */
  lemma DigitsJoined(value: bv16, n: nat)
    requires 1 <= n <= 4 && Fits(value, n)
    ensures Joined(Digits(value, n), 0) == value
  {
    hide Or, Shl, Wide, Digit;
    DigitsJoinedBits(value);
    JoinedFour(Digits(value, n), 0);
  }

  // ---------------------------------------------------------------- writing

  /** Every whole byte that `vSetBits` copies has as many nibbles of the value after it as before it. */
  predicate Copies(a: nat, done: nat, left: nat)
    decreases left
  {
    left == 0
    || (if a % 2 == 0 && left >= 2 then done == left - 2 && Copies(a + 2, done + 2, left - 2)
        else Copies(a + 1, done + 1, left - 1))
  }

  lemma CopiesIff(a: nat, n: nat)
    requires 1 <= n <= 4
    ensures Copies(a, 0, n) <==> n <= 2 || (n == 4 && a % 2 == 1)
  {
    if n == 3 {
      assert a % 2 == 1 ==> !Copies(a + 1, 1, 2);
    }
    if n == 4 && a % 2 == 1 {
      assert Copies(a + 3, 3, 1);
      assert Copies(a + 1, 1, 3);
    }
  }

  /** A frame r whose nibbles from place a up to place b are the last digits of the value, and the others those of raw. */
  ghost predicate Replaced(raw: Raw, r: Raw, value: bv16, a: nat, b: nat) {
    forall k :: 0 <= k < NIBBLES ==> Nibble(r, k) == if a <= k < b then Digit(value, b - 1 - k) else Nibble(raw, k)
  }

  lemma PutNibbles(b: bv8, v: bv16)
    ensures Hi(PutHigh(b, v)) == Lo(Byte(v)) && Lo(PutHigh(b, v)) == Lo(b)
    ensures v < 0x10 ==> Lo(PutLow(b, v)) == Lo(Byte(v)) && Hi(PutLow(b, v)) == Hi(b)
  {}

  lemma ByteNibbles(value: bv16, n: nat)
    requires n <= 2
    ensures Hi(Byte(Shr(value, n))) == Digit(value, n + 1) && Lo(Byte(Shr(value, n))) == Digit(value, n)
  {}

  lemma FirstDigit(value: bv16, n: nat)
    requires 1 <= n <= 4 && Fits(value, n)
    ensures Shr(value, n - 1) < 0x10
  {}

  lemma ChangedByte(raw: Raw, i: nat, b: bv8, k: nat)
    requires i < RAW_LEN && k < NIBBLES
    ensures Nibble(raw[i := b], k) == if k == 2 * i then Hi(b) else if k == 2 * i + 1 then Lo(b) else Nibble(raw, k)
  {
    hide Hi, Lo;
  }

  /** One step of the loop: one nibble or two. */
  lemma StepReplaces(raw: Raw, r: Raw, i: nat, x: bv8, value: bv16, a: nat, m: nat, b: nat)
    requires i < RAW_LEN && r == raw[i := x] && i == a / 2 && a < m <= b <= NIBBLES && m <= 2 * i + 2
    requires if a == 2 * i then Hi(x) == Digit(value, b - 1 - a) else Hi(x) == Hi(raw[i])
    requires if m == 2 * i + 2 then Lo(x) == Digit(value, b - m) else Lo(x) == Lo(raw[i])
    ensures forall k :: 0 <= k < NIBBLES ==> Nibble(r, k) == if a <= k < m then Digit(value, b - 1 - k) else Nibble(raw, k)
  {
    hide Hi, Lo, Digit, Nibble;
    forall k | 0 <= k < NIBBLES
      ensures Nibble(r, k) == if a <= k < m then Digit(value, b - 1 - k) else Nibble(raw, k)
    {
      ChangedByte(raw, i, x, k);
      NibblesOfByte(raw, k);
    }
  }

  /** `vSetBits` replaces the nibbles of its place by the digits of the value, and no others. */
  lemma {:induction false} SetReplaces(raw: Raw, a: nat, value: bv16, done: nat, left: nat)
    requires done + left <= 4 && a + left <= NIBBLES
    requires done == 0 || a % 2 == 0
    requires Fits(value, done + left) && Copies(a, done, left)
    ensures Replaced(raw, SetFrom(raw, a, value, done, left), value, a, a + left)
    decreases left
  {
    hide Hi, Lo, Byte, Shr, PutHigh, PutLow, Nibble, Digit, Fits;
    var i, b := a / 2, a + left;
    if left > 0 {
      PutNibbles(raw[i], Shr(value, left - 1));
      assert Digit(value, left - 1) == Lo(Byte(Shr(value, left - 1))) by { DigitIs(value, left - 1); }
      if a % 2 == 0 && left >= 2 {
        var x := Byte(Shr(value, done));
        ByteNibbles(value, done);
        StepReplaces(raw, raw[i := x], i, x, value, a, a + 2, b);
        SetReplaces(raw[i := x], a + 2, value, done + 2, left - 2);
      } else if a % 2 == 0 {
        var x := PutHigh(raw[i], Shr(value, 0));
        StepReplaces(raw, raw[i := x], i, x, value, a, a + 1, b);
      } else {
        var x := PutLow(raw[i], Shr(value, left - 1));
        FirstDigit(value, left);
        StepReplaces(raw, raw[i := x], i, x, value, a, a + 1, b);
        SetReplaces(raw[i := x], a + 1, value, done + 1, left - 1);
      }
    }
  }

  lemma DigitIs(value: bv16, r: nat)
    ensures Digit(value, r) == Lo(Byte(Shr(value, r)))
  {}

  // ---------------------------------------------------------------- reading what was written

  lemma {:induction false} SameNibbles(r: Raw, raw: Raw, a: nat, n: nat)
    requires Place(a, n) && forall k :: a <= k < a + n ==> Nibble(r, k) == Nibble(raw, k)
    ensures GetBits(r, a, n) == GetBits(raw, a, n)
  {
    hide Nibble, Joined;
    GetJoins(r, a, 0, n);
    GetJoins(raw, a, 0, n);
    assert Nibbles(r, a, n) == Nibbles(raw, a, n);
  }

  /** Reading gives the value written, and at every place apart from it what was there before. */
  lemma GetAfterSet(raw: Raw, a: nat, n: nat, value: bv16, a': nat, n': nat)
    requires Place(a, n) && Place(a', n') && Fits(value, n) && Copies(a, 0, n)
    requires a' + n' <= a || a + n <= a'
    ensures GetBits(SetBits(raw, a, n, value), a, n) == value
    ensures GetBits(SetBits(raw, a, n, value), a', n') == GetBits(raw, a', n')
  {
    hide Nibble, Joined, Digit, GetFrom, SetFrom, Fits;
    var r := SetBits(raw, a, n, value);
    SetReplaces(raw, a, value, 0, n);
    GetJoins(r, a, 0, n);
    assert Nibbles(r, a, n) == Digits(value, n);
    DigitsJoined(value, n);
    SameNibbles(r, raw, a', n');
  }

  ghost predicate RoundTrips(a: nat, n: nat)
    requires Place(a, n)
  {
    forall raw: Raw, value :: Fits(value, n) ==> GetBits(SetBits(raw, a, n, value), a, n) == value
  }

  /**
   The two loops undo each other exactly for one and two nibbles, and for four at an odd place; the
   frame's fields are all of these.  Three nibbles, or four at an even place, come back disordered.
   */
  lemma RoundTripIff(a: nat, n: nat)
    requires Place(a, n)
    ensures RoundTrips(a, n) <==> n <= 2 || (n == 4 && a % 2 == 1)
  {
    hide Fits, GetBits, SetBits;
    CopiesIff(a, n);
    if n <= 2 || (n == 4 && a % 2 == 1) {
      forall raw: Raw, value | Fits(value, n)
        ensures GetBits(SetBits(raw, a, n, value), a, n) == value
      {
        if a >= 1 { GetAfterSet(raw, a, n, value, 0, 1); } else { GetAfterSet(raw, a, n, value, NIBBLES - 1, 1); }
      }
    } else {
      Disordered(a, n);
    }
  }

  lemma Disordered(a: nat, n: nat)
    requires Place(a, n) && (n == 3 || (n == 4 && a % 2 == 0))
    ensures Fits(0x100, n) && exists raw: Raw :: GetBits(SetBits(raw, a, n, 0x100), a, n) != 0x100
  {
    var raw: Raw := [0, 0, 0, 0, 0, 0, 0];
    var r := SetBits(raw, a, n, 0x100);
    assert GetBits(r, a, n) != 0x100;
  }

  // ---------------------------------------------------------------- the fields of a frame

  datatype Field = Flag | GlobalChannel | Address | Channel | State | RollingCode | Token

  // Where the fields start, in bits.
  const INDEX_FLAG := 0
  const INDEX_GCHAN := 8
  const INDEX_ADDR := 12
  const INDEX_CHAN := 28
  const INDEX_STATE := 32
  const INDEX_ROLL := 36
  const INDEX_TOKEN := 44

  /** Where a field starts, and how many nibbles it has. */
  function Start(f: Field): nat {
    match f
    case Flag => INDEX_FLAG / 4
    case GlobalChannel => INDEX_GCHAN / 4
    case Address => INDEX_ADDR / 4
    case Channel => INDEX_CHAN / 4
    case State => INDEX_STATE / 4
    case RollingCode => INDEX_ROLL / 4
    case Token => INDEX_TOKEN / 4
  }

  function Size(f: Field): nat {
    match f
    case Flag => 2
    case GlobalChannel => 1
    case Address => 4
    case Channel => 1
    case State => 1
    case RollingCode => 2
    case Token => 2
  }

  lemma FieldsApart(f: Field, g: Field)
    ensures Place(Start(f), Size(f)) && Start(f) + Size(f) <= 13 && Copies(Start(f), 0, Size(f))
    ensures f != g ==> Start(g) + Size(g) <= Start(f) || Start(f) + Size(f) <= Start(g)
  {
    CopiesIff(Start(f), Size(f));
  }

  function Get(raw: Raw, f: Field): bv16 {
    GetBits(raw, Start(f), Size(f))
  }

  function Set(raw: Raw, f: Field, value: bv16): Raw {
    SetBits(raw, Start(f), Size(f), value)
  }

  /** Setting a field to a value that fits makes it that value, and leaves the six others as they are. */
  lemma FieldSet(raw: Raw, f: Field, value: bv16)
    requires Fits(value, Size(f))
    ensures forall g :: Get(Set(raw, f, value), g) == if g == f then value else Get(raw, g)
  {
    hide GetBits, SetBits, Fits, Start, Size, Copies, Place;
    forall g
      ensures Get(Set(raw, f, value), g) == if g == f then value else Get(raw, g)
    {
      FieldsApart(f, g);
      FieldsApart(g, f);
      if g != f {
        GetAfterSet(raw, Start(f), Size(f), value, Start(g), Size(g));
      } else {
        RoundTripIff(Start(f), Size(f));
        CopiesIff(Start(f), Size(f));
      }
    }
  }

  // ---------------------------------------------------------------- the bits on the line

  /** The mask of `iSendFrame` for the j-th bit of a byte; zero after the eighth. */
  function MaskAt(j: nat): bv8 { if j == 0 then 0x80 else MaskAt(j - 1) >> 1 }

  lemma MaskEnds(j: nat)
    requires j <= 8
    ensures MaskAt(j) == 0 <==> j == 8
    ensures j < 8 ==> MaskAt(j) == [0x80, 0x40, 0x20, 0x10, 0x08, 0x04, 0x02, 0x01][j]
  {
    assert MaskAt(0) == 0x80 && MaskAt(1) == 0x40 && MaskAt(2) == 0x20 && MaskAt(3) == 0x10;
    assert MaskAt(4) == 0x08 && MaskAt(5) == 0x04 && MaskAt(6) == 0x02 && MaskAt(7) == 0x01 && MaskAt(8) == 0;
  }

  const NOF_BITS := 52

  /** Whether a byte has the bit of a mask. */
  predicate Has(b: bv8, mask: bv8) { b & mask != 0 }

  function BitAt(raw: Raw, i: nat): bool
    requires i < 8 * RAW_LEN
  {
    Has(raw[i / 8], MaskAt(i % 8))
  }

  /** The bits of a frame in the order they are sent. */
  function SentBits(raw: Raw): (s: seq<bool>)
    ensures |s| == NOF_BITS
  {
    seq(NOF_BITS, i requires 0 <= i < NOF_BITS => BitAt(raw, i))
  }

  /** The four bits of a nibble, and the bits of a value of n nibbles, most significant first. */
  function NibbleBit(n: bv8, j: nat): bool {
    n & (if j == 0 then 8 else if j == 1 then 4 else if j == 2 then 2 else 1) != 0
  }

  function ValueBits(value: bv16, n: nat): (s: seq<bool>)
    ensures |s| == 4 * n
  {
    seq(4 * n, i requires 0 <= i < 4 * n => NibbleBit(Digit(value, n - 1 - i / 4), i % 4))
  }

  lemma HalfBits(b: bv8)
    ensures b & 0x80 != 0 <==> NibbleBit(Hi(b), 0)
    ensures b & 0x40 != 0 <==> NibbleBit(Hi(b), 1)
    ensures b & 0x20 != 0 <==> NibbleBit(Hi(b), 2)
    ensures b & 0x10 != 0 <==> NibbleBit(Hi(b), 3)
    ensures b & 0x08 != 0 <==> NibbleBit(Lo(b), 0)
    ensures b & 0x04 != 0 <==> NibbleBit(Lo(b), 1)
    ensures b & 0x02 != 0 <==> NibbleBit(Lo(b), 2)
    ensures b & 0x01 != 0 <==> NibbleBit(Lo(b), 3)
  {}

  lemma BitOfByte(b: bv8, j: nat)
    requires j < 8
    ensures Has(b, MaskAt(j)) <==> NibbleBit(if j < 4 then Hi(b) else Lo(b), j % 4)
  {
    hide NibbleBit, Hi, Lo;
    MaskEnds(j);
    HalfBits(b);
  }

  /** The bits are sent nibble by nibble. */
  lemma BitOfNibble(raw: Raw, i: nat)
    requires i < 4 * NIBBLES
    ensures BitAt(raw, i) <==> NibbleBit(Nibble(raw, i / 4), i % 4)
  {
    hide MaskAt, NibbleBit, Hi, Lo;
    BitOfByte(raw[i / 8], i % 8);
    assert i % 8 < 4 <==> i / 4 % 2 == 0;
  }

  /** The digits of four nibbles joined; fewer nibbles are four with zeros in front. */
  function JoinFour(a: bv8, b: bv8, c: bv8, d: bv8): bv16 {
    Or(Or(Or(Or(0, Shl(Wide(a), 3)), Shl(Wide(b), 2)), Shl(Wide(c), 1)), Shl(Wide(d), 0))
  }

  lemma JoinZero()
    ensures Or(0, Shl(Wide(0), 3)) == 0 && Or(0, Shl(Wide(0), 2)) == 0 && Or(0, Shl(Wide(0), 1)) == 0
  {}

  lemma DigitsHigh(a: bv8, b: bv8, c: bv8, d: bv8)
    requires a < 16 && b < 16 && c < 16 && d < 16
    ensures Digit(JoinFour(a, b, c, d), 3) == a && Digit(JoinFour(a, b, c, d), 2) == b
  {}

  lemma DigitsLow(a: bv8, b: bv8, c: bv8, d: bv8)
    requires a < 16 && b < 16 && c < 16 && d < 16
    ensures Digit(JoinFour(a, b, c, d), 1) == c && Digit(JoinFour(a, b, c, d), 0) == d
  {}

  lemma JoinedDigitsBits(a: bv8, b: bv8, c: bv8, d: bv8)
    requires a < 16 && b < 16 && c < 16 && d < 16
    ensures var v := Or(Or(Or(Or(0, Shl(Wide(a), 3)), Shl(Wide(b), 2)), Shl(Wide(c), 1)), Shl(Wide(d), 0));
      Digit(v, 3) == a && Digit(v, 2) == b && Digit(v, 1) == c && Digit(v, 0) == d
    ensures var v := Or(Or(0, Shl(Wide(c), 1)), Shl(Wide(d), 0)); Digit(v, 1) == c && Digit(v, 0) == d
    ensures Digit(Or(0, Shl(Wide(d), 0)), 0) == d
  {
    hide Or, Shl, Wide, Digit;
    JoinZero();
    DigitsHigh(a, b, c, d);
    DigitsLow(a, b, c, d);
    DigitsLow(0, 0, c, d);
    DigitsLow(0, 0, 0, d);
  }

  lemma NibbleSmall(raw: Raw, k: nat)
    requires k < NIBBLES
    ensures Nibble(raw, k) < 16
  {}

  /** The digits of one, two or four nibbles joined are the nibbles. */
  lemma DigitsOfJoined(s: seq<bv8>)
    requires |s| == 1 || |s| == 2 || |s| == 4
    requires forall i :: 0 <= i < |s| ==> s[i] < 16
    ensures forall i :: 0 <= i < |s| ==> Digit(Joined(s, 0), |s| - 1 - i) == s[i]
  {
    hide Or, Shl, Wide, Digit, Joined;
    JoinedFour(s, 0);
    if |s| == 4 {
      JoinedDigitsBits(s[0], s[1], s[2], s[3]);
    } else if |s| == 2 {
      JoinedDigitsBits(0, 0, s[0], s[1]);
    } else {
      JoinedDigitsBits(0, 0, 0, s[0]);
    }
  }

  /** The digits of a field are its nibbles. */
  lemma DigitsOfField(raw: Raw, f: Field, i: nat)
    requires i < Size(f)
    ensures Start(f) + i < NIBBLES
    ensures Digit(Get(raw, f), Size(f) - 1 - i) == Nibble(raw, Start(f) + i)
  {
    hide Digit, Nibble, Joined, GetFrom;
    var s := Nibbles(raw, Start(f), Size(f));
    GetJoins(raw, Start(f), 0, Size(f));
    forall j | 0 <= j < |s|
      ensures s[j] < 16
    {
      NibbleSmall(raw, Start(f) + j);
    }
    DigitsOfJoined(s);
    assert s[i] == Nibble(raw, Start(f) + i);
  }

  function FieldBits(raw: Raw, f: Field): (s: seq<bool>)
    ensures |s| == 4 * Size(f)
  {
    ValueBits(Get(raw, f), Size(f))
  }

  lemma FieldSent(raw: Raw, f: Field)
    ensures 4 * (Start(f) + Size(f)) <= NOF_BITS
    ensures SentBits(raw)[4 * Start(f)..4 * (Start(f) + Size(f))] == FieldBits(raw, f)
  {
    hide BitAt, NibbleBit, Digit, Nibble, GetBits;
    forall i | 0 <= i < 4 * Size(f)
      ensures SentBits(raw)[4 * Start(f) + i] == FieldBits(raw, f)[i]
    {
      BitOfNibble(raw, 4 * Start(f) + i);
      DigitsOfField(raw, f, i / 4);
      assert (4 * Start(f) + i) / 4 == Start(f) + i / 4 && (4 * Start(f) + i) % 4 == i % 4;
    }
  }

  /** What is sent is the seven fields, one after the other, each with its most significant bit first. */
  lemma FrameSent(raw: Raw)
    ensures SentBits(raw) == FieldBits(raw, Flag) + FieldBits(raw, GlobalChannel) + FieldBits(raw, Address)
      + FieldBits(raw, Channel) + FieldBits(raw, State) + FieldBits(raw, RollingCode) + FieldBits(raw, Token)
  {
    hide SentBits, FieldBits;
    FieldSent(raw, Flag);
    FieldSent(raw, GlobalChannel);
    FieldSent(raw, Address);
    FieldSent(raw, Channel);
    FieldSent(raw, State);
    FieldSent(raw, RollingCode);
    FieldSent(raw, Token);
  }

  // ---------------------------------------------------------------- pulses

  /** A level on the line and how long it is held, in microseconds. */
  datatype Pulse = Pulse(high: bool, time: nat)

  const HEADER_TIME := 2400
  const T1 := 400
  const T2 := 800
  const FOOTER_TIME := 24000

  /** `iSendBit`. */
  function BitPulses(bit: bool): seq<Pulse> {
    [Pulse(false, if bit then T1 else T2), Pulse(true, if bit then T2 else T1)]
  }

  function Pulses(bits: seq<bool>): (s: seq<Pulse>)
    ensures |s| == 2 * |bits|
    decreases |bits|
  {
    if bits == [] then [] else Pulses(bits[..|bits| - 1]) + BitPulses(bits[|bits| - 1])
  }

  /** `iSendFrame`. */
  function FramePulses(raw: Raw): (s: seq<Pulse>)
    ensures |s| == 2 * NOF_BITS + 2
  {
    [Pulse(true, HEADER_TIME)] + Pulses(SentBits(raw)) + [Pulse(false, FOOTER_TIME)]
  }

  /** What a receiver sees behind the header: a one where the line is high for longer than it was low. */
  function Heard(pulses: seq<Pulse>): seq<bool>
    decreases |pulses|
  {
    if |pulses| < 2 then [] else Heard(pulses[..|pulses| - 2]) + [pulses[|pulses| - 1].time > pulses[|pulses| - 2].time]
  }

  lemma HeardSnoc(pulses: seq<Pulse>, bit: bool)
    ensures Heard(pulses + BitPulses(bit)) == Heard(pulses) + [bit]
  {
    var p, n := pulses + BitPulses(bit), |pulses|;
    assert p[..|p| - 2] == pulses && p[n] == BitPulses(bit)[0] && p[n + 1] == BitPulses(bit)[1];
  }

  lemma {:induction false} PulsesHeard(bits: seq<bool>)
    ensures Heard(Pulses(bits)) == bits
    decreases |bits|
  {
    hide Heard, BitPulses;
    if bits == [] {
      NothingHeard();
    } else {
      var n := |bits| - 1;
      PulsesHeard(bits[..n]);
      HeardSnoc(Pulses(bits[..n]), bits[n]);
      assert bits == bits[..n] + [bits[n]];
    }
  }

  lemma NothingHeard()
    ensures Heard([]) == []
  {}

  /** The pulses of a frame between header and footer give its bits back. */
  lemma FrameHeard(raw: Raw)
    ensures Heard(FramePulses(raw)[1..2 * NOF_BITS + 1]) == SentBits(raw)
  {
    hide SentBits;
    PulsesHeard(SentBits(raw));
    assert FramePulses(raw)[1..2 * NOF_BITS + 1] == Pulses(SentBits(raw));
  }

  // ---------------------------------------------------------------- channels

  const CHANNELS: seq<bv16> := [0, 8, 4, 2, 1, 3, 5, 6, 7]
  const NO_CHANNEL := 255

  /** `ucDecodeChannel`: the first channel, from c on, that a field value stands for. */
  function DecodeChannel(field: bv16, c: nat): nat
    requires c <= |CHANNELS|
    decreases |CHANNELS| - c
  {
    if c == |CHANNELS| then NO_CHANNEL else if field == CHANNELS[c] then c else DecodeChannel(field, c + 1)
  }

  /** The table is one to one between the channels 0 to 8 and the field values 0 to 8. */
  lemma ChannelCoded(c: nat, field: bv16)
    ensures c <= 8 ==> DecodeChannel(CHANNELS[c], 0) == c && CHANNELS[c] <= 8
    ensures field <= 8 <==> DecodeChannel(field, 0) != NO_CHANNEL
    ensures field <= 8 ==> DecodeChannel(field, 0) <= 8 && CHANNELS[DecodeChannel(field, 0)] == field
  {
    ChannelUnfolded(field);
    if c <= 8 { ChannelUnfolded(CHANNELS[c]); }
  }

  lemma ChannelUnfolded(field: bv16)
    ensures DecodeChannel(field, 0) == if field == 0 then 0 else if field == 8 then 1 else if field == 4 then 2
      else if field == 2 then 3 else if field == 1 then 4 else if field == 3 then 5 else if field == 5 then 6
      else if field == 6 then 7 else if field == 7 then 8 else NO_CHANNEL
  {
    assert DecodeChannel(field, 9) == NO_CHANNEL;
    assert DecodeChannel(field, 6) == if field == 5 then 6 else if field == 6 then 7 else if field == 7 then 8 else NO_CHANNEL;
    assert DecodeChannel(field, 3) == if field == 2 then 3 else if field == 1 then 4 else if field == 3 then 5
      else DecodeChannel(field, 6);
  }

  // ---------------------------------------------------------------- rolling code and token

  const BARREL: seq<bv16> := [0x98, 0xDA, 0x1E, 0xE6, 0x67]

  /** What a sender carries from one transmission to the next. */
  datatype Sender = Sender(rollIdx: nat, lastToken: bv8)

  predicate Rolling(s: Sender) { s.rollIdx < |BARREL| }

  /** The frame that is sent, and the sender afterwards. */
  function Stamped(raw: Raw, s: Sender): Raw
    requires Rolling(s)
  {
    Set(Set(raw, RollingCode, BARREL[s.rollIdx]), Token, Wide(s.lastToken))
  }

  function Next(s: Sender): (t: Sender)
    requires Rolling(s)
    ensures Rolling(t)
  {
    Sender(if s.rollIdx + 1 >= |BARREL| then 0 else s.rollIdx + 1, s.lastToken + 10)
  }

  /** The sender after k transmissions. */
  function After(s: Sender, k: nat): (t: Sender)
    requires Rolling(s)
    ensures Rolling(t)
  {
    if k == 0 then s else Next(After(s, k - 1))
  }

  lemma Codes()
    ensures |BARREL| == 5
    ensures forall i :: 0 <= i < 5 ==> Fits(BARREL[i], 2)
    ensures forall i, j :: 0 <= i < j < 5 ==> BARREL[i] != BARREL[j]
    ensures forall b: bv8 :: Fits(Wide(b), 2)
  {}

  /** The two fields of a stamped frame, and the five that stay. */
  lemma StampedFields(raw: Raw, s: Sender)
    requires Rolling(s)
    ensures forall f ::
      Get(Stamped(raw, s), f) == if f == RollingCode then BARREL[s.rollIdx] else if f == Token then Wide(s.lastToken) else Get(raw, f)
  {
    hide Get, Set, Fits, Wide;
    Codes();
    FieldSet(raw, RollingCode, BARREL[s.rollIdx]);
    FieldSet(Set(raw, RollingCode, BARREL[s.rollIdx]), Token, Wide(s.lastToken));
  }

  lemma AddTen(t: bv8)
    ensures (t + 10) as int == (t as int + 10) % 256 && 0 <= t as int < 256
  {}

  /** The rolling code cycles through the barrel, and the token counts by tens modulo 256. */
  lemma {:induction false} AfterIs(s: Sender, k: nat)
    requires Rolling(s)
    ensures After(s, k).rollIdx == (s.rollIdx + k) % 5
    ensures After(s, k).lastToken as int == (s.lastToken as int + 10 * k) % 256
  {
    hide Next;
    AddTen(s.lastToken);
    if k > 0 {
      AfterIs(s, k - 1);
      NextIs(After(s, k - 1));
      var r, t := s.rollIdx + (k - 1), s.lastToken as int + 10 * (k - 1);
      ModStep(r, t);
      assert r + 1 == s.rollIdx + k && t + 10 == s.lastToken as int + 10 * k;
    }
  }

  lemma NextIs(s: Sender)
    requires Rolling(s)
    ensures Next(s).rollIdx == (s.rollIdx + 1) % 5 && Next(s).lastToken as int == (s.lastToken as int + 10) % 256
  {
    AddTen(s.lastToken);
  }

  lemma ModStep(r: int, t: int)
    ensures (r % 5 + 1) % 5 == (r + 1) % 5 && (t % 256 + 10) % 256 == (t + 10) % 256
  {}

  lemma SameInt(a: bv8, b: bv8)
    ensures a as int == b as int <==> a == b
  {}

  // Division by constants, as quotient and remainder.
  lemma Mod5Is(x: int, q: int, r: int)
    requires x == 5 * q + r && 0 <= r < 5
    ensures x % 5 == r
  {}

  lemma Mod128Is(x: int, q: int, r: int)
    requires x == 128 * q + r && 0 <= r < 128
    ensures x % 128 == r
  {}

  lemma Mod256Is(x: int, q: int, r: int)
    requires x == 256 * q + r && 0 <= r < 256
    ensures x % 256 == r
  {}

  lemma Mod640Is(x: int, q: int, r: int)
    requires x == 640 * q + r && 0 <= r < 640
    ensures x % 640 == r
  {}

  /** Two numbers have the same remainder exactly when their difference has none. */
  lemma SameMod5(a: int, b: int)
    ensures a % 5 == b % 5 <==> (b - a) % 5 == 0
  {
    if a % 5 == b % 5 {
      Mod5Is(b - a, b / 5 - a / 5, 0);
    } else if (b - a) % 5 == 0 {
      Mod5Is(b, a / 5 + (b - a) / 5, a % 5);
    }
  }

  lemma SameMod256(a: int, b: int)
    ensures a % 256 == b % 256 <==> (b - a) % 256 == 0
  {
    if a % 256 == b % 256 {
      Mod256Is(b - a, b / 256 - a / 256, 0);
    } else if (b - a) % 256 == 0 {
      Mod256Is(b, a / 256 + (b - a) / 256, a % 256);
    }
  }

  lemma TenMod256(d: int)
    ensures (10 * d) % 256 == 0 <==> d % 128 == 0
  {
    if (10 * d) % 256 == 0 {
      Mod128Is(d, 77 * (10 * d / 256) - 3 * d, 0);
    } else if d % 128 == 0 {
      Mod256Is(10 * d, 5 * (d / 128), 0);
    }
  }

  lemma Mod640(d: int)
    ensures d % 5 == 0 && d % 128 == 0 <==> d % 640 == 0
  {
    if d % 5 == 0 && d % 128 == 0 {
      Mod640Is(d, 2 * (d / 5) - 51 * (d / 128), 0);
    } else if d % 640 == 0 {
      Mod5Is(d, 128 * (d / 640), 0);
      Mod128Is(d, 5 * (d / 640), 0);
    }
  }

  lemma SamePair(r: int, t: int, j: int, k: int)
    ensures (r + j) % 5 == (r + k) % 5 && (t + 10 * j) % 256 == (t + 10 * k) % 256 <==> (k - j) % 640 == 0
  {
    SameMod5(r + j, r + k);
    SameMod256(t + 10 * j, t + 10 * k);
    assert (r + k) - (r + j) == k - j && (t + 10 * k) - (t + 10 * j) == 10 * (k - j);
    TenMod256(k - j);
    Mod640(k - j);
  }

  /** Two senders are the same if their numbers are. */
  lemma SameSender(a: Sender, b: Sender)
    ensures a == b <==> a.rollIdx == b.rollIdx && a.lastToken as int == b.lastToken as int
  {
    SameInt(a.lastToken, b.lastToken);
  }

  /** A pair of code and token comes back after 640 transmissions, and not before. */
  lemma PairsRepeat(s: Sender, j: nat, k: nat)
    requires Rolling(s)
    ensures After(s, j) == After(s, k) <==> (k - j) % 640 == 0
  {
    hide After, Next, Rolling;
    AfterIs(s, j);
    AfterIs(s, k);
    SameSender(After(s, j), After(s, k));
    SamePair(s.rollIdx, s.lastToken as int, j, k);
  }

  // ---------------------------------------------------------------- the frame and the line, in numbers

  /** The eight bits across two bytes, and the sixteen across three. */
  function Across(a: bv8, b: bv8): bv16 { (Wide(a & 0x0F) << 4) | Wide(b >> 4) }

  function AcrossThree(a: bv8, b: bv8, c: bv8): bv16 { (Wide(a & 0x0F) << 12) | (Wide(b) << 4) | Wide(c >> 4) }

  /** The value of a field, from the seven bytes. */
  function FromBytes(raw: Raw, f: Field): bv16 {
    match f
    case Flag => Wide(raw[0])
    case GlobalChannel => Wide(raw[1] >> 4)
    case Address => AcrossThree(raw[1], raw[2], raw[3])
    case Channel => Wide(raw[3] & 0x0F)
    case State => Wide(raw[4] >> 4)
    case RollingCode => Across(raw[4], raw[5])
    case Token => Across(raw[5], raw[6])
  }

  lemma OneJoined(v: bv16)
    ensures Or(0, Shl(v, 0)) == v
  {}

  lemma TwoJoined(a: bv8, b: bv8)
    ensures Or(Or(0, Shl(Wide(Lo(a)), 1)), Shl(Wide(Hi(b)), 0)) == Across(a, b)
  {}

  lemma FourJoined(a: bv8, b: bv8, c: bv8)
    ensures Or(Or(Or(Or(0, Shl(Wide(Lo(a)), 3)), Shl(Wide(Hi(b)), 2)), Shl(Wide(Lo(b)), 1)), Shl(Wide(Hi(c)), 0))
      == AcrossThree(a, b, c)
  {}

  lemma NibbleLaid(raw: Raw, f: Field)
    requires Size(f) == 1
    ensures Get(raw, f) == FromBytes(raw, f)
  {
    hide Or, Shl, Wide, Joined, GetFrom;
    var s := Nibbles(raw, Start(f), 1);
    GetJoins(raw, Start(f), 0, 1);
    JoinedFour(s, 0);
    NibblesOfByte(raw, Start(f));
    assert s[0] == Nibble(raw, Start(f));
    OneJoined(Wide(s[0]));
  }

  lemma FlagLaid(raw: Raw)
    ensures Get(raw, Flag) == FromBytes(raw, Flag)
  {
    hide Or, Shl, Wide;
    OneJoined(Wide(raw[0]));
    assert GetFrom(raw, 2, Or(0, Shl(Wide(raw[0]), 0)), 0) == Or(0, Shl(Wide(raw[0]), 0));
  }

  lemma PairLaid(raw: Raw, f: Field)
    requires f == RollingCode || f == Token
    ensures Get(raw, f) == FromBytes(raw, f)
  {
    hide Or, Shl, Wide, Hi, Lo, Joined, GetFrom, Across, AcrossThree;
    var k := if f == Token then 5 else 4;
    var s := Nibbles(raw, Start(f), 2);
    GetJoins(raw, Start(f), 0, 2);
    JoinedFour(s, 0);
    assert s[0] == Nibble(raw, 2 * k + 1) == Lo(raw[k]) && s[1] == Nibble(raw, 2 * k + 2) == Hi(raw[k + 1]);
    TwoJoined(raw[k], raw[k + 1]);
  }

  lemma AddressLaid(raw: Raw)
    ensures Get(raw, Address) == FromBytes(raw, Address)
  {
    hide Or, Shl, Wide, Hi, Lo, Joined, GetFrom, Across, AcrossThree;
    var s := Nibbles(raw, 3, 4);
    GetJoins(raw, 3, 0, 4);
    JoinedFour(s, 0);
    assert s[0] == Lo(raw[1]) && s[1] == Hi(raw[2]) && s[2] == Lo(raw[2]) && s[3] == Hi(raw[3]);
    FourJoined(raw[1], raw[2], raw[3]);
  }

  /** Where the fields lie in the seven bytes. */
  lemma FieldLaid(raw: Raw, f: Field)
    ensures Get(raw, f) == FromBytes(raw, f)
  {
    hide Get, FromBytes;
    if f == Address {
      AddressLaid(raw);
    } else if f == RollingCode || f == Token {
      PairLaid(raw, f);
    } else if f == Flag {
      FlagLaid(raw);
    } else {
      NibbleLaid(raw, f);
    }
  }

  /** The i-th bit sent is the i-th bit of the frame, the highest bit of each byte first. */
  lemma BitsLaid(raw: Raw, k: nat, j: nat)
    requires j < 8 && 8 * k + j < 52
    ensures SentBits(raw)[8 * k + j] == (raw[k] & [0x80, 0x40, 0x20, 0x10, 0x08, 0x04, 0x02, 0x01][j] != 0)
  {
    hide MaskAt;
    MaskEnds(j);
    assert (8 * k + j) / 8 == k && (8 * k + j) % 8 == j;
  }

  lemma {:induction false} PulsesAt(bits: seq<bool>, i: nat)
    requires i < |bits|
    ensures Pulses(bits)[2 * i] == BitPulses(bits[i])[0] && Pulses(bits)[2 * i + 1] == BitPulses(bits[i])[1]
    decreases |bits|
  {
    hide BitPulses;
    var n := |bits| - 1;
    if i < n { PulsesAt(bits[..n], i); }
  }

  /**
   A frame on the line: 2400 us high; for each of the 52 bits 400 us low and 800 us high if it is one, and 800 us
   low and 400 us high if it is zero; and 24 ms low.
   */
  lemma FrameShape(raw: Raw)
    ensures var p := FramePulses(raw);
      && |p| == 106 && p[0] == Pulse(true, 2400) && p[105] == Pulse(false, 24000)
      && forall i :: 0 <= i < 52 ==>
           && p[2 * i + 1] == Pulse(false, if SentBits(raw)[i] then 400 else 800)
           && p[2 * i + 2] == Pulse(true, if SentBits(raw)[i] then 800 else 400)
  {
    hide SentBits, Pulses;
    var bits, p := SentBits(raw), FramePulses(raw);
    forall i | 0 <= i < 52
      ensures p[2 * i + 1] == Pulse(false, if bits[i] then 400 else 800)
      ensures p[2 * i + 2] == Pulse(true, if bits[i] then 800 else 400)
    {
      PulsesAt(bits, i);
    }
  }

  /** The codes of successive transmissions of a new sender: 0x98, 0xDA, 0x1E, 0xE6, 0x67 and again, with tokens ten apart. */
  lemma CodesSent(raw: Raw, token: bv8, k: nat)
    ensures var sent := Stamped(raw, After(Sender(0, token), k));
      && Get(sent, RollingCode) ==
           (if k % 5 == 0 then 0x98 else if k % 5 == 1 then 0xDA else if k % 5 == 2 then 0x1E
            else if k % 5 == 3 then 0xE6 else 0x67)
      && Get(sent, Token) == Wide(After(Sender(0, token), k).lastToken)
      && After(Sender(0, token), k).lastToken as int == (token as int + 10 * k) % 256
  {
    hide Get, After, Stamped, Wide;
    var s := After(Sender(0, token), k);
    AfterIs(Sender(0, token), k);
    StampedFields(raw, s);
  }
}
