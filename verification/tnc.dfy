/**
 The TNC framing: SOH STX <text as hexadecimal digits> ETX <CRC, four digits> EOT.
 `iTncWrite` and `iTncPoll` as functions on values: what one message looks like on the wire, and
 the automaton that reads it back.  Module TncPort has the object whose methods compute them.
 */
module Tnc {
  import opened Crc

  const SOH: bv8 := 1
  const STX: bv8 := 2
  const ETX: bv8 := 3
  const EOT: bv8 := 4

  // The receiver's state is one of the control codes, zero, or an error.
  const IDLE := 0
  const IN_HEADER := 1
  const IN_TEXT := 2
  const IN_CRC := 3
  const DONE := 4
  const CRC_ERROR := -1
  const ILLEGAL_MSG := -4
  const FILE_NOT_FOUND := -5
  const IO_ERROR := -6

  // ---------------------------------------------------------------- hexadecimal digits

  predicate IsDigit(c: bv8) { 0x30 <= c <= 0x39 }

  predicate IsHexDigit(c: bv8) { IsDigit(c) || 0x41 <= c <= 0x46 || 0x61 <= c <= 0x66 }

  function ToUpper(c: bv8): bv8 { if 0x61 <= c <= 0x7A then c - 0x20 else c }

  /** `htoi`. */
  function Htoi(c: bv8): bv8 {
    var u := ToUpper(c);
    (if IsDigit(u) then u else u - 7) - 0x30
  }

  /** The first digit of a byte, and the byte of two digits. */
  function High(c: bv8): bv8 { Htoi(c) << 4 }

  function Join(msb: bv8, c: bv8): bv8 { msb + Htoi(c) }

  /** The digit that "%X" prints for a value below sixteen. */
  function HexDigit(n: bv8): bv8 { if n < 10 then 0x30 + n else 0x37 + n }

  /** "%02X". */
  function HexByte(b: bv8): (s: seq<bv8>)
    ensures |s| == 2
  {
    [HexDigit(b >> 4), HexDigit(b & 0x0F)]
  }

  function HexText(payload: seq<bv8>): (s: seq<bv8>)
    ensures |s| == 2 * |payload|
    decreases |payload|
  {
    if payload == [] then [] else HexText(payload[..|payload| - 1]) + HexByte(payload[|payload| - 1])
  }

  /** The four bits of a word from bit n. */
  function Nibble(w: bv16, n: nat): bv8
    requires n <= 12
  {
    if n == 0 then (w & 0x0F) as bv8
    else if n == 4 then ((w >> 4) & 0x0F) as bv8
    else if n == 8 then ((w >> 8) & 0x0F) as bv8
    else (w >> 12) as bv8
  }

  /** "%04X". */
  function HexWord(w: bv16): (s: seq<bv8>)
    ensures |s| == 4
  {
    [HexDigit(Nibble(w, 12)), HexDigit(Nibble(w, 8)), HexDigit(Nibble(w, 4)), HexDigit(Nibble(w, 0))]
  }

  // ---------------------------------------------------------------- the writer

  /** Anything that has the form of a message: digits for text, four digits for the CRC. */
  function Framed(text: seq<bv8>, field: seq<bv8>): seq<bv8> {
    [SOH, STX] + text + [ETX] + field + [EOT]
  }

  /** What `iTncWrite` puts on the wire. */
  function Wire(payload: seq<bv8>): seq<bv8> {
    Framed(HexText(payload), HexWord(CrcOf(INIT, HexText(payload))))
  }

  // ---------------------------------------------------------------- the reader

  /** The digit counter is one byte wide. */
  type Count = n: nat | n < 256

  datatype Reader = Reader(state: int, cnt: Count, msb: bv8, data: seq<bv8>, crcRx: bv16, crcTx: bv16)

  function Twice(v: bv16): bv16 { v << 1 }

  function Shl(v: bv16, n: nat): bv16 { if n == 0 then v else Twice(Shl(v, n - 1)) }

  /** A digit of the CRC field, at its place. */
  function Placed(c: bv8, n: nat): bv16 { Shl(Htoi(c) as bv16, n) }

  function Plus(a: bv16, b: bv16): bv16 { a + b }

  function Inc(n: Count): Count { if n == 255 then 0 else n + 1 }

  lemma IncParity(n: Count)
    ensures Inc(n) % 2 == 1 - n % 2
  {}

  /** A hexadecimal digit, in the state it arrives in. */
  function StepDigit(st: Reader, c: bv8): Reader {
    if st.state == IN_TEXT then
      var st' := st.(crcRx := Update(c, st.crcRx), cnt := Inc(st.cnt));
      if st.cnt % 2 == 1 then st'.(data := st.data + [Join(st.msb, c)])
      else st'.(msb := High(c))
    else if st.state == IN_CRC then
      if st.cnt <= 12 then st.(crcTx := Plus(st.crcTx, Placed(c, 12 - st.cnt)), cnt := st.cnt + 4)
      else st.(state := ILLEGAL_MSG)
    else
      st.(state := IDLE)
  }

  /** One byte of `iTncPoll`'s loop. */
  function Step(st: Reader, c: bv8): Reader {
    if c == SOH then
      st.(crcRx := INIT, state := IN_HEADER, data := [])
    else if c == STX then
      if st.state == IN_HEADER then st.(cnt := 0, state := IN_TEXT) else st.(state := IDLE)
    else if c == ETX then
      if st.state == IN_TEXT then st.(cnt := 0, crcTx := 0, state := IN_CRC) else st.(state := IDLE)
    else if c == EOT then
      if st.state == IN_CRC then st.(state := if st.crcRx == st.crcTx then DONE else CRC_ERROR)
      else st.(state := IDLE)
    else if IsHexDigit(c) then
      StepDigit(st, c)
    else
      st
  }

  /** The byte with which a poll ends: the end of a frame, good or bad. */
  predicate Ends(st: Reader, c: bv8) { c == EOT && st.state == IN_CRC }

  /** The polling loop: read until a frame ends or there are no more bytes. */
  function Feed(st: Reader, input: seq<bv8>): (r: (Reader, seq<bv8>))
    decreases |input|
  {
    if input == [] then (st, [])
    else if Ends(st, input[0]) then (Step(st, input[0]), input[1..])
    else Feed(Step(st, input[0]), input[1..])
  }

  /** Whether the polling loop finds the end of a frame. */
  predicate Finds(st: Reader, input: seq<bv8>)
    decreases |input|
  {
    input != [] && (Ends(st, input[0]) || Finds(Step(st, input[0]), input[1..]))
  }

  /** A poll starts by forgetting a message that was complete. */
  function Start(st: Reader): Reader {
    if st.state == DONE then st.(state := IDLE) else st
  }

  /** `iTncPoll` on the bytes that are there. */
  function Poll(st: Reader, input: seq<bv8>): (Reader, seq<bv8>) {
    Feed(Start(st), input)
  }

  /** The bytes the receiver looks at: control codes and digits. */
  predicate Matters(c: bv8) { 1 <= c <= 4 || IsHexDigit(c) }

  /** A line with the noise taken out. */
  function Clean(s: seq<bv8>): seq<bv8>
    decreases |s|
  {
    if s == [] then [] else if Matters(s[0]) then [s[0]] + Clean(s[1..]) else Clean(s[1..])
  }

  // ---------------------------------------------------------------- digits read back

  lemma HexDigitRead(n: bv8)
    requires n < 16
    ensures Htoi(HexDigit(n)) == n && IsHexDigit(HexDigit(n))
  {}

  lemma HexIsNoControl(c: bv8)
    requires IsHexDigit(c)
    ensures c > EOT && c != SOH && c != STX && c != ETX && c != EOT && Matters(c)
  {}

  lemma Nibbles(b: bv8)
    ensures b >> 4 < 16 && b & 0x0F < 16
    ensures ((b >> 4) << 4) + (b & 0x0F) == b
  {}

  lemma ByteRead(b: bv8)
    ensures IsHexDigit(HexByte(b)[0]) && IsHexDigit(HexByte(b)[1])
    ensures Join(High(HexByte(b)[0]), HexByte(b)[1]) == b
  {
    hide Htoi, HexDigit, IsHexDigit;
    Nibbles(b);
    HexDigitRead(b >> 4);
    HexDigitRead(b & 0x0F);
  }

  predicate AllHex(s: seq<bv8>) {
    forall i :: 0 <= i < |s| ==> IsHexDigit(s[i])
  }

  /** The payload that an even number of digits stands for. */
  function Bytes(text: seq<bv8>): seq<bv8>
    decreases |text|
  {
    if |text| < 2 then []
    else Bytes(text[..|text| - 2]) + [Join(High(text[|text| - 2]), text[|text| - 1])]
  }

  function LastHigh(msb: bv8, text: seq<bv8>): bv8 {
    if |text| < 2 then msb else High(text[|text| - 2])
  }

  lemma BytesAppend(text: seq<bv8>, c: bv8, d: bv8)
    ensures Bytes(text + [c, d]) == Bytes(text) + [Join(High(c), d)]
    ensures AllHex(text + [c, d]) <==> AllHex(text) && IsHexDigit(c) && IsHexDigit(d)
    ensures LastHigh(0, text + [c, d]) == High(c)
  {
    hide IsHexDigit, Join, High;
    var t := text + [c, d];
    assert t[..|t| - 2] == text && t[|t| - 2] == c && t[|t| - 1] == d;
    assert forall i :: 0 <= i < |text| ==> t[i] == text[i];
  }

  /** Printing a payload in hexadecimal loses nothing. */
  lemma {:induction false} HexTextRead(payload: seq<bv8>)
    ensures AllHex(HexText(payload)) && Bytes(HexText(payload)) == payload
    decreases |payload|
  {
    hide High, Join, HexByte, Bytes, AllHex;
    if payload == [] {
      assert AllHex([]) && Bytes([]) == [] by { AllHexEmpty(); }
    } else {
      var n := |payload| - 1;
      var two := HexByte(payload[n]);
      HexTextRead(payload[..n]);
      ByteRead(payload[n]);
      BytesAppend(HexText(payload[..n]), two[0], two[1]);
      assert two == [two[0], two[1]];
    }
  }

  lemma AllHexEmpty()
    ensures AllHex([]) && Bytes([]) == []
  {}

  // ---------------------------------------------------------------- the CRC field

  /** What the receiver adds up from four digits. */
  function WordOf(d: seq<bv8>): bv16
    requires |d| == 4
  {
    Plus(Plus(Plus(Plus(0, Placed(d[0], 12)), Placed(d[1], 8)), Placed(d[2], 4)), Placed(d[3], 0))
  }

  function Wide(v: bv8): bv16 { v as bv16 }

  lemma TwiceFour(v: bv16)
    ensures Twice(Twice(Twice(Twice(v)))) == v << 4
  {}

  function Times16(v: bv16): bv16 { v << 4 }

  lemma ShlFour(v: bv16, n: nat)
    ensures Shl(v, n + 4) == Times16(Shl(v, n))
  {
    TwiceFour(Shl(v, n));
    hide Twice;
    assert Shl(v, n + 1) == Twice(Shl(v, n));
    assert Shl(v, n + 2) == Twice(Shl(v, n + 1));
    assert Shl(v, n + 3) == Twice(Shl(v, n + 2));
  }

  lemma ShlIs(v: bv16)
    ensures Shl(v, 0) == v && Shl(v, 4) == Times16(v) && Shl(v, 8) == Times16(Times16(v))
    ensures Shl(v, 12) == Times16(Times16(Times16(v)))
  {
    assert Shl(v, 0) == v;
    hide Shl, Times16;
    ShlFour(v, 0);
    ShlFour(v, 4);
    ShlFour(v, 8);
  }

  lemma NibblesSum(w: bv16)
    ensures Nibble(w, 12) < 16 && Nibble(w, 8) < 16 && Nibble(w, 4) < 16 && Nibble(w, 0) < 16
    ensures Plus(Plus(Plus(Plus(0, Times16(Times16(Times16(Wide(Nibble(w, 12)))))), Times16(Times16(Wide(Nibble(w, 8))))),
      Times16(Wide(Nibble(w, 4)))), Wide(Nibble(w, 0))) == w
  {}

  lemma PlacedNibble(v: bv8)
    requires v < 16
    ensures IsHexDigit(HexDigit(v))
    ensures Placed(HexDigit(v), 0) == Wide(v) && Placed(HexDigit(v), 4) == Times16(Wide(v))
    ensures Placed(HexDigit(v), 8) == Times16(Times16(Wide(v)))
    ensures Placed(HexDigit(v), 12) == Times16(Times16(Times16(Wide(v))))
  {
    hide Shl, Htoi, HexDigit, IsHexDigit, Times16;
    HexDigitRead(v);
    ShlIs(Wide(v));
  }

  /** The CRC field reads back as the word that was printed. */
  lemma WordRead(w: bv16)
    ensures AllHex(HexWord(w)) && WordOf(HexWord(w)) == w
  {
    hide Placed, Plus, HexDigit, IsHexDigit, Nibble, Times16, Wide;
    NibblesSum(w);
    PlacedNibble(Nibble(w, 12));
    PlacedNibble(Nibble(w, 8));
    PlacedNibble(Nibble(w, 4));
    PlacedNibble(Nibble(w, 0));
  }

  // ---------------------------------------------------------------- feeding in pieces

  predicate NoEnd(s: seq<bv8>) { forall i :: 0 <= i < |s| ==> s[i] != EOT }

  lemma HexNoEnd(s: seq<bv8>)
    requires AllHex(s)
    ensures NoEnd(s)
  {
    hide IsHexDigit;
    forall i | 0 <= i < |s| ensures s[i] != EOT {
      HexIsNoControl(s[i]);
    }
  }

  /** Bytes that do not end a frame are all used, and what follows continues from there. */
  lemma {:induction false} FeedSplit(st: Reader, a: seq<bv8>, b: seq<bv8>)
    requires NoEnd(a)
    ensures Feed(st, a).1 == [] && Feed(st, a + b) == Feed(Feed(st, a).0, b)
    decreases |a|
  {
    hide Step;
    if a == [] {
      assert a + b == b;
    } else {
      assert (a + b)[0] == a[0] && (a + b)[1..] == a[1..] + b;
      FeedSplit(Step(st, a[0]), a[1..], b);
    }
  }

  lemma FeedOne(st: Reader, c: bv8)
    ensures Feed(st, [c]) == (Step(st, c), [])
  {
    hide Step;
    assert [c][1..] == [];
    if !Ends(st, c) { assert Feed(Step(st, c), []) == (Step(st, c), []); }
  }

  // ---------------------------------------------------------------- a frame, part by part

  lemma StepHex(st: Reader, c: bv8)
    requires IsHexDigit(c)
    ensures Step(st, c) == StepDigit(st, c)
  {
    hide StepDigit, IsHexDigit;
    HexIsNoControl(c);
  }

  lemma PairFed(st: Reader, c: bv8, d: bv8)
    requires st.state == IN_TEXT && st.cnt % 2 == 0 && IsHexDigit(c) && IsHexDigit(d)
    ensures Feed(st, [c, d]) == (st.(cnt := Inc(Inc(st.cnt)), msb := High(c),
      data := st.data + [Join(High(c), d)], crcRx := Update(d, Update(c, st.crcRx))), [])
  {
    hide Update, High, Join, IsHexDigit, Step, Feed, Inc;
    HexIsNoControl(c);
    IncParity(st.cnt);
    FeedSplit(st, [c], [d]);
    assert [c] + [d] == [c, d];
    FeedOne(st, c);
    FeedOne(Step(st, c), d);
    StepHex(st, c);
    StepHex(Step(st, c), d);
  }

  /** Inside the text, digits add to the data and to the CRC. */
  lemma {:induction false} TextFed(st: Reader, text: seq<bv8>)
    requires st.state == IN_TEXT && st.cnt % 2 == 0
    requires AllHex(text) && |text| % 2 == 0
    ensures var (r, left) := Feed(st, text);
      left == [] && r.cnt % 2 == 0 && r == st.(cnt := r.cnt, msb := LastHigh(st.msb, text),
        data := st.data + Bytes(text), crcRx := CrcOf(st.crcRx, text))
    decreases |text|
  {
    hide Update, High, Join, Bytes, AllHex, CrcOf, Step, NoEnd, Feed, Inc;
    if text == [] {
      TextEmpty(st);
    } else {
      var n := |text| - 2;
      var c, d := text[n], text[n + 1];
      assert text == text[..n] + [c, d];
      BytesAppend(text[..n], c, d);
      TextFed(st, text[..n]);
      HexNoEnd(text[..n]);
      FeedSplit(st, text[..n], [c, d]);
      var r := Feed(st, text[..n]).0;
      PairFed(r, c, d);
      IncParity(r.cnt);
      IncParity(Inc(r.cnt));
      CrcPair(st.crcRx, text[..n], c, d);
      assert st.data + Bytes(text) == st.data + Bytes(text[..n]) + [Join(High(c), d)];
    }
  }

  lemma TextEmpty(st: Reader)
    ensures Feed(st, []) == (st, []) && CrcOf(st.crcRx, []) == st.crcRx && st.data + Bytes([]) == st.data
  {}

  lemma CrcPair(crc: bv16, s: seq<bv8>, c: bv8, d: bv8)
    ensures CrcOf(crc, s + [c, d]) == Update(d, Update(c, CrcOf(crc, s)))
  {
    hide Update;
    CrcConcat(crc, s, [c, d]);
    CrcTwo(CrcOf(crc, s), c, d);
  }

  /** Inside the CRC field, four digits are added up. */
  lemma CrcFieldFed(st: Reader, d: seq<bv8>)
    requires st.state == IN_CRC && st.cnt == 0 && st.crcTx == 0
    requires |d| == 4 && AllHex(d)
    ensures Feed(st, d) == (st.(cnt := 16, crcTx := WordOf(d)), [])
  {
    hide Placed, Plus, IsHexDigit, Step;
    HexNoEnd(d);
    var s1 := st.(cnt := 4, crcTx := Plus(0, Placed(d[0], 12)));
    var s2 := s1.(cnt := 8, crcTx := Plus(s1.crcTx, Placed(d[1], 8)));
    var s3 := s2.(cnt := 12, crcTx := Plus(s2.crcTx, Placed(d[2], 4)));
    var s4 := s3.(cnt := 16, crcTx := Plus(s3.crcTx, Placed(d[3], 0)));
    StepHex(st, d[0]);
    StepHex(s1, d[1]);
    StepHex(s2, d[2]);
    StepHex(s3, d[3]);
    Feed4(st, d, s1, s2, s3, s4);
  }

  lemma Feed4(st: Reader, d: seq<bv8>, s1: Reader, s2: Reader, s3: Reader, s4: Reader)
    requires |d| == 4 && NoEnd(d)
    requires s1 == Step(st, d[0]) && s2 == Step(s1, d[1]) && s3 == Step(s2, d[2]) && s4 == Step(s3, d[3])
    ensures Feed(st, d) == (s4, [])
  {
    hide Step;
    FeedOne(st, d[0]);
    FeedOne(s1, d[1]);
    FeedOne(s2, d[2]);
    FeedOne(s3, d[3]);
    FeedSplit(st, [d[0]], d[1..]);
    FeedSplit(s1, [d[1]], d[2..]);
    FeedSplit(s2, [d[2]], d[3..]);
    assert d == [d[0]] + d[1..] && d[1..] == [d[1]] + d[2..] && d[2..] == [d[2]] + d[3..] && d[3..] == [d[3]];
  }

  /** What the receiver holds after a frame. */
  function Received(st: Reader, text: seq<bv8>, field: seq<bv8>): Reader
    requires |field| == 4
  {
    Reader(if CrcOf(INIT, text) == WordOf(field) then DONE else CRC_ERROR, 16, LastHigh(st.msb, text), Bytes(text),
           CrcOf(INIT, text), WordOf(field))
  }

  /** From any state, a frame is taken as a whole, and judged by its CRC alone. */
  lemma FrameFed(st: Reader, text: seq<bv8>, field: seq<bv8>, rest: seq<bv8>)
    requires AllHex(text) && |text| % 2 == 0
    requires |field| == 4 && AllHex(field)
    ensures Feed(st, Framed(text, field) + rest) == (Received(st, text, field), rest)
  {
    hide Update, IsHexDigit, CrcOf, Bytes, LastHigh, WordOf, AllHex, NoEnd;
    var s1 := st.(crcRx := INIT, state := IN_TEXT, data := [], cnt := 0);
    var tail := [ETX] + (field + ([EOT] + rest));
    HeaderFed(st, text + tail);
    TextFed(s1, text);
    HexNoEnd(text);
    FeedSplit(s1, text, tail);
    var s2 := Feed(s1, text).0;
    var s3 := s2.(cnt := 0, crcTx := 0, state := IN_CRC);
    EtxFed(s2, field + ([EOT] + rest));
    CrcFieldFed(s3, field);
    HexNoEnd(field);
    FeedSplit(s3, field, [EOT] + rest);
    EotFed(Feed(s3, field).0, rest);
    assert Framed(text, field) + rest == [SOH, STX] + (text + tail);
    assert [] + Bytes(text) == Bytes(text);
  }

  lemma HeaderFed(st: Reader, rest: seq<bv8>)
    ensures Feed(st, [SOH, STX] + rest) == Feed(st.(crcRx := INIT, state := IN_TEXT, data := [], cnt := 0), rest)
  {
    hide IsHexDigit, StepDigit;
    var s1 := Step(st, SOH);
    FeedOne(st, SOH);
    FeedOne(s1, STX);
    FeedSplit(st, [SOH], [STX] + rest);
    FeedSplit(s1, [STX], rest);
    assert [SOH, STX] + rest == [SOH] + ([STX] + rest);
  }

  lemma EtxFed(st: Reader, rest: seq<bv8>)
    requires st.state == IN_TEXT
    ensures Feed(st, [ETX] + rest) == Feed(st.(cnt := 0, crcTx := 0, state := IN_CRC), rest)
  {
    hide IsHexDigit, StepDigit;
    FeedOne(st, ETX);
    FeedSplit(st, [ETX], rest);
  }

  lemma EotFed(st: Reader, rest: seq<bv8>)
    requires st.state == IN_CRC
    ensures Feed(st, [EOT] + rest) == (st.(state := if st.crcRx == st.crcTx then DONE else CRC_ERROR), rest)
  {
    hide IsHexDigit, StepDigit;
    assert ([EOT] + rest)[1..] == rest;
  }

  // ---------------------------------------------------------------- the round trip

  /** From any state, the writer's bytes give back the payload, and nothing behind them is touched. */
  lemma RoundTrip(st: Reader, payload: seq<bv8>, rest: seq<bv8>)
    ensures var (st', left) := Feed(st, Wire(payload) + rest);
      st'.state == DONE && st'.data == payload && left == rest
  {
    hide Update, IsHexDigit, CrcOf, Bytes, LastHigh, WordOf, AllHex, HexWord;
    var text := HexText(payload);
    HexTextRead(payload);
    WordRead(CrcOf(INIT, text));
    FrameFed(st, text, HexWord(CrcOf(INIT, text)), rest);
  }

  /** One digit of the text changed to any other hexadecimal digit is always noticed. */
  lemma DigitChanged(st: Reader, payload: seq<bv8>, p: nat, c: bv8)
    requires p < 2 * |payload| && IsHexDigit(c) && c != Wire(payload)[2 + p]
    ensures Feed(st, Wire(payload)[2 + p := c]).0.state == CRC_ERROR
  {
    hide Update, IsHexDigit, CrcOf, Bytes, LastHigh, WordOf, HexWord, Step;
    var text := HexText(payload);
    var field := HexWord(CrcOf(INIT, text));
    HexTextRead(payload);
    WordRead(CrcOf(INIT, text));
    OneByteDetected(INIT, text, p, c);
    FrameFed(st, text[p := c], field, []);
    assert Wire(payload)[2 + p := c] == Framed(text[p := c], field) + [];
  }

  /** A CRC field that stands for another number is always noticed too. */
  lemma FieldChanged(st: Reader, payload: seq<bv8>, field: seq<bv8>, rest: seq<bv8>)
    requires |field| == 4 && AllHex(field)
    ensures var (st', left) := Feed(st, Framed(HexText(payload), field) + rest);
      left == rest && (st'.state == DONE <==> WordOf(field) == CrcOf(INIT, HexText(payload)))
      && (st'.state == CRC_ERROR <==> WordOf(field) != CrcOf(INIT, HexText(payload)))
  {
    hide Update, IsHexDigit, CrcOf, Bytes, LastHigh, WordOf;
    HexTextRead(payload);
    FrameFed(st, HexText(payload), field, rest);
  }

  // ---------------------------------------------------------------- noise

  lemma StepNoise(st: Reader, c: bv8)
    requires !Matters(c)
    ensures Step(st, c) == st && !Ends(st, c)
  {}

  /** Bytes that are neither control codes nor digits change nothing, wherever they are. */
  lemma {:induction false} NoiseIgnored(st: Reader, s: seq<bv8>)
    ensures Feed(st, Clean(s)).0 == Feed(st, s).0 && Feed(st, Clean(s)).1 == Clean(Feed(st, s).1)
    decreases |s|
  {
    hide Step, Matters;
    if s != [] {
      var c, t := s[0], s[1..];
      if Matters(c) {
        assert Clean(s)[0] == c && Clean(s)[1..] == Clean(t);
        if !Ends(st, c) { NoiseIgnored(Step(st, c), t); }
      } else {
        StepNoise(st, c);
        NoiseIgnored(st, t);
      }
    }
  }

  // ---------------------------------------------------------------- several polls

  /** Polls made one after the other, each when another piece of the line has arrived; also what is left unread. */
  function Polls(st: Reader, unread: seq<bv8>, pieces: seq<seq<bv8>>): (Reader, seq<bv8>)
    decreases |pieces|
  {
    if pieces == [] then (st, unread)
    else
      var r := Poll(st, unread + pieces[0]);
      Polls(r.0, r.1, pieces[1..])
  }

  function Concat(pieces: seq<seq<bv8>>): seq<bv8>
    decreases |pieces|
  {
    if pieces == [] then [] else pieces[0] + Concat(pieces[1..])
  }

  lemma {:induction false} StaysUndone(st: Reader, a: seq<bv8>)
    requires NoEnd(a) && st.state != DONE
    ensures Feed(st, a).0.state != DONE
    decreases |a|
  {
    hide Update, IsHexDigit, High, Join, Placed, Plus;
    if a != [] { StaysUndone(Step(st, a[0]), a[1..]); }
  }

  /** As long as no frame ends before the last piece, the pieces make no difference. */
  lemma {:induction false} PollsAreOne(st: Reader, pieces: seq<seq<bv8>>)
    requires pieces != []
    requires forall k :: 0 <= k < |pieces| - 1 ==> NoEnd(pieces[k])
    ensures Polls(st, [], pieces) == Poll(st, Concat(pieces))
    decreases |pieces|
  {
    hide Step, NoEnd;
    var a, more := pieces[0], pieces[1..];
    assert [] + a == a;
    if more == [] {
      assert Concat(more) == [] && a + [] == a;
      var r := Poll(st, a);
      assert Polls(r.0, r.1, more) == r;
    } else {
      assert NoEnd(pieces[0]);
      var st' := Feed(Start(st), a).0;
      FeedSplit(Start(st), a, Concat(more));
      StaysUndone(Start(st), a);
      forall k | 0 <= k < |more| - 1 ensures NoEnd(more[k]) {
        assert more[k] == pieces[k + 1];
      }
      PollsAreOne(st', more);
    }
  }

  /** However a message arrives - in any pieces, from any state, with any noise - the polls end with it, complete. */
  lemma PollsDeliver(st: Reader, payload: seq<bv8>, pieces: seq<seq<bv8>>)
    requires pieces != []
    requires forall k :: 0 <= k < |pieces| - 1 ==> NoEnd(pieces[k])
    requires Clean(Concat(pieces)) == Wire(payload)
    ensures var (st', left) := Polls(st, [], pieces);
      st'.state == DONE && st'.data == payload && Clean(left) == []
  {
    hide Step, Clean, Wire, NoEnd;
    PollsAreOne(st, pieces);
    NoiseIgnored(Start(st), Concat(pieces));
    RoundTrip(Start(st), payload, []);
    assert Wire(payload) + [] == Wire(payload);
  }

  // ---------------------------------------------------------------- the receive buffer

  /** The receiver writes its buffer unchecked; this says that a run stays inside it. */
  predicate Fits(st: Reader, input: seq<bv8>, size: nat)
    decreases |input|
  {
    |st.data| <= size && (input == [] || (Ends(st, input[0]) || Fits(Step(st, input[0]), input[1..], size)))
  }

  lemma FitsStep(st: Reader, input: seq<bv8>, size: nat)
    requires Fits(st, input, size) && input != []
    ensures |Step(st, input[0]).data| <= size
  {
    hide StepDigit, IsHexDigit;
  }

  lemma StepGrows(st: Reader, c: bv8)
    requires c != SOH
    ensures |Step(st, c).data| >= |st.data|
  {
    hide Update, IsHexDigit, High, Join, Placed, Plus;
  }

  lemma {:induction false} FeedGrows(st: Reader, input: seq<bv8>, size: nat)
    requires forall i :: 0 <= i < |input| ==> input[i] != SOH
    ensures |Feed(st, input).0.data| >= |st.data|
    ensures |Feed(st, input).0.data| <= size ==> Fits(st, input, size)
    decreases |input|
  {
    hide Step;
    if input != [] {
      StepGrows(st, input[0]);
      FeedGrows(Step(st, input[0]), input[1..], size);
    }
  }

  /** A payload that fits the buffer never runs over it on the way. */
  lemma WireFits(st: Reader, payload: seq<bv8>, size: nat)
    requires |st.data| <= size && |payload| <= size
    ensures Fits(st, Wire(payload), size)
  {
    hide Update, High, Join, StepDigit, Placed, Plus, HexDigit, CrcOf, IsHexDigit;
    RoundTrip(st, payload, []);
    var w := Wire(payload);
    assert w + [] == w;
    assert w[0] == SOH;
    NoHeader(payload);
    FeedGrows(Step(st, w[0]), w[1..], size);
  }

  lemma NoHeader(payload: seq<bv8>)
    ensures forall i :: 1 <= i < |Wire(payload)| ==> Wire(payload)[i] != SOH
  {
    hide HexWord, IsHexDigit, CrcOf, HexText, Bytes, WordOf;
    var text := HexText(payload);
    var field := HexWord(CrcOf(INIT, text));
    HexTextRead(payload);
    WordRead(CrcOf(INIT, text));
    var w := Wire(payload);
    forall i | 1 <= i < |w| ensures w[i] != SOH {
      if 2 <= i < 2 + |text| {
        assert w[i] == text[i - 2];
        HexIsNoControl(text[i - 2]);
      } else if 3 + |text| <= i < 7 + |text| {
        assert w[i] == field[i - 3 - |text|];
        HexIsNoControl(field[i - 3 - |text|]);
      }
    }
  }

  /** Noise needs no room. */
  lemma {:induction false} NoiseFits(st: Reader, s: seq<bv8>, size: nat)
    ensures Fits(st, Clean(s), size) <==> Fits(st, s, size)
    decreases |s|
  {
    hide Step, Matters;
    if s != [] {
      var c, t := s[0], s[1..];
      if Matters(c) {
        assert Clean(s)[0] == c && Clean(s)[1..] == Clean(t);
        NoiseFits(Step(st, c), t, size);
      } else {
        StepNoise(st, c);
        NoiseFits(st, t, size);
      }
    }
  }
}
