/**
 The TNC object: `iTncPoll` and `iTncWrite` as they work, byte by byte on the object's fields, its
 receive buffer and the two lines.  Module Tnc says what they compute.
 */
module TncPort {
  import opened Crc
  import opened Tnc
  import opened TncForm

  class Port {
    var finOpen: bool
    var foutOpen: bool
    var rxbuf: array<bv8>
    var len: nat
    var crcRx: bv16
    var crcTx: bv16
    var state: int
    var cnt: Count
    var msb: bv8

    // The lines: what can be read now, whether reading fails after that, and what has been written.
    var rx: seq<bv8>
    var broken: bool
    var tx: seq<bv8>

    predicate Valid()
      reads this
    {
      len <= rxbuf.Length
    }

    ghost function View(): Reader
      requires Valid()
      reads this, rxbuf
    {
      Reader(state, cnt, msb, rxbuf[..len], crcRx, crcTx)
    }

    /** `xTncNew`; the descriptors are set later. */
    constructor (size: nat)
      ensures Valid() && fresh(rxbuf) && rxbuf.Length == size
      ensures View() == Reader(IDLE, 0, 0, [], INIT, 0) && !finOpen && !foutOpen
      ensures rx == [] && tx == [] && !broken
    {
      rxbuf := new bv8[size];
      finOpen, foutOpen, broken := false, false, false;
      len, cnt, msb, state := 0, 0, 0, IDLE;
      crcRx, crcTx := INIT, 0;
      rx, tx := [], [];
    }

    /** `iTncPoll`. */
    method Poll() returns (r: int)
      requires Valid() && Fits(Start(View()), rx, rxbuf.Length)
      modifies this, rxbuf
      ensures Valid() && rxbuf == old(rxbuf) && tx == old(tx) && r == state
      ensures finOpen == old(finOpen) && foutOpen == old(foutOpen) && broken == old(broken)
      ensures !finOpen ==> View() == old(View()).(state := FILE_NOT_FOUND) && rx == old(rx)
      ensures finOpen ==>
        var (st, left) := old(Feed(Start(View()), rx));
        rx == left && View() == if broken && !old(Finds(Start(View()), rx)) then st.(state := IO_ERROR) else st
    {
      hide Step;
      if state == DONE { state := IDLE; }
      if !finOpen {
        state := FILE_NOT_FOUND;
        return state;
      }
      ghost var st0, rx0 := View(), rx;
      assert st0 == old(Start(View()));
      var count := 1;
      while count > 0 && state != DONE
        invariant 0 <= count <= 1 && Valid() && rxbuf == old(rxbuf) && tx == old(tx)
        invariant finOpen && foutOpen == old(foutOpen) && broken == old(broken)
        invariant count == 0 ==> rx == [] && !broken
        invariant state != DONE ==> Fits(View(), rx, rxbuf.Length) && Feed(st0, rx0) == Feed(View(), rx)
        invariant state != DONE ==> (Finds(st0, rx0) <==> Finds(View(), rx))
        invariant state == DONE ==> Finds(st0, rx0) && Feed(st0, rx0) == (View(), rx)
        decreases |rx| + count
      {
        if rx == [] {
          if broken {
            state := IO_ERROR;
            return state;
          }
          count := 0;
        } else {
          var c := rx[0];
          FitsStep(View(), rx, rxbuf.Length);
          rx := rx[1..];
          var bad := Take(c);
          if bad { return state; }
        }
      }
      r := state;
    }

    /** The switch on one byte; tells whether a frame ended with a wrong CRC. */
    method Take(c: bv8) returns (bad: bool)
      requires Valid() && |Step(View(), c).data| <= rxbuf.Length
      modifies this, rxbuf
      ensures Valid() && rxbuf == old(rxbuf) && rx == old(rx) && tx == old(tx)
      ensures finOpen == old(finOpen) && foutOpen == old(foutOpen) && broken == old(broken)
      ensures View() == Step(old(View()), c)
      ensures bad <==> old(Ends(View(), c)) && state == CRC_ERROR
      ensures old(state) != DONE ==> (state == DONE <==> old(Ends(View(), c)) && !bad)
    {
      hide StepDigit, IsHexDigit;
      ghost var st := View();
      bad := false;
      if c == SOH {
        crcRx, state, len := INIT, IN_HEADER, 0;
      } else if c == STX {
        if state == IN_HEADER { cnt, state := 0, IN_TEXT; } else { state := IDLE; }
      } else if c == ETX {
        if state == IN_TEXT { cnt, crcTx, state := 0, 0, IN_CRC; } else { state := IDLE; }
      } else if c == EOT {
        if state == IN_CRC {
          state := DONE;
          if crcRx != crcTx {
            state := CRC_ERROR;
            bad := true;
          }
        } else {
          state := IDLE;
        }
      } else if IsHexDigit(c) {
        StepHex(st, c);
        TakeDigit(c);
      }
    }

    /** A hexadecimal digit. */
    method TakeDigit(c: bv8)
      requires Valid() && |StepDigit(View(), c).data| <= rxbuf.Length
      modifies this, rxbuf
      ensures Valid() && rxbuf == old(rxbuf) && rx == old(rx) && tx == old(tx)
      ensures finOpen == old(finOpen) && foutOpen == old(foutOpen) && broken == old(broken)
      ensures View() == StepDigit(old(View()), c)
      ensures old(state) != DONE ==> state != DONE
    {
      hide Update, High, Join, Placed, Plus;
      if state == IN_TEXT {
        TakeText(c);
      } else if state == IN_CRC {
        if cnt <= 12 {
          crcTx := Plus(crcTx, Placed(c, 12 - cnt));
          cnt := cnt + 4;
        } else {
          state := ILLEGAL_MSG;
        }
      } else {
        state := IDLE;
      }
    }

    /** A digit of the text: the first of a byte, or the second, which completes it. */
    method TakeText(c: bv8)
      requires Valid() && state == IN_TEXT && |StepDigit(View(), c).data| <= rxbuf.Length
      modifies this`crcRx, this`msb, this`cnt, this`len, rxbuf
      ensures Valid() && View() == StepDigit(old(View()), c)
    {
      hide Update, High, Join, Placed, Plus, Inc;
      if cnt % 2 == 1 {
        Store(Join(msb, c));
      } else {
        msb := High(c);
      }
      crcRx := Update(c, crcRx);
      cnt := Inc(cnt);
    }

    method Store(b: bv8)
      requires len < rxbuf.Length
      modifies this`len, rxbuf
      ensures len == old(len) + 1 && rxbuf[..len] == old(rxbuf[..len]) + [b]
    {
      rxbuf[len] := b;
      len := len + 1;
    }

    /** `iTncWrite`. */
    method Write(buf: seq<bv8>) returns (index: int)
      modifies this`state, this`tx
      ensures !foutOpen ==> index == state == FILE_NOT_FOUND && tx == old(tx)
      ensures foutOpen ==> index == |buf| && state == old(state) && tx == old(tx) + Wire(buf)
      ensures foutOpen ==> Laid(tx[|old(tx)|..], buf)
    {
      hide Laid, Update, HexByte, HexText, HexWord, CrcOf, Inc, OnTheWay, Sent, Wire;
      if !foutOpen {
        state := FILE_NOT_FOUND;
        return state;
      }
      index := 0;
      var stage, digits: Count, str: seq<bv8>, crc := SEND_SOH, 0, [], INIT;
      StartSending(str, buf);
      while stage != SEND_EOT
        invariant 0 <= index <= |buf| && state == old(state)
        invariant stage == SEND_TEXT && digits % 2 == 1 ==> index < |buf|
        invariant stage == SEND_CRC ==> digits <= 4
        invariant SendRank(stage) > 0 && OnTheWay(stage, digits, index, str, crc, buf)
        invariant tx == old(tx) + Sent(stage, digits, index, buf)
        decreases SendRank(stage), if stage == SEND_TEXT then 2 * (|buf| - index) + 1 - digits % 2 else 4 - digits
      {
        var c: bv8;
        ghost var sent := Sent(stage, digits, index, buf);
        if stage == SEND_SOH {
          SohSent(digits, index, str, crc, buf);
          c := SOH;
          stage := SEND_STX;
        } else if stage == SEND_STX {
          StxSent(digits, index, str, crc, buf);
          c := STX;
          stage := SEND_TEXT;
        } else if stage == SEND_TEXT {
          if |buf| > 0 {
            IncParity(digits);
            if digits % 2 == 1 {
              LowSent(digits, index, str, crc, buf);
              c := str[1];
              index := index + 1;
              if index >= |buf| { stage := SEND_ETX; }
            } else {
              HighSent(digits, index, str, crc, buf);
              str := HexByte(buf[index]);
              c := str[0];
            }
            digits := Inc(digits);
            crc := Update(c, crc);
          } else {
            NothingToSend(digits, str, crc, buf);
            stage := SEND_ETX;
            continue;
          }
        } else if stage == SEND_ETX {
          EtxSent(digits, index, str, crc, buf);
          c := ETX;
          digits := 0;
          stage := SEND_CRC;
          str := HexWord(crc);
        } else {
          FieldSent(digits, index, str, crc, buf);
          if digits < 4 {
            c := str[digits];
            digits := digits + 1;
          } else {
            c := EOT;
            stage := SEND_EOT;
          }
        }
        tx := tx + [c];
        assert Sent(stage, digits, index, buf) == sent + [c];
      }
      AllSent(digits, index, str, crc, buf);
      WireLaid(buf);
      assert tx[|old(tx)|..] == Wire(buf);
    }
  }

  // ---------------------------------------------------------------- what the writer has sent so far

  const SEND_SOH := 1
  const SEND_STX := 2
  const SEND_ETX := 3
  const SEND_EOT := 4
  const SEND_TEXT := 5
  const SEND_CRC := 6

  /** The order of the writer's stages, counted from the end; zero is no stage. */
  function SendRank(stage: int): nat {
    if stage == SEND_SOH then 6 else if stage == SEND_STX then 5 else if stage == SEND_TEXT then 4
    else if stage == SEND_ETX then 3 else if stage == SEND_CRC then 2 else if stage == SEND_EOT then 1 else 0
  }

  /** The digits of the first bytes, and one more digit if half is set. */
  function Typed(buf: seq<bv8>, index: nat, half: bool): seq<bv8>
    requires index <= |buf| && (half ==> index < |buf|)
  {
    HexText(buf[..index]) + (if half then [HexByte(buf[index])[0]] else [])
  }

  /** The writer's variables in each stage. */
  predicate OnTheWay(stage: int, digits: nat, index: nat, str: seq<bv8>, crc: bv16, buf: seq<bv8>)
    requires index <= |buf|
  {
    (stage == SEND_SOH || stage == SEND_STX ==> index == 0 && digits == 0 && crc == INIT)
    && (stage == SEND_TEXT ==> index < |buf| || (buf == [] && digits == 0))
    && (stage == SEND_TEXT ==> crc == CrcOf(INIT, Typed(buf, index, digits % 2 == 1)))
    && (stage == SEND_TEXT && digits % 2 == 1 ==> str == HexByte(buf[index]))
    && (stage == SEND_ETX ==> crc == CrcOf(INIT, HexText(buf)))
    && (stage == SEND_CRC ==> digits <= 4 && str == HexWord(CrcOf(INIT, HexText(buf))))
    && (stage in {SEND_ETX, SEND_CRC, SEND_EOT} ==> index == |buf|)
  }

  /** The bytes on the line in each stage. */
  function Sent(stage: int, digits: nat, index: nat, buf: seq<bv8>): seq<bv8>
    requires index <= |buf|
    requires stage == SEND_TEXT && digits % 2 == 1 ==> index < |buf|
    requires stage == SEND_CRC ==> digits <= 4
  {
    if stage == SEND_SOH then []
    else if stage == SEND_STX then [SOH]
    else if stage == SEND_TEXT then [SOH, STX] + Typed(buf, index, digits % 2 == 1)
    else if stage == SEND_ETX then [SOH, STX] + HexText(buf)
    else if stage == SEND_CRC then [SOH, STX] + HexText(buf) + [ETX] + HexWord(CrcOf(INIT, HexText(buf)))[..digits]
    else Wire(buf)
  }

  lemma TypedEnds(buf: seq<bv8>)
    ensures CrcOf(INIT, Typed(buf, 0, false)) == INIT && Typed(buf, 0, false) == []
    ensures Typed(buf, |buf|, false) == HexText(buf)
  {
    assert buf[..|buf|] == buf;
  }

  lemma TypedNext(buf: seq<bv8>, index: nat, half: bool)
    requires index < |buf|
    ensures !half ==> Typed(buf, index, true) == Typed(buf, index, false) + [HexByte(buf[index])[0]]
    ensures half ==> Typed(buf, index + 1, false) == Typed(buf, index, true) + [HexByte(buf[index])[1]]
  {
    hide HexByte;
    assert buf[..index + 1][..index] == buf[..index];
    assert HexByte(buf[index]) == [HexByte(buf[index])[0]] + [HexByte(buf[index])[1]];
  }

  lemma StartSending(str: seq<bv8>, buf: seq<bv8>)
    ensures OnTheWay(SEND_SOH, 0, 0, str, INIT, buf) && Sent(SEND_SOH, 0, 0, buf) == []
  {}

  lemma SohSent(d: Count, i: nat, str: seq<bv8>, crc: bv16, buf: seq<bv8>)
    requires i <= |buf| && OnTheWay(SEND_SOH, d, i, str, crc, buf)
    ensures OnTheWay(SEND_STX, d, i, str, crc, buf)
    ensures Sent(SEND_STX, d, i, buf) == Sent(SEND_SOH, d, i, buf) + [SOH]
  {}

  lemma StxSent(d: Count, i: nat, str: seq<bv8>, crc: bv16, buf: seq<bv8>)
    requires i <= |buf| && OnTheWay(SEND_STX, d, i, str, crc, buf)
    ensures OnTheWay(SEND_TEXT, d, i, str, crc, buf) && d == 0
    ensures Sent(SEND_TEXT, d, i, buf) == Sent(SEND_STX, d, i, buf) + [STX]
  {
    hide Update, HexByte, HexText, CrcOf, Typed, HexWord;
    TypedEnds(buf);
  }

  lemma HighSent(d: Count, i: nat, str: seq<bv8>, crc: bv16, buf: seq<bv8>)
    requires i <= |buf| && OnTheWay(SEND_TEXT, d, i, str, crc, buf) && d % 2 == 0 && buf != []
    ensures i < |buf| && Inc(d) % 2 == 1
    ensures var str' := HexByte(buf[i]);
      OnTheWay(SEND_TEXT, Inc(d), i, str', Update(str'[0], crc), buf)
      && Sent(SEND_TEXT, Inc(d), i, buf) == Sent(SEND_TEXT, d, i, buf) + [str'[0]]
  {
    hide Update, HexByte, HexText, CrcOf, Typed, HexWord, Inc;
    IncParity(d);
    TypedNext(buf, i, false);
    CrcAppend(INIT, Typed(buf, i, false), HexByte(buf[i])[0]);
  }

  lemma LowSent(d: Count, i: nat, str: seq<bv8>, crc: bv16, buf: seq<bv8>)
    requires i <= |buf| && OnTheWay(SEND_TEXT, d, i, str, crc, buf) && d % 2 == 1 && buf != []
    ensures i < |buf| && |str| == 2 && Inc(d) % 2 == 0
    ensures var stage := if i + 1 >= |buf| then SEND_ETX else SEND_TEXT;
      OnTheWay(stage, Inc(d), i + 1, str, Update(str[1], crc), buf)
      && Sent(stage, Inc(d), i + 1, buf) == Sent(SEND_TEXT, d, i, buf) + [str[1]]
  {
    hide Update, HexByte, HexText, CrcOf, Typed, HexWord, Inc;
    IncParity(d);
    TypedNext(buf, i, true);
    TypedEnds(buf);
    CrcAppend(INIT, Typed(buf, i, true), HexByte(buf[i])[1]);
  }

  lemma NothingToSend(d: Count, str: seq<bv8>, crc: bv16, buf: seq<bv8>)
    requires OnTheWay(SEND_TEXT, d, 0, str, crc, buf) && buf == []
    ensures OnTheWay(SEND_ETX, d, 0, str, crc, buf) && Sent(SEND_ETX, d, 0, buf) == Sent(SEND_TEXT, d, 0, buf)
  {
    hide Update, HexByte, HexText, CrcOf, Typed, HexWord;
    TypedEnds(buf);
  }

  lemma EtxSent(d: Count, i: nat, str: seq<bv8>, crc: bv16, buf: seq<bv8>)
    requires i <= |buf| && OnTheWay(SEND_ETX, d, i, str, crc, buf)
    ensures OnTheWay(SEND_CRC, 0, i, HexWord(crc), crc, buf)
    ensures Sent(SEND_CRC, 0, i, buf) == Sent(SEND_ETX, d, i, buf) + [ETX]
  {
    hide Update, HexByte, HexText, CrcOf, Typed, HexWord;
  }

  lemma FieldSent(d: Count, i: nat, str: seq<bv8>, crc: bv16, buf: seq<bv8>)
    requires i <= |buf| && OnTheWay(SEND_CRC, d, i, str, crc, buf)
    ensures d <= 4 && |str| == 4 && OnTheWay(SEND_EOT, d, i, str, crc, buf)
    ensures d < 4 ==> OnTheWay(SEND_CRC, d + 1, i, str, crc, buf)
    ensures d < 4 ==> Sent(SEND_CRC, d + 1, i, buf) == Sent(SEND_CRC, d, i, buf) + [str[d]]
    ensures d == 4 ==> Sent(SEND_EOT, d, i, buf) == Sent(SEND_CRC, d, i, buf) + [EOT]
  {
    hide Update, HexByte, HexText, CrcOf, Typed, HexWord;
    if d < 4 {
      assert str[..d + 1] == str[..d] + [str[d]];
    } else {
      assert str[..4] == str;
    }
  }

  lemma AllSent(d: Count, i: nat, str: seq<bv8>, crc: bv16, buf: seq<bv8>)
    requires i <= |buf| && OnTheWay(SEND_EOT, d, i, str, crc, buf)
    ensures i == |buf| && Sent(SEND_EOT, d, i, buf) == Wire(buf)
  {}
}
