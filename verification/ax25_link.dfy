/**
 The AX.25 objects: a frame that setters fill in (`xAx25Frame`), and a link that sends frames,
 polls its input and reads received frames (`xAx25`).  The methods do what the source's
 functions do, byte by byte, and are proved to compute the functions of module Ax25.

 The descriptors are byte sequences: `rx` is what can still be read from the input, `tx` what
 has been written to the output.
 */
module Ax25Link {
  import opened Crc
  import opened Ax25

  const SUCCESS := 0
  const ILLEGAL_CALLSIGN := -2
  const INVALID_FRAME := -3
  const FILE_NOT_FOUND := -8
  const ILLEGAL_REPEATER := -9
  const NO_FRAME_RECEIVED := -10

  // ---------------------------------------------------------------- frames

  class Frame {
    var dst: Node
    var src: Node
    var repeaters: seq<Node>
    var ctrl: bv8
    var pid: bv8
    var info: seq<bv8>

    function Value(): Message
      reads this
    {
      Message(dst, src, repeaters, ctrl, pid, info)
    }

    constructor ()
      ensures Value() == EMPTY_MESSAGE
    {
      dst, src, repeaters := EMPTY_NODE, EMPTY_NODE, [];
      ctrl, pid, info := CTRL_UI, PID_NOLAYER3, [];
    }

    method Clear()
      modifies this
      ensures Value() == EMPTY_MESSAGE
    {
      ctrl, pid, info := CTRL_UI, PID_NOLAYER3, [];
      src, dst := EMPTY_NODE, EMPTY_NODE;
      repeaters := [];
    }

    method SetDst(callsign: seq<bv8>, ssid: bv8)
      modifies this
      ensures Value() == old(Value()).(dst := Node(Truncated(callsign, CALL_LEN), ssid, old(dst.flag)))
    {
      dst := dst.(callsign := Truncated(callsign, CALL_LEN), ssid := ssid);
    }

    method SetSrc(callsign: seq<bv8>, ssid: bv8)
      modifies this
      ensures Value() == old(Value()).(src := Node(Truncated(callsign, CALL_LEN), ssid, old(src.flag)))
    {
      src := src.(callsign := Truncated(callsign, CALL_LEN), ssid := ssid);
    }

    /** The index of the new repeater, unless there are eight already. */
    method AddRepeater(callsign: seq<bv8>, ssid: bv8) returns (r: int)
      modifies this
      ensures old(|repeaters|) >= MAX_RPT ==> r == ILLEGAL_REPEATER && Value() == old(Value())
      ensures old(|repeaters|) < MAX_RPT ==>
        && r == old(|repeaters|)
        && Value() == old(Value()).(repeaters := old(repeaters) + [Node(Truncated(callsign, CALL_LEN), ssid, false)])
    {
      if |repeaters| >= MAX_RPT { return ILLEGAL_REPEATER; }
      r := |repeaters|;
      repeaters := repeaters + [Node(Truncated(callsign, CALL_LEN), ssid, false)];
    }

    method SetRepeaterFlag(index: nat, flag: bool) returns (r: int)
      modifies this
      ensures index >= old(|repeaters|) ==> r == ILLEGAL_REPEATER && Value() == old(Value())
      ensures index < old(|repeaters|) ==>
        && r == SUCCESS
        && Value() == old(Value()).(repeaters := old(repeaters)[index := old(repeaters)[index].(flag := flag)])
    {
      if index >= |repeaters| { return ILLEGAL_REPEATER; }
      repeaters := repeaters[index := repeaters[index].(flag := flag)];
      r := SUCCESS;
    }

    method SetInfo(data: seq<bv8>)
      modifies this
      ensures Value() == old(Value()).(info := if |data| <= BUF_LEN then data else data[..BUF_LEN])
    {
      var n := if |data| < BUF_LEN then |data| else BUF_LEN;
      info := data[..n];
    }
  }

  // ---------------------------------------------------------------- escaping, in pieces

  lemma EscapedSnoc(a: seq<bv8>, c: bv8)
    ensures Escaped(a + [c]) == Escaped(a) + EscapedByte(c)
  {
    assert (a + [c])[..|a|] == a;
  }

  /** What is sent of the address field from station i on: all of it, or up to the first illegal character. */
  function AddressSent(nodes: seq<Node>, i: nat): (r: (bool, seq<bv8>))
    requires i <= |nodes|
    ensures r.0 ==> r.1 == AddressBytes(nodes, i)
    ensures r.0 <==> forall k :: i <= k < |nodes| ==> Legal(nodes[k])
    decreases |nodes| - i
  {
    if i == |nodes| then (true, [])
    else if !Legal(nodes[i]) then (false, CallSent(nodes[i]))
    else
      var (ok, rest) := AddressSent(nodes, i + 1);
      (ok, NodeBytes(nodes[i], i == |nodes| - 1) + rest)
  }

  /** What is sent of a callsign with an illegal character. */
  function CallSent(n: Node): seq<bv8> {
    CallBytes(n.callsign)[..LegalPrefix(n.callsign, SentLength(n.callsign))]
  }

  /** An address field with an illegal character is sent up to that character: the j-th of station k, if those before are legal. */
  lemma {:induction false} AddressCut(nodes: seq<Node>, i: nat, k: nat, j: nat)
    requires i <= k < |nodes| && (forall q :: i <= q < k ==> Legal(nodes[q]))
    requires j < 6 && j < |nodes[k].callsign| && !CallCode(nodes[k].callsign[j])
    requires forall q :: 0 <= q < j ==> CallCode(nodes[k].callsign[q])
    ensures AddressSent(nodes, i) == (false, AddressBytes(nodes, i)[..7 * (k - i) + j])
    decreases k - i
  {
    hide CallCode, IsAlnum, NodeBytes, CallBytes, Legal;
    if i < k {
      AddressCut(nodes, i + 1, k, j);
      var a, t, n := NodeBytes(nodes[i], i == |nodes| - 1), AddressBytes(nodes, i + 1), 7 * (k - i - 1) + j;
      assert (a + t)[..7 + n] == a + t[..n];
    } else {
      LegalIs(nodes[k]);
      CallCut(nodes[k], k == |nodes| - 1, j);
      assert AddressBytes(nodes, k)[..j] == NodeBytes(nodes[k], k == |nodes| - 1)[..j];
    }
  }

  lemma CallCut(n: Node, last: bool, j: nat)
    requires j < 6 && j < |n.callsign| && !CallCode(n.callsign[j])
    requires forall q :: 0 <= q < j ==> CallCode(n.callsign[q])
    ensures CallSent(n) == NodeBytes(n, last)[..j]
  {
    hide CallCode, IsAlnum, CallBytes, SsidByte;
    forall q | 0 <= q <= j
      ensures CallCode(n.callsign[q]) <==> IsAlnum(n.callsign[q]) || n.callsign[q] == SPACE
    {
      CallCodeIs(n.callsign[q]);
    }
    LegalPrefixIs(n.callsign, SentLength(n.callsign), j);
    assert NodeBytes(n, last)[..j] == CallBytes(n.callsign)[..j];
  }

  lemma {:induction false} LegalPrefixIs(call: seq<bv8>, n: nat, k: nat)
    requires k < n <= |call| && !IsAlnum(call[k]) && call[k] != SPACE
    requires forall i :: 0 <= i < k ==> IsAlnum(call[i]) || call[i] == SPACE
    ensures LegalPrefix(call, n) == k
  {
    hide IsAlnum;
  }

  // ---------------------------------------------------------------- links

  class Link {
    var finOpen: bool
    var foutOpen: bool
    var rx: seq<bv8>
    var tx: seq<bv8>
    const buf: array<bv8>
    var len: nat
    var crcIn: bv16
    var crcOut: bv16
    var sync: bool
    var escape: bool
    var frmRecv: bool
    var error: int

    function State(): Receiver
      requires len <= buf.Length
      reads this, buf
    {
      Receiver(buf[..len], crcIn, sync, escape, frmRecv)
    }

    ghost predicate Valid()
      reads this, buf
    {
      buf.Length == BUF_LEN && len <= BUF_LEN && Consistent(State())
    }

    constructor (finOpen: bool, foutOpen: bool, rx: seq<bv8>)
      ensures Valid() && fresh(buf)
      ensures State() == CLEARED && this.finOpen == finOpen && this.foutOpen == foutOpen
      ensures this.rx == rx && tx == []
    {
      this.finOpen, this.foutOpen, this.rx, tx := finOpen, foutOpen, rx, [];
      buf := new bv8[BUF_LEN](_ => 0);
      len, crcIn, crcOut := 0, INIT, INIT;
      sync, escape, frmRecv, error := false, false, false, SUCCESS;
    }

    // -------------------------------------------------------------- sending

    method PutChar(c: bv8)
      modifies `tx, `crcOut
      ensures tx == old(tx) + EscapedByte(c)
      ensures crcOut == Update(c, old(crcOut))
    {
      if c == HDLC_FLAG || c == HDLC_RESET || c == ESC {
        tx := tx + [ESC];
      }
      crcOut := Update(c, crcOut);
      tx := tx + [c];
    }

    /** Put several characters; the loops below are this one with other sources of characters. */
    method PutAll(s: seq<bv8>)
      modifies `tx, `crcOut
      ensures tx == old(tx) + Escaped(s)
      ensures crcOut == CrcOf(old(crcOut), s)
    {
      hide Update, EscapedByte;
      for i := 0 to |s|
        invariant tx == old(tx) + Escaped(s[..i])
        invariant crcOut == CrcOf(old(crcOut), s[..i])
      {
        assert s[..i + 1] == s[..i] + [s[i]];
        EscapedSnoc(s[..i], s[i]);
        CrcAppend(old(crcOut), s[..i], s[i]);
        PutChar(s[i]);
      }
      assert s[..|s|] == s;
    }

    /** `prviSendCall`. */
    method SendCall(n: Node, last: bool) returns (status: int)
      modifies `tx, `crcOut, `error
      ensures status == error == if Legal(n) then SUCCESS else ILLEGAL_CALLSIGN
      ensures var s := if Legal(n) then NodeBytes(n, last) else CallSent(n);
        tx == old(tx) + Escaped(s) && crcOut == CrcOf(old(crcOut), s)
    {
      hide Update, EscapedByte, SsidByte, ToUpper, IsAlnum, Escaped, CrcOf, LegalPrefix;
      var len := if |n.callsign| < CALL_LEN then |n.callsign| else CALL_LEN;
      ghost var b := CallBytes(n.callsign);
      StartEmpty(crcOut);
      for i := 0 to len
        invariant forall k :: 0 <= k < i ==> IsAlnum(n.callsign[k]) || n.callsign[k] == SPACE
        invariant tx == old(tx) + Escaped(b[..i]) && crcOut == CrcOf(old(crcOut), b[..i])
      {
        var c := n.callsign[i];
        if !(IsAlnum(c) || c == SPACE) {
          LegalPrefixIs(n.callsign, len, i);
          error := ILLEGAL_CALLSIGN;
          return error;
        }
        PutNext(b, i, old(crcOut));
        PutChar(Shifted(ToUpper(c)));
      }
      AllLegalPrefix(n);
      for i := len to CALL_LEN
        invariant tx == old(tx) + Escaped(b[..i]) && crcOut == CrcOf(old(crcOut), b[..i])
      {
        PutNext(b, i, old(crcOut));
        PutChar(Shifted(SPACE));
      }
      ghost var s := NodeBytes(n, last);
      assert s[..CALL_LEN] == b[..CALL_LEN] && s[..NODE_LEN] == s;
      PutNext(s, CALL_LEN, old(crcOut));
      PutChar(SsidByte(n, last));
      error := SUCCESS;
      status := error;
    }

    /** `iAx25Send`. */
    method Send(f: Frame) returns (status: int)
      modifies `tx, `crcOut, `error
      ensures !foutOpen ==> status == FILE_NOT_FOUND && tx == old(tx)
      ensures foutOpen && AllLegal(f.Value()) ==> status == SUCCESS && tx == old(tx) + Wire(f.Value())
      ensures foutOpen && !AllLegal(f.Value()) ==>
        status == ILLEGAL_CALLSIGN && tx == old(tx) + [HDLC_FLAG] + Escaped(AddressSent(f.Value().Nodes(), 0).1)
    {
      hide Update, Escaped, CrcOf, CheckLow, CheckHigh, Legal, CallSent;
      if !foutOpen { return FILE_NOT_FOUND; }
      ghost var m := f.Value();
      ghost var t0 := tx;
      crcOut := INIT;
      tx := tx + [HDLC_FLAG];
      status := SendAddresses(f.Value().Nodes());
      if status != SUCCESS { return; }
      ghost var a, t1 := AddressBytes(m.Nodes(), 0), tx;
      PutAll([f.ctrl, f.pid] + f.info);
      assert Body(m) == a + ([m.ctrl, m.pid] + m.info);
      CrcConcat(INIT, a, [m.ctrl, m.pid] + m.info);
      EscapedConcat(a, [m.ctrl, m.pid] + m.info);
      var crcl, crch := CheckLow(crcOut), CheckHigh(crcOut);
      PutAll([crcl, crch]);
      ResidueIff(CrcOf(INIT, Body(m)), crcl, crch);
      EscapedConcat(Body(m), [crcl, crch]);
      if crcOut != RESIDUE {
        // the source returns AX25_CRC_ERROR here; the branch is dead
        assert false;
      }
      tx := tx + [HDLC_FLAG];
      error := SUCCESS;
      status := SUCCESS;
    }

    /** The address field: the destination, the source and the repeaters, the last one marked. */
    method SendAddresses(nodes: seq<Node>) returns (status: int)
      modifies `tx, `crcOut, `error
      ensures var (ok, s) := AddressSent(nodes, 0);
        && status == (if ok then SUCCESS else ILLEGAL_CALLSIGN)
        && tx == old(tx) + Escaped(s) && crcOut == CrcOf(old(crcOut), s)
    {
      hide Update, Escaped, CrcOf, Legal, CallSent, NodeBytes;
      ghost var s := AddressSent(nodes, 0).1;
      ghost var done: seq<bv8> := [];
      StartEmpty(crcOut);
      for i := 0 to |nodes|
        invariant tx == old(tx) + Escaped(done) && crcOut == CrcOf(old(crcOut), done)
        invariant s == done + AddressSent(nodes, i).1
        invariant AddressSent(nodes, 0).0 == AddressSent(nodes, i).0
      {
        ghost var n := if Legal(nodes[i]) then NodeBytes(nodes[i], i == |nodes| - 1) else CallSent(nodes[i]);
        status := SendCall(nodes[i], i == |nodes| - 1);
        EscapedConcat(done, n);
        CrcConcat(old(crcOut), done, n);
        done := done + n;
        if status != SUCCESS {
          assert done == s;
          return;
        }
      }
      assert done == s;
      status := SUCCESS;
    }

    // -------------------------------------------------------------- receiving

    /** `bAx25Poll`. */
    method Poll() returns (received: bool)
      requires Valid()
      modifies this, buf
      ensures Valid() && tx == old(tx) && finOpen == old(finOpen) && foutOpen == old(foutOpen)
      ensures !finOpen ==> !received && State() == old(State()) && rx == old(rx)
      ensures finOpen ==> received == frmRecv && (State(), rx) == Ax25.Poll(old(State()), old(rx))
    {
      hide Update, Receive, Consistent;
      if !finOpen { return false; }
      while !frmRecv && rx != []
        invariant Valid() && tx == old(tx) && finOpen == old(finOpen) && foutOpen == old(foutOpen)
        invariant Ax25.Poll(old(State()), old(rx)) == Ax25.Poll(State(), rx)
        decreases |rx|
      {
        var c := rx[0];
        rx := rx[1..];
        ReceiveConsistent(State(), c);
        ReceiveByte(c);
      }
      received := frmRecv;
    }

    /** The body of the polling loop. */
    method ReceiveByte(c: bv8)
      requires buf.Length == BUF_LEN && len <= BUF_LEN
      modifies `len, `crcIn, `sync, `escape, `frmRecv, buf
      ensures len <= BUF_LEN && State() == Receive(old(State()), c)
    {
      hide Update;
      if !escape && c == HDLC_FLAG {
        if len >= MIN_FRAME_LEN {
          if crcIn == RESIDUE {
            frmRecv := true;
            return;
          }
        }
        sync, crcIn, len := true, INIT, 0;
        return;
      }
      if !escape && c == HDLC_RESET {
        sync := false;
        return;
      }
      if !escape && c == ESC {
        escape := true;
        return;
      }
      if sync {
        if len < BUF_LEN {
          buf[len] := c;
          len := len + 1;
          crcIn := Update(c, crcIn);
          assert buf[..len] == old(buf[..len]) + [c];
        } else {
          sync := false;
        }
      }
      escape := false;
    }

    // -------------------------------------------------------------- reading

    /** `prvxExtractCallsign`. */
    method ExtractCallsign(p: nat) returns (callsign: seq<bv8>)
      requires p + CALL_LEN <= buf.Length
      ensures Truncated(callsign, CALL_LEN) == ExtractCall(buf[..], p)
    {
      hide CallChar;
      ghost var b := buf[..];
      callsign := [];
      for i := 0 to CALL_LEN
        invariant |callsign| == i && forall k :: 0 <= k < i ==> callsign[k] == CallChar(b[p + k])
      {
        callsign := callsign + [CallChar(buf[p + i])];
      }
      assert callsign == seq(CALL_LEN, i requires 0 <= i < CALL_LEN => CallChar(b[p + i]));
    }

    /** The repeater loop of `prviDecode`; the result is the position after the address field. */
    method DecodeRepeaters(f: Frame) returns (p: nat)
      requires buf.Length == BUF_LEN && f.repeaters == []
      modifies f
      ensures (f.repeaters, p) == ParseRepeaters(buf[..], 2 * NODE_LEN - 1, 0)
      ensures f.Value() == old(f.Value()).(repeaters := f.repeaters)
    {
      hide ExtractCall, SsidOf, RepeaterAt, ParseRepeaters;
      ghost var b := buf[..];
      ghost var all := ParseRepeaters(b, 2 * NODE_LEN - 1, 0);
      p := 2 * NODE_LEN - 1;
      var index := 0;
      assert all.0 == [] + all.0;
      while buf[p] & 0x01 == 0 && index < MAX_RPT
        invariant index == |f.repeaters| <= MAX_RPT && p == 2 * NODE_LEN - 1 + NODE_LEN * index
        invariant all.0 == f.repeaters + ParseRepeaters(b, p, index).0 && all.1 == ParseRepeaters(b, p, index).1
        invariant f.Value() == old(f.Value()).(repeaters := f.repeaters)
        decreases MAX_RPT - index
      {
        ghost var before, rest := f.repeaters, ParseRepeaters(b, p + NODE_LEN, index + 1);
        ParseNext(b, p, index);
        assert before + ([RepeaterAt(b, p + 1)] + rest.0) == (before + [RepeaterAt(b, p + 1)]) + rest.0;
        DecodeRepeater(f, p + 1, index);
        p := p + NODE_LEN;
        index := index + 1;
      }
      ParseEnd(b, p, index);
      assert all.0 == f.repeaters;
      p := p + 1;
    }

    /** The repeater at position p becomes the frame's next. */
    method DecodeRepeater(f: Frame, p: nat, index: nat)
      requires p + NODE_LEN <= buf.Length == BUF_LEN && index == |f.repeaters| < MAX_RPT
      modifies f
      ensures f.Value() == old(f.Value()).(repeaters := old(f.repeaters) + [RepeaterAt(buf[..], p)])
    {
      hide ExtractCall, SsidOf;
      var cs := ExtractCallsign(p);
      var r := f.AddRepeater(cs, SsidOf(buf[p + CALL_LEN]));
      r := f.SetRepeaterFlag(index, buf[p + CALL_LEN] & 0x80 != 0);
    }

    /** The end stations and the repeaters; the result is the position after the address field. */
    method DecodeAddresses(f: Frame) returns (p: nat)
      requires buf.Length == BUF_LEN
      modifies f
      ensures var b := buf[..];
        && p == AddressEnd(b)
        && f.Value() == Message(Node(ExtractCall(b, 0), SsidOf(b[6]), false), Node(ExtractCall(b, 7), SsidOf(b[13]), false),
                                ParseRepeaters(b, 2 * NODE_LEN - 1, 0).0, CTRL_UI, PID_NOLAYER3, [])
    {
      hide ExtractCall, SsidOf, ParseRepeaters;
      f.Clear();
      var cs := ExtractCallsign(0);
      f.SetDst(cs, SsidOf(buf[6]));
      cs := ExtractCallsign(7);
      f.SetSrc(cs, SsidOf(buf[13]));
      p := DecodeRepeaters(f);
    }

    /** `iAx25Read`: decode the received frame, if there is one, and make the receiver ready for the next. */
    method Read(f: Frame) returns (status: int)
      requires Valid()
      requires frmRecv && IsUi(buf[..]) ==> AddressEnd(buf[..]) + 4 <= len
      modifies this, f
      ensures Valid() && rx == old(rx) && tx == old(tx) && finOpen == old(finOpen) && foutOpen == old(foutOpen)
      ensures !old(frmRecv) ==>
        status == NO_FRAME_RECEIVED && State() == old(State()) && f.Value() == old(f.Value())
      ensures old(frmRecv) && IsUi(buf[..]) ==>
        status == SUCCESS && State() == CLEARED && f.Value() == Decode(buf[..], old(len))
      ensures old(frmRecv) && !IsUi(buf[..]) ==>
        status == INVALID_FRAME && State() == old(State()) && f.info == []
    {
      hide ExtractCall, SsidOf, ParseRepeaters, Consistent, AddressEnd;
      if !frmRecv { return NO_FRAME_RECEIVED; }
      error := SUCCESS;
      status := DecodeFrame(f);
      if status == SUCCESS { Reset(); }
    }

    /** `prviDecode`, up to the point where it makes the receiver ready for the next frame. */
    method DecodeFrame(f: Frame) returns (status: int)
      requires buf.Length == BUF_LEN && len <= BUF_LEN
      requires IsUi(buf[..]) ==> AddressEnd(buf[..]) + 4 <= len
      modifies f
      ensures IsUi(buf[..]) ==> status == SUCCESS && f.Value() == Decode(buf[..], len)
      ensures !IsUi(buf[..]) ==> status == INVALID_FRAME && f.info == []
    {
      hide ExtractCall, SsidOf, ParseRepeaters, AddressEnd, Decode;
      ghost var b := buf[..];
      var p := DecodeAddresses(f);
      f.ctrl := buf[p];
      if f.ctrl != CTRL_UI { return INVALID_FRAME; }
      f.pid := buf[p + 1];
      if f.pid != PID_NOLAYER3 { return INVALID_FRAME; }
      f.info := buf[p + 2..len - 2];
      DecodeIs(b, len);
      assert f.info == b[p + 2..len - 2];
      status := SUCCESS;
    }

    method Reset()
      requires buf.Length == BUF_LEN
      modifies `sync, `crcIn, `len, `escape, `frmRecv
      ensures Valid() && State() == CLEARED
    {
      sync, crcIn, len, escape, frmRecv := false, INIT, 0, false, false;
      ClearedConsistent();
      assert State() == CLEARED;
    }
  }

  lemma ParseNext(b: seq<bv8>, p: nat, index: nat)
    requires index < MAX_RPT && p + NODE_LEN * (MAX_RPT - index) < |b| && b[p] & 0x01 == 0
    ensures var rest := ParseRepeaters(b, p + NODE_LEN, index + 1);
      ParseRepeaters(b, p, index) == ([RepeaterAt(b, p + 1)] + rest.0, rest.1)
  {
    hide RepeaterAt;
  }

  lemma ParseEnd(b: seq<bv8>, p: nat, index: nat)
    requires index <= MAX_RPT && p + NODE_LEN * (MAX_RPT - index) < |b|
    requires b[p] & 0x01 != 0 || index == MAX_RPT
    ensures ParseRepeaters(b, p, index) == ([], p + 1)
  {}

  lemma DecodeIs(b: seq<bv8>, len: nat)
    requires |b| == BUF_LEN && len <= BUF_LEN
    requires IsUi(b) && AddressEnd(b) + 4 <= len
    ensures Decode(b, len) == Message(Node(ExtractCall(b, 0), SsidOf(b[6]), false), Node(ExtractCall(b, 7), SsidOf(b[13]), false),
                                      ParseRepeaters(b, 2 * NODE_LEN - 1, 0).0, CTRL_UI, PID_NOLAYER3,
                                      b[AddressEnd(b) + 2..len - 2])
  {
    hide ExtractCall, SsidOf;
  }

  lemma StartEmpty(crc: bv16)
    ensures Escaped([]) == [] && CrcOf(crc, []) == crc
  {}

  lemma PutNext(b: seq<bv8>, i: nat, crc: bv16)
    requires i < |b|
    ensures Escaped(b[..i + 1]) == Escaped(b[..i]) + EscapedByte(b[i])
    ensures CrcOf(crc, b[..i + 1]) == Update(b[i], CrcOf(crc, b[..i]))
  {
    hide Update, EscapedByte;
    assert b[..i + 1] == b[..i] + [b[i]];
    EscapedSnoc(b[..i], b[i]);
    CrcAppend(crc, b[..i], b[i]);
  }

  lemma AllLegalPrefix(n: Node)
    requires forall k :: 0 <= k < SentLength(n.callsign) ==> IsAlnum(n.callsign[k]) || n.callsign[k] == SPACE
    ensures Legal(n)
  {
    hide IsAlnum;
  }
}
