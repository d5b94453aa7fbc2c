/**
 The AX.25 link layer of the radio library: what `iAx25Send` puts on the wire, the receiver
 that `bAx25Poll` drives one byte at a time, and the decoder behind `iAx25Read`, as functions
 on values.  Module Ax25Link has the objects whose methods compute them.
 */
module Ax25 {
  import opened Crc

  const CALL_LEN := 6
  const NODE_LEN := 7
  const MAX_RPT := 8
  const BUF_LEN := 330
  const MIN_FRAME_LEN := 18
  const CTRL_UI: bv8 := 0x03
  const PID_NOLAYER3: bv8 := 0xF0
  const HDLC_FLAG: bv8 := 0x7E
  const HDLC_RESET: bv8 := 0x7F
  const ESC: bv8 := 0x1B
  const SPACE: bv8 := 0x20

  /** A station: its callsign (the characters before the terminating zero), SSID and general purpose flag. */
  datatype Node = Node(callsign: seq<bv8>, ssid: bv8, flag: bool)

  datatype Message = Message(dst: Node, src: Node, repeaters: seq<Node>, ctrl: bv8, pid: bv8, info: seq<bv8>)
  {
    /** The stations of the address field, in the order they are sent. */
    function Nodes(): (n: seq<Node>)
      ensures |n| == 2 + |repeaters|
    {
      [dst, src] + repeaters
    }
  }

  const EMPTY_NODE := Node([], 0, false)
  const EMPTY_MESSAGE := Message(EMPTY_NODE, EMPTY_NODE, [], CTRL_UI, PID_NOLAYER3, [])

  // ---------------------------------------------------------------- the sender

  predicate IsLower(c: bv8) { 0x61 <= c <= 0x7A }

  predicate IsUpperOrDigit(c: bv8) { 0x41 <= c <= 0x5A || 0x30 <= c <= 0x39 }

  predicate IsAlnum(c: bv8) { IsLower(c) || IsUpperOrDigit(c) }

  function ToUpper(c: bv8): bv8 { if IsLower(c) then c - 0x20 else c }

  /** The number of leading characters of a callsign that may be sent; all that are sent, if it is legal. */
  function LegalPrefix(call: seq<bv8>, n: nat): (k: nat)
    requires n <= |call|
    ensures k <= n
    ensures forall i :: 0 <= i < k ==> IsAlnum(call[i]) || call[i] == SPACE
    ensures k < n ==> !IsAlnum(call[k]) && call[k] != SPACE
  {
    if n == 0 then 0
    else
      var k := LegalPrefix(call, n - 1);
      if k < n - 1 then k else if IsAlnum(call[n - 1]) || call[n - 1] == SPACE then n else n - 1
  }

  function SentLength(call: seq<bv8>): nat { if |call| < CALL_LEN then |call| else CALL_LEN }

  predicate Legal(n: Node) {
    LegalPrefix(n.callsign, SentLength(n.callsign)) == SentLength(n.callsign)
  }

  /** The callsign as sent: upper case, shifted left, filled with spaces. */
  function CallBytes(call: seq<bv8>): (b: seq<bv8>)
    ensures |b| == CALL_LEN
  {
    seq(CALL_LEN, i requires 0 <= i < CALL_LEN => Shifted(if i < |call| then ToUpper(call[i]) else SPACE))
  }

  /** A character in the seven high bits. */
  function Shifted(c: bv8): bv8 { c << 1 }

  function SsidByte(n: Node, last: bool): bv8 {
    0x60 | (if n.flag then 0x80 else 0) | (n.ssid << 1) | (if last then 0x01 else 0)
  }

  function NodeBytes(n: Node, last: bool): (b: seq<bv8>)
    ensures |b| == NODE_LEN
  {
    CallBytes(n.callsign) + [SsidByte(n, last)]
  }

  /** The address field from station i on. */
  function AddressBytes(nodes: seq<Node>, i: nat): (b: seq<bv8>)
    requires i <= |nodes|
    ensures |b| == NODE_LEN * (|nodes| - i)
    decreases |nodes| - i
  {
    if i == |nodes| then [] else NodeBytes(nodes[i], i == |nodes| - 1) + AddressBytes(nodes, i + 1)
  }

  /** The frame without its check bytes. */
  function Body(m: Message): (b: seq<bv8>)
    ensures |b| == NODE_LEN * (2 + |m.repeaters|) + 2 + |m.info|
  {
    AddressBytes(m.Nodes(), 0) + [m.ctrl, m.pid] + m.info
  }

  /** The frame with its check bytes. */
  function Checked(b: seq<bv8>): seq<bv8> {
    b + [CheckLow(CrcOf(INIT, b)), CheckHigh(CrcOf(INIT, b))]
  }

  predicate IsSpecial(c: bv8) { c == HDLC_FLAG || c == HDLC_RESET || c == ESC }

  function EscapedByte(c: bv8): seq<bv8> { if IsSpecial(c) then [ESC, c] else [c] }

  function Escaped(s: seq<bv8>): seq<bv8>
    decreases |s|
  {
    if s == [] then [] else Escaped(s[..|s| - 1]) + EscapedByte(s[|s| - 1])
  }

  /** What a successful `iAx25Send` writes. */
  function Wire(m: Message): seq<bv8> {
    [HDLC_FLAG] + Escaped(Checked(Body(m))) + [HDLC_FLAG]
  }

  predicate AllLegal(m: Message) {
    forall i :: 0 <= i < |m.Nodes()| ==> Legal(m.Nodes()[i])
  }

  // ---------------------------------------------------------------- the receiver

  datatype Receiver = Receiver(buf: seq<bv8>, crcIn: bv16, sync: bool, escape: bool, frmRecv: bool)

  /** The receiver after `iAx25Clear`, and after a frame has been read. */
  const CLEARED := Receiver([], INIT, false, false, false)

  /** One byte of `bAx25Poll`'s loop. */
  function Receive(st: Receiver, c: bv8): Receiver {
    if !st.escape && c == HDLC_FLAG then
      if |st.buf| >= MIN_FRAME_LEN && st.crcIn == RESIDUE then st.(frmRecv := true)
      else st.(sync := true, crcIn := INIT, buf := [])
    else if !st.escape && c == HDLC_RESET then
      st.(sync := false)
    else if !st.escape && c == ESC then
      st.(escape := true)
    else if !st.sync then
      st.(escape := false)
    else if |st.buf| < BUF_LEN then
      st.(buf := st.buf + [c], crcIn := Update(c, st.crcIn), escape := false)
    else
      st.(sync := false, escape := false)
  }

  /** `bAx25Poll`: read bytes until a frame is complete or there are no more. */
  function Poll(st: Receiver, input: seq<bv8>): (r: (Receiver, seq<bv8>))
    ensures |r.1| <= |input|
    ensures st.frmRecv || input == [] || |r.1| < |input|
    decreases |input|
  {
    if st.frmRecv || input == [] then (st, input) else Poll(Receive(st, input[0]), input[1..])
  }

  // ---------------------------------------------------------------- the decoder

  /** `strncpy` of a callsign: its first six characters, up to the first zero. */
  function Truncated(s: seq<bv8>, n: nat): (t: seq<bv8>)
    ensures |t| <= n
    decreases n
  {
    if n == 0 || s == [] || s[0] == 0 then [] else [s[0]] + Truncated(s[1..], n - 1)
  }

  function CallChar(b: bv8): bv8 {
    var c := b >> 1;
    if c == SPACE then 0 else c
  }

  /** `prvxExtractCallsign` at position p, stored as `iAx25NodeSetCallsign` does. */
  function ExtractCall(b: seq<bv8>, p: nat): seq<bv8>
    requires p + CALL_LEN <= |b|
  {
    Truncated(seq(CALL_LEN, i requires 0 <= i < CALL_LEN => CallChar(b[p + i])), CALL_LEN)
  }

  function SsidOf(c: bv8): bv8 { (c >> 1) & 0x0F }

  /** The repeater whose address starts at position p. */
  function RepeaterAt(b: seq<bv8>, p: nat): Node
    requires p + NODE_LEN <= |b|
  {
    Node(ExtractCall(b, p), SsidOf(b[p + CALL_LEN]), b[p + CALL_LEN] & 0x80 != 0)
  }

  /**
   The repeater loop of `prviDecode`: p is the SSID byte of the last address read, index the
   number of repeaters read.  The result ends with the position after the address field.
   */
  function ParseRepeaters(b: seq<bv8>, p: nat, index: nat): (r: (seq<Node>, nat))
    requires index <= MAX_RPT && p + NODE_LEN * (MAX_RPT - index) < |b|
    ensures p < r.1 <= p + NODE_LEN * (MAX_RPT - index) + 1
    decreases MAX_RPT - index
  {
    if b[p] & 0x01 == 0 && index < MAX_RPT then
      var (rest, q) := ParseRepeaters(b, p + NODE_LEN, index + 1);
      ([RepeaterAt(b, p + 1)] + rest, q)
    else
      ([], p + 1)
  }

  /** The position after the address field of a receive buffer. */
  function AddressEnd(b: seq<bv8>): (q: nat)
    requires |b| == BUF_LEN
    ensures 14 <= q <= 70
  {
    ParseRepeaters(b, 2 * NODE_LEN - 1, 0).1
  }

  /** Whether `prviDecode` accepts the frame: unnumbered information, no layer 3. */
  predicate IsUi(b: seq<bv8>)
    requires |b| == BUF_LEN
  {
    b[AddressEnd(b)] == CTRL_UI && b[AddressEnd(b) + 1] == PID_NOLAYER3
  }

  /** The frame `prviDecode` fills in from the buffer b, of which len bytes were received. */
  function Decode(b: seq<bv8>, len: nat): Message
    requires |b| == BUF_LEN && len <= BUF_LEN
    requires IsUi(b) && AddressEnd(b) + 4 <= len
  {
    var (rpt, p) := ParseRepeaters(b, 2 * NODE_LEN - 1, 0);
    Message(Node(ExtractCall(b, 0), SsidOf(b[6]), false),
            Node(ExtractCall(b, 7), SsidOf(b[13]), false),
            rpt, CTRL_UI, PID_NOLAYER3, b[p + 2..len - 2])
  }

  // ---------------------------------------------------------------- what every reachable receiver keeps

  ghost predicate Consistent(st: Receiver) {
    && |st.buf| <= BUF_LEN
    && st.crcIn == CrcOf(INIT, st.buf)
    && (st.frmRecv ==> |st.buf| >= MIN_FRAME_LEN && st.crcIn == RESIDUE)
  }

  /** Synchronised or not, the buffer is within bounds and the running CRC is the buffer's. */
  lemma ReceiveConsistent(st: Receiver, c: bv8)
    requires Consistent(st) && !st.frmRecv
    ensures Consistent(Receive(st, c))
  {
    hide Update;
    CrcAppend(INIT, st.buf, c);
  }

  lemma {:induction false} PollConsistent(st: Receiver, input: seq<bv8>)
    requires Consistent(st)
    ensures Consistent(Poll(st, input).0)
    decreases |input|
  {
    hide Receive, Consistent;
    if !st.frmRecv && input != [] {
      ReceiveConsistent(st, input[0]);
      PollConsistent(Receive(st, input[0]), input[1..]);
    }
  }

  lemma ResidueOfTwo(body: seq<bv8>, lo: bv8, hi: bv8)
    ensures CrcOf(INIT, body + [lo, hi]) == RESIDUE
      <==> lo == CheckLow(CrcOf(INIT, body)) && hi == CheckHigh(CrcOf(INIT, body))
  {
    hide CheckLow, CheckHigh, CrcOf;
    CrcConcat(INIT, body, [lo, hi]);
    ResidueIff(CrcOf(INIT, body), lo, hi);
  }

  lemma CheckedIff(body: seq<bv8>, lo: bv8, hi: bv8)
    ensures body + [lo, hi] == Checked(body)
      <==> lo == CheckLow(CrcOf(INIT, body)) && hi == CheckHigh(CrcOf(INIT, body))
  {
    hide CheckLow, CheckHigh, CrcOf;
    var a, b, n := body + [lo, hi], Checked(body), |body|;
    assert a[n] == lo && a[n + 1] == hi;
    assert b[n] == CheckLow(CrcOf(INIT, body)) && b[n + 1] == CheckHigh(CrcOf(INIT, body));
  }

  /** A buffer has the good residue exactly when it is a body with its check bytes. */
  lemma ResidueMeansChecked(b: seq<bv8>)
    requires |b| >= 2
    ensures CrcOf(INIT, b) == RESIDUE <==> b == Checked(b[..|b| - 2])
  {
    hide CheckLow, CheckHigh, CrcOf, Checked;
    var n := |b| - 2;
    assert b == b[..n] + [b[n], b[n + 1]];
    ResidueOfTwo(b[..n], b[n], b[n + 1]);
    CheckedIff(b[..n], b[n], b[n + 1]);
  }

  /** A received frame is at least 18 bytes long and ends with its own complemented CRC, low byte first. */
  lemma ReceivedIsChecked(st: Receiver)
    requires Consistent(st) && st.frmRecv
    ensures |st.buf| >= MIN_FRAME_LEN && st.buf == Checked(st.buf[..|st.buf| - 2])
  {
    ResidueMeansChecked(st.buf);
  }

  /** A received frame with one byte changed would not have been accepted. */
  lemma CorruptionRejected(st: Receiver, p: nat, c: bv8)
    requires Consistent(st) && st.frmRecv
    requires p < |st.buf| && c != st.buf[p]
    ensures CrcOf(INIT, st.buf[p := c]) != RESIDUE
  {
    hide Update;
    OneByteDetected(INIT, st.buf, p, c);
  }

  // ---------------------------------------------------------------- polling in pieces

  /** Bytes may arrive in any pieces: polling them one after the other is polling them together. */
  lemma {:induction false} PollSplit(st: Receiver, a: seq<bv8>, b: seq<bv8>)
    ensures Poll(st, a + b) == if Poll(st, a).0.frmRecv then (Poll(st, a).0, Poll(st, a).1 + b) else Poll(Poll(st, a).0, b)
    ensures Poll(st, a).0.frmRecv || Poll(st, a).1 == []
    decreases |a|
  {
    hide Receive;
    if a == [] {
      assert a + b == b;
      if st.frmRecv { assert Poll(st, b) == (st, b); }
    } else if st.frmRecv {
    } else {
      assert (a + b)[0] == a[0] && (a + b)[1..] == a[1..] + b;
      PollSplit(Receive(st, a[0]), a[1..], b);
    }
  }

  lemma PollOne(st: Receiver, c: bv8)
    requires !st.frmRecv
    ensures Poll(st, [c]) == (Receive(st, c), [])
  {
    hide Receive;
    assert Poll(Receive(st, c), []) == (Receive(st, c), []);
  }

  /** A synchronised receiver undoes the escaping. */
  lemma {:induction false} PollEscaped(st: Receiver, s: seq<bv8>)
    requires st.sync && !st.escape && !st.frmRecv && |st.buf| + |s| <= BUF_LEN
    ensures Poll(st, Escaped(s)) == (st.(buf := st.buf + s, crcIn := CrcOf(st.crcIn, s)), [])
  {
    hide Update;
    if s == [] {
      assert st.buf + [] == st.buf;
    } else {
      var n := |s| - 1;
      var c, st' := s[n], st.(buf := st.buf + s[..n], crcIn := CrcOf(st.crcIn, s[..n]));
      PollEscaped(st, s[..n]);
      PollSplit(st, Escaped(s[..n]), EscapedByte(c));
      assert st.buf + s == st'.buf + [c];
      if IsSpecial(c) {
        PollSplit(st', [ESC], [c]);
        PollOne(st', ESC);
        PollOne(st'.(escape := true), c);
        assert [ESC, c] == [ESC] + [c];
      } else {
        PollOne(st', c);
      }
    }
  }

  // ---------------------------------------------------------------- one frame through the receiver

  /** A frame sent to a receiver that is not holding a complete one is received, and the rest of the input is left. */
  lemma WireReceived(st: Receiver, m: Message, rest: seq<bv8>)
    requires !st.escape && !st.frmRecv && !(|st.buf| >= MIN_FRAME_LEN && st.crcIn == RESIDUE)
    requires |Body(m)| + 2 <= BUF_LEN
    ensures Poll(st, Wire(m) + rest) == (Receiver(Checked(Body(m)), RESIDUE, true, false, true), rest)
  {
    hide Update, Body, Escaped, CheckLow, CheckHigh;
    var b := Checked(Body(m));
    var st1 := Receiver([], INIT, true, false, false);
    var st2 := Receiver(b, CrcOf(INIT, b), true, false, false);
    assert b[..|b| - 2] == Body(m);
    ResidueMeansChecked(b);
    assert Wire(m) + rest == [HDLC_FLAG] + (Escaped(b) + ([HDLC_FLAG] + rest));
    PollSplit(st, [HDLC_FLAG], Escaped(b) + ([HDLC_FLAG] + rest));
    PollOne(st, HDLC_FLAG);
    PollSplit(st1, Escaped(b), [HDLC_FLAG] + rest);
    PollEscaped(st1, b);
    assert [] + b == b;
    BodyLength(m);
    PollSplit(st2, [HDLC_FLAG], rest);
    PollOne(st2, HDLC_FLAG);
    assert [] + rest == rest;
  }

  lemma BodyLength(m: Message)
    ensures |Body(m)| >= 16
  {}

  // ---------------------------------------------------------------- decoding undoes encoding

  /** The frames that survive: legal callsigns, UI frames without layer 3, small enough for the buffer. */
  predicate Deliverable(m: Message) {
    && AllLegal(m)
    && |m.repeaters| <= MAX_RPT
    && m.ctrl == CTRL_UI && m.pid == PID_NOLAYER3
    && |Body(m)| + 2 <= BUF_LEN
  }

  function Upper(call: seq<bv8>): (u: seq<bv8>)
    ensures |u| == |call|
    ensures forall i :: 0 <= i < |call| ==> u[i] == if 0x61 <= call[i] <= 0x7A then call[i] - 0x20 else call[i]
  {
    seq(|call|, i requires 0 <= i < |call| => ToUpper(call[i]))
  }

  /** What is kept of a callsign: its first n characters, up to the first space. */
  function Kept(call: seq<bv8>, n: nat): (k: seq<bv8>)
    ensures |k| <= n && k <= call
    ensures forall i :: 0 <= i < |k| ==> k[i] != SPACE
    ensures |k| == n || k == call || call[|k|] == SPACE
    decreases n
  {
    if n == 0 || call == [] || call[0] == SPACE then [] else [call[0]] + Kept(call[1..], n - 1)
  }

  /** The SSID has four bits, and a larger one spills into the flag. */
  function LowBits(ssid: bv8): bv8 { ssid & 0x0F }

  function SentFlag(n: Node): bool { n.flag || n.ssid & 0x40 != 0 }

  /** The station as received; the flags of the end stations are not transmitted back. */
  function Received(n: Node, keepFlag: bool): Node {
    Node(Upper(Kept(n.callsign, CALL_LEN)), LowBits(n.ssid), keepFlag && SentFlag(n))
  }

  /** A station that comes back as it was, except for upper case: at most six characters without spaces, an SSID below 16. */
  predicate Plain(n: Node) {
    |n.callsign| <= CALL_LEN && SPACE !in n.callsign && n.ssid < 16
  }

  lemma SsidKept(n: Node)
    ensures LowBits(n.ssid) == n.ssid <==> n.ssid < 16
    ensures n.ssid < 16 ==> SentFlag(n) == n.flag
  {}

  lemma CallKept(call: seq<bv8>)
    ensures Kept(call, CALL_LEN) == call <==> |call| <= CALL_LEN && SPACE !in call
  {}

  lemma UpperLength(a: seq<bv8>, b: seq<bv8>)
    ensures a <= b ==> (Upper(a) == Upper(b) <==> a == b)
  {
    if a <= b && Upper(a) == Upper(b) { assert |a| == |b|; }
  }

  /** Exactly the plain stations come back as they were, except for upper case. */
  lemma RestoredIff(n: Node)
    ensures Received(n, true) == Node(Upper(n.callsign), n.ssid, n.flag) <==> Plain(n)
  {
    hide LowBits, SentFlag, Upper, Kept;
    SsidKept(n);
    CallKept(n.callsign);
    UpperLength(Kept(n.callsign, CALL_LEN), n.callsign);
  }

  function Delivered(m: Message): Message {
    m.(dst := Received(m.dst, false), src := Received(m.src, false), repeaters := AllReceived(m.repeaters))
  }

  function AllReceived(nodes: seq<Node>): (r: seq<Node>)
    ensures |r| == |nodes|
    ensures forall i :: 0 <= i < |nodes| ==> r[i] == Received(nodes[i], true)
  {
    seq(|nodes|, i requires 0 <= i < |nodes| => Received(nodes[i], true))
  }

  lemma CharRestored(c: bv8)
    requires IsAlnum(c) || c == SPACE
    ensures CallChar(Shifted(ToUpper(c))) == if c == SPACE then 0 else ToUpper(c)
    ensures ToUpper(c) != 0
  {}

  lemma SsidRestored(n: Node, last: bool)
    ensures SsidOf(SsidByte(n, last)) == LowBits(n.ssid)
    ensures SsidByte(n, last) & 0x01 == (if last then 1 else 0)
    ensures SsidByte(n, last) & 0x80 != 0 <==> SentFlag(n)
  {}

  /** Truncation stops at the first zero. */
  lemma {:induction false} TruncatedIs(s: seq<bv8>, n: nat, k: nat)
    requires k <= |s| && k <= n
    requires forall i :: 0 <= i < k ==> s[i] != 0
    requires k == n || k == |s| || s[k] == 0
    ensures Truncated(s, n) == s[..k]
    decreases k
  {
    if k > 0 {
      TruncatedIs(s[1..], n - 1, k - 1);
      assert s[..k] == [s[0]] + s[1..][..k - 1];
    }
  }

  lemma CallRestored(b: seq<bv8>, p: nat, call: seq<bv8>)
    requires p + CALL_LEN <= |b| && b[p..p + CALL_LEN] == CallBytes(call)
    requires forall i :: 0 <= i < SentLength(call) ==> IsAlnum(call[i]) || call[i] == SPACE
    ensures ExtractCall(b, p) == Upper(Kept(call, CALL_LEN))
  {
    hide IsAlnum, ToUpper, CallChar, Shifted, Kept;
    var s := seq(CALL_LEN, i requires 0 <= i < CALL_LEN => CallChar(b[p + i]));
    var k := Kept(call, CALL_LEN);
    forall i | 0 <= i < CALL_LEN
      ensures s[i] == if i < |call| && call[i] != SPACE then ToUpper(call[i]) else 0
      ensures i < |k| ==> s[i] == ToUpper(k[i]) && s[i] != 0
    {
      assert b[p + i] == CallBytes(call)[i];
      if i < |call| { CharRestored(call[i]); } else { SpaceRestored(); }
    }
    TruncatedIs(s, CALL_LEN, |k|);
  }

  lemma SpaceRestored()
    ensures CallChar(Shifted(SPACE)) == 0
  {}

  /** b holds the address field of nodes from station i on at position NODE_LEN * i. */
  ghost predicate HoldsAddresses(b: seq<bv8>, nodes: seq<Node>) {
    && NODE_LEN * |nodes| <= |b|
    && b[..NODE_LEN * |nodes|] == AddressBytes(nodes, 0)
  }

  lemma {:induction false} AddressAt(nodes: seq<Node>, i: nat, k: nat)
    requires i <= k < |nodes|
    ensures AddressBytes(nodes, i)[NODE_LEN * (k - i)..NODE_LEN * (k - i) + NODE_LEN] == NodeBytes(nodes[k], k == |nodes| - 1)
    decreases k - i
  {
    hide NodeBytes;
    var a, t := NodeBytes(nodes[i], i == |nodes| - 1), AddressBytes(nodes, i + 1);
    if k > i {
      AddressAt(nodes, i + 1, k);
      var o := NODE_LEN * (k - i - 1);
      assert (a + t)[NODE_LEN + o..NODE_LEN + o + NODE_LEN] == t[o..o + NODE_LEN];
    }
  }

  lemma NodeAt(b: seq<bv8>, nodes: seq<Node>, k: nat)
    requires HoldsAddresses(b, nodes) && k < |nodes| && Legal(nodes[k])
    ensures ExtractCall(b, NODE_LEN * k) == Upper(Kept(nodes[k].callsign, CALL_LEN))
    ensures SsidOf(b[NODE_LEN * k + 6]) == LowBits(nodes[k].ssid)
    ensures b[NODE_LEN * k + 6] & 0x01 == (if k == |nodes| - 1 then 1 else 0)
    ensures b[NODE_LEN * k + 6] & 0x80 != 0 <==> SentFlag(nodes[k])
  {
    hide IsAlnum, ExtractCall, SsidOf, SsidByte, CallBytes, LowBits, SentFlag, Upper, Kept, LegalPrefix;
    var o, last := NODE_LEN * k, k == |nodes| - 1;
    AddressAt(nodes, 0, k);
    var w := b[..NODE_LEN * |nodes|];
    assert b[o..o + NODE_LEN] == w[o..o + NODE_LEN] == NodeBytes(nodes[k], last);
    assert b[o..o + CALL_LEN] == b[o..o + NODE_LEN][..CALL_LEN];
    assert b[o + 6] == b[o..o + NODE_LEN][6];
    CallRestored(b, o, nodes[k].callsign);
    SsidRestored(nodes[k], last);
  }

  lemma {:induction false} RepeatersRestored(b: seq<bv8>, nodes: seq<Node>, k: nat)
    requires HoldsAddresses(b, nodes) && 1 <= k < |nodes| <= 2 + MAX_RPT && |b| == BUF_LEN
    requires forall i :: 0 <= i < |nodes| ==> Legal(nodes[i])
    ensures ParseRepeaters(b, NODE_LEN * k + 6, k - 1) == (AllReceived(nodes[k + 1..]), NODE_LEN * |nodes|)
    decreases |nodes| - k
  {
    hide ExtractCall, SsidOf, HoldsAddresses, Legal, LowBits, SentFlag, Upper, Kept;
    NodeAt(b, nodes, k);
    if k < |nodes| - 1 {
      NodeAt(b, nodes, k + 1);
      RepeatersRestored(b, nodes, k + 1);
      assert AllReceived(nodes[k + 1..]) == [Received(nodes[k + 1], true)] + AllReceived(nodes[k + 2..]);
    }
  }

  lemma AddressesHeld(m: Message, b: seq<bv8>)
    requires |b| == BUF_LEN && Checked(Body(m)) <= b
    ensures HoldsAddresses(b, m.Nodes())
    ensures var p, len := NODE_LEN * |m.Nodes()|, |Checked(Body(m))|;
      p + 4 <= len <= BUF_LEN && b[p] == m.ctrl && b[p + 1] == m.pid && b[p + 2..len - 2] == m.info
  {
    hide CheckLow, CheckHigh, CrcOf, AddressBytes;
    var p, len, a := NODE_LEN * |m.Nodes()|, |Checked(Body(m))|, AddressBytes(m.Nodes(), 0);
    var c := b[..len];
    assert c == Checked(Body(m));
    assert b[..p] == c[..p] == a;
    assert b[p] == c[p] && b[p + 1] == c[p + 1];
    assert b[p + 2..len - 2] == c[p + 2..len - 2] == m.info;
  }

  /** Decoding the bytes of a deliverable frame gives it back, whatever the rest of the buffer holds. */
  lemma BodyDecoded(m: Message, b: seq<bv8>)
    requires Deliverable(m) && |b| == BUF_LEN && Checked(Body(m)) <= b
    ensures IsUi(b) && AddressEnd(b) + 4 <= |Checked(Body(m))|
    ensures Decode(b, |Checked(Body(m))|) == Delivered(m)
  {
    hide ExtractCall, SsidOf, Legal, Checked, Body, HoldsAddresses, ParseRepeaters, LowBits, SentFlag, Upper, Kept;
    var nodes := m.Nodes();
    AddressesHeld(m, b);
    NodeAt(b, nodes, 0);
    NodeAt(b, nodes, 1);
    RepeatersRestored(b, nodes, 1);
    assert nodes[2..] == m.repeaters;
  }

  // ---------------------------------------------------------------- a stream of frames

  /** What a caller gets that polls, and reads each frame that is complete, until the input is used up. */
  function Conversation(st: Receiver, input: seq<bv8>, stale: seq<bv8>): seq<Message>
    requires Consistent(st) && !st.frmRecv && |stale| == BUF_LEN
    decreases |input|
  {
    PollConsistent(st, input);
    var (st', rest) := Poll(st, input);
    if !st'.frmRecv || input == [] then []
    else
      var b := st'.buf + stale[|st'.buf|..];
      if IsUi(b) && AddressEnd(b) + 4 <= |st'.buf| then
        [Decode(b, |st'.buf|)] + Conversation(CLEARED, rest, b)
      else []
  }

  /** Frames one after the other, each after some noise. */
  function Stream(noise: seq<seq<bv8>>, ms: seq<Message>): seq<bv8>
    requires |noise| == |ms|
  {
    if ms == [] then [] else noise[0] + Wire(ms[0]) + Stream(noise[1..], ms[1..])
  }

  /** Noise that cannot start a frame. */
  predicate Harmless(s: seq<bv8>) {
    forall i :: 0 <= i < |s| ==> s[i] != HDLC_FLAG && s[i] != ESC
  }

  /** A receiver that is not synchronised ignores such noise, wherever it is in its life. */
  lemma {:induction false} NoiseIgnored(st: Receiver, s: seq<bv8>, rest: seq<bv8>)
    requires !st.sync && !st.escape && !st.frmRecv && Harmless(s)
    ensures Poll(st, s + rest) == Poll(st, rest)
    decreases |s|
  {
    if s == [] {
      assert s + rest == rest;
    } else {
      assert (s + rest)[0] == s[0] && (s + rest)[1..] == s[1..] + rest;
      NoiseIgnored(st, s[1..], rest);
    }
  }

  function AllDelivered(ms: seq<Message>): (r: seq<Message>)
    ensures |r| == |ms|
    ensures forall i :: 0 <= i < |ms| ==> r[i] == Delivered(ms[i])
  {
    if ms == [] then [] else [Delivered(ms[0])] + AllDelivered(ms[1..])
  }

  lemma ClearedConsistent()
    ensures Consistent(CLEARED)
  {}

  /** Every frame of a stream comes back, in order and once, whatever harmless noise lies between them. */
  lemma {:induction false} StreamDelivered(noise: seq<seq<bv8>>, ms: seq<Message>, stale: seq<bv8>)
    requires |noise| == |ms| && |stale| == BUF_LEN
    requires forall i :: 0 <= i < |ms| ==> Deliverable(ms[i]) && Harmless(noise[i])
    ensures Consistent(CLEARED)
    ensures Conversation(CLEARED, Stream(noise, ms), stale) == AllDelivered(ms)
    decreases |ms|
  {
    hide Wire, Body, Checked, Decode, Delivered, Deliverable, Consistent, Harmless;
    ClearedConsistent();
    if ms != [] {
      var m, rest := ms[0], Stream(noise[1..], ms[1..]);
      var b := Checked(Body(m));
      assert Stream(noise, ms) == noise[0] + (Wire(m) + rest);
      NoiseIgnored(CLEARED, noise[0], Wire(m) + rest);
      DeliverableFits(m);
      WireReceived(CLEARED, m, rest);
      var buffer := b + stale[|b|..];
      assert b <= buffer;
      BodyDecoded(m, buffer);
      StreamDelivered(noise[1..], ms[1..], buffer);
    } else {
      assert Poll(CLEARED, []) == (CLEARED, []);
    }
  }

  lemma DeliverableFits(m: Message)
    requires Deliverable(m)
    ensures |Body(m)| + 2 <= BUF_LEN && |Checked(Body(m))| <= BUF_LEN
  {}

  // ---------------------------------------------------------------- the layout on the wire, in numbers

  /** A character that may stand in a callsign: 0-9, A-Z, a-z or a space. */
  predicate CallCode(c: bv8) { 0x30 <= c <= 0x39 || 0x41 <= c <= 0x5A || 0x61 <= c <= 0x7A || c == 0x20 }

  lemma CallCodeIs(c: bv8)
    ensures CallCode(c) <==> IsAlnum(c) || c == SPACE
  {}

  /** A station is legal if its first six characters, or all if there are fewer, may stand in a callsign. */
  lemma LegalIs(n: Node)
    ensures Legal(n) <==> forall i :: 0 <= i < |n.callsign| && i < 6 ==> CallCode(n.callsign[i])
  {
    hide IsAlnum, CallCode;
    var k := LegalPrefix(n.callsign, SentLength(n.callsign));
    forall i | 0 <= i < |n.callsign|
      ensures CallCode(n.callsign[i]) <==> IsAlnum(n.callsign[i]) || n.callsign[i] == SPACE
    {
      CallCodeIs(n.callsign[i]);
    }
  }

  lemma CharSent(c: bv8)
    requires CallCode(c)
    ensures var b := Shifted(ToUpper(c));
      b & 0x01 == 0 && b >> 1 == if 0x61 <= c <= 0x7A then c - 0x20 else c
  {}

  lemma SpaceSent()
    ensures Shifted(SPACE) == 0x40
  {}

  lemma SsidSent(n: Node, last: bool)
    ensures var b := SsidByte(n, last);
      && b & 0x60 == 0x60 && (b & 0x01 != 0 <==> last)
      && (n.ssid < 16 ==> b == (if n.flag then 0x80 else 0) + 0x60 + 2 * n.ssid + (if last then 1 else 0))
  {}

  /**
   One address as AX.25 lays it out: six characters in the seven high bits, in upper case, filled with
   spaces; then the flag, two bits that are set, four bits of SSID, and the mark of the last address.
   */
  lemma AddressLaid(n: Node, last: bool)
    requires Legal(n)
    ensures |NodeBytes(n, last)| == 7
    ensures forall i :: 0 <= i < 6 && i < |n.callsign| ==>
      var b, c := NodeBytes(n, last)[i], n.callsign[i];
      b & 0x01 == 0 && b >> 1 == if 0x61 <= c <= 0x7A then c - 0x20 else c
    ensures forall i :: |n.callsign| <= i < 6 ==> NodeBytes(n, last)[i] == 0x40
    ensures NodeBytes(n, last)[6] & 0x60 == 0x60 && (NodeBytes(n, last)[6] & 0x01 != 0 <==> last)
    ensures n.ssid < 16 ==>
      NodeBytes(n, last)[6] == (if n.flag then 0x80 else 0) + 0x60 + 2 * n.ssid + (if last then 1 else 0)
  {
    hide ToUpper, Shifted, SsidByte, CallCode, LegalPrefix;
    LegalIs(n);
    SpaceSent();
    SsidSent(n, last);
    forall i | 0 <= i < 6 && i < |n.callsign|
      ensures var b, c := NodeBytes(n, last)[i], n.callsign[i];
        b & 0x01 == 0 && b >> 1 == if 0x61 <= c <= 0x7A then c - 0x20 else c
    {
      CharSent(n.callsign[i]);
    }
  }

  /** The k-th station sent: the destination, the source, then the repeaters. */
  function StationSent(m: Message, k: nat): Node
    requires k < 2 + |m.repeaters|
  {
    if k == 0 then m.dst else if k == 1 then m.src else m.repeaters[k - 2]
  }

  /** The frame: the stations' addresses, seven bytes each, only the last one marked; then control, protocol and information. */
  lemma BodyLaid(m: Message, k: nat)
    requires k < 2 + |m.repeaters|
    ensures var n := 2 + |m.repeaters|;
      && |Body(m)| == 7 * n + 2 + |m.info|
      && Body(m)[7 * k..7 * k + 7] == NodeBytes(StationSent(m, k), k == n - 1)
      && Body(m)[7 * n] == m.ctrl && Body(m)[7 * n + 1] == m.pid && Body(m)[7 * n + 2..] == m.info
  {
    hide NodeBytes;
    var n, a := 2 + |m.repeaters|, AddressBytes(m.Nodes(), 0);
    AddressAt(m.Nodes(), 0, k);
    assert Body(m)[7 * k..7 * k + 7] == a[7 * k..7 * k + 7];
  }

  /** Two bytes are the complement of a CRC, the first one low. */
  predicate Complements(lo: bv8, hi: bv8, crc: bv16) {
    ((hi as bv16) << 8) | (lo as bv16) == crc ^ 0xFFFF
  }

  lemma CheckBytesComplement(crc: bv16)
    ensures Complements(CheckLow(crc), CheckHigh(crc), crc)
  {}

  /** The two bytes behind a frame: the complement of its CRC from 0xFFFF, low byte first. */
  lemma CheckedLaid(b: seq<bv8>)
    ensures |Checked(b)| == |b| + 2 && Checked(b)[..|b|] == b
    ensures Complements(Checked(b)[|b|], Checked(b)[|b| + 1], CrcOf(0xFFFF, b))
  {
    hide CheckLow, CheckHigh, CrcOf, Complements;
    CheckBytesComplement(CrcOf(0xFFFF, b));
  }

  /** On the wire, every 0x7E, 0x7F and 0x1B of a frame has a 0x1B put before it, and nothing else changes. */
  lemma EscapedLaid(s: seq<bv8>, c: bv8)
    ensures Escaped([]) == []
    ensures Escaped(s + [c]) == Escaped(s) + if c == 0x7E || c == 0x7F || c == 0x1B then [0x1B, c] else [c]
  {
    assert (s + [c])[..|s|] == s;
  }

  /** Between its two flags a frame has no byte 0x7E or 0x7F that is not escaped. */
  ghost predicate Stuffed(s: seq<bv8>)
    decreases |s|
  {
    s == []
    || (if s[0] == 0x1B then |s| >= 2 && (s[1] == 0x7E || s[1] == 0x7F || s[1] == 0x1B) && Stuffed(s[2..])
        else s[0] != 0x7E && s[0] != 0x7F && Stuffed(s[1..]))
  }

  lemma {:induction false} StuffedAppend(a: seq<bv8>, b: seq<bv8>)
    requires Stuffed(a) && Stuffed(b)
    ensures Stuffed(a + b)
    decreases |a|
  {
    if a == [] {
      assert a + b == b;
    } else if a[0] == 0x1B {
      assert (a + b)[0] == a[0] && (a + b)[1] == a[1] && (a + b)[2..] == a[2..] + b;
      StuffedAppend(a[2..], b);
    } else {
      assert (a + b)[0] == a[0] && (a + b)[1..] == a[1..] + b;
      StuffedAppend(a[1..], b);
    }
  }

  lemma {:induction false} EscapedStuffed(s: seq<bv8>)
    ensures Stuffed(Escaped(s))
    decreases |s|
  {
    if s != [] {
      var n := |s| - 1;
      EscapedStuffed(s[..n]);
      assert Stuffed(EscapedByte(s[n])) by { ByteStuffed(s[n]); }
      StuffedAppend(Escaped(s[..n]), EscapedByte(s[n]));
    }
  }

  lemma ByteStuffed(c: bv8)
    ensures Stuffed(EscapedByte(c))
  {
    assert [ESC, c][2..] == [] && [c][1..] == [];
  }

  /** A message on the wire: a flag, its frame with check bytes, escaped, and a flag. */
  lemma WireLaid(m: Message)
    ensures var w := Wire(m);
      && |w| >= 2 && w[0] == 0x7E && w[|w| - 1] == 0x7E && Stuffed(w[1..|w| - 1])
      && w[1..|w| - 1] == Escaped(Checked(Body(m)))
  {
    hide Body, Checked, Escaped;
    EscapedStuffed(Checked(Body(m)));
  }

  // ---------------------------------------------------------------- what the receiver accepts, exactly

  /** Behind a 0x1B any byte is data: collected if the receiver is synchronised and has room, dropped if it is not. */
  lemma AnyEscaped(st: Receiver, c: bv8)
    requires !st.escape && !st.frmRecv
    ensures Poll(st, [0x1B, c]) ==
      if !st.sync then (st, [])
      else if |st.buf| < 330 then (st.(buf := st.buf + [c], crcIn := Update(c, st.crcIn)), [])
      else (st.(sync := false), [])
  {
    hide Update;
    assert [0x1B, c] == [0x1B] + [c];
    PollSplit(st, [0x1B], [c]);
    PollOne(st, 0x1B);
    PollOne(st.(escape := true), c);
  }

  /** A receiver whose buffer is full drops the rest of the frame. */
  lemma {:induction false} PollOverflow(st: Receiver, s: seq<bv8>)
    requires !st.escape && !st.frmRecv && (st.sync ==> |st.buf| == BUF_LEN)
    ensures Poll(st, Escaped(s)) == (st.(sync := st.sync && s == []), [])
    decreases |s|
  {
    hide Update;
    if s == [] {
      assert Poll(st, []) == (st, []);
    } else {
      var n := |s| - 1;
      var st' := st.(sync := st.sync && s[..n] == []);
      PollOverflow(st, s[..n]);
      PollSplit(st, Escaped(s[..n]), EscapedByte(s[n]));
      if IsSpecial(s[n]) {
        PollSplit(st', [ESC], [s[n]]);
        PollOne(st', ESC);
        PollOne(st'.(escape := true), s[n]);
        assert [ESC, s[n]] == [ESC] + [s[n]];
      } else {
        PollOne(st', s[n]);
      }
    }
  }

  lemma {:induction false} EscapedConcat(a: seq<bv8>, b: seq<bv8>)
    ensures Escaped(a + b) == Escaped(a) + Escaped(b)
    decreases |b|
  {
    if b == [] {
      assert a + b == a;
    } else {
      var n := |b| - 1;
      assert (a + b)[..|a + b| - 1] == a + b[..n];
      EscapedConcat(a, b[..n]);
    }
  }

  /** What is collected of an escaped frame: its first 330 bytes. */
  lemma PollAny(s: seq<bv8>)
    ensures var st := Receiver([], INIT, true, false, false);
      var b := if |s| <= 330 then s else s[..330];
      Poll(st, Escaped(s)) == (Receiver(b, CrcOf(INIT, b), |s| <= 330, false, false), [])
  {
    hide Update, Escaped;
    var st := Receiver([], INIT, true, false, false);
    if |s| <= 330 {
      PollEscaped(st, s);
      assert [] + s == s;
    } else {
      var a, b := s[..330], s[330..];
      PollEscaped(st, a);
      assert [] + a == a && s == a + b;
      EscapedConcat(a, b);
      PollSplit(st, Escaped(a), Escaped(b));
      PollOverflow(Receiver(a, CrcOf(INIT, a), true, false, false), b);
    }
  }

  /**
   Any bytes between two flags, of any length: they are a frame if and only if, cut to 330, they are at least 18
   and end with their own complemented CRC.  If not, the closing flag opens the next frame.
   */
  lemma AnyFrame(s: seq<bv8>, rest: seq<bv8>)
    ensures var b := if |s| <= 330 then s else s[..330];
      Poll(CLEARED, [0x7E] + Escaped(s) + [0x7E] + rest) ==
        if |b| >= 18 && b == Checked(b[..|b| - 2]) then (Receiver(b, RESIDUE, |s| <= 330, false, true), rest)
        else Poll(Receiver([], INIT, true, false, false), rest)
  {
    hide Update, Escaped, CheckLow, CheckHigh, Checked;
    var b := if |s| <= 330 then s else s[..330];
    var st1, st2 := Receiver([], INIT, true, false, false), Receiver(b, CrcOf(INIT, b), |s| <= 330, false, false);
    assert [0x7E] + Escaped(s) + [0x7E] + rest == [0x7E] + (Escaped(s) + ([0x7E] + rest));
    PollSplit(CLEARED, [0x7E], Escaped(s) + ([0x7E] + rest));
    PollOne(CLEARED, 0x7E);
    PollSplit(st1, Escaped(s), [0x7E] + rest);
    PollAny(s);
    PollSplit(st2, [0x7E], rest);
    PollOne(st2, 0x7E);
    if |b| >= 18 { ResidueMeansChecked(b); }
    assert [] + rest == rest;
  }

  /** After a 0x7F nothing is collected until the next flag, which still closes what was collected before. */
  lemma AfterReset(st: Receiver, noise: seq<bv8>, rest: seq<bv8>)
    requires !st.escape && !st.frmRecv && Harmless(noise)
    ensures Poll(st, [0x7F] + noise + rest) == Poll(st.(sync := false), rest)
  {
    hide Update, Harmless;
    assert [0x7F] + noise + rest == [0x7F] + (noise + rest);
    PollSplit(st, [0x7F], noise + rest);
    PollOne(st, 0x7F);
    NoiseIgnored(st.(sync := false), noise, rest);
  }

  // ---------------------------------------------------------------- which frames are decoded

  /** Whether the address behind k repeaters carries the mark of the last one. */
  predicate Marked(b: seq<bv8>, k: nat)
    requires 13 + 7 * k < |b|
  {
    b[13 + 7 * k] & 0x01 != 0
  }

  /** The number of repeaters in a buffer: up to the first mark behind the destination, and no more than eight. */
  ghost predicate RepeatersEnd(b: seq<bv8>, k: nat)
    requires |b| == BUF_LEN
  {
    k <= 8 && (k < 8 ==> Marked(b, k)) && forall j :: 0 <= j < k ==> !Marked(b, j)
  }

  lemma {:induction false} ParseEndIs(b: seq<bv8>, i: nat) returns (k: nat)
    requires |b| == BUF_LEN && i <= 8 && forall j :: 0 <= j < i ==> !Marked(b, j)
    ensures RepeatersEnd(b, k) && i <= k
    ensures ParseRepeaters(b, 13 + 7 * i, i).1 == 14 + 7 * k && |ParseRepeaters(b, 13 + 7 * i, i).0| == k - i
    decreases 8 - i
  {
    hide RepeaterAt;
    if i < 8 && !Marked(b, i) {
      k := ParseEndIs(b, i + 1);
    } else {
      k := i;
    }
  }

  /** A received frame of k repeaters is decoded if and only if its control byte is 0x03 and its protocol byte 0xF0. */
  lemma UiIs(b: seq<bv8>) returns (k: nat)
    requires |b| == BUF_LEN
    ensures RepeatersEnd(b, k) && AddressEnd(b) == 14 + 7 * k
    ensures IsUi(b) <==> b[14 + 7 * k] == 0x03 && b[15 + 7 * k] == 0xF0
  {
    hide ParseRepeaters, Marked;
    k := ParseEndIs(b, 0);
  }

  /** Whatever control and protocol bytes a legal frame is sent with, it is decoded if and only if they are 0x03 and 0xF0. */
  lemma DecodedIff(m: Message, b: seq<bv8>)
    requires AllLegal(m) && |m.repeaters| <= 8 && |b| == BUF_LEN && Checked(Body(m)) <= b
    ensures IsUi(b) <==> m.ctrl == 0x03 && m.pid == 0xF0
  {
    hide ExtractCall, SsidOf, Legal, Checked, Body, HoldsAddresses, ParseRepeaters, LowBits, SentFlag, Upper, Kept;
    var nodes := m.Nodes();
    AddressesHeld(m, b);
    RepeatersRestored(b, nodes, 1);
  }
}
