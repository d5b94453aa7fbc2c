/**
 The XBee serial protocol: frames  0x7E, length (two bytes, high first), payload, checksum.
 The receiver as a byte-at-a-time automaton, the frames the senders build, and the accessors that
 take a packet apart.  Module XBeePort has the object whose chunked parser and senders compute them.
 */
module XBee {
  type Byte = i: int | 0 <= i < 256

  const START: Byte := 0x7E
  const HEADER := 3
  const MAX_DATA_LEN := 251

  const ATCMD: Byte := 0x08
  const QATCMD: Byte := 0x09
  const REMOTE_ATCMD: Byte := 0x17
  const ATCMD_RESP: Byte := 0x88
  const REMOTE_ATCMD_RESP: Byte := 0x97
  const TX64: Byte := 0x00
  const TX16: Byte := 0x01
  const TX_STATUS: Byte := 0x89
  const ZB_TX_REQ: Byte := 0x10
  const ZB_TX_STATUS: Byte := 0x8B

  datatype Option<T> = None | Some(value: T)

  // ---------------------------------------------------------------- packets

  /** The declared length, in network order behind the start byte. */
  function Length(pkt: seq<Byte>): nat
    requires |pkt| >= HEADER
  {
    256 * (pkt[1] as int) + pkt[2] as int
  }

  /** Addition one byte wide. */
  function Plus8(a: Byte, b: Byte): Byte { if a + b < 256 then a + b else a + b - 256 }

  /** The sum of a payload, one byte wide. */
  function Sum(s: seq<Byte>): Byte
    decreases |s|
  {
    if s == [] then 0 else Plus8(Sum(s[..|s| - 1]), s[|s| - 1])
  }

  /** The checksum is the complement of the sum. */
  function Check(s: seq<Byte>): Byte { 255 - Sum(s) }

  /** A whole packet: header, payload, checksum byte. */
  predicate Whole(pkt: seq<Byte>) {
    |pkt| > HEADER && |pkt| == Length(pkt) + 4
  }

  function Payload(pkt: seq<Byte>): seq<Byte>
    requires Whole(pkt)
  {
    pkt[HEADER..|pkt| - 1]
  }

  predicate Good(pkt: seq<Byte>)
    requires Whole(pkt)
  {
    pkt[|pkt| - 1] == Check(Payload(pkt))
  }

  /** A frame around a payload, with a given checksum byte. */
  function Frame(payload: seq<Byte>, check: Byte): (f: seq<Byte>)
    requires |payload| <= MAX_DATA_LEN
    ensures |f| == |payload| + 4
  {
    [START, 0, |payload|] + payload + [check]
  }

  lemma FrameWhole(payload: seq<Byte>, check: Byte)
    requires |payload| <= MAX_DATA_LEN
    ensures Whole(Frame(payload, check)) && Payload(Frame(payload, check)) == payload
    ensures Good(Frame(payload, check)) <==> check == Check(payload)
  {}

  // ---------------------------------------------------------------- the receiver, a byte at a time

  /** The bytes of the packet that is arriving, and the packets handed to the callbacks. */
  datatype Parser = Parser(got: seq<Byte>, out: seq<seq<Byte>>)

  /** What the parser is between two bytes: an unfinished packet, of a length that fits. */
  predicate Ready(p: Parser) {
    (p.got != [] ==> p.got[0] == START)
    && (|p.got| >= HEADER ==> Length(p.got) <= MAX_DATA_LEN && |p.got| < Length(p.got) + 4)
  }

  function Step(p: Parser, c: Byte): Parser {
    var got := p.got + [c];
    if p.got == [] then (if c == START then Parser([START], p.out) else p)
    else if |got| <= HEADER || !Whole(got) then Parser(got, p.out)
    else if Good(got) then Parser([], p.out + [got])
    else Parser([], p.out)
  }

  function Feed(p: Parser, s: seq<Byte>): Parser
    decreases |s|
  {
    if s == [] then p else Feed(Step(p, s[0]), s[1..])
  }

  /** No header on the line declares more than a packet can hold. */
  predicate Orderly(p: Parser, s: seq<Byte>)
    decreases |s|
  {
    Ready(p) && (s != [] ==> Orderly(Step(p, s[0]), s[1..]))
  }

  lemma {:induction false} FeedSplit(p: Parser, a: seq<Byte>, b: seq<Byte>)
    ensures Feed(p, a + b) == Feed(Feed(p, a), b)
    ensures Orderly(p, a + b) <==> Orderly(p, a) && Orderly(Feed(p, a), b)
    decreases |a|
  {
    hide Step, Ready;
    if a == [] {
      assert a + b == b;
      assert Orderly(p, b) ==> Ready(p);
    } else {
      assert (a + b)[0] == a[0] && (a + b)[1..] == a[1..] + b;
      FeedSplit(Step(p, a[0]), a[1..], b);
    }
  }

  // ---------------------------------------------------------------- a line of frames and noise

  datatype Piece = Noise(bytes: seq<Byte>) | Packet(payload: seq<Byte>, check: Byte)

  predicate Proper(p: Piece) {
    match p
    case Noise(bytes) => START !in bytes
    case Packet(payload, _) => |payload| <= MAX_DATA_LEN
  }

  function Bytes(p: Piece): seq<Byte>
    requires Proper(p)
  {
    match p
    case Noise(bytes) => bytes
    case Packet(payload, check) => Frame(payload, check)
  }

  /** The packets a piece should give: a frame with the right checksum, and nothing else. */
  function Delivers(p: Piece): seq<seq<Byte>>
    requires Proper(p)
  {
    if p.Packet? && p.check == Check(p.payload) then [Bytes(p)] else []
  }

  function Line(ps: seq<Piece>): seq<Byte>
    requires forall p :: p in ps ==> Proper(p)
  {
    if ps == [] then [] else Bytes(ps[0]) + Line(ps[1..])
  }

  function Delivered(ps: seq<Piece>): seq<seq<Byte>>
    requires forall p :: p in ps ==> Proper(p)
  {
    if ps == [] then [] else Delivers(ps[0]) + Delivered(ps[1..])
  }

  lemma {:induction false} NoiseSkipped(out: seq<seq<Byte>>, s: seq<Byte>)
    requires START !in s
    ensures Feed(Parser([], out), s) == Parser([], out) && Orderly(Parser([], out), s)
    decreases |s|
  {
    if s != [] { NoiseSkipped(out, s[1..]); }
  }

  /** The inside of a frame is only collected. */
  lemma {:induction false} FrameCollected(out: seq<seq<Byte>>, f: seq<Byte>, n: nat)
    requires Whole(f) && f[0] == START && Length(f) <= MAX_DATA_LEN && 1 <= n < |f|
    ensures Feed(Parser([], out), f[..n]) == Parser(f[..n], out) && Orderly(Parser([], out), f[..n])
    decreases n
  {
    if n == 1 {
      FeedNext(Parser([], out), f, 0);
      assert f[..1] == [START];
    } else {
      FrameCollected(out, f, n - 1);
      FeedNext(Parser([], out), f, n - 1);
      var p := Parser(f[..n - 1], out);
      assert p.got + [f[n - 1]] == f[..n];
      assert Step(p, f[n - 1]) == Parser(f[..n], out);
    }
  }

  lemma FeedNext(p: Parser, s: seq<Byte>, n: nat)
    requires n < |s|
    ensures Feed(p, s[..n + 1]) == Step(Feed(p, s[..n]), s[n])
    ensures Orderly(p, s[..n + 1]) <==> Orderly(p, s[..n]) && Ready(Feed(p, s[..n])) && Ready(Feed(p, s[..n + 1]))
  {
    hide Step, Ready;
    assert s[..n + 1] == s[..n] + [s[n]];
    FeedSplit(p, s[..n], [s[n]]);
    var q := Feed(p, s[..n]);
    assert [s[n]][1..] == [];
    assert Feed(q, [s[n]]) == Feed(Step(q, s[n]), []);
    assert Orderly(q, [s[n]]) <==> Ready(q) && Orderly(Step(q, s[n]), []);
  }

  /** One piece of the line gives exactly its own packet. */
  lemma PieceRead(out: seq<seq<Byte>>, p: Piece)
    requires Proper(p)
    ensures Feed(Parser([], out), Bytes(p)) == Parser([], out + Delivers(p)) && Orderly(Parser([], out), Bytes(p))
  {
    match p
    case Noise(bytes) =>
      NoiseSkipped(out, bytes);
    case Packet(payload, check) =>
      var f := Frame(payload, check);
      var n := |f| - 1;
      FrameWhole(payload, check);
      FrameCollected(out, f, n);
      FeedNext(Parser([], out), f, n);
      assert f[..n] + [f[n]] == f && f[..n + 1] == f;
  }

  /** Any line of frames and noise: exactly the frames with a right checksum, once each, in order, unchanged. */
  lemma {:induction false} LineRead(out: seq<seq<Byte>>, ps: seq<Piece>)
    requires forall p :: p in ps ==> Proper(p)
    ensures Feed(Parser([], out), Line(ps)) == Parser([], out + Delivered(ps)) && Orderly(Parser([], out), Line(ps))
    decreases |ps|
  {
    hide Feed, Orderly, Proper, Bytes, Delivers;
    if ps == [] {
      FedNothing(out);
      assert out + [] == out;
    } else {
      PieceRead(out, ps[0]);
      FeedSplit(Parser([], out), Bytes(ps[0]), Line(ps[1..]));
      LineRead(out + Delivers(ps[0]), ps[1..]);
      assert out + Delivered(ps) == out + Delivers(ps[0]) + Delivered(ps[1..]);
    }
  }

  lemma FedNothing(out: seq<seq<Byte>>)
    ensures Feed(Parser([], out), []) == Parser([], out) && Orderly(Parser([], out), [])
  {}

  /** The chunks that come in, one call of `vXBeeIn` each. */
  function FeedAll(p: Parser, chunks: seq<seq<Byte>>): Parser
    decreases |chunks|
  {
    if chunks == [] then p else FeedAll(Feed(p, chunks[0]), chunks[1..])
  }

  function Concat(chunks: seq<seq<Byte>>): seq<Byte>
    decreases |chunks|
  {
    if chunks == [] then [] else chunks[0] + Concat(chunks[1..])
  }

  /** Every chunk is acceptable when its turn comes. */
  predicate AllOrderly(p: Parser, chunks: seq<seq<Byte>>)
    decreases |chunks|
  {
    Ready(p) && (chunks != [] ==> Orderly(p, chunks[0]) && AllOrderly(Feed(p, chunks[0]), chunks[1..]))
  }

  lemma {:induction false} ChunksRead(p: Parser, chunks: seq<seq<Byte>>)
    ensures FeedAll(p, chunks) == Feed(p, Concat(chunks))
    ensures AllOrderly(p, chunks) <==> Orderly(p, Concat(chunks))
    decreases |chunks|
  {
    hide Step, Ready;
    if chunks != [] {
      FeedSplit(p, chunks[0], Concat(chunks[1..]));
      ChunksRead(Feed(p, chunks[0]), chunks[1..]);
      OrderlyReady(p, Concat(chunks));
    }
  }

  lemma OrderlyReady(p: Parser, s: seq<Byte>)
    ensures Orderly(p, s) ==> Ready(p)
  {}

  /** The same line cut into any chunks: every chunk is acceptable, and the packets are the same. */
  lemma ChunkedLineRead(ps: seq<Piece>, chunks: seq<seq<Byte>>)
    requires forall p :: p in ps ==> Proper(p)
    requires Concat(chunks) == Line(ps)
    ensures AllOrderly(Parser([], []), chunks) && FeedAll(Parser([], []), chunks) == Parser([], Delivered(ps))
  {
    hide Feed, Orderly, Line, Concat, Delivered, FeedAll, AllOrderly;
    ChunksRead(Parser([], []), chunks);
    LineRead([], ps);
    assert [] + Delivered(ps) == Delivered(ps);
  }

  // ---------------------------------------------------------------- the checksum

  lemma Plus8Laws(a: Byte, b: Byte, c: Byte)
    ensures Plus8(Plus8(a, b), c) == Plus8(a, Plus8(b, c)) && Plus8(a, 0) == a
    ensures Plus8(a, b) == Plus8(a, c) ==> b == c
    ensures Plus8(b, a) == Plus8(c, a) ==> b == c
  {}

  lemma {:induction false} SumAppend(a: seq<Byte>, b: seq<Byte>)
    ensures Sum(a + b) == Plus8(Sum(a), Sum(b))
    decreases |b|
  {
    hide Plus8;
    if b == [] {
      assert a + b == a;
      Plus8Laws(Sum(a), 0, 0);
    } else {
      var n := |b| - 1;
      assert (a + b)[..|a + b| - 1] == a + b[..n];
      SumAppend(a, b[..n]);
      Plus8Laws(Sum(a), Sum(b[..n]), b[n]);
    }
  }

  lemma SumOne(c: Byte)
    ensures Sum([c]) == c
  {
    assert [c][..0] == [];
    assert Sum([]) == 0;
  }

  /** Payload and checksum add up to 0xFF. */
  lemma CheckCompletes(payload: seq<Byte>)
    ensures Sum(payload + [Check(payload)]) == 0xFF
  {
    SumAppend(payload, [Check(payload)]);
    SumOne(Check(payload));
  }

  lemma SumNotices(a: seq<Byte>, c: Byte, d: Byte, b: seq<Byte>)
    requires c != d
    ensures Sum(a + [c] + b) != Sum(a + [d] + b)
  {
    hide Plus8, Sum;
    SumOne(c);
    SumOne(d);
    SumAppend(a, [c]);
    SumAppend(a, [d]);
    SumAppend(a + [c], b);
    SumAppend(a + [d], b);
    Plus8Laws(Sum(a), c, d);
    Plus8Laws(Sum(b), Sum(a + [c]), Sum(a + [d]));
  }

  /** A frame with one byte of its payload changed is not delivered. */
  lemma ChangeNoticed(payload: seq<Byte>, i: nat, c: Byte)
    requires i < |payload| <= MAX_DATA_LEN && c != payload[i]
    ensures Delivers(Packet(payload[i := c], Check(payload))) == []
  {
    hide Sum;
    var a, b := payload[..i], payload[i + 1..];
    assert payload == a + [payload[i]] + b && payload[i := c] == a + [c] + b;
    SumNotices(a, c, payload[i], b);
  }

  // ---------------------------------------------------------------- what the senders build

  function AtPayload(id: Byte, command: seq<Byte>, params: seq<Byte>): (s: seq<Byte>)
    requires |command| == 2
    ensures |s| == |params| + 4
  {
    [ATCMD, id] + command + params
  }

  function RemotePayload(id: Byte, addr64: seq<Byte>, addr16: seq<Byte>, apply: Byte, command: seq<Byte>,
                         params: seq<Byte>): (s: seq<Byte>)
    requires |addr64| == 8 && |addr16| == 2 && |command| == 2
    ensures |s| == |params| + 15
  {
    [REMOTE_ATCMD, id] + addr64 + addr16 + [if apply != 0 then 2 else 0] + command + params
  }

  /** The frame that is sent with a payload. */
  function Sealed(payload: seq<Byte>): seq<Byte>
    requires |payload| <= MAX_DATA_LEN
  {
    Frame(payload, Check(payload))
  }

  // ---------------------------------------------------------------- the accessors

  function Type(pkt: seq<Byte>): Byte
    requires |pkt| > HEADER
  {
    pkt[3]
  }

  /** `iXBeePktFrameId`; -1 for a type that has no frame number. */
  function FrameId(pkt: seq<Byte>): int
    requires |pkt| > HEADER + 1
  {
    if Type(pkt) in {ATCMD, ATCMD_RESP, REMOTE_ATCMD, REMOTE_ATCMD_RESP, TX64, TX16, TX_STATUS, ZB_TX_REQ, ZB_TX_STATUS}
    then pkt[4] else -1
  }

  /** The size of the packet structure before the parameters. */
  function FixedSize(t: Byte): Option<nat> {
    if t == ATCMD || t == QATCMD then Some(7)
    else if t == ATCMD_RESP then Some(8)
    else if t == REMOTE_ATCMD then Some(18)
    else if t == REMOTE_ATCMD_RESP then Some(18)
    else None
  }

  /** `iXBeePktParamLen`. */
  function ParamLen(pkt: seq<Byte>): int
    requires |pkt| > HEADER
  {
    match FixedSize(Type(pkt))
    case Some(n) => Length(pkt) + 3 - n
    case None => -1
  }

  /** `pucXBeePktParam`, from where the parameters start. */
  function Param(pkt: seq<Byte>): Option<seq<Byte>>
    requires |pkt| > HEADER
  {
    match FixedSize(Type(pkt))
    case Some(n) => if n <= |pkt| then Some(pkt[n..]) else None
    case None => None
  }

  /** `pcXBeePktCommand`: the two letters. */
  function Command(pkt: seq<Byte>): Option<seq<Byte>>
    requires |pkt| > HEADER
  {
    var t := Type(pkt);
    var at := if t == ATCMD || t == QATCMD || t == ATCMD_RESP then 5 else if t == REMOTE_ATCMD then 16 else 15;
    if FixedSize(t).Some? && at + 2 <= |pkt| then Some(pkt[at..at + 2]) else None
  }

  /** What the accessors say about a packet. */
  predicate Reads(pkt: seq<Byte>, id: Byte, command: seq<Byte>, params: seq<Byte>) {
    |pkt| > HEADER + 1 && FrameId(pkt) == id && Command(pkt) == Some(command) && ParamLen(pkt) == |params|
    && Param(pkt).Some? && |params| <= |Param(pkt).value| && Param(pkt).value[..|params|] == params
  }

  lemma AtRead(id: Byte, command: seq<Byte>, params: seq<Byte>)
    requires |command| == 2 && |params| <= 247
    ensures Reads(Sealed(AtPayload(id, command, params)), id, command, params)
  {
    var pkt := Sealed(AtPayload(id, command, params));
    assert pkt[5..7] == command;
    assert pkt[7..][..|params|] == params;
  }

  lemma RemoteRead(id: Byte, addr64: seq<Byte>, addr16: seq<Byte>, apply: Byte, command: seq<Byte>, params: seq<Byte>)
    requires |addr64| == 8 && |addr16| == 2 && |command| == 2 && |params| <= 236
    ensures Reads(Sealed(RemotePayload(id, addr64, addr16, apply, command, params)), id, command, params)
  {
    var pkt := Sealed(RemotePayload(id, addr64, addr16, apply, command, params));
    assert pkt[16..18] == command;
    assert pkt[18..][..|params|] == params;
  }

  // ---------------------------------------------------------------- senders and receiver together

  datatype Request = Local(command: seq<Byte>, params: seq<Byte>)
                   | Remote(command: seq<Byte>, params: seq<Byte>, addr64: seq<Byte>, addr16: seq<Byte>, apply: Byte)

  predicate Sendable(r: Request) {
    |r.command| == 2
    && match r
       case Local(_, params) => |params| <= 247
       case Remote(_, params, addr64, addr16, _) => |params| <= 236 && |addr64| == 8 && |addr16| == 2
  }

  function RequestPayload(r: Request, id: Byte): (s: seq<Byte>)
    requires Sendable(r)
    ensures |s| <= MAX_DATA_LEN
  {
    match r
    case Local(command, params) => AtPayload(id, command, params)
    case Remote(command, params, addr64, addr16, apply) => RemotePayload(id, addr64, addr16, apply, command, params)
  }

  /** A request's packet, byte by byte, from the start byte 0x7E to the checksum. */
  predicate Laid(pkt: seq<Byte>, r: Request, id: Byte) {
    && |pkt| >= 4 && pkt[0] == 0x7E && 256 * (pkt[1] as int) + pkt[2] as int == |pkt| - 4 && Sum(pkt[3..]) == 0xFF
    && match r
       case Local(command, params) =>
         && |pkt| == |params| + 8 && pkt[3] == 0x08 && pkt[4] == id && pkt[5..7] == command && pkt[7..|pkt| - 1] == params
       case Remote(command, params, addr64, addr16, apply) =>
         && |pkt| == |params| + 19 && pkt[3] == 0x17 && pkt[4] == id && pkt[5..13] == addr64 && pkt[13..15] == addr16
         && pkt[15] == (if apply != 0 then 2 else 0) && pkt[16..18] == command && pkt[18..|pkt| - 1] == params
  }

  lemma SealedSum(payload: seq<Byte>)
    requires |payload| <= MAX_DATA_LEN
    ensures var pkt := Sealed(payload);
      && |pkt| == |payload| + 4 && pkt[0] == 0x7E && 256 * (pkt[1] as int) + pkt[2] as int == |payload|
      && pkt[3..|pkt| - 1] == payload && Sum(pkt[3..]) == 0xFF
  {
    hide Sum, Check;
    CheckCompletes(payload);
    assert Sealed(payload)[3..] == payload + [Check(payload)];
  }

  lemma LocalLaid(id: Byte, command: seq<Byte>, params: seq<Byte>)
    requires |command| == 2 && |params| <= 247
    ensures Laid(Sealed(AtPayload(id, command, params)), Local(command, params), id)
  {
    hide Sum;
    SealedSum(AtPayload(id, command, params));
    var pkt := Sealed(AtPayload(id, command, params));
    assert pkt[5..7] == command;
    assert pkt[7..|pkt| - 1] == params;
  }

  lemma RemoteLaid(id: Byte, addr64: seq<Byte>, addr16: seq<Byte>, apply: Byte, command: seq<Byte>, params: seq<Byte>)
    requires |addr64| == 8 && |addr16| == 2 && |command| == 2 && |params| <= 236
    ensures Laid(Sealed(RemotePayload(id, addr64, addr16, apply, command, params)),
                 Remote(command, params, addr64, addr16, apply), id)
  {
    hide Sum;
    SealedSum(RemotePayload(id, addr64, addr16, apply, command, params));
    var pkt := Sealed(RemotePayload(id, addr64, addr16, apply, command, params));
    assert pkt[5..13] == addr64;
    assert pkt[13..15] == addr16;
    assert pkt[16..18] == command;
    assert pkt[18..|pkt| - 1] == params;
  }

  /** What is sent for a request: number, command and parameters, and for a remote one the two addresses and the apply option. */
  lemma RequestLaid(r: Request, id: Byte)
    requires Sendable(r)
    ensures Laid(Sealed(RequestPayload(r, id)), r, id)
  {
    hide Sum, Sealed, Laid;
    match r
    case Local(command, params) => LocalLaid(id, command, params);
    case Remote(command, params, addr64, addr16, apply) => RemoteLaid(id, addr64, addr16, apply, command, params);
  }

  /** `ucXBeeNextFrameId`: counts one byte wide, leaving out zero. */
  function NextId(id: Byte): Byte {
    if id == 255 then 1 else id + 1
  }

  /** What a run of requests puts on the line, from a given frame number. */
  function Requested(id: Byte, rs: seq<Request>): seq<Byte>
    requires forall r :: r in rs ==> Sendable(r)
    decreases |rs|
  {
    if rs == [] then [] else Sealed(RequestPayload(rs[0], NextId(id))) + Requested(NextId(id), rs[1..])
  }

  /** The frame number of the request with index k in a run. */
  function IdAt(id: Byte, k: nat): Byte
    decreases k
  {
    if k == 0 then NextId(id) else IdAt(NextId(id), k - 1)
  }

  /** Frame numbers are never zero, and come back only after all 255 others. */
  lemma {:induction false} IdsCycle(id: Byte, k: nat)
    ensures IdAt(id, k) == (if id == 0 then k % 255 else (id + k) % 255) + 1
    decreases k
  {
    if k > 0 {
      IdsCycle(NextId(id), k - 1);
      CycleStep(id, k);
    }
  }

  lemma CycleStep(id: Byte, k: nat)
    requires k > 0
    ensures (NextId(id) + (k - 1)) % 255 == (if id == 0 then k % 255 else (id + k) % 255)
  {
    if id == 255 {
      assert id + k == 255 + (1 + (k - 1));
      assert (255 + k) % 255 == k % 255;
    }
  }

  /** A run of requests reaches the receiver one packet each, in order, and the accessors give back what was asked. */
  lemma {:induction false} RequestsRead(id: Byte, rs: seq<Request>, out: seq<seq<Byte>>)
    requires forall r :: r in rs ==> Sendable(r)
    ensures Orderly(Parser([], out), Requested(id, rs))
    ensures var p := Feed(Parser([], out), Requested(id, rs));
      p.got == [] && |p.out| == |out| + |rs| && p.out[..|out|] == out
      && (forall k :: 0 <= k < |rs| ==> Reads(p.out[|out| + k], IdAt(id, k), rs[k].command, rs[k].params))
      && forall k :: 0 <= k < |rs| ==> Laid(p.out[|out| + k], rs[k], IdAt(id, k))
    decreases |rs|
  {
    hide Feed, Orderly, Reads, Laid, Sealed, RequestPayload, NextId, Sendable;
    if rs == [] {
      FedNothing(out);
    } else {
      var f := Sealed(RequestPayload(rs[0], NextId(id)));
      RequestRead(id, rs[0], out);
      FeedSplit(Parser([], out), f, Requested(NextId(id), rs[1..]));
      RequestsRead(NextId(id), rs[1..], out + [f]);
      var p := Feed(Parser([], out), Requested(id, rs));
      assert p.out[..|out|] == p.out[..|out + [f]|][..|out|];
      assert p.out[|out|] == (out + [f])[|out|] by { assert p.out[..|out + [f]|][|out|] == f; }
      forall k | 0 <= k < |rs|
        ensures Reads(p.out[|out| + k], IdAt(id, k), rs[k].command, rs[k].params) && Laid(p.out[|out| + k], rs[k], IdAt(id, k))
      {
        if k > 0 {
          assert rs[1..][k - 1] == rs[k];
          assert p.out[|out + [f]| + (k - 1)] == p.out[|out| + k];
        }
      }
    }
  }

  lemma RequestRead(id: Byte, r: Request, out: seq<seq<Byte>>)
    requires Sendable(r)
    ensures var f := Sealed(RequestPayload(r, NextId(id)));
      Feed(Parser([], out), f) == Parser([], out + [f]) && Orderly(Parser([], out), f)
      && Reads(f, NextId(id), r.command, r.params) && Laid(f, r, NextId(id))
  {
    hide Step, Ready, Reads, Laid;
    RequestLaid(r, NextId(id));
    var payload := RequestPayload(r, NextId(id));
    PieceRead(out, Packet(payload, Check(payload)));
    match r
    case Local(command, params) => AtRead(NextId(id), command, params);
    case Remote(command, params, addr64, addr16, apply) => RemoteRead(NextId(id), addr64, addr16, apply, command, params);
  }

  // ---------------------------------------------------------------- the accessors on what a module sends

  /** A module's answer to a local request. */
  function LocalAnswer(id: Byte, command: seq<Byte>, status: Byte, params: seq<Byte>): seq<Byte> {
    [0x88, id] + command + [status] + params
  }

  /** A module's answer to a remote request, with the addresses of the module that answers. */
  function RemoteAnswer(id: Byte, addr64: seq<Byte>, addr16: seq<Byte>, command: seq<Byte>, status: Byte,
                        params: seq<Byte>): seq<Byte> {
    [0x97, id] + addr64 + addr16 + command + [status] + params
  }

  /** The accessors read number, command and parameters of both answers. */
  lemma AnswersRead(id: Byte, addr64: seq<Byte>, addr16: seq<Byte>, command: seq<Byte>, status: Byte, params: seq<Byte>)
    requires |addr64| == 8 && |addr16| == 2 && |command| == 2 && |params| <= 236
    ensures Reads(Sealed(LocalAnswer(id, command, status, params)), id, command, params)
    ensures Reads(Sealed(RemoteAnswer(id, addr64, addr16, command, status, params)), id, command, params)
  {
    var a := Sealed(LocalAnswer(id, command, status, params));
    assert a[5..7] == command && a[8..][..|params|] == params;
    var b := Sealed(RemoteAnswer(id, addr64, addr16, command, status, params));
    assert b[15..17] == command && b[18..][..|params|] == params;
  }

  /** A queued request (type 0x09) is read like a local one, except that its number is not. */
  lemma QueuedRead(id: Byte, command: seq<Byte>, params: seq<Byte>)
    requires |command| == 2 && |params| <= 247
    ensures var pkt := Sealed([0x09, id] + command + params);
      && FrameId(pkt) == -1 && Command(pkt) == Some(command) && ParamLen(pkt) == |params|
      && Param(pkt).Some? && Param(pkt).value[..|params|] == params
  {
    var pkt := Sealed([0x09, id] + command + params);
    assert pkt[5..7] == command && pkt[7..][..|params|] == params;
  }

  /** Packets of any other type have no command and no parameters; a number only in five of those types. */
  lemma OthersRead(t: Byte, data: seq<Byte>)
    requires t !in {0x08, 0x09, 0x17, 0x88, 0x97} && 1 <= |data| <= 250
    ensures var pkt := Sealed([t] + data);
      && Command(pkt) == None && Param(pkt) == None && ParamLen(pkt) == -1
      && FrameId(pkt) == if t in {0x00, 0x01, 0x10, 0x89, 0x8B} then data[0] else -1
  {}
}
