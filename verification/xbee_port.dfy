/**
 The XBee object: `vXBeeIn`, which takes a chunk of bytes through a fall-through parser with
 one-byte counters, and the senders.  Module XBee says what they compute.
 */
module XBeePort {
  import opened XBee

  class Port {
    var bytesLeft: Byte
    var bytesRcvd: Byte
    var packet: array<Byte>
    var hdr: array<Byte>
    var frameId: Byte

    // The packets handed to the callbacks, and the bytes written to the module.
    var delivered: seq<seq<Byte>>
    var tx: seq<Byte>

    /** Between two chunks. */
    ghost predicate Valid()
      reads this, hdr, packet
    {
      hdr.Length == HEADER && hdr != packet
      && (bytesRcvd >= HEADER ==> Collecting() && bytesLeft > 0)
      && Ready(View())
    }

    /** A packet is being filled. */
    ghost predicate Collecting()
      reads this, hdr, packet
    {
      hdr.Length == HEADER && hdr != packet && HEADER <= bytesRcvd
      && packet.Length == Length(hdr[..]) + 4 <= 255 && packet[..HEADER] == hdr[..]
      && bytesRcvd + bytesLeft == packet.Length
    }

    ghost function View(): Parser
      requires hdr.Length == HEADER && (bytesRcvd >= HEADER ==> bytesRcvd <= packet.Length)
      reads this, hdr, packet
    {
      Parser(if bytesRcvd < HEADER then hdr[..bytesRcvd] else packet[..bytesRcvd], delivered)
    }

    constructor ()
      ensures Valid() && fresh(hdr) && fresh(packet)
      ensures View() == Parser([], []) && frameId == 0 && tx == []
    {
      bytesLeft, bytesRcvd, frameId := 0, 0, 0;
      delivered, tx := [], [];
      packet := new Byte[1];
      hdr := new Byte[HEADER];
    }

    // -------------------------------------------------------------- receiving

    /** `ucXBeeCrc`. */
    method Crc(pkt: array<Byte>) returns (crc: Byte)
      requires Whole(pkt[..])
      ensures crc == Check(Payload(pkt[..]))
    {
      crc := 0;
      var n := Length(pkt[..]);
      ghost var payload := Payload(pkt[..]);
      for i := 0 to n
        invariant crc == Sum(payload[..i])
      {
        assert payload[..i + 1][..i] == payload[..i] && payload[i] == pkt[HEADER + i];
        crc := Plus8(crc, pkt[HEADER + i]);
      }
      assert payload[..n] == payload;
      crc := 255 - crc;
    }

    /** The first or the second byte of the header. */
    method TakeHeader(c: Byte)
      requires Valid() && bytesRcvd < 2 && (bytesRcvd == 0 ==> c == START)
      modifies this`bytesRcvd, hdr
      ensures Valid() && bytesRcvd == old(bytesRcvd) + 1 && View() == Step(old(View()), c)
    {
      hdr[bytesRcvd] := c;
      bytesRcvd := bytesRcvd + 1;
      assert hdr[..bytesRcvd] == old(hdr[..bytesRcvd]) + [c];
    }

    /** The third byte: the length is known, and a packet of that length is allocated. */
    method TakeLength(c: Byte)
      requires Valid() && bytesRcvd == 2 && Ready(Step(View(), c))
      modifies this`bytesLeft, this`bytesRcvd, this`packet, hdr
      ensures Valid() && bytesRcvd == HEADER && fresh(packet) && View() == Step(old(View()), c)
    {
      ghost var p := View();
      StepHeader(p, c);
      hide Step;
      hdr[2] := c;
      bytesRcvd := 3;
      assert hdr[..] == p.got + [c];
      bytesLeft := Length(hdr[..]) % 256;
      packet := new Byte[bytesLeft + 4];
      bytesLeft := bytesLeft + 1;
      packet[0], packet[1], packet[2] := hdr[0], hdr[1], hdr[2];
      assert packet[..HEADER] == hdr[..];
    }

    /** The first three bytes, wherever the last chunk ended among them. */
    method Header(buf: seq<Byte>) returns (rest: seq<Byte>)
      requires Valid() && bytesRcvd < HEADER && buf != [] && Orderly(View(), buf)
      modifies this`bytesLeft, this`bytesRcvd, this`packet, hdr
      ensures Valid() && (packet == old(packet) || fresh(packet)) && |rest| <= |buf|
      ensures Orderly(View(), rest) && Feed(View(), rest) == Feed(old(View()), buf)
      ensures rest != [] ==> bytesRcvd == HEADER
    {
      hide Step, Orderly, Feed, Ready;
      rest := buf;
      if bytesRcvd == 0 {
        while rest[0] != START
          invariant rest != [] && |rest| <= |buf| && Valid() && bytesRcvd == 0 && packet == old(packet)
          invariant View() == old(View()) && hdr[..] == old(hdr[..])
          invariant Orderly(View(), rest) && Feed(View(), rest) == Feed(old(View()), buf)
          decreases |rest|
        {
          Next(View(), rest);
          StepWaiting(View(), rest[0]);
          rest := rest[1..];
          if rest == [] { return; }
        }
        Next(View(), rest);
        TakeHeader(rest[0]);
        rest := rest[1..];
        if rest == [] { return; }
      }
      if bytesRcvd == 1 {
        Next(View(), rest);
        TakeHeader(rest[0]);
        rest := rest[1..];
        if rest == [] { return; }
      }
      Next(View(), rest);
      TakeLength(rest[0]);
      rest := rest[1..];
    }

    /** One byte stored in the packet, when it has already been counted off. */
    method Put(c: Byte)
      requires hdr.Length == HEADER && hdr != packet && HEADER <= bytesRcvd
      requires packet.Length == Length(hdr[..]) + 4 <= 255 && packet[..HEADER] == hdr[..]
      requires bytesRcvd + bytesLeft + 1 == packet.Length
      modifies this`bytesRcvd, packet
      ensures Collecting() && packet[..bytesRcvd] == old(packet[..bytesRcvd]) + [c]
    {
      packet[bytesRcvd] := c;
      bytesRcvd := bytesRcvd + 1;
    }

    /** The rest of the packet; tells whether it is complete. */
    method Body(buf: seq<Byte>) returns (rest: seq<Byte>, complete: bool)
      requires Valid() && bytesRcvd >= HEADER && buf != [] && Orderly(View(), buf)
      modifies this`bytesLeft, this`bytesRcvd, packet
      ensures |rest| < |buf|
      ensures !complete ==> rest == [] && Valid() && View() == Feed(old(View()), buf)
      ensures complete ==> hdr.Length == HEADER && hdr != packet && bytesRcvd == packet.Length && Whole(packet[..])
      ensures complete ==> Orderly(Finished(packet[..], delivered), rest)
      ensures complete ==> Feed(Finished(packet[..], delivered), rest) == Feed(old(View()), buf)
    {
      hide Step, Orderly, Feed, Finished, Ready, Good;
      rest := buf;
      while true
        invariant Collecting() && |rest| <= |buf| && packet[..HEADER] == old(packet[..HEADER])
        invariant bytesLeft > 0 ==> rest != [] && Ready(View()) && Orderly(View(), rest)
        invariant bytesLeft > 0 ==> Feed(View(), rest) == Feed(old(View()), buf)
        invariant bytesLeft == 0 ==> Orderly(Finished(packet[..], delivered), rest) && |rest| < |buf|
        invariant bytesLeft == 0 ==> Feed(Finished(packet[..], delivered), rest) == Feed(old(View()), buf)
        decreases |rest|, bytesLeft
      {
        var left := bytesLeft;
        bytesLeft := if bytesLeft == 0 then 255 else bytesLeft - 1;
        if left == 0 { break; }
        ghost var p := Parser(packet[..bytesRcvd], delivered);
        ghost var c := rest[0];
        Next(p, rest);
        StepBody(p, c);
        Put(rest[0]);
        rest := rest[1..];
        if bytesLeft == 0 { assert packet[..bytesRcvd] == packet[..]; }
        if rest == [] && bytesLeft > 0 {
          FedNone(View());
          return rest, false;
        }
      }
      complete := true;
    }

    /** `vXBeeIn`. */
    method In(buf: seq<Byte>)
      requires Valid() && |buf| <= 255 && Orderly(View(), buf)
      modifies this, hdr, packet
      ensures Valid() && frameId == old(frameId) && tx == old(tx)
      ensures hdr == old(hdr) && (packet == old(packet) || fresh(packet))
      ensures View() == Feed(old(View()), buf)
    {
      hide Step, Orderly, Feed, Finished, Good, Payload, Ready;
      var rest := buf;
      while rest != []
        invariant Valid() && hdr == old(hdr) && (packet == old(packet) || fresh(packet))
        invariant frameId == old(frameId) && tx == old(tx)
        invariant Orderly(View(), rest) && Feed(View(), rest) == Feed(old(View()), buf)
        decreases |rest|
      {
        if bytesRcvd < HEADER {
          rest := Header(rest);
          if rest == [] { break; }
        }
        var complete;
        rest, complete := Body(rest);
        if !complete {
          FedNone(View());
          return;
        }
        Finish();
      }
      FedNone(View());
    }

    /** The end of a packet: delivered if its checksum is right, and forgotten in any case. */
    method Finish()
      requires hdr.Length == HEADER && hdr != packet && bytesRcvd == packet.Length && Whole(packet[..])
      modifies this`bytesRcvd, this`delivered
      ensures Valid() && View() == old(Finished(packet[..], delivered))
    {
      var crc := Crc(packet);
      if crc == packet[bytesRcvd - 1] {
        delivered := delivered + [packet[..bytesRcvd]];
        assert packet[..bytesRcvd] == packet[..];
      }
      bytesRcvd := 0;
    }

    // -------------------------------------------------------------- sending

    /** `ucXBeeNextFrameId`. */
    method NextFrameId() returns (id: Byte)
      modifies this`frameId
      ensures id == frameId == NextId(old(frameId)) && id != 0
    {
      frameId := Plus8(frameId, 1);
      if frameId == 0 { frameId := frameId + 1; }
      id := frameId;
    }

    /** `iXBeeSendAt`, with parameters given. */
    method SendAt(command: seq<Byte>, params: seq<Byte>) returns (id: Byte)
      requires |command| == 2 && |params| <= 247
      modifies this`frameId, this`tx
      ensures id == frameId == NextId(old(frameId))
      ensures tx == old(tx) + Sealed(RequestPayload(Local(command, params), id))
      ensures Laid(tx[|old(tx)|..], Local(command, params), id)
    {
      hide Sum, Frame, Payload, Laid;
      var n := |params|;
      var pkt := new Byte[n + 8];
      id := NextFrameId();
      ghost var payload := AtPayload(id, command, params);
      pkt[0], pkt[1], pkt[2] := START, 0, n + 4;
      pkt[3], pkt[4], pkt[5], pkt[6] := ATCMD, id, command[0], command[1];
      forall i | 0 <= i < n { pkt[7 + i] := params[i]; }
      assert forall i :: 0 <= i < n + 4 ==> pkt[HEADER + i] == payload[i];
      assert pkt[HEADER..HEADER + |payload|] == payload;
      Seal(pkt, payload);
      RequestLaid(Local(command, params), id);
      tx := tx + pkt[..];
    }

    /** `iXBeeSendRemoteAt`. */
    method SendRemoteAt(command: seq<Byte>, params: seq<Byte>, addr64: seq<Byte>, addr16: seq<Byte>, apply: Byte)
        returns (id: Byte)
      requires |command| == 2 && |params| <= 236 && |addr64| == 8 && |addr16| == 2
      modifies this`frameId, this`tx
      ensures id == frameId == NextId(old(frameId))
      ensures tx == old(tx) + Sealed(RequestPayload(Remote(command, params, addr64, addr16, apply), id))
      ensures Laid(tx[|old(tx)|..], Remote(command, params, addr64, addr16, apply), id)
    {
      hide Sum, Frame, Payload, Laid, RemotePayload;
      var n := |params|;
      var pkt := new Byte[n + 19];
      id := NextFrameId();
      ghost var payload := RemotePayload(id, addr64, addr16, apply, command, params);
      pkt[0], pkt[1], pkt[2] := START, 0, n + 15;
      FillRemote(pkt, id, command, params, addr64, addr16, apply);
      Seal(pkt, payload);
      RequestLaid(Remote(command, params, addr64, addr16, apply), id);
      tx := tx + pkt[..];
    }

    /** The fields of a remote request, behind the header. */
    method FillRemote(pkt: array<Byte>, id: Byte, command: seq<Byte>, params: seq<Byte>, addr64: seq<Byte>, addr16: seq<Byte>,
                      apply: Byte)
      requires |command| == 2 && |addr64| == 8 && |addr16| == 2 && pkt.Length == |params| + 19
      modifies pkt
      ensures pkt[..HEADER] == old(pkt[..HEADER])
      ensures pkt[HEADER..|params| + 18] == RemotePayload(id, addr64, addr16, apply, command, params)
    {
      var n := |params|;
      ghost var payload := RemotePayload(id, addr64, addr16, apply, command, params);
      pkt[3], pkt[4] := REMOTE_ATCMD, id;
      forall i | 0 <= i < 8 { pkt[5 + i] := addr64[i]; }
      forall i | 0 <= i < 2 { pkt[13 + i] := addr16[i]; }
      pkt[15] := if apply != 0 then 2 else 0;
      pkt[16], pkt[17] := command[0], command[1];
      forall i | 0 <= i < n { pkt[18 + i] := params[i]; }
      assert forall i :: 0 <= i < n + 15 ==> pkt[HEADER + i] == payload[i];
    }

    /** The checksum byte of a packet that is otherwise filled in. */
    method Seal(pkt: array<Byte>, ghost payload: seq<Byte>)
      requires |payload| <= MAX_DATA_LEN && pkt.Length == |payload| + 4
      requires pkt[..HEADER] == [START, 0, |payload|] && pkt[HEADER..HEADER + |payload|] == payload
      modifies pkt
      ensures pkt[..] == Sealed(payload)
    {
      hide Sum;
      assert pkt[..][1] == pkt[..HEADER][1] && pkt[..][2] == pkt[..HEADER][2];
      var crc := Crc(pkt);
      pkt[pkt.Length - 1] := crc;
      assert pkt[..] == pkt[..HEADER] + pkt[HEADER..HEADER + |payload|] + [crc];
    }
  }

  // ---------------------------------------------------------------- steps of the automaton, case by case

  lemma Next(p: Parser, s: seq<Byte>)
    requires s != [] && Orderly(p, s)
    ensures Feed(p, s) == Feed(Step(p, s[0]), s[1..])
    ensures Ready(p) && Orderly(Step(p, s[0]), s[1..]) && Ready(Step(p, s[0]))
  {
    hide Step, Ready;
  }

  lemma FedNone(p: Parser)
    ensures Feed(p, []) == p
  {}

  lemma StepWaiting(p: Parser, c: Byte)
    requires p.got == [] && c != START
    ensures Step(p, c) == p
  {}

  lemma StepHeader(p: Parser, c: Byte)
    requires 0 < |p.got| < HEADER
    ensures Step(p, c) == Parser(p.got + [c], p.out)
  {}

  /** What a whole packet leads to. */
  function Finished(got: seq<Byte>, out: seq<seq<Byte>>): Parser
    requires Whole(got)
  {
    Parser([], if Good(got) then out + [got] else out)
  }

  lemma StepBody(p: Parser, c: Byte)
    requires |p.got| >= HEADER && Ready(p)
    ensures |p.got| + 1 < Length(p.got) + 4 ==> Step(p, c) == Parser(p.got + [c], p.out)
    ensures |p.got| + 1 == Length(p.got) + 4 ==> Whole(p.got + [c]) && Step(p, c) == Finished(p.got + [c], p.out)
  {}
}
