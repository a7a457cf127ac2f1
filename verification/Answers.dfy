/** What the target does with a packet and what it sends back, byte by byte: when it is silent, and
    the frames and the flash after each operation. */
module Answers {
  import opened Bytes
  import opened Flash
  import opened Wire
  import opened Server
  import opened Target
  import opened Packets

  /** The datagrams sent in answer to a packet. */
  function Sends(h: Host, p: Packet, pad: nat): seq<Datagram>
    requires HostOk(h) && PacketOk(|h.state.flash|, p, pad)
  {
    Datagrams(p.sender, Replied(h, p, pad))
  }

  /** The header fields of the request, as numbers. */
  lemma HeaderFields(buf: seq<byte>, p: Packet, pad: nat)
    requires |buf| == FRAME_SIZE && 10 <= |p.bytes| <= FRAME_SIZE && pad <= 2
    ensures var q, b := Asked(buf, p, pad), p.bytes;
            && q.version == b[0] && q.seq_ == b[1] && q.operation == b[2] && q.status == b[3]
            && q.address == 16777216 * (b[4] as int) + 65536 * (b[5] as int) + 256 * (b[6] as int) + (b[7] as int)
            && q.length == 256 * (b[8] as int) + (b[9] as int)
            && q.data == Received(buf, p.bytes)[14 + pad..78 + pad]
  {
    var raw, b := Received(buf, p.bytes), p.bytes;
    assert raw[4..8] == [b[4], b[5], b[6], b[7]] && raw[8..10] == [b[8], b[9]];
    ByteOrder(b[4], b[5], b[6], b[7]);
    ByteOrder(b[8], b[9], 0, 0);
    hide FromBe32, FromBe16;
  }

  /** A packet with a whole header does what its request does. */
  lemma Turned(h: Host, p: Packet, pad: nat)
    requires HostOk(h) && PacketOk(|h.state.flash|, p, pad) && |p.bytes| >= 10
    ensures var q := Asked(h.buf, p, pad);
            && Defined(|h.state.flash|, q)
            && Turn(h, p, pad).state == Served(h.state, q, p.sender) && Replied(h, p, pad) == Sent(h.state, q, p.sender)
  {
    SameHeader(h.buf, Blank(), p, pad);
    hide Overlaid, Served, Sent, Received, DecodeRequest;
  }

  lemma OneFrame(sender: Address, r: Reply)
    ensures Datagrams(sender, [r]) == [Datagram(sender, [r.version, r.seq_, r.operation, r.status] + r.payload)]
    ensures r.payload == [] ==> Datagrams(sender, [r]) == [Datagram(sender, [r.version, r.seq_, r.operation, r.status])]
  {
    assert r.payload == [] ==> EncodeReply(r) == [r.version, r.seq_, r.operation, r.status];
  }

  lemma TwoFrames(sender: Address, x: Reply, y: Reply)
    ensures Datagrams(sender, [x, y]) == Datagrams(sender, [x]) + Datagrams(sender, [y])
  {
  }

  /** The replies of a request that takes time. */
  lemma TimedFrames(s: State, q: Request, sender: Address)
    requires Accepts(s, q, sender) && q.operation in {2, 3, 4} && Defined(|s.flash|, q)
    ensures Datagrams(sender, Sent(s, q, sender)) ==
            match Refusal(|s.flash|, q)
            case Some(status) => [Datagram(sender, [q.version, q.seq_, q.operation, status])]
            case None =>
              [Datagram(sender, [q.version, q.seq_, q.operation, 2]),
               Datagram(sender, [q.version, q.seq_, q.operation, 1]
                                + if q.operation == 2 then s.flash[q.address..q.address + q.length] else [])]
  {
    match Refusal(|s.flash|, q)
    case Some(status) => OneFrame(sender, Answer(q, status, []));
    case None =>
      var payload := if q.operation == 2 then s.flash[q.address..q.address + q.length] else [];
      OneFrame(sender, Answer(q, STATUS_INPROGRESS, []));
      OneFrame(sender, Answer(q, STATUS_OK, payload));
      TwoFrames(sender, Answer(q, STATUS_INPROGRESS, []), Answer(q, STATUS_OK, payload));
      hide Datagrams;
  }

  /** Nothing is sent to a packet shorter than a header, of another version or not a request, and
      to a repeat of the last accepted sequence number unless it opens a session. */
  lemma SilentExactly(h: Host, p: Packet, pad: nat)
    requires HostOk(h) && PacketOk(|h.state.flash|, p, pad)
    ensures Sends(h, p, pad) == [] <==>
              |p.bytes| < 10 || p.bytes[0] != 1 || p.bytes[3] != 0
              || (p.bytes[2] > 1 && p.bytes[1] == h.state.lastSeq)
    ensures Sends(h, p, pad) == [] ==> Turn(h, p, pad).state == h.state
  {
    if |p.bytes| >= 10 {
      HeaderFields(h.buf, p, pad);
      SameHeader(h.buf, Blank(), p, pad);
    }
    hide Asked, Overlaid, DiscoverReply;
  }

  /** A sender without the session is told so, and nothing else happens. */
  lemma StrangerAnswered(h: Host, p: Packet, pad: nat)
    requires HostOk(h) && PacketOk(|h.state.flash|, p, pad) && |p.bytes| >= 10
    requires p.bytes[0] == 1 && p.bytes[2] > 1 && p.bytes[3] == 0 && p.bytes[1] != h.state.lastSeq
    requires h.state.owner != Some(p.sender)
    ensures Sends(h, p, pad) == [Datagram(p.sender, [1, p.bytes[1], p.bytes[2], 3])]
    ensures Turn(h, p, pad).state == h.state
  {
    HeaderFields(h.buf, p, pad);
    Turned(h, p, pad);
    OneFrame(p.sender, Answer(Asked(h.buf, p, pad), STATUS_INV_SRC, []));
    hide Turn, Replied, Asked, Datagrams;
  }

  /** A session request makes its sender the owner, whoever that was before. */
  lemma SessionOpened(h: Host, p: Packet, pad: nat)
    requires HostOk(h) && PacketOk(|h.state.flash|, p, pad) && |p.bytes| >= 10
    requires p.bytes[0] == 1 && p.bytes[2] <= 1 && p.bytes[3] == 0
    ensures Sends(h, p, pad) == [Datagram(p.sender, [1, p.bytes[1], p.bytes[2], 1, 1, 0, 0xDE, 0xAD, 0xBE, 0xEF,
                                                     h.state.devId % 256, h.state.devId / 256])]
    ensures Turn(h, p, pad).state == h.state.(lastSeq := p.bytes[1], owner := Some(p.sender))
  {
    HeaderFields(h.buf, p, pad);
    Turned(h, p, pad);
    OneFrame(p.sender, Answer(Asked(h.buf, p, pad), STATUS_OK, DiscoverReply(h.state.devId)));
    DiscoverBytes(h.state.devId, [1, p.bytes[1], p.bytes[2], 1]);
    hide Turn, Replied, Asked, Datagrams;
  }

  lemma DiscoverBytes(devId: uint16, header: seq<byte>)
    requires |header| == 4
    ensures header + DiscoverReply(devId) ==
            [header[0], header[1], header[2], header[3], 1, 0, 0xDE, 0xAD, 0xBE, 0xEF, devId % 256, devId / 256]
  {
  }

  /** The packet is a request of the owner's that is not a repeat. */
  predicate FromOwner(h: Host, p: Packet, pad: nat) {
    && HostOk(h) && PacketOk(|h.state.flash|, p, pad) && |p.bytes| >= 10
    && p.bytes[0] == 1 && p.bytes[3] == 0 && p.bytes[1] != h.state.lastSeq && h.state.owner == Some(p.sender)
  }

  /** An ERASE of an aligned address inside the flash sets its page to 0xFF between two replies;
      any other is refused with status 5. */
  lemma EraseAnswered(h: Host, p: Packet, pad: nat, i: nat)
    requires FromOwner(h, p, pad) && p.bytes[2] == 4 && i < |h.state.flash|
    ensures var b := p.bytes;
            var a := 16777216 * (b[4] as int) + 65536 * (b[5] as int) + 256 * (b[6] as int) + (b[7] as int);
            var v, s := Turn(h, p, pad).state, p.bytes[1];
            && v == h.state.(flash := v.flash, lastSeq := s)
            && if a % 1024 == 0 && a < |h.state.flash| then
                 && Sends(h, p, pad) == [Datagram(p.sender, [1, s, 4, 2]), Datagram(p.sender, [1, s, 4, 1])]
                 && v.flash[i] == if a <= i < a + 1024 then 0xFF else h.state.flash[i]
               else Sends(h, p, pad) == [Datagram(p.sender, [1, s, 4, 5])] && v.flash == h.state.flash
  {
    HeaderFields(h.buf, p, pad);
    Turned(h, p, pad);
    TimedFrames(h.state, Asked(h.buf, p, pad), p.sender);
    assert [1, p.bytes[1], p.bytes[2], 1] + [] == [1, p.bytes[1], p.bytes[2], 1];
    hide Turn, Replied, Asked, Datagrams;
  }

  /** A WRITE to an aligned address inside the flash stores 64 bytes of the frame buffer, the
      packet's own as far as it reaches; any other is refused with status 5. */
  lemma WriteAnswered(h: Host, p: Packet, pad: nat, i: nat)
    requires FromOwner(h, p, pad) && p.bytes[2] == 3 && i < |h.state.flash|
    ensures var b := p.bytes;
            var a := 16777216 * (b[4] as int) + 65536 * (b[5] as int) + 256 * (b[6] as int) + (b[7] as int);
            var v, s, k := Turn(h, p, pad).state, p.bytes[1], 14 + pad + (i - a);
            && v == h.state.(flash := v.flash, lastSeq := s)
            && if a % 64 == 0 && a < |h.state.flash| then
                 && Sends(h, p, pad) == [Datagram(p.sender, [1, s, 3, 2]), Datagram(p.sender, [1, s, 3, 1])]
                 && v.flash[i] == if !(a <= i < a + 64) then h.state.flash[i]
                                  else if k < |p.bytes| then p.bytes[k] else h.buf[k]
               else Sends(h, p, pad) == [Datagram(p.sender, [1, s, 3, 5])] && v.flash == h.state.flash
  {
    HeaderFields(h.buf, p, pad);
    Turned(h, p, pad);
    TimedFrames(h.state, Asked(h.buf, p, pad), p.sender);
    assert [1, p.bytes[1], p.bytes[2], 1] + [] == [1, p.bytes[1], p.bytes[2], 1];
    hide Turn, Replied, Asked, Datagrams;
  }

  /** A READ of at most 1496 bytes inside the flash is answered with them; any other is refused
      with status 5. */
  lemma ReadAnswered(h: Host, p: Packet, pad: nat)
    requires FromOwner(h, p, pad) && p.bytes[2] == 2
    ensures var b := p.bytes;
            var a := 16777216 * (b[4] as int) + 65536 * (b[5] as int) + 256 * (b[6] as int) + (b[7] as int);
            var n, s := 256 * (p.bytes[8] as int) + (p.bytes[9] as int), p.bytes[1];
            && Turn(h, p, pad).state == h.state.(lastSeq := s)
            && if a + n <= |h.state.flash| && n <= 1496 then
                 Sends(h, p, pad) == [Datagram(p.sender, [1, s, 2, 2]),
                                      Datagram(p.sender, [1, s, 2, 1] + h.state.flash[a..a + n])]
               else Sends(h, p, pad) == [Datagram(p.sender, [1, s, 2, 5])]
  {
    HeaderFields(h.buf, p, pad);
    Turned(h, p, pad);
    TimedFrames(h.state, Asked(h.buf, p, pad), p.sender);
    hide Turn, Replied, Asked, Datagrams;
  }

  /** Every other operation is refused with status 4. */
  lemma OthersRefused(h: Host, p: Packet, pad: nat)
    requires FromOwner(h, p, pad) && p.bytes[2] > 4
    ensures Sends(h, p, pad) == [Datagram(p.sender, [1, p.bytes[1], p.bytes[2], 4])]
    ensures Turn(h, p, pad).state == h.state.(lastSeq := p.bytes[1])
  {
    HeaderFields(h.buf, p, pad);
    Turned(h, p, pad);
    OneFrame(p.sender, Answer(Asked(h.buf, p, pad), STATUS_INV_OP, []));
    hide Turn, Replied, Asked, Datagrams;
  }

  /** What the frame buffer then holds: the packet over what was there, and the last datagram
      sent over that. */
  lemma BufferHolds(h: Host, p: Packet, pad: nat, k: nat)
    requires HostOk(h) && PacketOk(|h.state.flash|, p, pad) && k < FRAME_SIZE
    ensures var sends := Sends(h, p, pad);
            var was := if k < |p.bytes| then p.bytes[k] else h.buf[k];
            Turn(h, p, pad).buf[k] ==
            if sends != [] && k < |sends[|sends| - 1].frame| then sends[|sends| - 1].frame[k] else was
  {
    hide Replied, Handled;
  }
}
