/** Whole runs of the packet loop over bytes: what one sender's packets leave in the frame buffer,
    and when another sender's can tell. */
module Packets {
  import opened Bytes
  import opened Flash
  import opened Wire
  import opened Server
  import opened Target
  import C = Client

  datatype Packet = Packet(sender: Address, bytes: seq<byte>)

  /** The target between two packets: its state and what its frame buffer holds. */
  datatype Host = Host(state: State, buf: seq<byte>)

  predicate HostOk(h: Host) {
    |h.buf| == FRAME_SIZE && Complete(h.state.flash)
  }

  /** The request the target reads when the packet arrives over the given buffer. */
  function Asked(buf: seq<byte>, p: Packet, pad: nat): Request
    requires |buf| == FRAME_SIZE && |p.bytes| <= FRAME_SIZE && pad <= 2
  {
    DecodeRequest(Received(buf, p.bytes), pad)
  }

  function Blank(): (buf: seq<byte>)
    ensures |buf| == FRAME_SIZE
  {
    seq(FRAME_SIZE, _ => 0)
  }

  /** The packet fits the buffer and, if it is a READ, its range does not pass 2^32. */
  predicate PacketOk(size: nat, p: Packet, pad: nat) {
    && |p.bytes| <= FRAME_SIZE && pad <= 2
    && (|p.bytes| >= REQUEST_HEADER ==> Defined(size, Asked(Blank(), p, pad)))
  }

  /** The header fields come from the packet, whatever the buffer held. */
  lemma SameHeader(buf: seq<byte>, buf': seq<byte>, p: Packet, pad: nat)
    requires |buf| == |buf'| == FRAME_SIZE && |p.bytes| <= FRAME_SIZE && pad <= 2
    ensures |p.bytes| >= REQUEST_HEADER ==>
              Asked(buf, p, pad).(data := Asked(buf', p, pad).data) == Asked(buf', p, pad)
    ensures |p.bytes| >= C.WRITE_MESSAGE + pad ==> Asked(buf, p, pad) == Asked(buf', p, pad)
  {
    var raw, raw' := Received(buf, p.bytes), Received(buf', p.bytes);
    if |p.bytes| >= REQUEST_HEADER {
      assert raw[4..8] == p.bytes[4..8] == raw'[4..8];
      assert raw[8..10] == p.bytes[8..10] == raw'[8..10];
    }
    if |p.bytes| >= C.WRITE_MESSAGE + pad {
      assert raw[14 + pad..78 + pad] == p.bytes[14 + pad..78 + pad] == raw'[14 + pad..78 + pad];
    }
  }

  lemma RepliesFit(s: State, q: Request, sender: Address)
    ensures Defined(|s.flash|, q) ==> forall r | r in Sent(s, q, sender) :: |r.payload| <= MAX_PAYLOAD
  {
  }

  /** One turn of the packet loop. */
  function Turn(h: Host, p: Packet, pad: nat): (r: Host)
    requires HostOk(h) && PacketOk(|h.state.flash|, p, pad)
    ensures HostOk(r) && |r.state.flash| == |h.state.flash|
  {
    var frame := Received(h.buf, p.bytes);
    Host(Handled(h.state, frame, pad, |p.bytes|, p.sender), Overlaid(frame, Replied(h, p, pad)))
  }

  function Replied(h: Host, p: Packet, pad: nat): (rs: seq<Reply>)
    requires HostOk(h) && PacketOk(|h.state.flash|, p, pad)
    ensures forall r | r in rs :: |r.payload| <= MAX_PAYLOAD
  {
    SameHeader(h.buf, Blank(), p, pad);
    RepliesFit(h.state, Asked(h.buf, p, pad), p.sender);
    HandledReplies(h.state, Received(h.buf, p.bytes), pad, |p.bytes|, p.sender)
  }

  // ---------------------------------------------------------------- what the buffer's rest can do

  /** The packet is a WRITE that the target accepts and carries out. */
  predicate Stores(h: Host, p: Packet, pad: nat)
    requires HostOk(h) && |p.bytes| <= FRAME_SIZE && pad <= 2
  {
    && |p.bytes| >= REQUEST_HEADER
    && var q := Asked(h.buf, p, pad);
       Accepts(h.state, q, p.sender) && q.operation == OP_WRITE && Refusal(|h.state.flash|, q) == None
  }

  /** All the data the packet stores is its own. */
  predicate Whole(h: Host, p: Packet, pad: nat)
    requires HostOk(h) && |p.bytes| <= FRAME_SIZE && pad <= 2
  {
    Stores(h, p, pad) ==> |p.bytes| >= C.WRITE_MESSAGE + pad
  }

  /** Nothing but such a WRITE depends on what the buffer held before. */
  lemma BufferIrrelevant(h: Host, buf: seq<byte>, p: Packet, pad: nat)
    requires HostOk(h) && |buf| == FRAME_SIZE && PacketOk(|h.state.flash|, p, pad) && Whole(h, p, pad)
    ensures Turn(h.(buf := buf), p, pad).state == Turn(h, p, pad).state
    ensures Replied(h.(buf := buf), p, pad) == Replied(h, p, pad)
  {
    SameHeader(h.buf, buf, p, pad);
    SameHeader(h.buf, Blank(), p, pad);
    SameHeader(buf, Blank(), p, pad);
    hide Asked, Overlaid, Served, Sent, Accepts, Refusal, Complete;
    if |p.bytes| >= REQUEST_HEADER {
      DataIrrelevant(h.state, Asked(h.buf, p, pad), Asked(buf, p, pad), p.sender);
      DataIrrelevant(h.state, Asked(Blank(), p, pad), Asked(buf, p, pad), p.sender);
    }
  }

  /** The data field matters to a WRITE that is carried out, and to nothing else. */
  lemma DataIrrelevant(s: State, q: Request, q': Request, sender: Address)
    requires q.(data := q'.data) == q'
    ensures Defined(|s.flash|, q) == Defined(|s.flash|, q') && Accepts(s, q, sender) == Accepts(s, q', sender)
    ensures Refusal(|s.flash|, q) == Refusal(|s.flash|, q')
    ensures !(Accepts(s, q, sender) && q.operation == OP_WRITE && Refusal(|s.flash|, q) == None) ==>
              Served(s, q, sender) == Served(s, q', sender)
    ensures Defined(|s.flash|, q) ==> Sent(s, q, sender) == Sent(s, q', sender)
  {
    hide WriteAt, EraseAt, ReadRefused, DiscoverReply;
  }

  /** A packet that the target drops: no change of state, no reply, no session. */
  predicate Dropped(h: Host, x: Packet, pad: nat) {
    HostOk(h) && PacketOk(|h.state.flash|, x, pad) && Turn(h, x, pad).state == h.state && Replied(h, x, pad) == []
  }

  /** Receiving `x` before `p` makes a difference to what is stored. */
  predicate Noticed(h: Host, x: Packet, p: Packet, pad: nat) {
    && Dropped(h, x, pad) && PacketOk(|h.state.flash|, p, pad)
    && Turn(Turn(h, x, pad), p, pad).state.flash != Turn(h, p, pad).state.flash
  }

  /** A packet of an unknown version, long enough to leave one byte under the last data byte. */
  function Residue(buf: seq<byte>, sender: Address, pad: nat): Packet
    requires |buf| == FRAME_SIZE && pad <= 2
  {
    Packet(sender, [9] + seq(76 + pad, _ => 0) + [if buf[77 + pad] == 0 then 1 else 0])
  }

  lemma ResidueDropped(h: Host, sender: Address, pad: nat)
    requires HostOk(h) && pad <= 2
    ensures var x := Residue(h.buf, sender, pad);
            && Dropped(h, x, pad) && Turn(h, x, pad).buf[77 + pad] != h.buf[77 + pad]
  {
    var x := Residue(h.buf, sender, pad);
    assert Asked(Blank(), x, pad).version == 9 && Asked(h.buf, x, pad).version == 9;
    assert PacketOk(|h.state.flash|, x, pad);
    assert Replied(h, x, pad) == [];
    assert Received(h.buf, x.bytes)[77 + pad] == x.bytes[77 + pad];
  }

  /** Some dropped packet of a given sender, received first, changes what a WRITE stores exactly
      when the WRITE is too short to bring all its data. */
  lemma NoticedExactly(h: Host, p: Packet, pad: nat, stranger: Address)
    requires HostOk(h) && PacketOk(|h.state.flash|, p, pad) && Stores(h, p, pad)
    ensures |p.bytes| < C.WRITE_MESSAGE + pad <==> exists x: Packet :: x.sender == stranger && Noticed(h, x, p, pad)
  {
    if |p.bytes| < C.WRITE_MESSAGE + pad {
      var x := Residue(h.buf, stranger, pad);
      ResidueDropped(h, stranger, pad);
      DifferentByte(h, Turn(h, x, pad).buf, p, pad);
      assert Turn(h, x, pad) == h.(buf := Turn(h, x, pad).buf);
      assert Noticed(h, x, p, pad);
    } else {
      forall x: Packet ensures !Noticed(h, x, p, pad) {
        if Dropped(h, x, pad) {
          assert Turn(h, x, pad) == h.(buf := Turn(h, x, pad).buf);
          BufferIrrelevant(h, Turn(h, x, pad).buf, p, pad);
        }
      }
    }
  }

  /** The last byte stored is the buffer's. */
  lemma DifferentByte(h: Host, buf: seq<byte>, p: Packet, pad: nat)
    requires HostOk(h) && PacketOk(|h.state.flash|, p, pad) && Stores(h, p, pad) && |p.bytes| < C.WRITE_MESSAGE + pad
    requires |buf| == FRAME_SIZE && buf[77 + pad] != h.buf[77 + pad]
    ensures Turn(h.(buf := buf), p, pad).state.flash != Turn(h, p, pad).state.flash
  {
    SameHeader(h.buf, buf, p, pad);
    assert Stores(h.(buf := buf), p, pad);
    LastStored(h, p, pad);
    LastStored(h.(buf := buf), p, pad);
    hide Turn, Stores, HostOk, PacketOk;
  }

  lemma LastStored(h: Host, p: Packet, pad: nat)
    requires HostOk(h) && PacketOk(|h.state.flash|, p, pad) && Stores(h, p, pad) && |p.bytes| < C.WRITE_MESSAGE + pad
    ensures var a := Asked(h.buf, p, pad).address + 63;
            a < |h.state.flash| && Turn(h, p, pad).state.flash[a] == h.buf[77 + pad]
  {
    var q := Asked(h.buf, p, pad);
    UnitFits(q.address, |h.state.flash|, WRITE_SIZE);
    assert q.data[63] == h.buf[77 + pad];
    hide Asked, Received, Overlaid;
    assert Handled(h.state, Received(h.buf, p.bytes), pad, |p.bytes|, p.sender).flash == Apply(h.state.flash, q);
  }

  // ---------------------------------------------------------------- whole runs

  predicate PacketsOk(h: Host, ps: seq<Packet>, pad: nat) {
    HostOk(h) && pad <= 2 && forall p | p in ps :: PacketOk(|h.state.flash|, p, pad)
  }

  function After(h: Host, ps: seq<Packet>, pad: nat): (r: Host)
    requires PacketsOk(h, ps, pad)
    ensures HostOk(r) && |r.state.flash| == |h.state.flash|
  {
    if ps == [] then h
    else
      var n := |ps| - 1;
      assert ps[n] in ps;
      Turn(After(h, ps[..n], pad), ps[n], pad)
  }

  /** All replies of a run, each with its receiver. */
  function Transcript(h: Host, ps: seq<Packet>, pad: nat): seq<(Address, seq<Reply>)>
    requires PacketsOk(h, ps, pad)
  {
    if ps == [] then []
    else
      var n := |ps| - 1;
      assert ps[n] in ps;
      Transcript(h, ps[..n], pad) + [(ps[n].sender, Replied(After(h, ps[..n], pad), ps[n], pad))]
  }

  /** The packets of everyone but the given senders. */
  function Without(ps: seq<Packet>, strangers: set<Address>): seq<Packet> {
    if ps == [] then []
    else
      var n := |ps| - 1;
      Without(ps[..n], strangers) + (if ps[n].sender in strangers then [] else [ps[n]])
  }

  function Heard(t: seq<(Address, seq<Reply>)>, strangers: set<Address>): seq<(Address, seq<Reply>)> {
    if t == [] then []
    else
      var n := |t| - 1;
      Heard(t[..n], strangers) + (if t[n].0 in strangers then [] else [t[n]])
  }

  /** If packet `i` is a WRITE that is carried out, it brings all its data. */
  predicate WholeAt(h: Host, ps: seq<Packet>, i: nat, pad: nat)
    requires PacketsOk(h, ps, pad) && i < |ps|
  {
    assert ps[i] in ps;
    Whole(After(h, ps[..i], pad), ps[i], pad)
  }

  predicate WholeWrites(h: Host, ps: seq<Packet>, pad: nat)
    requires PacketsOk(h, ps, pad)
  {
    forall i | 0 <= i < |ps| :: WholeAt(h, ps, i, pad)
  }

  predicate StartsSession(p: Packet) {
    && |p.bytes| >= REQUEST_HEADER && p.bytes[0] == VERSION && p.bytes[3] == STATUS_REQUEST
    && OpensSession(p.bytes[2])
  }

  lemma {:induction false} WithoutMembers(ps: seq<Packet>, strangers: set<Address>)
    ensures forall p | p in Without(ps, strangers) :: p in ps
  {
    if ps != [] {
      WithoutMembers(ps[..|ps| - 1], strangers);
    }
  }

  lemma AfterAppend(h: Host, ps: seq<Packet>, p: Packet, pad: nat)
    requires PacketsOk(h, ps + [p], pad)
    ensures PacketsOk(h, ps, pad) && PacketOk(|h.state.flash|, p, pad)
    ensures After(h, ps + [p], pad) == Turn(After(h, ps, pad), p, pad)
    ensures Transcript(h, ps + [p], pad) == Transcript(h, ps, pad) + [(p.sender, Replied(After(h, ps, pad), p, pad))]
  {
    assert (ps + [p])[..|ps|] == ps && (ps + [p])[|ps|] == p && p in ps + [p];
  }

  lemma HeardAppend(t: seq<(Address, seq<Reply>)>, x: (Address, seq<Reply>), strangers: set<Address>)
    ensures Heard(t + [x], strangers) == Heard(t, strangers) + (if x.0 in strangers then [] else [x])
  {
  }

  /** A packet of a sender that is not the owner and opens no session changes no state. */
  lemma StrangerTurn(h: Host, p: Packet, pad: nat)
    requires HostOk(h) && PacketOk(|h.state.flash|, p, pad) && !StartsSession(p) && h.state.owner != Some(p.sender)
    ensures Turn(h, p, pad).state == h.state
  {
    hide Overlaid;
  }

  lemma OwnerTurn(h: Host, p: Packet, pad: nat)
    requires HostOk(h) && PacketOk(|h.state.flash|, p, pad)
    ensures Turn(h, p, pad).state.owner == if StartsSession(p) then Some(p.sender) else h.state.owner
  {
    hide Overlaid;
  }

  /** Senders that never open a session cannot be noticed as long as every WRITE that is carried
      out brings all its data: with their packets removed the target ends in the same state and
      sends everyone else the same replies. */
  lemma {:induction false} StrangersAreInvisible(h: Host, ps: seq<Packet>, strangers: set<Address>, pad: nat)
    requires PacketsOk(h, ps, pad) && WholeWrites(h, ps, pad) && h.state.owner == None
    requires forall p | p in ps && p.sender in strangers :: !StartsSession(p)
    ensures PacketsOk(h, Without(ps, strangers), pad)
    ensures After(h, Without(ps, strangers), pad).state == After(h, ps, pad).state
    ensures After(h, ps, pad).state.owner == None || After(h, ps, pad).state.owner.value !in strangers
    ensures Transcript(h, Without(ps, strangers), pad) == Heard(Transcript(h, ps, pad), strangers)
  {
    WithoutMembers(ps, strangers);
    if ps != [] {
      hide Turn, Replied, StartsSession, Whole, PacketOk, HostOk;
      var n := |ps| - 1;
      var before, p := ps[..n], ps[n];
      assert p in ps;
      WholeBefore(h, ps, pad);
      StrangersAreInvisible(h, before, strangers, pad);
      var was, kept := After(h, before, pad), After(h, Without(before, strangers), pad);
      OwnerTurn(was, p, pad);
      HeardAppend(Transcript(h, before, pad), (p.sender, Replied(was, p, pad)), strangers);
      if p.sender in strangers {
        assert Without(ps, strangers) == Without(before, strangers);
        StrangerTurn(was, p, pad);
      } else {
        assert kept == was.(buf := kept.buf);
        BufferIrrelevant(was, kept.buf, p, pad);
        AfterAppend(h, Without(before, strangers), p, pad);
      }
    }
  }

  lemma WholeBefore(h: Host, ps: seq<Packet>, pad: nat)
    requires ps != [] && PacketsOk(h, ps, pad) && WholeWrites(h, ps, pad)
    ensures var n := |ps| - 1;
            && PacketsOk(h, ps[..n], pad) && WholeWrites(h, ps[..n], pad)
            && ps[n] in ps && Whole(After(h, ps[..n], pad), ps[n], pad)
  {
    var n := |ps| - 1;
    assert WholeAt(h, ps, n, pad);
    hide WholeAt;
    forall i | 0 <= i < n ensures WholeAt(h, ps[..n], i, pad) {
      WholePrefix(h, ps, n, i, pad);
    }
    hide After, Whole, PacketOk, HostOk;
  }

  lemma WholePrefix(h: Host, ps: seq<Packet>, n: nat, i: nat, pad: nat)
    requires i < n <= |ps| && PacketsOk(h, ps, pad)
    ensures PacketsOk(h, ps[..n], pad) && WholeAt(h, ps[..n], i, pad) == WholeAt(h, ps, i, pad)
  {
    assert ps[..n][..i] == ps[..i];
    hide After, Whole;
  }

  /** The condition is exact: in a run in which it fails, and in no other, there is a moment at
      which a dropped packet of a stranger changes what the next packet stores. */
  lemma InvisibleExactly(h: Host, ps: seq<Packet>, pad: nat, stranger: Address)
    requires PacketsOk(h, ps, pad)
    ensures WholeWrites(h, ps, pad) <==>
            forall i, x: Packet | 0 <= i < |ps| && x.sender == stranger ::
              PacketsOk(h, ps[..i], pad) && !Noticed(After(h, ps[..i], pad), x, ps[i], pad)
  {
    hide Noticed, Stores, After, PacketOk, HostOk, WholeAt;
    forall i | 0 <= i < |ps|
      ensures PacketsOk(h, ps[..i], pad)
      ensures WholeAt(h, ps, i, pad) <==>
              forall x: Packet | x.sender == stranger :: !Noticed(After(h, ps[..i], pad), x, ps[i], pad)
    {
      WholeExactly(h, ps, i, pad, stranger);
    }
  }

  lemma WholeExactly(h: Host, ps: seq<Packet>, i: nat, pad: nat, stranger: Address)
    requires PacketsOk(h, ps, pad) && i < |ps|
    ensures PacketsOk(h, ps[..i], pad)
    ensures WholeAt(h, ps, i, pad) <==>
            forall x: Packet | x.sender == stranger :: !Noticed(After(h, ps[..i], pad), x, ps[i], pad)
  {
    hide Noticed, Stores, After;
    assert ps[i] in ps && PacketOk(|h.state.flash|, ps[i], pad);
    var was := After(h, ps[..i], pad);
    if Stores(was, ps[i], pad) {
      NoticedExactly(was, ps[i], pad, stranger);
    } else {
      forall x: Packet ensures !Noticed(was, x, ps[i], pad) {
        WholeUnnoticed(was, x, ps[i], pad);
      }
    }
  }

  lemma WholeUnnoticed(h: Host, x: Packet, p: Packet, pad: nat)
    requires HostOk(h) && PacketOk(|h.state.flash|, p, pad) && Whole(h, p, pad)
    ensures !Noticed(h, x, p, pad)
  {
    if Dropped(h, x, pad) {
      assert Turn(h, x, pad) == h.(buf := Turn(h, x, pad).buf);
      BufferIrrelevant(h, Turn(h, x, pad).buf, p, pad);
    }
  }

  /** The requests the target reads out of the packets of a run. */
  function Events(h: Host, ps: seq<Packet>, pad: nat): seq<Event>
    requires PacketsOk(h, ps, pad)
  {
    if ps == [] then []
    else
      var n := |ps| - 1;
      assert ps[n] in ps;
      Events(h, ps[..n], pad)
      + (if |ps[n].bytes| < REQUEST_HEADER then []
         else [Event(ps[n].sender, Asked(After(h, ps[..n], pad).buf, ps[n], pad))])
  }

  /** A run over packets is a run over these requests, so what `Server` says of its runs holds. */
  lemma {:induction false} RunOverPackets(h: Host, ps: seq<Packet>, pad: nat)
    requires PacketsOk(h, ps, pad)
    ensures After(h, ps, pad).state == Server.Run(h.state, Events(h, ps, pad))
  {
    if ps != [] {
      var n := |ps| - 1;
      assert ps[n] in ps;
      RunOverPackets(h, ps[..n], pad);
      var events, last := Events(h, ps[..n], pad), Event(ps[n].sender, Asked(After(h, ps[..n], pad).buf, ps[n], pad));
      assert events + [] == events && (events + [last])[..|events|] == events;
      hide Served, Overlaid, Replied;
      assert Server.Run(h.state, events + [last]) == Served(Server.Run(h.state, events), last.request, last.sender);
    }
  }

  // ---------------------------------------------------------------- the programmer's own messages

  /** A WRITE of the programmer brings all its data exactly without padding. With it, a dropped
      packet of a stranger decides the last bytes stored. */
  lemma ClientNoticedExactly(h: Host, tx: seq<byte>, address: uint32, data: Sector,
                             sender: Address, stranger: Address, pad: nat)
    requires C.Prepared(tx) && pad <= 2
    requires HostOk(h) && var p := Packet(sender, C.PrepareWrite(tx, address, data)[..C.WRITE_MESSAGE]);
                          PacketOk(|h.state.flash|, p, pad) && Stores(h, p, pad)
    ensures var p := Packet(sender, C.PrepareWrite(tx, address, data)[..C.WRITE_MESSAGE]);
            pad > 0 <==> exists x: Packet :: x.sender == stranger && Noticed(h, x, p, pad)
  {
    NoticedExactly(h, Packet(sender, C.PrepareWrite(tx, address, data)[..C.WRITE_MESSAGE]), pad, stranger);
  }

  /** A hundred bytes of an unknown version. */
  function Unknown(sender: Address): Packet {
    Packet(sender, [9] + seq(99, _ => 0x55))
  }

  /** The header of a WRITE to 0 and nothing else. */
  function BareWrite(sender: Address): Packet {
    Packet(sender, [VERSION, 7, OP_WRITE, STATUS_REQUEST, 0, 0, 0, 0, 0, 0])
  }

  /** The target stores the stranger's bytes, where without the stranger it stores its buffer. */
  lemma StrangerStored(h: Host, owner: Address, stranger: Address)
    requires HostOk(h) && |h.state.flash| > 0 && h.state.owner == Some(owner) && h.state.lastSeq != 7
    ensures var x, p := Unknown(stranger), BareWrite(owner);
            && PacketOk(|h.state.flash|, x, 0) && PacketOk(|h.state.flash|, p, 0)
            && Turn(Turn(h, x, 0), p, 0).state.flash[0] == 0x55 && Turn(h, p, 0).state.flash[0] == h.buf[14]
  {
    StrangerReceived(h, stranger);
    WriteStored(h, BareWrite(owner));
    WriteStored(Turn(h, Unknown(stranger), 0), BareWrite(owner));
    hide *;
  }

  lemma StrangerReceived(h: Host, sender: Address)
    requires HostOk(h)
    ensures PacketOk(|h.state.flash|, Unknown(sender), 0)
    ensures var r := Turn(h, Unknown(sender), 0); r.state == h.state && r.buf[14] == 0x55
  {
    assert Asked(h.buf, Unknown(sender), 0).version == 9 && Asked(Blank(), Unknown(sender), 0).version == 9;
    assert Replied(h, Unknown(sender), 0) == [];
  }

  lemma WriteStored(h: Host, p: Packet)
    requires HostOk(h) && |h.state.flash| > 0 && h.state.owner == Some(p.sender) && h.state.lastSeq != 7
    requires p == BareWrite(p.sender)
    ensures PacketOk(|h.state.flash|, p, 0) && Turn(h, p, 0).state.flash[0] == h.buf[14]
  {
    BareAsked(h.buf, p.sender);
    BareAsked(Blank(), p.sender);
    hide Asked, Overlaid, BareWrite, Received, Complete;
    assert Handled(h.state, Received(h.buf, p.bytes), 0, |p.bytes|, p.sender).flash ==
           Apply(h.state.flash, Asked(h.buf, p, 0));
  }

  lemma BareAsked(buf: seq<byte>, sender: Address)
    requires |buf| == FRAME_SIZE
    ensures |BareWrite(sender).bytes| == REQUEST_HEADER
    ensures var q := Asked(buf, BareWrite(sender), 0);
            && WellFormed(q) && q.seq_ == 7 && q.operation == OP_WRITE && q.address == 0 && q.data[0] == buf[14]
            && q == DecodeRequest(Received(buf, BareWrite(sender).bytes), 0)
  {
    var raw := Received(buf, BareWrite(sender).bytes);
    assert raw[4..8] == [0, 0, 0, 0];
    assert raw[4..8][..2] == [0, 0] && raw[4..8][2..] == [0, 0];
  }

  /** As long as packets and replies are no longer than a WRITE message, what lies behind it in
      the frame buffer stays. */
  lemma TailStays(h: Host, p: Packet, pad: nat)
    requires HostOk(h) && PacketOk(|h.state.flash|, p, pad) && |p.bytes| <= C.WRITE_MESSAGE
    requires forall r | r in Replied(h, p, pad) :: REPLY_HEADER + |r.payload| <= C.WRITE_MESSAGE
    ensures Turn(h, p, pad).buf[C.WRITE_MESSAGE..] == h.buf[C.WRITE_MESSAGE..]
  {
    hide Replied, Handled;
  }
}
