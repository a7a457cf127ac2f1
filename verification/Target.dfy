/** The emulated target: its flash, its one frame buffer used for the request and for the
    replies, and the handling of a received packet in place. */
module Target {
  import opened Bytes
  import opened Flash
  import opened Wire
  import opened Server

  datatype Datagram = Datagram(receiver: Address, frame: seq<byte>)

  function Datagrams(receiver: Address, rs: seq<Reply>): seq<Datagram> {
    seq(|rs|, i requires 0 <= i < |rs| => Datagram(receiver, EncodeReply(rs[i])))
  }

  /** The frame buffer once a packet has been received into it. */
  function Received(buf: seq<byte>, packet: seq<byte>): seq<byte>
    requires |packet| <= |buf|
  {
    packet + buf[|packet|..]
  }

  /** What one packet does to the target and what is sent back. A packet shorter than a
      header is dropped; a longer one is read out of the whole frame buffer. */
  function Handled(s: State, frame: seq<byte>, pad: nat, length: nat, sender: Address): State
    requires |frame| == FRAME_SIZE && pad <= 2
  {
    if length < REQUEST_HEADER then s else Served(s, DecodeRequest(frame, pad), sender)
  }

  function HandledReplies(s: State, frame: seq<byte>, pad: nat, length: nat, sender: Address): seq<Reply>
    requires |frame| == FRAME_SIZE && pad <= 2
    requires length >= REQUEST_HEADER ==> Defined(|s.flash|, DecodeRequest(frame, pad))
  {
    if length < REQUEST_HEADER then [] else Sent(s, DecodeRequest(frame, pad), sender)
  }

  /** The buffer's header is the one the request came with, up to the status. */
  predicate Echoes(frame: seq<byte>, q: Request) {
    |frame| == FRAME_SIZE && frame[0] == q.version && frame[1] == q.seq_ && frame[2] == q.operation
  }

  /** The frame buffer after replies have been prepared in it. */
  function Overlaid(frame: seq<byte>, rs: seq<Reply>): seq<byte>
    requires |frame| == FRAME_SIZE && forall r | r in rs :: |r.payload| <= MAX_PAYLOAD
  {
    if rs == [] then frame
    else var bytes := EncodeReply(rs[|rs| - 1]); bytes + frame[|bytes|..]
  }

  /** The reply payload may cover the request's address and length, yet the reply sent from
      the buffer still carries the request's version, sequence number and operation. */
  lemma AnswerOverlaid(frame: seq<byte>, q: Request, first: byte, last: byte, payload: seq<byte>)
    requires Echoes(frame, q) && |payload| <= MAX_PAYLOAD
    ensures var stored := frame[3 := first][..REPLY_HEADER] + payload + frame[REPLY_HEADER + |payload|..];
            && Echoes(stored, q) && stored[REPLY_HEADER..REPLY_HEADER + |payload|] == payload
            && stored[3 := last] == Overlaid(frame, [Answer(q, last, payload)])
  {
  }

  /** Only the last of two replies stays in the buffer; both are sent. */
  lemma TwoReplies(frame: seq<byte>, before: seq<Datagram>, receiver: Address, x: Reply, y: Reply)
    requires |frame| == FRAME_SIZE && |x.payload| <= MAX_PAYLOAD && |y.payload| <= MAX_PAYLOAD
    ensures Overlaid(frame, [x, y]) == Overlaid(frame, [y])
    ensures before + Datagrams(receiver, [x]) + Datagrams(receiver, [y]) == before + Datagrams(receiver, [x, y])
  {
  }

  /** An aligned unit that starts inside a flash of complete pages lies inside it. */
  lemma UnitFits(address: nat, size: nat, unit: nat)
    requires unit == ERASE_SIZE || unit == WRITE_SIZE
    requires address % unit == 0 && address < size && size % ERASE_SIZE == 0
    ensures address + unit <= size
  {
    var pages := size / ERASE_SIZE;
    assert size == ERASE_SIZE * pages;
    if unit == ERASE_SIZE {
      assert address / ERASE_SIZE < pages;
    } else {
      assert address / WRITE_SIZE < 16 * pages;
    }
  }

  class Target {
    const devId: uint16
    const pad: nat
    const flash: array<byte>
    const buf: array<byte>
    var lastSeq: byte
    var programmer: Option<Address>
    var sent: seq<Datagram>

    ghost predicate Valid()
      reads this, flash, buf
    {
      flash != buf && buf.Length == FRAME_SIZE && pad <= 2 && Complete(flash[..])
    }

    ghost function Abstract(): State
      reads this, flash
    {
      State(flash[..], lastSeq, programmer, devId)
    }

    /** `size` kibibytes of zeroed flash; sizes beyond 32-bit addresses are not built. */
    constructor (devId: uint16, size: nat, pad: nat)
      requires 1024 * size <= TWO_32 && pad <= 2
      ensures Valid() && fresh(flash) && fresh(buf)
      ensures Abstract() == State(seq(1024 * size, _ => 0), 0, None, devId) && sent == []
    {
      this.devId, this.pad := devId, pad;
      flash := new byte[1024 * size](_ => 0);
      buf := new byte[FRAME_SIZE];
      lastSeq, programmer, sent := 0, None, [];
    }

    /** Stores a status in the frame buffer and sends the buffer: header and `size` payload bytes. */
    method SendReply(status: byte, size: nat, receiver: Address, ghost q: Request)
      requires Valid() && size <= MAX_PAYLOAD && Echoes(buf[..], q)
      modifies this`sent, buf
      ensures buf[..] == old(buf[..])[3 := status]
      ensures sent == old(sent) + Datagrams(receiver, [Answer(q, status, old(buf[REPLY_HEADER..REPLY_HEADER + size]))])
    {
      buf[3] := status;
      sent := sent + [Datagram(receiver, buf[..REPLY_HEADER + size])];
      assert buf[..REPLY_HEADER + size] == EncodeReply(Answer(q, status, old(buf[REPLY_HEADER..REPLY_HEADER + size])));
    }

    method StorePayload(bytes: seq<byte>)
      requires Valid() && |bytes| <= MAX_PAYLOAD
      modifies buf
      ensures buf[..] == old(buf[..])[..REPLY_HEADER] + bytes + old(buf[..])[REPLY_HEADER + |bytes|..]
    {
      forall i | 0 <= i < |bytes| { buf[REPLY_HEADER + i] := bytes[i]; }
    }

    /** A reply without payload. */
    method SendStatus(status: byte, receiver: Address, ghost q: Request)
      requires Valid() && Echoes(buf[..], q)
      modifies this`sent, buf
      ensures sent == old(sent) + Datagrams(receiver, [Answer(q, status, [])])
      ensures buf[..] == old(buf[..])[3 := status] == Overlaid(old(buf[..]), [Answer(q, status, [])])
    {
      SendReply(status, 0, receiver, q);
    }

    method HandleSession(receiver: Address, ghost q: Request)
      requires Valid() && Echoes(buf[..], q) && OpensSession(q.operation)
      modifies this`sent, this`programmer, buf
      ensures programmer == Some(receiver)
      ensures sent == old(sent) + Datagrams(receiver, Replies(flash[..], devId, q))
      ensures buf[..] == Overlaid(old(buf[..]), Replies(flash[..], devId, q))
    {
      programmer := Some(receiver);
      var reply := DiscoverReply(devId);
      StorePayload(reply);
      SendReply(STATUS_OK, |reply|, receiver, q);
      AnswerOverlaid(old(buf[..]), q, old(buf[3]), STATUS_OK, reply);
      hide Overlaid, DiscoverReply, Echoes;
    }

    /** The second half of a request that takes time: the payload, if any, and the OK reply. */
    method Finish(payload: seq<byte>, receiver: Address, ghost q: Request, ghost frame: seq<byte>, ghost before: seq<Datagram>)
      requires Valid() && Echoes(frame, q) && |payload| <= MAX_PAYLOAD && buf[..] == frame[3 := STATUS_INPROGRESS]
      requires sent == before + Datagrams(receiver, [Answer(q, STATUS_INPROGRESS, [])])
      modifies this`sent, buf
      ensures sent == before + Datagrams(receiver, [Answer(q, STATUS_INPROGRESS, []), Answer(q, STATUS_OK, payload)])
      ensures buf[..] == Overlaid(frame, [Answer(q, STATUS_INPROGRESS, []), Answer(q, STATUS_OK, payload)])
    {
      StorePayload(payload);
      AnswerOverlaid(frame, q, STATUS_INPROGRESS, STATUS_OK, payload);
      SendReply(STATUS_OK, |payload|, receiver, q);
      TwoReplies(frame, before, receiver, Answer(q, STATUS_INPROGRESS, []), Answer(q, STATUS_OK, payload));
      hide Datagrams, Overlaid, Echoes;
    }

    method HandleErase(address: uint32, receiver: Address, ghost q: Request)
      requires Valid() && Echoes(buf[..], q) && q.operation == OP_ERASE && address == q.address
      modifies this`sent, buf, flash
      ensures flash[..] == Apply(old(flash[..]), q)
      ensures sent == old(sent) + Datagrams(receiver, Replies(old(flash[..]), devId, q))
      ensures buf[..] == Overlaid(old(buf[..]), Replies(old(flash[..]), devId, q))
    {
      hide Datagrams, Overlaid, Echoes;
      if address % ERASE_SIZE != 0 || address >= flash.Length {
        SendStatus(STATUS_INV_PARAM, receiver, q);
      } else {
        UnitFits(address, flash.Length, ERASE_SIZE);
        SendStatus(STATUS_INPROGRESS, receiver, q);
        ErasePage(address);
        Finish([], receiver, q, old(buf[..]), old(sent));
      }
    }

    method ErasePage(address: uint32)
      requires Valid() && address + ERASE_SIZE <= flash.Length
      modifies flash
      ensures flash[..] == EraseAt(old(flash[..]), address)
    {
      forall i | address <= i < address + ERASE_SIZE { flash[i] := ERASED; }
    }

    /** Copies the data of the received WRITE message to the flash. */
    method ProgramSector(address: uint32, ghost data: Sector)
      requires Valid() && data == buf[14 + pad..78 + pad] && address + WRITE_SIZE <= flash.Length
      modifies flash
      ensures flash[..] == WriteAt(Overwriting, old(flash[..]), address, data)
    {
      forall i | 0 <= i < WRITE_SIZE { flash[address + i] := buf[14 + pad + i]; }
    }

    method HandleWrite(address: uint32, receiver: Address, ghost q: Request)
      requires Valid() && Echoes(buf[..], q) && q.operation == OP_WRITE && address == q.address
      requires q.data == buf[14 + pad..78 + pad]
      modifies this`sent, buf, flash
      ensures flash[..] == Apply(old(flash[..]), q)
      ensures sent == old(sent) + Datagrams(receiver, Replies(old(flash[..]), devId, q))
      ensures buf[..] == Overlaid(old(buf[..]), Replies(old(flash[..]), devId, q))
    {
      hide Datagrams, Overlaid, Echoes;
      if address % WRITE_SIZE != 0 || address >= flash.Length {
        SendStatus(STATUS_INV_PARAM, receiver, q);
      } else {
        UnitFits(address, flash.Length, WRITE_SIZE);
        SendStatus(STATUS_INPROGRESS, receiver, q);
        ProgramSector(address, q.data);
        Finish([], receiver, q, old(buf[..]), old(sent));
      }
    }

    method HandleRead(address: uint32, length: uint16, receiver: Address, ghost q: Request)
      requires Valid() && Echoes(buf[..], q) && q.operation == OP_READ
      requires address == q.address && length == q.length && Defined(flash.Length, q)
      modifies this`sent, buf
      ensures sent == old(sent) + Datagrams(receiver, Replies(flash[..], devId, q))
      ensures buf[..] == Overlaid(old(buf[..]), Replies(flash[..], devId, q))
    {
      hide Datagrams, Overlaid, Echoes;
      if ReadRefused(flash.Length, address, length) {
        SendStatus(STATUS_INV_PARAM, receiver, q);
      } else {
        SendStatus(STATUS_INPROGRESS, receiver, q);
        Finish(flash[address..address + length], receiver, q, old(buf[..]), old(sent));
      }
    }

    /** What an accepted request makes the target do. */
    method Dispatch(operation: byte, address: uint32, length: uint16, receiver: Address, ghost q: Request)
      requires Valid() && Echoes(buf[..], q) && Defined(flash.Length, q) && q.data == buf[14 + pad..78 + pad]
      requires operation == q.operation && address == q.address && length == q.length
      modifies this`sent, this`programmer, buf, flash
      ensures flash[..] == Apply(old(flash[..]), q)
      ensures programmer == if OpensSession(operation) then Some(receiver) else old(programmer)
      ensures sent == old(sent) + Datagrams(receiver, Replies(old(flash[..]), devId, q))
      ensures buf[..] == Overlaid(old(buf[..]), Replies(old(flash[..]), devId, q))
    {
      hide Echoes, Overlaid, Datagrams;
      if OpensSession(operation) {
        HandleSession(receiver, q);
      } else if operation == OP_ERASE {
        HandleErase(address, receiver, q);
      } else if operation == OP_WRITE {
        HandleWrite(address, receiver, q);
      } else if operation == OP_READ {
        HandleRead(address, length, receiver, q);
      } else {
        SendStatus(STATUS_INV_OP, receiver, q);
      }
    }

    /** One turn of the packet loop. */
    method Receive(packet: seq<byte>, sender: Address)
      requires Valid() && |packet| <= FRAME_SIZE
      requires |packet| >= REQUEST_HEADER ==> Defined(flash.Length, DecodeRequest(Received(buf[..], packet), pad))
      modifies this, flash, buf
      ensures Valid()
      ensures var frame := Received(old(buf[..]), packet);
              var rs := HandledReplies(old(Abstract()), frame, pad, |packet|, sender);
              && Abstract() == Handled(old(Abstract()), frame, pad, |packet|, sender)
              && sent == old(sent) + Datagrams(sender, rs)
              && buf[..] == Overlaid(frame, rs)
    {
      forall i | 0 <= i < |packet| { buf[i] := packet[i]; }
      assert buf[..] == Received(old(buf[..]), packet);
      Handle(|packet|, sender);
      hide Received, Handled, HandledReplies, Datagrams, Overlaid;
    }

    /** Tests the request in the frame buffer and carries it out. */
    method Handle(length: nat, sender: Address)
      requires Valid() && (length >= REQUEST_HEADER ==> Defined(flash.Length, DecodeRequest(buf[..], pad)))
      modifies this, flash, buf
      ensures Valid()
      ensures var frame := old(buf[..]);
              var rs := HandledReplies(old(Abstract()), frame, pad, length, sender);
              && Abstract() == Handled(old(Abstract()), frame, pad, length, sender)
              && sent == old(sent) + Datagrams(sender, rs)
              && buf[..] == Overlaid(frame, rs)
    {
      if length < REQUEST_HEADER {
        return;
      }
      ghost var q := DecodeRequest(buf[..], pad);
      var seq_, operation := buf[1], buf[2];
      if buf[0] != VERSION || buf[3] != STATUS_REQUEST {
        return;
      }
      if !OpensSession(operation) {
        if seq_ == lastSeq {
          return;
        }
        if programmer != Some(sender) {
          SendStatus(STATUS_INV_SRC, sender, q);
          return;
        }
      }
      lastSeq := seq_;
      var address, size := FromBe32(buf[4..8]), FromBe16(buf[8..10]);
      Dispatch(operation, address, size, sender, q);
      hide Echoes, Overlaid, Datagrams, Apply, Replies, DecodeRequest;
    }
  }
}
