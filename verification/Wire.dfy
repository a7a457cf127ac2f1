/** The bootloader protocol: codes, message records and their byte layout. */
module Wire {
  import opened Bytes
  import opened Flash

  const VERSION: byte := 1

  const OP_DISCOVER: byte := 0
  const OP_NET_CONFIG: byte := 1
  const OP_READ: byte := 2
  const OP_WRITE: byte := 3
  const OP_ERASE: byte := 4
  const OP_ERASE_WRITE: byte := 6
  const OP_CHIP_ERASE: byte := 7
  const OP_CHECKSUM: byte := 8

  const STATUS_REQUEST: byte := 0
  const STATUS_OK: byte := 1
  const STATUS_INPROGRESS: byte := 2
  const STATUS_INV_SRC: byte := 3
  const STATUS_INV_OP: byte := 4
  const STATUS_INV_PARAM: byte := 5

  const REQUEST_HEADER: nat := 10
  const REPLY_HEADER: nat := 4
  const FRAME_SIZE: nat := 1500
  const MAX_PAYLOAD: nat := FRAME_SIZE - REPLY_HEADER

  /** What the target reads from a frame; `data` matters to OP_WRITE only. */
  datatype Request = Request(version: byte, seq_: byte, operation: byte, status: byte,
                             address: uint32, length: uint16, data: Sector)

  datatype Reply = Reply(version: byte, seq_: byte, operation: byte, status: byte, payload: seq<byte>)

  /** Operations that open a session: served whatever the sequence number and the sender. */
  predicate OpensSession(operation: byte) {
    operation == OP_DISCOVER || operation == OP_NET_CONFIG
  }

  /** The bytes of a request header, most significant byte of a field first. */
  function EncodeHeader(q: Request): (s: seq<byte>)
    ensures |s| == REQUEST_HEADER
  {
    [q.version, q.seq_, q.operation, q.status] + Be32(q.address) + Be16(q.length)
  }

  /** Reads a received frame as the target does. The payload's data starts after its own
      address field; `pad` is the gap the compiler leaves between the packed 10-byte header
      and the Write record (0 when the record follows at once, 2 when it is 4-aligned). */
  function DecodeRequest(raw: seq<byte>, pad: nat): Request
    requires |raw| == FRAME_SIZE && pad <= 2
  {
    Request(raw[0], raw[1], raw[2], raw[3], FromBe32(raw[4..8]), FromBe16(raw[8..10]),
            raw[14 + pad..78 + pad])
  }

  function EncodeReply(r: Reply): (s: seq<byte>)
    ensures |s| == REPLY_HEADER + |r.payload|
  {
    [r.version, r.seq_, r.operation, r.status] + r.payload
  }

  function DecodeReply(frame: seq<byte>): Reply
    requires |frame| >= REPLY_HEADER
  {
    Reply(frame[0], frame[1], frame[2], frame[3], frame[REPLY_HEADER..])
  }

  /** Every header field survives the wire, whatever follows the header in the frame. */
  lemma HeaderRoundTrip(q: Request, rest: seq<byte>, pad: nat)
    requires |rest| == FRAME_SIZE - REQUEST_HEADER && pad <= 2
    ensures var d := DecodeRequest(EncodeHeader(q) + rest, pad);
            && d.version == q.version && d.seq_ == q.seq_ && d.operation == q.operation
            && d.status == q.status && d.address == q.address && d.length == q.length
  {
  }

  lemma ReplyRoundTrip(r: Reply, frame: seq<byte>)
    ensures DecodeReply(EncodeReply(r)) == r
    ensures |frame| >= REPLY_HEADER ==> EncodeReply(DecodeReply(frame)) == frame
  {
  }
}
