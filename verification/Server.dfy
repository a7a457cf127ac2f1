/** The target's reaction to one well-framed packet, as a function of its state, and what
    that means over whole runs with many senders. */
module Server {
  import opened Bytes
  import opened Flash
  import opened Wire

  datatype Option<+T> = None | Some(value: T)

  datatype Address = Address(ip: uint32, port: uint16)

  /** The uninitialised owner is None. */
  datatype State = State(flash: seq<byte>, lastSeq: byte, owner: Option<Address>, devId: uint16)

  predicate Complete(flash: seq<byte>) {
    |flash| % ERASE_SIZE == 0 && |flash| <= TWO_32
  }

  // ---------------------------------------------------------------- one packet

  predicate WellFormed(q: Request) {
    q.version == VERSION && q.status == STATUS_REQUEST
  }

  /** Neither a repeat of the last accepted sequence number nor from a stranger. */
  predicate Accepts(s: State, q: Request, sender: Address) {
    WellFormed(q) && (OpensSession(q.operation) || (q.seq_ != s.lastSeq && s.owner == Some(sender)))
  }

  /** The test of the READ branch, in 32-bit arithmetic. */
  predicate ReadRefused(size: nat, address: uint32, length: uint16) {
    (address + length) % TWO_32 > size || length > MAX_PAYLOAD
  }

  /** The status with which an accepted request is refused, if it is. */
  function Refusal(size: nat, q: Request): Option<byte> {
    if OpensSession(q.operation) then None
    else if q.operation == OP_ERASE then
      if q.address % ERASE_SIZE != 0 || q.address >= size then Some(STATUS_INV_PARAM) else None
    else if q.operation == OP_WRITE then
      if q.address % WRITE_SIZE != 0 || q.address >= size then Some(STATUS_INV_PARAM) else None
    else if q.operation == OP_READ then
      if ReadRefused(size, q.address, q.length) then Some(STATUS_INV_PARAM) else None
    else Some(STATUS_INV_OP)
  }

  /** A READ whose end passes 2^32 escapes the test above; what is copied then is undefined. */
  predicate Defined(size: nat, q: Request) {
    q.operation == OP_READ && Refusal(size, q) == None ==> q.address + q.length <= size
  }

  lemma DefinedExactly(size: nat, q: Request)
    requires size <= TWO_32
    ensures !Defined(size, q) <==>
              && q.operation == OP_READ && q.length <= MAX_PAYLOAD
              && q.address + q.length > size && TWO_32 <= q.address + q.length <= TWO_32 + size
  {
  }

  /** One byte at the last address: the end wraps to 0, so no flash is too small for it. */
  lemma WrappedReadPasses(size: nat, seq_: byte, data: Sector)
    requires size <= TWO_32 - 1
    ensures var q := Request(VERSION, seq_, OP_READ, STATUS_REQUEST, 0xFFFF_FFFF, 1, data);
            Refusal(size, q) == None && !Defined(size, q)
  {
  }

  /** The effect of an accepted request on the flash. */
  function Apply(flash: seq<byte>, q: Request): (r: seq<byte>)
    ensures |r| == |flash|
  {
    if Refusal(|flash|, q) != None then flash
    else if q.operation == OP_ERASE then EraseAt(flash, q.address)
    else if q.operation == OP_WRITE then WriteAt(Overwriting, flash, q.address, q.data)
    else flash
  }

  function DiscoverReply(devId: uint16): seq<byte> {
    Be16(0x0100) + Be32(0xDEADBEEF) + Le16(devId)
  }

  function Answer(q: Request, status: byte, payload: seq<byte>): Reply {
    Reply(q.version, q.seq_, q.operation, status, payload)
  }

  /** The replies to an accepted request, in order. */
  function Replies(flash: seq<byte>, devId: uint16, q: Request): seq<Reply>
    requires Defined(|flash|, q)
  {
    match Refusal(|flash|, q)
    case Some(status) => [Answer(q, status, [])]
    case None =>
      if OpensSession(q.operation) then [Answer(q, STATUS_OK, DiscoverReply(devId))]
      else [Answer(q, STATUS_INPROGRESS, []),
            Answer(q, STATUS_OK, if q.operation == OP_READ then flash[q.address..q.address + q.length] else [])]
  }

  function Served(s: State, q: Request, sender: Address): State {
    if Accepts(s, q, sender) then
      s.(flash := Apply(s.flash, q), lastSeq := q.seq_,
         owner := if OpensSession(q.operation) then Some(sender) else s.owner)
    else s
  }

  /** Nothing is sent to a malformed request or a duplicate. */
  function Sent(s: State, q: Request, sender: Address): seq<Reply>
    requires Defined(|s.flash|, q)
  {
    if Accepts(s, q, sender) then Replies(s.flash, s.devId, q)
    else if !WellFormed(q) || q.seq_ == s.lastSeq then []
    else [Answer(q, STATUS_INV_SRC, [])]
  }

  /** Repeating a request changes nothing more. */
  lemma ApplyIdempotent(flash: seq<byte>, q: Request)
    ensures Apply(Apply(flash, q), q) == Apply(flash, q)
  {
  }

  /** A request answered with an error, or not at all, leaves the flash as it was. */
  lemma ErrorsChangeNothing(s: State, q: Request, sender: Address)
    requires Defined(|s.flash|, q)
    requires Sent(s, q, sender) == [] ||
             exists r | r in Sent(s, q, sender) :: r.status != STATUS_OK && r.status != STATUS_INPROGRESS
    ensures Served(s, q, sender).flash == s.flash
  {
  }

  // ---------------------------------------------------------------- runs with many senders

  datatype Event = Event(sender: Address, request: Request)

  function Run(s: State, events: seq<Event>): (r: State)
    ensures |r.flash| == |s.flash|
  {
    if events == [] then s
    else
      var n := |events| - 1;
      Served(Run(s, events[..n]), events[n].request, events[n].sender)
  }

  predicate StartsSession(e: Event) {
    WellFormed(e.request) && OpensSession(e.request.operation)
  }

  /** The sender of the most recent session request, if there was one. */
  function LastSession(events: seq<Event>): Option<Address> {
    if events == [] then None
    else
      var n := |events| - 1;
      if StartsSession(events[n]) then Some(events[n].sender) else LastSession(events[..n])
  }

  lemma {:induction false} OwnerIsLastSession(s: State, events: seq<Event>)
    requires s.owner == None
    ensures Run(s, events).owner == LastSession(events)
  {
    if events != [] {
      OwnerIsLastSession(s, events[..|events| - 1]);
    }
  }

  /** In every run a change of the flash is an erase or write that the device accepts from
      the sender of the most recent session request. */
  lemma FlashChangedByOwner(s: State, events: seq<Event>, i: nat)
    requires s.owner == None && i < |events|
    requires Run(s, events[..i + 1]).flash != Run(s, events[..i]).flash
    ensures var q := events[i].request;
            && LastSession(events[..i]) == Some(events[i].sender)
            && (q.operation == OP_ERASE || q.operation == OP_WRITE)
            && Refusal(|s.flash|, q) == None && q.seq_ != Run(s, events[..i]).lastSeq
  {
    assert events[..i + 1][..i] == events[..i];
    OwnerIsLastSession(s, events[..i]);
  }
}
