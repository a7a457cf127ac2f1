/** The network programmer: its transmit buffer, the judgement of a received frame, and the
    three-try exchange with the target. */
module Client {
  import opened Bytes
  import opened Flash
  import opened Wire
  import opened Server

  const TX_SIZE: nat := 128
  const WRITE_MESSAGE: nat := 78
  const TRIES: nat := 3

  // ---------------------------------------------------------------- the transmit buffer

  /** `TransmitBuffer::select_operation`: version, sequence number and status stay. */
  function Select(tx: seq<byte>, operation: byte, address: uint32, length: uint16): (r: seq<byte>)
    requires |tx| == TX_SIZE
    ensures |r| == TX_SIZE
  {
    [tx[0], tx[1], operation, tx[3]] + Be32(address) + Be16(length) + tx[REQUEST_HEADER..]
  }

  /** `prepare_payload<Write>` and the copies that follow it: the address goes into the
      payload, the header's own address stays what it was. */
  function PrepareWrite(tx: seq<byte>, address: uint32, data: Sector): (r: seq<byte>)
    requires |tx| == TX_SIZE
    ensures |r| == TX_SIZE
  {
    tx[2 := OP_WRITE][..REQUEST_HEADER] + Be32(address) + data + tx[WRITE_MESSAGE..]
  }

  /** A buffer whose fixed header fields are set. */
  predicate Prepared(tx: seq<byte>) {
    |tx| == TX_SIZE && tx[0] == VERSION && tx[3] == STATUS_REQUEST
  }

  function HeaderAddress(tx: seq<byte>): uint32
    requires |tx| == TX_SIZE
  {
    FromBe32(tx[4..8])
  }

  /** A selected operation arrives as it was asked for, whatever follows it in the frame. */
  lemma SelectArrives(tx: seq<byte>, operation: byte, address: uint32, length: uint16, rest: seq<byte>, pad: nat)
    requires Prepared(tx) && |rest| == FRAME_SIZE - REQUEST_HEADER && pad <= 2
    ensures var q := DecodeRequest(Select(tx, operation, address, length)[..REQUEST_HEADER] + rest, pad);
            && WellFormed(q) && q.seq_ == tx[1] && q.operation == operation
            && q.address == address && q.length == length
  {
  }

  /** What a WRITE message means to the target: the address is the one of the last selected
      operation, and the data is shifted by the compiler's padding. */
  lemma WriteArrives(tx: seq<byte>, address: uint32, data: Sector, rest: seq<byte>, pad: nat)
    requires Prepared(tx) && |rest| == FRAME_SIZE - WRITE_MESSAGE && pad <= 2
    ensures var q := DecodeRequest(PrepareWrite(tx, address, data)[..WRITE_MESSAGE] + rest, pad);
            && WellFormed(q) && q.seq_ == tx[1] && q.operation == OP_WRITE
            && q.address == HeaderAddress(tx) && q.data == data[pad..] + rest[..pad]
  {
    var raw := PrepareWrite(tx, address, data)[..WRITE_MESSAGE] + rest;
    assert raw[4..8] == tx[4..8];
    assert raw[14..78] == data;
    assert raw[14 + pad..78 + pad] == data[pad..] + rest[..pad];
  }

  /** The message's own bytes: the header up to the length, then the address and data passed. */
  lemma MessageBytes(tx: seq<byte>, operation: byte, address: uint32, length: uint16, data: Sector)
    requires Prepared(tx)
    ensures var m := Select(tx, operation, address, length);
            && m[..4] == [1, tx[1], operation, 0] && m[10..] == tx[10..]
            && address == 16777216 * (m[4] as int) + 65536 * (m[5] as int) + 256 * (m[6] as int) + (m[7] as int)
            && length == 256 * (m[8] as int) + (m[9] as int)
    ensures var m := PrepareWrite(tx, address, data);
            && m[..4] == [1, tx[1], 3, 0] && m[4..10] == tx[4..10]
            && address == 16777216 * (m[10] as int) + 65536 * (m[11] as int) + 256 * (m[12] as int) + (m[13] as int)
            && m[14..78] == data && m[78..] == tx[78..]
  {
    BigEndianRoundTrip(address, length, []);
    var a, l := Be32(address), Be16(length);
    ByteOrder(a[0], a[1], a[2], a[3]);
    assert a == [a[0], a[1], a[2], a[3]];
    ByteOrder(l[0], l[1], 0, 0);
    assert l == [l[0], l[1]];
    hide Be32, Be16, FromBe32, FromBe16;
  }

  /** `write(address, buffer)` sends the first 64 bytes of the buffer. The target stores the
      buffer at the address exactly when the previous operation left that address in the
      header, the buffer is one sector long and the padding does not shift other bytes in. */
  lemma WriteIsFaithful(tx: seq<byte>, address: uint32, buffer: seq<byte>, rest: seq<byte>, pad: nat)
    requires Prepared(tx) && |rest| == FRAME_SIZE - WRITE_MESSAGE && pad <= 2 && |buffer| >= WRITE_SIZE
    ensures var q := DecodeRequest(PrepareWrite(tx, address, buffer[..WRITE_SIZE])[..WRITE_MESSAGE] + rest, pad);
            q.address == address && q.data == buffer <==>
            && HeaderAddress(tx) == address && |buffer| == WRITE_SIZE
            && (forall i | 0 <= i < WRITE_SIZE - pad :: buffer[i] == buffer[i + pad])
            && (forall i | 0 <= i < pad :: buffer[WRITE_SIZE - pad + i] == rest[i])
  {
    WriteArrives(tx, address, buffer[..WRITE_SIZE], rest, pad);
    var shifted := buffer[..WRITE_SIZE][pad..] + rest[..pad];
    if |buffer| == WRITE_SIZE {
      assert buffer[..WRITE_SIZE] == buffer;
      assert forall i | 0 <= i < WRITE_SIZE - pad :: shifted[i] == buffer[i + pad];
      assert forall i | 0 <= i < pad :: shifted[WRITE_SIZE - pad + i] == rest[i];
      if shifted == buffer {
        assert forall i | 0 <= i < pad :: buffer[WRITE_SIZE - pad + i] == rest[i];
      }
    }
  }

  /** Erasing page 1024, reading from it and then writing sector 1152 stores the data, shifted
      by the padding, in sector 1024; `s`, `t` and `u` are the sequence numbers used. */
  lemma WriteAfterErase(tx: seq<byte>, s: byte, t: byte, u: byte, data: Sector, rest: seq<byte>, pad: nat, flash: seq<byte>)
    requires Prepared(tx) && |rest| == FRAME_SIZE - WRITE_MESSAGE && pad <= 2 && |flash| > 1152
    ensures var erased := Select(tx, OP_ERASE, 1024, 0)[1 := s];
            var read := Select(erased, OP_READ, 1024, 102)[1 := t];
            var message := PrepareWrite(read, 1152, data)[1 := u][..WRITE_MESSAGE];
            Apply(flash, DecodeRequest(message + rest, pad)) ==
            WriteAt(Overwriting, flash, 1024, data[pad..] + rest[..pad])
  {
    var read := Select(Select(tx, OP_ERASE, 1024, 0)[1 := s], OP_READ, 1024, 102)[1 := t];
    var written := PrepareWrite(read, 1152, data);
    assert written[1 := u] == PrepareWrite(read[1 := u], 1152, data);
    assert read[4..8] == Be32(1024);
    assert read[1 := u][4..8] == Be32(1024);
    BigEndianRoundTrip(1024, 0, []);
    WriteArrives(read[1 := u], 1152, data, rest, pad);
    hide PrepareWrite, Select, DecodeRequest, WriteAt;
  }

  // ---------------------------------------------------------------- judging a frame

  datatype Error =
    | NotConnected | Truncated | BadVersion | WrongOperation | UnexpectedStatus
    | Rejected(status: byte) | NoResponse | NoPayload | UnknownDevice

  datatype Outcome = Returned(frame: seq<byte>) | Threw(error: Error)

  datatype Verdict = Ignore | ExtendTime | Done | Throw(error: Error)

  predicate MayTakeTime(operation: byte) {
    operation == OP_READ || operation == OP_WRITE || operation == OP_ERASE ||
    operation == OP_ERASE_WRITE || operation == OP_CHIP_ERASE || operation == OP_CHECKSUM
  }

  /** `NetworkProgrammer::process` on a frame, for the outstanding sequence number and operation. */
  function Judge(seq_: byte, operation: byte, frame: seq<byte>): Verdict {
    if |frame| < REPLY_HEADER then Throw(Truncated)
    else
      var r := DecodeReply(frame);
      if r.version != VERSION then Throw(BadVersion)
      else if r.seq_ != seq_ then Ignore
      else if r.operation != operation then Throw(WrongOperation)
      else if r.status == STATUS_OK then Done
      else if r.status == STATUS_INPROGRESS then
        if MayTakeTime(operation) then ExtendTime else Throw(UnexpectedStatus)
      else Throw(Rejected(r.status))
  }

  // ---------------------------------------------------------------- the exchange

  /** What the socket and the clock deliver, in order. */
  datatype Event = Frame(bytes: seq<byte>) | Deadline

  /** One `communicate`: the sequence number last sent, the operation, how often it was sent. */
  datatype Exchange = Exchange(seq_: byte, operation: byte, tries: nat, result: Option<Outcome>)

  /** An 8-bit counter after `n` increments. */
  function Advance(seq_: byte, n: nat): byte {
    var s: int := seq_;
    (s + n) % 256
  }

  function Begin(seq_: byte, operation: byte): Exchange {
    Exchange(Advance(seq_, 1), operation, 1, None)
  }

  /** A passed deadline sends again under a fresh sequence number, three times in all. */
  function OnEvent(x: Exchange, e: Event): Exchange {
    match e
    case Frame(bytes) =>
      (match Judge(x.seq_, x.operation, bytes)
       case Ignore => x
       case ExtendTime => x
       case Done => x.(result := Some(Returned(bytes)))
       case Throw(error) => x.(result := Some(Threw(error))))
    case Deadline =>
      if x.tries < TRIES then x.(seq_ := Advance(x.seq_, 1), tries := x.tries + 1)
      else x.(result := Some(Threw(NoResponse)))
  }

  /** The exchange over a list of events; once it is exhausted only deadlines pass. */
  function Converse(x: Exchange, events: seq<Event>): (r: Exchange)
    requires x.tries <= TRIES
    ensures r.result.Some? && x.tries <= r.tries <= TRIES
    ensures r.operation == x.operation
    decreases |events|, TRIES - x.tries, x.result.None?
  {
    if x.result.Some? then x
    else if events == [] then Converse(OnEvent(x, Deadline), [])
    else Converse(OnEvent(x, events[0]), events[1..])
  }

  /** The exchange during its `n`th try. */
  function Try(start: byte, operation: byte, n: nat): Exchange {
    Exchange(Advance(start, n), operation, n, None)
  }

  lemma TryAgain(start: byte, operation: byte, n: nat, events: seq<Event>)
    requires 1 <= n <= TRIES
    ensures Begin(start, operation) == Try(start, operation, 1)
    ensures Converse(OnEvent(Try(start, operation, n), Deadline), events) ==
            if n < TRIES then Converse(Try(start, operation, n + 1), events)
            else Try(start, operation, n).(result := Some(Threw(NoResponse)))
  {
    AdvanceSum(start, n, 1);
  }

  /** The frames one exchange puts on the wire: consecutive sequence numbers. */
  function Transmissions(tx: seq<byte>, size: nat, n: nat): seq<seq<byte>>
    requires |tx| == TX_SIZE && size <= TX_SIZE
  {
    seq(n, i requires 0 <= i < n => tx[1 := Advance(tx[1], 1 + i)][..size])
  }

  lemma AdvanceSum(seq_: byte, a: nat, b: nat)
    ensures Advance(seq_, 0) == seq_ && Advance(Advance(seq_, a), b) == Advance(seq_, a + b)
  {
  }

  /** The exchange ends under the sequence number of its last transmission. */
  lemma {:induction false} ConverseAdvances(x: Exchange, events: seq<Event>, start: byte)
    requires 0 < x.tries <= TRIES && x.seq_ == Advance(start, x.tries)
    ensures var y := Converse(x, events); y.seq_ == Advance(start, y.tries)
    decreases |events|, TRIES - x.tries, x.result.None?
  {
    if x.result.None? {
      AdvanceSum(start, x.tries, 1);
      var e := if events == [] then Deadline else events[0];
      ConverseAdvances(OnEvent(x, e), if events == [] then [] else events[1..], start);
    }
  }

  lemma TransmissionsGrow(tx: seq<byte>, size: nat, n: nat)
    requires |tx| == TX_SIZE && size <= TX_SIZE
    ensures Transmissions(tx, size, 0) == []
    ensures Transmissions(tx, size, n + 1) == Transmissions(tx, size, n) + [tx[1 := Advance(tx[1], n + 1)][..size]]
  {
  }

  const DISCOVER_REPLY: nat := 8

  /** The device ids of the PIC18F97J60 family, without the 5 revision bits. */
  predicate KnownDevice(devId: uint16) {
    devId / 32 in {192, 193, 194, 248, 249, 250, 251, 252, 253}
  }

  /** What becomes of the final reply to a discovery. */
  function Discovered(outcome: Outcome): Outcome {
    match outcome
    case Threw(error) => Threw(error)
    case Returned(frame) =>
      if |frame| < REPLY_HEADER + DISCOVER_REPLY then Threw(NoPayload)
      else if !KnownDevice(FromLe16(frame[10..12])) then Threw(UnknownDevice)
      else outcome
  }

  /** The emulated target's discovery reply carries its version, bootloader address and device
      id where the programmer looks for them, and is taken exactly when the device is known. */
  lemma DiscoveryExactly(q: Request, devId: uint16)
    ensures var frame := EncodeReply(Answer(q, STATUS_OK, DiscoverReply(devId)));
            && |frame| == REPLY_HEADER + DISCOVER_REPLY && FromBe16(frame[4..6]) == 0x0100
            && FromBe32(frame[6..10]) == 0xDEADBEEF && FromLe16(frame[10..12]) == devId
            && Discovered(Returned(frame)) == if KnownDevice(devId) then Returned(frame) else Threw(UnknownDevice)
  {
    var frame := EncodeReply(Answer(q, STATUS_OK, DiscoverReply(devId)));
    BigEndianRoundTrip(0xDEADBEEF, 0x0100, []);
    LittleEndianRoundTrip(0, devId);
    assert frame[4..6] == Be16(0x0100) && frame[6..10] == Be32(0xDEADBEEF) && frame[10..12] == Le16(devId);
  }

  /** Which final replies to a discovery are taken: those of at least 12 bytes whose device id,
      low byte first at 10, is one of the nine devices' in any of its 32 revisions. */
  lemma DiscoveredExactly(frame: seq<byte>)
    ensures |frame| < 12 ==> Discovered(Returned(frame)) == Threw(NoPayload)
    ensures |frame| >= 12 ==>
              var d := (frame[10] as int) + 256 * (frame[11] as int);
              Discovered(Returned(frame)) ==
              if 0x1800 <= d < 0x1860 || 0x1F00 <= d < 0x1FC0 then Returned(frame) else Threw(UnknownDevice)
  {
    if |frame| >= 12 {
      assert frame[10..12] == [frame[10], frame[11]];
      ByteOrder(frame[10], frame[11], 0, 0);
    }
  }

  class NetworkProgrammer {
    const tx: array<byte>
    const rx: array<byte>
    var txSize: nat
    var rxSize: nat
    var connected: bool
    var sent: seq<seq<byte>>

    ghost predicate Valid()
      reads this, tx
    {
      tx != rx && rx.Length == FRAME_SIZE && Prepared(tx[..]) && txSize <= TX_SIZE && rxSize <= FRAME_SIZE
    }

    constructor ()
      ensures Valid() && fresh(tx) && fresh(rx) && sent == [] && !connected
    {
      tx := new byte[TX_SIZE];
      rx := new byte[FRAME_SIZE];
      txSize, rxSize, connected, sent := 0, 0, false, [];
      new;
      tx[0] := VERSION;
      tx[3] := STATUS_REQUEST;
    }

    method SelectOperation(operation: byte, address: uint32, length: uint16)
      requires Valid()
      modifies this`txSize, tx
      ensures Valid() && txSize == REQUEST_HEADER && tx[..] == Select(old(tx[..]), operation, address, length)
    {
      var fields := Be32(address) + Be16(length);
      tx[2] := operation;
      forall i | 0 <= i < 6 { tx[4 + i] := fields[i]; }
      txSize := REQUEST_HEADER;
      assert tx[4..10] == fields;
    }

    method PreparePayload(address: uint32, data: Sector)
      requires Valid()
      modifies this`txSize, tx
      ensures Valid() && txSize == WRITE_MESSAGE && tx[..] == PrepareWrite(old(tx[..]), address, data)
    {
      var fields := Be32(address) + data;
      tx[2] := OP_WRITE;
      forall i | 0 <= i < 68 { tx[REQUEST_HEADER + i] := fields[i]; }
      txSize := WRITE_MESSAGE;
      assert tx[REQUEST_HEADER..WRITE_MESSAGE] == fields;
    }

    /** Hands out the prepared bytes under the next sequence number. */
    method Data() returns (frame: seq<byte>)
      requires Valid()
      modifies tx
      ensures Valid() && tx[..] == old(tx[..])[1 := Advance(old(tx[1]), 1)] && frame == tx[..txSize]
    {
      tx[1] := Advance(tx[1], 1);
      frame := tx[..txSize];
    }

    /** Receives a frame into the buffer and judges it. */
    method Process(frame: seq<byte>) returns (v: Verdict)
      requires Valid() && |frame| <= FRAME_SIZE
      modifies this`rxSize, rx
      ensures Valid() && v == Judge(tx[1], tx[2], frame)
      ensures v == Done ==> rxSize == |frame| && rx[..rxSize] == frame
    {
      forall i | 0 <= i < |frame| { rx[i] := frame[i]; }
      if |frame| < REPLY_HEADER {
        return Throw(Truncated);
      }
      rxSize := |frame|;
      assert rx[..rxSize] == frame;
      if rx[0] != VERSION { return Throw(BadVersion); }
      if rx[1] != tx[1] { return Ignore; }
      var operation := rx[2];
      if operation != tx[2] { return Throw(WrongOperation); }
      if rx[3] == STATUS_OK { return Done; }
      if rx[3] == STATUS_INPROGRESS {
        return if MayTakeTime(operation) then ExtendTime else Throw(UnexpectedStatus);
      }
      return Throw(Rejected(rx[3]));
    }

    /** Processes what arrives before the deadline, until something ends the exchange. */
    method Listen(events: seq<Event>, start: nat, ghost tries: nat) returns (next: nat, r: Option<Outcome>)
      requires Valid() && start <= |events| && tries <= TRIES
      requires forall e | e in events :: e.Frame? ==> |e.bytes| <= FRAME_SIZE
      modifies this`rxSize, rx
      ensures Valid() && start <= next <= |events|
      ensures var x := Exchange(tx[1], tx[2], tries, None);
              Converse(x, events[start..]) ==
              if r.Some? then x.(result := r) else Converse(OnEvent(x, Deadline), events[next..])
      ensures r.Some? && r.value.Returned? ==> rxSize == |r.value.frame| && rx[..rxSize] == r.value.frame
    {
      next, r := start, None;
      ghost var x := Exchange(tx[1], tx[2], tries, None);
      while next < |events| && events[next].Frame?
        invariant Valid() && start <= next <= |events|
        invariant Converse(x, events[start..]) == Converse(x, events[next..])
      {
        assert events[next..][0] == events[next] && events[next] in events && events[next..][1..] == events[next + 1..];
        var v := Process(events[next].bytes);
        if v == Done {
          r := Some(Returned(events[next].bytes));
          return;
        } else if v.Throw? {
          r := Some(Threw(v.error));
          return;
        }
        next := next + 1;
      }
      if next < |events| {
        assert events[next..][0] == Deadline && events[next..][1..] == events[next + 1..];
        next := next + 1;
      }
    }

    /** Sends the prepared bytes once more; `tx0` is the buffer before the first transmission. */
    method Send(ghost tx0: seq<byte>, ghost before: seq<seq<byte>>, ghost n: nat)
      requires Valid() && |tx0| == TX_SIZE && tx[..] == tx0[1 := Advance(tx0[1], n)]
      requires sent == before + Transmissions(tx0, txSize, n)
      modifies this`sent, tx
      ensures Valid() && tx[..] == tx0[1 := Advance(tx0[1], n + 1)]
      ensures sent == before + Transmissions(tx0, txSize, n + 1)
    {
      AdvanceSum(tx0[1], n, 1);
      TransmissionsGrow(tx0, txSize, n);
      hide Transmissions, Advance;
      var frame := Data();
      sent := sent + [frame];
    }

    /** Sends up to three times and processes what arrives before each deadline. */
    method Communicate(events: seq<Event>) returns (r: Outcome)
      requires Valid() && forall e | e in events :: e.Frame? ==> |e.bytes| <= FRAME_SIZE
      modifies this`rxSize, this`sent, tx, rx
      ensures Valid()
      ensures var x := Converse(Begin(old(tx[1]), old(tx[2])), events);
              && x.result == Some(r)
              && tx[..] == old(tx[..])[1 := x.seq_]
              && sent == old(sent) + Transmissions(old(tx[..]), txSize, x.tries)
      ensures r.Returned? ==> rxSize == |r.frame| && rx[..rxSize] == r.frame
    {
      ghost var all := Converse(Begin(tx[1], tx[2]), events);
      ghost var tx0 := tx[..];
      AdvanceSum(tx0[1], 0, 1);
      TransmissionsGrow(tx0, txSize, 0);
      hide Transmissions, Advance, Judge, Prepared, Converse, OnEvent;
      var next, i := 0, 0;
      assert events[0..] == events;
      while i < TRIES
        invariant Valid() && i <= TRIES && next <= |events|
        invariant tx[..] == tx0[1 := Advance(tx0[1], i)]
        invariant sent == old(sent) + Transmissions(tx0, txSize, i)
        invariant if i < TRIES then all == Converse(Try(tx0[1], tx0[2], i + 1), events[next..])
                  else all == Try(tx0[1], tx0[2], i).(result := Some(Threw(NoResponse)))
      {
        Send(tx0, old(sent), i);
        var result;
        next, result := Listen(events, next, i + 1);
        TryAgain(tx0[1], tx0[2], i + 1, events[next..]);
        i := i + 1;
        if result.Some? {
          return result.value;
        }
      }
      r := Threw(NoResponse);
    }

    /** Looks for a target; what it answers decides whether the programmer is connected. */
    method Connect(events: seq<Event>) returns (r: Outcome)
      requires Valid() && forall e | e in events :: e.Frame? ==> |e.bytes| <= FRAME_SIZE
      modifies this, tx, rx
      ensures Valid()
      ensures var x := Converse(Begin(old(tx[1]), OP_DISCOVER), events);
              && sent == old(sent) + Transmissions(Select(old(tx[..]), OP_DISCOVER, 0, 0), REQUEST_HEADER, x.tries)
              && tx[..] == Select(old(tx[..]), OP_DISCOVER, 0, 0)[1 := x.seq_] && r == Discovered(x.result.value)
      ensures connected == (old(connected) || r.Returned?)
    {
      SelectOperation(OP_DISCOVER, 0, 0);
      r := Communicate(events);
      if r.Returned? {
        if rxSize < REPLY_HEADER + DISCOVER_REPLY { return Threw(NoPayload); }
        assert r.frame[10] == rx[..rxSize][10] == rx[10] && r.frame[11] == rx[..rxSize][11] == rx[11];
        assert r.frame[10..12] == [rx[10], rx[11]] == rx[10..12];
        if !KnownDevice(FromLe16(rx[10..12])) { return Threw(UnknownDevice); }
        connected := true;
      }
    }

    method Erase(address: uint32, events: seq<Event>) returns (r: Outcome)
      requires Valid() && forall e | e in events :: e.Frame? ==> |e.bytes| <= FRAME_SIZE
      modifies this, tx, rx
      ensures Valid() && connected == old(connected)
      ensures !old(connected) ==> r == Threw(NotConnected) && sent == old(sent) && tx[..] == old(tx[..])
      ensures old(connected) ==>
                var x, before := Converse(Begin(old(tx[1]), OP_ERASE), events), Select(old(tx[..]), OP_ERASE, address, 0);
                && x.result == Some(r) && tx[..] == before[1 := x.seq_]
                && sent == old(sent) + Transmissions(before, REQUEST_HEADER, x.tries)
    {
      if !connected { return Threw(NotConnected); }
      SelectOperation(OP_ERASE, address, 0);
      r := Communicate(events);
    }

    /** Returns the payload of the final reply; a reply without one is an error. */
    method Read(address: uint32, size: nat, events: seq<Event>) returns (r: Outcome)
      requires Valid() && forall e | e in events :: e.Frame? ==> |e.bytes| <= FRAME_SIZE
      modifies this, tx, rx
      ensures Valid() && connected == old(connected)
      ensures !old(connected) ==> r == Threw(NotConnected) && sent == old(sent) && tx[..] == old(tx[..])
      ensures old(connected) ==>
                var x := Converse(Begin(old(tx[1]), OP_READ), events);
                var before := Select(old(tx[..]), OP_READ, address, size % TWO_16);
                && tx[..] == before[1 := x.seq_] && sent == old(sent) + Transmissions(before, REQUEST_HEADER, x.tries)
                && r == (match x.result.value
                         case Threw(e) => Threw(e)
                         case Returned(frame) => if |frame| <= REPLY_HEADER then Threw(NoPayload)
                                                 else Returned(frame[REPLY_HEADER..]))
    {
      if !connected { return Threw(NotConnected); }
      SelectOperation(OP_READ, address, size % TWO_16);
      r := Communicate(events);
      if r.Returned? {
        ReturnedIsReply(Begin(old(tx[1]), OP_READ), events);
        if rxSize <= REPLY_HEADER { return Threw(NoPayload); }
        assert r.frame[REPLY_HEADER..] == rx[REPLY_HEADER..rxSize];
        r := Returned(rx[REPLY_HEADER..rxSize]);
      }
    }

    /** Sends the first 64 bytes of the buffer, which has to hold that many. */
    method Write(address: uint32, buffer: seq<byte>, events: seq<Event>) returns (r: Outcome)
      requires Valid() && forall e | e in events :: e.Frame? ==> |e.bytes| <= FRAME_SIZE
      requires |buffer| >= WRITE_SIZE
      modifies this, tx, rx
      ensures Valid() && connected == old(connected)
      ensures !old(connected) ==> r == Threw(NotConnected) && sent == old(sent) && tx[..] == old(tx[..])
      ensures old(connected) ==>
                var x := Converse(Begin(old(tx[1]), OP_WRITE), events);
                var before := PrepareWrite(old(tx[..]), address, buffer[..WRITE_SIZE]);
                && x.result == Some(r) && tx[..] == before[1 := x.seq_]
                && sent == old(sent) + Transmissions(before, WRITE_MESSAGE, x.tries)
    {
      if !connected { return Threw(NotConnected); }
      PreparePayload(address, buffer[..WRITE_SIZE]);
      r := Communicate(events);
    }
  }

  /** Only an OK reply to the outstanding operation is ever returned. */
  lemma {:induction false} ReturnedIsReply(x: Exchange, events: seq<Event>)
    requires x.tries <= TRIES && x.result == None
    requires Converse(x, events).result.value.Returned?
    ensures var y := Converse(x, events);
            var frame := y.result.value.frame;
            && Frame(frame) in events && |frame| >= REPLY_HEADER
            && DecodeReply(frame).(payload := []) == Reply(VERSION, y.seq_, x.operation, STATUS_OK, [])
    decreases |events|, TRIES - x.tries
  {
    var e := if events == [] then Deadline else events[0];
    var rest := if events == [] then [] else events[1..];
    if OnEvent(x, e).result == None {
      ReturnedIsReply(OnEvent(x, e), rest);
    }
  }
}
