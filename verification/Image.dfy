/** Sections that grow in place, the image that owns them and the pass that turns the image
    into page erases and sector writes. */
module Image {
  import opened Bytes
  import opened Flash
  import opened Canonical
  import opened Blocks

  class Section {
    var address: nat
    var data: seq<byte>

    constructor FromBlock(block: Block)
      ensures AsBlock() == block
    {
      address, data := block.address, block.data;
    }

    /** A section of `size` zero bytes, to be filled by the caller. */
    constructor Zeroed(address: nat, size: nat)
      ensures AsBlock() == Block(address, seq(size, _ => 0))
    {
      this.address, data := address, seq(size, _ => 0);
    }

    function AsBlock(): Block
      reads this
    {
      Block(address, data)
    }

    function EndAddress(): nat
      reads this
    {
      address + |data|
    }

    predicate CanJoin(block: Block)
      reads this
      ensures CanJoin(block) == Joinable(AsBlock(), block)
    {
      block.End() >= address && block.address <= EndAddress()
    }

    /** Prepends or appends the block in place; an overlap leaves the section as it was. */
    method Add(block: Block) returns (r: Result<()>)
      modifies this
      ensures r.Ok? == Join(old(AsBlock()), block).Ok?
      ensures r.Ok? ==> Join(old(AsBlock()), block) == Ok(AsBlock())
      ensures r.Err? ==> AsBlock() == old(AsBlock())
    {
      if block.End() == address {
        data := block.data + data;
        address := block.address;
      } else if block.address == EndAddress() {
        data := data + block.data;
      } else {
        return Err(OverlappingBlocks);
      }
      r := Ok(());
    }

    /** Stores bytes at the start of the section's data, through the span handed out. */
    method Fill(bytes: seq<byte>)
      requires |bytes| <= |data|
      modifies this
      ensures AsBlock() == Block(old(address), bytes + old(data)[|bytes|..])
    {
      data := bytes + data[|bytes|..];
    }
  }

  // ---------------------------------------------------------------- alignment

  /** `addr & ~(WRITE_SIZE - 1)`: the 32-bit mask also drops every higher address bit. */
  function SectorAlign(address: nat): nat {
    address % TWO_32 / WRITE_SIZE * WRITE_SIZE
  }

  function EraseAlign(address: nat): nat {
    address % TWO_32 / ERASE_SIZE * ERASE_SIZE
  }

  /** The copy into the 64-byte buffer starts inside it exactly for 32-bit addresses. */
  lemma FillStartsInBuffer(address: nat)
    ensures address - SectorAlign(address) < WRITE_SIZE <==> address < TWO_32
    ensures address < TWO_32 ==> SectorAlign(address) == address / WRITE_SIZE * WRITE_SIZE
    ensures address < TWO_32 ==> EraseAlign(address) == address / ERASE_SIZE * ERASE_SIZE
  {
  }

  /** No section with bytes starts in a sector below the one in which an earlier such section
      ended, so the copy never starts before the buffer. Disjoint sorted sections satisfy it. */
  predicate SectorMonotone(bs: seq<Block>) {
    forall i, j | 0 <= i < j < |bs| && bs[i].data != [] && bs[j].data != [] ::
      (bs[i].End() - 1) / WRITE_SIZE <= bs[j].address / WRITE_SIZE
  }

  predicate Addressable(bs: seq<Block>) {
    forall i | 0 <= i < |bs| && bs[i].data != [] :: bs[i].End() <= TWO_32
  }

  function SectorOf(address: nat): nat {
    address / WRITE_SIZE * WRITE_SIZE
  }

  /** The sector that is current when section `i` begins: the last one with a byte so far. */
  function SectorBefore(bs: seq<Block>, i: nat): nat
    requires i <= |bs|
  {
    if i == 0 then 0
    else if bs[i - 1].data == [] then SectorBefore(bs, i - 1)
    else SectorOf(bs[i - 1].End() - 1)
  }

  /** No section would be copied to a position before the buffer. */
  predicate CopiesStartInBuffer(bs: seq<Block>) {
    forall i | 0 <= i < |bs| && bs[i].data != [] :: SectorBefore(bs, i) <= bs[i].address
  }

  /** The condition on pairs is exactly that every section starts at or after the sector that is
      then current. */
  lemma MonotoneExactly(bs: seq<Block>)
    ensures SectorMonotone(bs) <==> CopiesStartInBuffer(bs)
  {
    hide SectorBefore;
    if SectorMonotone(bs) {
      forall i | 0 <= i < |bs| && bs[i].data != [] ensures SectorBefore(bs, i) <= bs[i].address {
        var k := SectorSource(bs, i);
      }
    }
    if CopiesStartInBuffer(bs) {
      forall i, j | 0 <= i < j < |bs| && bs[i].data != [] && bs[j].data != []
        ensures (bs[i].End() - 1) / WRITE_SIZE <= bs[j].address / WRITE_SIZE
      {
        SectorsAscend(bs, i, j);
      }
    }
  }

  lemma {:induction false} SectorSource(bs: seq<Block>, i: nat) returns (k: nat)
    requires i <= |bs|
    ensures SectorBefore(bs, i) > 0 ==> k < i && bs[k].data != [] && SectorBefore(bs, i) == SectorOf(bs[k].End() - 1)
  {
    k := 0;
    if i > 0 {
      k := i - 1;
      if bs[k].data == [] { k := SectorSource(bs, i - 1); }
    }
  }

  lemma {:induction false} SectorsAscend(bs: seq<Block>, i: nat, j: nat)
    requires CopiesStartInBuffer(bs) && i < j <= |bs| && bs[i].data != []
    ensures SectorOf(bs[i].End() - 1) <= SectorBefore(bs, j)
  {
    hide SectorOf, SectorBefore, CopiesStartInBuffer;
    SectorNext(bs, j - 1);
    if i < j - 1 {
      SectorsAscend(bs, i, j - 1);
      if bs[j - 1].data != [] {
        SectorFloor(bs[i].End() - 1, bs[j - 1].End() - 1);
      }
    }
  }

  lemma SectorNext(bs: seq<Block>, k: nat)
    requires CopiesStartInBuffer(bs) && k < |bs|
    ensures bs[k].data != [] ==> SectorBefore(bs, k) <= bs[k].address && SectorBefore(bs, k + 1) == SectorOf(bs[k].End() - 1)
    ensures bs[k].data == [] ==> SectorBefore(bs, k + 1) == SectorBefore(bs, k)
  {
    hide SectorOf;
  }

  lemma SectorFloor(a: nat, b: nat)
    ensures SectorOf(a) <= b ==> SectorOf(a) <= SectorOf(b)
  {
  }

  /** Accepted blocks can violate it: the first section ends at 193, the second, which overlaps
      it unnoticed, starts at 128, a sector below. */
  lemma AcceptedNotMonotone(ten: seq<byte>, hundred: seq<byte>, rest: seq<byte>)
    requires |ten| == 10 && |hundred| == 100 && |rest| == 183
    ensures var bs := [Block(0, ten + rest), Block(128, hundred)];
            && Feed([Block(0, ten), Block(128, hundred), Block(10, rest)]) == Ok(bs)
            && SortByAddress(bs) == bs && !SectorMonotone(bs) && SectorBefore(bs, 1) == 192
  {
    FeedThree(Block(0, ten), Block(128, hundred), Block(10, rest));
    var x, y := Block(0, ten + rest), Block(128, hundred);
    assert [x, y][..1] == [x] && [x][..0] == [] && [x] + [y] == [x, y];
    assert [] + [x] == [x] && SortByAddress([x]) == [x];
    hide Feed;
    assert SectorBefore([x, y], 1) == SectorOf(192) == 192;
    assert [x, y][0].data != [] && [x, y][1].data != [];
  }

  lemma DisjointIsMonotone(bs: seq<Block>)
    requires Sorted(bs) && PairwiseDisjoint(bs)
    ensures SectorMonotone(bs)
  {
  }

  // ---------------------------------------------------------------- the scheduler's state

  /** The cursors that carry over between sections: the current sector and the end of the page
      erased last. The fourth one, the address, is local to a section. */
  datatype Cursors = Cursors(sectorAddr: nat, sectorEnd: nat, eraseEnd: nat)

  /** The bytes of `done` below the current sector have been emitted, those in it are in the
      buffer, and there are none above it. */
  ghost predicate Current(done: Memory, s: nat, c: Cursors, buffer: seq<byte>, trace: seq<Action>) {
    && c == Cursors(WRITE_SIZE * s, WRITE_SIZE * s + WRITE_SIZE, ERASE_SIZE * (s / SECTORS_PER_PAGE) + ERASE_SIZE)
    && Within(done, c.sectorEnd)
    && buffer == Padded(done, s)
    && trace == TraceBelow(done, s) + EraseFor(done, s)
  }

  /** Either nothing has been handled yet or some byte of the current sector has. */
  ghost predicate Progress(done: Memory, c: Cursors, buffer: seq<byte>, trace: seq<Action>) {
    if done == map[] then c == Cursors(0, 0, 0) && trace == []
    else Current(done, c.sectorAddr / WRITE_SIZE, c, buffer, trace) && Touched(done, c.sectorAddr / WRITE_SIZE)
  }

  /** Writing the finished sector out completes the trace of everything handled. */
  lemma FinishSector(done: Memory, s: nat, c: Cursors, buffer: Sector, trace: seq<Action>, k: nat)
    requires Current(done, s, c, buffer, trace) && Touched(done, s) && s < k
    ensures trace + [Write(c.sectorAddr, buffer)] == TraceBelow(done, k)
  {
  }

  lemma ProgressStart(bs: seq<Block>, buffer: seq<byte>)
    ensures Progress(MemoryOf(bs[..0]), Cursors(0, 0, 0), buffer, []) && SectorBefore(bs, 0) == 0
  {
  }

  /** The last write completes the canonical trace; with no bytes at all it is the only action. */
  lemma LastSector(bs: seq<Block>, c: Cursors, buffer: Sector, trace: seq<Action>)
    requires Progress(MemoryOf(bs), c, buffer, trace) && Addressable(bs)
    ensures trace + [Write(c.sectorAddr, buffer)] ==
            if MemoryOf(bs) != map[] then CanonicalTrace(MemoryOf(bs)) else [Write(0, buffer)]
  {
    var done := MemoryOf(bs);
    MemoryAddressable(bs);
    hide MemoryOf, TraceBelow, Padded, EraseFor, Touched, Within;
    if done != map[] {
      TouchedIsNumbered(done, c.sectorAddr / WRITE_SIZE);
      FinishSector(done, c.sectorAddr / WRITE_SIZE, c, buffer, trace, SECTOR_COUNT);
    }
  }

  /** The cursors once a new sector has been started for `address`. */
  function NextCursors(c: Cursors, address: nat): Cursors {
    var sectorAddr := SectorAlign(address);
    Cursors(sectorAddr, sectorAddr + WRITE_SIZE,
            if sectorAddr >= c.eraseEnd then EraseAlign(sectorAddr) + ERASE_SIZE else c.eraseEnd)
  }

  /** What starting a new sector for `address` emits. */
  function Emitted(c: Cursors, buffer: Sector, address: nat): seq<Action> {
    var sectorAddr := SectorAlign(address);
    (if c.sectorEnd != 0 then [Write(c.sectorAddr, buffer)] else [])
    + (if sectorAddr >= c.eraseEnd then [Erase(EraseAlign(sectorAddr))] else [])
  }

  /** Starting the sector of the next byte keeps the invariant. */
  lemma SwitchSector(done: Memory, c: Cursors, buffer: Sector, trace: seq<Action>, address: nat)
    requires Progress(done, c, buffer, trace) && c.sectorEnd <= address < TWO_32
    ensures Current(done, address / WRITE_SIZE, NextCursors(c, address), seq(WRITE_SIZE, _ => ERASED),
                    trace + Emitted(c, buffer, address))
  {
    hide TraceBelow, EraseFor, Padded, Touched, Within;
    var s := address / WRITE_SIZE;
    AlignAt(address);
    if done == map[] {
      NothingWithin(WRITE_SIZE * s);
      SwitchFirst(done, s);
    } else {
      SectorEndFloor(c.sectorAddr / WRITE_SIZE, address);
      SwitchLater(done, c, buffer, trace, s);
    }
    WithinGrows(done, if done == map[] then WRITE_SIZE * s else c.sectorEnd, WRITE_SIZE * s);
    PaddedBeyond(done, s);
    WithinGrows(done, WRITE_SIZE * s, WRITE_SIZE * s + WRITE_SIZE);
    hide SectorAlign, EraseAlign;
  }

  lemma NothingWithin(limit: nat)
    ensures Within(map[], limit)
  {
  }

  lemma WithinGrows(m: Memory, low: nat, high: nat)
    requires Within(m, low) && low <= high
    ensures Within(m, high)
  {
  }

  lemma SectorEndFloor(sector: nat, address: nat)
    requires WRITE_SIZE * sector + WRITE_SIZE <= address
    ensures WRITE_SIZE * sector + WRITE_SIZE <= WRITE_SIZE * (address / WRITE_SIZE)
  {
  }

  lemma AlignAt(address: nat)
    requires address < TWO_32
    ensures var s := address / WRITE_SIZE;
            && SectorAlign(address) == WRITE_SIZE * s <= address
            && EraseAlign(WRITE_SIZE * s) == ERASE_SIZE * (s / SECTORS_PER_PAGE)
  {
  }

  lemma PaddedBeyond(done: Memory, s: nat)
    requires Within(done, WRITE_SIZE * s)
    ensures Padded(done, s) == seq(WRITE_SIZE, _ => ERASED)
  {
  }

  lemma SwitchFirst(done: Memory, s: nat)
    requires done == map[]
    ensures TraceBelow(done, s) + EraseFor(done, s) == [Erase(ERASE_SIZE * (s / SECTORS_PER_PAGE))]
  {
  }

  lemma SwitchLater(done: Memory, c: Cursors, buffer: Sector, trace: seq<Action>, s: nat)
    requires Progress(done, c, buffer, trace) && done != map[] && c.sectorEnd <= WRITE_SIZE * s
    ensures var erase := if WRITE_SIZE * s >= c.eraseEnd then [Erase(ERASE_SIZE * (s / SECTORS_PER_PAGE))] else [];
            && trace + ([Write(c.sectorAddr, buffer)] + erase) == TraceBelow(done, s) + EraseFor(done, s)
            && (erase == [] ==> c.eraseEnd == ERASE_SIZE * (s / SECTORS_PER_PAGE) + ERASE_SIZE)
  {
    var was, write := c.sectorAddr / WRITE_SIZE, [Write(c.sectorAddr, buffer)];
    FinishSector(done, was, c, buffer, trace, s);
    EraseAfter(done, was, s);
    Associative(trace, write, EraseFor(done, s));
  }

  lemma Associative(a: seq<Action>, b: seq<Action>, c: seq<Action>)
    ensures a + (b + c) == (a + b) + c
  {
  }

  lemma CurrentSector(done: Memory, address: nat, c: Cursors, buffer: seq<byte>, trace: seq<Action>)
    requires Current(done, address / WRITE_SIZE, c, buffer, trace)
    ensures c.sectorAddr <= address < c.sectorEnd == c.sectorAddr + WRITE_SIZE
  {
  }

  /** A byte of the current sector needs no switch. */
  lemma StaySector(done: Memory, c: Cursors, buffer: seq<byte>, trace: seq<Action>, address: nat)
    requires Progress(done, c, buffer, trace) && c.sectorAddr <= address < c.sectorEnd
    ensures Current(done, address / WRITE_SIZE, c, buffer, trace)
  {
    hide Within, Touched, Padded, TraceBelow, EraseFor;
    SameSector(c.sectorAddr / WRITE_SIZE, address);
  }

  lemma SameSector(s: nat, address: nat)
    requires WRITE_SIZE * s <= address < WRITE_SIZE * s + WRITE_SIZE
    ensures address / WRITE_SIZE == s
  {
  }

  /** A page beyond the current one is new; the current one has been erased. */
  lemma EraseAfter(done: Memory, was: nat, s: nat)
    requires Within(done, WRITE_SIZE * was + WRITE_SIZE) && Touched(done, was) && was < s
    ensures EraseFor(done, s) ==
            if WRITE_SIZE * s >= ERASE_SIZE * (was / SECTORS_PER_PAGE) + ERASE_SIZE
            then [Erase(ERASE_SIZE * (s / SECTORS_PER_PAGE))] else []
  {
    hide Within, Touched, EraseFor;
    TouchedPage(done, was, s);
    BeyondPage(was, s);
    EraseMeans(done, s);
  }

  lemma BeyondPage(was: nat, s: nat)
    requires was < s
    ensures WRITE_SIZE * s >= ERASE_SIZE * (was / SECTORS_PER_PAGE) + ERASE_SIZE <==>
            was / SECTORS_PER_PAGE != s / SECTORS_PER_PAGE
  {
    var p, q := was / SECTORS_PER_PAGE, s / SECTORS_PER_PAGE;
    assert SECTORS_PER_PAGE * q <= s < SECTORS_PER_PAGE * q + SECTORS_PER_PAGE && p <= q;
  }

  lemma EraseMeans(done: Memory, s: nat)
    ensures EraseFor(done, s) ==
            if PageTouchedBelow(done, s / SECTORS_PER_PAGE, s) then [] else [Erase(ERASE_SIZE * (s / SECTORS_PER_PAGE))]
  {
  }

  /** The page of a later sector has been touched exactly when it is the page of the last one. */
  lemma TouchedPage(done: Memory, was: nat, s: nat)
    requires Within(done, WRITE_SIZE * was + WRITE_SIZE) && Touched(done, was) && was < s
    ensures PageTouchedBelow(done, s / SECTORS_PER_PAGE, s) <==> was / SECTORS_PER_PAGE == s / SECTORS_PER_PAGE
  {
    if was / SECTORS_PER_PAGE == s / SECTORS_PER_PAGE {
      var a :| a in done && a / WRITE_SIZE == was;
      SectorPage(a);
      assert a < WRITE_SIZE * was + WRITE_SIZE;
    }
    if a :| a in done && a / ERASE_SIZE == s / SECTORS_PER_PAGE && a < WRITE_SIZE * s {
      SectorPage(a);
      assert a / WRITE_SIZE <= was;
    }
  }

  function Spliced(buffer: seq<byte>, offset: nat, bytes: seq<byte>): seq<byte>
    requires offset + |bytes| <= |buffer|
  {
    buffer[..offset] + bytes + buffer[offset + |bytes|..]
  }

  lemma ChunkTouches(done: Memory, chunk: Block, limit: nat)
    requires Within(done, limit) && chunk.End() <= limit && chunk.data != []
    ensures var done' := done + chunk.Cells();
            && Touched(done', chunk.address / WRITE_SIZE) && Within(done', limit) && done' != map[]
            && AgreeBelow(done, done', WRITE_SIZE * (chunk.address / WRITE_SIZE))
  {
    assert chunk.Covers(chunk.address) && chunk.address in done + chunk.Cells();
  }

  /** Copying a chunk into the buffer adds exactly its bytes to what has been handled. */
  lemma FillSector(done: Memory, c: Cursors, buffer: seq<byte>, trace: seq<Action>, chunk: Block)
    requires Current(done, chunk.address / WRITE_SIZE, c, buffer, trace)
    requires chunk.data != [] && chunk.End() <= c.sectorEnd
    ensures c.sectorAddr == SectorOf(chunk.End() - 1) <= chunk.address
    ensures |buffer| == WRITE_SIZE
    ensures Progress(done + chunk.Cells(), c, Spliced(buffer, chunk.address - c.sectorAddr, chunk.data), trace)
  {
    var s, done' := chunk.address / WRITE_SIZE, done + chunk.Cells();
    ChunkTouches(done, chunk, c.sectorEnd);
    hide Touched, Within, AgreeBelow, Block.Cells;
    TraceLocal(done, done', s);
    EraseLocal(done, done', s);
    PaddedFill(done, s, chunk);
    hide TraceBelow, EraseFor, Padded;
    SectorOfChunk(s, c.sectorAddr, chunk);
    assert Current(done', s, c, Spliced(buffer, chunk.address - c.sectorAddr, chunk.data), trace);
    hide Current, Spliced;
  }

  lemma SectorOfChunk(s: nat, sectorAddr: nat, chunk: Block)
    requires chunk.address / WRITE_SIZE == s && sectorAddr == WRITE_SIZE * s
    requires chunk.data != [] && chunk.End() <= sectorAddr + WRITE_SIZE
    ensures sectorAddr == SectorOf(chunk.End() - 1) <= chunk.address && sectorAddr / WRITE_SIZE == s
  {
  }

  lemma PaddedFill(done: Memory, s: nat, chunk: Block)
    requires WRITE_SIZE * s <= chunk.address && chunk.End() <= WRITE_SIZE * s + WRITE_SIZE
    ensures Padded(done + chunk.Cells(), s) == Spliced(Padded(done, s), chunk.address - WRITE_SIZE * s, chunk.data)
  {
  }

  // ---------------------------------------------------------------- the image

  class ImageProgrammer {
    var sections: seq<Section>
    /** The calls of `Erase` and `Write`, which the program prints, in order. */
    var log: seq<Action>

    ghost predicate Valid()
      reads this
    {
      forall i, j | 0 <= i < j < |sections| :: sections[i] != sections[j]
    }

    /** The sections as values, in list order. */
    ghost function Contents(): (bs: seq<Block>)
      reads this, sections
    {
      BlocksOf(sections)
    }

    static ghost function BlocksOf(ss: seq<Section>): (bs: seq<Block>)
      reads ss
      ensures |bs| == |ss|
    {
      seq(|ss|, i requires 0 <= i < |ss| reads ss => ss[i].AsBlock())
    }

    constructor ()
      ensures Valid() && Contents() == [] && log == []
    {
      sections, log := [], [];
    }

    /** The position of the first section that is joinable with the block. */
    method FindJoinable(block: Block) returns (i: nat)
      ensures i == FirstJoinable(Contents(), block)
    {
      i := 0;
      while i < |sections| && !sections[i].CanJoin(block)
        invariant i <= |sections|
        invariant forall k | 0 <= k < i :: !Joinable(Contents()[k], block)
      {
        i := i + 1;
      }
      FirstIs(Contents(), block, i);
    }

    /** Joins the block to the first joinable section, or starts a new one. */
    method Process(block: Block) returns (r: Result<()>)
      requires Valid()
      modifies this`sections, sections
      ensures Valid() && forall s | s in sections :: s in old(sections) || fresh(s)
      ensures r.Ok? == Blocks.Process(old(Contents()), block).Ok?
      ensures r.Ok? ==> Blocks.Process(old(Contents()), block) == Ok(Contents())
      ensures r.Err? ==> Contents() == old(Contents())
    {
      if |block.data| == 0 {
        return Ok(());
      }
      var i := FindJoinable(block);
      if i < |sections| {
        r := sections[i].Add(block);
        assert BlocksOf(sections) == old(BlocksOf(sections))[i := sections[i].AsBlock()];
      } else {
        var s := new Section.FromBlock(block);
        BlocksAppend(sections, s);
        sections := sections + [s];
        r := Ok(());
      }
    }

    static lemma BlocksSplice(ss: seq<Section>, p: nat, x: Section)
      requires p <= |ss|
      ensures BlocksOf(ss[..p] + [x] + ss[p..]) == BlocksOf(ss)[..p] + [x.AsBlock()] + BlocksOf(ss)[p..]
    {
    }

    static lemma BlocksAppend(ss: seq<Section>, x: Section)
      ensures BlocksOf(ss + [x]) == BlocksOf(ss) + [x.AsBlock()]
    {
    }

    /** A new zero-filled section; the returned object is the caller's view of its data. */
    method Allocate(address: nat, size: nat) returns (s: Section)
      requires Valid()
      modifies this`sections
      ensures Valid() && fresh(s) && sections == old(sections) + [s]
      ensures s.AsBlock() == Block(address, seq(size, _ => 0))
      ensures Contents() == old(Contents()) + [s.AsBlock()]
    {
      s := new Section.Zeroed(address, size);
      sections := sections + [s];
    }

    method Erase(address: nat)
      modifies this`log
      ensures log == old(log) + [Action.Erase(address)]
    {
      log := log + [Action.Erase(address)];
    }

    method Write(address: nat, data: Sector)
      modifies this`log
      ensures log == old(log) + [Action.Write(address, data)]
    {
      log := log + [Action.Write(address, data)];
    }

    /** Places one section after all those whose address is not greater. */
    method InsertSection(x: Section)
      requires Sorted(Contents())
      modifies this`sections
      ensures Contents() == Insert(x.AsBlock(), old(Contents()))
      ensures multiset(sections) == multiset(old(sections)) + multiset{x}
    {
      var p := |sections|;
      while p > 0 && sections[p - 1].address > x.address
        invariant 0 <= p <= |sections|
        invariant forall i | p <= i < |sections| :: sections[i].address > x.address
      {
        p := p - 1;
      }
      InsertAt(x.AsBlock(), Contents(), p);
      BlocksSplice(sections, p, x);
      assert sections == sections[..p] + sections[p..];
      sections := sections[..p] + [x] + sections[p..];
    }

    /** The library's stable sort of the section list. */
    method Sort()
      requires Valid()
      modifies this`sections
      ensures Valid() && Contents() == SortByAddress(old(Contents()))
      ensures multiset(sections) == multiset(old(sections))
    {
      hide SortByAddress, Insert, Sorted;
      var unsorted := sections;
      ghost var bs := Contents();
      SortNothing(bs);
      sections := [];
      var n := 0;
      while n < |unsorted|
        invariant n <= |unsorted|
        invariant multiset(sections) == multiset(unsorted[..n])
        invariant Contents() == SortByAddress(bs[..n])
      {
        SortMeaning(bs[..n]);
        InsertSection(unsorted[n]);
        SortPrefix(bs, n);
        TakeNext(unsorted, n);
        n := n + 1;
      }
      assert unsorted[..n] == unsorted && bs[..n] == bs;
      DistinctAsMultiset(unsorted, sections);
    }

    /** Emits the finished sector and the erase of a new page, and clears the buffer. */
    method StartSector(address: nat, c: Cursors, buffer: array<byte>) returns (c': Cursors)
      requires buffer.Length == WRITE_SIZE
      modifies this`log, buffer
      ensures c' == NextCursors(c, address)
      ensures log == old(log) + Emitted(c, old(buffer[..]), address)
      ensures buffer[..] == seq(WRITE_SIZE, _ => ERASED)
    {
      if c.sectorEnd != 0 {
        Write(c.sectorAddr, buffer[..]);
      }
      var sectorAddr, eraseEnd := SectorAlign(address), c.eraseEnd;
      forall k | 0 <= k < WRITE_SIZE { buffer[k] := ERASED; }
      if sectorAddr >= eraseEnd {
        var eraseAddr := EraseAlign(sectorAddr);
        Erase(eraseAddr);
        eraseEnd := eraseAddr + ERASE_SIZE;
      }
      c' := Cursors(sectorAddr, sectorAddr + WRITE_SIZE, eraseEnd);
    }

    /** Makes the sector of `address` the current one, if it is not already. */
    method EnterSector(address: nat, c0: Cursors, buffer: array<byte>,
                       ghost done: Memory, ghost base: seq<Action>, ghost trace0: seq<Action>)
      returns (c: Cursors, ghost trace: seq<Action>)
      requires buffer.Length == WRITE_SIZE && log == base + trace0
      requires Progress(done, c0, buffer[..], trace0) && c0.sectorAddr <= address < TWO_32
      modifies this`log, buffer
      ensures log == base + trace
      ensures Current(done, address / WRITE_SIZE, c, buffer[..], trace)
    {
      ghost var held := buffer[..];
      if address >= c0.sectorEnd {
        c := StartSector(address, c0, buffer);
        SwitchSector(done, c0, held, trace0, address);
        trace := trace0 + Emitted(c0, held, address);
      } else {
        StaySector(done, c0, held, trace0, address);
        c, trace := c0, trace0;
      }
    }

    /** Copies as many of the remaining bytes as fit into the sector of `address`. */
    method FillStep(address: nat, bytes: seq<byte>, c0: Cursors, buffer: array<byte>,
                       ghost done: Memory, ghost base: seq<Action>, ghost trace0: seq<Action>)
      returns (c: Cursors, size: nat, ghost trace: seq<Action>)
      requires buffer.Length == WRITE_SIZE && log == base + trace0 && bytes != []
      requires Progress(done, c0, buffer[..], trace0) && c0.sectorAddr <= address && address + |bytes| <= TWO_32
      modifies this`log, buffer
      ensures log == base + trace && 0 < size <= |bytes|
      ensures Progress(done + Block(address, bytes[..size]).Cells(), c, buffer[..], trace)
      ensures c.sectorAddr == SectorOf(address + size - 1)
    {
      hide Progress;
      c, trace := EnterSector(address, c0, buffer, done, base, trace0);
      CurrentSector(done, address, c, buffer[..], trace);
      hide Current;
      var offset := address - c.sectorAddr;
      size := Min(WRITE_SIZE - offset, |bytes|);
      FillSector(done, c, buffer[..], trace, Block(address, bytes[..size]));
      CopyInto(buffer, offset, bytes[..size]);
    }

    /** Walks one section; the cursors and the buffer carry over from and to its neighbours. */
    method ProgramSection(sec: Section, c0: Cursors, buffer: array<byte>,
                          ghost before: Memory, ghost base: seq<Action>, ghost trace0: seq<Action>)
      returns (c: Cursors, ghost trace: seq<Action>)
      requires buffer.Length == WRITE_SIZE && log == base + trace0
      requires Progress(before, c0, buffer[..], trace0)
      requires sec.data != [] ==> c0.sectorAddr <= sec.address && sec.EndAddress() <= TWO_32
      modifies this`log, buffer
      ensures log == base + trace
      ensures Progress(before + sec.AsBlock().Cells(), c, buffer[..], trace)
      ensures if sec.data == [] then c == c0 else c.sectorAddr == SectorOf(sec.EndAddress() - 1)
    {
      hide Progress, Partial, Block.Cells;
      var bytes, data, start, address, endAddress := sec.data, 0, sec.address, sec.address, sec.EndAddress();
      c, trace := c0, trace0;
      PartialEnds(before, start, bytes);
      while address < endAddress
        modifies this`log, buffer
        invariant log == base + trace
        invariant address == start + data && data <= |bytes|
        invariant Progress(Partial(before, start, bytes, data), c, buffer[..], trace)
        invariant if data == 0 then c == c0 else c.sectorAddr == SectorOf(address - 1)
      {
        var size;
        ghost var done := Partial(before, start, bytes, data);
        c, size, trace := FillStep(address, bytes[data..], c, buffer, done, base, trace);
        ExtendCells(before, start, bytes, data, size);
        data, address := data + size, address + size;
      }
    }

    /** Sorts the sections, then walks them once, filling one sector buffer at a time. Without
        any byte to program it still writes its buffer, never filled, to address 0. */
    method Program()
      requires Valid()
      requires SectorMonotone(SortByAddress(Contents())) && Addressable(Contents())
      modifies this`sections, this`log
      ensures Valid() && Contents() == SortByAddress(old(Contents()))
      ensures var m := MemoryOf(Contents());
              if m != map[] then log == old(log) + CanonicalTrace(m)
              else exists unfilled: Sector :: log == old(log) + [Action.Write(0, unfilled)]
    {
      hide Progress, Current, SectorMonotone, Addressable, SectorBefore, SectorOf;
      hide SortByAddress, MemoryOf, CanonicalTrace, Block.Cells;
      var c, buffer := Cursors(0, 0, 0), new byte[WRITE_SIZE];
      Sort();
      ghost var base, bs, trace := log, Contents(), [];
      SortAddressable(old(Contents()));
      ProgressStart(bs, buffer[..]);
      var i := 0;
      while i < |sections|
        modifies this`log, buffer
        invariant i <= |sections| == |bs| && log == base + trace
        invariant forall k | 0 <= k < |bs| :: sections[k].AsBlock() == bs[k]
        invariant Progress(MemoryOf(bs[..i]), c, buffer[..], trace)
        invariant c.sectorAddr == SectorBefore(bs, i)
      {
        var sec, c1 := sections[i], c;
        assert sec.AsBlock() == bs[i];
        SectionFits(bs, i);
        c, trace := ProgramSection(sec, c, buffer, MemoryOf(bs[..i]), base, trace);
        NextSection(bs, i, c1, c);
        i := i + 1;
      }
      assert bs[..i] == bs;
      LastSector(bs, c, buffer[..], trace);
      Write(c.sectorAddr, buffer[..]);
    }
  }

  /** Programming an image without bytes overwrites sector 0 with whatever the buffer held: the
      flash stays as it was exactly when those bytes happen to be there already. */
  lemma UnfilledWrite(flash: seq<byte>, unfilled: Sector)
    requires |flash| >= WRITE_SIZE
    ensures Run(Overwriting, flash, [Action.Write(0, unfilled)]) == flash <==> flash[..WRITE_SIZE] == unfilled
  {
  }

  /** Copies `bytes` to position `offset` of the buffer. */
  method CopyInto(buffer: array<byte>, offset: nat, bytes: seq<byte>)
    requires offset + |bytes| <= buffer.Length
    modifies buffer
    ensures buffer[..] == Spliced(old(buffer[..]), offset, bytes)
  {
    forall k | 0 <= k < |bytes| { buffer[offset + k] := bytes[k]; }
  }

  function Min(a: nat, b: nat): nat {
    if a < b then a else b
  }

  /** What `ProgramSection` says of its section is what the loop over the sections needs. */
  lemma NextSection(bs: seq<Block>, i: nat, c0: Cursors, c: Cursors)
    requires i < |bs| && c0.sectorAddr == SectorBefore(bs, i)
    requires if bs[i].data == [] then c == c0 else c.sectorAddr == SectorOf(bs[i].End() - 1)
    ensures MemoryOf(bs[..i + 1]) == MemoryOf(bs[..i]) + bs[i].Cells() && c.sectorAddr == SectorBefore(bs, i + 1)
  {
    TakeNext(bs, i);
    MemoryOfAppend(bs[..i], bs[i]);
  }

  lemma SectionFits(bs: seq<Block>, i: nat)
    requires SectorMonotone(bs) && Addressable(bs) && i < |bs|
    ensures bs[i].data != [] ==> SectorBefore(bs, i) <= bs[i].address && bs[i].End() <= TWO_32
  {
    MonotoneExactly(bs);
  }

  /** `m` and the first `n` of a section's bytes. */
  ghost function Partial(m: Memory, start: nat, bytes: seq<byte>, n: nat): Memory
    requires n <= |bytes|
  {
    m + Block(start, bytes[..n]).Cells()
  }

  lemma PartialEnds(m: Memory, start: nat, bytes: seq<byte>)
    ensures Partial(m, start, bytes, 0) == m
    ensures Partial(m, start, bytes, |bytes|) == m + Block(start, bytes).Cells()
  {
    assert bytes[..|bytes|] == bytes;
  }

  lemma ExtendCells(m: Memory, start: nat, bytes: seq<byte>, n: nat, size: nat)
    requires n + size <= |bytes|
    ensures Partial(m, start, bytes, n + size) ==
            Partial(m, start, bytes, n) + Block(start + n, bytes[n..][..size]).Cells()
  {
    var head, chunk := Block(start, bytes[..n]), Block(start + n, bytes[n..][..size]);
    AppendCells(head, chunk);
    assert head.data + chunk.data == bytes[..n + size];
    OverridesAssociate(m, head.Cells(), chunk.Cells());
    hide Block.Cells;
  }

  lemma TakeNext<T>(s: seq<T>, n: nat)
    requires n < |s|
    ensures s[..n + 1] == s[..n] + [s[n]]
  {
  }

  lemma SortNothing(bs: seq<Block>)
    ensures SortByAddress(bs[..0]) == []
  {
  }

  lemma SortPrefix(bs: seq<Block>, n: nat)
    requires n < |bs|
    ensures SortByAddress(bs[..n + 1]) == Insert(bs[n], SortByAddress(bs[..n]))
  {
    assert bs[..n + 1][..n] == bs[..n];
  }

  lemma SortAddressable(bs: seq<Block>)
    requires Addressable(bs)
    ensures Addressable(SortByAddress(bs))
  {
    SortMeaning(bs);
    var sorted := SortByAddress(bs);
    forall i | 0 <= i < |sorted| && sorted[i].data != [] ensures sorted[i].End() <= TWO_32 {
      assert sorted[i] in multiset(sorted);
      assert sorted[i] in bs;
    }
  }

  lemma FirstIs(bs: seq<Block>, block: Block, i: nat)
    requires i <= |bs| && (forall k | 0 <= k < i :: !Joinable(bs[k], block)) && (i < |bs| ==> Joinable(bs[i], block))
    ensures FirstJoinable(bs, block) == i
  {
  }

  lemma MemoryAddressable(bs: seq<Block>)
    requires Addressable(bs)
    ensures Within(MemoryOf(bs), TWO_32)
  {
  }

  lemma DistinctAsMultiset(a: seq<Section>, b: seq<Section>)
    requires multiset(a) == multiset(b) && forall i, j | 0 <= i < j < |a| :: a[i] != a[j]
    ensures forall i, j | 0 <= i < j < |b| :: b[i] != b[j]
  {
    forall i, j | 0 <= i < j < |b| ensures b[i] != b[j] {
      OccursTwice(b, i, j);
      AtMostOnce(a, b[i]);
    }
  }

  lemma OccursTwice(b: seq<Section>, i: nat, j: nat)
    requires i < j < |b|
    ensures b[i] == b[j] ==> multiset(b)[b[i]] >= 2
  {
    assert b == b[..i] + [b[i]] + b[i + 1..j] + [b[j]] + b[j + 1..];
  }

  lemma {:induction false} AtMostOnce(a: seq<Section>, x: Section)
    requires forall i, j | 0 <= i < j < |a| :: a[i] != a[j]
    ensures multiset(a)[x] <= 1
  {
    if a != [] {
      AtMostOnce(a[1..], x);
      assert a == [a[0]] + a[1..];
      if x == a[0] {
        assert x !in a[1..];
      }
    }
  }
}
