/** Address ranges with contents: what `MemoryBlock` and `Section` hold, as values, and the
    assembly and ordering of a list of them. */
module Blocks {
  import opened Bytes
  import opened Flash
  import opened Canonical

  datatype Block = Block(address: nat, data: seq<byte>) {
    function End(): nat { address + |data| }

    predicate Covers(a: nat) { address <= a < End() }

    ghost function Cells(): Memory {
      map a: nat | address <= a < End() && Covers(a) :: data[a - address]
    }
  }

  datatype Result<+T> = Ok(value: T) | Err(error: Error)
  datatype Error = OverlappingBlocks

  predicate Disjoint(x: Block, y: Block) {
    x.End() <= y.address || y.End() <= x.address || x.data == [] || y.data == []
  }

  predicate PairwiseDisjoint(bs: seq<Block>) {
    forall i, j | 0 <= i < j < |bs| :: Disjoint(bs[i], bs[j])
  }

  predicate NoneEmpty(bs: seq<Block>) {
    forall i | 0 <= i < |bs| :: bs[i].data != []
  }

  predicate Apart(bs: seq<Block>, b: Block) {
    forall i | 0 <= i < |bs| :: Disjoint(bs[i], b)
  }

  /** The memory a list of blocks describes; a later block wins where two overlap. */
  ghost function MemoryOf(bs: seq<Block>): Memory {
    if bs == [] then map[] else MemoryOf(bs[..|bs| - 1]) + bs[|bs| - 1].Cells()
  }

  function TotalBytes(bs: seq<Block>): nat {
    if bs == [] then 0 else TotalBytes(bs[..|bs| - 1]) + |bs[|bs| - 1].data|
  }

  lemma MemoryOfAppend(bs: seq<Block>, b: Block)
    ensures MemoryOf(bs + [b]) == MemoryOf(bs) + b.Cells()
    ensures TotalBytes(bs + [b]) == TotalBytes(bs) + |b.data|
  {
  }

  lemma {:induction false} MemoryOfKeys(bs: seq<Block>, a: nat)
    ensures a in MemoryOf(bs) <==> exists i :: 0 <= i < |bs| && bs[i].Covers(a)
  {
    if bs != [] {
      var n := |bs| - 1;
      MemoryOfKeys(bs[..n], a);
      if i :| 0 <= i < |bs| && bs[i].Covers(a) {
        if i < n { assert bs[..n][i].Covers(a); }
      }
      if a in MemoryOf(bs) {
        if bs[n].Covers(a) {
        } else {
          var i :| 0 <= i < n && bs[..n][i].Covers(a);
          assert bs[i].Covers(a);
        }
      }
    }
  }

  /** For disjoint blocks the memory holds every block's bytes, whatever their order. */
  lemma {:induction false} MemoryOfDisjoint(bs: seq<Block>, i: nat, a: nat)
    requires PairwiseDisjoint(bs) && i < |bs| && bs[i].Covers(a)
    ensures a in MemoryOf(bs) && MemoryOf(bs)[a] == bs[i].data[a - bs[i].address]
  {
    var n := |bs| - 1;
    if i < n {
      MemoryOfDisjoint(bs[..n], i, a);
      assert Disjoint(bs[i], bs[n]);
    }
  }

  lemma DisjointCells(x: Block, y: Block)
    requires Disjoint(x, y)
    ensures x.Cells().Keys !! y.Cells().Keys
  {
  }

  lemma OverridesCommute(m: Memory, x: Memory, y: Memory)
    requires x.Keys !! y.Keys
    ensures m + x + y == m + y + x && x + y == y + x
  {
  }

  lemma OverridesAssociate(m: Memory, x: Memory, y: Memory)
    ensures m + (x + y) == m + x + y
  {
  }

  // ---------------------------------------------------------------- adding one block

  /** `Section::joinable`: the block overlaps or touches the section. */
  predicate Joinable(section: Block, block: Block) {
    block.End() >= section.address && block.address <= section.End()
  }

  /** `Section::add`: prepend, append, or refuse. */
  function Join(section: Block, block: Block): Result<Block> {
    if block.End() == section.address then Ok(Block(block.address, block.data + section.data))
    else if block.address == section.End() then Ok(Block(section.address, section.data + block.data))
    else Err(OverlappingBlocks)
  }

  /** The first section, in list order, that is joinable with the block, or |bs|. */
  function FirstJoinable(bs: seq<Block>, block: Block): (k: nat)
    ensures k <= |bs|
    ensures forall i | 0 <= i < k :: !Joinable(bs[i], block)
    ensures k < |bs| ==> Joinable(bs[k], block)
  {
    if bs == [] then 0 else if Joinable(bs[0], block) then 0 else 1 + FirstJoinable(bs[1..], block)
  }

  /** The section list after `Image::process(address, data)`. */
  function Process(bs: seq<Block>, block: Block): Result<seq<Block>> {
    if block.data == [] then Ok(bs)
    else
      var k := FirstJoinable(bs, block);
      if k == |bs| then Ok(bs + [block])
      else match Join(bs[k], block)
        case Ok(joined) => Ok(bs[k := joined])
        case Err(e) => Err(e)
  }

  /** The section list after a sequence of blocks, starting from an empty image. */
  function Feed(blocks: seq<Block>): Result<seq<Block>> {
    if blocks == [] then Ok([])
    else match Feed(blocks[..|blocks| - 1])
      case Ok(bs) => Process(bs, blocks[|blocks| - 1])
      case Err(e) => Err(e)
  }

  /** An overlap is reported exactly when the first section that reaches the block's addresses, or
      touches them, shares an address with it; an empty section, when it lies strictly inside. */
  lemma ProcessThrows(bs: seq<Block>, block: Block, k: nat)
    requires k <= |bs| && forall i | 0 <= i < k :: bs[i].End() < block.address || block.End() < bs[i].address
    requires k < |bs| ==> block.address <= bs[k].End() && bs[k].address <= block.End()
    ensures Process(bs, block).Err? <==>
              && k < |bs| && block.data != []
              && (if bs[k].data != [] then bs[k].address < block.End() && block.address < bs[k].End()
                  else block.address < bs[k].address < block.End())
  {
    FirstIsJoinable(bs, block, k);
  }

  lemma FirstIsJoinable(bs: seq<Block>, block: Block, k: nat)
    requires k <= |bs| && forall i | 0 <= i < k :: bs[i].End() < block.address || block.End() < bs[i].address
    requires k < |bs| ==> block.address <= bs[k].End() && bs[k].address <= block.End()
    ensures FirstJoinable(bs, block) == k
  {
  }

  /** What an accepted block does, in addresses: with no section near it becomes a section of its
      own; otherwise the first one is extended in front, if it starts where the block ends, or
      else behind, and every other section stays. */
  lemma ProcessInPlace(bs: seq<Block>, block: Block, k: nat)
    requires block.data != [] && Process(bs, block).Ok?
    requires k <= |bs| && forall i | 0 <= i < k :: bs[i].End() < block.address || block.End() < bs[i].address
    requires k < |bs| ==> block.address <= bs[k].End() && bs[k].address <= block.End()
    ensures var r := Process(bs, block).value;
            if k == |bs| then r == bs + [block]
            else
              && |r| == |bs| && (forall i | 0 <= i < |bs| && i != k :: r[i] == bs[i])
              && r[k] == if block.address + |block.data| == bs[k].address then Block(block.address, block.data + bs[k].data)
                         else Block(bs[k].address, bs[k].data + block.data)
    ensures k < |bs| ==> block.address + |block.data| == bs[k].address || bs[k].address + |bs[k].data| == block.address
  {
    FirstIsJoinable(bs, block, k);
  }

  /** A block without bytes is accepted and changes nothing. */
  lemma ProcessNothing(bs: seq<Block>, block: Block)
    requires block.data == []
    ensures Process(bs, block) == Ok(bs)
  {
  }

  /** An accepted block adds a section if and only if it neither reaches nor touches any. */
  lemma SectionsGrow(bs: seq<Block>, block: Block)
    requires block.data != [] && Process(bs, block).Ok?
    ensures |Process(bs, block).value| == |bs| + (if exists i :: 0 <= i < |bs| && block.address <= bs[i].End()
                                                                && bs[i].address <= block.End() then 0 else 1)
  {
  }

  lemma {:induction false} TotalBytesUpdate(bs: seq<Block>, k: nat, b: Block)
    requires k < |bs|
    ensures TotalBytes(bs[k := b]) == TotalBytes(bs) - |bs[k].data| + |b.data|
  {
    var n := |bs| - 1;
    if k < n {
      TotalBytesUpdate(bs[..n], k, b);
      assert bs[k := b][..n] == bs[..n][k := b];
    } else {
      assert bs[k := b][..n] == bs[..n];
    }
  }

  lemma ProcessConserves(bs: seq<Block>, block: Block)
    requires Process(bs, block).Ok?
    ensures TotalBytes(Process(bs, block).value) == TotalBytes(bs) + |block.data|
    ensures NoneEmpty(bs) ==> NoneEmpty(Process(bs, block).value)
  {
    var k := FirstJoinable(bs, block);
    MemoryOfAppend(bs, block);
    hide TotalBytes, FirstJoinable, MemoryOf;
    if block.data != [] && k < |bs| {
      TotalBytesUpdate(bs, k, Join(bs[k], block).value);
    }
  }

  /** Every byte supplied is held, on every run that does not throw. */
  lemma {:induction false} FeedConserves(blocks: seq<Block>)
    requires Feed(blocks).Ok?
    ensures TotalBytes(Feed(blocks).value) == TotalBytes(blocks)
    ensures NoneEmpty(Feed(blocks).value)
  {
    if blocks != [] {
      var n := |blocks| - 1;
      FeedConserves(blocks[..n]);
      ProcessConserves(Feed(blocks[..n]).value, blocks[n]);
    }
  }

  /** A block disjoint from every section is accepted and exactly its bytes are added. */
  lemma ProcessApart(bs: seq<Block>, block: Block)
    requires NoneEmpty(bs) && PairwiseDisjoint(bs) && Apart(bs, block)
    ensures Process(bs, block).Ok?
    ensures PairwiseDisjoint(Process(bs, block).value)
    ensures MemoryOf(Process(bs, block).value) == MemoryOf(bs) + block.Cells()
  {
    ProcessThrows(bs, block, FirstJoinable(bs, block));
    var k := FirstJoinable(bs, block);
    if block.data == [] {
      assert block.Cells() == map[];
    } else if k == |bs| {
      MemoryOfAppend(bs, block);
    } else {
      assert Disjoint(bs[k], block);
      JoinCells(bs[k], block);
      MemoryOfUpdate(bs, k, block, Join(bs[k], block).value);
      JoinApart(bs, k, block);
      hide Joinable, Join, MemoryOf, Block.Cells, PairwiseDisjoint;
    }
  }

  /** What is disjoint from a joined section is what is disjoint from both parts. */
  lemma JoinedDisjoint(x: Block, section: Block, block: Block)
    requires section.data != [] && block.data != [] && Join(section, block).Ok?
    ensures Disjoint(x, Join(section, block).value) <==> Disjoint(x, section) && Disjoint(x, block)
    ensures Disjoint(Join(section, block).value, x) <==> Disjoint(section, x) && Disjoint(block, x)
    ensures Disjoint(block, x) <==> Disjoint(x, block)
  {
  }

  lemma JoinApart(bs: seq<Block>, k: nat, block: Block)
    requires PairwiseDisjoint(bs) && Apart(bs, block) && k < |bs|
    requires bs[k].data != [] && block.data != [] && Join(bs[k], block).Ok?
    ensures PairwiseDisjoint(bs[k := Join(bs[k], block).value])
  {
    hide Disjoint, Join;
    var after := bs[k := Join(bs[k], block).value];
    forall i, j | 0 <= i < j < |after| ensures Disjoint(after[i], after[j]) {
      JoinedDisjoint(bs[i], bs[k], block);
      JoinedDisjoint(bs[j], bs[k], block);
    }
  }

  lemma AppendCells(x: Block, y: Block)
    requires y.address == x.End()
    ensures Block(x.address, x.data + y.data).Cells() == x.Cells() + y.Cells()
  {
    assert forall a :: Block(x.address, x.data + y.data).Covers(a) <==> x.Covers(a) || y.Covers(a);
  }

  lemma JoinCells(section: Block, block: Block)
    requires Join(section, block).Ok?
    ensures Join(section, block).value.Cells() == section.Cells() + block.Cells()
  {
    if block.End() == section.address {
      AppendCells(block, section);
      DisjointCells(section, block);
      OverridesCommute(section.Cells(), section.Cells(), block.Cells());
    } else {
      AppendCells(section, block);
    }
  }

  lemma {:induction false} MemoryOfUpdate(bs: seq<Block>, k: nat, block: Block, joined: Block)
    requires k < |bs| && joined.Cells() == bs[k].Cells() + block.Cells()
    requires forall i | k < i < |bs| :: Disjoint(bs[i], block)
    ensures MemoryOf(bs[k := joined]) == MemoryOf(bs) + block.Cells()
  {
    hide Block.Cells, MemoryOf;
    var n := |bs| - 1;
    MemoryOfAppend(bs[..n], bs[n]);
    assert bs == bs[..n] + [bs[n]];
    if k < n {
      MemoryOfUpdate(bs[..n], k, block, joined);
      DisjointCells(bs[n], block);
      OverridesCommute(MemoryOf(bs[..n]), bs[n].Cells(), block.Cells());
      MemoryOfAppend(bs[..n][k := joined], bs[n]);
      assert bs[k := joined] == bs[..n][k := joined] + [bs[n]];
    } else {
      OverridesAssociate(MemoryOf(bs[..n]), bs[k].Cells(), block.Cells());
      MemoryOfAppend(bs[..n], joined);
      assert bs[k := joined] == bs[..n] + [joined];
    }
  }

  lemma ApartFromSections(blocks: seq<Block>, bs: seq<Block>, block: Block)
    requires MemoryOf(blocks) == MemoryOf(bs) && NoneEmpty(bs)
    ensures Apart(blocks, block) <==> Apart(bs, block)
  {
    SharedAddress(blocks, block);
    SharedAddress(bs, block);
  }

  /** A block stands apart from a list exactly when no address of it is in the list's memory. */
  lemma SharedAddress(bs: seq<Block>, block: Block)
    ensures Apart(bs, block) <==> forall a: nat :: block.Covers(a) ==> a !in MemoryOf(bs)
  {
    if !Apart(bs, block) {
      var i :| 0 <= i < |bs| && !Disjoint(bs[i], block);
      var a := if bs[i].address < block.address then block.address else bs[i].address;
      assert bs[i].Covers(a) && block.Covers(a);
      MemoryOfKeys(bs, a);
    } else {
      forall a: nat | block.Covers(a) ensures a !in MemoryOf(bs) {
        MemoryOfKeys(bs, a);
        forall i | 0 <= i < |bs| ensures !bs[i].Covers(a) { assert Disjoint(bs[i], block); }
      }
    }
  }

  /** Disjoint blocks in any order: nothing is refused, the sections stay disjoint and
      non-empty, and together they hold exactly the bytes supplied. */
  lemma {:induction false} FeedDisjoint(blocks: seq<Block>)
    requires PairwiseDisjoint(blocks)
    ensures Feed(blocks).Ok?
    ensures var bs := Feed(blocks).value;
            NoneEmpty(bs) && PairwiseDisjoint(bs) && MemoryOf(bs) == MemoryOf(blocks)
  {
    if blocks != [] {
      var n := |blocks| - 1;
      FeedDisjoint(blocks[..n]);
      var bs := Feed(blocks[..n]).value;
      assert Apart(blocks[..n], blocks[n]);
      ApartFromSections(blocks[..n], bs, blocks[n]);
      ProcessApart(bs, blocks[n]);
      FeedConserves(blocks);
    }
  }

  /** An overlap that is not reported leaves overlapping sections behind. */
  lemma ProcessOverlaps(bs: seq<Block>, block: Block)
    requires NoneEmpty(bs) && Process(bs, block).Ok?
    requires !PairwiseDisjoint(bs) || !Apart(bs, block)
    ensures !PairwiseDisjoint(Process(bs, block).value)
  {
    ProcessThrows(bs, block, FirstJoinable(bs, block));
    var k, after := FirstJoinable(bs, block), Process(bs, block).value;
    if block.data == [] {
      assert forall x :: Disjoint(x, block);
    } else if k < |bs| {
      JoinOverlaps(bs, k, block);
    } else {
      assert forall i | 0 <= i < |bs| :: after[i] == bs[i] && after[k] == block;
      assert forall i, j | 0 <= i < j < |bs| :: Disjoint(after[i], after[j]) <==> Disjoint(bs[i], bs[j]);
      hide Disjoint, Process;
    }
  }

  lemma JoinOverlaps(bs: seq<Block>, k: nat, block: Block)
    requires k < |bs| && bs[k].data != [] && block.data != [] && Join(bs[k], block).Ok? && Disjoint(bs[k], block)
    requires !PairwiseDisjoint(bs) || !Apart(bs, block)
    ensures !PairwiseDisjoint(bs[k := Join(bs[k], block).value])
  {
    hide Disjoint, Join;
    var after := bs[k := Join(bs[k], block).value];
    forall i | 0 <= i < |bs| && !Disjoint(bs[i], block) ensures !PairwiseDisjoint(after) {
      JoinedDisjoint(bs[i], bs[k], block);
      assert if i < k then !Disjoint(after[i], after[k]) else !Disjoint(after[k], after[i]);
    }
    forall i, j | 0 <= i < j < |bs| && !Disjoint(bs[i], bs[j]) ensures !PairwiseDisjoint(after) {
      JoinedDisjoint(bs[i], bs[k], block);
      JoinedDisjoint(bs[j], bs[k], block);
      assert !Disjoint(after[i], after[j]);
    }
  }

  /** Accepting everything and ending with disjoint sections is the same as having been
      fed disjoint blocks: the check on the first joinable section alone is not enough. */
  lemma {:induction false} FeedExact(blocks: seq<Block>)
    ensures Feed(blocks).Ok? && PairwiseDisjoint(Feed(blocks).value) <==> PairwiseDisjoint(blocks)
  {
    if PairwiseDisjoint(blocks) {
      FeedDisjoint(blocks);
    } else if Feed(blocks).Ok? {
      var n := |blocks| - 1;
      var before, bs := blocks[..n], Feed(blocks[..n]).value;
      PairwiseSplit(blocks);
      FeedConserves(before);
      FeedExact(before);
      if PairwiseDisjoint(before) {
        FeedDisjoint(before);
        ApartFromSections(before, bs, blocks[n]);
      }
      ProcessOverlaps(bs, blocks[n]);
    }
  }

  lemma PairwiseSplit(bs: seq<Block>)
    requires bs != []
    ensures PairwiseDisjoint(bs) <==> PairwiseDisjoint(bs[..|bs| - 1]) && Apart(bs[..|bs| - 1], bs[|bs| - 1])
  {
  }

  /** A third block that continues the first is joined to it, whatever the second holds. */
  lemma FeedThree(x: Block, y: Block, z: Block)
    requires x.data != [] && y.data != [] && z.data != [] && !Joinable(x, y) && z.address == x.End()
    ensures Feed([x, y, z]) == Ok([Block(x.address, x.data + z.data), y])
  {
    assert [x, y, z][..2] == [x, y] && [x, y][..1] == [x] && [x][..0] == [];
    FeedNothing();
    assert FirstJoinable([], x) == 0 && [] + [x] == [x];
    assert Feed([x]) == Ok([x]);
    assert FirstJoinable([x], y) == 1 && [x] + [y] == [x, y];
    assert Feed([x, y]) == Ok([x, y]);
    assert FirstJoinable([x, y], z) == 0;
    assert [x, y][0 := Block(x.address, x.data + z.data)] == [Block(x.address, x.data + z.data), y];
  }

  lemma FeedNothing()
    ensures Feed([]) == Ok([])
  {
  }

  /** A block that only touches the first joinable section but overlaps a later one. */
  lemma MissedOverlap(ten: seq<byte>, fifteen: seq<byte>)
    requires |ten| == 10 && |fifteen| == 15
    ensures var blocks := [Block(0, ten), Block(20, ten), Block(10, fifteen)];
            Feed(blocks) == Ok([Block(0, ten + fifteen), Block(20, ten)]) && !PairwiseDisjoint(blocks)
  {
    FeedThree(Block(0, ten), Block(20, ten), Block(10, fifteen));
    assert !Disjoint([Block(0, ten), Block(20, ten), Block(10, fifteen)][1], Block(10, fifteen));
  }

  // ---------------------------------------------------------------- sorting by address

  predicate Sorted(bs: seq<Block>) {
    forall i, j | 0 <= i < j < |bs| :: bs[i].address <= bs[j].address
  }

  /** Insertion after every block whose address is not greater, as a stable sort requires. */
  function Insert(b: Block, bs: seq<Block>): seq<Block> {
    if bs == [] || bs[|bs| - 1].address <= b.address then bs + [b]
    else Insert(b, bs[..|bs| - 1]) + [bs[|bs| - 1]]
  }

  function SortByAddress(bs: seq<Block>): seq<Block> {
    if bs == [] then [] else Insert(bs[|bs| - 1], SortByAddress(bs[..|bs| - 1]))
  }

  lemma {:induction false} InsertAt(b: Block, bs: seq<Block>, p: nat)
    requires p <= |bs| && (p == 0 || bs[p - 1].address <= b.address)
    requires forall i | p <= i < |bs| :: b.address < bs[i].address
    ensures Insert(b, bs) == bs[..p] + [b] + bs[p..]
  {
    if p < |bs| {
      var n := |bs| - 1;
      InsertAt(b, bs[..n], p);
      assert bs[..n][..p] == bs[..p] && bs[..n][p..] + [bs[n]] == bs[p..];
    } else {
      assert bs[..p] + [b] + bs[p..] == bs + [b];
    }
  }

  lemma {:induction false} InsertKeeps(b: Block, bs: seq<Block>)
    ensures multiset(Insert(b, bs)) == multiset(bs) + multiset{b}
  {
    if bs != [] && bs[|bs| - 1].address > b.address {
      var n := |bs| - 1;
      InsertKeeps(b, bs[..n]);
      assert bs == bs[..n] + [bs[n]];
    }
  }

  lemma {:induction false} InsertSorted(b: Block, bs: seq<Block>)
    requires Sorted(bs)
    ensures Sorted(Insert(b, bs)) && multiset(Insert(b, bs)) == multiset(bs) + multiset{b}
  {
    InsertKeeps(b, bs);
    hide Sorted;
    if bs != [] && bs[|bs| - 1].address > b.address {
      var n := |bs| - 1;
      assert bs == bs[..n] + [bs[n]];
      SortedPrefix(bs);
      InsertSorted(b, bs[..n]);
      SortedAppend(Insert(b, bs[..n]), bs[..n], b, bs[n]);
    } else {
      SortedLast(bs, b);
    }
  }

  lemma SortedPrefix(bs: seq<Block>)
    requires Sorted(bs) && bs != []
    ensures Sorted(bs[..|bs| - 1])
  {
  }

  lemma SortedLast(bs: seq<Block>, b: Block)
    requires Sorted(bs) && (bs == [] || bs[|bs| - 1].address <= b.address)
    ensures Sorted(bs + [b])
  {
  }

  lemma SortedAppend(r: seq<Block>, bs: seq<Block>, b: Block, last: Block)
    requires Sorted(r) && Sorted(bs + [last]) && b.address <= last.address
    requires multiset(r) == multiset(bs) + multiset{b}
    ensures Sorted(r + [last])
  {
    forall i | 0 <= i < |r| ensures r[i].address <= last.address {
      assert r[i] in multiset(r);
      if r[i] != b {
        var j :| 0 <= j < |bs| && bs[j] == r[i];
        assert (bs + [last])[j].address <= (bs + [last])[|bs|].address;
      }
    }
  }

  /** Sorting orders the sections and keeps them all. */
  lemma {:induction false} SortMeaning(bs: seq<Block>)
    ensures Sorted(SortByAddress(bs)) && multiset(SortByAddress(bs)) == multiset(bs)
  {
    hide Insert, Sorted;
    if bs == [] {
      NothingSorted();
    } else {
      var n := |bs| - 1;
      SortMeaning(bs[..n]);
      InsertSorted(bs[n], SortByAddress(bs[..n]));
      assert bs == bs[..n] + [bs[n]];
    }
  }

  /** The blocks that start at `address`, in list order. */
  function StartingAt(bs: seq<Block>, address: nat): seq<Block> {
    if bs == [] then []
    else StartingAt(bs[..|bs| - 1], address) + (if bs[|bs| - 1].address == address then [bs[|bs| - 1]] else [])
  }

  lemma {:induction false} InsertStable(b: Block, bs: seq<Block>, address: nat)
    requires Sorted(bs)
    ensures StartingAt(Insert(b, bs), address) == StartingAt(bs, address) + (if b.address == address then [b] else [])
  {
    hide StartingAt, Sorted;
    StartingAppend(bs, b, address);
    if bs != [] && bs[|bs| - 1].address > b.address {
      var n := |bs| - 1;
      var init, last := bs[..n], bs[n];
      assert bs == init + [last];
      SortedPrefix(bs);
      InsertStable(b, init, address);
      StartingAppend(init, last, address);
      StartingAppend(Insert(b, init), last, address);
    }
  }

  lemma StartingAppend(bs: seq<Block>, b: Block, address: nat)
    ensures StartingAt(bs + [b], address) == StartingAt(bs, address) + (if b.address == address then [b] else [])
  {
    assert (bs + [b])[..|bs|] == bs;
  }

  /** Sections that start at the same address keep their order. */
  lemma {:induction false} SortStable(bs: seq<Block>, address: nat)
    ensures StartingAt(SortByAddress(bs), address) == StartingAt(bs, address)
  {
    if bs != [] {
      var n := |bs| - 1;
      SortStable(bs[..n], address);
      SortMeaning(bs[..n]);
      InsertStable(bs[n], SortByAddress(bs[..n]), address);
    }
  }

  lemma NothingSorted()
    ensures Sorted([])
  {
  }

  lemma {:induction false} InsertApart(b: Block, bs: seq<Block>, x: Block)
    ensures Apart(Insert(b, bs), x) <==> Apart(bs, x) && Disjoint(b, x)
  {
    if bs == [] || bs[|bs| - 1].address <= b.address {
      assert (bs + [b])[|bs|] == b && forall i | 0 <= i < |bs| :: (bs + [b])[i] == bs[i];
    } else {
      var n := |bs| - 1;
      InsertApart(b, bs[..n], x);
      var r := Insert(b, bs[..n]);
      assert Apart(bs, x) <==> Apart(bs[..n], x) && Disjoint(bs[n], x);
      assert (r + [bs[n]])[|r|] == bs[n] && forall i | 0 <= i < |r| :: (r + [bs[n]])[i] == r[i];
    }
  }

  lemma {:induction false} InsertDisjoint(b: Block, bs: seq<Block>)
    requires PairwiseDisjoint(bs) && Apart(bs, b)
    ensures PairwiseDisjoint(Insert(b, bs)) && MemoryOf(Insert(b, bs)) == MemoryOf(bs) + b.Cells()
  {
    hide MemoryOf, PairwiseDisjoint, Disjoint;
    PairwiseAppend(bs, b);
    MemoryOfAppend(bs, b);
    if bs != [] && bs[|bs| - 1].address > b.address {
      var n := |bs| - 1;
      var init, last := bs[..n], bs[n];
      assert bs == init + [last];
      hide Block.Cells;
      PairwiseAppend(init, last);
      MemoryOfAppend(init, last);
      assert Apart(init, b) && Disjoint(last, b);
      InsertDisjoint(b, init);
      InsertApart(b, init, last);
      DisjointSwaps(b, last);
      PairwiseAppend(Insert(b, init), last);
      MemoryOfAppend(Insert(b, init), last);
      DisjointCells(last, b);
      OverridesCommute(MemoryOf(init), last.Cells(), b.Cells());
    }
  }

  lemma PairwiseAppend(bs: seq<Block>, b: Block)
    ensures PairwiseDisjoint(bs + [b]) <==> PairwiseDisjoint(bs) && Apart(bs, b)
  {
    PairwiseSplit(bs + [b]);
    assert (bs + [b])[..|bs|] == bs;
  }

  lemma DisjointSwaps(x: Block, y: Block)
    ensures Disjoint(x, y) <==> Disjoint(y, x)
  {
  }

  /** Disjoint sections describe the same memory in any order. */
  lemma {:induction false} SortDisjoint(bs: seq<Block>)
    requires PairwiseDisjoint(bs)
    ensures PairwiseDisjoint(SortByAddress(bs)) && MemoryOf(SortByAddress(bs)) == MemoryOf(bs)
  {
    if bs != [] {
      var n := |bs| - 1;
      SortDisjoint(bs[..n]);
      SortApart(bs[..n], bs[n]);
      InsertDisjoint(bs[n], SortByAddress(bs[..n]));
    }
  }

  lemma {:induction false} SortApart(bs: seq<Block>, x: Block)
    ensures Apart(SortByAddress(bs), x) <==> Apart(bs, x)
  {
    if bs != [] {
      var n := |bs| - 1;
      SortApart(bs[..n], x);
      InsertApart(bs[n], SortByAddress(bs[..n]), x);
      assert Apart(bs, x) <==> Apart(bs[..n], x) && Disjoint(bs[n], x);
    }
  }
}
