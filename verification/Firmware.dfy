/** From firmware to flash: blocks or an ELF file through the image and the scheduler. */
module Firmware {
  import opened Bytes
  import opened Flash
  import opened Canonical
  import opened Blocks
  import opened Image
  import opened Elf

  // ---------------------------------------------------------------- assembling and scheduling

  lemma WithinIsAddressable(bs: seq<Block>)
    ensures Within(MemoryOf(bs), TWO_32) <==> Addressable(bs)
  {
    if Addressable(bs) {
      MemoryAddressable(bs);
    }
    if Within(MemoryOf(bs), TWO_32) {
      forall i | 0 <= i < |bs| && bs[i].data != [] ensures bs[i].End() <= TWO_32 {
        MemoryOfKeys(bs, bs[i].End() - 1);
        assert bs[i].Covers(bs[i].End() - 1);
      }
    }
  }

  /** Disjoint sections can always be scheduled, and sorting them changes no byte. */
  lemma DisjointIsSchedulable(bs: seq<Block>)
    requires PairwiseDisjoint(bs)
    ensures SectorMonotone(SortByAddress(bs)) && MemoryOf(SortByAddress(bs)) == MemoryOf(bs)
  {
    SortMeaning(bs);
    SortDisjoint(bs);
    DisjointIsMonotone(SortByAddress(bs));
  }

  /** Feeds blocks to a new image, as the readers do, and programs it. Which blocks they are,
      in which order and how the bytes are cut up does not matter: only the memory they make. */
  method ProgramBlocks(blocks: seq<Block>) returns (log: seq<Action>)
    requires PairwiseDisjoint(blocks) && Addressable(blocks)
    ensures var m := MemoryOf(blocks);
            if m != map[] then log == CanonicalTrace(m) else exists unfilled: Sector :: log == [Action.Write(0, unfilled)]
  {
    hide MemoryOf, SortByAddress, SectorMonotone, Addressable, PairwiseDisjoint, NoneEmpty, CanonicalTrace, Process;
    assert blocks[..0] == [];
    FeedNothing();
    var image := new ImageProgrammer();
    var i := 0;
    while i < |blocks|
      invariant i <= |blocks| && image.Valid() && fresh(image) && image.log == []
      invariant forall k | 0 <= k < |image.sections| :: fresh(image.sections[k])
      invariant Feed(blocks[..i]) == Ok(image.Contents())
    {
      FeedNext(blocks, i);
      var r := image.Process(blocks[i]);
      assert forall k | 0 <= k < |image.sections| :: image.sections[k] in image.sections;
      i := i + 1;
    }
    assert blocks[..i] == blocks;
    FeedDisjoint(blocks);
    WithinIsAddressable(blocks);
    WithinIsAddressable(image.Contents());
    DisjointIsSchedulable(image.Contents());
    image.Program();
    log := image.log;
  }

  lemma FeedNext(blocks: seq<Block>, i: nat)
    requires PairwiseDisjoint(blocks) && i < |blocks|
    ensures Feed(blocks[..i]).Ok? && Feed(blocks[..i + 1]).Ok?
    ensures Feed(blocks[..i + 1]) == Process(Feed(blocks[..i]).value, blocks[i])
  {
    assert blocks[..i + 1][..i] == blocks[..i];
    FeedDisjoint(blocks[..i]);
    FeedDisjoint(blocks[..i + 1]);
  }

  /** The sections an accepted file is loaded into. */
  function Loadable(file: seq<byte>): seq<Block>
    requires Accepted(file) && Readable(file, Programs(file))
  {
    Segments(file, Programs(file))
  }

  /** Opens an ELF file, loads its segments and programs them. A file without loadable segments
      still makes the image write its buffer, never filled, to address 0. */
  method ProgramElf(file: seq<byte>) returns (r: Elf.Outcome, log: seq<Action>)
    requires Accepted(file) && Readable(file, Programs(file)) ==>
               SectorMonotone(SortByAddress(Loadable(file))) && Addressable(Loadable(file))
    ensures r == Loaded <==> Accepted(file) && Readable(file, Programs(file))
    ensures r != Loaded ==> log == []
    ensures r == Loaded && Loadable(file) != [] ==> log == CanonicalTrace(MemoryOf(SortByAddress(Loadable(file))))
    ensures r == Loaded && Loadable(file) == [] ==> exists unfilled: Sector :: log == [Action.Write(0, unfilled)]
  {
    hide MemoryOf, SortByAddress, SectorMonotone, CanonicalTrace, Segments, Accepted, Readable, Addressable, DecodeHeader;
    log := [];
    var elf := new ElfFile(file);
    r := elf.Open();
    if r == Loaded {
      ProgramsAccepted(file);
      var image := new ImageProgrammer();
      r := elf.ReadImage(image);
      if r == Loaded {
        assert image.Contents() == Loadable(file);
        SegmentsHoldBytes(file, Programs(file));
        SortHoldsBytes(Loadable(file));
        image.Program();
        log := image.log;
      }
    }
  }

  /** Sorting keeps whether there is anything to program. */
  lemma SortHoldsBytes(bs: seq<Block>)
    requires NoneEmpty(bs)
    ensures MemoryOf(SortByAddress(bs)) == map[] <==> bs == []
  {
    SortMeaning(bs);
    hide SortByAddress;
    var sorted := SortByAddress(bs);
    if bs != [] {
      assert bs[0] in multiset(sorted);
      var i :| 0 <= i < |sorted| && sorted[i] == bs[0];
      assert sorted[i].Covers(sorted[i].address);
      MemoryOfKeys(sorted, sorted[i].address);
    } else {
      assert |multiset(sorted)| == 0;
      assert sorted == [];
    }
  }

  lemma NothingSegments(file: seq<byte>)
    ensures Segments(file, []) == []
  {
  }

  lemma {:induction false} SegmentsHoldBytes(file: seq<byte>, programs: seq<ProgramHeader>)
    requires Readable(file, programs)
    ensures NoneEmpty(Segments(file, programs))
  {
    if programs != [] {
      SegmentsHoldBytes(file, programs[..|programs| - 1]);
    }
  }

  /** The flash once the image made of the given sections has been programmed. */
  ghost function Programmed(cell: Cell, bs: seq<Block>, flash: seq<byte>): (r: seq<byte>)
    ensures |r| == |flash|
  {
    Run(cell, flash, CanonicalTrace(MemoryOf(bs)))
  }

  /** Every byte of every one of a list of disjoint blocks ends up at its address. */
  lemma BlockInFlash(cell: Cell, bs: seq<Block>, flash: seq<byte>, j: nat, k: nat)
    requires PairwiseDisjoint(bs) && Addressable(bs)
    requires j < |bs| && k < |bs[j].data| && bs[j].address + k < |flash|
    ensures Programmed(cell, bs, flash)[bs[j].address + k] == bs[j].data[k]
  {
    hide MemoryOf, PairwiseDisjoint, Addressable, Run, CanonicalTrace, Within;
    assert bs[j].Covers(bs[j].address + k);
    MemoryOfDisjoint(bs, j, bs[j].address + k);
    WithinIsAddressable(bs);
    CanonicalEffect(cell, MemoryOf(bs), flash, bs[j].address + k);
  }

  lemma SegmentByte(file: seq<byte>, p: ProgramHeader, k: nat)
    requires InFile(file, p) && k < p.memsz
    ensures Segment(file, p).address == p.paddr && |Segment(file, p).data| == p.memsz
    ensures Segment(file, p).data[k] == if k < p.filesz then file[p.off + k] else 0
  {
  }

  /** After the trace of an ELF file has run, each segment is in the flash at its physical
      address: the bytes of the file, then zeros up to the size in memory. */
  lemma ElfInFlash(cell: Cell, file: seq<byte>, programs: seq<ProgramHeader>, flash: seq<byte>, i: nat, k: nat)
    requires Readable(file, programs) && PairwiseDisjoint(Segments(file, programs)) && Addressable(Segments(file, programs))
    requires i < |programs| && programs[i].type_ == 1 && programs[i].filesz > 0 && k < programs[i].memsz
    requires programs[i].paddr + k < |flash|
    ensures Programmed(cell, Segments(file, programs), flash)[programs[i].paddr + k] ==
            if k < programs[i].filesz then file[programs[i].off + k] else 0
  {
    hide *;
    var j := SegmentListed(file, programs, i);
    SegmentByte(file, programs[i], k);
    BlockInFlash(cell, Segments(file, programs), flash, j, k);
  }

  /** What `ProgramElf` emits for an accepted file puts its segments there, if they are disjoint. */
  lemma FileInFlash(cell: Cell, file: seq<byte>, log: seq<Action>, flash: seq<byte>, i: nat, k: nat)
    requires Accepted(file) && Readable(file, Programs(file))
    requires PairwiseDisjoint(Loadable(file)) && Addressable(Loadable(file))
    requires log == CanonicalTrace(MemoryOf(SortByAddress(Loadable(file))))
    requires i < |Programs(file)|
    requires var p := Programs(file)[i]; p.type_ == 1 && p.filesz > 0 && k < p.memsz && p.paddr + k < |flash|
    ensures SectorMonotone(SortByAddress(Loadable(file)))
    ensures var p := Programs(file)[i]; Run(cell, flash, log)[p.paddr + k] == if k < p.filesz then file[p.off + k] else 0
  {
    DisjointIsSchedulable(Loadable(file));
    ElfInFlash(cell, file, Programs(file), flash, i, k);
    hide *;
  }
}
