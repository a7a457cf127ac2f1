/** Where the writes of a trace really go: `NetworkProgrammer::write` leaves the header's address
    alone, so a write lands on the address of the erase before it, its data shifted by the
    compiler's padding. */
module Landing {
  import opened Bytes
  import opened Flash
  import opened Canonical

  /** The address the header holds after the actions, `header` being the one before them. */
  function Selected(t: seq<Action>, header: nat): nat {
    if t == [] then header
    else match t[|t| - 1]
      case Erase(address) => address
      case Write(_, _) => Selected(t[..|t| - 1], header)
  }

  /** The data as stored: `tail` is what follows the message in the target's frame buffer, as
      many bytes as the padding has. */
  function Shifted(data: Sector, tail: seq<byte>): Sector
    requires |tail| <= WRITE_SIZE
  {
    data[|tail|..] + tail
  }

  function Place(act: Action, header: nat, tail: seq<byte>): Action
    requires |tail| <= WRITE_SIZE
  {
    match act
    case Erase(_) => act
    case Write(_, data) => Write(header, Shifted(data, tail))
  }

  /** The actions the target performs when the programmer's calls are those of the trace. */
  function Placed(t: seq<Action>, header: nat, tail: seq<byte>): (r: seq<Action>)
    requires |tail| <= WRITE_SIZE
    ensures |r| == |t|
  {
    if t == [] then []
    else
      var n := |t| - 1;
      Placed(t[..n], header, tail) + [Place(t[n], Selected(t[..n], header), tail)]
  }

  lemma PlacedAppend(t: seq<Action>, act: Action, header: nat, tail: seq<byte>)
    requires |tail| <= WRITE_SIZE
    ensures Placed(t + [act], header, tail) == Placed(t, header, tail) + [Place(act, Selected(t, header), tail)]
    ensures Selected(t + [act], header) == if act.Erase? then act.address else Selected(t, header)
  {
  }

  // ---------------------------------------------------------------- canonical traces

  /** Inside a page that has been erased the header holds the page's address. */
  lemma {:induction false} SelectedPage(m: Memory, k: nat, page: nat, header: nat)
    requires PageTouchedBelow(m, page, k) && k <= SECTORS_PER_PAGE * (page + 1)
    ensures Selected(TraceBelow(m, k), header) == ERASE_SIZE * page
  {
    var s := k - 1;
    PageGrows(m, page, s);
    TraceStep(m, s);
    if PageTouchedBelow(m, page, s) {
      assert s / SECTORS_PER_PAGE == page by { InPage(m, page, s); }
      SelectedPage(m, s, page, header);
    }
    if Touched(m, s) {
      PlacedAppend(TraceBelow(m, s), Erase(ERASE_SIZE * page), header, []);
      PlacedAppend(TraceBelow(m, s) + EraseFor(m, s), Write(WRITE_SIZE * s, Padded(m, s)), header, []);
    }
    hide TraceBelow, PageTouchedBelow, Touched, Padded, Selected, Placed;
  }

  lemma InPage(m: Memory, page: nat, s: nat)
    requires PageTouchedBelow(m, page, s) && s < SECTORS_PER_PAGE * (page + 1)
    ensures s / SECTORS_PER_PAGE == page
  {
  }

  /** The write of a touched sector lands on the first sector of its page. */
  lemma SectorPlaced(m: Memory, s: nat, header: nat, tail: seq<byte>)
    requires Touched(m, s) && |tail| <= WRITE_SIZE
    ensures Placed(TraceBelow(m, s + 1), header, tail) ==
            Placed(TraceBelow(m, s), header, tail) + EraseFor(m, s)
            + [Write(ERASE_SIZE * (s / SECTORS_PER_PAGE), Shifted(Padded(m, s), tail))]
  {
    var page, before := s / SECTORS_PER_PAGE, TraceBelow(m, s);
    TraceStep(m, s);
    if PageTouchedBelow(m, page, s) {
      SelectedPage(m, s, page, header);
    } else {
      PlacedAppend(before, Erase(ERASE_SIZE * page), header, tail);
    }
    PlacedAppend(before + EraseFor(m, s), Write(WRITE_SIZE * s, Padded(m, s)), header, tail);
    hide TraceBelow, PageTouchedBelow, Touched, Padded, Selected, Placed, Shifted;
  }

  /** An image's schedule starts with an erase, so the address held before does not matter. */
  lemma {:induction false} AnyHeader(m: Memory, k: nat, header: nat, header': nat, tail: seq<byte>)
    requires |tail| <= WRITE_SIZE
    ensures Placed(TraceBelow(m, k), header, tail) == Placed(TraceBelow(m, k), header', tail)
  {
    hide Placed, EraseFor, Touched;
    if k == 0 {
      PlacedNothing(header, tail);
      PlacedNothing(header', tail);
    } else {
      AnyHeader(m, k - 1, header, header', tail);
      TraceStep(m, k - 1);
      if Touched(m, k - 1) {
        SectorPlaced(m, k - 1, header, tail);
        SectorPlaced(m, k - 1, header', tail);
      }
    }
  }

  lemma PlacedNothing(header: nat, tail: seq<byte>)
    requires |tail| <= WRITE_SIZE
    ensures Placed([], header, tail) == []
  {
  }

  /** The sector's write arrives as scheduled. */
  ghost predicate Faithful(m: Memory, s: nat, tail: seq<byte>)
    requires |tail| <= WRITE_SIZE
  {
    s % SECTORS_PER_PAGE == 0 && Shifted(Padded(m, s), tail) == Padded(m, s)
  }

  ghost predicate FaithfulBelow(m: Memory, k: nat, tail: seq<byte>)
    requires |tail| <= WRITE_SIZE
  {
    forall s: nat | s < k && Touched(m, s) :: Faithful(m, s, tail)
  }

  lemma FaithfulGrows(m: Memory, s: nat, tail: seq<byte>)
    requires |tail| <= WRITE_SIZE
    ensures FaithfulBelow(m, s + 1, tail) <==> FaithfulBelow(m, s, tail) && (Touched(m, s) ==> Faithful(m, s, tail))
  {
    hide Faithful, Touched;
  }

  lemma {:induction false} PlacedBelow(m: Memory, k: nat, header: nat, tail: seq<byte>)
    requires |tail| <= WRITE_SIZE
    ensures Placed(TraceBelow(m, k), header, tail) == TraceBelow(m, k) <==> FaithfulBelow(m, k, tail)
  {
    hide *;
    if k == 0 {
      NothingPlaced(m, header, tail);
    } else {
      PlacedBelow(m, k - 1, header, tail);
      SectorKept(m, k - 1, header, tail);
      FaithfulGrows(m, k - 1, tail);
      assert k - 1 + 1 == k;
    }
  }

  lemma NothingPlaced(m: Memory, header: nat, tail: seq<byte>)
    requires |tail| <= WRITE_SIZE
    ensures Placed(TraceBelow(m, 0), header, tail) == TraceBelow(m, 0) && FaithfulBelow(m, 0, tail)
  {
  }

  lemma SectorKept(m: Memory, s: nat, header: nat, tail: seq<byte>)
    requires |tail| <= WRITE_SIZE
    ensures Placed(TraceBelow(m, s + 1), header, tail) == TraceBelow(m, s + 1) <==>
            Placed(TraceBelow(m, s), header, tail) == TraceBelow(m, s) && (Touched(m, s) ==> Faithful(m, s, tail))
  {
    hide TraceBelow, EraseFor, Touched, Placed, Padded, Shifted;
    var before, erase, header' := TraceBelow(m, s), EraseFor(m, s), ERASE_SIZE * (s / SECTORS_PER_PAGE);
    TraceStep(m, s);
    if Touched(m, s) {
      PageStart(s);
      SectorPlaced(m, s, header, tail);
      SameAppend(Placed(before, header, tail), before, erase,
        Write(header', Shifted(Padded(m, s), tail)), Write(WRITE_SIZE * s, Padded(m, s)));
    }
  }

  lemma PageStart(s: nat)
    ensures ERASE_SIZE * (s / SECTORS_PER_PAGE) == WRITE_SIZE * s <==> s % SECTORS_PER_PAGE == 0
  {
  }

  lemma SameAppend(a: seq<Action>, b: seq<Action>, c: seq<Action>, x: Action, y: Action)
    requires |a| == |b|
    ensures a + c + [x] == b + c + [y] <==> a == b && x == y
  {
    if a + c + [x] == b + c + [y] {
      assert a == (a + c + [x])[..|a|] && b == (b + c + [y])[..|b|];
      assert (a + c + [x])[|a + c|] == x && (b + c + [y])[|b + c|] == y;
    }
  }

  /** The calls of a canonical trace do what the trace says exactly when every touched sector is
      the first one of its page and the padding shifts no other byte into it. */
  lemma ScheduledExactly(m: Memory, header: nat, tail: seq<byte>)
    requires Within(m, ADDRESS_SPACE) && |tail| <= WRITE_SIZE
    ensures Placed(CanonicalTrace(m), header, tail) == CanonicalTrace(m) <==>
            forall s: nat | Touched(m, s) :: Faithful(m, s, tail)
  {
    hide TraceBelow, Touched, Placed, Faithful, Within;
    PlacedBelow(m, SECTOR_COUNT, header, tail);
    forall s: nat | Touched(m, s) ensures s < SECTOR_COUNT {
      TouchedIsNumbered(m, s);
    }
  }

  /** Without padding only the addresses matter. */
  lemma ScheduledUnpadded(m: Memory, header: nat)
    requires Within(m, ADDRESS_SPACE)
    ensures Placed(CanonicalTrace(m), header, []) == CanonicalTrace(m) <==>
            forall a | a in m :: a % ERASE_SIZE < WRITE_SIZE
  {
    hide CanonicalTrace, Placed;
    ScheduledExactly(m, header, []);
    forall s: nat ensures Faithful(m, s, []) <==> s % SECTORS_PER_PAGE == 0 {
    }
    hide Faithful;
    forall a | a in m
      ensures Touched(m, a / WRITE_SIZE) && (a % ERASE_SIZE < WRITE_SIZE <==> a / WRITE_SIZE % SECTORS_PER_PAGE == 0)
    {
      PageOffset(a);
    }
  }

  lemma PageOffset(a: nat)
    ensures a % ERASE_SIZE < WRITE_SIZE <==> a / WRITE_SIZE % SECTORS_PER_PAGE == 0
  {
  }

  // ---------------------------------------------------------------- effect on the flash

  /** What the flash holds at `a` once the calls for the sectors below `k` have been made. */
  ghost function LandedBelow(m: Memory, k: nat, flash: seq<byte>, a: nat, tail: seq<byte>): byte
    requires a < |flash| && |tail| <= WRITE_SIZE
  {
    if k == 0 then flash[a]
    else if !Touched(m, k - 1) || (k - 1) / SECTORS_PER_PAGE != a / ERASE_SIZE then LandedBelow(m, k - 1, flash, a, tail)
    else if a % ERASE_SIZE < WRITE_SIZE then Shifted(Padded(m, k - 1), tail)[a % ERASE_SIZE]
    else ERASED
  }

  /** The last touched sector of its page among those numbered below `k`. */
  ghost predicate LastBelow(m: Memory, s: nat, k: nat) {
    s < k && Touched(m, s) && forall t | s < t < k && t / SECTORS_PER_PAGE == s / SECTORS_PER_PAGE :: !Touched(m, t)
  }

  lemma {:induction false} LandedMeans(m: Memory, k: nat, flash: seq<byte>, a: nat, tail: seq<byte>)
    requires a < |flash| && |tail| <= WRITE_SIZE
    ensures var v, page := LandedBelow(m, k, flash, a, tail), a / ERASE_SIZE;
            if !PageTouchedBelow(m, page, k) then v == flash[a]
            else if a % ERASE_SIZE >= WRITE_SIZE then v == ERASED
            else exists s: nat :: LastBelow(m, s, k) && s / SECTORS_PER_PAGE == page
                             && v == Shifted(Padded(m, s), tail)[a % ERASE_SIZE]
  {
    if k > 0 {
      var page := a / ERASE_SIZE;
      LandedMeans(m, k - 1, flash, a, tail);
      PageGrows(m, page, k - 1);
      if Touched(m, k - 1) && (k - 1) / SECTORS_PER_PAGE == page {
        assert LastBelow(m, k - 1, k);
      } else if PageTouchedBelow(m, page, k) && a % ERASE_SIZE < WRITE_SIZE {
        var s: nat :| LastBelow(m, s, k - 1) && s / SECTORS_PER_PAGE == page
                 && LandedBelow(m, k - 1, flash, a, tail) == Shifted(Padded(m, s), tail)[a % ERASE_SIZE];
        assert LastBelow(m, s, k);
      }
    }
  }

  lemma {:induction false} RunPlaced(m: Memory, k: nat, header: nat, tail: seq<byte>, flash: seq<byte>, a: nat)
    requires a < |flash| && |tail| <= WRITE_SIZE
    ensures Run(Overwriting, flash, Placed(TraceBelow(m, k), header, tail))[a] == LandedBelow(m, k, flash, a, tail)
  {
    hide TraceBelow, Placed, LandedBelow, Run;
    if k == 0 {
      NothingLanded(m, header, tail, flash, a);
    } else {
      RunPlaced(m, k - 1, header, tail, flash, a);
      RunPlacedSector(m, k - 1, header, tail, flash, a);
      assert k - 1 + 1 == k;
    }
  }

  lemma NothingLanded(m: Memory, header: nat, tail: seq<byte>, flash: seq<byte>, a: nat)
    requires a < |flash| && |tail| <= WRITE_SIZE
    ensures Run(Overwriting, flash, Placed(TraceBelow(m, 0), header, tail))[a] == LandedBelow(m, 0, flash, a, tail)
  {
  }

  lemma RunPlacedSector(m: Memory, s: nat, header: nat, tail: seq<byte>, flash: seq<byte>, a: nat)
    requires a < |flash| && |tail| <= WRITE_SIZE
    requires Run(Overwriting, flash, Placed(TraceBelow(m, s), header, tail))[a] == LandedBelow(m, s, flash, a, tail)
    ensures Run(Overwriting, flash, Placed(TraceBelow(m, s + 1), header, tail))[a] == LandedBelow(m, s + 1, flash, a, tail)
  {
    var placed, stored := Placed(TraceBelow(m, s), header, tail), Shifted(Padded(m, s), tail);
    TraceStep(m, s);
    LandedMeans(m, s, flash, a, tail);
    if Touched(m, s) {
      SectorPlaced(m, s, header, tail);
      hide Placed, TraceBelow, Touched, Padded, Shifted, Run, WriteAt, EraseAt;
      RunSectorStored(flash, placed, EraseFor(m, s), s / SECTORS_PER_PAGE, stored, a);
    }
  }

  lemma RunSectorStored(flash: seq<byte>, before: seq<Action>, erase: seq<Action>, page: nat, stored: Sector, a: nat)
    requires a < |flash| && (erase == [] || erase == [Erase(ERASE_SIZE * page)])
    ensures Run(Overwriting, flash, before + erase + [Write(ERASE_SIZE * page, stored)])[a] ==
            if a / ERASE_SIZE != page then Run(Overwriting, flash, before)[a]
            else if a % ERASE_SIZE < WRITE_SIZE then stored[a % ERASE_SIZE]
            else if erase == [] then Run(Overwriting, flash, before)[a] else ERASED
  {
    hide *;
    var was, write := Run(Overwriting, flash, before), Write(ERASE_SIZE * page, stored);
    RunAppend(Overwriting, flash, before + erase, write);
    if erase == [] {
      assert before + erase == before;
      PageStored(was, page, stored, a);
    } else {
      RunAppend(Overwriting, flash, before, Erase(ERASE_SIZE * page));
      PageStored(Perform(Overwriting, was, Erase(ERASE_SIZE * page)), page, stored, a);
      PageErased(was, page, a);
    }
  }

  lemma PageStored(flash: seq<byte>, page: nat, stored: Sector, a: nat)
    requires a < |flash|
    ensures Perform(Overwriting, flash, Write(ERASE_SIZE * page, stored))[a] ==
            if a / ERASE_SIZE == page && a % ERASE_SIZE < WRITE_SIZE then stored[a % ERASE_SIZE] else flash[a]
  {
  }

  lemma PageErased(flash: seq<byte>, page: nat, a: nat)
    requires a < |flash|
    ensures Perform(Overwriting, flash, Erase(ERASE_SIZE * page))[a] == if a / ERASE_SIZE == page then ERASED else flash[a]
  {
  }

  /** The last touched sector of its page. */
  ghost predicate IsLast(m: Memory, s: nat) {
    Touched(m, s) && forall t | s < t && t / SECTORS_PER_PAGE == s / SECTORS_PER_PAGE :: !Touched(m, t)
  }

  /** What the calls of a canonical trace leave: at the start of each touched page the padded
      content of its last touched sector, shifted; the rest of it erased; all else unchanged. */
  lemma LandedEffect(m: Memory, header: nat, tail: seq<byte>, flash: seq<byte>, a: nat)
    requires Within(m, ADDRESS_SPACE) && a < |flash| && |tail| <= WRITE_SIZE
    ensures var v := Run(Overwriting, flash, Placed(CanonicalTrace(m), header, tail))[a];
            if !(exists b :: b in m && b / ERASE_SIZE == a / ERASE_SIZE) then v == flash[a]
            else if a % ERASE_SIZE >= WRITE_SIZE then v == ERASED
            else exists s: nat :: IsLast(m, s) && s / SECTORS_PER_PAGE == a / ERASE_SIZE
                                  && v == Shifted(Padded(m, s), tail)[a % ERASE_SIZE]
  {
    hide Run, Placed, TraceBelow, LandedBelow, Shifted, Padded, LastBelow, IsLast, PageTouchedBelow;
    RunPlaced(m, SECTOR_COUNT, header, tail, flash, a);
    LandedMeans(m, SECTOR_COUNT, flash, a, tail);
    TouchedOverall(m, a / ERASE_SIZE);
    forall s: nat ensures LastBelow(m, s, SECTOR_COUNT) ==> IsLast(m, s) {
      LastOfAll(m, s);
    }
  }

  lemma TouchedOverall(m: Memory, page: nat)
    requires Within(m, ADDRESS_SPACE)
    ensures PageTouchedBelow(m, page, SECTOR_COUNT) <==> exists b :: b in m && b / ERASE_SIZE == page
  {
    if b :| b in m && b / ERASE_SIZE == page {
      assert b < WRITE_SIZE * SECTOR_COUNT;
    }
  }

  lemma LastOfAll(m: Memory, s: nat)
    requires Within(m, ADDRESS_SPACE)
    ensures LastBelow(m, s, SECTOR_COUNT) ==> IsLast(m, s)
  {
    forall t: nat | t >= SECTOR_COUNT ensures !Touched(m, t) {
    }
  }

  // ---------------------------------------------------------------- what the device then holds

  ghost predicate Holds(m: Memory, flash: seq<byte>)
    requires Within(m, |flash|)
  {
    forall a | a in m :: flash[a] == m[a]
  }

  /** The page of `a` has an image byte outside its first sector. */
  ghost predicate PageGoesOn(m: Memory, a: nat) {
    exists b :: b in m && b / ERASE_SIZE == a / ERASE_SIZE && b % ERASE_SIZE >= WRITE_SIZE
  }

  /** The image byte at `a` survives: outside the first sector of its page it has to be 0xFF, at
      the end of that sector it has to be in the tail, and before that it has to be the byte that
      the padding puts in its place. */
  ghost predicate Kept(m: Memory, a: nat, tail: seq<byte>)
    requires a in m && |tail| <= WRITE_SIZE
  {
    var offset, own := a % ERASE_SIZE, WRITE_SIZE - |tail|;
    m[a] == if offset >= WRITE_SIZE then ERASED
            else if offset >= own then tail[offset - own]
            else if PageGoesOn(m, a) || a + |tail| !in m then ERASED
            else m[a + |tail|]
  }

  /** The device ends up with the image exactly when every one of its bytes is kept. */
  lemma HeldExactly(m: Memory, header: nat, tail: seq<byte>, flash: seq<byte>)
    requires Within(m, |flash|) && |flash| <= ADDRESS_SPACE && |tail| <= WRITE_SIZE
    ensures Holds(m, Run(Overwriting, flash, Placed(CanonicalTrace(m), header, tail))) <==>
            forall a | a in m :: Kept(m, a, tail)
  {
    hide Placed, CanonicalTrace, Run, IsLast, Shifted, Padded, PageGoesOn;
    var after := Run(Overwriting, flash, Placed(CanonicalTrace(m), header, tail));
    forall a | a in m ensures a % ERASE_SIZE >= WRITE_SIZE ==> after[a] == ERASED {
      LandedEffect(m, header, tail, flash, a);
    }
    if forall a | a in m && a % ERASE_SIZE >= WRITE_SIZE :: m[a] == ERASED {
      forall a | a in m ensures after[a] == m[a] <==> Kept(m, a, tail) {
        LandedEffect(m, header, tail, flash, a);
        if a % ERASE_SIZE < WRITE_SIZE {
          LandedByte(m, a, tail, after[a]);
        }
      }
    }
  }

  /** Without padding: exactly when no page, other than one whose image bytes are all 0xFF, has an
      image byte outside its first sector. */
  lemma HeldUnpadded(m: Memory, header: nat, flash: seq<byte>)
    requires Within(m, |flash|) && |flash| <= ADDRESS_SPACE
    ensures Holds(m, Run(Overwriting, flash, Placed(CanonicalTrace(m), header, []))) <==>
            forall a | a in m && PageGoesOn(m, a) :: m[a] == ERASED
  {
    HeldExactly(m, header, [], flash);
    forall a | a in m ensures Kept(m, a, []) <==> (PageGoesOn(m, a) ==> m[a] == ERASED) {
      assert a % ERASE_SIZE >= WRITE_SIZE ==> PageGoesOn(m, a);
    }
    hide Holds, Kept, PageGoesOn, Run, Placed, CanonicalTrace;
  }

  /** What the last write leaves at `a`, when the later bytes of pages are 0xFF. */
  lemma LandedByte(m: Memory, a: nat, tail: seq<byte>, v: byte)
    requires a in m && a % ERASE_SIZE < WRITE_SIZE && |tail| <= WRITE_SIZE
    requires forall b | b in m && b % ERASE_SIZE >= WRITE_SIZE :: m[b] == ERASED
    requires exists s: nat :: IsLast(m, s) && s / SECTORS_PER_PAGE == a / ERASE_SIZE
                              && v == Shifted(Padded(m, s), tail)[a % ERASE_SIZE]
    ensures v == m[a] <==> Kept(m, a, tail)
  {
    hide IsLast, Padded, PageGoesOn;
    var s: nat :| IsLast(m, s) && s / SECTORS_PER_PAGE == a / ERASE_SIZE
                  && v == Shifted(Padded(m, s), tail)[a % ERASE_SIZE];
    var k := a % ERASE_SIZE + |tail|;
    if k < WRITE_SIZE {
      PaddedAt(m, s, k);
      if PageGoesOn(m, a) {
        LaterSector(m, a, s, k);
      } else {
        FirstSector(m, a, s, k);
      }
    }
  }

  /** If the page goes on, its last touched sector is not the first. */
  lemma LaterSector(m: Memory, a: nat, s: nat, k: nat)
    requires PageGoesOn(m, a) && IsLast(m, s) && s / SECTORS_PER_PAGE == a / ERASE_SIZE && k < WRITE_SIZE
    ensures (WRITE_SIZE * s + k) % ERASE_SIZE >= WRITE_SIZE
  {
    var b :| b in m && b / ERASE_SIZE == a / ERASE_SIZE && b % ERASE_SIZE >= WRITE_SIZE;
    var page, t := b / ERASE_SIZE, b / WRITE_SIZE;
    assert Touched(m, t);
    assert b == ERASE_SIZE * page + b % ERASE_SIZE;
    assert SECTORS_PER_PAGE * page < t < SECTORS_PER_PAGE * page + SECTORS_PER_PAGE;
    assert t / SECTORS_PER_PAGE == page;
    assert t <= s < SECTORS_PER_PAGE * page + SECTORS_PER_PAGE;
    InPageOffset(page, WRITE_SIZE * s + k - ERASE_SIZE * page);
  }

  lemma InPageOffset(page: nat, offset: nat)
    requires offset < ERASE_SIZE
    ensures (ERASE_SIZE * page + offset) % ERASE_SIZE == offset && (ERASE_SIZE * page + offset) / ERASE_SIZE == page
  {
  }

  /** If it does not, the last touched sector is the first. */
  lemma FirstSector(m: Memory, a: nat, s: nat, k: nat)
    requires a in m && !PageGoesOn(m, a) && IsLast(m, s) && s / SECTORS_PER_PAGE == a / ERASE_SIZE
    requires a % ERASE_SIZE <= k < WRITE_SIZE
    ensures WRITE_SIZE * s + k == a + (k - a % ERASE_SIZE)
  {
    var c :| c in m && c / WRITE_SIZE == s;
    var page := a / ERASE_SIZE;
    assert SECTORS_PER_PAGE * page <= s < SECTORS_PER_PAGE * page + SECTORS_PER_PAGE;
    InPageOffset(page, c - ERASE_SIZE * page);
    assert c % ERASE_SIZE < WRITE_SIZE;
    assert s == SECTORS_PER_PAGE * page;
  }

  /** A byte in each of the first two sectors of a page. */
  const TWO_SECTORS: Memory := map[0 := 0x12, 64 := 0x34]

  /** The second is missing from its place, and the first is overwritten: by the second, or by the
      padding of the record. */
  lemma TwoSectorsLanded(header: nat, tail: seq<byte>, flash: seq<byte>)
    requires |flash| > 64 && |tail| < WRITE_SIZE
    ensures var after := Run(Overwriting, flash, Placed(CanonicalTrace(TWO_SECTORS), header, tail));
            after[64] == ERASED && after[0] == if tail == [] then 0x34 else ERASED
  {
    hide Run, Placed, CanonicalTrace;
    var m := TWO_SECTORS;
    assert 0 in m && 64 in m;
    LandedEffect(m, header, tail, flash, 0);
    LandedEffect(m, header, tail, flash, 64);
    hide IsLast, Padded, Shifted;
    forall s: nat | IsLast(m, s) && s / SECTORS_PER_PAGE == 0
      ensures Shifted(Padded(m, s), tail)[0] == if tail == [] then 0x34 else ERASED
    {
      SecondIsLast(s, tail);
    }
  }

  lemma SecondIsLast(s: nat, tail: seq<byte>)
    requires IsLast(TWO_SECTORS, s) && s / SECTORS_PER_PAGE == 0 && |tail| < WRITE_SIZE
    ensures Shifted(Padded(TWO_SECTORS, s), tail)[0] == if tail == [] then 0x34 else ERASED
  {
    assert 64 in TWO_SECTORS;
    assert Touched(TWO_SECTORS, 1);
    assert s == 1;
  }

  /** One byte at the start of a page, where no write goes to a wrong address. */
  const ONE_BYTE: Memory := map[0 := 0x12]

  /** With padding it is lost all the same. */
  lemma OneByteLanded(header: nat, tail: seq<byte>, flash: seq<byte>)
    requires |flash| > 0 && 0 < |tail| < WRITE_SIZE
    ensures Run(Overwriting, flash, Placed(CanonicalTrace(ONE_BYTE), header, tail))[0] == ERASED
  {
    hide Run, Placed, CanonicalTrace;
    assert 0 in ONE_BYTE;
    LandedEffect(ONE_BYTE, header, tail, flash, 0);
    hide IsLast, Padded, Shifted;
    forall s: nat | IsLast(ONE_BYTE, s) ensures Shifted(Padded(ONE_BYTE, s), tail)[0] == ERASED {
      OnlyIsLast(s, tail);
    }
  }

  lemma OnlyIsLast(s: nat, tail: seq<byte>)
    requires IsLast(ONE_BYTE, s) && 0 < |tail| < WRITE_SIZE
    ensures Shifted(Padded(ONE_BYTE, s), tail)[0] == ERASED
  {
    assert s == 0;
  }

  // ---------------------------------------------------------------- acceptance

  lemma {:induction false} SelectedAcceptable(t: seq<Action>, limit: nat)
    requires (forall act | act in t :: Acceptable(act, limit)) && limit >= WRITE_SIZE
    ensures Selected(t, 0) % WRITE_SIZE == 0 && Selected(t, 0) + WRITE_SIZE <= limit
  {
    if t != [] {
      assert t[|t| - 1] in t;
      match t[|t| - 1] {
        case Erase(p) => PageIsSector(p);
        case Write(_, _) => SelectedAcceptable(t[..|t| - 1], limit);
      }
    }
  }

  lemma PageIsSector(p: nat)
    requires p % ERASE_SIZE == 0
    ensures p % WRITE_SIZE == 0
  {
  }

  /** Calls that start from header address 0 are all taken by a device that takes the actions. */
  lemma {:induction false} PlacedAcceptable(t: seq<Action>, tail: seq<byte>, limit: nat)
    requires (forall act | act in t :: Acceptable(act, limit)) && |tail| <= WRITE_SIZE
    ensures forall k | 0 <= k < |t| :: Acceptable(Placed(t, 0, tail)[k], limit)
  {
    if t != [] {
      var n := |t| - 1;
      assert t[n] in t;
      SelectedAcceptable(t[..n], limit);
      PlacedAcceptable(t[..n], tail, limit);
    }
  }
}
