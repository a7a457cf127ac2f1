/** The erase/write sequence a memory map calls for, defined without reference to how the
    map was assembled, and what running it does to the flash. */
module Canonical {
  import opened Bytes
  import opened Flash

  /** Which byte belongs at which address. */
  type Memory = map<nat, byte>

  const SECTORS_PER_PAGE: nat := 16

  ghost predicate Touched(m: Memory, sector: nat) {
    exists a :: a in m && a / WRITE_SIZE == sector
  }

  /** Some byte of `page` lies in a sector numbered below `k`. */
  ghost predicate PageTouchedBelow(m: Memory, page: nat, k: nat) {
    exists a :: a in m && a / ERASE_SIZE == page && a < WRITE_SIZE * k
  }

  /** The sector's bytes, with 0xFF wherever the map has none. */
  ghost function Padded(m: Memory, sector: nat): Sector {
    seq(WRITE_SIZE, i requires 0 <= i < WRITE_SIZE =>
      var a := WRITE_SIZE * sector + i; if a in m then m[a] else ERASED)
  }

  /** The erase that precedes the first touched sector of each page. */
  ghost function EraseFor(m: Memory, sector: nat): seq<Action> {
    var page := sector / SECTORS_PER_PAGE;
    if PageTouchedBelow(m, page, sector) then [] else [Erase(ERASE_SIZE * page)]
  }

  ghost function SectorActions(m: Memory, sector: nat): seq<Action> {
    if Touched(m, sector) then EraseFor(m, sector) + [Write(WRITE_SIZE * sector, Padded(m, sector))] else []
  }

  /** The actions of all sectors numbered below `k`, in ascending order. */
  ghost function TraceBelow(m: Memory, k: nat): seq<Action> {
    if k == 0 then [] else TraceBelow(m, k - 1) + SectorActions(m, k - 1)
  }

  const ADDRESS_SPACE: nat := TWO_32
  const SECTOR_COUNT: nat := ADDRESS_SPACE / WRITE_SIZE

  /** The trace of a map that lies within the 32-bit address space. */
  ghost function CanonicalTrace(m: Memory): seq<Action> {
    TraceBelow(m, SECTOR_COUNT)
  }

  ghost predicate Within(m: Memory, limit: nat) {
    forall a :: a in m ==> a < limit
  }

  ghost predicate AgreeBelow(m: Memory, m': Memory, limit: nat) {
    forall a: nat :: a < limit ==> ((a in m) == (a in m')) && (a in m ==> m[a] == m'[a])
  }

  lemma SectorPage(a: nat)
    ensures a / ERASE_SIZE == a / WRITE_SIZE / SECTORS_PER_PAGE
  {
  }

  lemma TouchedIsNumbered(m: Memory, s: nat)
    requires Touched(m, s) && Within(m, ADDRESS_SPACE)
    ensures s < SECTOR_COUNT
  {
  }

  // ---------------------------------------------------------------- locality of the trace

  lemma {:induction false} TraceLocal(m: Memory, m': Memory, k: nat)
    requires AgreeBelow(m, m', WRITE_SIZE * k)
    ensures TraceBelow(m, k) == TraceBelow(m', k)
  {
    if k > 0 {
      var s := k - 1;
      TraceLocal(m, m', s);
      SectorLocal(m, m', s);
    }
  }

  lemma SectorLocal(m: Memory, m': Memory, s: nat)
    requires AgreeBelow(m, m', WRITE_SIZE * (s + 1))
    ensures Touched(m, s) == Touched(m', s)
    ensures EraseFor(m, s) == EraseFor(m', s)
    ensures Padded(m, s) == Padded(m', s)
  {
  }

  lemma EraseLocal(m: Memory, m': Memory, s: nat)
    requires AgreeBelow(m, m', WRITE_SIZE * s)
    ensures EraseFor(m, s) == EraseFor(m', s)
  {
  }

  /** Sectors at and above the last touched one add nothing. */
  lemma {:induction false} TraceStops(m: Memory, k: nat, k': nat)
    requires k <= k' && Within(m, WRITE_SIZE * k)
    ensures TraceBelow(m, k') == TraceBelow(m, k)
    decreases k'
  {
    if k < k' {
      TraceStops(m, k, k' - 1);
      assert !Touched(m, k' - 1);
    }
  }

  // ---------------------------------------------------------------- effect on the flash

  /** What the flash holds at `a` once the sectors below `k` have been dealt with. */
  ghost function ExpectedBelow(m: Memory, k: nat, flash: seq<byte>, a: nat): byte
    requires a < |flash|
  {
    if a in m && a < WRITE_SIZE * k then m[a]
    else if PageTouchedBelow(m, a / ERASE_SIZE, k) then ERASED
    else flash[a]
  }

  lemma {:induction false} RunTraceBelow(cell: Cell, m: Memory, k: nat, flash: seq<byte>, a: nat)
    requires a < |flash|
    ensures Run(cell, flash, TraceBelow(m, k))[a] == ExpectedBelow(m, k, flash, a)
  {
    hide TraceBelow, Run, ExpectedBelow;
    if k == 0 {
      RunNothing(cell, m, flash, a);
    } else {
      RunTraceBelow(cell, m, k - 1, flash, a);
      RunSector(cell, m, k - 1, flash, a);
      assert k - 1 + 1 == k;
    }
  }

  lemma RunNothing(cell: Cell, m: Memory, flash: seq<byte>, a: nat)
    requires a < |flash|
    ensures Run(cell, flash, TraceBelow(m, 0))[a] == ExpectedBelow(m, 0, flash, a)
  {
  }

  /** The trace grows by an optional erase, then a write. */
  lemma TraceStep(m: Memory, s: nat)
    ensures Touched(m, s) ==>
              TraceBelow(m, s + 1) == TraceBelow(m, s) + EraseFor(m, s) + [Write(WRITE_SIZE * s, Padded(m, s))]
    ensures !Touched(m, s) ==> TraceBelow(m, s + 1) == TraceBelow(m, s)
    ensures PageTouchedBelow(m, s / SECTORS_PER_PAGE, s) ==> TraceBelow(m, s) + EraseFor(m, s) == TraceBelow(m, s)
  {
  }

  /** One more sector: erasing its page destroys nothing that was written. */
  lemma RunSector(cell: Cell, m: Memory, s: nat, flash: seq<byte>, a: nat)
    requires a < |flash|
    requires Run(cell, flash, TraceBelow(m, s))[a] == ExpectedBelow(m, s, flash, a)
    ensures Run(cell, flash, TraceBelow(m, s + 1))[a] == ExpectedBelow(m, s + 1, flash, a)
  {
    TraceStep(m, s);
    if Touched(m, s) {
      RunErase(cell, m, s, flash, a);
      RunWrite(cell, m, s, Run(cell, flash, TraceBelow(m, s) + EraseFor(m, s)), a);
      RunAppend(cell, flash, TraceBelow(m, s) + EraseFor(m, s), Write(WRITE_SIZE * s, Padded(m, s)));
    }
    ExpectedStep(m, s, flash, a);
  }

  lemma PaddedAt(m: Memory, s: nat, k: nat)
    requires k < WRITE_SIZE
    ensures var c := WRITE_SIZE * s + k; Padded(m, s)[k] == if c in m then m[c] else ERASED
  {
  }

  lemma RunWrite(cell: Cell, m: Memory, s: nat, flash: seq<byte>, a: nat)
    requires a < |flash| && (a / WRITE_SIZE == s ==> flash[a] == ERASED)
    ensures WriteAt(cell, flash, WRITE_SIZE * s, Padded(m, s))[a] ==
            if a / WRITE_SIZE != s then flash[a] else if a in m then m[a] else ERASED
  {
    hide Padded, Cell.Program;
    SectorRange(a, s);
    if a / WRITE_SIZE == s {
      PaddedAt(m, s, a - WRITE_SIZE * s);
      ErasedCellTakesByte(cell, Padded(m, s)[a - WRITE_SIZE * s]);
    }
  }

  lemma SectorRange(a: nat, s: nat)
    ensures a / WRITE_SIZE == s <==> WRITE_SIZE * s <= a < WRITE_SIZE * s + WRITE_SIZE
  {
  }

  lemma ExpectedStep(m: Memory, s: nat, flash: seq<byte>, a: nat)
    requires a < |flash|
    ensures ExpectedBelow(m, s + 1, flash, a) ==
            if a / WRITE_SIZE == s && a in m then m[a]
            else if a in m && a < WRITE_SIZE * s then m[a]
            else if PageTouchedBelow(m, a / ERASE_SIZE, s)
                 || (Touched(m, s) && a / ERASE_SIZE == s / SECTORS_PER_PAGE) then ERASED
            else flash[a]
  {
  }

  lemma PageGrows(m: Memory, page: nat, s: nat)
    ensures PageTouchedBelow(m, page, s) ==> PageTouchedBelow(m, page, s + 1)
    ensures PageTouchedBelow(m, page, s + 1) ==>
              PageTouchedBelow(m, page, s) || (Touched(m, s) && page == s / SECTORS_PER_PAGE)
  {
  }

  lemma RunErase(cell: Cell, m: Memory, s: nat, flash: seq<byte>, a: nat)
    requires a < |flash|
    requires Run(cell, flash, TraceBelow(m, s))[a] == ExpectedBelow(m, s, flash, a)
    ensures Run(cell, flash, TraceBelow(m, s) + EraseFor(m, s))[a] ==
            if a in m && a < WRITE_SIZE * s then m[a]
            else if PageTouchedBelow(m, a / ERASE_SIZE, s) || a / ERASE_SIZE == s / SECTORS_PER_PAGE then ERASED
            else flash[a]
  {
    var page := s / SECTORS_PER_PAGE;
    var before := TraceBelow(m, s);
    if PageTouchedBelow(m, page, s) {
      assert before + EraseFor(m, s) == before;
    } else {
      RunAppend(cell, flash, before, Erase(ERASE_SIZE * page));
      assert a / ERASE_SIZE == page <==> ERASE_SIZE * page <= a < ERASE_SIZE * page + ERASE_SIZE;
    }
  }

  /** Every image address ends up with its image byte, every other byte of a touched page
      is erased and everything else keeps its value, whichever way cells are programmed. */
  lemma CanonicalEffect(cell: Cell, m: Memory, flash: seq<byte>, a: nat)
    requires Within(m, ADDRESS_SPACE) && a < |flash|
    ensures Run(cell, flash, CanonicalTrace(m))[a] ==
            if a in m then m[a]
            else if exists b :: b in m && b / ERASE_SIZE == a / ERASE_SIZE then ERASED
            else flash[a]
  {
    RunTraceBelow(cell, m, SECTOR_COUNT, flash, a);
    if b :| b in m && b / ERASE_SIZE == a / ERASE_SIZE {
      assert b < WRITE_SIZE * SECTOR_COUNT;
      assert PageTouchedBelow(m, a / ERASE_SIZE, SECTOR_COUNT);
    }
  }

  // ---------------------------------------------------------------- discipline and cost

  /** `x` may come before `y`: erases and writes ascend, a page is erased before its sectors
      are written, and nothing is erased or rewritten afterwards. */
  predicate MayPrecede(x: Action, y: Action) {
    match (x, y)
    case (Erase(p), Erase(q)) => p + ERASE_SIZE <= q
    case (Write(p, _), Write(q, _)) => p + WRITE_SIZE <= q
    case (Erase(p), Write(q, _)) => p <= q
    case (Write(p, _), Erase(q)) => p + WRITE_SIZE <= q
  }

  ghost predicate Ordered(t: seq<Action>) {
    forall i, j | 0 <= i < j < |t| :: MayPrecede(t[i], t[j])
  }

  /** Every write falls in a page erased earlier in the trace. */
  ghost predicate ErasedFirst(t: seq<Action>) {
    forall j | 0 <= j < |t| && t[j].Write? ::
      Erase(t[j].address / ERASE_SIZE * ERASE_SIZE) in t[..j]
  }

  /** The actions are aligned and lie inside the first `limit` bytes. */
  predicate Acceptable(act: Action, limit: nat) {
    match act
    case Erase(p) => p % ERASE_SIZE == 0 && p + ERASE_SIZE <= limit
    case Write(p, _) => p % WRITE_SIZE == 0 && p + WRITE_SIZE <= limit
  }

  /** All of an action's sector lies below sector `k` (a page may begin below it). */
  predicate StartsBelow(act: Action, k: nat) {
    match act
    case Erase(p) => p / ERASE_SIZE <= (k - 1) / SECTORS_PER_PAGE && k > 0
    case Write(p, _) => p + WRITE_SIZE <= WRITE_SIZE * k
  }

  lemma {:induction false} TraceStartsBelow(m: Memory, k: nat)
    ensures forall act | act in TraceBelow(m, k) :: StartsBelow(act, k)
    ensures forall act | act in TraceBelow(m, k) && act.Erase? ::
              act.address % ERASE_SIZE == 0 && PageTouchedBelow(m, act.address / ERASE_SIZE, k)
  {
    if k > 0 {
      TraceStartsBelow(m, k - 1);
      forall act | act in TraceBelow(m, k)
        ensures StartsBelow(act, k)
        ensures act.Erase? ==> act.address % ERASE_SIZE == 0 && PageTouchedBelow(m, act.address / ERASE_SIZE, k)
      {
        if act in TraceBelow(m, k - 1) {
          if act.Erase? { PageGrows(m, act.address / ERASE_SIZE, k - 1); }
        } else {
          assert act in SectorActions(m, k - 1);
          var t :| t in m && t / WRITE_SIZE == k - 1;
          assert t / ERASE_SIZE == (k - 1) / SECTORS_PER_PAGE && t < WRITE_SIZE * k;
        }
      }
    }
  }

  lemma OrderedAppend(t: seq<Action>, act: Action)
    requires Ordered(t) && forall x | x in t :: MayPrecede(x, act)
    ensures Ordered(t + [act])
  {
  }

  lemma {:induction false} TraceOrdered(m: Memory, k: nat)
    ensures Ordered(TraceBelow(m, k))
  {
    hide TraceBelow, Ordered;
    if k == 0 {
      NothingOrdered(m);
    } else {
      TraceOrdered(m, k - 1);
      OrderedStep(m, k - 1);
      assert k - 1 + 1 == k;
    }
  }

  lemma NothingOrdered(m: Memory)
    ensures Ordered(TraceBelow(m, 0))
  {
  }

  lemma OrderedStep(m: Memory, s: nat)
    requires Ordered(TraceBelow(m, s))
    ensures Ordered(TraceBelow(m, s + 1))
  {
    hide TraceBelow, Ordered, Touched, PageTouchedBelow, Padded;
    var page := s / SECTORS_PER_PAGE;
    TraceStep(m, s);
    if Touched(m, s) {
      if !PageTouchedBelow(m, page, s) {
        WritesBelowPage(m, s);
        OrderedAppend(TraceBelow(m, s), Erase(ERASE_SIZE * page));
      }
      TraceStartsBelow(m, s);
      OrderedAppend(TraceBelow(m, s) + EraseFor(m, s), Write(WRITE_SIZE * s, Padded(m, s)));
    }
  }

  /** Before a page is first touched, everything written or erased lies below it. */
  lemma WritesBelowPage(m: Memory, s: nat)
    requires !PageTouchedBelow(m, s / SECTORS_PER_PAGE, s)
    ensures forall x | x in TraceBelow(m, s) :: MayPrecede(x, Erase(ERASE_SIZE * (s / SECTORS_PER_PAGE)))
  {
    hide TraceBelow, PageTouchedBelow, Touched;
    TraceStartsBelow(m, s);
    TraceWrites(m, s);
    forall x | x in TraceBelow(m, s) ensures MayPrecede(x, Erase(ERASE_SIZE * (s / SECTORS_PER_PAGE))) {
      match x {
        case Erase(p) => PageBefore(m, s, p);
        case Write(p, _) => SectorBeforePage(m, s, p);
      }
    }
  }

  lemma PageBefore(m: Memory, s: nat, p: nat)
    requires !PageTouchedBelow(m, s / SECTORS_PER_PAGE, s) && p % ERASE_SIZE == 0
    requires PageTouchedBelow(m, p / ERASE_SIZE, s) && StartsBelow(Erase(p), s)
    ensures p + ERASE_SIZE <= ERASE_SIZE * (s / SECTORS_PER_PAGE)
  {
    var page := s / SECTORS_PER_PAGE;
    assert p / ERASE_SIZE <= (s - 1) / SECTORS_PER_PAGE <= page;
    assert p / ERASE_SIZE != page;
    hide PageTouchedBelow;
    assert p == ERASE_SIZE * (p / ERASE_SIZE);
  }

  lemma SectorBeforePage(m: Memory, s: nat, p: nat)
    requires !PageTouchedBelow(m, s / SECTORS_PER_PAGE, s) && p % WRITE_SIZE == 0
    requires Touched(m, p / WRITE_SIZE) && p + WRITE_SIZE <= WRITE_SIZE * s
    ensures p + WRITE_SIZE <= ERASE_SIZE * (s / SECTORS_PER_PAGE)
  {
    var page, t := s / SECTORS_PER_PAGE, p / WRITE_SIZE;
    assert p == WRITE_SIZE * t && t < s;
    var a :| a in m && a / WRITE_SIZE == t;
    SectorPage(a);
    assert a < WRITE_SIZE * s;
    assert t / SECTORS_PER_PAGE != page;
    assert t < SECTORS_PER_PAGE * page;
  }

  lemma ErasedFirstAppend(t: seq<Action>, act: Action)
    requires ErasedFirst(t)
    requires act.Write? ==> Erase(act.address / ERASE_SIZE * ERASE_SIZE) in t
    ensures ErasedFirst(t + [act])
  {
    forall j | 0 <= j < |t + [act]| && (t + [act])[j].Write?
      ensures Erase((t + [act])[j].address / ERASE_SIZE * ERASE_SIZE) in (t + [act])[..j]
    {
      assert (t + [act])[..j] == t[..j];
      if j == |t| { assert t[..j] == t; }
    }
  }

  lemma {:induction false} TraceErasesPages(m: Memory, k: nat, page: nat)
    requires PageTouchedBelow(m, page, k)
    ensures Erase(ERASE_SIZE * page) in TraceBelow(m, k)
  {
    assert k > 0;
    PageGrows(m, page, k - 1);
    if PageTouchedBelow(m, page, k - 1) {
      TraceErasesPages(m, k - 1, page);
    } else {
      assert EraseFor(m, k - 1)[0] == Erase(ERASE_SIZE * page);
    }
  }

  lemma {:induction false} TraceErasedFirst(m: Memory, k: nat)
    ensures ErasedFirst(TraceBelow(m, k))
  {
    hide *;
    if k == 0 {
      NothingErased(m);
    } else {
      TraceErasedFirst(m, k - 1);
      ErasedFirstStep(m, k - 1);
      assert k - 1 + 1 == k;
    }
  }

  lemma NothingErased(m: Memory)
    ensures ErasedFirst(TraceBelow(m, 0))
  {
  }

  lemma ErasedFirstStep(m: Memory, s: nat)
    requires ErasedFirst(TraceBelow(m, s))
    ensures ErasedFirst(TraceBelow(m, s + 1))
  {
    hide TraceBelow, ErasedFirst, Touched, Padded;
    var page, write := s / SECTORS_PER_PAGE, Write(WRITE_SIZE * s, Padded(m, s));
    TraceStep(m, s);
    if Touched(m, s) {
      assert WRITE_SIZE * s / ERASE_SIZE == page && write.address / ERASE_SIZE * ERASE_SIZE == ERASE_SIZE * page;
      if PageTouchedBelow(m, page, s) {
        TraceErasesPages(m, s, page);
      } else {
        ErasedFirstAppend(TraceBelow(m, s), Erase(ERASE_SIZE * page));
        assert Erase(ERASE_SIZE * page) in TraceBelow(m, s) + [Erase(ERASE_SIZE * page)];
      }
      ErasedFirstAppend(TraceBelow(m, s) + EraseFor(m, s), write);
    }
  }

  /** The erase/write discipline of every canonical trace. */
  lemma CanonicalDiscipline(m: Memory)
    ensures Ordered(CanonicalTrace(m)) && ErasedFirst(CanonicalTrace(m))
  {
    TraceOrdered(m, SECTOR_COUNT);
    TraceErasedFirst(m, SECTOR_COUNT);
  }

  lemma {:induction false} TraceWrites(m: Memory, k: nat)
    ensures forall act | act in TraceBelow(m, k) && act.Write? ::
              act.address % WRITE_SIZE == 0 && Touched(m, act.address / WRITE_SIZE)
  {
    if k > 0 {
      TraceWrites(m, k - 1);
      TraceStep(m, k - 1);
      assert WRITE_SIZE * (k - 1) / WRITE_SIZE == k - 1;
      hide TraceBelow, Touched;
    }
  }

  /** The device takes every action: aligned, and the whole update inside a flash made of
      complete pages that contains the image. */
  lemma CanonicalAcceptable(m: Memory, size: nat)
    requires Within(m, size) && size % ERASE_SIZE == 0
    ensures forall act | act in CanonicalTrace(m) :: Acceptable(act, size)
  {
    TraceStartsBelow(m, SECTOR_COUNT);
    TraceWrites(m, SECTOR_COUNT);
    hide TraceBelow;
    forall act | act in CanonicalTrace(m) ensures Acceptable(act, size) {
      match act {
        case Erase(p) => PageInside(m, p, size);
        case Write(p, _) => SectorInside(m, p, size);
      }
    }
  }

  lemma PageInside(m: Memory, p: nat, size: nat)
    requires Within(m, size) && size % ERASE_SIZE == 0 && p % ERASE_SIZE == 0
    requires PageTouchedBelow(m, p / ERASE_SIZE, SECTOR_COUNT)
    ensures p + ERASE_SIZE <= size
  {
  }

  lemma SectorInside(m: Memory, p: nat, size: nat)
    requires Within(m, size) && size % ERASE_SIZE == 0 && p % WRITE_SIZE == 0 && Touched(m, p / WRITE_SIZE)
    ensures p + WRITE_SIZE <= size
  {
  }

  ghost function TouchedSectors(m: Memory): set<nat> {
    set a | a in m :: a / WRITE_SIZE
  }

  ghost function TouchedPages(m: Memory): set<nat> {
    set a | a in m :: a / ERASE_SIZE
  }

  function Writes(t: seq<Action>): nat {
    if t == [] then 0 else Writes(t[..|t| - 1]) + (if t[|t| - 1].Write? then 1 else 0)
  }

  function Erases(t: seq<Action>): nat {
    if t == [] then 0 else Erases(t[..|t| - 1]) + (if t[|t| - 1].Erase? then 1 else 0)
  }

  lemma CountAppend(t: seq<Action>, act: Action)
    ensures Writes(t + [act]) == Writes(t) + (if act.Write? then 1 else 0)
    ensures Erases(t + [act]) == Erases(t) + (if act.Erase? then 1 else 0)
  {
  }

  ghost function Restrict(m: Memory, limit: nat): Memory {
    map a | a in m && a < limit :: m[a]
  }

  lemma {:induction false} TraceCost(m: Memory, k: nat)
    ensures Writes(TraceBelow(m, k)) == |TouchedSectors(Restrict(m, WRITE_SIZE * k))|
    ensures Erases(TraceBelow(m, k)) == |TouchedPages(Restrict(m, WRITE_SIZE * k))|
  {
    if k == 0 {
      NoCost(m);
    } else {
      var s := k - 1;
      TraceCost(m, s);
      SectorCost(m, s);
      ActionsCost(m, s);
    }
    hide *;
  }

  lemma NoCost(m: Memory)
    ensures TraceBelow(m, 0) == [] && Writes([]) == Erases([]) == 0
    ensures |TouchedSectors(Restrict(m, 0))| == |TouchedPages(Restrict(m, 0))| == 0
  {
  }

  lemma ActionsCost(m: Memory, s: nat)
    ensures Writes(TraceBelow(m, s + 1)) == Writes(TraceBelow(m, s)) + (if Touched(m, s) then 1 else 0)
    ensures Erases(TraceBelow(m, s + 1)) == Erases(TraceBelow(m, s)) +
              (if Touched(m, s) && !PageTouchedBelow(m, s / SECTORS_PER_PAGE, s) then 1 else 0)
  {
    TraceStep(m, s);
    if Touched(m, s) {
      CountAppend(TraceBelow(m, s), Erase(ERASE_SIZE * (s / SECTORS_PER_PAGE)));
      CountAppend(TraceBelow(m, s) + EraseFor(m, s), Write(WRITE_SIZE * s, Padded(m, s)));
    }
  }

  lemma SectorCost(m: Memory, s: nat)
    ensures |TouchedSectors(Restrict(m, WRITE_SIZE * (s + 1)))| ==
            |TouchedSectors(Restrict(m, WRITE_SIZE * s))| + (if Touched(m, s) then 1 else 0)
    ensures |TouchedPages(Restrict(m, WRITE_SIZE * (s + 1)))| ==
            |TouchedPages(Restrict(m, WRITE_SIZE * s))| +
              (if Touched(m, s) && !PageTouchedBelow(m, s / SECTORS_PER_PAGE, s) then 1 else 0)
  {
    var was, now := Restrict(m, WRITE_SIZE * s), Restrict(m, WRITE_SIZE * (s + 1));
    assert forall a | a in was :: a in now;
    assert forall a | a in now :: a in was || a / WRITE_SIZE == s;
    if Touched(m, s) {
      var t :| t in m && t / WRITE_SIZE == s;
      assert t in now;
      assert TouchedSectors(now) == TouchedSectors(was) + {s};
      PagesGrow(m, s);
    } else {
      assert was == now;
    }
  }

  lemma PagesGrow(m: Memory, s: nat)
    requires Touched(m, s)
    ensures var was, page := Restrict(m, WRITE_SIZE * s), s / SECTORS_PER_PAGE;
            && TouchedPages(Restrict(m, WRITE_SIZE * (s + 1))) == TouchedPages(was) + {page}
            && (page in TouchedPages(was) <==> PageTouchedBelow(m, page, s))
  {
    var was, now, page := Restrict(m, WRITE_SIZE * s), Restrict(m, WRITE_SIZE * (s + 1)), s / SECTORS_PER_PAGE;
    var t :| t in m && t / WRITE_SIZE == s;
    assert t in now && t / ERASE_SIZE == page;
    assert forall a | a in was :: a in now;
    assert forall a | a in now :: a in was || a / ERASE_SIZE == page;
    if PageTouchedBelow(m, page, s) {
      var a :| a in m && a / ERASE_SIZE == page && a < WRITE_SIZE * s;
      assert a in was;
    }
  }

  /** As many writes as distinct sectors hold image bytes, as many erases as distinct pages do. */
  lemma CanonicalCost(m: Memory)
    requires Within(m, ADDRESS_SPACE)
    ensures Writes(CanonicalTrace(m)) == |TouchedSectors(m)|
    ensures Erases(CanonicalTrace(m)) == |TouchedPages(m)|
  {
    hide TraceBelow, Writes, Erases, TouchedSectors, TouchedPages;
    TraceCost(m, SECTOR_COUNT);
    assert Restrict(m, WRITE_SIZE * SECTOR_COUNT) == m;
    hide Restrict;
  }
}
