/** What unmapping means for translated addresses, and that it undoes mapping. */
module UnmapProperties {
  import opened Wrappers
  import opened PageTables
  import opened AddressSpace
  import opened PagingCursor
  import opened PagingProperties
  import opened UnmapRun

  // ----- Exactly when unmapping succeeds

  ghost function UnmapOutcome(t: Tables, root: nat, address: nat, bytes: nat): Unmapping {
    var level := LeafLevel(t, root, PageOf(address));
    if UnmapRefused(t, root, address) then Refused
    else ClearOutcome(t, root, level, SlotOf(PageOf(address), level), PageCount(bytes, level))
  }

  ghost function ClearOutcome(t: Tables, root: nat, level: nat, s: nat, pages: nat): Unmapping
    requires 1 <= level <= 3
  {
    if NoGap(t, root, level, s, pages) then Unmapped
    else if s + pages >= Slots(level) && NoGap(t, root, level, s, Slots(level) - 1 - s) then OffEnd
    else NoTable
  }

  /** No slot past the last of its level lies in a table. */
  lemma NotHeldBeyond(t: Tables, root: nat, level: nat, m: nat)
    requires 1 <= level <= 3 && m >= Slots(level)
    ensures !Held(t, root, level, m)
  {
    SlotCounts();
    SlotBound(t, root, level + 1, m / 512);
  }

  lemma {:induction false} SlotBound(t: Tables, root: nat, level: nat, n: nat)
    requires 1 <= level <= 4 && n >= Slots(level)
    ensures Slot(t, root, level, n) == ZERO
    decreases 4 - level
  {
    if level < 4 {
      SlotBound(t, root, level + 1, n / 512);
    }
  }

  /** Unmapping succeeds if and only if the first page is mapped, the address is aligned to that mapping's
      size, and every slot of the run and the one after it lie in tables that exist. */
  lemma UnmapEndsAs(t0: Tables, t1: Tables, roots: set<nat>, root: nat, address: nat, bytes: nat, count: nat,
                    r: Unmapping)
    requires UnmapResult(t0, t1, roots, root, address, bytes, count, r)
    ensures r == UnmapOutcome(t0, root, address, bytes)
  {
    var level := LeafLevel(t0, root, PageOf(address));
    if r != Refused {
      ClearEndsAs(t0, root, level, SlotOf(PageOf(address), level), PageCount(bytes, level), count, r);
    }
  }

  lemma ClearEndsAs(t: Tables, root: nat, level: nat, s: nat, pages: nat, count: nat, r: Unmapping)
    requires 1 <= level <= 3 && NoGap(t, root, level, s, count - 1) && r != Refused && count <= pages
    requires r == Unmapped ==> NoGap(t, root, level, s, pages)
    requires r == OffEnd ==> s + count == Slots(level)
    requires r == NoTable ==> 0 < count && s + count < Slots(level) && !Held(t, root, level, s + count)
    requires r == OffEnd ==> count > 0
    ensures r == ClearOutcome(t, root, level, s, pages)
  {
    if r == OffEnd {
      NotHeldBeyond(t, root, level, s + count);
      assert !Held(t, root, level, s + count);
      assert Slots(level) - 1 - s == count - 1;
    }
  }

  /** Main result. An unmapping call is refused if and only if the address is not translated, or not aligned to the size
      of the page it lies on. */
  lemma UnmapRefusedWhen(t0: Tables, nodes0: map<nat, Node>, t1: Tables, roots: set<nat>, root: nat, address: nat,
                         bytes: nat, count: nat, r: Unmapping)
    requires root in roots && Tree(t0, nodes0, roots)
    requires UnmapResult(t0, t1, roots, root, address, bytes, count, r)
    ensures r == Refused <==>
            || Translate(t0, nodes0, roots, root, address) == None
            || address % (if Slot(t0, root, 3, PageOf(address) / 512 / 512).size then 0x4000_0000
                          else if Slot(t0, root, 2, PageOf(address) / 512).size then 0x20_0000 else 0x1000) != 0
  {
    hide Translate;
    TranslateIsLookup(t0, nodes0, roots, root, address);
  }

  /** One that is not refused succeeds if and only if each page of the range and the one after it lie under an entry of
      the level above that is not zero, and steps off the end if and only if the pages of the range reach the end of the
      address space and up to there each lies under such an entry. */
  lemma UnmapEndsWhen(t0: Tables, t1: Tables, roots: set<nat>, root: nat, address: nat, bytes: nat, count: nat,
                      r: Unmapping)
    requires UnmapResult(t0, t1, roots, root, address, bytes, count, r) && r != Refused
    requires 0 < bytes < 0x1_0000_0000_0000_0000
    ensures var page := PageOf(address);
            var (level, n, pages, end) :=
              if Slot(t0, root, 3, page / 512 / 512).size then
                (3, page / 512 / 512, (bytes - 1) / 0x4000_0000 + 1, 0x4_0000)
              else if Slot(t0, root, 2, page / 512).size then
                (2, page / 512, (bytes - 1) / 0x20_0000 + 1, 0x800_0000)
              else (1, page, (bytes - 1) / 0x1000 + 1, 0x10_0000_0000);
            && (r == Unmapped <==> forall m: nat | n < m <= n + pages :: Slot(t0, root, level + 1, m / 512) != ZERO)
            && (r == OffEnd <==> n + pages >= end
                                 && forall m: nat | n < m < end :: Slot(t0, root, level + 1, m / 512) != ZERO)
  {
    hide Slot, UnmapResult, ClearOutcome, PageOf, PageCount, Slots;
    var page := PageOf(address);
    var level := LeafLevel(t0, root, page);
    UpDigits(page);
    SlotCounts();
    CountOf(bytes, level);
    NotRefused(t0, t1, roots, root, address, bytes, count, r);
    ClearedWhen(t0, root, level, SlotOf(page, level), PageCount(bytes, level));
  }

  lemma NotRefused(t0: Tables, t1: Tables, roots: set<nat>, root: nat, address: nat, bytes: nat, count: nat,
                   r: Unmapping)
    requires UnmapResult(t0, t1, roots, root, address, bytes, count, r) && r != Refused
    ensures var level := LeafLevel(t0, root, PageOf(address));
            r == ClearOutcome(t0, root, level, SlotOf(PageOf(address), level), PageCount(bytes, level))
  {
    hide Slot, PageOf, PageCount;
    UnmapEndsAs(t0, t1, roots, root, address, bytes, count, r);
  }

  lemma CountOf(bytes: nat, level: nat)
    requires 1 <= level <= 3 && 0 < bytes < 0x1_0000_0000_0000_0000
    ensures PageCount(bytes, level) == (bytes - 1) / LeafBytes(level, 1) + 1
  {
    assert (bytes + 0xFFFF_FFFF_FFFF_FFFF) % 0x1_0000_0000_0000_0000 == bytes - 1;
  }

  lemma ClearedWhen(t: Tables, root: nat, level: nat, n: nat, pages: nat)
    requires 1 <= level <= 3 && pages > 0
    ensures ClearOutcome(t, root, level, n, pages) == Unmapped <==>
            forall m: nat | n < m <= n + pages :: Slot(t, root, level + 1, m / 512) != ZERO
    ensures ClearOutcome(t, root, level, n, pages) == OffEnd <==>
            && n + pages >= Slots(level)
            && forall m: nat | n < m < Slots(level) :: Slot(t, root, level + 1, m / 512) != ZERO
  {
    hide Slot;
    NoGapIs(t, root, level, n, pages);
    NoGapIs(t, root, level, n, Slots(level) - 1 - n);
    if n + pages >= Slots(level) {
      NotHeldBeyond(t, root, level, n + pages);
      assert !Held(t, root, level, n + pages);
    }
  }

  lemma NoGapIs(t: Tables, root: nat, level: nat, n: nat, count: int)
    requires 1 <= level <= 3
    ensures NoGap(t, root, level, n, count) <==>
            forall m: nat | n < m <= n + count :: Slot(t, root, level + 1, m / 512) != ZERO
  {
    if NoGap(t, root, level, n, count) {
      forall m: nat | n < m <= n + count
        ensures Slot(t, root, level + 1, m / 512) != ZERO
      {
        assert Held(t, root, level, m);
      }
    }
  }

  /** Unmapping the last page of a level-1 table clears it and returns 0 all the same when the next level-1 table
      does not exist. */
  lemma NoTableExample(t: Tables, t1: Tables, root: nat, count: nat)
    requires Slot(t, root, 1, 511) != ZERO && Slot(t, root, 2, 1) == ZERO && !Slot(t, root, 3, 0).size
    ensures UnmapOutcome(t, root, 0x1F_F000, 0x1000) == NoTable
    ensures UnmapResult(t, t1, {root}, root, 0x1F_F000, 0x1000, count, NoTable) ==> Lookup(t1, root, 511) == None
  {
    hide Lookup, Cleared, PageOf, PageCount, LeafBytes, LeafLevel, Slot, Slots, NoGap, UnmapRefused, UnmapResult;
    ExamplePage(t, root);
    NoTableAfter(t, root, 0x1F_F000, 0x1000);
    if UnmapResult(t, t1, {root}, root, 0x1F_F000, 0x1000, count, NoTable) {
      NoTableCleared(t, t1, root, 0x1F_F000, 0x1000, count);
      ClearedLast(t, t1, root);
    }
  }

  /** Such tables: an address space with page 511 alone, as left by mapping and unmapping 2 MiB behind it. */
  function PageAlone(): Tables {
    map[0x1000 := EMPTY[0 := PointerTo(0x2000)], 0x2000 := EMPTY[0 := PointerTo(0x3000)],
        0x3000 := EMPTY[0 := PointerTo(0x4000)], 0x4000 := EMPTY[511 := Entry(0x5000, true, true, false, false)]]
  }

  lemma PageAloneSlots()
    ensures var t := PageAlone();
            Slot(t, 0x1000, 1, 511) != ZERO && Slot(t, 0x1000, 2, 1) == ZERO && !Slot(t, 0x1000, 3, 0).size
  {
    var t := PageAlone();
    assert Slot(t, 0x1000, 4, 0) == PointerTo(0x2000);
    assert Slot(t, 0x1000, 3, 0) == PointerTo(0x3000);
    assert Slot(t, 0x1000, 2, 0) == PointerTo(0x4000);
    assert Slot(t, 0x1000, 2, 1) == ZERO;
  }

  lemma ExamplePage(t: Tables, root: nat)
    requires Slot(t, root, 1, 511) != ZERO && !Slot(t, root, 3, 0).size
    ensures PageOf(0x1F_F000) == 511 && PageCount(0x1000, 1) == 1 && SlotOf(511, 1) == 511
    ensures LeafLevel(t, root, 511) == 1 && Lookup(t, root, 511) != None && 0x1F_F000 % LeafBytes(1, 1) == 0
    ensures 512 < Slots(1)
  {
    SlotCounts();
    assert IsPointer(Slot(t, root, 2, 0));
    UpDigits(511);
  }

  /** One mapped 4 KiB page with no table for the slot after it. */
  lemma NoTableAfter(t: Tables, root: nat, address: nat, bytes: nat)
    requires LeafLevel(t, root, PageOf(address)) == 1 && Lookup(t, root, PageOf(address)) != None
    requires address % LeafBytes(1, 1) == 0 && PageCount(bytes, 1) == 1
    requires Slot(t, root, 2, (PageOf(address) + 1) / 512) == ZERO && PageOf(address) + 1 < Slots(1)
    ensures UnmapOutcome(t, root, address, bytes) == NoTable
  {
    hide Lookup, Slot, PageOf;
    assert SlotOf(PageOf(address), 1) == PageOf(address);
    assert !Held(t, root, 1, PageOf(address) + 1);
  }

  lemma NoTableCleared(t: Tables, t1: Tables, root: nat, address: nat, bytes: nat, count: nat)
    requires UnmapResult(t, t1, {root}, root, address, bytes, count, NoTable)
    requires LeafLevel(t, root, PageOf(address)) == 1 && PageCount(bytes, 1) == 1
    ensures Cleared(t, t1, {root}, root, 1, PageOf(address), 1)
  {
    hide Cleared, PageOf, PageCount, LeafLevel, Slots, NoGap, UnmapRefused;
    assert SlotOf(PageOf(address), 1) == PageOf(address);
  }

  lemma ClearedLast(t: Tables, t1: Tables, root: nat)
    requires Cleared(t, t1, {root}, root, 1, 511, 1) && Slot(t, root, 1, 511) != ZERO && !Slot(t, root, 3, 0).size
    ensures Lookup(t1, root, 511) == None
  {
    assert IsPointer(Slot(t, root, 2, 0));
    UpDigits(511);
    assert ClearedAt(t, t1, root, 1, 511, 1, root, 1, 511);
    assert ClearedAt(t, t1, root, 1, 511, 1, root, 2, 0);
    assert ClearedAt(t, t1, root, 1, 511, 1, root, 3, 0);
  }

  // ----- What it leaves behind

  lemma ZerosAre(count: nat)
    ensures forall e | e in Zeros(count) :: e == ZERO
  {}

  lemma UnmapRemaps(t0: Tables, t1: Tables, roots: set<nat>, root: nat, address: nat, bytes: nat, count: nat)
    requires root in roots && Unmappable(t0, root, address, bytes)
    requires UnmapResult(t0, t1, roots, root, address, bytes, count, Unmapped)
    ensures var level := LeafLevel(t0, root, PageOf(address));
            && count == PageCount(bytes, level)
            && Remapped(t0, t1, roots, root, level, SlotOf(PageOf(address), level), Zeros(count))
  {
    var page := PageOf(address);
    var level := LeafLevel(t0, root, page);
    UpDigits(page);
    ClearedIsFilled(t0, t1, roots, root, level, SlotOf(page, level), count);
    ZerosAre(count);
    FilledIsRemapped(t0, t1, roots, root, level, SlotOf(page, level), Zeros(count));
  }

  /** After a successful unmapping call no address of the page-rounded range is translated, and every other
      address of every address space is where it was. */
  lemma UnmapTranslates(t0: Tables, nodes0: map<nat, Node>, t1: Tables, nodes1: map<nat, Node>, roots: set<nat>,
                        root: nat,
                        address: nat, bytes: nat, count: nat, r: nat, a: nat)
    requires root in roots && r in roots && Tree(t0, nodes0, roots) && Tree(t1, nodes1, roots)
    requires Unmappable(t0, root, address, bytes)
    requires UnmapResult(t0, t1, roots, root, address, bytes, count, Unmapped)
    ensures var level := LeafLevel(t0, root, PageOf(address));
            var low := Low48(Start(address, level));
            Translate(t1, nodes1, roots, r, a) ==
            if r == root && low <= Low48(a) < low + LeafBytes(level, count) then None else Translate(t0, nodes0, roots,
                r, a)
  {
    hide Translate;
    var level := LeafLevel(t0, root, PageOf(address));
    UnmapRemaps(t0, t1, roots, root, address, bytes, count);
    ClearedTranslation(t0, nodes0, t1, nodes1, roots, root, level, address, count, r, a);
  }

  lemma ClearedTranslation(t0: Tables, nodes0: map<nat, Node>, t1: Tables, nodes1: map<nat, Node>, roots: set<nat>,
                           root: nat,
                           level: nat, address: nat, count: nat, r: nat, a: nat)
    requires root in roots && r in roots && Tree(t0, nodes0, roots) && Tree(t1, nodes1, roots) && 1 <= level <= 3
    requires Remapped(t0, t1, roots, root, level, SlotOf(PageOf(address), level), Zeros(count))
    ensures var low := Low48(Start(address, level));
            Translate(t1, nodes1, roots, r, a) ==
            if r == root && low <= Low48(a) < low + LeafBytes(level, count) then None else Translate(t0, nodes0, roots,
                r, a)
  {
    hide Translate;
    var n, low := SlotOf(PageOf(address), level), Low48(Start(address, level));
    if r == root && low <= Low48(a) < low + LeafBytes(level, count) {
      RunRange(address, level, count, a);
      assert Lookup(t1, r, PageOf(a)) == RemappedTo(t0, root, level, n, Zeros(count), r, PageOf(a));
      TranslateIsLookup(t1, nodes1, roots, r, a);
    } else {
      RunMisses(t0, nodes0, t1, nodes1, roots, root, level, address, Zeros(count), r, a);
    }
  }

  // ----- Map, then unmap

  /** No page of a run is mapped. */
  ghost predicate Unused(t: Tables, root: nat, level: nat, s: nat, count: nat)
    requires 1 <= level <= 3
  {
    forall page: nat | s <= SlotOf(page, level) < s + count :: Lookup(t, root, page) == None
  }

  /** A run of leaves over unmapped pages, then the same run of ZEROs: every page of every address space is
      back where it was. */
  lemma ClearedAfterFilled(t0: Tables, t1: Tables, t2: Tables, roots: set<nat>, root: nat, level: nat, s: nat,
                           leaves: seq<Entry>,
                           r: nat, page: nat)
    requires 1 <= level <= 3 && root in roots && r in roots && Unused(t0, root, level, s, |leaves|)
    requires Remapped(t0, t1, roots, root, level, s, leaves)
    requires Remapped(t1, t2, roots, root, level, s, Zeros(|leaves|))
    ensures Lookup(t2, r, page) == Lookup(t0, r, page)
  {
    assert Lookup(t2, r, page) == RemappedTo(t1, root, level, s, Zeros(|leaves|), r, page);
    assert Lookup(t1, r, page) == RemappedTo(t0, root, level, s, leaves, r, page);
    assert s <= SlotOf(page, level) < s + |leaves| && r == root ==> Lookup(t0, root, page) == None;
  }

  /** Slots whose leaves are set lie in tables that exist. */
  lemma FilledHeld(t0: Tables, t1: Tables, roots: set<nat>, root: nat, level: nat, s: nat, leaves: seq<Entry>)
    requires 1 <= level <= 3 && root in roots && Filled(t0, t1, roots, root, level, s, leaves)
    requires forall e | e in leaves :: Leaf(e, level)
    requires Held(t1, root, level, s + |leaves|)
    ensures NoGap(t1, root, level, s, |leaves|)
  {
    forall m: nat | s < m <= s + |leaves|
      ensures Held(t1, root, level, m)
    {
      if m < s + |leaves| {
        assert FilledAt(t0, t1, root, level, s, leaves, root, level, m);
        assert leaves[m - s] in leaves;
      }
    }
  }

  /** A run of leaves is what unmapping it needs: it is seen with the same page size, and unmapping succeeds. */
  lemma RunIsUnmappable(t0: Tables, t1: Tables, roots: set<nat>, root: nat, address: nat, bytes: nat, flags: Flags,
                        leaves: seq<Entry>)
    requires var level := TargetLevel(t0, root, PageOf(address), flags);
             var s := SlotOf(PageOf(address), level);
             && root in roots && 0 < |leaves| == PageCount(bytes, level) && address % LeafBytes(level, 1) == 0
             && (!flags.huge1G ==> !Slot(t0, root, 3, PageOf(address) / 512 / 512).size)
             && (forall m | s < m <= s + |leaves| :: NoLeafAbove(t0, root, level, m))
             && Filled(t0, t1, roots, root, level, s, leaves) && (forall e | e in leaves :: Leaf(e, level))
             && Held(t1, root, level, s + |leaves|)
    ensures LeafLevel(t1, root, PageOf(address)) == TargetLevel(t0, root, PageOf(address), flags)
    ensures Unmappable(t1, root, address, bytes)
    ensures UnmapOutcome(t1, root, address, bytes) == Unmapped
  {
    var page := PageOf(address);
    var level := TargetLevel(t0, root, page, flags);
    var s := SlotOf(page, level);
    FirstLeaf(t0, t1, roots, root, page, level, leaves, flags);
    FilledHeld(t0, t1, roots, root, level, s, leaves);
    forall m | s < m <= s + |leaves|
      ensures NoLeafAbove(t1, root, level, m)
    {
      FilledNoLeafAbove(t0, t1, roots, root, level, s, leaves, m);
    }
  }

  lemma FirstLeaf(t0: Tables, t1: Tables, roots: set<nat>, root: nat, page: nat, level: nat, leaves: seq<Entry>,
                  flags: Flags)
    requires root in roots && level == TargetLevel(t0, root, page, flags) && |leaves| > 0
    requires Filled(t0, t1, roots, root, level, SlotOf(page, level), leaves)
    requires forall e | e in leaves :: Leaf(e, level)
    requires !flags.huge1G ==> !Slot(t0, root, 3, page / 512 / 512).size
    ensures LeafLevel(t1, root, page) == level && Lookup(t1, root, page) != None
  {
    UpDigits(page);
    assert leaves[0] in leaves;
    assert FilledAt(t0, t1, root, level, SlotOf(page, level), leaves, root, 3, page / 512 / 512);
    assert FilledAt(t0, t1, root, level, SlotOf(page, level), leaves, root, 2, page / 512);
    assert FilledAt(t0, t1, root, level, SlotOf(page, level), leaves, root, 1, page);
  }

  /** The address of a successful mapping call on unmapped pages is aligned to the page size taken. */
  lemma UnusedAligned(t: Tables, root: nat, address: nat, flags: Flags, count: nat)
    requires var level := TargetLevel(t, root, PageOf(address), flags);
             && Aligned(address, flags) && count > 0 && Unused(t, root, level, SlotOf(PageOf(address), level), count)
    ensures address % LeafBytes(TargetLevel(t, root, PageOf(address), flags), 1) == 0
  {
    UpDigits(PageOf(address));
    assert Lookup(t, root, PageOf(address)) == None;
  }

  /** After a mapping call that succeeded on unmapped pages, unmapping the same range is sure to succeed if no table
      was misplaced, and sure to be refused otherwise. */
  lemma MappedIsUnmappable(t0: Tables, t1: Tables, roots: set<nat>, root: nat, address: nat, bytes: nat, flags: Flags,
                           refused: bool, leaves: seq<Entry>)
    requires root in roots && Mappable(t0, root, address, bytes, flags) && (!refused ==> Aligned(address, flags))
    requires Succeeded(t0, t1, roots, root, address, bytes, flags, refused, leaves)
    requires var level := TargetLevel(t0, root, PageOf(address), flags);
             Unused(t0, root, level, SlotOf(PageOf(address), level), |leaves|) && forall e | e in leaves ::
                   Leaf(e, level)
    ensures UnmapOutcome(t1, root, address, bytes) ==
            if Misplaced(t0, root, PageOf(address), flags) then Refused else Unmapped
    ensures !Misplaced(t0, root, PageOf(address), flags) ==>
              && LeafLevel(t1, root, PageOf(address)) == TargetLevel(t0, root, PageOf(address), flags)
              && Unmappable(t1, root, address, bytes)
  {
    if Misplaced(t0, root, PageOf(address), flags) {
      MisplacedUnused(t0, t1, roots, root, PageOf(address), flags, leaves);
    } else {
      UnusedAligned(t0, root, address, flags, |leaves|);
      RunIsUnmappable(t0, t1, roots, root, address, bytes, flags, leaves);
    }
  }

  lemma MisplacedUnused(t0: Tables, t1: Tables, roots: set<nat>, root: nat, page: nat, flags: Flags, leaves: seq<Entry>)
    requires root in roots && AsideRemapped(t0, t1, roots, root, page, leaves) && Misplaced(t0, root, page, flags)
    requires |leaves| > 0 && Unused(t0, root, 1, SlotOf(page, 1), |leaves|)
    ensures Lookup(t1, root, page) == None
  {
    UpDigits(page);
    MisplacedDigits(page);
    Quotient(MisplacedPage(page), 512, MisplacedSlot(page), page % 512);
    assert Lookup(t1, root, page) == AsideTo(t0, root, page, leaves, root, page);
    assert Lookup(t0, root, page) == None;
  }

  /** Main result. Mapping unmapped pages, with any of the three page sizes and onto given or onto free memory,
      and then unmapping the same range: the second call succeeds if and only if the first misplaced no table, and
      then every address of every address space is translated as before the first. Otherwise the second call is
      refused and changes nothing. */
  lemma MapThenUnmap(t0: Tables, nodes0: map<nat, Node>, t1: Tables, t2: Tables, nodes2: map<nat, Node>,
                     roots: set<nat>, root: nat,
                     address: nat, bytes: nat, flags: Flags, refused: bool, leaves: seq<Entry>,
                     unmapped: nat, outcome: Unmapping, r: nat, a: nat)
    requires root in roots && r in roots && Tree(t0, nodes0, roots) && Tree(t2, nodes2, roots)
    requires Mappable(t0, root, address, bytes, flags) && (!refused ==> Aligned(address, flags))
    requires Succeeded(t0, t1, roots, root, address, bytes, flags, refused, leaves)
    requires var level := TargetLevel(t0, root, PageOf(address), flags);
             Unused(t0, root, level, SlotOf(PageOf(address), level), |leaves|) && forall e | e in leaves ::
                   Leaf(e, level)
    requires UnmapResult(t1, t2, roots, root, address, bytes, unmapped, outcome)
    ensures outcome == Unmapped <==> !Misplaced(t0, root, PageOf(address), flags)
    ensures outcome == Unmapped ==> Translate(t2, nodes2, roots, r, a) == Translate(t0, nodes0, roots, r, a)
    ensures outcome != Unmapped ==> t2 == t1
  {
    hide Translate;
    MappedIsUnmappable(t0, t1, roots, root, address, bytes, flags, refused, leaves);
    if Misplaced(t0, root, PageOf(address), flags) {
      UnmapEndsAs(t1, t2, roots, root, address, bytes, unmapped, outcome);
    } else {
      LeavesRemap(t0, t1, roots, root, address, bytes, flags, refused, leaves);
      UnmapUndoes(t0, nodes0, t1, t2, nodes2, roots, root, TargetLevel(t0, root, PageOf(address), flags), address,
                  bytes,
                  leaves, unmapped, outcome, r, a);
    }
  }

  /** The two calls count the same pages: used_virtual_pages is back to its old value. */
  lemma MapThenUnmapUsed(t0: Tables, t1: Tables, roots: set<nat>, root: nat, address: nat, bytes: nat, flags: Flags,
                         refused: bool, leaves: seq<Entry>, used: nat, used': nat)
    requires root in roots && Mappable(t0, root, address, bytes, flags) && (!refused ==> Aligned(address, flags))
    requires Succeeded(t0, t1, roots, root, address, bytes, flags, refused, leaves)
    requires !Misplaced(t0, root, PageOf(address), flags)
    requires var level := TargetLevel(t0, root, PageOf(address), flags);
             && Unused(t0, root, level, SlotOf(PageOf(address), level), |leaves|)
                 && (forall e | e in leaves :: Leaf(e, level))
             && used < 0x1_0000_0000_0000_0000 && Counted(used, used', level, |leaves|, Succeeds)
    ensures UsedAfterUnmap(used', LeafLevel(t1, root, PageOf(address)), bytes, Unmapped) == used
  {
    MappedIsUnmappable(t0, t1, roots, root, address, bytes, flags, refused, leaves);
    UsedRestored(used, LeafPages(TargetLevel(t0, root, PageOf(address), flags), |leaves|));
  }

  /** used_virtual_pages loses the 4 KiB pages of the range, once, and only in a call that returns success. */
  lemma UncountedPages(used: nat, level: nat, bytes: nat, r: Unmapping)
    requires 1 <= level <= 3 && used < 0x1_0000_0000_0000_0000
    ensures var used' := UsedAfterUnmap(used, level, bytes, r);
            if r == Unmapped then
              (used' + LeafBytes(level, PageCount(bytes, level)) / 0x1000) % 0x1_0000_0000_0000_0000 == used
            else used' == used
  {
    hide PageCount, SubtractPages;
    SubtractedBack(used, LeafPages(level, PageCount(bytes, level)));
  }

  lemma SubtractedBack(used: nat, pages: nat)
    requires used < 0x1_0000_0000_0000_0000
    ensures (SubtractPages(used, pages) + pages) % 0x1_0000_0000_0000_0000 == used
  {
    var h, p := pages / 0x1_0000_0000_0000_0000, pages % 0x1_0000_0000_0000_0000;
    if used >= p {
      Quotient(used + 0x1_0000_0000_0000_0000 - p, 0x1_0000_0000_0000_0000, 1, used - p);
      Quotient(used - p + pages, 0x1_0000_0000_0000_0000, h, used);
    } else {
      Quotient(used + 0x1_0000_0000_0000_0000 - p + pages, 0x1_0000_0000_0000_0000, h + 1, used);
    }
  }

  lemma UnmapUndoes(t0: Tables, nodes0: map<nat, Node>, t1: Tables, t2: Tables, nodes2: map<nat, Node>,
                    roots: set<nat>, root: nat,
                    level: nat, address: nat, bytes: nat, leaves: seq<Entry>, unmapped: nat,
                    outcome: Unmapping, r: nat, a: nat)
    requires root in roots && r in roots && Tree(t0, nodes0, roots) && Tree(t2, nodes2, roots)
    requires 1 <= level <= 3 && |leaves| == PageCount(bytes, level)
    requires Unused(t0, root, level, SlotOf(PageOf(address), level), |leaves|)
    requires Remapped(t0, t1, roots, root, level, SlotOf(PageOf(address), level), leaves)
    requires LeafLevel(t1, root, PageOf(address)) == level && Unmappable(t1, root, address, bytes)
    requires UnmapOutcome(t1, root, address, bytes) == Unmapped
    requires UnmapResult(t1, t2, roots, root, address, bytes, unmapped, outcome)
    ensures outcome == Unmapped
    ensures Translate(t2, nodes2, roots, r, a) == Translate(t0, nodes0, roots, r, a)
  {
    hide Translate;
    UnmapEndsAs(t1, t2, roots, root, address, bytes, unmapped, outcome);
    UnmapRemaps(t1, t2, roots, root, address, bytes, unmapped);
    ClearedAfterFilled(t0, t1, t2, roots, root, level, SlotOf(PageOf(address), level), leaves, r, PageOf(a));
    SameTranslation(t0, nodes0, t2, nodes2, roots, r, a);
  }

  lemma SameTranslation(t0: Tables, nodes0: map<nat, Node>, t1: Tables, nodes1: map<nat, Node>, roots: set<nat>,
                        r: nat, a: nat)
    requires r in roots && Tree(t0, nodes0, roots) && Tree(t1, nodes1, roots)
    requires Lookup(t1, r, PageOf(a)) == Lookup(t0, r, PageOf(a))
    ensures Translate(t1, nodes1, roots, r, a) == Translate(t0, nodes0, roots, r, a)
  {
    hide Translate;
    TranslateIsLookup(t0, nodes0, roots, r, a);
    TranslateIsLookup(t1, nodes1, roots, r, a);
  }

  lemma UsedRestored(used: nat, pages: nat)
    requires used < 0x1_0000_0000_0000_0000
    ensures SubtractPages(AddPages(used, pages), pages) == used
  {
    var h, p := pages / 0x1_0000_0000_0000_0000, pages % 0x1_0000_0000_0000_0000;
    if used + p < 0x1_0000_0000_0000_0000 {
      Quotient(used + pages, 0x1_0000_0000_0000_0000, h, used + p);
    } else {
      Quotient(used + pages, 0x1_0000_0000_0000_0000, h + 1, used + p - 0x1_0000_0000_0000_0000);
    }
  }
}
