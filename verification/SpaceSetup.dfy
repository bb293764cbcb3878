/** The address space every process gets (src/common/scheduler.c:88-124): low memory at its own address, the
    local APIC at a fixed address, and eight stack pages. */
module SpaceSetup {
  import opened Wrappers
  import opened PageTables
  import opened AddressSpace
  import opened PagingCursor
  import opened PagingProperties
  import opened Placement
  import opened PlacementProperties

  const APIC: nat := 0x80_0000_0000
  const APIC_BYTES: nat := 0x540
  const STACK_BYTES: nat := 0x8000
  const TOP: nat := 0x80_0000_0000   // 512 GiB, the most memory the set-up identity-maps

  /** `ALIGN_TO_NEXT(n, to)` for a power of two. */
  function AlignToNext(n: nat, to: nat): nat
    requires to > 0
  {
    (n + 0xFFFF_FFFF_FFFF_FFFF) % 0x1_0000_0000_0000_0000 / to * to + to
  }

  /** It is the least multiple of `to` not below `n`. */
  lemma AlignsUp(n: nat, to: nat)
    requires n > 0 && to > 0 && n < 0x1_0000_0000_0000_0000
    ensures n <= AlignToNext(n, to) < n + to && AlignToNext(n, to) % to == 0
  {
    var q, r := (n - 1) / to, (n - 1) % to;
    Quotient(n + 0xFFFF_FFFF_FFFF_FFFF, 0x1_0000_0000_0000_0000, 1, n - 1);
    assert n - 1 == to * q + r && AlignToNext(n, to) == q * to + to == (q + 1) * to;
    Quotient((q + 1) * to, to, q + 1, 0);
  }

  function IdentityFlags(huge: bool): Flags {
    Flags(true, false, huge, !huge, false)
  }

  function IdentityBytes(max: nat, huge: bool): nat {
    AlignToNext(max, if huge then 0x4000_0000 else 0x20_0000)
  }

  const APIC_FLAGS: Flags := Flags(true, false, false, false, false)
  const STACK_FLAGS: Flags := Flags(true, true, false, false, false)

  // ----- Identity mapping

  lemma IdentityCounts(max: nat, huge: bool)
    requires 0 < max <= TOP
    ensures var bytes, level := IdentityBytes(max, huge), if huge then 3 else 2;
            && max <= bytes < 0x1_0000_0000_0000_0000
            && LeafBytes(level, PageCount(bytes, level)) == bytes
            && 1 <= PageCount(bytes, level) <= if huge then 512 else 0x4_0000
  {
    var size := if huge then 0x4000_0000 else 0x20_0000;
    var q, r := (max - 1) / size, (max - 1) % size;
    Quotient(max + 0xFFFF_FFFF_FFFF_FFFF, 0x1_0000_0000_0000_0000, 1, max - 1);
    assert IdentityBytes(max, huge) == (q + 1) * size;
    Quotient((q + 1) * size + 0xFFFF_FFFF_FFFF_FFFF, 0x1_0000_0000_0000_0000, 1, (q + 1) * size - 1);
    Quotient((q + 1) * size - 1, size, q, size - 1);
  }

  /** In an empty address space the identity mapping is sure to succeed. */
  lemma IdentitySucceeds(t: Tables, root: nat, max: nat, huge: bool)
    requires Blank(t, root) && 0 < max <= TOP
    ensures Mappable(t, root, 0, IdentityBytes(max, huge), IdentityFlags(huge))
    ensures MapOutcome(t, root, 0, 0, IdentityBytes(max, huge), IdentityFlags(huge), huge) == Succeeds
    ensures TargetLevel(t, root, 0, IdentityFlags(huge)) == (if huge then 3 else 2) && PageOf(0) == 0
  {
    IdentityCounts(max, huge);
    BlankMaps(t, root, if huge then 3 else 2, IdentityBytes(max, huge), huge);
  }

  lemma BlankMaps(t: Tables, root: nat, level: nat, bytes: nat, huge: bool)
    requires Blank(t, root) && level == (if huge then 3 else 2)
    requires bytes > 0 && PageCount(bytes, level) <= if huge then 512 else 0x4_0000
    ensures Mappable(t, root, 0, bytes, IdentityFlags(huge))
    ensures MapOutcome(t, root, 0, 0, bytes, IdentityFlags(huge), huge) == Succeeds
    ensures TargetLevel(t, root, 0, IdentityFlags(huge)) == level && PageOf(0) == 0
  {
    SlotCounts();
    UpDigits(0);
    assert SlotOf(0, level) == 0;
    assert Slot(t, root, 2, 0) == ZERO && Slot(t, root, 3, 0) == ZERO;
    forall m | 0 < m < PageCount(bytes, level)
      ensures !StrayAt(t, root, level, m)
    {
      assert Slot(t, root, 4, m / 512) == ZERO;
    }
  }

  /** What the identity mapping leaves of the slots: below 512 GiB all is taken care of, above there is nothing
      but, for exactly 512 GiB, the empty table of the slot after the run. */
  ghost predicate LowMapped(t: Tables, root: nat) {
    && Slot(t, root, 4, 0) != ZERO && (forall m: nat | m >= 2 :: Slot(t, root, 4, m) == ZERO)
    && (forall m: nat | m >= 512 :: !Slot(t, root, 3, m).size && (m > 512 ==> Slot(t, root, 3, m) == ZERO))
    && (forall m: nat | m >= 0x4_0000 :: Slot(t, root, 2, m) == ZERO)
    && (forall m: nat | m >= 0x800_0000 :: Slot(t, root, 1, m) == ZERO)
  }

  lemma IdentitySlots(t0: Tables, t1: Tables, roots: set<nat>, root: nat, huge: bool, leaves: seq<Entry>)
    requires root in roots && Blank(t0, root)
    requires var level := if huge then 3 else 2;
             && 1 <= |leaves| <= (if huge then 512 else 0x4_0000)
             && Filled(t0, t1, roots, root, level, 0, leaves) && forall e | e in leaves :: Leaf(e, level)
    ensures LowMapped(t1, root)
    ensures huge ==> forall m: nat | m < |leaves| :: Slot(t1, root, 3, m).size
    ensures !huge ==> forall m: nat | m < |leaves| :: Slot(t1, root, 2, m).size
  {
    var level, c := if huge then 3 else 2, |leaves|;
    forall m: nat | m < |leaves|
      ensures Slot(t1, root, level, m).size
    {
      assert FilledAt(t0, t1, root, level, 0, leaves, root, level, m);
      assert leaves[m] in leaves;
    }
    forall j: nat, m: nat | 1 <= j <= 4
      ensures Slot(t1, root, j, m) != ZERO ==>
                (j > level && m <= Up(c, j - level) && IsPointer(Slot(t1, root, j, m))) || (j == level && m < c)
    {
      assert FilledAt(t0, t1, root, level, 0, leaves, root, j, m);
    }
    UpMonotone(c, 0x4_0000, 1);
    UpMonotone(c, 0x4_0000, 2);
    if huge {
      UpMonotone(c, 512, 1);
    }
    UpDigits(0x4_0000);
    UpDigits(512);
    assert FilledAt(t0, t1, root, level, 0, leaves, root, level, 0);
    assert leaves[0] in leaves;
    assert Slot(t1, root, level, 0) != ZERO;
  }

  // ----- The local APIC

  lemma ApicSucceeds(t: Tables, root: nat, physicalAddress: nat, hugePages: bool)
    requires LowMapped(t, root) && physicalAddress % PAGE == 0
    ensures Mappable(t, root, APIC, APIC_BYTES, APIC_FLAGS)
    ensures MapOutcome(t, root, APIC, physicalAddress, APIC_BYTES, APIC_FLAGS, hugePages) == Succeeds
    ensures PageOf(APIC) == 0x800_0000 && TargetLevel(t, root, 0x800_0000, APIC_FLAGS) == 1
            && PageCount(APIC_BYTES, 1) == 1
    ensures SlotOf(0x800_0000, 1) == 0x800_0000
  {
    hide Slot, PageOf, PageCount;
    ApicNumbers();
    SlotCounts();
    assert Slot(t, root, 1, 0x800_0000) == ZERO && Slot(t, root, 2, 0x4_0000) == ZERO && !Slot(t, root, 3, 512).size;
  }

  lemma ApicNumbers()
    ensures PageOf(APIC) == 0x800_0000 && PageCount(APIC_BYTES, 1) == 1
  {}

  /** After it level 4 has two tables and the first empty spot is at 1 TiB. */
  lemma ApicSlots(t0: Tables, t1: Tables, roots: set<nat>, root: nat, leaves: seq<Entry>)
    requires root in roots && LowMapped(t0, root) && root in t1
    requires |leaves| == 1 && leaves[0] != ZERO && Filled(t0, t1, roots, root, 1, 0x800_0000, leaves)
    ensures Ready(t1, root, [0, 0, 0, root], [0, 0, 0, 0], 0x1000_0000)
  {
    var end := 0x800_0001;
    UpDigits(0x800_0000);
    UpDigits(end);
    forall j: nat, m: nat | 1 <= j <= 4
      ensures Slot(t1, root, j, m) != ZERO ==>
                Slot(t0, root, j, m) != ZERO || (j > 1 && m <= Up(end, j - 1)) || (j == 1 && m == 0x800_0000)
      ensures Slot(t0, root, j, m) != ZERO && j > 1 ==> Slot(t1, root, j, m) != ZERO
    {
      assert FilledAt(t0, t1, root, 1, 0x800_0000, leaves, root, j, m);
    }
    assert FilledAt(t0, t1, root, 1, 0x800_0000, leaves, root, 1, 0x800_0000);
    assert Slot(t1, root, 1, 0x800_0000) != ZERO;
    TakenAbove(t1, root, 0x800_0000);
    SpotClearAtTebibyte(t1, root);
  }

  /** A slot that is not ZERO hangs under a level-4 slot that is not ZERO. */
  lemma TakenAbove(t: Tables, root: nat, m: nat)
    requires Slot(t, root, 1, m) != ZERO
    ensures Slot(t, root, 4, m / 512 / 512 / 512) != ZERO
  {
    assert IsPointer(Slot(t, root, 2, m / 512));
    assert IsPointer(Slot(t, root, 3, m / 512 / 512));
  }

  lemma SpotClearAtTebibyte(t: Tables, root: nat)
    requires root in t && Slot(t, root, 4, 0) != ZERO && Slot(t, root, 4, 1) != ZERO
    requires forall m: nat | m >= 2 :: Slot(t, root, 4, m) == ZERO
    ensures Ready(t, root, [0, 0, 0, root], [0, 0, 0, 0], 0x1000_0000)
  {
    var n := 0x1000_0000;
    UpDigits(n);
    FirstIs(2, 2, 2);
    NothingUnder(t, root, 1, n, 4);
    forall j: nat, m: nat | 1 <= j <= 4 && Up(n, j - 1) < m
      ensures Slot(t, root, j, m) == ZERO
    {
      if j < 4 {
        UpMonotone(Up(n, j - 1), m, 4 - j);
        UpDigits(Up(n, j - 1));
        assert Up(n, 0) == n;
        NothingUnder(t, root, j, m, 4);
      }
    }
  }

  // ----- What the finished address space translates

  /** The leaf of a page has the writable bit, and the user bit as said. */
  ghost predicate Allows(t: Tables, root: nat, page: nat, user: bool) {
    var e := LeafOf(t, root, page);
    e.present && e.writable && e.everyone == user
  }

  /** Low memory lies at its own address, for the kernel to read and write. */
  ghost predicate IdentityPages(t: Tables, root: nat, max: nat) {
    forall page: nat | page * PAGE < max :: Lookup(t, root, page) == Some(page * PAGE) && Allows(t, root, page, false)
  }

  /** The page at 512 GiB is the local APIC's. */
  ghost predicate ApicPage(t: Tables, root: nat, physicalAddress: nat) {
    && Lookup(t, root, 0x800_0000) == Some(physicalAddress % 0x10_0000_0000_0000)
    && Allows(t, root, 0x800_0000, false)
  }

  lemma IdentityLooked(t0: Tables, t1: Tables, roots: set<nat>, root: nat, max: nat, huge: bool, count: nat)
    requires root in roots && Blank(t0, root) && 0 < max <= TOP
    requires MapResult(t0, t1, roots, root, 0, 0, IdentityBytes(max, huge), IdentityFlags(huge), huge, count, Succeeds)
    ensures IdentityPages(t1, root, max) && LowMapped(t1, root) && SameSpaces(t0, t1, roots - {root})
    ensures huge ==> forall m: nat | m * 0x4000_0000 < max :: Slot(t1, root, 3, m).size
    ensures !huge ==> forall m: nat | m * 0x20_0000 < max :: Slot(t1, root, 2, m).size
  {
    var level, bytes, flags := if huge then 3 else 2, IdentityBytes(max, huge), IdentityFlags(huge);
    IdentitySucceeds(t0, root, max, huge);
    IdentityCounts(max, huge);
    MapRemaps(t0, t1, roots, root, 0, 0, bytes, flags, huge, count);
    RunLeavesAreLeaves(0, level, flags, count);
    UpDigits(0);
    IdentitySlots(t0, t1, roots, root, huge, RunLeaves(0, level, flags, count));
    IdentityLeaves(t0, t1, roots, root, level, flags, count, max);
    IdentityRun(t0, t1, roots, root, max, level, flags, count);
    FilledElsewhere(t0, t1, roots, root, level, SlotOf(0, level), RunLeaves(0, level, flags, count));
  }

  lemma IdentityRun(t0: Tables, t1: Tables, roots: set<nat>, root: nat, max: nat, level: nat, flags: Flags, count: nat)
    requires 2 <= level <= 3 && root in roots && max <= LeafBytes(level, count) && max <= TOP && PageOf(0) == 0
    requires SlotOf(0, level) + count <= Slots(level)
    requires Remapped(t0, t1, roots, root, level, SlotOf(0, level), RunLeaves(0, level, flags, count))
    requires forall page: nat | page * PAGE < max :: Allows(t1, root, page, false)
    ensures IdentityPages(t1, root, max)
  {
    forall page: nat | page * PAGE < max
      ensures Lookup(t1, root, page) == Some(page * PAGE)
    {
      IdentityPage(t0, t1, roots, root, level, flags, count, page);
    }
  }

  lemma IdentityLeaves(t0: Tables, t1: Tables, roots: set<nat>, root: nat, level: nat, flags: Flags, count: nat,
                       max: nat)
    requires 2 <= level <= 3 && root in roots && Blank(t0, root) && flags.write && !flags.user
    requires max <= LeafBytes(level, count)
    requires Filled(t0, t1, roots, root, level, 0, RunLeaves(0, level, flags, count))
    ensures forall page: nat | page * PAGE < max :: Allows(t1, root, page, false)
  {
    forall page: nat | page * PAGE < max
      ensures Allows(t1, root, page, false)
    {
      IdentityLeaf(t0, t1, roots, root, level, flags, count, page);
    }
  }

  lemma IdentityLeaf(t0: Tables, t1: Tables, roots: set<nat>, root: nat, level: nat, flags: Flags, count: nat,
                     page: nat)
    requires 2 <= level <= 3 && root in roots && Blank(t0, root) && flags.write && !flags.user
    requires page * PAGE < LeafBytes(level, count)
    requires Filled(t0, t1, roots, root, level, 0, RunLeaves(0, level, flags, count))
    ensures Allows(t1, root, page, false)
  {
    hide Slot;
    UpDigits(page);
    LeafOfRun(0, level, flags, count, Up(page, level - 1));
    FilledLeaf(t0, t1, roots, root, level, 0, RunLeaves(0, level, flags, count), page);
  }

  lemma IdentityPage(t0: Tables, t1: Tables, roots: set<nat>, root: nat, level: nat, flags: Flags, count: nat,
                     page: nat)
    requires 2 <= level <= 3 && root in roots && page * PAGE < LeafBytes(level, count) && page * PAGE < TOP
             && PageOf(0) == 0
    requires SlotOf(0, level) + count <= Slots(level)
    requires Remapped(t0, t1, roots, root, level, SlotOf(0, level), RunLeaves(0, level, flags, count))
    ensures Lookup(t1, root, page) == Some(page * PAGE)
  {
    hide Lookup, Remapped, PageOf;
    PageStart(page);
    ZeroStart(level);
    var frame := RunLookup(t0, t1, roots, root, level, 0, 0, flags, count, page * PAGE);
    assert frame == page * PAGE;
  }

  lemma ZeroStart(level: nat)
    requires 1 <= level <= 3
    ensures Start(0, level) == 0 && 0 % LeafBytes(level, 1) == 0
  {}

  lemma PageStart(page: nat)
    requires page < 0x10_0000_0000
    ensures PageOf(page * PAGE) == page && page * PAGE % PAGE == 0
    ensures page * PAGE < TOP ==> page * PAGE % 0x10_0000_0000_0000 == page * PAGE
    ensures page * PAGE < TOP ==> (0 + page * PAGE) % 0x10_0000_0000_0000 == page * PAGE
  {
    Quotient(page * PAGE, PAGE, page, 0);
  }

  lemma ApicLooked(t0: Tables, t1: Tables, roots: set<nat>, root: nat, max: nat, physicalAddress: nat,
                   hugePages: bool, count: nat)
    requires root in roots && root in t1 && LowMapped(t0, root) && physicalAddress % PAGE == 0
    requires IdentityPages(t0, root, max) && max <= TOP
    requires MapResult(t0, t1, roots, root, APIC, physicalAddress, APIC_BYTES, APIC_FLAGS, hugePages, count, Succeeds)
    ensures IdentityPages(t1, root, max) && SameSpaces(t0, t1, roots - {root})
    ensures ApicPage(t1, root, physicalAddress)
    ensures Ready(t1, root, [0, 0, 0, root], [0, 0, 0, 0], 0x1000_0000)
  {
    hide Slot, PageOf, PageCount, Remapped, IdentityPages, Allows;
    var leaves := RunLeaves(physicalAddress, 1, APIC_FLAGS, count);
    ApicSucceeds(t0, root, physicalAddress, hugePages);
    MapRemaps(t0, t1, roots, root, APIC, physicalAddress, APIC_BYTES, APIC_FLAGS, hugePages, count);
    RunLeavesAreLeaves(physicalAddress, 1, APIC_FLAGS, count);
    assert leaves[0] in leaves;
    ApicSlots(t0, t1, roots, root, leaves);
    FilledElsewhere(t0, t1, roots, root, 1, 0x800_0000, leaves);
    ApicLeaf(t0, t1, roots, root, physicalAddress);
    ApicRun(t0, t1, roots, root, max, physicalAddress);
  }

  lemma ApicLeaf(t0: Tables, t1: Tables, roots: set<nat>, root: nat, physicalAddress: nat)
    requires root in roots && LowMapped(t0, root)
    requires Filled(t0, t1, roots, root, 1, 0x800_0000, RunLeaves(physicalAddress, 1, APIC_FLAGS, 1))
    ensures Allows(t1, root, 0x800_0000, false)
    ensures forall page: nat | page != 0x800_0000 :: LeafOf(t1, root, page) == LeafOf(t0, root, page)
  {
    hide Slot, LeafOf;
    var leaves := RunLeaves(physicalAddress, 1, APIC_FLAGS, 1);
    assert Slot(t0, root, 2, 0x4_0000) == ZERO && !Slot(t0, root, 3, 512).size;
    assert Up(0x800_0000, 0) == 0x800_0000;
    LeafOfRun(physicalAddress, 1, APIC_FLAGS, 1, 0);
    FilledLeaf(t0, t1, roots, root, 1, 0x800_0000, leaves, 0x800_0000);
    forall page: nat | page != 0x800_0000
      ensures LeafOf(t1, root, page) == LeafOf(t0, root, page)
    {
      assert Up(page, 0) == page;
      FilledLeafOutside(t0, t1, roots, root, 1, 0x800_0000, leaves, root, page);
    }
  }

  lemma ApicRun(t0: Tables, t1: Tables, roots: set<nat>, root: nat, max: nat, physicalAddress: nat)
    requires root in roots && physicalAddress % PAGE == 0 && IdentityPages(t0, root, max) && max <= TOP
    requires Remapped(t0, t1, roots, root, 1, 0x800_0000, RunLeaves(physicalAddress, 1, APIC_FLAGS, 1))
    requires Allows(t1, root, 0x800_0000, false)
    requires forall page: nat | page != 0x800_0000 :: LeafOf(t1, root, page) == LeafOf(t0, root, page)
    ensures IdentityPages(t1, root, max) && ApicPage(t1, root, physicalAddress)
  {
    hide PhysicalBits, LeafOf;
    var leaves := RunLeaves(physicalAddress, 1, APIC_FLAGS, 1);
    LeafOfRun(physicalAddress, 1, APIC_FLAGS, 1, 0);
    LeafPhysical(physicalAddress, 1, APIC_FLAGS, 0, 0);
    forall page: nat
      ensures Lookup(t1, root, page) ==
              if page == 0x800_0000 then Some(PhysicalBits(leaves[0].address)) else Lookup(t0, root, page)
    {
      OnePage(t0, t1, roots, root, 0x800_0000, leaves, page);
    }
  }

  lemma OnePage(t0: Tables, t1: Tables, roots: set<nat>, root: nat, s: nat, leaves: seq<Entry>, page: nat)
    requires root in roots && |leaves| == 1 && leaves[0] != ZERO && Remapped(t0, t1, roots, root, 1, s, leaves)
    ensures Lookup(t1, root, page) == if page == s then Some(PhysicalBits(leaves[0].address)) else Lookup(t0, root,
            page)
  {
    RemappedPage(t0, t1, roots, root, s, leaves, page);
  }

  /** The address space of a process: identity-mapped memory, the APIC's page, eight stack pages on frames. */
  ghost predicate Built(t: Tables, root: nat, max: nat, physicalAddress: nat, stack: seq<nat>) {
    && |stack| == 8 && IdentityPages(t, root, max) && ApicPage(t, root, physicalAddress)
    && forall i | 0 <= i < 8 :: StackPageAt(t, root, 0x1000_0000 + i, stack[i])
  }

  /** A stack page lies on a frame, and its leaf has the writable and the user bit. */
  ghost predicate StackPageAt(t: Tables, root: nat, page: nat, frame: nat) {
    Lookup(t, root, page) == Some(frame) && Allows(t, root, page, true)
  }

  lemma StackLooked(w0: World, w1: World, root: nat, max: nat, physicalAddress: nat, given: seq<nat>)
    requires max <= TOP && |given| == 8 && IdentityPages(w0.t, root, max) && ApicPage(w0.t, root, physicalAddress)
    requires root in w0.cursors && Call(w0, w1, root, Grant(0x1000_0000, given))
    requires forall page: nat | page < 0x1000_0000 :: LeafOf(w1.t, root, page) == LeafOf(w0.t, root, page)
    requires forall page: nat | 0x1000_0000 <= page < 0x1000_0008 :: Allows(w1.t, root, page, true)
    ensures Built(w1.t, root, max, physicalAddress, given)
  {
    hide LeafOf;
    forall page: nat | page < 0x1000_0000
      ensures Lookup(w1.t, root, page) == Lookup(w0.t, root, page)
    {}
  }

  lemma StackLeaves(t0: Tables, nodes: map<nat, Node>, t1: Tables, roots: set<nat>, root: nat, table: seq<nat>,
                    index: seq<nat>, stack: seq<nat>)
    requires root in roots && Tree(t0, nodes, roots) && |stack| == 8 && (forall f | f in stack :: Framed(f))
    requires Ready(t0, root, table, index, 0x1000_0000)
    requires Filled(t0, t1, roots, root, 1, 0x1000_0000, FrameLeaves(stack, STACK_FLAGS))
    ensures forall page: nat | page < 0x1000_0000 :: LeafOf(t1, root, page) == LeafOf(t0, root, page)
    ensures forall page: nat | 0x1000_0000 <= page < 0x1000_0008 :: Allows(t1, root, page, true)
  {
    hide LeafOf, Slot, Tree, Ready;
    var leaves := FrameLeaves(stack, STACK_FLAGS);
    FrameLeavesAre(stack, STACK_FLAGS);
    forall page: nat | page < 0x1000_0000
      ensures LeafOf(t1, root, page) == LeafOf(t0, root, page)
    {
      assert Up(page, 0) == page;
      FilledLeafOutside(t0, t1, roots, root, 1, 0x1000_0000, leaves, root, page);
    }
    forall page: nat | 0x1000_0000 <= page < 0x1000_0008
      ensures Allows(t1, root, page, true)
    {
      assert Up(page, 0) == page && leaves[page - 0x1000_0000] in leaves;
      ReadyUnused(t0, nodes, roots, root, table, index, 0x1000_0000, page);
      FilledLeaf(t0, t1, roots, root, 1, 0x1000_0000, leaves, page);
    }
  }

  // ----- Address spaces one after the other

  /** A new address space was built beside the others, its stack on frames nobody had, and no slot of the others
      changed. */
  ghost predicate SpaceAdded(m0: Memory, m1: Memory, root: nat, max: nat, physicalAddress: nat, stack: seq<nat>) {
    && root !in m0.roots && m1.roots == m0.roots + {root}
    && Built(m1.tables, root, max, physicalAddress, stack) && NewFrames(m0.frames, m1.frames, stack)
    && SameSpaces(m0.tables, m1.tables, m0.roots)
  }

  /** Such an address space was built, with some stack. */
  ghost predicate SpaceBuilt(m0: Memory, m1: Memory, root: nat, max: nat, physicalAddress: nat) {
    exists stack: seq<nat> :: SpaceAdded(m0, m1, root, max, physicalAddress, stack)
  }

  /** The cursor of a finished address space is ready for the slot after the stack. */
  const FIRST_FREE: nat := 0x1000_0008

  /** Setting up an address space is a step of the runs of calls. */
  lemma SetUpIsStep(m0: Memory, m1: Memory, nodes1: map<nat, Node>, root: nat, max: nat, physicalAddress: nat,
                    stack: seq<nat>, table: seq<nat>, index: seq<nat>, cursors: map<nat, nat>)
    requires SpaceAdded(m0, m1, root, max, physicalAddress, stack) && cursors.Keys <= m0.roots
    requires Tree(m1.tables, nodes1, m1.roots) && Ready(m1.tables, root, table, index, FIRST_FREE)
    ensures Step(World(m0.tables, cursors, m0.frames), World(m1.tables, cursors[root := FIRST_FREE], m1.frames),
                 Opens(root, FIRST_FREE, Grant(0x1000_0000, stack)))
  {
    SlotCounts();
    ReadyUnmapped(m1.tables, nodes1, m1.roots, root, table, index, FIRST_FREE);
    forall r: nat, page: nat | r in cursors
      ensures Lookup(m1.tables, r, page) == Lookup(m0.tables, r, page)
    {
      SameLookup(m0.tables, m1.tables, m0.roots, r, page);
    }
  }

  /** The i-th call of a run set up an address space, with this stack. */
  ghost predicate SetUp(events: seq<Event>, i: nat, root: nat, stack: seq<nat>) {
    i < |events| && |stack| == 8 && events[i] == Opens(root, FIRST_FREE, Grant(0x1000_0000, stack))
  }

  /** Main result. However many processes are started, and whatever all of them map and unmap in between, no frame backs
      two of their stack pages. */
  lemma StacksApart(states: seq<World>, events: seq<Event>, i: nat, r: nat, stack: seq<nat>, a: nat,
                    k: nat, r': nat, stack': seq<nat>, b: nat)
    requires Run(states, events) && SetUp(events, i, r, stack) && SetUp(events, k, r', stack') && a < 8 && b < 8
    ensures stack[a] == stack'[b] <==> i == k && a == b
  {
    FrameAligned(states, events, i, r, Grant(0x1000_0000, stack), a);
    if i < k {
      GrantsApart(states, events, i, k, r, Grant(0x1000_0000, stack), r', Grant(0x1000_0000, stack'));
    } else if k < i {
      GrantsApart(states, events, k, i, r', Grant(0x1000_0000, stack'), r, Grant(0x1000_0000, stack));
    }
  }

  predicate OnStack(a: nat) {
    0x100_0000_0000 <= a < 0x100_0000_8000
  }

  function StackPage(a: nat): nat
    requires OnStack(a)
  {
    (a - 0x100_0000_0000) / PAGE
  }

  lemma StackAddress(a: nat)
    requires OnStack(a)
    ensures StackPage(a) < 8 && a == (0x1000_0000 + StackPage(a)) * PAGE + a % PAGE
  {}

  /** Main result. At any time the stacks of two processes, which have the same virtual addresses, share no byte of
      physical memory, unless one of the two unmapped or remapped its own stack page. */
  lemma StackMemoryApart(states: seq<World>, events: seq<Event>, nodes: map<nat, Node>, roots: set<nat>, k: nat,
                         i: nat, r: nat, stack: seq<nat>, a: nat, i': nat, r': nat, stack': seq<nat>, b: nat)
    requires Run(states, events) && k < |states| && r in roots && r' in roots && Tree(states[k].t, nodes, roots)
    requires SetUp(events, i, r, stack) && SetUp(events, i', r', stack') && i < k && i' < k && i != i'
    requires OnStack(a) && Untouched(events, i + 1, k, r, 0x1000_0000 + StackPage(a))
    requires OnStack(b) && Untouched(events, i' + 1, k, r', 0x1000_0000 + StackPage(b))
    ensures Translate(states[k].t, nodes, roots, r, a) != Translate(states[k].t, nodes, roots, r', b)
  {
    hide Translate, Lookup, StackPage;
    StackAddress(a);
    StackAddress(b);
    GrantedMemoryApart(states, events, nodes, roots, k,
                       i, r, Grant(0x1000_0000, stack), StackPage(a), a % PAGE,
                       i', r', Grant(0x1000_0000, stack'), StackPage(b), b % PAGE);
  }

  /** Where an address of low memory, of the APIC's page or of the stack is to lie. */
  function Placed(max: nat, physicalAddress: nat, stack: seq<nat>, a: nat): Option<nat>
    requires |stack| == 8
  {
    if a < max then Some(a)
    else if APIC <= a < APIC + PAGE then Some(physicalAddress % 0x10_0000_0000_0000 + a % PAGE)
    else if 0x100_0000_0000 <= a < 0x100_0000_8000 then Some(stack[(a - 0x100_0000_0000) / PAGE] + a % PAGE)
    else None
  }

  /** Main result. In a finished address space, with identity mapping by 1 GiB or by 2 MiB pages, every address
      below the top of memory is translated to itself, the fixed APIC address to the APIC's page, and the eight
      pages below the initial stack pointer to their frames. */
  lemma BuiltTranslates(t: Tables, nodes: map<nat, Node>, roots: set<nat>, root: nat, max: nat, physicalAddress: nat,
                        stack: seq<nat>, a: nat)
    requires root in roots && Tree(t, nodes, roots) && max <= TOP && Built(t, root, max, physicalAddress, stack)
    requires Placed(max, physicalAddress, stack, a).Some?
    ensures Translate(t, nodes, roots, root, a) == Placed(max, physicalAddress, stack, a)
  {
    hide Translate;
    var frame := BuiltPage(t, root, max, physicalAddress, stack, a);
    PageTranslates(t, nodes, roots, root, a / PAGE, frame, a % PAGE);
  }

  /** Main result. In a finished address space stores are allowed to every address of low memory, of the APIC's page and
      of the stack. The leaves of the stack pages, and no others, have the user bit; user mode may still access none. */
  lemma BuiltAllows(t: Tables, nodes: map<nat, Node>, roots: set<nat>, root: nat, max: nat, physicalAddress: nat,
                    stack: seq<nat>, a: nat)
    requires root in roots && Tree(t, nodes, roots) && max <= TOP && Built(t, root, max, physicalAddress, stack)
    requires Placed(max, physicalAddress, stack, a).Some?
    ensures StoresAllowed(t, root, PageOf(a)) && !UserAllowed(t, root, PageOf(a))
    ensures LeafOf(t, root, PageOf(a)).everyone <==> 0x100_0000_0000 <= a < 0x100_0000_8000
  {
    hide LeafOf, StoresAllowed, UserAllowed, Tree;
    SlotCounts();
    var frame := BuiltPage(t, root, max, physicalAddress, stack, a);
    assert PageOf(a) == a / PAGE;
    WalkAllows(t, nodes, roots, root, a / PAGE);
    if 0x100_0000_0000 <= a {
      assert StackPageAt(t, root, 0x1000_0000 + (a - 0x100_0000_0000) / PAGE, stack[(a - 0x100_0000_0000) / PAGE]);
    }
  }

  lemma BuiltPage(t: Tables, root: nat, max: nat, physicalAddress: nat, stack: seq<nat>, a: nat) returns (frame: nat)
    requires max <= TOP && Built(t, root, max, physicalAddress, stack)
    requires Placed(max, physicalAddress, stack, a).Some?
    ensures a / PAGE < Slots(1) && Lookup(t, root, a / PAGE) == Some(frame)
    ensures Placed(max, physicalAddress, stack, a) == Some(frame + a % PAGE)
  {
    SlotCounts();
    if a < max {
      frame := a / PAGE * PAGE;
    } else if a < 0x100_0000_0000 {
      frame := physicalAddress % 0x10_0000_0000_0000;
      assert a / PAGE == 0x800_0000;
    } else {
      var i := (a - 0x100_0000_0000) / PAGE;
      frame := stack[i];
      assert a / PAGE == 0x1000_0000 + i;
    }
  }
}
