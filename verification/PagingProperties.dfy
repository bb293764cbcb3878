/** What the mapping and unmapping calls mean for translated addresses. */
module PagingProperties {
  import opened Wrappers
  import opened PageTables
  import opened AddressSpace
  import opened PagingCursor

  // ----- Arithmetic of addresses in a run

  /** The 64-bit sum the source masks keeps bits 12 to 51 of the sum. */
  lemma PhysicalOfRun(q: nat)
    ensures PhysicalBits(AddressBits(q * PAGE % 0x1_0000_0000_0000_0000)) == q * PAGE % 0x10_0000_0000_0000
                                                                          == q % 0x100_0000_0000 * PAGE
  {
    var h64, r64 := q / 0x10_0000_0000_0000, q % 0x10_0000_0000_0000;
    Quotient(q * PAGE, 0x1_0000_0000_0000_0000, h64, r64 * PAGE);
    Quotient(r64 * PAGE, PAGE, r64, 0);
    var h51, r51 := r64 / 0x8_0000_0000_0000, r64 % 0x8_0000_0000_0000;
    Quotient(r51 * PAGE, PAGE, r51, 0);
    var h40, r40 := r51 / 0x100_0000_0000, r51 % 0x100_0000_0000;
    Quotient(q, 0x100_0000_0000, h64 * 0x1000 + h51 * 0x800 + h40, r40);
    Quotient(q * PAGE, 0x10_0000_0000_0000, h64 * 0x1000 + h51 * 0x800 + h40, r40 * PAGE);
  }

  /** Adding an offset below an alignment that divides 2^52 does not carry past bit 51. */
  lemma OffsetFits(q: nat, size: nat, w: nat)
    requires size == 0x1000 || size == 0x20_0000 || size == 0x4000_0000
    requires w < size
    ensures (q * size + w) % 0x10_0000_0000_0000 == q * size % 0x10_0000_0000_0000 + w
  {
    if size == 0x1000 {
      var h, r := q / 0x100_0000_0000, q % 0x100_0000_0000;
      Quotient(q * 0x1000 + w, 0x10_0000_0000_0000, h, r * 0x1000 + w);
      Quotient(q * 0x1000, 0x10_0000_0000_0000, h, r * 0x1000);
    } else if size == 0x20_0000 {
      var h, r := q / 0x8000_0000, q % 0x8000_0000;
      Quotient(q * 0x20_0000 + w, 0x10_0000_0000_0000, h, r * 0x20_0000 + w);
      Quotient(q * 0x20_0000, 0x10_0000_0000_0000, h, r * 0x20_0000);
    } else {
      var h, r := q / 0x40_0000, q % 0x40_0000;
      Quotient(q * 0x4000_0000 + w, 0x10_0000_0000_0000, h, r * 0x4000_0000 + w);
      Quotient(q * 0x4000_0000, 0x10_0000_0000_0000, h, r * 0x4000_0000);
    }
  }

  lemma SlotCounts()
    ensures Slots(4) == 512 && Slots(3) == 0x4_0000 && Slots(2) == 0x800_0000 && Slots(1) == 0x10_0000_0000
  {
    assert Slots(3) == Slots(4) * 512;
    assert Slots(2) == Slots(3) * 512;
    assert Slots(1) == Slots(2) * 512;
  }

  lemma RunDigits1(s: nat, i: nat, w: nat)
    requires s % 0x10_0000_0000 + i < 0x10_0000_0000 && w < PAGE
    ensures PageOf((s + i) * PAGE + w) == s % 0x10_0000_0000 + i && ((s + i) * PAGE + w) % PAGE == w
  {
    var h, n := s / 0x10_0000_0000, s % 0x10_0000_0000;
    Quotient((s + i) * PAGE + w, PAGE, s + i, w);
    Quotient(s + i, 0x10_0000_0000, h, n + i);
  }

  lemma RunDigits2(s: nat, i: nat, w: nat)
    requires s % 0x800_0000 + i < 0x800_0000 && w < 0x20_0000
    ensures var to := (s + i) * 0x20_0000 + w;
            && PageOf(to) / 512 == s % 0x800_0000 + i
            && PageOf(to) % 512 == w / PAGE && to % PAGE == w % PAGE
  {
    var h, n, u := s / 0x800_0000, s % 0x800_0000, w / PAGE;
    Quotient((s + i) * 0x20_0000 + w, PAGE, (s + i) * 512 + u, w % PAGE);
    Quotient((s + i) * 512 + u, 0x10_0000_0000, h, (n + i) * 512 + u);
    Quotient((n + i) * 512 + u, 512, n + i, u);
  }

  lemma RunDigits3(s: nat, i: nat, w: nat)
    requires s % 0x4_0000 + i < 0x4_0000 && w < 0x4000_0000
    ensures var to := (s + i) * 0x4000_0000 + w;
            && PageOf(to) / 512 / 512 == s % 0x4_0000 + i
            && PageOf(to) % (512 * 512) == w / PAGE && to % PAGE == w % PAGE
  {
    var h, n, u := s / 0x4_0000, s % 0x4_0000, w / PAGE;
    Quotient((s + i) * 0x4000_0000 + w, PAGE, (s + i) * 0x4_0000 + u, w % PAGE);
    Quotient((s + i) * 0x4_0000 + u, 0x10_0000_0000, h, (n + i) * 0x4_0000 + u);
    Quotient((n + i) * 0x4_0000 + u, 0x4_0000, n + i, u);
    assert ((n + i) * 0x4_0000 + u) / 512 / 512 == ((n + i) * 0x4_0000 + u) / 0x4_0000;
  }

  /** `offset` bytes past the start of the slot of `address` lie in slot n + offset / size, at byte
      offset % size of it. */
  lemma RunDigits(address: nat, level: nat, offset: nat)
    requires 1 <= level <= 3
    requires SlotOf(PageOf(address), level) + offset / LeafBytes(level, 1) < Slots(level)
    ensures var size := LeafBytes(level, 1);
            var to := address - address % size + offset;
            var q := PageOf(to);
            && SlotOf(q, level) == SlotOf(PageOf(address), level) + offset / size
            && q % Span(level) * PAGE + to % PAGE == offset % size
  {
    hide SlotOf, PageOf;
    if level == 1 {
      Start1(address, offset);
    } else if level == 2 {
      Start2(address, offset);
    } else {
      Start3(address, offset);
    }
  }

  lemma Start1(address: nat, offset: nat)
    requires SlotOf(PageOf(address), 1) + offset / PAGE < Slots(1)
    ensures var to := address - address % PAGE + offset;
            SlotOf(PageOf(to), 1) == SlotOf(PageOf(address), 1) + offset / PAGE && to % PAGE == offset % PAGE
  {
    SlotCounts();
    AddressDigits(address);
    var to := address - address % PAGE + offset;
    AddressDigits(to);
    assert to == (address / PAGE + offset / PAGE) * PAGE + offset % PAGE;
    RunDigits1(address / PAGE, offset / PAGE, offset % PAGE);
  }

  lemma Start2(address: nat, offset: nat)
    requires SlotOf(PageOf(address), 2) + offset / 0x20_0000 < Slots(2)
    ensures var to := address - address % 0x20_0000 + offset;
            && SlotOf(PageOf(to), 2) == SlotOf(PageOf(address), 2) + offset / 0x20_0000
            && PageOf(to) % 512 * PAGE + to % PAGE == offset % 0x20_0000
  {
    var to := address - address % 0x20_0000 + offset;
    SlotCounts();
    Level2Slot(address);
    AddressDigits(to);
    assert to == (address / 0x20_0000 + offset / 0x20_0000) * 0x20_0000 + offset % 0x20_0000;
    RunDigits2(address / 0x20_0000, offset / 0x20_0000, offset % 0x20_0000);
  }

  lemma Start3(address: nat, offset: nat)
    requires SlotOf(PageOf(address), 3) + offset / 0x4000_0000 < Slots(3)
    ensures var to := address - address % 0x4000_0000 + offset;
            && SlotOf(PageOf(to), 3) == SlotOf(PageOf(address), 3) + offset / 0x4000_0000
            && PageOf(to) % (512 * 512) * PAGE + to % PAGE == offset % 0x4000_0000
  {
    var to := address - address % 0x4000_0000 + offset;
    SlotCounts();
    Level3Slot(address);
    AddressDigits(to);
    assert to == (address / 0x4000_0000 + offset / 0x4000_0000) * 0x4000_0000 + offset % 0x4000_0000;
    RunDigits3(address / 0x4000_0000, offset / 0x4000_0000, offset % 0x4000_0000);
  }

  lemma Level2Slot(address: nat)
    ensures SlotOf(PageOf(address), 2) == address / 0x20_0000 % 0x800_0000
  {
    AddressDigits(address);
    Digits(address);
    PageDigits(address / PAGE);
  }

  lemma Level3Slot(address: nat)
    ensures SlotOf(PageOf(address), 3) == address / 0x4000_0000 % 0x4_0000
  {
    AddressDigits(address);
    Digits(address);
    PageDigits(address / PAGE);
  }

  // ----- Mapping

  /** The translation of every page after a mapping call that returned success and whose table was not misplaced:
      the pages of the run are mapped one after the other, and every other page of every address space is where it
      was. */
  lemma LeavesRemap(t0: Tables, t1: Tables, roots: set<nat>, root: nat, address: nat, bytes: nat, flags: Flags,
                    refused: bool, leaves: seq<Entry>)
    requires root in roots && Mappable(t0, root, address, bytes, flags)
    requires Succeeded(t0, t1, roots, root, address, bytes, flags, refused, leaves)
    requires !Misplaced(t0, root, PageOf(address), flags)
    requires forall e | e in leaves :: Leaf(e, TargetLevel(t0, root, PageOf(address), flags))
    ensures var page := PageOf(address);
            var level := TargetLevel(t0, root, page, flags);
            && |leaves| == PageCount(bytes, level) && SlotOf(page, level) + |leaves| <= Slots(level)
            && Remapped(t0, t1, roots, root, level, SlotOf(page, level), leaves)
  {
    var page := PageOf(address);
    UpDigits(page);
    FilledIsRemapped(t0, t1, roots, root, TargetLevel(t0, root, page, flags),
                     SlotOf(page, TargetLevel(t0, root, page, flags)), leaves);
  }

  lemma MapRemaps(t0: Tables, t1: Tables, roots: set<nat>, root: nat, address: nat, physicalAddress: nat, bytes: nat,
                  flags: Flags, hugePages: bool, count: nat)
    requires root in roots && Mappable(t0, root, address, bytes, flags)
    requires MapResult(t0, t1, roots, root, address, physicalAddress, bytes, flags, hugePages, count, Succeeds)
    requires !Misplaced(t0, root, PageOf(address), flags)
    ensures var page := PageOf(address);
            var level := TargetLevel(t0, root, page, flags);
            && count == PageCount(bytes, level) && SlotOf(page, level) + count <= Slots(level)
            && physicalAddress % LeafBytes(level, 1) == 0
            && Remapped(t0, t1, roots, root, level, SlotOf(page, level),
                        RunLeaves(physicalAddress, level, flags, count))
  {
    var level := TargetLevel(t0, root, PageOf(address), flags);
    RunLeavesAreLeaves(physicalAddress, level, flags, count);
    LeavesRemap(t0, t1, roots, root, address, bytes, flags,
                MapAtRefused(t0, root, address, physicalAddress, bytes, flags, hugePages),
                RunLeaves(physicalAddress, level, flags, count));
  }

  /** A page count covers its bytes and less than one page more. */
  lemma PageCountCovers(bytes: nat, level: nat)
    requires 1 <= level <= 3 && 0 < bytes < 0x1_0000_0000_0000_0000
    ensures bytes <= LeafBytes(level, PageCount(bytes, level)) < bytes + LeafBytes(level, 1)
  {
    assert (bytes + 0xFFFF_FFFF_FFFF_FFFF) % 0x1_0000_0000_0000_0000 == bytes - 1;
  }

  /** The 48 bits of an address that select a translation. */
  function Low48(address: nat): nat {
    address % 0x1_0000_0000_0000
  }

  /** The first address of the slot an address lies in. */
  function Start(address: nat, level: nat): nat
    requires 1 <= level <= 3
  {
    address - address % LeafBytes(level, 1)
  }

  lemma Low48Digits(address: nat)
    ensures Low48(address) == PageOf(address) * PAGE + address % PAGE
  {
    var h, r := address / PAGE / 0x10_0000_0000, address / PAGE % 0x10_0000_0000;
    Quotient(address, 0x1_0000_0000_0000, h, r * PAGE + address % PAGE);
  }

  lemma SlotOfLow(a: nat, level: nat)
    requires 1 <= level <= 3
    ensures SlotOf(PageOf(a), level) == Low48(a) / LeafBytes(level, 1)
    ensures a % LeafBytes(level, 1) == Low48(a) % LeafBytes(level, 1)
  {
    AddressDigits(a);
    Low48Digits(a);
    var low, h := Low48(a), a / 0x1_0000_0000_0000;
    if level == 1 {
      Quotient(a, PAGE, h * 0x10_0000_0000 + low / PAGE, low % PAGE);
    } else if level == 2 {
      Quotient(a, 0x20_0000, h * 0x800_0000 + low / 0x20_0000, low % 0x20_0000);
      Digits(low);
    } else {
      Quotient(a, 0x4000_0000, h * 0x4_0000 + low / 0x4000_0000, low % 0x4000_0000);
      Digits(low);
    }
  }

  lemma StartOfLow(a: nat, level: nat)
    requires 1 <= level <= 3
    ensures Low48(Start(a, level)) == LeafBytes(level, SlotOf(PageOf(a), level))
  {
    hide PageOf;
    SlotOfLow(a, level);
    var size, low, h := LeafBytes(level, 1), Low48(a), a / 0x1_0000_0000_0000;
    Quotient(a - a % size, 0x1_0000_0000_0000, h, low - low % size);
  }

  /** The slots of a run are the addresses of its page-rounded range. */
  lemma RunRange(address: nat, level: nat, count: nat, a: nat)
    requires 1 <= level <= 3
    ensures var n := SlotOf(PageOf(address), level);
            n <= SlotOf(PageOf(a), level) < n + count <==>
            Low48(Start(address, level)) <= Low48(a) < Low48(Start(address, level)) + LeafBytes(level, count)
  {
    StartOfLow(address, level);
    SlotOfLow(a, level);
    InUnits(Low48(a), level, SlotOf(PageOf(address), level), count);
  }

  /** Units of one page size. */
  lemma InUnits(x: nat, level: nat, n: nat, count: nat)
    requires 1 <= level <= 3
    ensures n <= x / LeafBytes(level, 1) < n + count <==>
            LeafBytes(level, n) <= x < LeafBytes(level, n) + LeafBytes(level, count)
  {
    if level == 1 {
      var q, r := x / PAGE, x % PAGE;
      assert x == q * PAGE + r;
    } else if level == 2 {
      var q, r := x / 0x20_0000, x % 0x20_0000;
      assert x == q * 0x20_0000 + r;
    } else {
      var q, r := x / 0x4000_0000, x % 0x4000_0000;
      assert x == q * 0x4000_0000 + r;
    }
  }

  /** Main result. After a mapping call that returned success and misplaced no table, each address of the
      page-rounded range
      translates to the same offset of the physical range, however many tables the run crossed or made. */
  lemma MapTranslates(t0: Tables, t1: Tables, nodes: map<nat, Node>, roots: set<nat>, root: nat, address: nat,
                      physicalAddress: nat,
                      bytes: nat, flags: Flags, hugePages: bool, count: nat, offset: nat)
    requires root in roots && Tree(t1, nodes, roots) && Mappable(t0, root, address, bytes, flags)
    requires MapResult(t0, t1, roots, root, address, physicalAddress, bytes, flags, hugePages, count, Succeeds)
    requires !Misplaced(t0, root, PageOf(address), flags)
    requires offset < LeafBytes(TargetLevel(t0, root, PageOf(address), flags), count)
    ensures var level := TargetLevel(t0, root, PageOf(address), flags);
            Translate(t1, nodes, roots, root, Start(address, level) + offset) ==
                  Some((physicalAddress + offset) % 0x10_0000_0000_0000)
  {
    hide Translate;
    var level := TargetLevel(t0, root, PageOf(address), flags);
    MapRemaps(t0, t1, roots, root, address, physicalAddress, bytes, flags, hugePages, count);
    RunTranslation(t0, t1, nodes, roots, root, level, address, physicalAddress, flags, count, offset);
  }

  lemma RunTranslation(t0: Tables, t1: Tables, nodes: map<nat, Node>, roots: set<nat>, root: nat, level: nat,
                       address: nat,
                       physicalAddress: nat, flags: Flags, count: nat, offset: nat)
    requires 1 <= level <= 3 && root in roots && Tree(t1, nodes, roots)
    requires offset < LeafBytes(level, count) && physicalAddress % LeafBytes(level, 1) == 0
    requires var n := SlotOf(PageOf(address), level);
             n + count <= Slots(level) && Remapped(t0, t1, roots, root, level, n,
                                                   RunLeaves(physicalAddress, level, flags, count))
    ensures Translate(t1, nodes, roots, root, Start(address, level) + offset) ==
              Some((physicalAddress + offset) % 0x10_0000_0000_0000)
  {
    hide Translate;
    var frame := RunLookup(t0, t1, roots, root, level, address, physicalAddress, flags, count, offset);
    LookupTranslates(t1, nodes, roots, root, Start(address, level) + offset, frame);
  }

  lemma LookupTranslates(t: Tables, nodes: map<nat, Node>, roots: set<nat>, root: nat, a: nat, frame: nat)
    requires root in roots && Tree(t, nodes, roots) && Lookup(t, root, PageOf(a)) == Some(frame)
    ensures Translate(t, nodes, roots, root, a) == Some(frame + a % PAGE)
  {
    TranslateIsLookup(t, nodes, roots, root, a);
  }

  lemma RunLookup(t0: Tables, t1: Tables, roots: set<nat>, root: nat, level: nat, address: nat, physicalAddress: nat,
                  flags: Flags, count: nat, offset: nat) returns (frame: nat)
    requires 1 <= level <= 3 && root in roots
    requires offset < LeafBytes(level, count) && physicalAddress % LeafBytes(level, 1) == 0
    requires var n := SlotOf(PageOf(address), level);
             n + count <= Slots(level) && Remapped(t0, t1, roots, root, level, n,
                                                   RunLeaves(physicalAddress, level, flags, count))
    ensures var to := Start(address, level) + offset;
            Lookup(t1, root, PageOf(to)) == Some(frame) && frame + to % PAGE ==
                  (physicalAddress + offset) % 0x10_0000_0000_0000
  {
    hide Lookup, PhysicalBits, Remapped, LeafIndex, Start, PageOf, SlotOf, Span;
    var n, leaves := SlotOf(PageOf(address), level), RunLeaves(physicalAddress, level, flags, count);
    var to, i := Start(address, level) + offset, LeafIndex(offset, level);
    RunPlace(address, level, offset, count);
    frame := RunFrame(level, physicalAddress, flags, count, offset, PageOf(to), to % PAGE);
    PageRemapped(t0, t1, roots, root, level, n, leaves, PageOf(to), i);
  }

  /** The leaf of a run that covers an offset. */
  function LeafIndex(offset: nat, level: nat): nat
    requires 1 <= level <= 3
  {
    offset / LeafBytes(level, 1)
  }

  lemma RunPlace(address: nat, level: nat, offset: nat, count: nat)
    requires 1 <= level <= 3 && offset < LeafBytes(level, count)
    requires SlotOf(PageOf(address), level) + count <= Slots(level)
    ensures var to := Start(address, level) + offset;
            && SlotOf(PageOf(to), level) == SlotOf(PageOf(address), level) + LeafIndex(offset, level)
            && PageOf(to) % Span(level) * PAGE + to % PAGE == offset % LeafBytes(level, 1)
  {
    SplitOffset(level, offset, count);
    RunDigits(address, level, offset);
  }

  lemma PageRemapped(t0: Tables, t1: Tables, roots: set<nat>, root: nat, level: nat, n: nat, leaves: seq<Entry>,
                     page: nat, i: nat)
    requires 1 <= level <= 3 && root in roots && Remapped(t0, t1, roots, root, level, n, leaves)
    requires i < |leaves| && SlotOf(page, level) == n + i && leaves[i] != ZERO
    ensures Lookup(t1, root, page) == Some(PhysicalBits(leaves[i].address) + page % Span(level) * PAGE)
  {
    hide Lookup;
    assert Lookup(t1, root, page) == RemappedTo(t0, root, level, n, leaves, root, page);
  }

  /** Where byte `w` of a page of the leaf that covers an offset lies. */
  lemma RunFrame(level: nat, physicalAddress: nat, flags: Flags, count: nat, offset: nat, page: nat, w: nat)
      returns (frame: nat)
    requires 1 <= level <= 3 && offset < LeafBytes(level, count) && physicalAddress % LeafBytes(level, 1) == 0
    requires page % Span(level) * PAGE + w == offset % LeafBytes(level, 1)
    ensures var i := LeafIndex(offset, level);
            && i < count && RunLeaves(physicalAddress, level, flags, count)[i] != ZERO
            && frame == PhysicalBits(RunLeaves(physicalAddress, level, flags, count)[i].address)
                        + page % Span(level) * PAGE
            && frame + w == (physicalAddress + offset) % 0x10_0000_0000_0000
  {
    var i := offset / LeafBytes(level, 1);
    SplitOffset(level, offset, count);
    LeafOfRun(physicalAddress, level, flags, count, i);
    LeafPhysical(physicalAddress, level, flags, i, offset % LeafBytes(level, 1));
    frame := PhysicalBits(RunLeaves(physicalAddress, level, flags, count)[i].address) + page % Span(level) * PAGE;
  }

  lemma SplitOffset(level: nat, offset: nat, count: nat)
    requires 1 <= level <= 3 && offset < LeafBytes(level, count)
    ensures var size := LeafBytes(level, 1);
            offset / size < count && LeafBytes(level, offset / size) + offset % size == offset
  {}

  lemma LeafPhysical(address: nat, level: nat, flags: Flags, i: nat, w: nat)
    requires 1 <= level <= 3 && address % LeafBytes(level, 1) == 0 && w < LeafBytes(level, 1)
    ensures PhysicalBits(LeafEntry((address + LeafBytes(level, i)) % 0x1_0000_0000_0000_0000, level, flags).address) + w
            == (address + LeafBytes(level, i) + w) % 0x10_0000_0000_0000
  {
    var size := LeafBytes(level, 1);
    var q := address / size + i;
    var pages := q * (size / PAGE);
    WholeSlots(address, level, i);
    PhysicalOfRun(pages);
    OffsetFits(q, size, w);
  }

  lemma WholeSlots(address: nat, level: nat, i: nat)
    requires 1 <= level <= 3 && address % LeafBytes(level, 1) == 0
    ensures var size := LeafBytes(level, 1);
            var q := address / size + i;
            address + LeafBytes(level, i) == q * size == q * (size / PAGE) * PAGE
  {
    if level == 1 {
      assert LeafBytes(level, 1) == PAGE;
    } else if level == 2 {
      assert LeafBytes(level, 1) == 0x20_0000;
    } else {
      assert LeafBytes(level, 1) == 0x4000_0000;
    }
  }

  /** Main result. After such a call each page of the range allows stores if and only if the flags ask for it. The leaf
      has the user bit as the flags ask, but user mode may not access the page either way. */
  lemma MapAllows(t0: Tables, t1: Tables, nodes: map<nat, Node>, roots: set<nat>, root: nat, address: nat,
                  physicalAddress: nat, bytes: nat, flags: Flags, hugePages: bool, count: nat, a: nat)
    requires root in roots && Tree(t1, nodes, roots) && Mappable(t0, root, address, bytes, flags)
    requires MapResult(t0, t1, roots, root, address, physicalAddress, bytes, flags, hugePages, count, Succeeds)
    requires !Misplaced(t0, root, PageOf(address), flags) && InRange(t0, root, address, flags, count, a)
    ensures StoresAllowed(t1, root, PageOf(a)) <==> flags.write
    ensures LeafOf(t1, root, PageOf(a)).everyone == flags.user && !UserAllowed(t1, root, PageOf(a))
  {
    hide Slot, PageOf, Low48, Lookup, LeafOf, StoresAllowed, UserAllowed;
    var page, q := PageOf(address), PageOf(a);
    var level := TargetLevel(t0, root, page, flags);
    var n, leaves := SlotOf(page, level), RunLeaves(physicalAddress, level, flags, count);
    RunRange(address, level, count, a);
    UpDigits(page);
    LeafOfRun(physicalAddress, level, flags, count, SlotOf(q, level) - n);
    assert NoLeafAbove(t0, root, level, SlotOf(q, level));
    FilledLeaf(t0, t1, roots, root, level, n, leaves, q);
    FilledInside(t0, t1, roots, root, level, n, leaves, q);
    WalkAllows(t1, nodes, roots, root, q);
  }

  /** Main result. However a mapping call that misplaces no table ends, unless it never ends or goes astray: whatever
      tables it created, no address outside the page-rounded range of the pages it mapped, in this or any other
      address space, is translated differently. */
  lemma MapKeepsOthers(t0: Tables, nodes0: map<nat, Node>, t1: Tables, nodes1: map<nat, Node>, roots: set<nat>,
                       root: nat, address: nat, physicalAddress: nat, bytes: nat, flags: Flags, hugePages: bool,
                       count: nat, outcome: Outcome, r: nat, a: nat)
    requires root in roots && r in roots && Tree(t0, nodes0, roots) && Tree(t1, nodes1, roots)
    requires MapResult(t0, t1, roots, root, address, physicalAddress, bytes, flags, hugePages, count, outcome)
    requires !outcome.Spins? && !outcome.Strays? && !Misplaced(t0, root, PageOf(address), flags)
    requires r == root && !outcome.Refuses? ==> !InRange(t0, root, address, flags, count, a)
    ensures Translate(t1, nodes1, roots, r, a) == Translate(t0, nodes0, roots, r, a)
  {
    hide Translate;
    var level := TargetLevel(t0, root, PageOf(address), flags);
    if outcome.Refuses? {
      FilledMisses(t0, nodes0, t1, nodes1, roots, root, level, address, [], r, a);
    } else {
      FilledMisses(t0, nodes0, t1, nodes1, roots, root, level, address,
                   RunLeaves(physicalAddress, level, flags, count), r, a);
    }
  }

  /** An address of the page-rounded range of a mapping call. */
  ghost predicate InRange(t: Tables, root: nat, address: nat, flags: Flags, count: nat, a: nat) {
    var level := TargetLevel(t, root, PageOf(address), flags);
    var low := Low48(Start(address, level));
    low <= Low48(a) < low + LeafBytes(level, count)
  }

  lemma FilledMisses(t0: Tables, nodes0: map<nat, Node>, t1: Tables, nodes1: map<nat, Node>, roots: set<nat>,
                     root: nat, level: nat, address: nat, leaves: seq<Entry>, r: nat, a: nat)
    requires 1 <= level <= 3 && root in roots && r in roots && Tree(t0, nodes0, roots) && Tree(t1, nodes1, roots)
    requires Filled(t0, t1, roots, root, level, SlotOf(PageOf(address), level), leaves)
    requires var low := Low48(Start(address, level));
             r == root ==> !(low <= Low48(a) < low + LeafBytes(level, |leaves|))
    ensures Translate(t1, nodes1, roots, r, a) == Translate(t0, nodes0, roots, r, a)
  {
    hide Translate;
    RunRange(address, level, |leaves|, a);
    FilledOutside(t0, t1, roots, root, level, SlotOf(PageOf(address), level), leaves, r, PageOf(a));
    TranslateIsLookup(t0, nodes0, roots, r, a);
    TranslateIsLookup(t1, nodes1, roots, r, a);
  }

  lemma RunMisses(t0: Tables, nodes0: map<nat, Node>, t1: Tables, nodes1: map<nat, Node>, roots: set<nat>, root: nat,
                  level: nat, address: nat, leaves: seq<Entry>, r: nat, a: nat)
    requires 1 <= level <= 3 && root in roots && r in roots && Tree(t0, nodes0, roots) && Tree(t1, nodes1, roots)
    requires Remapped(t0, t1, roots, root, level, SlotOf(PageOf(address), level), leaves)
    requires var low := Low48(Start(address, level));
             r == root ==> !(low <= Low48(a) < low + LeafBytes(level, |leaves|))
    ensures Translate(t1, nodes1, roots, r, a) == Translate(t0, nodes0, roots, r, a)
  {
    hide Translate;
    RunRange(address, level, |leaves|, a);
    assert Lookup(t1, r, PageOf(a)) ==
           RemappedTo(t0, root, level, SlotOf(PageOf(address), level), leaves, r, PageOf(a));
    TranslateIsLookup(t0, nodes0, roots, r, a);
    TranslateIsLookup(t1, nodes1, roots, r, a);
  }

  // ----- Exactly when a mapping call does what it is for

  /** How a mapping call at an address ends when physical memory does not run out, decided from the tables
      it starts with. */
  ghost function MapOutcome(t: Tables, root: nat, address: nat, physicalAddress: nat, bytes: nat, flags: Flags,
                            hugePages: bool): Outcome {
    var page := PageOf(address);
    var level := TargetLevel(t, root, page, flags);
    var n := SlotOf(page, level);
    if !Aligned(address, flags) || MapRefused(t, root, level, n, physicalAddress, bytes, flags, hugePages) then Refuses
    else if !NoStray(t, root, level, n, PageCount(bytes, level)) then Strays
    else if n + PageCount(bytes, level) >= Slots(level) then Overruns
    else Succeeds
  }

  /** A mapping call returns success if and only if it is not refused, its 1 GiB run meets no existing level-3
      table, and the slot after the run exists. */
  lemma MapEndsAs(t0: Tables, t1: Tables, roots: set<nat>, root: nat, address: nat, physicalAddress: nat, bytes: nat,
                  flags: Flags, hugePages: bool, count: nat, r: Outcome)
    requires MapResult(t0, t1, roots, root, address, physicalAddress, bytes, flags, hugePages, count, r) && r != Spins
    ensures r == MapOutcome(t0, root, address, physicalAddress, bytes, flags, hugePages)
  {
    var level := TargetLevel(t0, root, PageOf(address), flags);
    if r == Overruns {
      NoStrayBeyond(t0, root, level, SlotOf(PageOf(address), level), count, PageCount(bytes, level));
    }
  }

  /** No table hangs past the last slot of level 4. */
  lemma NoStrayBeyond(t: Tables, root: nat, level: nat, n: nat, count: nat, pages: nat)
    requires 1 <= level <= 3 && n + count == Slots(level) && NoStray(t, root, level, n, count)
    ensures NoStray(t, root, level, n, pages)
  {
    SlotCounts();
    forall m | n < m < n + pages
      ensures !StrayAt(t, root, level, m)
    {}
  }

  // ----- Exactly which mapping calls are refused, and how the others end

  /** Main result. A 4 KiB call is refused if and only if the address or the physical address is misaligned, nothing is
      to be mapped, or the address was translated before. */
  lemma SmallRefused(t0: Tables, nodes0: map<nat, Node>, t1: Tables, roots: set<nat>, root: nat, address: nat,
                     physicalAddress: nat, bytes: nat, flags: Flags, hugePages: bool, count: nat, r: Outcome)
    requires root in roots && Tree(t0, nodes0, roots) && Indexable(t0, root, PageOf(address), flags)
    requires MapResult(t0, t1, roots, root, address, physicalAddress, bytes, flags, hugePages, count, r) && r != Spins
    requires !flags.huge1G && !flags.huge2M && !Slot(t0, root, 2, PageOf(address) / 512).size
    ensures r == Refuses <==>
            address % 0x1000 != 0 || physicalAddress % 0x1000 != 0 || bytes == 0
            || Translate(t0, nodes0, roots, root, address) != None
  {
    hide Translate;
    UpDigits(PageOf(address));
    TranslateIsLookup(t0, nodes0, roots, root, address);
  }

  /** Main result. A huge-page call is refused if and only if an address is misaligned, nothing is to be mapped, 1 GiB
      pages are not supported but asked for, or its first slot is taken, by a page or by a table of smaller ones, and is
      not to be replaced. A 4 KiB call that meets a 2 MiB page is one with 2 MiB pages, and only replaces. */
  lemma HugeRefused(t0: Tables, t1: Tables, roots: set<nat>, root: nat, address: nat, physicalAddress: nat, bytes: nat,
                    flags: Flags, hugePages: bool, count: nat, r: Outcome)
    requires MapResult(t0, t1, roots, root, address, physicalAddress, bytes, flags, hugePages, count, r) && r != Spins
    ensures flags.huge1G ==>
              (r == Refuses <==>
               address % 0x4000_0000 != 0 || physicalAddress % 0x4000_0000 != 0 || bytes == 0 || !hugePages
               || (!flags.replace && Slot(t0, root, 3, PageOf(address) / 512 / 512) != ZERO))
    ensures !flags.huge1G && flags.huge2M ==>
              (r == Refuses <==>
               address % 0x20_0000 != 0 || physicalAddress % 0x20_0000 != 0 || bytes == 0
               || (!flags.replace && Slot(t0, root, 2, PageOf(address) / 512) != ZERO))
    ensures !flags.huge1G && !flags.huge2M && Slot(t0, root, 2, PageOf(address) / 512).size ==>
              (r == Refuses <==>
               address % 0x1000 != 0 || physicalAddress % 0x20_0000 != 0 || bytes == 0 || !flags.replace)
  {
    UpDigits(PageOf(address));
  }

  /** Main result. A call that is not refused overwrites no mapping: no address of the first of its pages was translated
      before, unless it was to be replaced by a huge page. */
  lemma MapsUnmapped(t0: Tables, nodes0: map<nat, Node>, t1: Tables, roots: set<nat>, root: nat, address: nat,
                     physicalAddress: nat, bytes: nat, flags: Flags, hugePages: bool, count: nat, r: Outcome, a: nat)
    requires root in roots && Tree(t0, nodes0, roots) && Indexable(t0, root, PageOf(address), flags)
    requires MapResult(t0, t1, roots, root, address, physicalAddress, bytes, flags, hugePages, count, r)
    requires r != Spins && r != Refuses
    requires var size := if flags.huge1G then 0x4000_0000 else if flags.huge2M then 0x20_0000 else 0x1000;
             Low48(a) / size == Low48(address) / size
    requires !flags.replace || (!flags.huge1G && !flags.huge2M && !Slot(t0, root, 2, PageOf(address) / 512).size)
    ensures Translate(t0, nodes0, roots, root, a) == None
  {
    hide Translate, Low48;
    var page, q := PageOf(address), PageOf(a);
    UpDigits(page);
    UpDigits(q);
    TranslateIsLookup(t0, nodes0, roots, root, a);
    var level := if flags.huge1G then 3 else if flags.huge2M then 2 else 1;
    SlotOfLow(a, level);
    SlotOfLow(address, level);
    if level == 3 {
      NothingUnder(t0, root, 2, q / 512, 3);
      NothingUnder(t0, root, 1, q, 3);
    } else if level == 2 {
      NothingUnder(t0, root, 1, q, 2);
    }
  }

  /** How a call ends that is not refused: one with 1 GiB pages goes astray if and only if a later page of it starts a
      level-3 table that exists, any other one runs off the end of the address space if and only if its pages reach
      it. */
  lemma MapStraysOrOverruns(t0: Tables, t1: Tables, roots: set<nat>, root: nat, address: nat, physicalAddress: nat,
                            bytes: nat, flags: Flags, hugePages: bool, count: nat, r: Outcome)
    requires MapResult(t0, t1, roots, root, address, physicalAddress, bytes, flags, hugePages, count, r)
    requires r != Spins && r != Refuses && bytes < 0x1_0000_0000_0000_0000
    ensures r == Strays <==>
            flags.huge1G &&
            exists m: nat ::
              PageOf(address) / 512 / 512 < m <= PageOf(address) / 512 / 512 + (bytes - 1) / 0x4000_0000
              && m % 512 == 0 && Slot(t0, root, 4, m / 512) != ZERO
    ensures r == Overruns <==>
            r != Strays &&
            if flags.huge1G then PageOf(address) / 512 / 512 + (bytes - 1) / 0x4000_0000 >= 0x3_FFFF
            else if flags.huge2M || Slot(t0, root, 2, PageOf(address) / 512).size then
              PageOf(address) / 512 + (bytes - 1) / 0x20_0000 >= 0x7FF_FFFF
            else PageOf(address) + (bytes - 1) / 0x1000 >= 0xF_FFFF_FFFF
  {
    hide Slot, MapResult, PageOf;
    var page := PageOf(address);
    var level := TargetLevel(t0, root, page, flags);
    UpDigits(page);
    MapEndsAs(t0, t1, roots, root, address, physicalAddress, bytes, flags, hugePages, count, r);
    StraysWhen(t0, root, level, SlotOf(page, level), bytes);
    OverrunsWhen(level, SlotOf(page, level), bytes);
  }

  lemma StraysWhen(t: Tables, root: nat, level: nat, n: nat, bytes: nat)
    requires 1 <= level <= 3 && 0 < bytes < 0x1_0000_0000_0000_0000
    ensures !NoStray(t, root, level, n, PageCount(bytes, level)) <==>
            level == 3 &&
            exists m: nat :: n < m <= n + (bytes - 1) / 0x4000_0000 && m % 512 == 0 && Slot(t, root, 4, m / 512) != ZERO
  {
    hide Slot;
    assert level == 3 ==> PageCount(bytes, 3) == (bytes - 1) / 0x4000_0000 + 1;
    if !NoStray(t, root, level, n, PageCount(bytes, level)) {
      var m: nat :| n < m < n + PageCount(bytes, level) && StrayAt(t, root, level, m);
      assert n < m <= n + (bytes - 1) / 0x4000_0000 && m % 512 == 0 && Slot(t, root, 4, m / 512) != ZERO;
    }
    if m: nat :| level == 3 && n < m <= n + (bytes - 1) / 0x4000_0000 && m % 512 == 0
                 && Slot(t, root, 4, m / 512) != ZERO {
      assert StrayAt(t, root, level, m);
    }
  }

  lemma OverrunsWhen(level: nat, n: nat, bytes: nat)
    requires 1 <= level <= 3 && 0 < bytes < 0x1_0000_0000_0000_0000
    ensures n + PageCount(bytes, level) >= Slots(level) <==>
            if level == 3 then n + (bytes - 1) / 0x4000_0000 >= 0x3_FFFF
            else if level == 2 then n + (bytes - 1) / 0x20_0000 >= 0x7FF_FFFF
            else n + (bytes - 1) / 0x1000 >= 0xF_FFFF_FFFF
  {
    SlotCounts();
    assert (bytes + 0xFFFF_FFFF_FFFF_FFFF) % 0x1_0000_0000_0000_0000 == bytes - 1;
  }

  /** Main result. Mapping free frames at an address is refused if and only if the address is misaligned, nothing is to
      be mapped, huge pages are asked for or met, or the address was translated before. */
  lemma FramesRefusedWhen(t0: Tables, nodes0: map<nat, Node>, t1: Tables, roots: set<nat>, root: nat, address: nat,
                          bytes: nat, flags: Flags, leaves: seq<Entry>, r: Outcome)
    requires root in roots && Tree(t0, nodes0, roots) && Indexable(t0, root, PageOf(address), flags) && r != Spins
    requires LeavesMapped(t0, t1, roots, root, address, bytes, flags, FramesRefused(t0, root, address, bytes, flags),
                          leaves, r)
    ensures r == Refuses <==>
            address % 0x1000 != 0 || bytes == 0 || flags.huge1G || flags.huge2M
            || Translate(t0, nodes0, roots, root, address) != None
  {
    hide Translate;
    UpDigits(PageOf(address));
    TranslateIsLookup(t0, nodes0, roots, root, address);
  }

  /** used_virtual_pages counts the 4 KiB pages of the pages mapped, once, and only for a call that returns success. */
  lemma CountedPages(used: nat, used': nat, level: nat, count: nat, r: Outcome)
    requires 1 <= level <= 3 && Counted(used, used', level, count, r) && r != Strays
    ensures used' == if r == Succeeds then (used + LeafBytes(level, count) / 0x1000) % 0x1_0000_0000_0000_0000
                     else used
  {}

  // ----- What a misplaced table does to a call that returns success

  /** Where byte `w` of page `q` of an address space is translated after such a call mapped `count` pages at `page`;
      `before` is where it was. */
  function MisplacedTo(before: Option<nat>, page: nat, physicalAddress: nat, count: nat, q: nat, w: nat): Option<nat> {
    match FateOf(page, count, q)
    case Gets(i) => Some((physicalAddress + i * PAGE + w) % 0x10_0000_0000_0000)
    case Loses => None
    case Keeps => before
  }

  /** Main result. After a call that returned success but misplaced its table, for every address of every address
      space. */
  lemma MisplacedTranslates(t0: Tables, nodes0: map<nat, Node>, t1: Tables, nodes1: map<nat, Node>, roots: set<nat>,
                            root: nat, address: nat, physicalAddress: nat, bytes: nat, flags: Flags, hugePages: bool,
                            count: nat, r: nat, a: nat)
    requires root in roots && r in roots && Tree(t0, nodes0, roots) && Tree(t1, nodes1, roots)
    requires MapResult(t0, t1, roots, root, address, physicalAddress, bytes, flags, hugePages, count, Succeeds)
    requires Misplaced(t0, root, PageOf(address), flags)
    ensures Translate(t1, nodes1, roots, r, a) ==
            if r != root then Translate(t0, nodes0, roots, r, a)
            else MisplacedTo(Translate(t0, nodes0, roots, r, a), PageOf(address), physicalAddress, count, PageOf(a),
                             a % PAGE)
  {
    hide Translate;
    MisplacedRuns(t0, t1, roots, root, address, physicalAddress, bytes, flags, hugePages, count);
    TranslateIsLookup(t0, nodes0, roots, r, a);
    TranslateIsLookup(t1, nodes1, roots, r, a);
    MisplacedLooked(t0, t1, roots, root, PageOf(address), physicalAddress, flags, count, r, PageOf(a), a % PAGE);
  }

  function Shifted(frame: Option<nat>, w: nat): Option<nat> {
    match frame
    case None => None
    case Some(f) => Some(f + w)
  }

  lemma MisplacedLooked(t0: Tables, t1: Tables, roots: set<nat>, root: nat, page: nat, physicalAddress: nat,
                        flags: Flags, count: nat, r: nat, q: nat, w: nat)
    requires r in roots && physicalAddress % PAGE == 0 && w < PAGE
    requires AsideRemapped(t0, t1, roots, root, page, RunLeaves(physicalAddress, 1, flags, count))
    ensures Shifted(Lookup(t1, r, q), w) ==
            if r != root then Shifted(Lookup(t0, r, q), w)
            else MisplacedTo(Shifted(Lookup(t0, r, q), w), page, physicalAddress, count, q, w)
  {
    assert Lookup(t1, r, q) == AsideTo(t0, root, page, RunLeaves(physicalAddress, 1, flags, count), r, q);
    AsideShifted(Lookup(t0, r, q), page, physicalAddress, flags, count, q, w);
  }

  lemma AsideShifted(before: Option<nat>, page: nat, physicalAddress: nat, flags: Flags, count: nat, q: nat, w: nat)
    requires physicalAddress % PAGE == 0 && w < PAGE
    ensures Shifted(AsideFrame(before, page, RunLeaves(physicalAddress, 1, flags, count), q), w) ==
            MisplacedTo(Shifted(before, w), page, physicalAddress, count, q, w)
  {
    match FateOf(page, count, q)
    case Gets(i) => LeafFrame(physicalAddress, flags, count, i, w);
    case Loses =>
    case Keeps =>
  }

  lemma LeafFrame(address: nat, flags: Flags, count: nat, i: nat, w: nat)
    requires i < count && address % PAGE == 0 && w < PAGE
    ensures PhysicalBits(RunLeaves(address, 1, flags, count)[i].address) + w ==
              (address + i * PAGE + w) % 0x10_0000_0000_0000
  {
    LeafOfRun(address, 1, flags, count, i);
    LeafPhysical(address, 1, flags, i, w);
  }

  lemma MisplacedRuns(t0: Tables, t1: Tables, roots: set<nat>, root: nat, address: nat, physicalAddress: nat,
                      bytes: nat,
                      flags: Flags, hugePages: bool, count: nat)
    requires MapResult(t0, t1, roots, root, address, physicalAddress, bytes, flags, hugePages, count, Succeeds)
    requires Misplaced(t0, root, PageOf(address), flags)
    ensures AsideRemapped(t0, t1, roots, root, PageOf(address), RunLeaves(physicalAddress, 1, flags, count))
    ensures physicalAddress % PAGE == 0 && count == PageCount(bytes, 1)
  {}

  /** Main result. After a mapping call that returned success the address is translated to the physical address
      asked for if and only if no table was misplaced; else it is not translated at all. */
  lemma MapReaches(t0: Tables, nodes0: map<nat, Node>, t1: Tables, nodes1: map<nat, Node>, roots: set<nat>, root: nat,
                   address: nat, physicalAddress: nat, bytes: nat, flags: Flags, hugePages: bool, count: nat)
    requires root in roots && Tree(t0, nodes0, roots) && Tree(t1, nodes1, roots)
    requires Mappable(t0, root, address, bytes, flags)
    requires MapResult(t0, t1, roots, root, address, physicalAddress, bytes, flags, hugePages, count, Succeeds)
    ensures var size := LeafBytes(TargetLevel(t0, root, PageOf(address), flags), 1);
            Translate(t1, nodes1, roots, root, address) ==
            if Misplaced(t0, root, PageOf(address), flags) then None
            else Some((physicalAddress + address % size) % 0x10_0000_0000_0000)
  {
    hide Translate;
    if Misplaced(t0, root, PageOf(address), flags) {
      MisplacedMisses(t0, t1, nodes1, roots, root, address, physicalAddress, bytes, flags, hugePages, count);
    } else {
      PlacedReaches(t0, t1, nodes1, roots, root, address, physicalAddress, bytes, flags, hugePages, count);
    }
  }

  lemma PlacedReaches(t0: Tables, t1: Tables, nodes1: map<nat, Node>, roots: set<nat>, root: nat, address: nat,
                      physicalAddress: nat, bytes: nat, flags: Flags, hugePages: bool, count: nat)
    requires root in roots && Tree(t1, nodes1, roots) && Mappable(t0, root, address, bytes, flags)
    requires MapResult(t0, t1, roots, root, address, physicalAddress, bytes, flags, hugePages, count, Succeeds)
    requires !Misplaced(t0, root, PageOf(address), flags)
    ensures var size := LeafBytes(TargetLevel(t0, root, PageOf(address), flags), 1);
            Translate(t1, nodes1, roots, root, address) ==
            Some((physicalAddress + address % size) % 0x10_0000_0000_0000)
  {
    hide Translate;
    var level := TargetLevel(t0, root, PageOf(address), flags);
    WithinFirst(address, level, count, bytes);
    MapTranslates(t0, t1, nodes1, roots, root, address, physicalAddress, bytes, flags, hugePages, count,
                  address % LeafBytes(level, 1));
  }

  lemma WithinFirst(address: nat, level: nat, count: nat, bytes: nat)
    requires 1 <= level <= 3
    ensures Start(address, level) + address % LeafBytes(level, 1) == address
    ensures count == PageCount(bytes, level) ==> address % LeafBytes(level, 1) < LeafBytes(level, count)
  {}

  lemma MisplacedMisses(t0: Tables, t1: Tables, nodes1: map<nat, Node>, roots: set<nat>, root: nat, address: nat,
                        physicalAddress: nat, bytes: nat, flags: Flags, hugePages: bool, count: nat)
    requires root in roots && Tree(t1, nodes1, roots) && Indexable(t0, root, PageOf(address), flags)
    requires MapResult(t0, t1, roots, root, address, physicalAddress, bytes, flags, hugePages, count, Succeeds)
    requires Misplaced(t0, root, PageOf(address), flags)
    ensures Translate(t1, nodes1, roots, root, address) == None
  {
    hide Translate;
    var page := PageOf(address);
    MisplacedRuns(t0, t1, roots, root, address, physicalAddress, bytes, flags, hugePages, count);
    MisplacedUnmapped(t0, root, page, count);
    assert Lookup(t1, root, page) == AsideTo(t0, root, page, RunLeaves(physicalAddress, 1, flags, count), root, page);
    TranslateIsLookup(t1, nodes1, roots, root, address);
  }

  /** A page whose level-1 table is misplaced was not mapped before, and the call does not change that. */
  lemma MisplacedUnmapped(t: Tables, root: nat, page: nat, count: nat)
    requires Slot(t, root, 2, page / 512) == ZERO && !Slot(t, root, 3, page / 512 / 512).size
    requires page / 512 / 512 % 512 != page / 512 % 512
    ensures Lookup(t, root, page) == None && FateOf(page, count, page) == Keeps
  {
    UpDigits(page);
    MisplacedDigits(page);
    NothingUnder(t, root, 1, page, 2);
    Quotient(MisplacedPage(page), 512, MisplacedSlot(page), page % 512);
  }

  /** Mapping 4 KiB at 2 MiB in an empty address space returns success: its level-3 index is 0, its level-2 index
      1, so page 0 is mapped and page 512, the one asked for, is not. */
  lemma MisplacedExample(t1: Tables, flags: Flags, count: nat)
    requires !flags.huge1G && !flags.huge2M
    ensures MapOutcome(map[0x1000 := EMPTY], 0x1000, 0x20_0000, 0x5000, 0x1000, flags, true) == Succeeds
    ensures MapResult(map[0x1000 := EMPTY], t1, {0x1000}, 0x1000, 0x20_0000, 0x5000, 0x1000, flags, true, count,
                      Succeeds) ==>
              Lookup(t1, 0x1000, 0) == Some(0x5000) && Lookup(t1, 0x1000, 512) == None
  {
    hide Lookup, Slot;
    var t := map[0x1000 := EMPTY];
    ExampleSlots(t, 0x1000);
    ExampleNumbers();
    ExampleEnds(t, 0x1000, flags);
    if MapResult(t, t1, {0x1000}, 0x1000, 0x20_0000, 0x5000, 0x1000, flags, true, count, Succeeds) {
      MisplacedRuns(t, t1, {0x1000}, 0x1000, 0x20_0000, 0x5000, 0x1000, flags, true, count);
      ExampleLooked(t, t1, 0x1000, flags);
    }
  }

  lemma ExampleEnds(t: Tables, root: nat, flags: Flags)
    requires !flags.huge1G && !flags.huge2M && Slot(t, root, 2, 1) == Slot(t, root, 1, 512) == ZERO
    ensures MapOutcome(t, root, 0x20_0000, 0x5000, 0x1000, flags, true) == Succeeds
  {
    hide Slot;
    SlotCounts();
    ExampleNumbers();
  }

  lemma ExampleNumbers()
    ensures PageOf(0x20_0000) == 512 && PageCount(0x1000, 1) == 1
  {}

  lemma ExampleLooked(t: Tables, t1: Tables, root: nat, flags: Flags)
    requires AsideRemapped(t, t1, {root}, root, 512, RunLeaves(0x5000, 1, flags, 1)) && Lookup(t, root, 512) == None
    ensures Lookup(t1, root, 0) == Some(0x5000) && Lookup(t1, root, 512) == None
  {
    hide Lookup;
    LeafFrame(0x5000, flags, 1, 0, 0);
    assert Lookup(t1, root, 0) == AsideTo(t, root, 512, RunLeaves(0x5000, 1, flags, 1), root, 0);
    assert Lookup(t1, root, 512) == AsideTo(t, root, 512, RunLeaves(0x5000, 1, flags, 1), root, 512);
  }

  lemma ExampleSlots(t: Tables, root: nat)
    requires root in t && t[root] == EMPTY
    ensures Slot(t, root, 4, 0) == ZERO && Slot(t, root, 3, 0) == ZERO && Slot(t, root, 2, 1) == ZERO
    ensures Slot(t, root, 2, 0) == ZERO && Slot(t, root, 1, 512) == ZERO && Lookup(t, root, 512) == None
  {
    assert Slot(t, root, 4, 0) == ZERO;
    assert Slot(t, root, 3, 0) == ZERO;
    assert Slot(t, root, 2, 1) == ZERO;
    UpDigits(512);
  }

  /** Mapping the last page of an empty address space maps it and returns 0 all the same: the cursor then moves past
      the end. */
  lemma OverrunExample(t1: Tables, flags: Flags, count: nat)
    requires !flags.huge1G && !flags.huge2M
    ensures MapOutcome(map[0x1000 := EMPTY], 0x1000, 0xFFFF_FFFF_F000, 0x5000, 0x1000, flags, true) == Overruns
    ensures MapResult(map[0x1000 := EMPTY], t1, {0x1000}, 0x1000, 0xFFFF_FFFF_F000, 0x5000, 0x1000, flags, true, count,
                      Overruns) ==>
              Lookup(t1, 0x1000, 0xF_FFFF_FFFF) == Some(0x5000)
  {
    hide Lookup, Slot, Filled;
    var t := map[0x1000 := EMPTY];
    LastPageNumbers();
    LastPageEmpty(t, 0x1000);
    LastPageEnds(t, 0x1000, flags);
    if MapResult(t, t1, {0x1000}, 0x1000, 0xFFFF_FFFF_F000, 0x5000, 0x1000, flags, true, count, Overruns) {
      LastPageFilled(t, t1, 0x1000, flags, count);
      LastPageLooked(t, t1, 0x1000, flags);
    }
  }

  lemma LastPageEnds(t: Tables, root: nat, flags: Flags)
    requires !flags.huge1G && !flags.huge2M
    requires Slot(t, root, 2, 0x7FF_FFFF) == ZERO && Slot(t, root, 1, 0xF_FFFF_FFFF) == ZERO
    ensures MapOutcome(t, root, 0xFFFF_FFFF_F000, 0x5000, 0x1000, flags, true) == Overruns
  {
    hide Slot;
    LastPageNumbers();
    ExampleNumbers();
    SlotCounts();
  }

  lemma LastPageFilled(t: Tables, t1: Tables, root: nat, flags: Flags, count: nat)
    requires !flags.huge1G && !flags.huge2M && Slot(t, root, 2, 0x7FF_FFFF) == ZERO
    requires MapResult(t, t1, {root}, root, 0xFFFF_FFFF_F000, 0x5000, 0x1000, flags, true, count, Overruns)
    ensures Filled(t, t1, {root}, root, 1, 0xF_FFFF_FFFF, RunLeaves(0x5000, 1, flags, 1))
  {
    hide Slot, Filled, AsideRemapped, PageOf, PageCount, NoStray;
    LastPageNumbers();
    OverranFilled(t, t1, root, 0xFFFF_FFFF_F000, 0x5000, 0x1000, flags, count);
  }

  lemma OverranFilled(t: Tables, t1: Tables, root: nat, address: nat, physicalAddress: nat, bytes: nat, flags: Flags,
                      count: nat)
    requires MapResult(t, t1, {root}, root, address, physicalAddress, bytes, flags, true, count, Overruns)
    requires TargetLevel(t, root, PageOf(address), flags) == 1 && !Misplaced(t, root, PageOf(address), flags)
    requires PageOf(address) + 1 == Slots(1)
    ensures Filled(t, t1, {root}, root, 1, PageOf(address), RunLeaves(physicalAddress, 1, flags, 1))
  {
    hide Slot, Filled, AsideRemapped, PageOf, PageCount, NoStray, Slots;
    assert SlotOf(PageOf(address), 1) == PageOf(address);
    assert count == 1;
  }

  lemma LastPageNumbers()
    ensures PageOf(0xFFFF_FFFF_F000) == 0xF_FFFF_FFFF && SlotOf(0xF_FFFF_FFFF, 1) == 0xF_FFFF_FFFF
    ensures 0xF_FFFF_FFFF / 512 == 0x7FF_FFFF && 0x7FF_FFFF / 512 % 512 == 0x7FF_FFFF % 512
    ensures Slots(1) == 0x10_0000_0000
  {
    SlotCounts();
  }

  lemma LastPageEmpty(t: Tables, root: nat)
    requires root in t && t[root] == EMPTY
    ensures Slot(t, root, 3, 0x3_FFFF) == ZERO && Slot(t, root, 2, 0x7FF_FFFF) == ZERO
            && Slot(t, root, 1, 0xF_FFFF_FFFF) == ZERO
  {
    assert Slot(t, root, 4, 511) == ZERO;
    assert Slot(t, root, 3, 0x3_FFFF) == ZERO;
    assert Slot(t, root, 2, 0x7FF_FFFF) == ZERO;
  }

  lemma LastPageLooked(t: Tables, t1: Tables, root: nat, flags: Flags)
    requires Filled(t, t1, {root}, root, 1, 0xF_FFFF_FFFF, RunLeaves(0x5000, 1, flags, 1))
    requires !Slot(t, root, 3, 0x3_FFFF).size && !Slot(t, root, 2, 0x7FF_FFFF).size
    ensures Lookup(t1, root, 0xF_FFFF_FFFF) == Some(0x5000)
  {
    hide Slot;
    var leaves := RunLeaves(0x5000, 1, flags, 1);
    assert NoLeafAbove(t, root, 1, 0xF_FFFF_FFFF);
    RunLeavesAreLeaves(0x5000, 1, flags, 1);
    LeafFrame(0x5000, flags, 1, 0, 0);
    FilledIsRemapped(t, t1, {root}, root, 1, 0xF_FFFF_FFFF, leaves);
    RemappedPage(t, t1, {root}, root, 0xF_FFFF_FFFF, leaves, 0xF_FFFF_FFFF);
    assert leaves[0] in leaves;
  }

  /** A run of 1 GiB pages across a 512 GiB boundary strays when the level-3 table behind it exists. */
  lemma StrayExample(t: Tables, root: nat, flags: Flags)
    requires flags.huge1G && Slot(t, root, 3, 511) == ZERO && Slot(t, root, 4, 1) != ZERO
    ensures MapOutcome(t, root, 0x7F_C000_0000, 0, 0x8000_0000, flags, true) == Strays
  {
    assert PageOf(0x7F_C000_0000) == 511 * 512 * 512;
    UpDigits(511 * 512 * 512);
    assert PageCount(0x8000_0000, 3) == 2;
    assert StrayAt(t, root, 3, 512);
  }

  // ----- The cursor as an address

  /** The address the indices of level `level` and above spell. */
  function IndexAddress(index: seq<nat>, level: nat): nat
    requires |index| == 4 && 1 <= level <= 4
    decreases 4 - level
  {
    if level == 4 then index[3] * 0x80_0000_0000
    else index[level - 1] * LeafBytes(level, 1) + IndexAddress(index, level + 1)
  }

  lemma {:induction false} IndexAddressIs(t: Tables, table: seq<nat>, index: seq<nat>, level: nat, n: nat)
    requires At(t, table, index, level, n) && level <= 3
    ensures IndexAddress(index, level) == LeafBytes(level, n)
    decreases 4 - level
  {
    if level == 3 {
      AtBound(t, table, index, 4, n / 512);
      assert IndexAddress(index, 4) == index[3] * 0x80_0000_0000;
    } else {
      IndexAddressIs(t, table, index, level + 1, n / 512);
    }
  }

  /** The indices spell the address whatever the table pointer of the lowest level is. */
  lemma PoisedAddress(t: Tables, table: seq<nat>, index: seq<nat>, level: nat, n: nat)
    requires Poised(t, table, index, level, n) && level <= 3
    ensures IndexAddress(index, level) == LeafBytes(level, n)
  {
    if level == 3 {
      AtBound(t, table, index, 4, n / 512);
      assert IndexAddress(index, 4) == index[3] * 0x80_0000_0000;
    } else {
      IndexAddressIs(t, table, index, level + 1, n / 512);
    }
  }

  /** Bumping the index with its carries adds one page size to the virtual address, in the 1 GiB loop too, even
      where that loop goes astray. */
  lemma MoveAddsPage(t0: Tables, t1: Tables, roots: set<nat>, root: nat, level: nat, masked: bool, n: nat,
                     table0: seq<nat>, index0: seq<nat>, table1: seq<nat>, index1: seq<nat>)
    requires 1 <= level <= 3 && At(t0, table0, index0, level, n)
    requires Moved(t0, t1, roots, root, level, masked, n, table0, index0, table1, index1)
    ensures IndexAddress(index1, level) == IndexAddress(index0, level) + LeafBytes(level, 1)
  {
    IndexAddressIs(t0, table0, index0, level, n);
    PoisedAddress(t1, table1, index1, level, n + 1);
  }

  // ----- The words stored

  /** A leaf as the 64-bit word the source computes: bits 12 to 62 of the address, present, writable and user
      bits as asked for, and the size bit on a huge page. */
  lemma LeafWord(address: nat, level: nat, flags: Flags)
    ensures var w := Word(LeafEntry(address, level, flags));
            && w < 0x1_0000_0000_0000_0000 && AddressBits(w) == AddressBits(address)
            && w % 2 == 1 && (w / 2 % 2 == 1 <==> flags.write) && (w / 4 % 2 == 1 <==> flags.user)
            && (SizeBit(w) <==> level > 1)
  {
    var e := LeafEntry(address, level, flags);
    Quotient(e.address, PAGE, address / PAGE % 0x8_0000_0000_0000, 0);
    EntryCodec(e);
    FlagTests(e);
  }

  lemma FlagTests(e: Entry)
    requires Canonical(e)
    ensures (Word(e) / 2 % 2 == 1) == e.writable && (Word(e) / 4 % 2 == 1) == e.everyone
  {
    var q, b := e.address / PAGE, FlagBits(e);
    FlagFacts(e);
    Quotient(e.address, PAGE, q, 0);
    LowBitsOfWord(q, b);
    assert (b / 2 % 2 == 1) == e.writable && (b / 4 % 2 == 1) == e.everyone;
  }

  lemma LowBitsOfWord(q: nat, b: nat)
    requires b < 256
    ensures (q * PAGE + b) / 2 % 2 == b / 2 % 2 && (q * PAGE + b) / 4 % 2 == b / 4 % 2
  {
    var w := q * PAGE + b;
    Quotient(w, 2, q * 2048 + b / 2, b % 2);
    Quotient(w, 4, q * 1024 + b / 4, b % 4);
    Quotient(q * 2048 + b / 2, 2, q * 1024 + b / 2 / 2, b / 2 % 2);
    Quotient(q * 1024 + b / 4, 2, q * 512 + b / 4 / 2, b / 4 % 2);
  }

  /** A pointer to a new table: its address, present and writable. */
  lemma PointerWord(child: nat)
    requires child % PAGE == 0 && child < 0x10_0000_0000_0000
    ensures Word(PointerTo(child)) == child + 3 && AddressBits(Word(PointerTo(child))) == child
  {
    EntryCodec(PointerTo(child));
  }
}
