/** What a tree of page tables means: the translation of virtual addresses, and how a run over
    consecutive slots of one level changes it. */
module AddressSpace {
  import opened Wrappers
  import opened PageTables

  /** 4 KiB pages covered by one slot of a level. */
  function Span(level: nat): nat
    requires 1 <= level <= 3
  {
    if level == 1 then 1 else if level == 2 then 512 else 512 * 512
  }

  /** Where a virtual page (of the 2^36 in an address space) lies in physical memory. */
  ghost function Lookup(t: Tables, root: nat, page: nat): Option<nat> {
    var e3 := Slot(t, root, 3, Up(page, 2));
    var e2 := Slot(t, root, 2, Up(page, 1));
    var e1 := Slot(t, root, 1, page);
    if e3.size then Some(PhysicalBits(e3.address) + page % (512 * 512) * PAGE)
    else if e2.size then Some(PhysicalBits(e2.address) + page % 512 * PAGE)
    else if e1 != ZERO then Some(PhysicalBits(e1.address))
    else None
  }

  /** paging_get_physical_address: the walk from the level-4 table. */
  function Translate(t: Tables, ghost nodes: map<nat, Node>, ghost roots: set<nat>, root: nat,
                     address: nat): Option<nat>
    requires Tree(t, nodes, roots) && root in roots
  {
    var e4 := t[root][address / 0x80_0000_0000 % 512];
    if e4 == ZERO then None else
    assert Linked(nodes, nodes[root], address / 0x80_0000_0000 % 512, e4);
    var e3 := t[e4.address][address / 0x4000_0000 % 512];
    if e3 == ZERO then None else
    if e3.size then Some(PhysicalBits(e3.address) + address % 0x4000_0000) else
    assert Linked(nodes, nodes[e4.address], address / 0x4000_0000 % 512, e3);
    var e2 := t[e3.address][address / 0x20_0000 % 512];
    if e2 == ZERO then None else
    if e2.size then Some(PhysicalBits(e2.address) + address % 0x20_0000) else
    assert Linked(nodes, nodes[e3.address], address / 0x20_0000 % 512, e2);
    var e1 := t[e2.address][address / PAGE % 512];
    if e1 == ZERO then None else
    Some(PhysicalBits(e1.address) + address % PAGE)
  }

  /** The page number that bits 12 to 47 of an address spell. */
  function PageOf(address: nat): nat {
    address / PAGE % 0x10_0000_0000
  }

  lemma Digits(a: nat)
    ensures a / 0x20_0000 == a / PAGE / 512
    ensures a / 0x4000_0000 == a / PAGE / 512 / 512
    ensures a / 0x80_0000_0000 == a / PAGE / 512 / 512 / 512
    ensures a % 0x20_0000 == a / PAGE % 512 * PAGE + a % PAGE
    ensures a % 0x4000_0000 == a / PAGE % (512 * 512) * PAGE + a % PAGE
  {
    var p, w := a / PAGE, a % PAGE;
    var p1, p2, p3 := p / 512, p / 512 / 512, p / 512 / 512 / 512;
    Quotient(p, 512 * 512, p2, p1 % 512 * 512 + p % 512);
    Quotient(a, 0x20_0000, p1, p % 512 * PAGE + w);
    Quotient(a, 0x4000_0000, p2, (p1 % 512 * 512 + p % 512) * PAGE + w);
    Quotient(a, 0x80_0000_0000, p3, ((p2 % 512 * 512 + p1 % 512) * 512 + p % 512) * PAGE + w);
  }

  lemma PageDigits(v: nat)
    ensures var p := v % 0x10_0000_0000;
            && p % 512 == v % 512
            && p / 512 == v / 512 % 0x800_0000
            && p / 512 / 512 == v / 512 / 512 % 0x4_0000
            && p / 512 / 512 / 512 == v / 512 / 512 / 512 % 512
            && p / 512 % 512 == v / 512 % 512
            && p / 512 / 512 % 512 == v / 512 / 512 % 512
            && p % (512 * 512) == v % (512 * 512)
  {
    var p, h := v % 0x10_0000_0000, v / 0x10_0000_0000;
    Quotient(v, 512, h * 0x800_0000 + p / 512, p % 512);
    Quotient(v / 512, 0x800_0000, h, p / 512);
    Quotient(v / 512, 512, h * 0x4_0000 + p / 512 / 512, p / 512 % 512);
    Quotient(v / 512 / 512, 0x4_0000, h, p / 512 / 512);
    Quotient(v / 512 / 512, 512, h * 512 + p / 512 / 512 / 512, p / 512 / 512 % 512);
    Quotient(v / 512 / 512 / 512, 512, h, p / 512 / 512 / 512);
    Quotient(v, 512 * 512, h * 0x4_0000 + p / 512 / 512, p % (512 * 512));
  }

  lemma UpDigits(page: nat)
    ensures Up(page, 1) == page / 512
    ensures Up(page, 2) == page / 512 / 512
    ensures Up(page, 3) == page / 512 / 512 / 512
  {
    assert Up(page, 1) == Up(page / 512, 0);
    assert Up(page, 2) == Up(page / 512, 1) == Up(page / 512 / 512, 0);
    assert Up(page, 3) == Up(page / 512, 2) == Up(page / 512 / 512, 1) == Up(page / 512 / 512 / 512, 0);
  }

  /** The walk and the slot view agree on every address: bits above 47 are ignored. */
  lemma TranslateIsLookup(t: Tables, nodes: map<nat, Node>, roots: set<nat>, root: nat, address: nat)
    requires Tree(t, nodes, roots) && root in roots
    ensures Translate(t, nodes, roots, root, address) ==
            match Lookup(t, root, PageOf(address))
            case None => None
            case Some(frame) => Some(frame + address % PAGE)
  {
    hide Home;
    var p := PageOf(address);
    Digits(address);
    PageDigits(address / PAGE);
    UpDigits(p);
    var e4, e3 := Slot(t, root, 4, Up(p, 3)), Slot(t, root, 3, Up(p, 2));
    assert e4 == t[root][address / 0x80_0000_0000 % 512];
    SlotHome(t, nodes, roots, root, 4, Up(p, 3));
    SlotHome(t, nodes, roots, root, 3, Up(p, 2));
    SlotHome(t, nodes, roots, root, 2, Up(p, 1));
  }

  // ----- What a walk allows

  /** The entry the walk for a page ends at. */
  ghost function LeafOf(t: Tables, root: nat, page: nat): Entry {
    var e3, e2 := Slot(t, root, 3, Up(page, 2)), Slot(t, root, 2, Up(page, 1));
    if e3.size then e3 else if e2.size then e2 else Slot(t, root, 1, page)
  }

  /** Stores to a page are allowed only if every entry on the way has the writable bit (section 5.6 of the AMD64
      Architecture Programmer's Manual, Volume 2). */
  ghost predicate StoresAllowed(t: Tables, root: nat, page: nat) {
    var e4, e3 := Slot(t, root, 4, Up(page, 3)), Slot(t, root, 3, Up(page, 2));
    var e2, e1 := Slot(t, root, 2, Up(page, 1)), Slot(t, root, 1, page);
    e4.writable && e3.writable && (e3.size || (e2.writable && (e2.size || e1.writable)))
  }

  /** User mode may access a page only if every entry on the way has the user bit. */
  ghost predicate UserAllowed(t: Tables, root: nat, page: nat) {
    var e4, e3 := Slot(t, root, 4, Up(page, 3)), Slot(t, root, 3, Up(page, 2));
    var e2, e1 := Slot(t, root, 2, Up(page, 1)), Slot(t, root, 1, page);
    e4.everyone && e3.everyone && (e3.size || (e2.everyone && (e2.size || e1.everyone)))
  }

  /** Main result. Stores to a mapped page are allowed if and only if its leaf has the writable bit, since every pointer
      to a table has it; user mode may access no page, whatever its leaf says, since no pointer has the user bit. */
  lemma WalkAllows(t: Tables, nodes: map<nat, Node>, roots: set<nat>, root: nat, page: nat)
    requires Tree(t, nodes, roots) && root in roots && Lookup(t, root, page) != None
    ensures StoresAllowed(t, root, page) <==> LeafOf(t, root, page).writable
    ensures !UserAllowed(t, root, page)
  {
    hide Home;
    UpDigits(page);
    SlotHome(t, nodes, roots, root, 4, Up(page, 3));
    SlotHome(t, nodes, roots, root, 3, Up(page, 2));
    SlotHome(t, nodes, roots, root, 2, Up(page, 1));
  }

  /** The leaves of a run are what the walks for its pages end at. */
  lemma FilledLeaf(t0: Tables, t1: Tables, roots: set<nat>, root: nat, level: nat, s: nat, leaves: seq<Entry>,
                   page: nat)
    requires 1 <= level <= 3 && root in roots && Filled(t0, t1, roots, root, level, s, leaves)
    requires s <= Up(page, level - 1) < s + |leaves| && Leaf(leaves[Up(page, level - 1) - s], level)
    requires NoLeafAbove(t0, root, level, Up(page, level - 1))
    ensures LeafOf(t1, root, page) == leaves[Up(page, level - 1) - s]
  {
    hide Slot;
    UpDigits(page);
    FilledNoLeafAbove(t0, t1, roots, root, level, s, leaves, Up(page, level - 1));
    assert FilledAt(t0, t1, root, level, s, leaves, root, 3, Up(page, 2));
    assert FilledAt(t0, t1, root, level, s, leaves, root, 2, Up(page, 1));
    assert FilledAt(t0, t1, root, level, s, leaves, root, 1, page);
  }

  /** The walks for all other pages end where they did. */
  lemma FilledLeafOutside(t0: Tables, t1: Tables, roots: set<nat>, root: nat, level: nat, s: nat, leaves: seq<Entry>,
                          r: nat, page: nat)
    requires 1 <= level <= 3 && r in roots && Filled(t0, t1, roots, root, level, s, leaves)
    requires !(r == root && s <= Up(page, level - 1) < s + |leaves|)
    ensures LeafOf(t1, r, page) == LeafOf(t0, r, page)
  {
    hide Slot;
    UpDigits(page);
    assert FilledAt(t0, t1, root, level, s, leaves, r, 3, Up(page, 2));
    assert FilledAt(t0, t1, root, level, s, leaves, r, 2, Up(page, 1));
    assert FilledAt(t0, t1, root, level, s, leaves, r, 1, page);
  }

  // ----- Filling a run of slots

  /** What slot `m` of level `j` may read after slots s, s+1, ... of `level` received `leaves`: the
      slots of the run hold the leaves, everything under them is gone, tables may have appeared only on
      the way down to the run and to the slot after it, and nothing else changed. */
  ghost predicate FilledAt(t0: Tables, t1: Tables, root: nat, level: nat, s: nat, leaves: seq<Entry>,
                           r: nat, j: nat, m: nat)
    requires 1 <= j <= 4
  {
    var before, after := Slot(t0, r, j, m), Slot(t1, r, j, m);
    if r != root then
      after == before
    else if j > level then
      after == before ||
      (before == ZERO && IsPointer(after) && Up(s, j - level) <= m <= Up(s + |leaves|, j - level))
    else if s <= Up(m, level - j) < s + |leaves| then
      after == if j == level then leaves[m - s] else ZERO
    else
      after == before
  }

  ghost predicate Filled(t0: Tables, t1: Tables, roots: set<nat>, root: nat, level: nat, s: nat, leaves: seq<Entry>) {
    forall r: nat, j: nat, m: nat | r in roots && 1 <= j <= 4 :: FilledAt(t0, t1, root, level, s, leaves, r, j, m)
  }

  lemma {:induction false} UpMonotone(a: nat, b: nat, distance: nat)
    requires a <= b
    ensures Up(a, distance) <= Up(b, distance)
    decreases distance
  {
    if distance > 0 {
      UpMonotone(a / 512, b / 512, distance - 1);
    }
  }

  lemma NothingFilled(t: Tables, roots: set<nat>, root: nat, level: nat, s: nat)
    ensures Filled(t, t, roots, root, level, s, [])
  {}

  /** Growth on the way to slot n/512 of the level above is growth on the way to slot n. */
  lemma FilledBelow(t0: Tables, t1: Tables, roots: set<nat>, root: nat, level: nat, n: nat)
    requires 1 <= level <= 3 && Filled(t0, t1, roots, root, level + 1, n / 512, [])
    ensures Filled(t0, t1, roots, root, level, n, [])
  {
    forall r: nat, j: nat, m: nat | r in roots && 1 <= j <= 4
      ensures FilledAt(t0, t1, root, level, n, [], r, j, m)
    {
      assert FilledAt(t0, t1, root, level + 1, n / 512, [], r, j, m);
      if j > level + 1 {
        assert Up(n, j - level) == Up(n / 512, j - (level + 1));
      }
    }
  }

  /** Hanging an empty table at an empty slot takes nothing away. */
  lemma FilledThenHung(t0: Tables, t1: Tables, t2: Tables, roots: set<nat>, root: nat, level: nat, n: nat, child: nat)
    requires 1 <= level <= 3 && Filled(t0, t1, roots, root, level + 1, n / 512, [])
    requires Slot(t1, root, level + 1, n / 512) == ZERO
    requires Wrote(t1, t2, roots, root, level + 1, n / 512, PointerTo(child))
    ensures Filled(t0, t2, roots, root, level, n, [])
  {
    hide Slot;
    FilledBelow(t0, t1, roots, root, level, n);
    forall r: nat, j: nat, m: nat | r in roots && 1 <= j <= 4
      ensures FilledAt(t0, t2, root, level, n, [], r, j, m)
    {
      assert Slot(t2, r, j, m) == Patched(t1, root, level + 1, n / 512, PointerTo(child), r, j, m);
      assert FilledAt(t0, t1, root, level, n, [], r, j, m);
      if r == root && Under(j, m, level + 1, n / 512) {
        if j == level + 1 {
          assert FilledAt(t0, t1, root, level + 1, n / 512, [], r, j, m);
          assert Up(n, 1) == Up(n / 512, 0) == n / 512;
        } else {
          NothingUnder(t1, root, j, m, level + 1);
        }
      }
    }
  }

  /** One turn of a run: a leaf is written at the next slot, then the cursor moves on. */
  lemma FilledStep(t0: Tables, t1: Tables, t2: Tables, t3: Tables, roots: set<nat>,
                   root: nat, level: nat, s: nat, leaves: seq<Entry>, e: Entry)
    requires 1 <= level <= 3
    requires Filled(t0, t1, roots, root, level, s, leaves)
    requires Wrote(t1, t2, roots, root, level, s + |leaves|, e)
    requires Filled(t2, t3, roots, root, level, s + |leaves| + 1, [])
    ensures Filled(t0, t3, roots, root, level, s, leaves + [e])
  {
    hide Slot;
    var n := s + |leaves|;
    forall r: nat, j: nat, m: nat | r in roots && 1 <= j <= 4
      ensures FilledAt(t0, t3, root, level, s, leaves + [e], r, j, m)
    {
      assert FilledAt(t0, t1, root, level, s, leaves, r, j, m);
      assert Slot(t2, r, j, m) == Patched(t1, root, level, n, e, r, j, m);
      assert FilledAt(t2, t3, root, level, n + 1, [], r, j, m);
      if j > level {
        UpMonotone(s, n, j - level);
        UpMonotone(n, n + 1, j - level);
      }
    }
  }

  /** Growth on the way to a run and then the run are one run. */
  lemma FilledAfterGrowth(t0: Tables, t1: Tables, t2: Tables, roots: set<nat>, root: nat, level: nat, s: nat,
                          leaves: seq<Entry>)
    requires Filled(t0, t1, roots, root, level, s, []) && Filled(t1, t2, roots, root, level, s, leaves)
    ensures Filled(t0, t2, roots, root, level, s, leaves)
  {
    forall r: nat, j: nat, m: nat | r in roots && 1 <= j <= 4
      ensures FilledAt(t0, t2, root, level, s, leaves, r, j, m)
    {
      assert FilledAt(t0, t1, root, level, s, [], r, j, m);
      assert FilledAt(t1, t2, root, level, s, leaves, r, j, m);
      if j > level {
        UpMonotone(s, s + |leaves|, j - level);
      }
    }
  }

  // ----- What a filled run means for translation

  /** No leaf of a larger page size covers slot `n` of `level`. */
  ghost predicate NoLeafAbove(t: Tables, root: nat, level: nat, n: nat) {
    && (level == 2 ==> !Slot(t, root, 3, n / 512).size)
    && (level == 1 ==> !Slot(t, root, 3, n / 512 / 512).size && !Slot(t, root, 2, n / 512).size)
  }

  lemma FilledNoLeafAbove(t0: Tables, t1: Tables, roots: set<nat>, root: nat, level: nat, s: nat, leaves: seq<Entry>,
                          n: nat)
    requires 1 <= level <= 3 && root in roots
    requires Filled(t0, t1, roots, root, level, s, leaves)
    requires NoLeafAbove(t0, root, level, n)
    ensures NoLeafAbove(t1, root, level, n)
  {
    assert FilledAt(t0, t1, root, level, s, leaves, root, 3, n / 512 / 512);
    assert FilledAt(t0, t1, root, level, s, leaves, root, 3, n / 512);
    assert FilledAt(t0, t1, root, level, s, leaves, root, 2, n / 512);
  }

  ghost predicate Leaf(e: Entry, level: nat) {
    e != ZERO && e.size == (level > 1)
  }

  ghost function RemappedTo(t0: Tables, root: nat, level: nat, s: nat, leaves: seq<Entry>, r: nat,
                            page: nat): Option<nat>
    requires 1 <= level <= 3
  {
    var n := Up(page, level - 1);
    if r == root && s <= n < s + |leaves| then
      var e := leaves[n - s];
      if e == ZERO then None else Some(PhysicalBits(e.address) + page % Span(level) * PAGE)
    else Lookup(t0, r, page)
  }

  /** The translation of every page of every address space after a run: the pages of the run lie where
      its leaves say, every other page where it was. */
  ghost predicate Remapped(t0: Tables, t1: Tables, roots: set<nat>, root: nat, level: nat, s: nat, leaves: seq<Entry>)
    requires 1 <= level <= 3
  {
    forall r: nat, page: nat | r in roots ::
      Lookup(t1, r, page) == RemappedTo(t0, root, level, s, leaves, r, page)
  }

  lemma FilledPage(t0: Tables, t1: Tables, roots: set<nat>, root: nat, level: nat, s: nat, leaves: seq<Entry>, r: nat,
                   page: nat)
    requires 1 <= level <= 3 && root in roots && r in roots
    requires Filled(t0, t1, roots, root, level, s, leaves)
    requires forall e | e in leaves :: e == ZERO || Leaf(e, level)
    requires forall n: nat | s <= n < s + |leaves| :: NoLeafAbove(t0, root, level, n)
    ensures Lookup(t1, r, page) == RemappedTo(t0, root, level, s, leaves, r, page)
  {
    if r == root && s <= Up(page, level - 1) < s + |leaves| {
      FilledInside(t0, t1, roots, root, level, s, leaves, page);
    } else {
      FilledOutside(t0, t1, roots, root, level, s, leaves, r, page);
    }
  }

  lemma FilledOutside(t0: Tables, t1: Tables, roots: set<nat>, root: nat, level: nat, s: nat, leaves: seq<Entry>,
                      r: nat, page: nat)
    requires 1 <= level <= 3 && r in roots && Filled(t0, t1, roots, root, level, s, leaves)
    requires !(r == root && s <= Up(page, level - 1) < s + |leaves|)
    ensures Lookup(t1, r, page) == Lookup(t0, r, page)
  {
    UpDigits(page);
    assert FilledAt(t0, t1, root, level, s, leaves, r, 3, Up(page, 2));
    assert FilledAt(t0, t1, root, level, s, leaves, r, 2, Up(page, 1));
    assert FilledAt(t0, t1, root, level, s, leaves, r, 1, page);
    LookupSame(t0, t1, r, page);
  }

  /** Tables that appear where there was nothing, with nothing in them, do not change a translation. */
  lemma LookupSame(t0: Tables, t1: Tables, r: nat, page: nat)
    requires var after, before := Slot(t1, r, 3, Up(page, 2)), Slot(t0, r, 3, Up(page, 2));
             after == before || (!after.size && !before.size)
    requires var after, before := Slot(t1, r, 2, Up(page, 1)), Slot(t0, r, 2, Up(page, 1));
             after == before || (!after.size && !before.size)
    requires Slot(t1, r, 1, page) == Slot(t0, r, 1, page)
    ensures Lookup(t1, r, page) == Lookup(t0, r, page)
  {}

  lemma FilledInside(t0: Tables, t1: Tables, roots: set<nat>, root: nat, level: nat, s: nat, leaves: seq<Entry>,
                     page: nat)
    requires 1 <= level <= 3 && root in roots && Filled(t0, t1, roots, root, level, s, leaves)
    requires s <= Up(page, level - 1) < s + |leaves|
    requires var e := leaves[Up(page, level - 1) - s];
             e == ZERO || Leaf(e, level)
    requires NoLeafAbove(t0, root, level, Up(page, level - 1))
    ensures var e := leaves[Up(page, level - 1) - s];
            Lookup(t1, root, page) ==
            if e == ZERO then None else Some(PhysicalBits(e.address) + page % Span(level) * PAGE)
  {
    hide Slot;
    UpDigits(page);
    FilledNoLeafAbove(t0, t1, roots, root, level, s, leaves, Up(page, level - 1));
    assert FilledAt(t0, t1, root, level, s, leaves, root, 3, Up(page, 2));
    assert FilledAt(t0, t1, root, level, s, leaves, root, 2, Up(page, 1));
    assert FilledAt(t0, t1, root, level, s, leaves, root, 1, page);
  }

  lemma FilledIsRemapped(t0: Tables, t1: Tables, roots: set<nat>, root: nat, level: nat, s: nat, leaves: seq<Entry>)
    requires 1 <= level <= 3 && root in roots
    requires Filled(t0, t1, roots, root, level, s, leaves)
    requires forall e | e in leaves :: e == ZERO || Leaf(e, level)
    requires forall n: nat | s <= n < s + |leaves| :: NoLeafAbove(t0, root, level, n)
    ensures Remapped(t0, t1, roots, root, level, s, leaves)
  {
    forall r: nat, page: nat | r in roots
      ensures Lookup(t1, r, page) == RemappedTo(t0, root, level, s, leaves, r, page)
    {
      FilledPage(t0, t1, roots, root, level, s, leaves, r, page);
    }
  }

  /** A run of 4 KiB leaves, page by page. */
  lemma RemappedPage(t0: Tables, t1: Tables, roots: set<nat>, root: nat, s: nat, leaves: seq<Entry>, page: nat)
    requires root in roots && Remapped(t0, t1, roots, root, 1, s, leaves)
    ensures s <= page < s + |leaves| && leaves[page - s] != ZERO ==>
              Lookup(t1, root, page) == Some(PhysicalBits(leaves[page - s].address))
    ensures !(s <= page < s + |leaves|) ==> Lookup(t1, root, page) == Lookup(t0, root, page)
  {
    var looked := Lookup(t1, root, page);
    assert looked == RemappedTo(t0, root, 1, s, leaves, root, page);
    assert Up(page, 0) == page && page % Span(1) == 0;
  }

  // ----- Several address spaces

  /** What the address spaces depend on: the tables, the level-4 tables, and the frames handed out. */
  datatype Memory = Memory(tables: Tables, roots: set<nat>, frames: set<nat>)

  ghost predicate Blank(t: Tables, root: nat) {
    forall j: nat, m: nat | 1 <= j <= 4 :: Slot(t, root, j, m) == ZERO
  }

  /** No slot of these address spaces changed. */
  ghost predicate SameSpaces(t: Tables, t': Tables, roots: set<nat>) {
    forall r: nat, j: nat, m: nat | r in roots && 1 <= j <= 4 :: Slot(t', r, j, m) == Slot(t, r, j, m)
  }

  lemma SameTransitive(t0: Tables, t1: Tables, t2: Tables, roots: set<nat>, roots': set<nat>)
    requires SameSpaces(t0, t1, roots) && SameSpaces(t1, t2, roots') && roots <= roots'
    ensures SameSpaces(t0, t2, roots)
  {
    forall r: nat, j: nat, m: nat | r in roots && 1 <= j <= 4
      ensures Slot(t2, r, j, m) == Slot(t0, r, j, m)
    {
      assert r in roots';
      assert Slot(t1, r, j, m) == Slot(t0, r, j, m);
    }
  }

  /** Then no page of them moved. */
  lemma SameLookup(t: Tables, t': Tables, roots: set<nat>, r: nat, page: nat)
    requires SameSpaces(t, t', roots) && r in roots
    ensures Lookup(t', r, page) == Lookup(t, r, page)
  {}

  /** A run touches one address space only. */
  lemma FilledElsewhere(t0: Tables, t1: Tables, roots: set<nat>, root: nat, level: nat, s: nat, leaves: seq<Entry>)
    requires Filled(t0, t1, roots, root, level, s, leaves)
    ensures SameSpaces(t0, t1, roots - {root})
  {
    forall r: nat, j: nat, m: nat | r in roots - {root} && 1 <= j <= 4
      ensures Slot(t1, r, j, m) == Slot(t0, r, j, m)
    {
      assert FilledAt(t0, t1, root, level, s, leaves, r, j, m);
    }
  }

  lemma {:induction false} BlankSlot(t: Tables, root: nat, j: nat, m: nat)
    requires root in t && t[root] == EMPTY && 1 <= j <= 4
    ensures Slot(t, root, j, m) == ZERO
    decreases 4 - j
  {
    if j < 4 {
      BlankSlot(t, root, j + 1, m / 512);
    }
  }

  /** A cleared page becomes the level-4 table of a new, empty address space; the others stay as they are. */
  lemma NewSpaceTree(t: Tables, nodes: map<nat, Node>, roots: set<nat>, f: nat)
    requires Tree(t, nodes, roots) && f !in t && f % PAGE == 0 && 0 < f < 0x10_0000_0000_0000
    ensures Tree(t[f := EMPTY], nodes[f := Node(f, 4, 0)], roots + {f})
    ensures Blank(t[f := EMPTY], f)
    ensures SameSpaces(t, t[f := EMPTY], roots)
  {
    FreshTableTree(t, nodes, roots, f, Node(f, 4, 0));
    var t' := t[f := EMPTY];
    forall j: nat, m: nat | 1 <= j <= 4
      ensures Slot(t', f, j, m) == ZERO
    {
      BlankSlot(t', f, j, m);
    }
    forall r: nat, j: nat, m: nat | r in roots && 1 <= j <= 4
      ensures Slot(t', r, j, m) == Slot(t, r, j, m)
    {
      FreshTableUnseen(t, nodes, roots, f, r, j, m);
    }
  }
}
