/** The turns of an unmapping loop as facts about table memory: it clears slot after slot and follows the
    tables that exist, creating none. */
module UnmapRun {
  import opened Wrappers
  import opened PageTables
  import opened AddressSpace
  import opened PagingCursor

  /** How an unmapping call ends. `OffEnd`: the walk stepped past the last slot of the address space.
      `NoTable`: it stepped into a table that does not exist. In both the C function returns 0 and counts
      nothing, although it may have cleared every page. */
  datatype Unmapping = Unmapped | Refused | OffEnd | NoTable

  /** The page size of the mapping an address has. */
  ghost function LeafLevel(t: Tables, root: nat, page: nat): nat {
    if Slot(t, root, 3, page / 512 / 512).size then 3
    else if Slot(t, root, 2, page / 512).size then 2
    else 1
  }

  /** Slots s .. s+count-1 of `level` and all under them read ZERO, nothing else changed. */
  ghost predicate Cleared(t0: Tables, t1: Tables, roots: set<nat>, root: nat, level: nat, s: nat, count: nat) {
    forall r: nat, j: nat, m: nat | r in roots && 1 <= j <= 4 :: ClearedAt(t0, t1, root, level, s, count, r, j, m)
  }

  ghost predicate ClearedAt(t0: Tables, t1: Tables, root: nat, level: nat, s: nat, count: nat, r: nat, j: nat, m: nat)
    requires 1 <= j <= 4
  {
    Slot(t1, r, j, m) ==
    if r == root && j <= level && s <= Up(m, level - j) < s + count then ZERO else Slot(t0, r, j, m)
  }

  lemma ClearedStep(t0: Tables, t1: Tables, t2: Tables, roots: set<nat>, root: nat, level: nat, s: nat, count: nat)
    requires 1 <= level <= 3 && Cleared(t0, t1, roots, root, level, s, count)
    requires Wrote(t1, t2, roots, root, level, s + count, ZERO)
    ensures Cleared(t0, t2, roots, root, level, s, count + 1)
  {
    var done := count + 1;
    forall r: nat, j: nat, m: nat | r in roots && 1 <= j <= 4
      ensures ClearedAt(t0, t2, root, level, s, done, r, j, m)
    {
      assert ClearedAt(t0, t1, root, level, s, count, r, j, m);
      assert Slot(t2, r, j, m) == Patched(t1, root, level, s + count, ZERO, r, j, m);
    }
  }

  lemma ClearedIsFilled(t0: Tables, t1: Tables, roots: set<nat>, root: nat, level: nat, s: nat, count: nat)
    requires 1 <= level <= 3 && Cleared(t0, t1, roots, root, level, s, count)
    ensures Filled(t0, t1, roots, root, level, s, Zeros(count))
  {
    forall r: nat, j: nat, m: nat | r in roots && 1 <= j <= 4
      ensures FilledAt(t0, t1, root, level, s, Zeros(count), r, j, m)
    {
      assert ClearedAt(t0, t1, root, level, s, count, r, j, m);
    }
  }

  // ----- The walk

  /** Where a walk that creates nothing stands after one step from slot `n`. */
  ghost predicate Followed(t: Tables, root: nat, level: nat, n: nat, table: seq<nat>, index: seq<nat>, r: Unmapping)
    requires 1 <= level <= 4
  {
    match r
    case Unmapped =>
      && n + 1 < Slots(level) && At(t, table, index, level, n + 1) && table[3] == root
      && (level < 4 ==> Slot(t, root, level + 1, (n + 1) / 512) != ZERO)
    case OffEnd => n + 1 == Slots(level)
    case NoTable => n + 1 < Slots(level) && level < 4 && Slot(t, root, level + 1, (n + 1) / 512) == ZERO
    case Refused => false
  }

  /** The index was bumped without overflow. */
  lemma FollowedInTable(t: Tables, root: nat, level: nat, n: nat, table: seq<nat>, index: seq<nat>)
    requires At(t, table, index, level, n) && table[3] == root && index[level - 1] + 1 < 512
    ensures Followed(t, root, level, n, table, index[level - 1 := index[level - 1] + 1], Unmapped)
  {
    NoCarry(t, {root}, table, index, level, true, n);
    NextDigits(n);
  }

  /** The level above moved on: the entry it now selects is a table, or ZERO. */
  lemma FollowedAbove(t: Tables, nodes: map<nat, Node>, roots: set<nat>, root: nat, level: nat, n: nat,
                      table: seq<nat>, index: seq<nat>)
    requires Tree(t, nodes, roots) && root in roots && 1 <= level < 4
    requires NoLeafAbove(t, root, level, n + 1) && (n + 1) / 512 == n / 512 + 1 && (n + 1) % 512 == 0
    requires At(t, table, index, level + 1, n / 512 + 1) && table[3] == root && n + 1 < Slots(level)
    ensures index[level] < 512 && table[level] in t
    ensures var child := t[table[level]][index[level]].address;
            if child == 0 then Followed(t, root, level, n, table, index, NoTable)
            else Followed(t, root, level, n, table[level - 1 := child], index[level - 1 := 0], Unmapped)
  {
    AtSlot(t, table, index, level + 1, n / 512 + 1);
    SlotHome(t, nodes, roots, root, level + 1, n / 512 + 1);
    var e := Slot(t, root, level + 1, n / 512 + 1);
    assert !e.size;
    if e != ZERO {
      assert e.address in t && Home(e.address, nodes[e.address]);
      AtCarried(t, table, index, level, n + 1, e.address);
    }
  }

  // ----- The loop

  /** How an unmapping loop that started at slot `s` stands after clearing `count` slots. */
  ghost predicate Clearing(t0: Tables, t: Tables, roots: set<nat>, root: nat, level: nat, s: nat, count: nat,
                           table: seq<nat>, index: seq<nat>, r: Unmapping)
    requires 1 <= level <= 3
  {
    && Cleared(t0, t, roots, root, level, s, count) && NoGap(t0, root, level, s, count - 1)
    && match r
       case Unmapped =>
         && s + count < Slots(level) && NoGap(t0, root, level, s, count)
         && At(t, table, index, level, s + count) && table[3] == root
       case OffEnd => count > 0 && s + count == Slots(level)
       case NoTable =>
         && s + count < Slots(level) && count > 0
         && Slot(t0, root, level + 1, (s + count) / 512) == ZERO
       case Refused => false
  }

  /** The `count` slots after slot `s` lie in tables that exist. */
  ghost predicate NoGap(t: Tables, root: nat, level: nat, s: nat, count: int)
    requires 1 <= level <= 3
  {
    forall m: nat {:trigger Held(t, root, level, m)} | s < m <= s + count :: Held(t, root, level, m)
  }

  ghost predicate Held(t: Tables, root: nat, level: nat, m: nat)
    requires 1 <= level <= 3
  {
    Slot(t, root, level + 1, m / 512) != ZERO
  }

  lemma ClearingStarts(t: Tables, roots: set<nat>, root: nat, level: nat, s: nat, table: seq<nat>, index: seq<nat>)
    requires 1 <= level <= 3 && At(t, table, index, level, s) && table[3] == root
    ensures Clearing(t, t, roots, root, level, s, 0, table, index, Unmapped)
  {
    AtBound(t, table, index, level, s);
  }

  lemma ClearingReady(t0: Tables, t: Tables, roots: set<nat>, root: nat, level: nat, s: nat, count: nat,
                      table: seq<nat>, index: seq<nat>)
    requires root in roots && 1 <= level <= 3 && Clearing(t0, t, roots, root, level, s, count, table, index, Unmapped)
    requires NoLeafAbove(t0, root, level, s + count + 1)
    ensures NoLeafAbove(t, root, level, s + count + 1)
  {
    ClearedIsFilled(t0, t, roots, root, level, s, count);
    FilledNoLeafAbove(t0, t, roots, root, level, s, Zeros(count), s + count + 1);
  }

  /** A slot is cleared and the walk has moved on, or could not. */
  lemma ClearedOne(t0: Tables, t1: Tables, t2: Tables, roots: set<nat>, root: nat, level: nat, s: nat, count: nat,
                   table: seq<nat>, index: seq<nat>, table': seq<nat>, index': seq<nat>, r: Unmapping)
    requires root in roots && 1 <= level <= 3 && Clearing(t0, t1, roots, root, level, s, count, table, index, Unmapped)
    requires Wrote(t1, t2, roots, root, level, s + count, ZERO)
    requires Followed(t2, root, level, s + count, table', index', r)
    ensures Clearing(t0, t2, roots, root, level, s, count + 1, table', index', r)
  {
    ClearedStep(t0, t1, t2, roots, root, level, s, count);
    var m := s + count + 1;
    assert ClearedAt(t0, t2, root, level, s, count + 1, root, level + 1, m / 512);
    if r == Unmapped {
      assert Held(t0, root, level, m);
    }
  }

  // ----- Unmapping calls

  /** `used_virtual_pages -= pages`, in 64-bit arithmetic. */
  function SubtractPages(used: nat, pages: nat): nat {
    (used + 0x1_0000_0000_0000_0000 - pages % 0x1_0000_0000_0000_0000) % 0x1_0000_0000_0000_0000
  }

  /** used_virtual_pages after an unmapping call: only a call that returns success subtracts its pages. */
  function UsedAfterUnmap(used: nat, level: nat, bytes: nat, r: Unmapping): nat
    requires 1 <= level <= 3
  {
    if r == Unmapped then SubtractPages(used, LeafPages(level, PageCount(bytes, level))) else used
  }

  /** What unmapping demands of the tree: no larger leaf covers the pages of the run or the slot after it. */
  ghost predicate Unmappable(t: Tables, root: nat, address: nat, bytes: nat) {
    var page := PageOf(address);
    var level := LeafLevel(t, root, page);
    forall m | SlotOf(page, level) < m <= SlotOf(page, level) + PageCount(bytes, level) ::
          NoLeafAbove(t, root, level, m)
  }

  /** When an unmapping call writes nothing. */
  ghost predicate UnmapRefused(t: Tables, root: nat, address: nat) {
    Lookup(t, root, PageOf(address)) == None || address % LeafBytes(LeafLevel(t, root, PageOf(address)), 1) != 0
  }

  /** How unmapping at an address ends, and what it did. */
  ghost predicate UnmapResult(t0: Tables, t: Tables, roots: set<nat>, root: nat, address: nat, bytes: nat, count: nat,
                              r: Unmapping)
  {
    var page := PageOf(address);
    var level := LeafLevel(t0, root, page);
    var s, pages := SlotOf(page, level), PageCount(bytes, level);
    match r
    case Refused => UnmapRefused(t0, root, address) && t == t0
    case Unmapped =>
      && !UnmapRefused(t0, root, address) && count == pages && s + pages < Slots(level)
      && NoGap(t0, root, level, s, pages) && Cleared(t0, t, roots, root, level, s, pages)
    case OffEnd =>
      && !UnmapRefused(t0, root, address) && 0 < count <= pages && s + count == Slots(level)
      && NoGap(t0, root, level, s, count - 1) && Cleared(t0, t, roots, root, level, s, count)
    case NoTable =>
      && !UnmapRefused(t0, root, address) && 0 < count <= pages && s + count < Slots(level)
      && NoGap(t0, root, level, s, count - 1) && !Held(t0, root, level, s + count)
      && Cleared(t0, t, roots, root, level, s, count)
  }

  /** Reading the first slot the walk meets. */
  lemma WalkStarts(t: Tables, roots: set<nat>, nodes: map<nat, Node>, root: nat, address: nat, level: nat,
                   table: seq<nat>, index: seq<nat>)
    requires Tree(t, nodes, roots) && root in roots && 2 <= level <= 4
    requires At(t, table, index, level, SlotOf(PageOf(address), level)) && table[3] == root
    ensures index[level - 1] < 512 && table[level - 1] in t
    ensures var e := t[table[level - 1]][index[level - 1]];
            var n := SlotOf(PageOf(address), level - 1);
            && e == Slot(t, root, level, SlotOf(PageOf(address), level))
            && (e != ZERO && !e.size ==>
                 At(t, table[level - 2 := e.address], index[level - 2 := n % 512], level - 1, n))
  {
    var page := PageOf(address);
    UpDigits(page);
    var n, up := SlotOf(page, level - 1), SlotOf(page, level);
    assert up == n / 512;
    AtSlot(t, table, index, level, up);
    SlotHome(t, nodes, roots, root, level, up);
    var e := Slot(t, root, level, up);
    if e != ZERO && !e.size {
      AtCopied(t, table, index, table[level - 2 := e.address], index[level - 2 := n % 512], level, up);
    }
  }

  /** The walk came down to `level` and met no leaf on the way. */
  ghost predicate Walked(t: Tables, root: nat, page: nat, level: nat) {
    && 1 <= level <= 4
    && (level < 3 ==> !Slot(t, root, 3, page / 512 / 512).size)
    && (level < 2 ==> !Slot(t, root, 2, page / 512).size)
  }

  /** The entry the walk ends at decides. */
  lemma WalkEnds(t: Tables, nodes: map<nat, Node>, roots: set<nat>, root: nat, page: nat, level: nat)
    requires Tree(t, nodes, roots) && root in roots && Walked(t, root, page, level)
    ensures var e := Slot(t, root, level, SlotOf(page, level));
            && (e == ZERO ==> Lookup(t, root, page) == None)
            && (e != ZERO && (level == 1 || (level < 4 && e.size)) ==>
                  Lookup(t, root, page).Some? && LeafLevel(t, root, page) == level)
            && (e != ZERO && level > 1 && !(level < 4 && e.size) ==> !e.size && Walked(t, root, page, level - 1))
  {
    UpDigits(page);
    SlotHome(t, nodes, roots, root, level, SlotOf(page, level));
    if Slot(t, root, level, SlotOf(page, level)) == ZERO {
      if level > 1 {
        NothingUnder(t, root, 1, page, level);
      }
      if level > 2 {
        NothingUnder(t, root, 2, page / 512, level);
      }
      if level > 3 {
        NothingUnder(t, root, 3, page / 512 / 512, level);
      }
    }
  }

  lemma ClearingEnds(t0: Tables, t: Tables, roots: set<nat>, root: nat, address: nat, bytes: nat, level: nat,
                     count: nat,
                     table: seq<nat>, index: seq<nat>, r: Unmapping)
    requires 1 <= level <= 3 && level == LeafLevel(t0, root, PageOf(address)) && !UnmapRefused(t0, root, address)
    requires Clearing(t0, t, roots, root, level, SlotOf(PageOf(address), level), count, table, index, r)
    requires count <= PageCount(bytes, level) && (r == Unmapped ==> count == PageCount(bytes, level))
    ensures UnmapResult(t0, t, roots, root, address, bytes, count, r)
  {}
}
