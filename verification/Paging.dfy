/** Mapping and unmapping runs of pages (src/common/paging.c). */
module Paging {
  import opened Wrappers
  import opened PageTables
  import opened AddressSpace
  import opened PagingCursor
  import opened UnmapRun
  import opened Placement
  import PhysicalMemory

  // ----- The paging cursor

  /** struct paging_context: table[k-1] is level<k>_table and index[k-1] is level<k>_index. */
  class PagingContext {
    var table: seq<nat>
    var index: seq<nat>

    constructor (level4Table: nat)
      ensures table == [0, 0, 0, level4Table] && index == [0, 0, 0, 0]
    {
      table, index := [0, 0, 0, level4Table], [0, 0, 0, 0];
    }
  }

  class Pager {
    const physical: PhysicalMemory.Allocator
    const hugePagesSupported: bool
    var tables: Tables
    var usedVirtualPages: nat
    ghost var nodes: map<nat, Node>   // the place of each table
    ghost var roots: set<nat>         // the level-4 tables
    ghost var frames: set<nat>        // page frames handed out to map_index_current

    ghost predicate Owned(f: nat)
      reads physical, physical.table
    {
      f % PAGE == 0 && f / PAGE in physical.marked
    }

    /** The tables form trees; every table and every frame handed out is a marked page, and no frame
        handed out is a table. Page 0 is never free, so a null table pointer is never a table. */
    ghost predicate Valid()
      reads this, physical, physical.table
    {
      && physical.InBounds()
      && Tree(tables, nodes, roots)
      && 0 in physical.marked
      && (forall f | f in nodes :: Owned(f))
      && (forall f | f in frames :: Owned(f) && f !in nodes)
    }

    ghost function Spaces(): AddressSpace.Memory
      reads this
    {
      AddressSpace.Memory(tables, roots, frames)
    }

    /** paging_initialize: no tables yet; page 0 has been reserved at boot. */
    constructor (physical: PhysicalMemory.Allocator, hugePagesSupported: bool)
      requires physical.InBounds() && 0 in physical.marked
      ensures Valid() && tables == map[] && nodes == map[] && roots == {} && frames == {} && usedVirtualPages == 0
      ensures this.physical == physical && this.hugePagesSupported == hugePagesSupported
    {
      this.physical := physical;
      this.hugePagesSupported := hugePagesSupported;
      tables, usedVirtualPages := map[], 0;
      nodes, roots, frames := map[], {}, {};
    }

    /** Loads the table the entry of slot `n` points to; when the entry is empty, allocates a table, clears it
        and stores a pointer to it. `masked` is false where the source forgets to mask the flag bits. */
    method Descend(parent: nat, i: nat, masked: bool, ghost root: nat, ghost level: nat, ghost n: nat)
        returns (child: Option<nat>)
      requires Valid() && root in roots
      requires 2 <= level <= 4 && i == n % 512 && TableAt(tables, root, level, parent, n / 512)
      requires !Slot(tables, root, level, n).size
      modifies this`tables, this`nodes, physical, physical.table
      ensures Valid()
      ensures child == None ==> !physical.HasFree() && tables == old(tables)
      ensures child.Some? ==> Descended(old(tables), tables, roots, root, level, n, masked, child.value)
    {
      SlotIn(tables, root, level, parent, n / 512, i);
      SlotHome(tables, nodes, roots, root, level, n);
      var pointer := if masked then tables[parent][i].address else Word(tables[parent][i]);
      if pointer == 0 {
        child := HangTable(parent, i, root, level, n);
      } else {
        child := Some(pointer);
      }
    }

    /** Allocates a table, clears it and stores a pointer to it in entry `i` of `parent`, which is slot `n`. */
    method HangTable(parent: nat, i: nat, ghost root: nat, ghost level: nat, ghost n: nat) returns (child: Option<nat>)
      requires Valid() && root in roots
      requires 2 <= level <= 4 && i == n % 512 && TableAt(tables, root, level, parent, n / 512)
      modifies this`tables, this`nodes, physical, physical.table
      ensures Valid()
      ensures child == None ==> !physical.HasFree() && tables == old(tables)
      ensures child.Some? ==> Wrote(old(tables), tables, roots, root, level, n, PointerTo(child.value))
                              && child.value in tables && old(tables).Keys <= tables.Keys
    {
      if !physical.HasFree() {
        return None;
      }
      ghost var marked := physical.marked;
      var f := physical.Allocate();
      FreshPage(f, marked, physical.table.Length, nodes);
      LinkSlots(tables, nodes, roots, root, level, parent, n, f);
      LinkTree(tables, nodes, roots, root, level, parent, n, f);
      tables := tables[f := EMPTY];
      tables := Write(tables, parent, i, PointerTo(f));
      nodes := nodes[f := Node(root, level - 1, n)];
      child := Some(f);
    }

    /** Moves the cursor from slot `n` of `level` to the next: the index is bumped, and on overflow the level
        above moves on first and the table it then selects is loaded or created. */
    method Advance(ctx: PagingContext, level: nat, masked: bool, ghost root: nat, ghost n: nat) returns (r: Outcome)
      requires Valid() && root in roots
      requires Poised(tables, ctx.table, ctx.index, level, n) && ctx.table[3] == root
      requires masked || level == 3
      requires NoLeafAbove(tables, root, level, n + 1)
      modifies this`tables, this`nodes, ctx, physical, physical.table
      ensures Valid()
      ensures r.Spins? ==> !physical.HasFree()
      ensures Advanced(old(tables), tables, roots, root, level, masked, n, old(ctx.table), old(ctx.index),
                       ctx.table, ctx.index, r)
      decreases 4 - level, 1
    {
      hide Tree;
      ghost var t0, table0, index0 := tables, ctx.table, ctx.index;
      ctx.index := ctx.index[level - 1 := ctx.index[level - 1] + 1];
      if ctx.index[level - 1] >= 512 {
        r := CarryOver(ctx, level, masked, root, n, t0, table0, index0);
      } else {
        BumpIndex(t0, roots, table0, index0, level, masked, n);
        r := Succeeds;
      }
    }

    /** The index of `level` has overflowed: the level above moves on first. */
    method CarryOver(ctx: PagingContext, level: nat, masked: bool,
                     ghost root: nat, ghost n: nat, ghost t0: Tables, ghost table0: seq<nat>, ghost index0: seq<nat>)
        returns (r: Outcome)
      requires Valid() && root in roots && tables == t0
      requires Poised(t0, table0, index0, level, n) && index0[level - 1] >= 511 && table0[3] == root
      requires ctx.table == table0 && ctx.index == index0[level - 1 := 512]
      requires masked || level == 3
      requires NoLeafAbove(tables, root, level, n + 1)
      modifies this`tables, this`nodes, ctx, physical, physical.table
      ensures Valid()
      ensures r.Spins? ==> !physical.HasFree()
      ensures Stepped(t0, tables, roots, root, level, masked, n, table0, index0, ctx.table, ctx.index, r)
      ensures n % 512 == 511
      decreases 4 - level, 0
    {
      hide Tree, At;
      Carry(t0, table0, index0, level, n);
      if level == 4 {
        r := Overruns;
      } else {
        r := Advance(ctx, level + 1, true, root, n / 512);
        if r.Succeeds? {
          r := FinishCarry(ctx, level, masked, root, n, t0, table0, index0);
        }
      }
    }

    /** The second half of a carry: the index restarts at 0 in the table the level above now selects. */
    method FinishCarry(ctx: PagingContext, level: nat, masked: bool,
                       ghost root: nat, ghost n: nat, ghost t0: Tables, ghost table0: seq<nat>, ghost index0: seq<nat>)
        returns (r: Outcome)
      requires Valid() && root in roots && (masked || level == 3)
      requires Carried(t0, tables, roots, root, level, n, table0, index0, ctx.table, ctx.index)
      modifies this`tables, this`nodes, ctx, physical, physical.table
      ensures Valid()
      ensures r.Succeeds? || (r.Spins? && !physical.HasFree())
      ensures r.Succeeds? ==>
                Moved(t0, tables, roots, root, level, masked, n, table0, index0, ctx.table, ctx.index)
    {
      hide Tree;
      ghost var t1, table2, index2 := tables, ctx.table, ctx.index;
      CarryReady(t0, t1, nodes, roots, root, level, n, table0, index0, table2, index2);
      ctx.index := ctx.index[level - 1 := 0];
      var child := Descend(ctx.table[level], ctx.index[level], masked, root, level + 1, n / 512 + 1);
      if child == None {
        return Spins;
      }
      ctx.table := ctx.table[level - 1 := child.value];
      CarryMoves(t0, t1, tables, old(nodes), roots, root, level, masked, n, table0, index0, table2, index2,
                 child.value);
      r := Succeeds;
    }

    /** One turn of a mapping loop: writes a leaf where the cursor stands, then moves the cursor on. */
    method MapOne(ctx: PagingContext, level: nat, e: Entry,
                  ghost root: nat, ghost t0: Tables, ghost s: nat, ghost w: nat, ghost leaves: seq<Entry>)
        returns (r: Outcome, ghost leaves': seq<Entry>)
      requires Valid() && root in roots && Leaf(e, level) && e.present && Canonical(e) && 1 <= level <= 3
      requires Mapping(t0, tables, roots, root, level, s, w, leaves, ctx.table, ctx.index, Succeeds)
      requires NoLeafAbove(t0, root, level, s + |leaves| + 1)
      modifies this`tables, this`nodes, ctx, physical, physical.table
      ensures Valid()
      ensures r.Spins? ==> !physical.HasFree()
      ensures leaves' == if r.Strays? then leaves else leaves + [e]
      ensures Mapping(t0, tables, roots, root, level, s, w, leaves', ctx.table, ctx.index, r)
    {
      hide Tree, Stands, NoLeafAbove;
      ghost var t1, table1, index1, n := tables, ctx.table, ctx.index, s + |leaves|;
      leaves' := leaves;
      MappingReady(t0, t1, roots, root, level, s, w, leaves, table1, index1);
      if ctx.table[level - 1] !in tables {
        r := Strays;
      } else {
        leaves' := leaves + [e];
        ghost var t2;
        r, t2 := StoreAndAdvance(ctx, level, e, root, n, NextSlot(s, w, |leaves|));
        MappingTurns(t0, t1, t2, tables, roots, root, level, s, w, leaves, e, table1, index1, ctx.table, ctx.index, r);
      }
    }

    /** The leaf goes to slot `w`, the cursor's indices spell slot `n`. */
    method StoreAndAdvance(ctx: PagingContext, level: nat, e: Entry, ghost root: nat, ghost n: nat, ghost w: nat)
        returns (r: Outcome, ghost stored: Tables)
      requires Valid() && root in roots && Leaf(e, level) && e.present && Canonical(e) && 1 <= level <= 3
      requires Stands(tables, ctx.table, ctx.index, level, n, w) && ctx.table[3] == root
      requires NoLeafAbove(tables, root, level, n + 1)
      modifies this`tables, this`nodes, ctx, physical, physical.table
      ensures Valid()
      ensures r.Spins? ==> !physical.HasFree()
      ensures Turned(old(tables), stored, tables, roots, root, level, n, w, e, old(ctx.table), old(ctx.index),
                     ctx.table, ctx.index, r)
    {
      hide Tree;
      StoreLeaf(ctx, level, e, root, n, w);
      stored := tables;
      ghost var table1, index1 := ctx.table, ctx.index;
      if w != n {
        StandsOff(stored, nodes, roots, table1, index1, level, n, w);
      }
      StandsAt(stored, table1, index1, level, n, w);
      r := Advance(ctx, level, level < 3, root, n);
      StandsTurned(stored, tables, roots, root, level, n, w, table1, index1, ctx.table, ctx.index, r);
    }

    /** `level<k>_table[level<k>_index] = entry`. */
    method StoreLeaf(ctx: PagingContext, level: nat, e: Entry, ghost root: nat, ghost n: nat, ghost w: nat)
      requires Valid() && root in roots && 1 <= level <= 3
      requires Leaf(e, level) && e.present && Canonical(e)
      requires Stands(tables, ctx.table, ctx.index, level, n, w) && ctx.table[3] == root
      requires NoLeafAbove(tables, root, level, n + 1)
      modifies this`tables
      ensures Valid() && tables.Keys == old(tables).Keys
      ensures Wrote(old(tables), tables, roots, root, level, w, e)
      ensures Stands(tables, ctx.table, ctx.index, level, n, w) && NoLeafAbove(tables, root, level, n + 1)
    {
      hide Tree;
      ghost var t0 := tables;
      StandsAt(t0, ctx.table, ctx.index, level, n, w);
      LeafWritten(t0, nodes, roots, root, level, w, ctx.table, AsideIndex(ctx.index, n, w), e);
      tables := Write(tables, ctx.table[level - 1], ctx.index[level - 1], e);
      StandsStored(t0, tables, roots, level, n, w, e, ctx.table, ctx.index);
      WroteNoLeafAbove(t0, tables, roots, root, level, w, e, n + 1);
    }

    /** The three loops of paging_map_index_physical: writes `pages` consecutive leaves of `level`, moving the
        cursor on after each one, the last included. `count` leaves have been written when it ends. */
    method MapRun(ctx: PagingContext, level: nat, address: nat, pages: nat, flags: Flags,
                  ghost root: nat, ghost s: nat, ghost w: nat)
        returns (r: Outcome, ghost count: nat)
      requires Valid() && root in roots && 1 <= level <= 3
      requires Begins(tables, root, level, s, w, ctx.table, ctx.index)
      requires forall n | s < n <= s + pages :: NoLeafAbove(tables, root, level, n)
      modifies this`tables, this`nodes, ctx, physical, physical.table
      ensures Valid()
      ensures r.Spins? ==> !physical.HasFree()
      ensures count <= pages && (r.Succeeds? ==> count == pages) && (r.Strays? ==> count < pages)
      ensures Mapping(old(tables), tables, roots, root, level, s, w, RunLeaves(address, level, flags, count),
                      ctx.table, ctx.index, r)
    {
      hide Tree;
      ghost var t0 := tables;
      MappingStarts(t0, roots, root, level, s, w, ctx.table, ctx.index);
      ghost var leaves := [];
      r, count := Succeeds, 0;
      var i := 0;
      while i < pages && r.Succeeds?
        invariant 0 <= i <= pages && count <= i && leaves == RunLeaves(address, level, flags, count)
        invariant r.Succeeds? ==> count == i
        invariant r.Strays? ==> count < pages
        invariant Valid()
        invariant r.Spins? ==> !physical.HasFree()
        invariant Mapping(t0, tables, roots, root, level, s, w, leaves, ctx.table, ctx.index, r)
      {
        var e := LeafEntry((address + LeafBytes(level, i)) % 0x1_0000_0000_0000_0000, level, flags);
        RunLeavesStep(address, level, flags, i);
        r, leaves := MapOne(ctx, level, e, root, t0, s, w, leaves);
        count := if r.Strays? then i else i + 1;
        i := i + 1;
      }
    }

    /** paging_map_index_physical: picks the page size, checks the first slot and the alignment, and maps. */
    method MapIndexPhysical(ctx: PagingContext, address: nat, bytes: nat, flags: Flags,
                            ghost root: nat, ghost level: nat, ghost n: nat, ghost w: nat)
        returns (r: Outcome, ghost count: nat)
      requires Valid() && root in roots && Chooses(tables, root, level, n, flags)
      requires Begins(tables, root, level, n, w, ctx.table, ctx.index)
      requires forall m | n < m <= n + PageCount(bytes, level) :: NoLeafAbove(tables, root, level, m)
      modifies this`tables, this`nodes, this`usedVirtualPages, ctx, physical, physical.table
      ensures Valid()
      ensures r.Refuses? <==> MapRefused(old(tables), root, level, n, address, bytes, flags, hugePagesSupported)
      ensures r.Refuses? ==> tables == old(tables) && ctx.table == old(ctx.table) && ctx.index == old(ctx.index)
      ensures r.Spins? ==> !physical.HasFree()
      ensures count <= PageCount(bytes, level) && (r.Succeeds? ==> count == PageCount(bytes, level))
      ensures r.Strays? ==> count < PageCount(bytes, level)
      ensures !r.Refuses? ==>
                Mapping(old(tables), tables, roots, root, level, n, w, RunLeaves(address, level, flags, count),
                        ctx.table, ctx.index, r)
      ensures Counted(old(usedVirtualPages), usedVirtualPages, level, count, r)
    {
      hide Tree;
      r, count := Refuses, 0;
      if bytes != 0 {
        DispatchLevel(tables, nodes, roots, root, level, n, w, flags, ctx.table, ctx.index);
        if tables[ctx.table[2]][ctx.index[2]].size || flags.huge1G {
          if hugePagesSupported && address % 0x4000_0000 == 0
             && (tables[ctx.table[2]][ctx.index[2]] == ZERO || flags.replace) {
            r, count := MapPages(ctx, 3, address, PageCount(bytes, 3), flags, root, n, w);
          }
        } else if tables[ctx.table[1]][ctx.index[1]].size || flags.huge2M {
          if address % 0x20_0000 == 0 && (tables[ctx.table[1]][ctx.index[1]] == ZERO || flags.replace) {
            r, count := MapPages(ctx, 2, address, PageCount(bytes, 2), flags, root, n, w);
          }
        } else if tables[ctx.table[0]][ctx.index[0]] == ZERO && address % PAGE == 0 {
          r, count := MapPages(ctx, 1, address, PageCount(bytes, 1), flags, root, n, w);
        }
      }
    }

    /** A mapping loop and the page count it adds at its end. What a run that strays goes on to do is not
        followed, so its count is left open. */
    method MapPages(ctx: PagingContext, level: nat, address: nat, pages: nat, flags: Flags,
                    ghost root: nat, ghost n: nat, ghost w: nat)
        returns (r: Outcome, ghost count: nat)
      requires Valid() && root in roots && 1 <= level <= 3
      requires Begins(tables, root, level, n, w, ctx.table, ctx.index)
      requires forall m | n < m <= n + pages :: NoLeafAbove(tables, root, level, m)
      modifies this`tables, this`nodes, this`usedVirtualPages, ctx, physical, physical.table
      ensures Valid() && !r.Refuses?
      ensures r.Spins? ==> !physical.HasFree()
      ensures count <= pages && (r.Succeeds? ==> count == pages) && (r.Strays? ==> count < pages)
      ensures Mapping(old(tables), tables, roots, root, level, n, w, RunLeaves(address, level, flags, count),
                      ctx.table, ctx.index, r)
      ensures Counted(old(usedVirtualPages), usedVirtualPages, level, count, r)
    {
      hide Tree, Mapping;
      ghost var t0 := tables;
      r, count := MapRun(ctx, level, address, pages, flags, root, n, w);
      MappingEnds(t0, tables, roots, root, level, n, w, RunLeaves(address, level, flags, count), ctx.table, ctx.index,
                  r);
      if r.Succeeds? {
        usedVirtualPages := AddPages(usedVirtualPages, LeafPages(level, pages));
      } else if r.Strays? {
        usedVirtualPages := *;
      }
    }

    /** Loads the table the cursor's entry at `level` + 1 selects, or creates it, and sets the index below. */
    method LoadLevel(ctx: PagingContext, level: nat, i: nat, ghost root: nat, ghost t0: Tables, ghost n: nat)
        returns (ok: bool)
      requires Valid() && root in roots && 1 <= level <= 3 && i == n % 512
      requires Located(t0, tables, roots, root, level + 1, n / 512, ctx.table, ctx.index)
      requires !Slot(tables, root, level + 1, n / 512).size
      modifies this`tables, this`nodes, ctx, physical, physical.table
      ensures Valid()
      ensures !ok ==> !physical.HasFree()
      ensures ok ==> Located(t0, tables, roots, root, level, n, ctx.table, ctx.index)
    {
      hide Tree;
      ghost var t1, table1, index1 := tables, ctx.table, ctx.index;
      var child := Descend(ctx.table[level], ctx.index[level], true, root, level + 1, n / 512);
      ok := child.Some?;
      if ok {
        ctx.table := ctx.table[level - 1 := child.value];
        ctx.index := ctx.index[level - 1 := i];
        LocatedBelow(t0, t1, tables, old(nodes), roots, root, level, n, table1, index1, child.value);
      }
    }

    /** paging_virtual_address_to_index: a cursor for the address in the tree of its level-4 table. */
    method VirtualAddressToIndex(ctx: PagingContext, address: nat, flags: Flags, ghost root: nat)
        returns (r: Outcome)
      requires Valid() && root in roots
      requires |ctx.table| == |ctx.index| == 4 && ctx.table[3] == root
      requires Indexable(tables, root, PageOf(address), flags)
      modifies this`tables, this`nodes, ctx, physical, physical.table
      ensures Valid()
      ensures r.Spins? ==> !physical.HasFree()
      ensures Indexed(old(tables), tables, roots, root, address, flags, ctx.table, ctx.index, r)
    {
      hide Tree;
      ghost var t0, page := tables, PageOf(address);
      AddressDigits(address);
      ctx.index := ctx.index[3 := address / 0x80_0000_0000 % 512];
      LocatedRoot(t0, nodes, roots, root, page / 512 / 512 / 512, ctx.table, ctx.index);
      var ok := LoadLevel(ctx, 3, address / 0x4000_0000 % 512, root, t0, page / 512 / 512);
      if !ok {
        r := Spins;
      } else if flags.huge1G {
        r := StopAbove(ctx, 3, address, 0x4000_0000, root, t0, page / 512 / 512);
      } else {
        r := LoadLowerLevels(ctx, address, flags, root, t0);
      }
    }

    /** A huge page is mapped: the address must be aligned to it, and the cursor has no lower part. */
    method StopAbove(ctx: PagingContext, level: nat, address: nat, size: nat, ghost root: nat, ghost t0: Tables,
                     ghost n: nat)
        returns (r: Outcome)
      requires 2 <= level <= 3 && size > 0
      requires Located(t0, tables, roots, root, level, n, ctx.table, ctx.index)
      modifies ctx
      ensures r == if address % size == 0 then Succeeds else Refuses
      ensures Located(t0, tables, roots, root, level, n, ctx.table, ctx.index)
    {
      if address % size != 0 {
        return Refuses;
      }
      ghost var table, index := ctx.table, ctx.index;
      if level == 3 {
        ctx.table, ctx.index := ctx.table[1 := 0], ctx.index[1 := 0];
      }
      ctx.table, ctx.index := ctx.table[0 := 0], ctx.index[0 := 0];
      AtCopied(tables, table, index, ctx.table, ctx.index, level, n);
      r := Succeeds;
    }

    method LoadLowerLevels(ctx: PagingContext, address: nat, flags: Flags, ghost root: nat, ghost t0: Tables)
        returns (r: Outcome)
      requires Valid() && root in roots && !flags.huge1G
      requires Located(t0, tables, roots, root, 3, PageOf(address) / 512 / 512, ctx.table, ctx.index)
      requires Indexable(t0, root, PageOf(address), flags)
      modifies this`tables, this`nodes, ctx, physical, physical.table
      ensures Valid()
      ensures r.Spins? ==> !physical.HasFree()
      ensures Indexed(t0, tables, roots, root, address, flags, ctx.table, ctx.index, r)
    {
      hide Tree;
      ghost var page := PageOf(address);
      AddressDigits(address);
      LocatedSlot(t0, tables, roots, root, 3, page / 512 / 512, ctx.table, ctx.index);
      var ok := LoadLevel(ctx, 2, address / 0x20_0000 % 512, root, t0, page / 512);
      if !ok {
        r := Spins;
      } else if flags.huge2M {
        r := StopAbove(ctx, 2, address, 0x20_0000, root, t0, page / 512);
      } else {
        LocatedNoLeaf(t0, tables, roots, root, page / 512, ctx.table, ctx.index);
        r := LoadLastLevel(ctx, address, flags, root, t0);
      }
    }

    /** Its last step, for 4 KiB pages. The source links a new level-1 table at the level-3 index. */
    method LoadLastLevel(ctx: PagingContext, address: nat, flags: Flags, ghost root: nat, ghost t0: Tables)
        returns (r: Outcome)
      requires Valid() && root in roots && !flags.huge1G && !flags.huge2M
      requires Located(t0, tables, roots, root, 2, PageOf(address) / 512, ctx.table, ctx.index)
      requires !Slot(tables, root, 3, PageOf(address) / 512 / 512).size
      requires Slot(t0, root, 2, PageOf(address) / 512).size ==> Slot(t0, root, 2, PageOf(address) / 512).address != 0
      modifies this`tables, this`nodes, ctx, physical, physical.table
      ensures Valid()
      ensures r.Spins? ==> !physical.HasFree()
      ensures Indexed(t0, tables, roots, root, address, flags, ctx.table, ctx.index, r)
    {
      hide Tree;
      ghost var table1, index1 := ctx.table, ctx.index;
      var child := LastTable(ctx, PageOf(address), flags, root, t0);
      if child == None {
        r := Spins;
      } else {
        ctx.table := ctx.table[0 := child.value];
        ctx.index := ctx.index[0 := address / PAGE % 512];
        r := if address % PAGE != 0 then Refuses else Succeeds;
        LastIndexed(t0, tables, roots, root, address, flags, table1, index1, child.value);
      }
    }

    /** The level-1 table it finds or links. */
    method LastTable(ctx: PagingContext, ghost page: nat, ghost flags: Flags, ghost root: nat, ghost t0: Tables)
        returns (child: Option<nat>)
      requires Valid() && root in roots && !flags.huge1G && !flags.huge2M
      requires Located(t0, tables, roots, root, 2, page / 512, ctx.table, ctx.index)
      requires !Slot(tables, root, 3, page / 512 / 512).size
      requires Slot(t0, root, 2, page / 512).size ==> Slot(t0, root, 2, page / 512).address != 0
      modifies this`tables, this`nodes, physical, physical.table
      ensures Valid()
      ensures child == None ==> !physical.HasFree()
      ensures child.Some? ==> LastFound(t0, tables, roots, root, page, flags, ctx.table, ctx.index, child.value)
    {
      ghost var t1, nodes1 := tables, nodes;
      LastReads(t1, nodes, roots, root, page, ctx.table, ctx.index);
      LocatedSlot(t0, t1, roots, root, 2, page / 512, ctx.table, ctx.index);
      var pointer := tables[ctx.table[1]][ctx.index[1]].address;
      child := Some(pointer);
      if pointer == 0 {
        child := HangTable(ctx.table[1], ctx.index[2], root, 2, MisplacedSlot(page));
      }
      if child.Some? {
        LastLinked(t0, t1, tables, nodes1, roots, root, page, flags, ctx.table, ctx.index, child.value);
      }
    }

    /** paging_map_physical_at: maps physical memory at a given virtual address of the context's tree. */
    method MapPhysicalAt(context: PagingContext, physicalAddress: nat, address: nat, bytes: nat, flags: Flags)
        returns (r: Outcome, mapped: nat, ghost count: nat)
      requires Valid() && |context.table| == 4 && context.table[3] in roots
      requires Mappable(tables, context.table[3], address, bytes, flags)
      modifies this`tables, this`nodes, this`usedVirtualPages, physical, physical.table
      ensures Valid()
      ensures !r.Strays? ==> mapped == if r.Succeeds? then address else 0
      ensures r.Spins? ==> !physical.HasFree()
      ensures MapResult(old(tables), tables, roots, context.table[3], address, physicalAddress, bytes, flags,
                        hugePagesSupported, count, r)
      ensures Counted(old(usedVirtualPages), usedVirtualPages,
                      TargetLevel(old(tables), context.table[3], PageOf(address), flags), count, r)
    {
      hide Tree, MapResult, Indexed;
      ghost var root, t0 := context.table[3], tables;
      var ctx := new PagingContext(context.table[3]);
      count := 0;
      r := VirtualAddressToIndex(ctx, address, flags, root);
      if r.Succeeds? {
        r, count := MapLocated(ctx, physicalAddress, address, bytes, flags, root, t0);
      } else {
        NotMapped(t0, tables, roots, root, address, physicalAddress, bytes, flags, hugePagesSupported, ctx.table,
                  ctx.index, r);
      }
      mapped := if r.Succeeds? then address else 0;
      if r.Strays? {
        mapped := *;
      }
    }

    /** Its second half: the cursor stands at the address. */
    method MapLocated(ctx: PagingContext, physicalAddress: nat, address: nat, bytes: nat, flags: Flags,
                      ghost root: nat, ghost t0: Tables)
        returns (r: Outcome, ghost count: nat)
      requires Valid() && root in roots && Mappable(t0, root, address, bytes, flags)
      requires Indexed(t0, tables, roots, root, address, flags, ctx.table, ctx.index, Succeeds)
      modifies this`tables, this`nodes, this`usedVirtualPages, ctx, physical, physical.table
      ensures Valid()
      ensures r.Spins? ==> !physical.HasFree()
      ensures MapResult(t0, tables, roots, root, address, physicalAddress, bytes, flags, hugePagesSupported, count, r)
      ensures Counted(old(usedVirtualPages), usedVirtualPages, TargetLevel(t0, root, PageOf(address), flags), count, r)
    {
      hide Tree;
      ghost var page, t1, table1, index1 := PageOf(address), tables, ctx.table, ctx.index;
      ghost var level := TargetLevel(t0, root, page, flags);
      IndexedReady(t0, t1, roots, root, address, bytes, flags, table1, index1);
      r, count := MapIndexPhysical(ctx, physicalAddress, bytes, flags, root, level, SlotOf(page, level),
                                   StartSlot(t0, root, page, flags));
      RunLeavesAreLeaves(physicalAddress, level, flags, count);
      MapDone(t0, t1, tables, roots, root, address, bytes, flags,
              MapAtRefused(t0, root, address, physicalAddress, bytes, flags, hugePagesSupported),
              RunLeaves(physicalAddress, level, flags, count), table1, index1, ctx.table, ctx.index, r);
    }

    /** paging_unmap: clears the pages of a range; the page size is that of the first page's mapping. */
    method Unmap(context: PagingContext, address: nat, bytes: nat) returns (r: Unmapping, ghost count: nat)
      requires Valid() && |context.table| == 4 && context.table[3] in roots
      requires Unmappable(tables, context.table[3], address, bytes)
      modifies this`tables, this`usedVirtualPages
      ensures Valid()
      ensures UnmapResult(old(tables), tables, roots, context.table[3], address, bytes, count, r)
      ensures usedVirtualPages ==
              UsedAfterUnmap(old(usedVirtualPages), LeafLevel(old(tables), context.table[3], PageOf(address)), bytes, r)
    {
      var table, index := [0, 0, 0, context.table[3]], [0, 0, 0, address / 0x80_0000_0000 % 512];
      AddressDigits(address);
      UpDigits(PageOf(address));
      LocatedRoot(tables, nodes, roots, context.table[3], SlotOf(PageOf(address), 4), table, index);
      r, count := UnmapBelow(table, index, 4, address, bytes, context.table[3]);
    }

    /** One level of its walk: an empty entry or a misaligned leaf refuses, an aligned leaf starts the clearing
        loop, a pointer leads one level down. */
    method UnmapBelow(table: seq<nat>, index: seq<nat>, level: nat, address: nat, bytes: nat, ghost root: nat)
        returns (r: Unmapping, ghost count: nat)
      requires Valid() && root in roots && Walked(tables, root, PageOf(address), level)
      requires At(tables, table, index, level, SlotOf(PageOf(address), level)) && table[3] == root
      requires Unmappable(tables, root, address, bytes)
      modifies this`tables, this`usedVirtualPages
      ensures Valid()
      ensures UnmapResult(old(tables), tables, roots, root, address, bytes, count, r)
      ensures usedVirtualPages == UsedAfterUnmap(old(usedVirtualPages), LeafLevel(old(tables), root, PageOf(address)),
                                                 bytes, r)
      decreases level
    {
      hide Tree;
      r, count := Refused, 0;
      AtSlot(tables, table, index, level, SlotOf(PageOf(address), level));
      WalkEnds(tables, nodes, roots, root, PageOf(address), level);
      var e := tables[table[level - 1]][index[level - 1]];
      if e != ZERO {
        if level == 1 || (level < 4 && e.size) {
          if address % LeafBytes(level, 1) == 0 {
            r, count := ClearPages(table, index, level, address, bytes, root);
          }
        } else {
          WalkStarts(tables, roots, nodes, root, address, level, table, index);
          AddressIndex(address, level - 1);
          r, count := UnmapBelow(table[level - 2 := e.address],
                                 index[level - 2 := address / LeafBytes(level - 1, 1) % 512],
                                 level - 1, address, bytes, root);
        }
      }
    }

    /** A clearing loop and the page count it subtracts at its end. */
    method ClearPages(table: seq<nat>, index: seq<nat>, level: nat, address: nat, bytes: nat, ghost root: nat)
        returns (r: Unmapping, ghost count: nat)
      requires Valid() && root in roots && 1 <= level <= 3
      requires level == LeafLevel(tables, root, PageOf(address)) && !UnmapRefused(tables, root, address)
      requires At(tables, table, index, level, SlotOf(PageOf(address), level)) && table[3] == root
      requires Unmappable(tables, root, address, bytes)
      modifies this`tables, this`usedVirtualPages
      ensures Valid()
      ensures UnmapResult(old(tables), tables, roots, root, address, bytes, count, r)
      ensures usedVirtualPages == UsedAfterUnmap(old(usedVirtualPages), level, bytes, r)
    {
      hide Tree;
      ghost var t0 := tables;
      ghost var tab, idx;
      var pages := PageCount(bytes, level);
      tab, idx, r, count := ClearRun(table, index, level, pages, root, SlotOf(PageOf(address), level));
      ClearingEnds(t0, tables, roots, root, address, bytes, level, count, tab, idx, r);
      if r == Unmapped {
        usedVirtualPages := SubtractPages(usedVirtualPages, LeafPages(level, pages));
      }
    }

    method ClearRun(table: seq<nat>, index: seq<nat>, level: nat, pages: nat, ghost root: nat, ghost s: nat)
        returns (ghost table': seq<nat>, ghost index': seq<nat>, r: Unmapping, ghost count: nat)
      requires Valid() && root in roots && 1 <= level <= 3
      requires At(tables, table, index, level, s) && table[3] == root
      requires forall m | s < m <= s + pages :: NoLeafAbove(tables, root, level, m)
      modifies this`tables
      ensures Valid() && r != Refused
      ensures count <= pages && (r == Unmapped ==> count == pages)
      ensures Clearing(old(tables), tables, roots, root, level, s, count, table', index', r)
    {
      ghost var t0 := tables;
      var tab, idx, i := table, index, 0;
      r, count := Unmapped, 0;
      ClearingStarts(t0, roots, root, level, s, tab, idx);
      while i < pages && r == Unmapped
        invariant 0 <= i <= pages && count == i && r != Refused && Valid()
        invariant Clearing(t0, tables, roots, root, level, s, count, tab, idx, r)
      {
        tab, idx, r := ClearOne(tab, idx, level, root, t0, s, count);
        i, count := i + 1, count + 1;
      }
      table', index' := tab, idx;
    }

    /** One turn of a clearing loop. */
    method ClearOne(table: seq<nat>, index: seq<nat>, level: nat, ghost root: nat, ghost t0: Tables, ghost s: nat,
                    ghost count: nat)
        returns (table': seq<nat>, index': seq<nat>, r: Unmapping)
      requires Valid() && root in roots && 1 <= level <= 3
      requires Clearing(t0, tables, roots, root, level, s, count, table, index, Unmapped)
      requires NoLeafAbove(t0, root, level, s + count + 1)
      modifies this`tables
      ensures Valid()
      ensures Clearing(t0, tables, roots, root, level, s, count + 1, table', index', r)
    {
      hide Tree;
      ghost var t1 := tables;
      ClearingReady(t0, t1, roots, root, level, s, count, table, index);
      ClearSlot(table, index, level, root, s + count);
      table', index', r := Follow(table, index, level, root, s + count);
      ClearedOne(t0, t1, tables, roots, root, level, s, count, table, index, table', index', r);
    }

    method ClearSlot(table: seq<nat>, index: seq<nat>, level: nat, ghost root: nat, ghost n: nat)
      requires Valid() && root in roots && 1 <= level <= 3
      requires At(tables, table, index, level, n) && table[3] == root && NoLeafAbove(tables, root, level, n + 1)
      modifies this`tables
      ensures Valid() && Wrote(old(tables), tables, roots, root, level, n, ZERO)
      ensures At(tables, table, index, level, n) && NoLeafAbove(tables, root, level, n + 1)
    {
      hide Tree;
      ghost var t0 := tables;
      LeafWritten(t0, nodes, roots, root, level, n, table, index, ZERO);
      tables := Write(tables, table[level - 1], index[level - 1], ZERO);
      WroteAt(t0, tables, roots, level, n, ZERO, table, index, level, n);
      WroteNoLeafAbove(t0, tables, roots, root, level, n, ZERO, n + 1);
    }

    /** Moves a walk from slot `n` of `level` to the next without creating tables. */
    method Follow(table: seq<nat>, index: seq<nat>, level: nat, ghost root: nat, ghost n: nat)
        returns (table': seq<nat>, index': seq<nat>, r: Unmapping)
      requires Valid() && root in roots && At(tables, table, index, level, n) && table[3] == root
      requires NoLeafAbove(tables, root, level, n + 1)
      ensures Followed(tables, root, level, n, table', index', r)
      decreases 4 - level
    {
      table', index' := table, index[level - 1 := index[level - 1] + 1];
      r := Unmapped;
      if index'[level - 1] >= 512 {
        Carry(tables, table, index, level, n);
        if level == 4 {
          r := OffEnd;
        } else {
          table', index', r := Follow(table', index', level + 1, root, n / 512);
          if r == Unmapped {
            FollowedAbove(tables, nodes, roots, root, level, n, table', index');
            var child := tables[table'[level]][index'[level]].address;
            table', index' := table'[level - 1 := child], index'[level - 1 := 0];
            r := if child == 0 then NoTable else Unmapped;
          }
        }
      } else {
        FollowedInTable(tables, root, level, n, table, index);
      }
    }

    // ----- New address spaces

    /** A page allocated and cleared to be the level-4 table of a new address space. */
    method NewSpace() returns (root: Option<nat>)
      requires Valid()
      modifies this`tables, this`nodes, this`roots, physical, physical.table
      ensures Valid()
      ensures root == None ==> !physical.HasFree() && tables == old(tables) && roots == old(roots)
      ensures root.Some? ==> root.value !in old(roots) && roots == old(roots) + {root.value} && root.value in tables
                             && Blank(tables, root.value)
                                 && SameSpaces(old(tables), tables, old(roots))
    {
      if !physical.HasFree() {
        return None;
      }
      ghost var marked := physical.marked;
      var f := physical.Allocate();
      FreshPage(f, marked, physical.table.Length, nodes);
      NewSpaceTree(tables, nodes, roots, f);
      assert f !in roots;
      tables, nodes, roots := tables[f := EMPTY], nodes[f := Node(f, 4, 0)], roots + {f};
      root := Some(f);
    }

    // ----- Mapping frames that are free

    /** One turn of the loop of paging_map_index_current: a free frame is taken and mapped. */
    method MapFrame(ctx: PagingContext, flags: Flags, ghost root: nat, ghost t0: Tables, ghost s: nat, ghost w: nat,
                    ghost given: seq<nat>)
        returns (r: Outcome, ghost f: nat)
      requires Valid() && root in roots
      requires Mapping(t0, tables, roots, root, 1, s, w, FrameLeaves(given, flags), ctx.table, ctx.index, Succeeds)
      requires NoLeafAbove(t0, root, 1, s + |given| + 1)
      modifies this`tables, this`nodes, this`frames, ctx, physical, physical.table
      ensures Valid()
      ensures r.Spins? ==> !physical.HasFree()
      ensures (f !in old(frames) && Framed(f) && frames == old(frames) + {f}) || (r.Spins? && frames == old(frames))
      ensures Mapping(t0, tables, roots, root, 1, s, w, FrameLeaves(given + [f], flags), ctx.table, ctx.index, r)
    {
      hide Tree;
      f := 0;
      if !physical.HasFree() {
        r := Spins;
      } else {
        var frame := TakeFrame();
        f := frame;
        FrameEntry(frame, flags);
        FrameLeavesStep(given, frame, flags);
        ghost var leaves;
        r, leaves := MapOne(ctx, 1, LeafEntry(frame, 1, flags), root, t0, s, w, FrameLeaves(given, flags));
        MappingEnds(t0, tables, roots, root, 1, s, w, leaves, ctx.table, ctx.index, r);
      }
    }

    /** A free page becomes a data frame: it is no table and was not handed out before. */
    method TakeFrame() returns (frame: nat)
      requires Valid() && physical.HasFree()
      modifies this`frames, physical, physical.table
      ensures Valid()
      ensures frame !in old(frames) && frame !in nodes && Framed(frame) && frames == old(frames) + {frame}
    {
      frame := physical.Allocate();
      frames := frames + {frame};
    }

    /** The loop of paging_map_index_current for 4 KiB pages. */
    method MapFrames(ctx: PagingContext, pages: nat, flags: Flags, ghost root: nat, ghost s: nat, ghost w: nat)
        returns (r: Outcome, ghost given: seq<nat>)
      requires Valid() && root in roots
      requires Begins(tables, root, 1, s, w, ctx.table, ctx.index)
      requires forall n | s < n <= s + pages :: NoLeafAbove(tables, root, 1, n)
      modifies this`tables, this`nodes, this`frames, ctx, physical, physical.table
      ensures Valid()
      ensures r.Spins? ==> !physical.HasFree()
      ensures |given| <= pages && (r.Succeeds? ==> |given| == pages)
      ensures !r.Spins? ==> Granted(old(frames), frames, given)
      ensures Mapping(old(tables), tables, roots, root, 1, s, w, FrameLeaves(given, flags), ctx.table, ctx.index, r)
    {
      hide Tree;
      ghost var t0 := tables;
      MappingStarts(t0, roots, root, 1, s, w, ctx.table, ctx.index);
      r, given := Succeeds, [];
      var i := 0;
      while i < pages && r.Succeeds?
        invariant 0 <= i <= pages && |given| <= i && (r.Succeeds? ==> |given| == i)
        invariant Valid()
        invariant r.Spins? ==> !physical.HasFree()
        invariant !r.Spins? ==> Granted(old(frames), frames, given)
        invariant Mapping(t0, tables, roots, root, 1, s, w, FrameLeaves(given, flags), ctx.table, ctx.index, r)
      {
        ghost var f, before := 0, frames;
        r, f := MapFrame(ctx, flags, root, t0, s, w, given);
        if !r.Spins? {
          GrantedOne(old(frames), before, given, f);
          given := given + [f];
        }
        i := i + 1;
      }
    }

    /** That loop and the page count it adds at its end. */
    method CountFrames(ctx: PagingContext, pages: nat, flags: Flags, ghost root: nat, ghost s: nat, ghost w: nat)
        returns (r: Outcome, ghost given: seq<nat>)
      requires Valid() && root in roots
      requires Begins(tables, root, 1, s, w, ctx.table, ctx.index)
      requires forall n | s < n <= s + pages :: NoLeafAbove(tables, root, 1, n)
      modifies this`tables, this`nodes, this`frames, this`usedVirtualPages, ctx, physical, physical.table
      ensures Valid() && !r.Refuses?
      ensures r.Spins? ==> !physical.HasFree()
      ensures |given| <= pages && (r.Succeeds? ==> |given| == pages)
      ensures !r.Spins? ==> Granted(old(frames), frames, given)
      ensures Mapping(old(tables), tables, roots, root, 1, s, w, FrameLeaves(given, flags), ctx.table, ctx.index, r)
      ensures !r.Strays? && Counted(old(usedVirtualPages), usedVirtualPages, 1, pages, r)
    {
      hide Tree, Mapping;
      ghost var t0 := tables;
      r, given := MapFrames(ctx, pages, flags, root, s, w);
      MappingEnds(t0, tables, roots, root, 1, s, w, FrameLeaves(given, flags), ctx.table, ctx.index, r);
      if r.Succeeds? {
        usedVirtualPages := AddPages(usedVirtualPages, LeafPages(1, pages));
      }
    }

    /** paging_map_index_current: maps free frames from where the cursor stands. Its huge-page branches are not
        implemented in the source: each of their paths returns 0 before the first write. */
    method MapIndexCurrent(ctx: PagingContext, bytes: nat, flags: Flags,
                           ghost root: nat, ghost level: nat, ghost n: nat, ghost w: nat)
        returns (r: Outcome, ghost given: seq<nat>)
      requires Valid() && root in roots && Chooses(tables, root, level, n, flags)
      requires Begins(tables, root, level, n, w, ctx.table, ctx.index)
      requires level == 1 ==> forall m | n < m <= n + PageCount(bytes, 1) :: NoLeafAbove(tables, root, 1, m)
      modifies this`tables, this`nodes, this`frames, this`usedVirtualPages, ctx, physical, physical.table
      ensures Valid()
      ensures r.Spins? ==> !physical.HasFree()
      ensures r.Refuses? <==> bytes == 0 || level > 1 || Slot(old(tables), root, 1, n) != ZERO
      ensures r.Refuses? ==> tables == old(tables) && frames == old(frames) && given == []
                             && ctx.table == old(ctx.table) && ctx.index == old(ctx.index)
      ensures |given| <= PageCount(bytes, 1) && (r.Succeeds? ==> |given| == PageCount(bytes, 1))
      ensures !r.Spins? ==> Granted(old(frames), frames, given)
      ensures !r.Refuses? ==>
                Mapping(old(tables), tables, roots, root, 1, n, w, FrameLeaves(given, flags), ctx.table, ctx.index, r)
      ensures !r.Strays? && Counted(old(usedVirtualPages), usedVirtualPages, 1, PageCount(bytes, 1), r)
    {
      hide Tree;
      r, given := Refuses, [];
      if bytes != 0 {
        DispatchLevel(tables, nodes, roots, root, level, n, w, flags, ctx.table, ctx.index);
        if tables[ctx.table[2]][ctx.index[2]].size || flags.huge1G {
          r := Refuses;
        } else if tables[ctx.table[1]][ctx.index[1]].size || flags.huge2M {
          r := Refuses;
        } else if tables[ctx.table[0]][ctx.index[0]] == ZERO {
          r, given := CountFrames(ctx, PageCount(bytes, 1), flags, root, n, w);
        }
      }
    }

    // ----- Finding a spot

    /** `while (level<k>_table[level<k>_index]) ...`: moves past the taken slots of a level. Where the source
        wraps around at the end of level 4 the model ends the call. */
    method SkipTaken(ctx: PagingContext, level: nat, ghost root: nat, ghost p0: nat, ghost k: nat)
        returns (r: Outcome)
      requires Valid() && root in roots && 2 <= level <= 4
      requires At(tables, ctx.table, ctx.index, level, p0) && ctx.table[3] == root
      requires Taken(tables, root, level, p0, k) && (level < 4 ==> NoLeafAbove(tables, root, level, k))
      modifies this`tables, this`nodes, ctx, physical, physical.table
      ensures Valid()
      ensures r.Spins? ==> !physical.HasFree()
      ensures r.Succeeds? || r.Spins? || (r.Overruns? && k >= Slots(level))
      ensures r.Succeeds? ==> k < Slots(level) && Opened(old(tables), tables, roots, root, level, k, ctx.table,
                                                         ctx.index)
    {
      hide Tree;
      ghost var t0, p := tables, p0;
      SkipStarts(tables, roots, root, level, p0, k, ctx.table, ctx.index);
      SkipReads(t0, tables, roots, root, level, p0, p, k, ctx.table, ctx.index);
      r := Succeeds;
      while r.Succeeds? && tables[ctx.table[level - 1]][ctx.index[level - 1]] != ZERO
        invariant Valid()
        invariant r.Succeeds? || (r.Spins? && !physical.HasFree()) || (r.Overruns? && k >= Slots(level))
        invariant r.Succeeds? ==>
                    && Skipping(t0, tables, roots, root, level, p0, p, k, ctx.table, ctx.index)
                    && ctx.index[level - 1] < 512 && ctx.table[level - 1] in tables
                    && (tables[ctx.table[level - 1]][ctx.index[level - 1]] == ZERO <==> p == k)
        decreases r.Succeeds?, k - p
      {
        r := SkipOne(ctx, level, root, t0, p0, p, k);
        p := p + 1;
      }
      if r.Succeeds? {
        AtBound(tables, ctx.table, ctx.index, level, p);
        SkipReads(t0, tables, roots, root, level, p0, p, k, ctx.table, ctx.index);
      }
    }

    method SkipOne(ctx: PagingContext, level: nat, ghost root: nat, ghost t0: Tables, ghost p0: nat, ghost p: nat,
                   ghost k: nat)
        returns (r: Outcome)
      requires Valid() && root in roots && 2 <= level <= 4 && p != k
      requires Taken(t0, root, level, p0, k) && (level < 4 ==> NoLeafAbove(t0, root, level, k))
      requires Skipping(t0, tables, roots, root, level, p0, p, k, ctx.table, ctx.index)
      modifies this`tables, this`nodes, ctx, physical, physical.table
      ensures Valid() && p < k
      ensures r.Succeeds? || (r.Spins? && !physical.HasFree()) || (r.Overruns? && k >= Slots(level))
      ensures r.Succeeds? ==>
                && Skipping(t0, tables, roots, root, level, p0, p + 1, k, ctx.table, ctx.index)
                && ctx.index[level - 1] < 512 && ctx.table[level - 1] in tables
                && (tables[ctx.table[level - 1]][ctx.index[level - 1]] == ZERO <==> p + 1 == k)
    {
      hide Tree;
      ghost var t1, table1, index1 := tables, ctx.table, ctx.index;
      SkipNext(t0, t1, roots, root, level, p0, p, k, table1, index1);
      r := Advance(ctx, level, true, root, p);
      if r.Succeeds? {
        Skipped(t0, t1, tables, roots, root, level, p0, p, k, table1, index1, ctx.table, ctx.index);
        SkipReads(t0, tables, roots, root, level, p0, p + 1, k, ctx.table, ctx.index);
      }
    }

    /** Hangs new tables from a slot of `level` down to level 1 and sets the indices below to 0. */
    method OpenTables(ctx: PagingContext, level: nat, ghost root: nat, ghost t0: Tables,
                      ghost k: nat) returns (r: Outcome)
      requires Valid() && root in roots && 1 <= level <= 4
      requires Opened(t0, tables, roots, root, level, k, ctx.table, ctx.index)
      modifies this`tables, this`nodes, ctx, physical, physical.table
      ensures Valid()
      ensures r.Succeeds? || (r.Spins? && !physical.HasFree())
      ensures r.Succeeds? ==> Opened(t0, tables, roots, root, 1, First(level, k), ctx.table, ctx.index)
      decreases level
    {
      hide Tree, Slot;
      if level == 1 {
        r := Succeeds;
      } else {
        ghost var t1, table1, index1 := tables, ctx.table, ctx.index;
        var f := HangTable(ctx.table[level - 1], ctx.index[level - 1], root, level, k);
        if f == None {
          r := Spins;
        } else {
          ctx.table, ctx.index := ctx.table[level - 2 := f.value], ctx.index[level - 2 := 0];
          OpenedBelow(t0, t1, tables, roots, root, level, k, f.value, table1, index1);
          r := OpenTables(ctx, level - 1, root, t0, k * 512);
        }
      }
    }

    /** One branch of paging_index_find_spot: the next empty slot of a level gets new tables below it. */
    method OpenNext(ctx: PagingContext, level: nat, ghost root: nat, ghost n: nat, ghost p0: nat,
                    ghost k: nat) returns (r: Outcome)
      requires Valid() && root in roots && 2 <= level <= 4
      requires At(tables, ctx.table, ctx.index, level, p0) && ctx.table[3] == root
      requires Taken(tables, root, level, p0, k) && NoLeafAbove(tables, root, level, k)
      requires ClearFrom(tables, root, n) && n <= First(level, k)
      modifies this`tables, this`nodes, ctx, physical, physical.table
      ensures Valid()
      ensures r.Succeeds? || (r.Spins? && !physical.HasFree()) || (r.Overruns? && First(level, k) >= Slots(1))
      ensures r.Succeeds? ==> First(level, k) < Slots(1)
                              && Spotted(old(tables), tables, roots, root, First(level, k), ctx.table, ctx.index)
    {
      ghost var t0 := tables;
      Placement.SpotBound(level, k);
      r := SkipTaken(ctx, level, root, p0, k);
      if r.Succeeds? {
        r := OpenTables(ctx, level, root, t0, k);
        if r.Succeeds? {
          SpotClear(t0, tables, roots, root, n, First(level, k), ctx.table, ctx.index);
        }
      }
    }

    /** The move of such a branch, for a cursor in use or, at level 4, a fresh one. */
    method MoveOn(ctx: PagingContext, level: nat, ghost root: nat, ghost n: nat) returns (r: Outcome)
      requires Valid() && root in roots && 2 <= level <= 4
      requires Ready(tables, root, ctx.table, ctx.index, n)
      requires level < 4 ==> At(tables, ctx.table, ctx.index, 1, n)
      modifies this`tables, this`nodes, ctx, physical, physical.table
      ensures Valid()
      ensures var s := if At(old(tables), old(ctx.table), old(ctx.index), 1, n) then First(level, Up(n, level - 1) + 1)
                       else n;
              || (r.Spins? && !physical.HasFree())
              || (r.Overruns? && s >= Slots(1))
              || (r.Succeeds? && n <= s < Slots(1) && Spotted(old(tables), tables, roots, root, s, ctx.table,
                                                              ctx.index))
    {
      hide Tree;
      ghost var p0, k;
      if At(tables, ctx.table, ctx.index, 1, n) {
        LeavesSlot(tables, nodes, roots, root, n, level, ctx.table, ctx.index);
        p0, k := Up(n, level - 1), Up(n, level - 1) + 1;
      } else {
        p0, k := ctx.index[3], Up(n, 3);
      }
      r := OpenNext(ctx, level, root, n, p0, k);
    }

    /** Its tests: at which level the request is counted, and whether it no longer fits there. */
    method MustMove(ctx: PagingContext, bytes: nat, ghost root: nat, ghost n: nat) returns (level: nat, moves: bool)
      requires Valid() && root in roots && Ready(tables, root, ctx.table, ctx.index, n)
      ensures if At(tables, ctx.table, ctx.index, 1, n) then level == SpotLevel(bytes) && moves == Full(n, bytes)
              && n < Slots(1)
              else level == 4 && moves
    {
      InUse(tables, nodes, roots, root, n, ctx.table, ctx.index);
      level, moves := 4, ctx.index[2] + PageCount(bytes, 3) > 512 || ctx.table[2] == 0;
      if bytes <= 0x20_0000 && ctx.table[1] != 0 {
        level, moves := 2, ctx.index[0] + PageCount(bytes, 1) > 512 || ctx.table[0] == 0;
      } else if bytes <= 0x4000_0000 && ctx.table[2] != 0 {
        level, moves := 3, ctx.index[1] + PageCount(bytes, 2) > 512 || ctx.table[1] == 0;
      }
    }

    /** paging_index_find_spot for 4 KiB pages and at most 512 GiB. */
    method FindSpot(ctx: PagingContext, bytes: nat, ghost root: nat, ghost n: nat) returns (r: Outcome)
      requires Valid() && root in roots && bytes <= 0x80_0000_0000
      requires Ready(tables, root, ctx.table, ctx.index, n)
      modifies this`tables, this`nodes, ctx, physical, physical.table
      ensures Valid()
      ensures r.Refuses? <==> bytes == 0
      ensures r.Refuses? ==> tables == old(tables) && ctx.table == old(ctx.table) && ctx.index == old(ctx.index)
      ensures var s := NextSpot(old(tables), old(ctx.table), old(ctx.index), n, bytes);
              || r.Refuses? || (r.Spins? && !physical.HasFree())
              || (r.Overruns? && s >= Slots(1))
              || (r.Succeeds? && n <= s < Slots(1) && Spotted(old(tables), tables, roots, root, s, ctx.table,
                                                              ctx.index))
    {
      hide Tree;
      r := Refuses;
      if bytes > 0 {
        var level, moves := MustMove(ctx, bytes, root, n);
        if moves {
          r := MoveOn(ctx, level, root, n);
        } else {
          StaysPut(tables, roots, root, n, ctx.table, ctx.index);
          r := Succeeds;
        }
      }
    }

    /** paging_map: maps free frames where the cursor finds room. */
    method Map(context: PagingContext, bytes: nat, flags: Flags, ghost n: nat)
        returns (r: Outcome, mapped: nat, ghost given: seq<nat>)
      requires Valid() && !flags.huge1G && !flags.huge2M && bytes <= 0x80_0000_0000
      requires |context.table| == 4 && context.table[3] in roots
      requires Ready(tables, context.table[3], context.table, context.index, n)
      modifies this`tables, this`nodes, this`frames, this`usedVirtualPages, context, physical, physical.table
      ensures Valid()
      ensures r.Spins? ==> !physical.HasFree()
      ensures r.Refuses? <==> bytes == 0
      ensures r.Refuses? ==>
                && tables == old(tables) && context.table == old(context.table)
                && context.index == old(context.index)
      ensures var s := NextSpot(old(tables), old(context.table), old(context.index), n, bytes);
              && (r.Succeeds? ==> n <= s)
              && (!r.Refuses? ==> MappedAtSpot(old(tables), tables, roots, old(context.table[3]), s,
                                               PageCount(bytes, 1),
                                               FrameLeaves(given, flags), context.table, context.index, r))
              && (WrapsAround(s, r)
                  || (mapped == (if r.Succeeds? then s * PAGE else 0)
                      && (!r.Spins? ==> Granted(old(frames), frames, given))
                      && Counted(old(usedVirtualPages), usedVirtualPages, 1, PageCount(bytes, 1), r)))
      ensures r.Succeeds? && bytes <= 0x20_0000 ==>
                mapped == PAGE *
                (if !At(old(tables), old(context.table), old(context.index), 1, n)
                    || n / 512 == (n + (bytes + 0xFFF) / 0x1000 - 1) / 512
                 then n else (n / 512 + 1) * 512)
    {
      hide Tree, Ready;
      ghost var root, s := context.table[3], NextSpot(tables, context.table, context.index, n, bytes);
      mapped, given := 0, [];
      r := FindSpot(context, bytes, root, n);
      if r.Succeeds? {
        SpotIs(n, bytes);
        r, mapped, given := MapFramesHere(context, bytes, flags, root, old(tables), s);
      } else if r.Overruns? {
        mapped, usedVirtualPages := *, *;
      }
    }

    /** Its second half: the cursor stands on the spot. */
    method MapFramesHere(context: PagingContext, bytes: nat, flags: Flags, ghost root: nat, ghost t0: Tables,
                         ghost s: nat)
        returns (r: Outcome, mapped: nat, ghost given: seq<nat>)
      requires Valid() && !flags.huge1G && !flags.huge2M && bytes > 0 && root in roots
      requires Spotted(t0, tables, roots, root, s, context.table, context.index)
      modifies this`tables, this`nodes, this`frames, this`usedVirtualPages, context, physical, physical.table
      ensures Valid()
      ensures r.Spins? ==> !physical.HasFree()
      ensures mapped == if r.Succeeds? then s * PAGE else 0
      ensures MappedAtSpot(t0, tables, roots, root, s, PageCount(bytes, 1), FrameLeaves(given, flags), context.table,
                           context.index, r)
      ensures !r.Spins? ==> Granted(old(frames), frames, given)
      ensures Counted(old(usedVirtualPages), usedVirtualPages, 1, PageCount(bytes, 1), r)
    {
      hide Tree;
      ghost var t1, table1, index1 := tables, context.table, context.index;
      SpotRoom(tables, nodes, roots, root, s, PageCount(bytes, 1), context.table, context.index);
      CursorAddressIs(tables, nodes, roots, root, s, context.table, context.index);
      mapped := CursorAddress(context.index);
      r, given := MapIndexCurrent(context, bytes, flags, root, 1, s, s);
      if !r.Refuses? {
        MappingEnds(t1, tables, roots, root, 1, s, s, FrameLeaves(given, flags), context.table, context.index, r);
      }
      SpotMapped(t0, t1, tables, roots, root, s, PageCount(bytes, 1), FrameLeaves(given, flags), table1, index1,
                 context.table, context.index, r);
      if !r.Succeeds? {
        mapped := 0;
      }
    }

    /** paging_map_physical: maps given physical memory where the cursor finds room. */
    method MapPhysical(context: PagingContext, physicalAddress: nat, bytes: nat, flags: Flags, ghost n: nat)
        returns (r: Outcome, mapped: nat, ghost count: nat)
      requires Valid() && !flags.huge1G && !flags.huge2M && bytes <= 0x80_0000_0000
      requires |context.table| == 4 && context.table[3] in roots
      requires Ready(tables, context.table[3], context.table, context.index, n)
      modifies this`tables, this`nodes, this`usedVirtualPages, context, physical, physical.table
      ensures Valid()
      ensures r.Spins? ==> !physical.HasFree()
      ensures var s := NextSpot(old(tables), old(context.table), old(context.index), n, bytes);
              && (r.Succeeds? ==> n <= s)
              && (!r.Refuses? ==> MappedAtSpot(old(tables), tables, roots, old(context.table[3]), s,
                                               PageCount(bytes, 1),
                                               RunLeaves(physicalAddress, 1, flags, count),
                                               context.table, context.index, r))
              && (r.Refuses? <==> bytes == 0 || (physicalAddress % PAGE != 0 && s < Slots(1) && !r.Spins?))
              && (r.Succeeds? ==> physicalAddress % PAGE == 0)
              && (r.Refuses? && bytes > 0 ==> Spotted(old(tables), tables, roots, old(context.table[3]), s,
                                                      context.table, context.index))
              && (WrapsAround(s, r)
                  || (mapped == (if r.Succeeds? then s * PAGE else 0)
                      && Counted(old(usedVirtualPages), usedVirtualPages, 1, count, r)))
      ensures bytes == 0 ==>
                tables == old(tables) && context.table == old(context.table) && context.index == old(context.index)
      ensures r.Succeeds? && bytes <= 0x20_0000 ==>
                mapped == PAGE *
                (if !At(old(tables), old(context.table), old(context.index), 1, n)
                    || n / 512 == (n + (bytes + 0xFFF) / 0x1000 - 1) / 512
                 then n else (n / 512 + 1) * 512)
    {
      hide Tree;
      ghost var root, s := context.table[3], NextSpot(tables, context.table, context.index, n, bytes);
      mapped, count := 0, 0;
      r := FindSpot(context, bytes, root, n);
      if r.Succeeds? {
        SpotIs(n, bytes);
        r, mapped, count := MapRunHere(context, physicalAddress, bytes, flags, root, old(tables), s);
      } else if r.Overruns? {
        mapped, usedVirtualPages := *, *;
      }
    }

    method MapRunHere(context: PagingContext, physicalAddress: nat, bytes: nat, flags: Flags,
                      ghost root: nat, ghost t0: Tables, ghost s: nat)
        returns (r: Outcome, mapped: nat, ghost count: nat)
      requires Valid() && !flags.huge1G && !flags.huge2M && bytes > 0 && root in roots
      requires Spotted(t0, tables, roots, root, s, context.table, context.index)
      modifies this`tables, this`nodes, this`usedVirtualPages, context, physical, physical.table
      ensures Valid()
      ensures r.Spins? ==> !physical.HasFree()
      ensures mapped == if r.Succeeds? then s * PAGE else 0
      ensures r.Refuses? <==> physicalAddress % PAGE != 0
      ensures r.Refuses? ==> Spotted(t0, tables, roots, root, s, context.table, context.index)
      ensures !r.Refuses? ==> MappedAtSpot(t0, tables, roots, root, s, PageCount(bytes, 1),
                                           RunLeaves(physicalAddress, 1, flags, count), context.table, context.index, r)
      ensures Counted(old(usedVirtualPages), usedVirtualPages, 1, count, r)
    {
      hide Tree;
      ghost var t1, table1, index1 := tables, context.table, context.index;
      SpotRoom(tables, nodes, roots, root, s, PageCount(bytes, 1), context.table, context.index);
      CursorAddressIs(tables, nodes, roots, root, s, context.table, context.index);
      mapped := CursorAddress(context.index);
      r, count := MapIndexPhysical(context, physicalAddress, bytes, flags, root, 1, s, s);
      if !r.Refuses? {
        MappingEnds(t1, tables, roots, root, 1, s, s, RunLeaves(physicalAddress, 1, flags, count), context.table,
                    context.index, r);
        SpotMapped(t0, t1, tables, roots, root, s, PageCount(bytes, 1), RunLeaves(physicalAddress, 1, flags, count),
                   table1, index1,
                   context.table, context.index, r);
      }
      if !r.Succeeds? {
        mapped := 0;
      }
    }

    /** paging_map_at: maps free frames at a given virtual address of the context's tree. */
    method MapAt(context: PagingContext, address: nat, bytes: nat, flags: Flags)
        returns (r: Outcome, mapped: nat, ghost given: seq<nat>)
      requires Valid() && |context.table| == 4 && context.table[3] in roots
      requires Mappable(tables, context.table[3], address, bytes, flags)
      modifies this`tables, this`nodes, this`frames, this`usedVirtualPages, physical, physical.table
      ensures Valid()
      ensures mapped == if r.Succeeds? then address else 0
      ensures r.Spins? ==> !physical.HasFree()
      ensures !r.Spins? ==> Granted(old(frames), frames, given)
      ensures LeavesMapped(old(tables), tables, roots, context.table[3], address, bytes, flags,
                           FramesRefused(old(tables), context.table[3], address, bytes, flags),
                           FrameLeaves(given, flags), r)
      ensures Counted(old(usedVirtualPages), usedVirtualPages, 1, PageCount(bytes, 1), r)
    {
      hide Tree, Indexed;
      ghost var root, t0 := context.table[3], tables;
      var ctx := new PagingContext(context.table[3]);
      given := [];
      r := VirtualAddressToIndex(ctx, address, flags, root);
      if r.Succeeds? {
        r, given := MapFramesLocated(ctx, address, bytes, flags, root, t0);
      } else {
        MapNotStarted(t0, tables, roots, root, address, bytes, flags, FramesRefused(t0, root, address, bytes, flags),
                      [], ctx.table, ctx.index, r);
      }
      mapped := if r.Succeeds? then address else 0;
    }

    /** Its second half: the cursor stands at the address. */
    method MapFramesLocated(ctx: PagingContext, address: nat, bytes: nat, flags: Flags, ghost root: nat,
                            ghost t0: Tables)
        returns (r: Outcome, ghost given: seq<nat>)
      requires Valid() && root in roots && Mappable(t0, root, address, bytes, flags)
      requires Indexed(t0, tables, roots, root, address, flags, ctx.table, ctx.index, Succeeds)
      modifies this`tables, this`nodes, this`frames, this`usedVirtualPages, ctx, physical, physical.table
      ensures Valid()
      ensures r.Spins? ==> !physical.HasFree()
      ensures !r.Spins? ==> Granted(old(frames), frames, given)
      ensures LeavesMapped(t0, tables, roots, root, address, bytes, flags,
                           FramesRefused(t0, root, address, bytes, flags),
                           FrameLeaves(given, flags), r)
      ensures Counted(old(usedVirtualPages), usedVirtualPages, 1, PageCount(bytes, 1), r)
    {
      hide Tree;
      ghost var page, t1, table1, index1 := PageOf(address), tables, ctx.table, ctx.index;
      ghost var level := TargetLevel(t0, root, page, flags);
      IndexedReady(t0, t1, roots, root, address, bytes, flags, table1, index1);
      r, given := MapIndexCurrent(ctx, bytes, flags, root, level, SlotOf(page, level),
                                  StartSlot(t0, root, page, flags));
      if !r.Spins? {
        GrantedLeaves(old(frames), frames, given, flags);
      }
      MapDone(t0, t1, tables, roots, root, address, bytes, flags, FramesRefused(t0, root, address, bytes, flags),
              FrameLeaves(given, flags), table1, index1, ctx.table, ctx.index, r);
    }
  }
}
