/** The four-level page-table format and the tree of 512-entry tables it describes
    (src/include/kokos/paging.h; AMD64 Architecture Programmer's Manual, Volume 2, section 5.3).

    Memory is a map from the byte address of a table to its 512 decoded entries. `Slot` reads that
    memory as one array per level: slot `n` of level `k` is the entry reached by the index path whose
    digits in base 512 spell `n`, and it reads as ZERO when some table on the path is missing. */
module PageTables {
  import opened Wrappers

  const PAGE: nat := 4096

  /** A decoded table entry: the address bits and the four flag bits this kernel writes. */
  datatype Entry = Entry(address: nat, present: bool, writable: bool, everyone: bool, size: bool)

  const ZERO: Entry := Entry(0, false, false, false, false)

  type Table = s: seq<Entry> | |s| == 512 witness Zeros(512)

  function Zeros(count: nat): (s: seq<Entry>)
    ensures |s| == count && forall i | 0 <= i < count :: s[i] == ZERO
  {
    if count == 0 then [] else Zeros(count - 1) + [ZERO]
  }

  const EMPTY: Table := Zeros(512)

  type Tables = map<nat, Table>

  // ----- The 64-bit word behind an entry

  function FlagBits(e: Entry): nat {
    (if e.present then 1 else 0) + (if e.writable then 2 else 0) + (if e.everyone then 4 else 0) +
    (if e.size then 128 else 0)
  }

  function Word(e: Entry): nat {
    e.address + FlagBits(e)
  }

  /** `word & 0x7FFFFFFFFFFFF000`: bits 12 to 62. */
  function AddressBits(word: nat): nat {
    word / PAGE % 0x8_0000_0000_0000 * PAGE
  }

  /** `word & 0xFFFFFFFFFF000`: bits 12 to 51. */
  function PhysicalBits(word: nat): nat {
    word / PAGE % 0x100_0000_0000 * PAGE
  }

  predicate SizeBit(word: nat) {
    word / 128 % 2 == 1
  }

  predicate Canonical(e: Entry) {
    e.address % PAGE == 0 && e.address < 0x8000_0000_0000_0000
  }

  lemma Quotient(a: nat, d: nat, h: nat, r: nat)
    requires r < d && a == h * d + r
    ensures a / d == h && a % d == r
  {
    var k, m := a / d, a % d;
    assert a == d * k + m;
    assert (k - h) * d == r - m by {
      assert (k - h) * d == k * d - h * d;
    }
    if k > h {
      Multiple(k - h, d);
    } else if k < h {
      Multiple(h - k, d);
    }
  }

  lemma Multiple(x: nat, d: nat)
    requires x >= 1
    ensures x * d >= d
  {
    assert x * d == (x - 1) * d + d;
  }

  lemma PageAndFlags(q: nat, b: nat)
    requires b < 256
    ensures (q * PAGE + b) / PAGE == q && (q * PAGE + b) % PAGE == b
    ensures (q * PAGE + b) / 128 == 32 * q + b / 128
    ensures (q * PAGE + b) % 2 == b % 2
  {
    Quotient(q * PAGE + b, PAGE, q, b);
    Quotient(q * PAGE + b, 128, 32 * q + b / 128, b % 128);
    Quotient(q * PAGE + b, 2, 2048 * q + b / 2, b % 2);
  }

  lemma FlagFacts(e: Entry)
    ensures FlagBits(e) < 256
    ensures (FlagBits(e) % 2 == 1) == e.present
    ensures FlagBits(e) / 128 == (if e.size then 1 else 0)
    ensures FlagBits(e) == 0 <==> !e.present && !e.writable && !e.everyone && !e.size
  {}

  /** The decoded entry says exactly what the C tests on the stored 64-bit word say. */
  lemma EntryCodec(e: Entry)
    requires Canonical(e)
    ensures Word(e) < 0x1_0000_0000_0000_0000
    ensures Word(e) == 0 <==> e == ZERO
    ensures AddressBits(Word(e)) == e.address
    ensures PhysicalBits(Word(e)) == PhysicalBits(e.address)
    ensures SizeBit(Word(e)) == e.size
    ensures (Word(e) % 2 == 1) == e.present
    ensures (Word(e) % PAGE == 0) == (FlagBits(e) == 0)
  {
    WordParts(e);
    FlagFacts(e);
  }

  /** The parts of a stored word. */
  lemma WordParts(e: Entry)
    requires Canonical(e)
    ensures Word(e) / PAGE == e.address / PAGE < 0x8_0000_0000_0000 && Word(e) % PAGE == FlagBits(e)
    ensures e.address == e.address / PAGE * PAGE
    ensures Word(e) / 128 % 2 == FlagBits(e) / 128 && Word(e) % 2 == FlagBits(e) % 2
  {
    var q, b := e.address / PAGE, FlagBits(e);
    FlagFacts(e);
    assert Word(e) == q * PAGE + b;
    PageAndFlags(q, b);
    Quotient(32 * q + b / 128, 2, 16 * q, b / 128);
  }

  // ----- Slots

  /** An entry that leads to a table one level down. */
  predicate IsPointer(e: Entry) {
    e != ZERO && !e.size
  }

  ghost function Slot(t: Tables, root: nat, level: nat, n: nat): Entry
    requires 1 <= level <= 4
    decreases 4 - level
  {
    if level == 4 then
      if root in t && n < 512 then t[root][n] else ZERO
    else
      var e := Slot(t, root, level + 1, n / 512);
      if IsPointer(e) && e.address in t then t[e.address][n % 512] else ZERO
  }

  /** The slot `distance` levels above slot `n`. */
  ghost function Up(n: nat, distance: nat): nat {
    if distance == 0 then n else Up(n / 512, distance - 1)
  }

  ghost predicate Under(level: nat, n: nat, topLevel: nat, top: nat) {
    level <= topLevel && Up(n, topLevel - level) == top
  }

  // ----- The tables form trees

  /** Where a table hangs: it is reached from `root` by the one path that spells `prefix`. */
  datatype Node = Node(root: nat, level: nat, prefix: nat)

  ghost predicate Home(f: nat, node: Node) {
    && f % PAGE == 0 && 0 < f < 0x10_0000_0000_0000
    && 1 <= node.level <= 4
    && (node.level == 4 ==> node == Node(f, 4, 0))
  }

  ghost predicate Linked(nodes: map<nat, Node>, node: Node, i: nat, e: Entry) {
    && Canonical(e)
    && (e.size ==> 2 <= node.level <= 3)
    && (e != ZERO ==> e.present)
    && (node.level > 1 && IsPointer(e) ==>
          e == PointerTo(e.address) && e.address in nodes
          && nodes[e.address] == Node(node.root, node.level - 1, node.prefix * 512 + i))
  }

  ghost predicate AllLinked(nodes: map<nat, Node>, node: Node, table: Table) {
    forall i: nat | i < 512 :: Linked(nodes, node, i, table[i])
  }

  /** Every table has one place in one tree, and every pointer in it leads to the table whose place is
      the slot the pointer sits in: no table is reached by two paths. */
  ghost predicate Tree(t: Tables, nodes: map<nat, Node>, roots: set<nat>) {
    && t.Keys == nodes.Keys
    && (forall r | r in roots :: r in nodes && nodes[r] == Node(r, 4, 0))
    && (forall f | f in t :: Home(f, nodes[f]))
    && (forall f | f in t :: AllLinked(nodes, nodes[f], t[f]))
  }

  /** `f` is the table whose entries are slots p*512 .. p*512+511 of `level`. */
  ghost predicate TableAt(t: Tables, root: nat, level: nat, f: nat, p: nat)
    requires 1 <= level <= 4
  {
    if level == 4 then
      f == root && p == 0 && f in t
    else
      IsPointer(Slot(t, root, level + 1, p)) && Slot(t, root, level + 1, p).address == f && f in t
  }

  lemma SlotIn(t: Tables, root: nat, level: nat, f: nat, p: nat, i: nat)
    requires 1 <= level <= 4 && i < 512
    requires TableAt(t, root, level, f, p)
    ensures Slot(t, root, level, p * 512 + i) == t[f][i]
  {
    assert (p * 512 + i) / 512 == p && (p * 512 + i) % 512 == i;
  }

  /** A slot that is not ZERO lies in the table whose place says so. */
  lemma {:induction false} SlotHome(t: Tables, nodes: map<nat, Node>, roots: set<nat>, root: nat, level: nat, n: nat)
    requires 1 <= level <= 4
    requires Tree(t, nodes, roots) && root in roots
    ensures Linked(nodes, Node(root, level, n / 512), n % 512, Slot(t, root, level, n))
    decreases 4 - level
  {
    if level < 4 {
      SlotHome(t, nodes, roots, root, level + 1, n / 512);
      var e := Slot(t, root, level + 1, n / 512);
      if IsPointer(e) {
        assert n / 512 / 512 * 512 + n / 512 % 512 == n / 512;
        assert Linked(nodes, nodes[e.address], n % 512, t[e.address][n % 512]);
      }
    } else if n < 512 {
      assert Linked(nodes, nodes[root], n, t[root][n]);
    }
  }

  lemma TableHome(t: Tables, nodes: map<nat, Node>, roots: set<nat>, root: nat, level: nat, f: nat, p: nat)
    requires 1 <= level <= 4
    requires Tree(t, nodes, roots) && root in roots && TableAt(t, root, level, f, p)
    ensures f in nodes && nodes[f] == Node(root, level, p)
  {
    if level < 4 {
      SlotHome(t, nodes, roots, root, level + 1, p);
      assert p / 512 * 512 + p % 512 == p;
    }
  }

  /** One path per table: two places of the same table are the same place. */
  lemma OnePath(t: Tables, nodes: map<nat, Node>, roots: set<nat>, f: nat, r: nat, k: nat, p: nat, r': nat, k': nat,
                p': nat)
    requires Tree(t, nodes, roots) && r in roots && r' in roots
    requires 1 <= k <= 4 && 1 <= k' <= 4
    requires TableAt(t, r, k, f, p) && TableAt(t, r', k', f, p')
    ensures r == r' && k == k' && p == p'
  {
    TableHome(t, nodes, roots, r, k, f, p);
    TableHome(t, nodes, roots, r', k', f, p');
  }

  // ----- Writing one entry

  function Write(t: Tables, f: nat, i: nat, e: Entry): Tables
    requires f in t && i < 512
  {
    t[f := t[f][i := e]]
  }

  /** A write touches only the slot it hits and the slots under it. */
  lemma {:induction false} WriteElsewhere(t: Tables, nodes: map<nat, Node>, roots: set<nat>, f: nat, i: nat, e: Entry,
                                          root: nat, level: nat, n: nat)
    requires Tree(t, nodes, roots) && root in roots
    requires f in t && i < 512 && 1 <= level <= 4
    requires !(nodes[f].root == root && Under(level, n, nodes[f].level, nodes[f].prefix * 512 + i))
    ensures Slot(Write(t, f, i, e), root, level, n) == Slot(t, root, level, n)
    decreases 4 - level
  {
    hide AllLinked;
    if level < 4 {
      WriteElsewhere(t, nodes, roots, f, i, e, root, level + 1, n / 512);
      var up := Slot(t, root, level + 1, n / 512);
      if IsPointer(up) && up.address == f {
        TableHome(t, nodes, roots, root, level, f, n / 512);
        assert n != n / 512 * 512 + i;
      }
    }
  }

  /** Under a slot that is no pointer there is nothing. */
  lemma {:induction false} NothingUnder(t: Tables, root: nat, level: nat, n: nat, top: nat)
    requires 1 <= level < top <= 4
    requires !IsPointer(Slot(t, root, top, Up(n, top - level)))
    ensures Slot(t, root, level, n) == ZERO
    decreases top - level
  {
    if level + 1 < top {
      NothingUnder(t, root, level + 1, n / 512, top);
    }
  }

  lemma WriteKeepsTree(t: Tables, nodes: map<nat, Node>, roots: set<nat>, f: nat, i: nat, e: Entry)
    requires Tree(t, nodes, roots) && f in t && i < 512
    requires Linked(nodes, nodes[f], i, e)
    ensures Tree(Write(t, f, i, e), nodes, roots)
  {}

  /** What slot `m` of level `j` reads after slot `n` of `level` became `e` and all under it vanished. */
  ghost function Patched(t: Tables, root: nat, level: nat, n: nat, e: Entry, r: nat, j: nat, m: nat): Entry
    requires 1 <= j <= 4
  {
    if r == root && Under(j, m, level, n) then if j == level then e else ZERO
    else Slot(t, r, j, m)
  }

  /** From `t` to `t'` slot `n` became `e`, all slots under it became ZERO, nothing else changed. */
  ghost predicate Wrote(t: Tables, t': Tables, roots: set<nat>, root: nat, level: nat, n: nat, e: Entry) {
    forall r: nat, j: nat, m: nat | r in roots && 1 <= j <= 4 ::
      Slot(t', r, j, m) == Patched(t, root, level, n, e, r, j, m)
  }

  lemma WriteHits(t: Tables, nodes: map<nat, Node>, roots: set<nat>, root: nat, level: nat, f: nat, n: nat, e: Entry)
    requires Tree(t, nodes, roots) && root in roots
    requires 1 <= level <= 4 && TableAt(t, root, level, f, n / 512)
    ensures f in nodes && nodes[f] == Node(root, level, n / 512) && nodes[f].prefix * 512 + n % 512 == n
    ensures TableAt(Write(t, f, n % 512, e), root, level, f, n / 512)
    ensures Slot(Write(t, f, n % 512, e), root, level, n) == e
  {
    TableHome(t, nodes, roots, root, level, f, n / 512);
    if level < 4 {
      WriteElsewhere(t, nodes, roots, f, n % 512, e, root, level + 1, n / 512);
    }
  }

  /** Writing a leaf or ZERO at slot `n`. */
  lemma WriteLeaf(t: Tables, nodes: map<nat, Node>, roots: set<nat>, root: nat, level: nat, f: nat, n: nat, e: Entry)
    requires Tree(t, nodes, roots) && root in roots
    requires 1 <= level <= 4 && TableAt(t, root, level, f, n / 512) && (level > 1 ==> !IsPointer(e))
    ensures Wrote(t, Write(t, f, n % 512, e), roots, root, level, n, e)
  {
    var t' := Write(t, f, n % 512, e);
    WriteHits(t, nodes, roots, root, level, f, n, e);
    forall r: nat, j: nat, m: nat | r in roots && 1 <= j <= 4
      ensures Slot(t', r, j, m) == Patched(t, root, level, n, e, r, j, m)
    {
      if !(r == root && Under(j, m, level, n)) {
        WriteElsewhere(t, nodes, roots, f, n % 512, e, r, j, m);
      } else if j < level {
        NothingUnder(t', root, j, m, level);
      }
    }
  }

  // ----- Hanging a fresh, zeroed table under an empty slot

  function PointerTo(child: nat): Entry {
    Entry(child, true, true, false, false)
  }

  function Link(t: Tables, f: nat, i: nat, child: nat): Tables
    requires f in t && i < 512
  {
    Write(t[child := EMPTY], f, i, PointerTo(child))
  }

  lemma {:induction false} FreshTableUnseen(t: Tables, nodes: map<nat, Node>, roots: set<nat>, child: nat, r: nat,
                                            j: nat, m: nat)
    requires Tree(t, nodes, roots) && r in roots && child !in t && 1 <= j <= 4
    ensures Slot(t[child := EMPTY], r, j, m) == Slot(t, r, j, m)
    decreases 4 - j
  {
    if j < 4 {
      FreshTableUnseen(t, nodes, roots, child, r, j + 1, m / 512);
      SlotHome(t, nodes, roots, r, j + 1, m / 512);
    }
  }

  lemma FreshTableTree(t: Tables, nodes: map<nat, Node>, roots: set<nat>, child: nat, home: Node)
    requires Tree(t, nodes, roots) && child !in t && Home(child, home)
    ensures Tree(t[child := EMPTY], nodes[child := home], roots)
  {
    forall g | g in t
      ensures AllLinked(nodes[child := home], nodes[g], t[g])
    {
      assert AllLinked(nodes, nodes[g], t[g]);
    }
  }

  lemma LinkKeepsTree(t: Tables, nodes: map<nat, Node>, roots: set<nat>, f: nat, i: nat, child: nat)
    requires Tree(t, nodes, roots) && f in t && i < 512 && nodes[f].level > 1
    requires child !in t && child % PAGE == 0 && 0 < child < 0x10_0000_0000_0000
    ensures Tree(Link(t, f, i, child),
                 nodes[child := Node(nodes[f].root, nodes[f].level - 1, nodes[f].prefix * 512 + i)], roots)
  {
    var home := Node(nodes[f].root, nodes[f].level - 1, nodes[f].prefix * 512 + i);
    FreshTableTree(t, nodes, roots, child, home);
    WriteKeepsTree(t[child := EMPTY], nodes[child := home], roots, f, i, PointerTo(child));
  }

  lemma LinkHits(t: Tables, nodes: map<nat, Node>, roots: set<nat>, root: nat, level: nat, f: nat, n: nat, child: nat)
    requires Tree(t, nodes, roots) && root in roots
    requires 2 <= level <= 4 && TableAt(t, root, level, f, n / 512)
    requires child !in t && child % PAGE == 0 && 0 < child < 0x10_0000_0000_0000
    ensures f in nodes && nodes[f] == Node(root, level, n / 512) && nodes[f].prefix * 512 + n % 512 == n
    ensures Slot(Link(t, f, n % 512, child), root, level, n) == PointerTo(child)
  {
    TableHome(t, nodes, roots, root, level, f, n / 512);
    FreshTableTree(t, nodes, roots, child, Node(root, level - 1, n));
    if level < 4 {
      FreshTableUnseen(t, nodes, roots, child, root, level + 1, n / 512);
    }
    WriteHits(t[child := EMPTY], nodes[child := Node(root, level - 1, n)], roots, root, level, f, n, PointerTo(child));
  }

  lemma LinkMisses(t: Tables, nodes: map<nat, Node>, roots: set<nat>, f: nat, i: nat, child: nat, r: nat, j: nat,
                   m: nat)
    requires Tree(t, nodes, roots) && r in roots
    requires f in t && i < 512 && nodes[f].level > 1 && 1 <= j <= 4
    requires child !in t && child % PAGE == 0 && 0 < child < 0x10_0000_0000_0000
    requires !(nodes[f].root == r && Under(j, m, nodes[f].level, nodes[f].prefix * 512 + i))
    ensures Slot(Link(t, f, i, child), r, j, m) == Slot(t, r, j, m)
  {
    var home := Node(nodes[f].root, nodes[f].level - 1, nodes[f].prefix * 512 + i);
    FreshTableTree(t, nodes, roots, child, home);
    FreshTableUnseen(t, nodes, roots, child, r, j, m);
    WriteElsewhere(t[child := EMPTY], nodes[child := home], roots, f, i, PointerTo(child), r, j, m);
  }

  lemma LinkSlot(t: Tables, nodes: map<nat, Node>, roots: set<nat>, root: nat, level: nat, f: nat, n: nat, child: nat,
                 r: nat, j: nat, m: nat)
    requires Tree(t, nodes, roots) && root in roots && r in roots && 1 <= j <= 4
    requires 2 <= level <= 4 && TableAt(t, root, level, f, n / 512)
    requires child !in t && child % PAGE == 0 && 0 < child < 0x10_0000_0000_0000
    ensures Slot(Link(t, f, n % 512, child), r, j, m) == Patched(t, root, level, n, PointerTo(child), r, j, m)
  {
    LinkHits(t, nodes, roots, root, level, f, n, child);
    if !(r == root && Under(j, m, level, n)) {
      LinkMisses(t, nodes, roots, f, n % 512, child, r, j, m);
    } else if j < level {
      EmptyBelow(Link(t, f, n % 512, child), root, j, m, level, child);
    }
  }

  /** Hanging an empty table at slot `n` makes it a pointer; below it there is nothing. */
  lemma LinkSlots(t: Tables, nodes: map<nat, Node>, roots: set<nat>, root: nat, level: nat, f: nat, n: nat, child: nat)
    requires Tree(t, nodes, roots) && root in roots
    requires 2 <= level <= 4 && TableAt(t, root, level, f, n / 512)
    requires child !in t && child % PAGE == 0 && 0 < child < 0x10_0000_0000_0000
    ensures Wrote(t, Link(t, f, n % 512, child), roots, root, level, n, PointerTo(child))
  {
    var t' := Link(t, f, n % 512, child);
    forall r: nat, j: nat, m: nat | r in roots && 1 <= j <= 4
      ensures Slot(t', r, j, m) == Patched(t, root, level, n, PointerTo(child), r, j, m)
    {
      LinkSlot(t, nodes, roots, root, level, f, n, child, r, j, m);
    }
  }

  lemma LinkTree(t: Tables, nodes: map<nat, Node>, roots: set<nat>, root: nat, level: nat, f: nat, n: nat, child: nat)
    requires Tree(t, nodes, roots) && root in roots
    requires 2 <= level <= 4 && TableAt(t, root, level, f, n / 512)
    requires child !in t && child % PAGE == 0 && 0 < child < 0x10_0000_0000_0000
    ensures Tree(Link(t, f, n % 512, child), nodes[child := Node(root, level - 1, n)], roots)
  {
    hide Tree;
    LinkHits(t, nodes, roots, root, level, f, n, child);
    LinkKeepsTree(t, nodes, roots, f, n % 512, child);
  }

  lemma {:induction false} EmptyBelow(t: Tables, root: nat, level: nat, n: nat, top: nat, child: nat)
    requires 1 <= level < top <= 4
    requires Slot(t, root, top, Up(n, top - level)) == PointerTo(child)
    requires child in t && t[child] == EMPTY
    ensures Slot(t, root, level, n) == ZERO
    decreases top - level
  {
    if level + 1 < top {
      EmptyBelow(t, root, level + 1, n / 512, top, child);
    }
  }
}
