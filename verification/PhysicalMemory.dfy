/** The bitmap of physical 4 KiB pages (src/common/memory_physical.c). */
module PhysicalMemory {

  type Word = w: nat | w < 0x1_0000_0000_0000_0000

  const FULL: Word := 0xFFFF_FFFF_FFFF_FFFF

  // ----- Bits of a 64-bit word

  /** `(w >> k) & 1`. */
  predicate Bit(w: nat, k: nat) {
    if k == 0 then w % 2 == 1 else Bit(w / 2, k - 1)
  }

  /** `w | (1ul << k)`. */
  function SetBit(w: nat, k: nat): nat {
    if k == 0 then w / 2 * 2 + 1 else SetBit(w / 2, k - 1) * 2 + w % 2
  }

  /** `w & ~(1ul << k)`. */
  function ClearBit(w: nat, k: nat): nat {
    if k == 0 then w / 2 * 2 else ClearBit(w / 2, k - 1) * 2 + w % 2
  }

  /** The word whose lowest `count` bits are set. */
  function Ones(count: nat): nat {
    if count == 0 then 0 else Ones(count - 1) * 2 + 1
  }

  lemma {:induction false} SetBitBits(w: nat, k: nat, j: nat)
    ensures Bit(SetBit(w, k), j) == (j == k || Bit(w, j))
  {
    if k > 0 && j > 0 {
      SetBitBits(w / 2, k - 1, j - 1);
    }
  }

  lemma {:induction false} ClearBitBits(w: nat, k: nat, j: nat)
    ensures Bit(ClearBit(w, k), j) == (j != k && Bit(w, j))
  {
    if k > 0 && j > 0 {
      ClearBitBits(w / 2, k - 1, j - 1);
    }
  }

  lemma {:induction false} BitOpsFit(w: nat, k: nat, width: nat)
    requires w <= Ones(width) && k < width
    ensures SetBit(w, k) <= Ones(width) && ClearBit(w, k) <= w
  {
    var h, b := w / 2, w % 2;
    assert Ones(width) == Ones(width - 1) * 2 + 1;
    assert w == h * 2 + b && b <= 1 && h <= Ones(width - 1);
    if k == 0 {
      assert SetBit(w, 0) == h * 2 + 1 && ClearBit(w, 0) == h * 2;
    } else {
      BitOpsFit(h, k - 1, width - 1);
      assert SetBit(w, k) == SetBit(h, k - 1) * 2 + b && ClearBit(w, k) == ClearBit(h, k - 1) * 2 + b;
    }
  }

  predicate AllBits(w: nat, width: nat, value: bool) {
    forall k: nat | k < width :: Bit(w, k) == value
  }

  lemma BitsOfHalf(w: nat, width: nat, value: bool)
    requires width > 0
    ensures AllBits(w, width, value) <==> (w % 2 == 1) == value && AllBits(w / 2, width - 1, value)
  {
    if AllBits(w, width, value) {
      assert Bit(w, 0) == value;
      forall k: nat | k < width - 1
        ensures Bit(w / 2, k) == value
      {
        assert Bit(w, k + 1) == value;
      }
    }
    if (w % 2 == 1) == value && AllBits(w / 2, width - 1, value) {
      forall k: nat | k < width
        ensures Bit(w, k) == value
      {
        assert k > 0 ==> Bit(w / 2, k - 1) == value;
      }
    }
  }

  lemma {:induction false} OnesBits(w: nat, width: nat)
    requires w <= Ones(width)
    ensures w == Ones(width) <==> AllBits(w, width, true)
    ensures w == 0 <==> AllBits(w, width, false)
  {
    if width > 0 {
      OnesBits(w / 2, width - 1);
      BitsOfHalf(w, width, true);
      BitsOfHalf(w, width, false);
    }
  }

  lemma OnesStep(count: nat)
    ensures Ones(count + 8) == Ones(count) * 256 + 255
  {
    assert Ones(count + 2) == Ones(count + 1) * 2 + 1;
    assert Ones(count + 4) == Ones(count + 3) * 2 + 1 && Ones(count + 3) == Ones(count + 2) * 2 + 1;
    assert Ones(count + 6) == Ones(count + 5) * 2 + 1 && Ones(count + 5) == Ones(count + 4) * 2 + 1;
    assert Ones(count + 8) == Ones(count + 7) * 2 + 1 && Ones(count + 7) == Ones(count + 6) * 2 + 1;
  }

  lemma FullIsOnes()
    ensures Ones(64) == FULL
  {
    assert Ones(8) == 255;
    OnesStep(8);
    OnesStep(16);
    OnesStep(24);
    OnesStep(32);
    OnesStep(40);
    OnesStep(48);
    OnesStep(56);
  }

  lemma WordBits(w: Word)
    ensures w == FULL <==> AllBits(w, 64, true)
    ensures w == 0 <==> AllBits(w, 64, false)
  {
    FullIsOnes();
    OnesBits(w, 64);
  }

  lemma WordOpsFit(w: Word, k: nat)
    requires k < 64
    ensures SetBit(w, k) <= FULL && ClearBit(w, k) <= FULL
  {
    FullIsOnes();
    BitOpsFit(w, k, 64);
  }

  /** Bit `j` of the mask `1 << bit` as the source writes it, with a 32-bit int 1: on x86-64 the shift count
      is taken modulo 32 and the int is sign-extended to the 64-bit word it is combined with. */
  predicate IntShiftBit(bit: nat, j: nat) {
    j == bit % 32 || (bit % 32 == 31 && j > 31)
  }

  /** The int mask hits the intended bit and no other exactly for the 31 lowest bits of a word. */
  lemma IntShiftExact(bit: nat)
    requires bit < 64
    ensures (forall j: nat | j < 64 :: IntShiftBit(bit, j) == (j == bit)) <==> bit < 31
  {
    assert bit == 31 ==> IntShiftBit(bit, 32);
    assert bit > 31 && bit % 32 < 31 ==> !IntShiftBit(bit, bit);
    assert bit == 63 ==> IntShiftBit(bit, 31);
  }

  // ----- The bitmap as a set of page numbers

  predicate Marks(words: seq<Word>, page: nat) {
    page / 64 < |words| && Bit(words[page / 64], page % 64)
  }

  function MarkedPages(words: seq<Word>): set<nat> {
    set page: nat | page < 64 * |words| && Marks(words, page)
  }

  /** `marked` is the set of pages whose bit is set. */
  ghost predicate Mirrors(words: seq<Word>, marked: set<nat>) {
    && (forall page {:trigger page in marked} | page in marked :: page < 64 * |words|)
    && (forall page: nat {:trigger Marks(words, page)} | page < 64 * |words| :: Marks(words, page) <==> page in marked)
  }

  lemma MirrorsMarked(words: seq<Word>, marked: set<nat>)
    ensures Mirrors(words, marked) <==> marked == MarkedPages(words)
  {
    if Mirrors(words, marked) {
      forall page: nat
        ensures page in marked <==> page in MarkedPages(words)
      {
        assert page < 64 * |words| ==> (Marks(words, page) <==> page in marked);
      }
    }
  }

  lemma MarkOne(words: seq<Word>, page: nat)
    requires page / 64 < |words|
    ensures SetBit(words[page / 64], page % 64) <= FULL
    ensures MarkedPages(words[page / 64 := SetBit(words[page / 64], page % 64)]) == MarkedPages(words) + {page}
  {
    WordOpsFit(words[page / 64], page % 64);
    var words' := words[page / 64 := SetBit(words[page / 64], page % 64)];
    forall p: nat | p < 64 * |words|
      ensures Marks(words', p) == (p == page || Marks(words, p))
    {
      SetBitBits(words[page / 64], page % 64, p % 64);
    }
  }

  lemma ClearOne(words: seq<Word>, page: nat)
    requires page / 64 < |words|
    ensures ClearBit(words[page / 64], page % 64) <= FULL
    ensures MarkedPages(words[page / 64 := ClearBit(words[page / 64], page % 64)]) == MarkedPages(words) - {page}
  {
    WordOpsFit(words[page / 64], page % 64);
    var words' := words[page / 64 := ClearBit(words[page / 64], page % 64)];
    forall p: nat | p < 64 * |words|
      ensures Marks(words', p) == (p != page && Marks(words, p))
    {
      ClearBitBits(words[page / 64], page % 64, p % 64);
    }
  }

  /** Some page is free exactly when some word is not full. */
  lemma FullWords(words: seq<Word>)
    ensures (exists i | 0 <= i < |words| :: words[i] != FULL) <==>
            (exists page: nat | page < 64 * |words| :: page !in MarkedPages(words))
  {
    forall i | 0 <= i < |words| && words[i] != FULL
      ensures exists page: nat | page < 64 * |words| :: page !in MarkedPages(words)
    {
      WordBits(words[i]);
      var k: nat :| k < 64 && Bit(words[i], k) != true;
      assert (64 * i + k) / 64 == i && (64 * i + k) % 64 == k;
      assert 64 * i + k !in MarkedPages(words);
    }
    forall page: nat | page < 64 * |words| && page !in MarkedPages(words)
      ensures words[page / 64] != FULL
    {
      WordBits(words[page / 64]);
      assert !Bit(words[page / 64], page % 64);
    }
  }

  // ----- What a reservation covers

  /** Pages counted by the source for a reservation; the byte count wraps like an unsigned long. */
  function PagesToReserve(address: nat, bytes: nat): nat {
    ((bytes + address % 4096) % 0x1_0000_0000_0000_0000 + 0xFFFF_FFFF_FFFF_FFFF) % 0x1_0000_0000_0000_0000 / 4096 + 1
  }

  predicate Within(page: nat, first: nat, end: nat) {
    first <= page < end
  }

  function PageRun(first: nat, end: nat, bound: nat): set<nat> {
    set page: nat | page < bound && Within(page, first, end)
  }

  lemma PageRunStep(first: nat, page: nat, end: nat, bound: nat)
    requires first <= page <= end
    ensures PageRun(first, first, bound) == {}
    ensures page < bound ==> PageRun(first, page + 1, bound) == PageRun(first, page, bound) + {page}
    ensures page >= bound ==> PageRun(first, page, bound) == PageRun(first, end, bound)
  {}

  /** The pages a reservation marks: those below `bound` in a run from the first page. */
  function ReservedPages(address: nat, bytes: nat, bound: nat): set<nat> {
    PageRun(address / 4096, address / 4096 + PagesToReserve(address, bytes), bound)
  }

  /** Counting pages from the rounded-up byte count covers exactly the pages that share a byte with
      [address, address + bytes). */
  lemma ReservedOverlap(address: nat, bytes: nat, page: nat)
    requires 0 < bytes && address + bytes <= 0xFFFF_FFFF_FFFF_FFFF
    ensures address / 4096 <= page < address / 4096 + PagesToReserve(address, bytes) <==>
            page * 4096 < address + bytes && address < (page + 1) * 4096
    ensures forall bound :: page in ReservedPages(address, bytes, bound) <==>
                            page < bound && page * 4096 < address + bytes && address < (page + 1) * 4096
  {
    var b := bytes + address % 4096;
    assert PagesToReserve(address, bytes) == (b - 1) / 4096 + 1;
    assert address + bytes == address / 4096 * 4096 + b;
  }

  /** The loop stops at a page number equal to the number of 64-page words. It still reserves every
      requested page of a table of `length` words exactly when the request ends below that bound or
      starts past the table. */
  lemma ReserveReachesAll(address: nat, bytes: nat, length: nat)
    requires length > 0
    ensures ReservedPages(address, bytes, length) == ReservedPages(address, bytes, 64 * length) <==>
            address / 4096 + PagesToReserve(address, bytes) <= length || address / 4096 >= 64 * length
  {
    var first, count := address / 4096, PagesToReserve(address, bytes);
    var wanted := ReservedPages(address, bytes, 64 * length);
    if first + count > length && first < 64 * length {
      var missed := if first < length then length else first;
      assert missed in wanted && missed !in ReservedPages(address, bytes, length);
    }
  }

  /** Reserving the second page of a machine with one word of bitmap has no effect at all. */
  lemma ReserveMissesPages()
    ensures ReservedPages(0x1000, 0x1000, 1) == {} && ReservedPages(0x1000, 0x1000, 64) == {1}
  {
    assert PagesToReserve(0x1000, 0x1000) == 1;
  }

  // ----- The allocator

  /** The lowest clear bit of a word is the lowest free page among its 64. */
  lemma LowestPage(words: seq<Word>, marked: set<nat>, spot: nat, bit: nat)
    requires Mirrors(words, marked) && spot < |words| && bit < 64 && !Bit(words[spot], bit)
    requires forall k: nat | k < bit :: Bit(words[spot], k)
    ensures var page := spot * 64 + bit;
            && page / 64 == spot && page !in marked
            && forall p: nat | spot * 64 <= p < page :: p in marked
  {
    var page := spot * 64 + bit;
    assert page / 64 == spot && page % 64 == bit;
    assert !Marks(words, page);
    forall p: nat | spot * 64 <= p < page
      ensures p in marked
    {
      assert p / 64 == spot && p % 64 < bit;
      assert Marks(words, p);
    }
  }

  /** `count` words from `spot` on lie in the table and are empty. */
  ghost predicate FreeRun(words: seq<Word>, spot: nat, count: nat) {
    spot + count <= |words| && forall i | spot <= i < spot + count :: words[i] == 0
  }

  function FullRun(count: nat): (run: seq<Word>)
    ensures |run| == count && forall i | 0 <= i < count :: run[i] == FULL
  {
    if count == 0 then [] else FullRun(count - 1) + [FULL]
  }

  /** `count` words from `spot` on are full, the others are as before. */
  ghost predicate RunFilled(before: seq<Word>, after: seq<Word>, spot: nat, count: nat) {
    && |after| == |before|
    && forall k | 0 <= k < |before| :: after[k] == if spot <= k < spot + count then FULL else before[k]
  }

  lemma RunFilledIs(before: seq<Word>, after: seq<Word>, spot: nat, count: nat)
    requires RunFilled(before, after, spot, count) && spot + count <= |before|
    ensures after == before[..spot] + FullRun(count) + before[spot + count..]
  {
    assert after[..spot] == before[..spot];
    assert after[spot..spot + count] == FullRun(count);
    assert after[spot + count..] == before[spot + count..];
    assert after == after[..spot] + after[spot..spot + count] + after[spot + count..];
  }

  /** The words taken cover the pages asked for exactly when those are a multiple of 64. */
  lemma RunCovers(pages: nat)
    ensures pages / 64 * 64 >= pages <==> pages % 64 == 0
  {}

  lemma FreeRunPages(words: seq<Word>, marked: set<nat>, spot: nat, count: nat)
    requires Mirrors(words, marked) && (count > 0 ==> FreeRun(words, spot, count))
    ensures forall page: nat | spot * 64 <= page < (spot + count) * 64 :: page !in marked
  {
    forall page: nat | spot * 64 <= page < (spot + count) * 64
      ensures page !in marked
    {
      assert spot <= page / 64 < spot + count;
      WordBits(words[page / 64]);
      assert !Marks(words, page);
    }
  }

  lemma FullRunMarks(words: seq<Word>, marked: set<nat>, spot: nat, count: nat)
    requires Mirrors(words, marked) && spot + count <= |words|
    ensures Mirrors(words[..spot] + FullRun(count) + words[spot + count..],
                    marked + PageRun(spot * 64, (spot + count) * 64, 64 * |words|))
  {
    var words' := words[..spot] + FullRun(count) + words[spot + count..];
    forall page: nat | page < 64 * |words|
      ensures Marks(words', page) <==> page in marked + PageRun(spot * 64, (spot + count) * 64, 64 * |words|)
    {
      assert Within(page, spot * 64, (spot + count) * 64) <==> spot <= page / 64 < spot + count;
      assert Marks(words, page) <==> page in marked;
      WordBits(words'[page / 64]);
    }
  }

  /** Words met before `spot` by a scan that starts at `start` and wraps around at the end. */
  ghost predicate ScannedBefore(start: nat, spot: nat, i: nat) {
    if start <= spot then start <= i < spot else start <= i || i < spot
  }

  /** Those are the words fewer steps from the start, going up and around, than `spot` is. */
  lemma ScanOrder(start: nat, spot: nat, i: nat, length: nat)
    requires start < length && spot < length && i < length
    ensures ScannedBefore(start, spot, i) <==> (i + length - start) % length < (spot + length - start) % length
  {
    StepsAround(start, spot, length);
    StepsAround(start, i, length);
  }

  lemma StepsAround(start: nat, spot: nat, length: nat)
    requires start < length && spot < length
    ensures (spot + length - start) % length == if start <= spot then spot - start else spot + length - start
  {
    if start <= spot {
      assert (spot + length - start) / length == 1;
    }
  }

  /** The address of bit `bit` of word `spot`. */
  lemma AddressOfPage(spot: nat, bit: nat, length: nat)
    requires bit < 64 && spot < length
    ensures var page := spot * 64 + bit;
            && page * 4096 / 4096 == page && page * 4096 % 4096 == 0 && page * 4096 < 4096 * 64 * length
            && page / 64 == spot && page / 64 * 64 == spot * 64 && page % 64 == bit
  {}

  class Allocator {
    const table: array<Word>   // allocation_table; its Length is allocation_table_length
    var index: nat             // allocation_index
    var usedPages: int         // used_physical_pages
    ghost var marked: set<nat> // the pages whose bit is set

    /** The scan position is inside the table; word indexes fit the 32-bit ints the source keeps them in. */
    ghost predicate InBounds()
      reads this, table
    {
      index < table.Length < 0x1_0000_0000 && Mirrors(table[..], marked)
    }

    ghost predicate Valid()
      reads this, table
    {
      InBounds() && usedPages == |marked|
    }

    /** memory_physical_initialize. */
    constructor (table: array<Word>, totalMemory: nat)
      requires table.Length == totalMemory / 4096 / 64
      requires 0 < table.Length < 0x1_0000_0000
      modifies table
      ensures this.table == table && Valid() && marked == {}
    {
      this.table := table;
      index, usedPages, marked := 0, 0, {};
      new;
      var i := 0;
      while i < table.Length
        invariant i <= table.Length && index == 0 && usedPages == 0 && marked == {}
        invariant forall k | 0 <= k < i :: table[k] == 0
      {
        table[i] := 0;
        i := i + 1;
      }
      forall page: nat | page < 64 * table.Length
        ensures !Marks(table[..], page)
      {
        WordBits(table[page / 64]);
      }
    }

    /** Some page is unmarked, so that a scan for one ends. */
    predicate HasFree()
      reads this, table
    {
      exists i | 0 <= i < table.Length :: table[i] != FULL
    }

    /** The body of the reservation loop: a page not yet marked is marked and counted. */
    method MarkIfClear(page: nat)
      requires InBounds() && page / 64 < table.Length
      modifies this`usedPages, this`marked, table
      ensures InBounds()
      ensures marked == old(marked) + {page}
      ensures usedPages - |marked| == old(usedPages - |marked|)
    {
      if !Bit(table[page / 64], page % 64) {
        assert !Marks(table[..], page);
        SetPage(page);
        usedPages := usedPages + 1;
      } else {
        assert Marks(table[..], page);
      }
    }

    /** `allocation_table[page >> 6] |= 1 << (page & 63)`. */
    method SetPage(page: nat)
      requires InBounds() && page / 64 < table.Length
      modifies this`marked, table
      ensures InBounds()
      ensures marked == old(marked) + {page}
    {
      ghost var before := table[..];
      MirrorsMarked(before, marked);
      MarkOne(before, page);
      table[page / 64] := SetBit(table[page / 64], page % 64);
      assert table[..] == before[page / 64 := SetBit(before[page / 64], page % 64)];
      marked := marked + {page};
      MirrorsMarked(table[..], marked);
    }

    /** `allocation_table[page >> 6] &= ~(1 << (page & 63))`. */
    method ClearPage(page: nat)
      requires InBounds() && page / 64 < table.Length
      modifies this`marked, table
      ensures InBounds()
      ensures marked == old(marked) - {page}
    {
      ghost var before := table[..];
      MirrorsMarked(before, marked);
      ClearOne(before, page);
      table[page / 64] := ClearBit(table[page / 64], page % 64);
      assert table[..] == before[page / 64 := ClearBit(before[page / 64], page % 64)];
      marked := marked - {page};
      MirrorsMarked(table[..], marked);
    }

    /** memory_physical_reserve: marks the pages of the region below the bound its loop checks, and
        counts each newly marked page once. */
    method Reserve(address: nat, bytes: nat)
      requires InBounds()
      modifies this`usedPages, this`marked, table
      ensures InBounds()
      ensures marked == old(marked) + ReservedPages(address, bytes, table.Length)
      ensures usedPages - |marked| == old(usedPages - |marked|)
    {
      var start := address / 4096;
      var count := PagesToReserve(address, bytes);
      ReserveRun(start, start + count);
    }

    method ReserveRun(start: nat, end: nat)
      requires InBounds() && start <= end
      modifies this`usedPages, this`marked, table
      ensures InBounds()
      ensures marked == old(marked) + PageRun(start, end, table.Length)
      ensures usedPages - |marked| == old(usedPages - |marked|)
    {
      hide Mirrors;
      var page := start;
      ghost var done := {};
      PageRunStep(start, page, end, table.Length);
      while page < end
        invariant start <= page <= end && InBounds()
        invariant done == PageRun(start, page, table.Length)
        invariant marked == old(marked) + done
        invariant usedPages - |marked| == old(usedPages - |marked|)
      {
        PageRunStep(start, page, end, table.Length);
        if page >= table.Length {
          break;
        }
        ghost var before := marked;
        MarkIfClear(page);
        done := done + {page};
        assert marked == before + {page};
        page := page + 1;
      }
    }

    /** memory_physical_free: clears the page's bit when it was set. The word index is kept in 32 bits,
        so an address of 2^50 or more names the page it equals modulo 2^50. */
    method Free(address: nat)
      requires InBounds()
      modifies this`usedPages, this`marked, table
      ensures InBounds()
      ensures marked == old(marked) - {address / 4096 % 0x40_0000_0000}
      ensures usedPages - |marked| == old(usedPages - |marked|)
    {
      var word := address / 4096 / 64 % 0x1_0000_0000;
      var bit := address / 4096 % 64;
      FreedPage(address);
      if word >= table.Length {
        return;
      }
      assert (word * 64 + bit) / 64 == word && (word * 64 + bit) % 64 == bit;
      if Bit(table[word], bit) {
        assert Marks(table[..], word * 64 + bit);
        ClearPage(word * 64 + bit);
        usedPages := usedPages - 1;
      } else {
        assert !Marks(table[..], word * 64 + bit);
      }
    }

    /** memory_physical_allocate: takes the lowest free page of the first word with one, in circular order
        from the last position. Without a free page the source scans forever. */
    method Allocate() returns (address: nat)
      requires InBounds() && HasFree()
      modifies this, table
      ensures InBounds()
      ensures address % 4096 == 0 && address < 4096 * 64 * table.Length
      ensures address / 4096 !in old(marked) && marked == old(marked) + {address / 4096}
      ensures usedPages - |marked| == old(usedPages - |marked|)
      ensures index == address / 4096 / 64
      ensures forall i | 0 <= i < table.Length && ScannedBefore(old(index), index, i) :: old(table[i]) == FULL
      ensures forall page: nat | address / 4096 / 64 * 64 <= page < address / 4096 :: page in old(marked)
    {
      var spot := FindWord();
      var bit := LowestClearBit(table[spot]);
      LowestPage(table[..], marked, spot, bit);
      AddressOfPage(spot, bit, table.Length);
      SetPage(spot * 64 + bit);
      index := spot;
      usedPages := usedPages + 1;
      address := (spot * 64 + bit) * 4096;
    }

    /** The circular scan for a word that is not full. */
    method FindWord() returns (spot: nat)
      requires InBounds() && HasFree()
      ensures spot < table.Length && table[spot] != FULL
      ensures forall i | 0 <= i < table.Length && ScannedBefore(index, spot, i) :: table[i] == FULL
    {
      spot := index;
      ghost var w :| 0 <= w < table.Length && table[w] != FULL;
      while table[spot] == FULL
        invariant spot < table.Length
        invariant forall i | 0 <= i < table.Length && ScannedBefore(index, spot, i) :: table[i] == FULL
        invariant spot < index ==> w < index
        decreases if spot <= w then w - spot else w + table.Length - spot
      {
        spot := spot + 1;
        if spot >= table.Length {
          spot := 0;
        }
      }
    }

    /** memory_physical_allocate_consecutive, in whole words of 64 pages: takes the first run of free words in circular
        order, or none when fewer than 64 pages are asked for. The scan position it leaves may lie past the table, and
        the pages are not counted as used. Without a long enough run the source scans forever. */
    method AllocateConsecutive(pages: nat, ghost run: nat) returns (address: nat)
      requires InBounds()
      requires FreeRun(table[..], run, if pages < 64 then 1 else pages / 64)
      modifies this`index, this`marked, table
      ensures address % (4096 * 64) == 0
      ensures var spot, count := address / 4096 / 64, pages / 64;
              && FreeRun(old(table[..]), spot, if pages < 64 then 1 else count)
              && (forall page: nat | spot * 64 <= page < (spot + count) * 64 :: page !in old(marked))
              && (forall i: nat | i < table.Length && ScannedBefore(old(index), spot, i) ::
                    !FreeRun(old(table[..]), i, if pages < 64 then 1 else count))
              && table[..] == old(table[..spot]) + FullRun(count) + old(table[spot + count..])
              && marked == old(marked) + PageRun(spot * 64, (spot + count) * 64, 64 * table.Length)
              && index == spot + count
              && (InBounds() <==> spot + count < table.Length)
    {
      var count := pages / 64;
      var spot := FindRun(count, run);
      FreeRunPages(table[..], marked, spot, count);
      FullRunMarks(table[..], marked, spot, count);
      FillRun(spot, count);
      marked := marked + PageRun(spot * 64, (spot + count) * 64, 64 * table.Length);
      index := spot + count;
      address := spot * 64 * 4096;
    }

    method FillRun(spot: nat, count: nat)
      requires spot + count <= table.Length
      modifies table
      ensures table[..] == old(table[..spot]) + FullRun(count) + old(table[spot + count..])
    {
      ghost var before := table[..];
      var i := 0;
      while i < count
        invariant 0 <= i <= count
        invariant RunFilled(before, table[..], spot, i)
      {
        table[spot + i] := FULL;
        i := i + 1;
      }
      RunFilledIs(before, table[..], spot, count);
    }

    /** Its scan for a run of empty words. Neither a start in the middle of the only long enough run nor the
        wrap at the end of the table, where counting restarts, keeps it from ending. */
    method FindRun(count: nat, ghost run: nat) returns (spot: nat)
      requires InBounds()
      requires FreeRun(table[..], run, if count == 0 then 1 else count)
      ensures FreeRun(table[..], spot, if count == 0 then 1 else count)
      ensures forall i: nat | i < table.Length && ScannedBefore(index, spot, i) ::
                !FreeRun(table[..], i, if count == 0 then 1 else count)
    {
      ghost var need := if count == 0 then 1 else count;
      ghost var wrapped := false;
      spot := index;
      var consecutive, found := 0, false;
      while !found
        invariant spot < table.Length
        invariant !found ==>
                    consecutive < need && consecutive <= spot && FreeRun(table[..], spot - consecutive, consecutive)
        invariant !found && wrapped ==> spot < run + need && (spot >= run ==> spot - consecutive <= run)
        invariant !wrapped ==> index <= if found then spot else spot - consecutive
        invariant wrapped ==> forall i: nat | index <= i < table.Length :: !FreeRun(table[..], i, need)
        invariant forall i: nat | (if wrapped then 0 else index) <= i < (if found then spot else spot - consecutive) ::
                    !FreeRun(table[..], i, need)
        invariant found ==> FreeRun(table[..], spot, need)
        decreases !found, !wrapped, table.Length - spot
      {
        if table[spot] == 0 {
          consecutive := consecutive + 1;
          if consecutive >= count {
            spot := spot - (consecutive - 1);
            found := true;
          }
        } else {
          consecutive := 0;
        }
        if !found {
          spot := spot + 1;
          if spot >= table.Length {
            spot, consecutive := 0, 0;
            wrapped := true;
          }
        }
      }
    }
  }

  /** The scan for the lowest zero bit of a word that is not full; the source's "this cannot happen" branch
      for a 64th bit is unreachable. */
  method LowestClearBit(word: Word) returns (bit: nat)
    requires word != FULL
    ensures bit < 64 && !Bit(word, bit)
    ensures forall k: nat | k < bit :: Bit(word, k)
  {
    WordBits(word);
    ghost var clear: nat :| clear < 64 && !Bit(word, clear);
    var bits: nat := word;
    bit := 0;
    while bits % 2 == 1
      invariant bit <= clear
      invariant forall k: nat | k < bit :: Bit(word, k)
      invariant ShiftedBy(word, bit, bits)
      decreases clear - bit
    {
      ShiftedTop(word, bit, bits);
      ShiftedMore(word, bit, bits);
      bit := bit + 1;
      bits := bits / 2;
    }
    ShiftedTop(word, bit, bits);
  }

  /** `bits == word >> count`, bit by bit. */
  ghost predicate ShiftedBy(word: nat, count: nat, bits: nat) {
    forall k: nat :: Bit(bits, k) == Bit(word, count + k)
  }

  lemma ShiftedTop(word: nat, count: nat, bits: nat)
    requires ShiftedBy(word, count, bits)
    ensures (bits % 2 == 1) == Bit(word, count)
  {
    assert Bit(bits, 0) == Bit(word, count + 0);
  }

  lemma ShiftedMore(word: nat, count: nat, bits: nat)
    requires ShiftedBy(word, count, bits)
    ensures ShiftedBy(word, count + 1, bits / 2)
  {
    forall k: nat
      ensures Bit(bits / 2, k) == Bit(word, count + 1 + k)
    {
      assert Bit(bits, k + 1) == Bit(word, count + (k + 1));
    }
  }

  lemma FreedPage(address: nat)
    ensures address / 4096 % 0x40_0000_0000 == address / 4096 / 64 % 0x1_0000_0000 * 64 + address / 4096 % 64
  {}
}
