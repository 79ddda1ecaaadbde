/** src/mem/phys_alloc.c: the allocator of physical pages over the bitmap. */
module PhysAlloc {
  import opened Bytes
  import opened Bitmaps

  const PAGE_SIZE := 4096

  /** A region of RAM (struct ram_descriptor); it ends within the address space. */
  datatype Region = Region(addr: u32, size: u32)

  ghost predicate Valid(r: Region) {
    r.addr + r.size < TWO_32
  }

  /** The whole pages of a region. */
  function Pages(r: Region): nat {
    r.size / PAGE_SIZE
  }

  /** The pages of all regions. */
  function TotalPages(rs: seq<Region>): nat {
    if rs == [] then 0 else Pages(rs[0]) + TotalPages(rs[1..])
  }

  // ---------- Page numbers and addresses ----------

  /** The address of page ppn as documented: the regions one behind the other, without the gaps between them. */
  function Intended(rs: seq<Region>, ppn: nat): nat {
    if rs == [] then 0
    else if ppn < Pages(rs[0]) then rs[0].addr + ppn * PAGE_SIZE
    else Intended(rs[1..], ppn - Pages(rs[0]))
  }

  /** The address that find_physical_addr_of_page computes: it takes the first region with more than ppn pages. */
  function Found(rs: seq<Region>, ppn: nat): nat {
    if rs == [] then 0
    else if ppn < Pages(rs[0]) then rs[0].addr + ppn * PAGE_SIZE
    else Found(rs[1..], ppn)
  }

  /** find_physical_addr_of_page; 0 is NULL. */
  method FindPhysicalAddrOfPage(rs: seq<Region>, ppn: u32) returns (r: u32)
    requires forall x :: x in rs ==> Valid(x)
    ensures r == Found(rs, ppn)
  {
    var i := 0;
    while i < |rs|
      invariant i <= |rs| && Found(rs, ppn) == Found(rs[i..], ppn)
    {
      var pages := rs[i].size / PAGE_SIZE;
      assert rs[i..][0] == rs[i] && rs[i..][1..] == rs[i + 1..];
      if ppn < pages {
        assert Valid(rs[i]);
        PageIn(rs[i], ppn);
        U32Id(rs[i].addr + ppn * PAGE_SIZE);
        return U32(rs[i].addr + U32(ppn * PAGE_SIZE));
      }
      i := i + 1;
    }
    return 0;
  }

  /** A page of a region lies in the region. */
  lemma PageIn(r: Region, ppn: nat)
    requires ppn < Pages(r)
    ensures ppn * PAGE_SIZE + PAGE_SIZE <= r.size
  {
  }

  /** No two of the regions have a byte in common, and none starts at address 0. */
  ghost predicate Separate(rs: seq<Region>) {
    && (forall i :: 0 <= i < |rs| ==> rs[i].addr > 0)
    && (forall i, j ::
          0 <= i < j < |rs| ==> rs[i].addr + rs[i].size <= rs[j].addr || rs[j].addr + rs[j].size <= rs[i].addr)
  }

  /** The address found lies in one of the regions, or is NULL. */
  lemma {:induction false} FoundWhere(rs: seq<Region>, ppn: nat) returns (i: nat)
    ensures Found(rs, ppn) != 0 ==>
              i < |rs| && ppn < Pages(rs[i]) && Found(rs, ppn) == rs[i].addr + ppn * PAGE_SIZE
    ensures Found(rs, ppn) == 0 && (forall x :: x in rs ==> x.addr > 0) ==> forall x :: x in rs ==> Pages(x) <= ppn
  {
    i := 0;
    if rs != [] && ppn >= Pages(rs[0]) {
      i := FoundWhere(rs[1..], ppn);
      i := i + 1;
    }
  }

  lemma {:induction false} IntendedWhere(rs: seq<Region>, ppn: nat) returns (i: nat, k: nat)
    requires ppn < TotalPages(rs)
    ensures i < |rs| && k <= ppn && k < Pages(rs[i]) && Intended(rs, ppn) == rs[i].addr + k * PAGE_SIZE
    ensures rs != [] && ppn >= Pages(rs[0]) ==> i > 0 && k + Pages(rs[0]) <= ppn
  {
    if ppn < Pages(rs[0]) {
      i, k := 0, ppn;
    } else {
      i, k := IntendedWhere(rs[1..], ppn - Pages(rs[0]));
      i := i + 1;
    }
  }

  lemma {:induction false} IntendedNone(rs: seq<Region>, ppn: nat)
    requires ppn >= TotalPages(rs)
    ensures Intended(rs, ppn) == 0 && Found(rs, ppn) == 0
  {
    if rs != [] {
      IntendedNone(rs[1..], ppn - Pages(rs[0]));
      FoundNone(rs[1..], ppn);
    }
  }

  lemma {:induction false} FoundNone(rs: seq<Region>, ppn: nat)
    requires ppn >= TotalPages(rs)
    ensures Found(rs, ppn) == 0
  {
    if rs != [] {
      FoundNone(rs[1..], ppn);
    }
  }

  /**
   * Exactly when the address found is the documented one: for the pages of the first region, and for numbers behind
   * the last page.
   */
  lemma FoundIsIntended(rs: seq<Region>, ppn: nat)
    requires rs != [] && Separate(rs) && Pages(rs[0]) > 0
    ensures Found(rs, ppn) == Intended(rs, ppn) <==> ppn < Pages(rs[0]) || ppn >= TotalPages(rs)
  {
    if ppn >= TotalPages(rs) {
      IntendedNone(rs, ppn);
    } else if ppn >= Pages(rs[0]) {
      var i, k := IntendedWhere(rs, ppn);
      var j := FoundWhere(rs, ppn);
      PageIn(rs[i], k);
      if Found(rs, ppn) != 0 {
        PageIn(rs[j], ppn);
      }
    }
  }

  /** Two regions of one page each: page 1 exists, but no address is found for it. */
  lemma SecondRegionLost()
    ensures var rs := [Region(0x1_0000, PAGE_SIZE), Region(0x3_5000, PAGE_SIZE)];
      Intended(rs, 1) == 0x3_5000 && Found(rs, 1) == 0
  {
    var rs := [Region(0x1_0000, PAGE_SIZE), Region(0x3_5000, PAGE_SIZE)];
    var one := [Region(0x3_5000, PAGE_SIZE)];
    assert rs[1..] == one && one[1..] == [];
    assert Found(one, 1) == Found([], 1);
  }

  /** The start of the page that contains an address. */
  function PageBase(a: u32): u32 {
    a - a % PAGE_SIZE
  }

  /** The region holds the address in the sense of physic_addr_to_ppn: its end counts, too. */
  ghost predicate Holds(r: Region, a: u32) {
    r.addr <= a <= r.addr + r.size
  }

  /** Region i is the first one that holds the address. */
  ghost predicate FirstHolds(rs: seq<Region>, i: nat, a: u32) {
    i < |rs| && Holds(rs[i], a) && forall j :: 0 <= j < i ==> !Holds(rs[j], a)
  }

  /** physic_addr_to_ppn */
  method PhysicAddrToPpn(rs: seq<Region>, page: u32) returns (r: int)
    requires (forall x :: x in rs ==> Valid(x)) && TotalPages(rs) < 0x8000_0000
    ensures r >= -1 && (r == -1 <==> forall i :: 0 <= i < |rs| ==> !Holds(rs[i], PageBase(page)))
    ensures forall i: nat :: FirstHolds(rs, i, PageBase(page)) ==>
              r == TotalPages(rs[..i]) + (PageBase(page) - rs[i].addr) / PAGE_SIZE
  {
    var pagePtr := page - page % PAGE_SIZE;
    var counter := 0;
    var i := 0;
    while i < |rs|
      invariant i <= |rs| && counter == TotalPages(rs[..i])
      invariant forall j :: 0 <= j < i ==> !Holds(rs[j], pagePtr)
    {
      assert Valid(rs[i]);
      if rs[i].addr <= pagePtr && pagePtr <= rs[i].addr + rs[i].size {
        var diff := pagePtr - rs[i].addr;
        assert Holds(rs[i], pagePtr);
        forall k: nat | FirstHolds(rs, k, PageBase(page)) ensures k == i {
        }
        return counter + diff / PAGE_SIZE;
      }
      TotalSplit(rs[..i + 1], i);
      assert rs[..i + 1][..i] == rs[..i] && rs[..i + 1][i..] == [rs[i]] && [rs[i]][1..] == [];
      counter := counter + rs[i].size / PAGE_SIZE;
      i := i + 1;
    }
    return -1;
  }

  lemma {:induction false} TotalSplit(rs: seq<Region>, i: nat)
    requires i <= |rs|
    ensures TotalPages(rs) == TotalPages(rs[..i]) + TotalPages(rs[i..])
  {
    if i == 0 {
      assert rs[..0] == [] && rs[0..] == rs;
    } else {
      TotalSplit(rs[1..], i - 1);
      assert rs[1..][..i - 1] == rs[..i][1..] && rs[1..][i - 1..] == rs[i..];
    }
  }

  /** The pages from region i on come behind those of the regions before. */
  lemma {:induction false} IntendedSkip(rs: seq<Region>, i: nat, k: nat)
    requires i <= |rs|
    ensures Intended(rs, TotalPages(rs[..i]) + k) == Intended(rs[i..], k)
  {
    if i == 0 {
      assert rs[..0] == [] && rs[0..] == rs;
    } else {
      IntendedSkip(rs[1..], i - 1, k);
      assert rs[1..][..i - 1] == rs[..i][1..] && rs[1..][i - 1..] == rs[i..];
    }
  }

  /**
   * The number found for a page belongs to that page, exactly unless the page starts where the first region that
   * holds it ends and the next region does not start right there.
   */
  lemma PpnIsIntended(rs: seq<Region>, a: u32, i: nat)
    requires Separate(rs) && (forall x :: x in rs ==> x.size > 0 && x.addr % PAGE_SIZE == 0 && x.size % PAGE_SIZE == 0)
    requires a % PAGE_SIZE == 0 && FirstHolds(rs, i, a)
    ensures Intended(rs, TotalPages(rs[..i]) + (a - rs[i].addr) / PAGE_SIZE) == a <==>
              a < rs[i].addr + rs[i].size || (i + 1 < |rs| && rs[i + 1].addr == a)
  {
    var r := rs[i];
    assert r in rs;
    var k := (a - r.addr) / PAGE_SIZE;
    assert a == r.addr + k * PAGE_SIZE;
    IntendedSkip(rs, i, k);
    var tail := rs[i..];
    assert tail[0] == r && tail[1..] == rs[i + 1..];
    if k >= Pages(r) {
      assert a == r.addr + r.size && k == Pages(r);
      assert Intended(tail, k) == Intended(rs[i + 1..], 0);
      if i + 1 < |rs| {
        assert rs[i + 1] in rs && rs[i + 1..][0] == rs[i + 1];
        assert Pages(rs[i + 1]) > 0;
      }
    }
  }

  /** The page behind a single region is no page of it, yet a number is found for it. */
  lemma PageBehindNumbered()
    ensures var rs := [Region(0x1_0000, PAGE_SIZE)];
      FirstHolds(rs, 0, 0x1_1000) && Intended(rs, TotalPages(rs[..0]) + (0x1_1000 - 0x1_0000) / PAGE_SIZE) == 0
  {
    var rs := [Region(0x1_0000, PAGE_SIZE)];
    assert rs[..0] == [] && rs[1..] == [];
    assert Intended(rs, 1) == Intended([], 0);
  }

  // ---------- The allocator for one region ----------

  function CeilDiv(a: nat, b: nat): nat
    requires b > 0
  {
    a / b + if a % b == 0 then 0 else 1
  }

  /** The words of a bitmap for the pages of a region. */
  function Words(pages: nat): nat {
    CeilDiv(pages, 32)
  }

  /**
   * pmm_borrow_pages is given the number of words of the bitmap where bytes are meant. It marks all pages of the
   * bitmap exactly up to 1024 words, that is, 128 MiB of RAM.
   */
  lemma BorrowExact(pages: nat)
    requires pages > 0
    ensures CeilDiv(Words(pages), PAGE_SIZE) == CeilDiv(4 * Words(pages), PAGE_SIZE) <==> pages <= 32768
    ensures pages <= 32768 ==> CeilDiv(Words(pages), PAGE_SIZE) == 1
  {
    var w := Words(pages);
    assert w <= 1024 <==> pages <= 32768;
    if w > 1024 {
      assert CeilDiv(4 * w, PAGE_SIZE) >= 2;
      assert w > 4096 ==> 4 * CeilDiv(w, PAGE_SIZE) - 3 <= CeilDiv(4 * w, PAGE_SIZE);
    }
  }

  /** RAM, and the kernel image in it, all in whole pages. */
  ghost predicate Layout(ram: Region, kernStart: u32, kernEnd: u32) {
    && Valid(ram) && ram.addr % PAGE_SIZE == 0 && ram.size % PAGE_SIZE == 0
    && kernStart % PAGE_SIZE == 0 && kernEnd % PAGE_SIZE == 0
    && ram.addr <= kernStart < kernEnd <= ram.addr + ram.size
  }

  /**
   * Where init_phys_allocator puts a bitmap of the given size: at the start of RAM, or behind the kernel, or nowhere
   * (0).
   */
  function HomeFor(ram: Region, kernStart: u32, kernEnd: u32, bytes: nat): u32 {
    if kernStart - ram.addr >= bytes then ram.addr
    else if kernEnd < ram.addr + ram.size && ram.addr + ram.size - kernEnd >= bytes then kernEnd
    else 0
  }

  /** n bytes from a on lie in RAM, in front of the kernel or behind it. */
  predicate Fits(ram: Region, kernStart: u32, kernEnd: u32, a: int, n: nat) {
    ram.addr <= a && a + n <= ram.addr + ram.size && (a + n <= kernStart || kernEnd <= a)
  }

  /**
   * A place for n bytes is found exactly when there is one: the start of RAM if they fit there, else the end of the
   * kernel. If RAM starts at address 0 and they fit there, that place is taken for NULL.
   */
  lemma HomeExact(ram: Region, kernStart: u32, kernEnd: u32, n: nat)
    requires Layout(ram, kernStart, kernEnd) && n > 0
    ensures var place := HomeFor(ram, kernStart, kernEnd, n);
      && (place != 0 ==> place == if ram.addr + n <= kernStart then ram.addr else kernEnd)
      && (place != 0 <==> (exists a: int :: Fits(ram, kernStart, kernEnd, a, n)) && !(ram.addr == 0 && n <= kernStart))
  {
    if ram.addr + n <= kernStart {
      assert Fits(ram, kernStart, kernEnd, ram.addr, n);
    } else if kernEnd + n <= ram.addr + ram.size {
      assert Fits(ram, kernStart, kernEnd, kernEnd, n);
    }
  }

  class Allocator {
    const ram: Region
    const kernStart: u32
    const kernEnd: u32
    var bitmap: Bitmap
    var home: u32

    constructor (ram: Region, kernStart: u32, kernEnd: u32, bitmap: Bitmap)
      ensures this.ram == ram && this.kernStart == kernStart && this.kernEnd == kernEnd && this.bitmap == bitmap
    {
      this.ram, this.kernStart, this.kernEnd, this.bitmap, home := ram, kernStart, kernEnd, bitmap, 0;
    }

    /** The number of the page at an address of RAM. */
    function PageOf(a: u32): int {
      (a - ram.addr) / PAGE_SIZE
    }

    /** The pages of the kernel, and of the bitmap as far as they are marked, are used. */
    ghost predicate Kept(ws: seq<u32>)
      reads this
    {
      forall t :: 0 <= t < 32 * |ws| && Reserved(t) ==> IsUsed(ws, t)
    }

    /** Page t belongs to the kernel, or to the bitmap as far as that is marked. */
    predicate Reserved(t: nat)
      reads this
    {
      || PageOf(kernStart) <= t < PageOf(kernEnd)
      || PageOf(home) <= t < PageOf(home) + CeilDiv(Words(Pages(ram)), PAGE_SIZE)
    }

    ghost predicate Valid()
      reads this, bitmap, bitmap.slots
    {
      && Layout(ram, kernStart, kernEnd) && bitmap.Valid() && bitmap.slotsSize == Words(Pages(ram))
      && home == HomeFor(ram, kernStart, kernEnd, 4 * Words(Pages(ram))) && home != 0
      && Kept(bitmap.slots[..])
    }

    /** Page t holds a part of the bitmap. */
    predicate InBitmap(t: int)
      reads this
    {
      PageOf(home) <= t < PageOf(home) + CeilDiv(4 * Words(Pages(ram)), PAGE_SIZE)
    }

    /**
     * The state after init_phys_allocator: the used pages are the reserved ones, and the bitmap lies apart from the
     * kernel.
     */
    ghost predicate Fresh()
      reads this, bitmap, bitmap.slots
    {
      && Valid() && bitmap.slots.Length == Words(Pages(ram))
      && (forall t :: 0 <= t < 32 * bitmap.slots.Length ==> (IsUsed(bitmap.slots[..], t) <==> Reserved(t)))
      && ram.addr <= home && home + 4 * Words(Pages(ram)) <= ram.addr + ram.size
      && (home + 4 * Words(Pages(ram)) <= kernStart || kernEnd <= home)
    }

    /** No page of the bitmap can be handed out. */
    ghost predicate BitmapKept()
      requires Valid()
      reads this, bitmap, bitmap.slots
    {
      forall t :: 0 <= t < 32 * bitmap.slotsSize && InBitmap(t) ==> IsUsed(bitmap.slots[..], t)
    }

    /**
     * init_phys_allocator for one region; false stands for a kernel panic. The memory of the bitmap is handed in.
     */
    method Init(slots: array<u32>) returns (ok: bool)
      requires Layout(ram, kernStart, kernEnd) && slots.Length == Words(Pages(ram))
      modifies this, bitmap, slots
      ensures bitmap == old(bitmap)
      ensures ok <==> ram.size - (kernEnd - kernStart) < 0x8000_0000 && ram.size - (kernEnd - kernStart) >= PAGE_SIZE &&
                      HomeFor(ram, kernStart, kernEnd, 4 * Words(Pages(ram))) != 0
      ensures ok ==> Valid() && bitmap.slots == slots
      ensures ok ==> Fresh() && (BitmapKept() <==> Pages(ram) <= 32768)
      ensures
        var words := (ram.size / 4096 + 31) / 32;
        var left := ram.size - (kernEnd - kernStart);
        && (ok <==>
              && 4096 <= left < 0x8000_0000
              && (exists a: int :: Fits(ram, kernStart, kernEnd, a, 4 * words))
              && !(ram.addr == 0 && 4 * words <= kernStart))
        && (ok ==>
              && bitmap.slotsSize == words
              && home == (if ram.addr + 4 * words <= kernStart then ram.addr else kernEnd)
              && UsedAre(home, home + (words + 4095) / 4096 * 4096))
    {
      hide CeilDiv, IsUsed, PageOf, Pages, BitmapKept, Fits, HomeFor, UsedAre;
      WordsExact();
      var unborrowed := ram.size - (kernEnd - kernStart);
      if unborrowed >= 0x8000_0000 || unborrowed < PAGE_SIZE {
        return false;
      }
      var place, bitmapSize := FindHome();
      if place == 0 {
        return false;
      }
      PlaceFacts(place, bitmapSize);
      home := place;
      bitmap.Init(slots);
      Borrow(kernStart, kernEnd - kernStart);
      Borrow(home, bitmapSize);
      BitmapKeptExact();
      UsedExact();
      ok := true;
    }

    /** The used pages are those of the kernel and those between two addresses. */
    ghost predicate UsedAre(first: int, last: int)
      reads this, bitmap, bitmap.slots
    {
      && bitmap.Valid()
      && forall t :: 0 <= t < 32 * bitmap.slotsSize ==>
           (IsUsed(bitmap.slots[..], t) <==>
              || kernStart <= ram.addr + 4096 * t < kernEnd
              || first <= ram.addr + 4096 * t < last)
    }

    lemma WordsExact()
      requires Layout(ram, kernStart, kernEnd)
      ensures Words(Pages(ram)) == (ram.size / 4096 + 31) / 32
      ensures var n := 4 * Words(Pages(ram));
        && var place := HomeFor(ram, kernStart, kernEnd, n);
        && (place != 0 ==> place == if ram.addr + n <= kernStart then ram.addr else kernEnd)
        && (place != 0 <==>
            (exists a: int :: Fits(ram, kernStart, kernEnd, a, n)) && !(ram.addr == 0 && n <= kernStart))
    {
      HomeExact(ram, kernStart, kernEnd, 4 * Words(Pages(ram)));
    }

    lemma UsedExact()
      requires Fresh()
      ensures UsedAre(home, home + (Words(Pages(ram)) + 4095) / 4096 * 4096)
    {
      var w := Words(Pages(ram));
      HomeAligned();
      PageOfAligned(home);
      PageOfAligned(kernStart);
      PageOfAligned(kernEnd);
      CeilExact(w);
      hide CeilDiv, PageOf, Words, IsUsed;
    }

    lemma CeilExact(w: nat)
      ensures CeilDiv(w, PAGE_SIZE) * 4096 == (w + 4095) / 4096 * 4096
    {
    }

    /** After init_phys_allocator, the pages of the bitmap are all marked exactly up to 128 MiB of RAM. */
    lemma BitmapKeptExact()
      requires Fresh()
      ensures BitmapKept() <==> Pages(ram) <= 32768
    {
      hide CeilDiv, IsUsed, PageOf, Words, Pages;
      ghost var w := Words(Pages(ram));
      HomePages(w);
      BorrowExact(Pages(ram));
      if Pages(ram) > 32768 {
        ghost var t := PageOf(home) + CeilDiv(w, PAGE_SIZE);
        assert InBitmap(t) && !Reserved(t);
      } else {
        forall t | 0 <= t < 32 * bitmap.slotsSize && InBitmap(t) ensures IsUsed(bitmap.slots[..], t) {
          assert Reserved(t);
        }
      }
    }

    /** The pages of the bitmap, marked or not, are numbered, and none is a page of the kernel. */
    lemma HomePages(w: nat)
      requires Fresh() && w == Words(Pages(ram))
      ensures Pages(ram) > 0 && PageOf(home) >= 0 && CeilDiv(w, PAGE_SIZE) <= CeilDiv(4 * w, PAGE_SIZE)
      ensures forall t: int ::
                InBitmap(t) ==> 0 <= t < 32 * bitmap.slots.Length && !(PageOf(kernStart) <= t < PageOf(kernEnd))
    {
      HomeAligned();
      PageOfAligned(home);
      PageOfAligned(kernStart);
      PageOfAligned(kernEnd);
      CeilBounds(w);
      WordsCover(Pages(ram));
      hide CeilDiv, PageOf, Words;
      forall t: int | InBitmap(t)
        ensures 0 <= t < 32 * bitmap.slots.Length && !(PageOf(kernStart) <= t < PageOf(kernEnd)) {
        PageInside(t, 4 * w);
      }
    }

    lemma CeilBounds(w: nat)
      ensures CeilDiv(w, PAGE_SIZE) <= CeilDiv(4 * w, PAGE_SIZE)
      ensures 4 * w > 0 ==> PAGE_SIZE * (CeilDiv(4 * w, PAGE_SIZE) - 1) < 4 * w
    {
    }

    lemma PageInside(t: nat, n: nat)
      requires ram.size % PAGE_SIZE == 0 && PageOf(home) >= 0
      requires home == ram.addr + PageOf(home) * PAGE_SIZE && home + n <= ram.addr + ram.size
      requires PageOf(home) <= t < PageOf(home) + CeilDiv(n, PAGE_SIZE)
      requires n > 0 ==> PAGE_SIZE * (CeilDiv(n, PAGE_SIZE) - 1) < n
      ensures home <= ram.addr + t * PAGE_SIZE < home + n && t < Pages(ram)
    {
      hide PageOf;
      CeilZero(n);
    }

    lemma CeilZero(n: nat)
      ensures CeilDiv(n, PAGE_SIZE) > 0 ==> n > 0
    {
    }

    lemma PlaceFacts(place: u32, words: nat)
      requires Layout(ram, kernStart, kernEnd) && words == Words(Pages(ram))
      requires place != 0 && place == HomeFor(ram, kernStart, kernEnd, 4 * words)
      ensures 0 < words && 32 * words <= INT_MAX && words <= ram.size
      ensures place % PAGE_SIZE == 0 && ram.addr <= place && place + 4 * words <= ram.addr + ram.size
      ensures place + 4 * words <= kernStart || kernEnd <= place
      ensures PageOf(kernStart) + CeilDiv(kernEnd - kernStart, PAGE_SIZE) == PageOf(kernEnd)
    {
      PageOfAligned(kernStart);
      PageOfAligned(kernEnd);
      WordsBound(ram);
      Whole(PageOf(kernEnd) - PageOf(kernStart));
    }

    lemma WordsBound(r: Region)
      requires r.size >= PAGE_SIZE
      ensures 0 < Words(Pages(r)) && 32 * Words(Pages(r)) <= INT_MAX && Words(Pages(r)) <= r.size
    {
    }

    lemma Whole(n: int)
      requires n >= 0
      ensures CeilDiv(n * PAGE_SIZE, PAGE_SIZE) == n
    {
    }

    /** An address at the start of a page. */
    lemma PageOfAligned(a: u32)
      requires ram.addr % PAGE_SIZE == 0 && a % PAGE_SIZE == 0 && a >= ram.addr
      ensures a == ram.addr + PageOf(a) * PAGE_SIZE && PageOf(a) >= 0
    {
    }

    /** The search for a place for the bitmap, and the number of its words. */
    method FindHome() returns (place: u32, bitmapSize: nat)
      requires Layout(ram, kernStart, kernEnd)
      ensures bitmapSize == Words(Pages(ram)) && place == HomeFor(ram, kernStart, kernEnd, 4 * bitmapSize)
    {
      hide CeilDiv;
      var totalPages := ram.size / PAGE_SIZE;
      bitmapSize := CeilDiv(totalPages, WORD_SIZE);
      var bytes := 4 * bitmapSize;
      var regionEnd := ram.addr + ram.size;
      var nextBoundary := regionEnd;
      if kernStart >= ram.addr && kernStart < regionEnd {
        nextBoundary := kernStart;
      }
      place := 0;
      if nextBoundary - ram.addr >= bytes {
        place := ram.addr;
      } else if kernEnd < regionEnd && regionEnd - kernEnd >= bytes {
        place := kernEnd;
      }
    }

    /** pmm_borrow_pages */
    method Borrow(addr: u32, totalBytes: u32)
      requires Layout(ram, kernStart, kernEnd) && bitmap.Valid() && ram.addr <= addr < ram.addr + ram.size
      requires addr % PAGE_SIZE == 0 && totalBytes <= ram.size
      modifies bitmap`uncounted, bitmap.slots
      ensures bitmap.Valid()
      ensures forall t :: 0 <= t < 32 * bitmap.slotsSize ==>
                (IsUsed(bitmap.slots[..], t) <==>
                 PageOf(addr) <= t < PageOf(addr) + CeilDiv(totalBytes, PAGE_SIZE) || IsUsed(old(bitmap.slots[..]), t))
    {
      var rs := [ram];
      assert rs[1..] == [];
      var ppn := PhysicAddrToPpn(rs, addr);
      assert rs[0] == ram && rs[..0] == [];
      assert FirstHolds(rs, 0, PageBase(addr));
      var pages := CeilDiv(totalBytes, PAGE_SIZE);
      bitmap.MarkAsUsed(ppn, pages);
    }

    /**
     * pmm_allocate_page: the address of the lowest free page, or NULL (0). Slots behind the last page are
     * handed out as NULL, too.
     */
    method AllocatePage() returns (r: u32)
      requires Valid()
      modifies bitmap`freeSlotsCount, bitmap.slots
      ensures Valid()
      ensures r != 0 ==>
        var t := PageOf(r);
        && r % PAGE_SIZE == 0 && ram.addr <= r && r + PAGE_SIZE <= ram.addr + ram.size
        && (r + PAGE_SIZE <= kernStart || kernEnd <= r)
        && (Pages(ram) <= 32768 ==> (r + PAGE_SIZE <= home || home + 4 * Words(Pages(ram)) <= r))
        && LowestFree(old(bitmap.slots[..]), t) && bitmap.slots[..] == WithUsed(old(bitmap.slots[..]), t)
      ensures ram.addr != 0 ==> (r == 0 <==> forall t :: 0 <= t < Pages(ram) ==> IsUsed(old(bitmap.slots[..]), t))
    {
      hide CeilDiv, PageOf, Words, WithUsed, IsUsed;
      ghost var ws := bitmap.slots[..];
      WordsCover(Pages(ram));
      var slot := bitmap.AllocateSlot();
      if slot == -1 {
        return 0;
      }
      forall t | 0 <= t < 32 * |ws| ensures IsUsed(WithUsed(ws, slot), t) <==> t == slot || IsUsed(ws, t) {
        WithUsedMeans(ws, slot, t);
      }
      var rs := [ram];
      assert rs[1..] == [];
      r := FindPhysicalAddrOfPage(rs, slot);
      assert rs[0] == ram;
      if slot < Pages(ram) {
        PageIn(ram, slot);
        PageAddress(slot);
      }
    }

    lemma WordsCover(pages: nat)
      ensures pages <= 32 * Words(pages)
    {
    }

    /** A free page lies outside the kernel and, up to 128 MiB of RAM, outside the bitmap. */
    lemma PageAddress(t: nat)
      requires Layout(ram, kernStart, kernEnd) && t < Pages(ram) && ram.addr + t * PAGE_SIZE < TWO_32
      requires home == HomeFor(ram, kernStart, kernEnd, 4 * Words(Pages(ram)))
      requires !Reserved(t)
      ensures var r := ram.addr + t * PAGE_SIZE;
        && r % PAGE_SIZE == 0 && PageOf(r) == t
        && (r + PAGE_SIZE <= kernStart || kernEnd <= r)
        && (Pages(ram) <= 32768 && home != 0 ==> (r + PAGE_SIZE <= home || home + 4 * Words(Pages(ram)) <= r))
    {
      PageOfAligned(kernStart);
      PageOfAligned(kernEnd);
      BorrowExact(Pages(ram));
      if Pages(ram) <= 32768 {
        SmallBitmap(Pages(ram));
      }
      PageStart(t);
      hide PageOf, CeilDiv, Pages, Words;
      if home != 0 {
        HomeAligned();
        PageOfAligned(home);
      }
    }

    lemma SmallBitmap(pages: nat)
      requires pages <= 32768
      ensures 4 * Words(pages) <= PAGE_SIZE
    {
    }

    lemma HomeAligned()
      requires Layout(ram, kernStart, kernEnd) && home != 0
      requires home == HomeFor(ram, kernStart, kernEnd, 4 * Words(Pages(ram)))
      ensures home % PAGE_SIZE == 0 && home >= ram.addr
    {
    }

    lemma PageStart(t: nat)
      requires ram.addr % PAGE_SIZE == 0 && ram.addr + t * PAGE_SIZE < TWO_32
      ensures var r := ram.addr + t * PAGE_SIZE; r % PAGE_SIZE == 0 && PageOf(r) == t
    {
    }

    /** The addresses that a run of n calls of pmm_allocate_page returns from a state of the bitmap. */
    ghost function RunPages(ws: seq<u32>, n: nat): seq<nat> {
      var slots := Run(ws, n);
      seq(|slots|, i requires 0 <= i < |slots| => Found([ram], slots[i]))
    }

    /**
     * Every run returns distinct pages, lowest first, outside the kernel and, up to 128 MiB, outside the bitmap;
     * once NULL has come, only NULL follows.
     */
    lemma RunsAreSafe(n: nat)
      requires Valid() && ram.addr != 0
      ensures var ps := RunPages(bitmap.slots[..], n);
        && (forall i :: 0 <= i < |ps| && ps[i] != 0 ==>
              && ps[i] % PAGE_SIZE == 0 && ram.addr <= ps[i] && ps[i] + PAGE_SIZE <= ram.addr + ram.size
              && (ps[i] + PAGE_SIZE <= kernStart || kernEnd <= ps[i])
              && (Pages(ram) <= 32768 ==> (ps[i] + PAGE_SIZE <= home || home + 4 * Words(Pages(ram)) <= ps[i])))
        && (forall i, j :: 0 <= i < j < |ps| && ps[j] != 0 ==> ps[i] != 0 && ps[i] < ps[j])
    {
      var ws := bitmap.slots[..];
      var slots, ps := Run(ws, n), RunPages(ws, n);
      RunMeans(ws, n);
      forall i | 0 <= i < |ps| ensures ps[i] == if slots[i] < Pages(ram) then ram.addr + slots[i] * PAGE_SIZE else 0 {
        FoundOne(slots[i]);
      }
      forall i | 0 <= i < |ps| && ps[i] != 0
        ensures
          && ps[i] % PAGE_SIZE == 0 && ram.addr <= ps[i] && ps[i] + PAGE_SIZE <= ram.addr + ram.size
          && (ps[i] + PAGE_SIZE <= kernStart || kernEnd <= ps[i])
          && (Pages(ram) <= 32768 ==> (ps[i] + PAGE_SIZE <= home || home + 4 * Words(Pages(ram)) <= ps[i]))
      {
        assert !IsUsed(ws, slots[i]);
        PageIn(ram, slots[i]);
        PageAddress(slots[i]);
      }
    }

    lemma FoundOne(slot: nat)
      ensures Found([ram], slot) == if slot < Pages(ram) then ram.addr + slot * PAGE_SIZE else 0
    {
      assert [ram][1..] == [];
      assert Found([], slot) == 0;
    }
  }

  /**
   * 129 MiB of RAM, the kernel in its third page: the bitmap takes the first two pages, but the first page that
   * pmm_allocate_page hands out is the second of them.
   */
  method BitmapHandedOut(bitmap: Bitmap, slots: array<u32>) returns (a: Allocator, r: u32)
    requires slots.Length == Words(Pages(LARGE))
    modifies bitmap, slots
    ensures a.ram == LARGE && r != 0 && a.InBitmap(a.PageOf(r))
  {
    a := new Allocator(LARGE, 0x4000_2000, 0x4000_3000, bitmap);
    LargeWords();
    assert HomeFor(LARGE, 0x4000_2000, 0x4000_3000, 4 * Words(Pages(LARGE))) == 0x4000_0000;
    var ok := a.Init(slots);
    ghost var ws := a.bitmap.slots[..];
    assert a.Reserved(0) && !a.Reserved(1);
    assert IsUsed(ws, 0) && !IsUsed(ws, 1);
    r := a.AllocatePage();
  }

  const LARGE := Region(0x4000_0000, 0x810_0000)

  lemma LargeWords()
    ensures Words(Pages(LARGE)) == 1032
  {
  }
}
