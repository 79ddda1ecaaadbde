/** What fdt_resize and fdt_open_into mean for the trees in the buffers. */
module Views {
  import opened Bytes
  import opened Blob
  import opened Forests
  import opened Edits
  import opened Trees
  import opened Events
  import opened Reserve
  import opened Packing
  import opened Relocate
  import ReadWrite
  import SeqWrite

  /** The blob is the one at base in m. */
  ghost predicate View(fdt: Fdt, m: bytes, base: nat)
    reads fdt, fdt.mem
  {
    && base + 40 <= |m| && fdt.Hdr() == Hd(m, base)
    && 40 <= fdt.totalsize <= fdt.mem.Length && base + fdt.totalsize <= |m|
    && Block(fdt.mem[..], 40, fdt.totalsize - 40) == Block(m, base + 40, fdt.totalsize - 40)
  }

  /** A block of the blob behind the header. */
  lemma ViewBlock(fdt: Fdt, m: bytes, base: nat, off: nat, n: nat)
    requires View(fdt, m, base) && 40 <= off && off + n <= fdt.totalsize
    ensures fdt.totalsize <= |fdt.mem[..]| && base + fdt.totalsize <= |m|
    ensures Block(fdt.mem[..], off, n) == Block(m, base + off, n)
  {
    hide Block, Hd;
    BlockSplit(fdt.mem[..], 40, m, base + 40, fdt.totalsize - 40, off - 40, n);
  }

  /** The parts of an unfinished tree. */
  lemma UnfinishedParts(fdt: Fdt)
    requires SeqWrite.Unfinished(fdt)
    ensures var so, ts := fdt.offDtStruct, fdt.sizeDtStrings;
      && 48 <= so && so + fdt.sizeDtStruct + ts <= fdt.totalsize <= |fdt.mem[..]|
      && SeqWrite.Struct(fdt) == Block(fdt.mem[..], so, fdt.sizeDtStruct)
      && SeqWrite.Strings(fdt) == Block(fdt.mem[..], fdt.totalsize - ts, ts)
      && SeqWrite.Head(fdt) == Block(fdt.mem[..], 0, so)
  {
  }

  lemma ResizedUnfinished(x: Fdt, y: Fdt, a: bytes, fdt: nat, b: bytes, buf: nat, bufsize: nat)
    requires View(x, a, fdt) && View(y, b, buf) && Resized(a, fdt, b, buf, bufsize) && bufsize < INT_MAX
    requires SeqWrite.Unfinished(x)
    ensures SeqWrite.Unfinished(y) && y.offDtStruct == x.offDtStruct && y.lastCompVersion == x.lastCompVersion
    ensures y.sizeDtStruct == x.sizeDtStruct && y.sizeDtStrings == x.sizeDtStrings && y.totalsize == bufsize
    ensures (x.offDtStrings == 0 <==> y.offDtStrings == 0)
    ensures Block(b, buf + 40, x.offDtStruct + x.sizeDtStruct - 40) ==
              Block(a, fdt + 40, x.offDtStruct + x.sizeDtStruct - 40)
    ensures 0 <= fdt + x.totalsize - x.sizeDtStrings && fdt + x.totalsize <= |a| && buf + bufsize <= |b|
    ensures x.sizeDtStrings <= bufsize
    ensures Block(b, buf + bufsize - x.sizeDtStrings, x.sizeDtStrings)
            == Block(a, fdt + x.totalsize - x.sizeDtStrings, x.sizeDtStrings)
  {
    hide Hd, Block;
    assert y.Hdr() == x.Hdr().(totalsize := bufsize, offDtStrings := if x.offDtStrings == 0 then 0 else bufsize);
  }

  /** The unfinished tree in the new buffer: its structure, its strings, and its reserve map so far. */
  lemma ResizedParts(x: Fdt, y: Fdt, a: bytes, fdt: nat, b: bytes, buf: nat, bufsize: nat)
    requires View(x, a, fdt) && View(y, b, buf) && Resized(a, fdt, b, buf, bufsize) && bufsize < INT_MAX
    requires SeqWrite.Unfinished(x)
    ensures SeqWrite.Unfinished(y) && y.offDtStruct == x.offDtStruct && y.lastCompVersion == x.lastCompVersion
    ensures (x.offDtStrings == 0 <==> y.offDtStrings == 0)
    ensures SeqWrite.Struct(y) == SeqWrite.Struct(x) && SeqWrite.Strings(y) == SeqWrite.Strings(x)
    ensures |SeqWrite.Head(x)| == |SeqWrite.Head(y)| == x.offDtStruct >= 40
    ensures SeqWrite.Head(y)[40..] == SeqWrite.Head(x)[40..]
  {
    hide Block, View, Resized, SeqWrite.Struct, SeqWrite.Strings, SeqWrite.Head, SeqWrite.Unfinished;
    ResizedUnfinished(x, y, a, fdt, b, buf, bufsize);
    UnfinishedParts(x);
    UnfinishedParts(y);
    var so, ss, ts := x.offDtStruct, x.sizeDtStruct, x.sizeDtStrings;
    ViewBlock(x, a, fdt, so, ss);
    ViewBlock(y, b, buf, so, ss);
    ViewBlock(x, a, fdt, 40, so - 40);
    ViewBlock(y, b, buf, 40, so - 40);
    ViewBlock(x, a, fdt, x.totalsize - ts, ts);
    ViewBlock(y, b, buf, bufsize - ts, ts);
    BlockSplit(a, fdt + 40, b, buf + 40, so + ss - 40, so - 40, ss);
    BlockSplit(a, fdt + 40, b, buf + 40, so + ss - 40, 0, so - 40);
    BlockTail(x.mem[..], so, 40);
    BlockTail(y.mem[..], so, 40);
  }

  lemma BlockTail(m: bytes, n: nat, k: nat)
    requires k <= n <= |m|
    ensures Block(m, 0, n)[k..] == Block(m, k, n - k)
  {
  }

  /** fdt_resize keeps what has been written: the structure and the names. */
  lemma ResizedWritten(x: Fdt, y: Fdt, a: bytes, fdt: nat, b: bytes, buf: nat, bufsize: nat, es: seq<Event>)
    requires View(x, a, fdt) && View(y, b, buf) && Resized(a, fdt, b, buf, bufsize) && bufsize < INT_MAX
    requires SeqWrite.Written(x, es)
    ensures SeqWrite.Written(y, es)
    ensures SeqWrite.Struct(y) == SeqWrite.Struct(x) && SeqWrite.Strings(y) == SeqWrite.Strings(x)
  {
    hide Hd, Block, EventsAt, Place, SeqWrite.Struct, SeqWrite.Strings, SeqWrite.Head;
    ResizedParts(x, y, a, fdt, b, buf, bufsize);
  }

  /** While the reserve map is written, it keeps that. */
  lemma ResizedReserving(x: Fdt, y: Fdt, a: bytes, fdt: nat, b: bytes, buf: nat, bufsize: nat, rs: seq<Entry>)
    requires View(x, a, fdt) && View(y, b, buf) && Resized(a, fdt, b, buf, bufsize) && bufsize < INT_MAX
    requires SeqWrite.Reserving(x, rs)
    ensures SeqWrite.Reserving(y, rs)
  {
    hide Hd, Block, SeqWrite.Struct, SeqWrite.Strings, SeqWrite.Head, EntryAt;
    ResizedParts(x, y, a, fdt, b, buf, bufsize);
    var g, h := SeqWrite.Head(x), SeqWrite.Head(y);
    forall i | 0 <= i < |rs| ensures EntryAt(h, SeqWrite.HEADER_SIZE + 16 * i) == rs[i] {
      TailEntry(g, h, SeqWrite.HEADER_SIZE + 16 * i);
    }
  }

  lemma TailEntry(g: bytes, h: bytes, i: nat)
    requires |g| == |h| && 40 <= i && i + 16 <= |g| && g[40..] == h[40..]
    ensures EntryAt(g, i) == EntryAt(h, i)
  {
    forall k | i <= k < i + 16 ensures h[k] == g[k] {
      assert g[40..][k - 40] == h[40..][k - 40];
    }
    assert Same(g, i, h, i, 16);
    SameEntry(g, i, h, i, 16, 0);
  }

  /** The blocks of a tree whose blocks lie in it, in any order. */
  ghost predicate Whole(fdt: Fdt)
    reads fdt, fdt.mem
  {
    && fdt.InBounds() && 40 <= fdt.offMemRsvmap && 40 <= fdt.offDtStrings
    && Encodes(fdt.St(), fdt.forest) && Named(fdt.forest, fdt.Strs())
  }

  lemma WholeBlocks(fdt: Fdt)
    requires fdt.InBounds()
    ensures fdt.offDtStruct + fdt.sizeDtStruct <= |fdt.mem[..]| && fdt.offDtStrings + fdt.sizeDtStrings <= |fdt.mem[..]|
    ensures fdt.StructIn() && fdt.St() == Block(fdt.mem[..], fdt.offDtStruct, fdt.sizeDtStruct)
    ensures fdt.Strs() == Block(fdt.mem[..], fdt.offDtStrings, fdt.sizeDtStrings)
  {
  }

  /**
   * fdt_open_into keeps the tree and its reserve list, and leaves the blocks in order, so that the editors accept the
   * blob, even where they did not accept the old one.
   */
  lemma OpenedValid(x: Fdt, y: Fdt, a: bytes, fdt: nat, b: bytes, buf: nat, bufsize: nat)
    requires View(x, a, fdt) && View(y, b, buf) && Opened(a, fdt, b, buf, bufsize) && bufsize < INT_MAX
    requires Whole(x) && y.forest == x.forest
    ensures y.Valid() && ReadWrite.RwError(y.Hdr()) == 0
    ensures y.Tree() == Abs(x.forest, x.Strs())
    ensures Reserved(y) == Rsv(x.mem[..], x.offMemRsvmap, x.totalsize)
  {
    hide Block, Hd, Rsv, Encodes, Named, Abs, U32, Fdt.St, Fdt.Strs;
    var h, g, n := x.Hdr(), y.Hdr(), |RsvAt(a, fdt).value|;
    OpenedOrder(a, fdt, b, buf, bufsize);
    WholeBlocks(x);
    WholeBlocks(y);
    ViewBlock(x, a, fdt, x.offDtStruct, x.sizeDtStruct);
    ViewBlock(x, a, fdt, x.offDtStrings, x.sizeDtStrings);
    ViewBlock(y, b, buf, y.offDtStruct, y.sizeDtStruct);
    ViewBlock(y, b, buf, y.offDtStrings, y.sizeDtStrings);
    ReadWrite.RwErrorMeans(y);
    ViewRsv(x, a, fdt, n, x.totalsize);
    ViewRsv(y, b, buf, n, y.offDtStruct);
  }

  lemma OpenedOrder(a: bytes, fdt: nat, b: bytes, buf: nat, bufsize: nat)
    requires Opened(a, fdt, b, buf, bufsize)
    ensures buf + 40 <= |b| && fdt + 40 <= |a|
    ensures var g, n := Hd(b, buf), |RsvAt(a, fdt).value|;
      && 40 <= g.offMemRsvmap && g.offMemRsvmap + 16 * n + 16 <= g.offDtStruct
      && g.offDtStruct + g.sizeDtStruct <= g.offDtStrings && g.offDtStrings + g.sizeDtStrings <= g.totalsize
  {
    hide Hd, Rsv, Block;
    var g, h, n := Hd(b, buf), Hd(a, fdt), |RsvAt(a, fdt).value|;
    PlacesOfComplete(a, fdt);
  }

  /** The reserve list is read from the blob as from the memory. */
  lemma ViewRsv(fdt: Fdt, m: bytes, base: nat, n: nat, end: nat)
    requires View(fdt, m, base) && 40 <= fdt.offMemRsvmap && fdt.offMemRsvmap + 16 * n + 16 <= end <= fdt.totalsize
    requires RsvAt(m, base).Some? && |RsvAt(m, base).value| == n
    ensures Rsv(fdt.mem[..], fdt.offMemRsvmap, end) == RsvAt(m, base)
  {
    hide Hd, Block, Rsv;
    var off := fdt.offMemRsvmap;
    ViewBlock(fdt, m, base, off, 16 * n + 16);
    RsvOfBlock(m, base + off, base + fdt.totalsize, fdt.mem[..], off, end, n);
  }
}
