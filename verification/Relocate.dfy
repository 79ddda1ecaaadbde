/** Trees moved between buffers that may overlap: fdt_move, fdt_resize, fdt_open_into. */
module Relocate {
  // Old and new buffer are two places in one memory, and the headers are bytes of it.

  import opened Bytes
  import opened Tags
  import opened Blob
  import opened Forests
  import opened Edits
  import opened ReadWrite
  import opened Reserve
  import opened Packing
  import ReadOnly
  import Walk

  // ---------- Headers in memory ----------

  const TOTALSIZE := 1
  const OFF_DT_STRUCT := 2
  const OFF_DT_STRINGS := 3
  const OFF_MEM_RSVMAP := 4
  const VERSION := 5
  const BOOT_CPUID := 7
  const SIZE_DT_STRINGS := 8
  const SIZE_DT_STRUCT := 9
  const MAGIC := 0
  const LAST_COMP_VERSION := 6

  /** The header of the tree at base b. */
  function Hd(m: bytes, b: nat): Header
    requires b + 40 <= |m|
  {
    Header(Dec32(m, b), Dec32(m, b + 4), Dec32(m, b + 8), Dec32(m, b + 12), Dec32(m, b + 16),
           Dec32(m, b + 20), Dec32(m, b + 24), Dec32(m, b + 28), Dec32(m, b + 32), Dec32(m, b + 36))
  }

  /** h with its field number k set. */
  function WithField(h: Header, k: nat, v: u32): Header {
    if k == 0 then h.(magic := v)
    else if k == 1 then h.(totalsize := v)
    else if k == 2 then h.(offDtStruct := v)
    else if k == 3 then h.(offDtStrings := v)
    else if k == 4 then h.(offMemRsvmap := v)
    else if k == 5 then h.(version := v)
    else if k == 6 then h.(lastCompVersion := v)
    else if k == 7 then h.(bootCpuid := v)
    else if k == 8 then h.(sizeDtStrings := v)
    else h.(sizeDtStruct := v)
  }

  function FieldOf(h: Header, k: nat): u32 {
    if k == 0 then h.magic
    else if k == 1 then h.totalsize
    else if k == 2 then h.offDtStruct
    else if k == 3 then h.offDtStrings
    else if k == 4 then h.offMemRsvmap
    else if k == 5 then h.version
    else if k == 6 then h.lastCompVersion
    else if k == 7 then h.bootCpuid
    else if k == 8 then h.sizeDtStrings
    else h.sizeDtStruct
  }

  lemma FieldAt(m: bytes, b: nat, k: nat)
    requires b + 40 <= |m| && k < 10
    ensures FieldOf(Hd(m, b), k) == Dec32(m, b + 4 * k)
  {
    hide Dec32;
  }

  lemma FieldSet(a: bytes, b: bytes, base: nat, k: nat, v: u32)
    requires |a| == |b| && base + 40 <= |a| && k < 10 && Dec32(b, base + 4 * k) == v
    requires forall i {:trigger b[i]} :: 0 <= i < |b| && !(base + 4 * k <= i < base + 4 * k + 4) ==> b[i] == a[i]
    ensures Hd(b, base) == WithField(Hd(a, base), k, v)
  {
    forall j: nat | j < 10 && j != k ensures FieldOf(Hd(b, base), j) == FieldOf(Hd(a, base), j) {
      WordKept(a, b, base + 4 * j);
      FieldAt(a, base, j);
      FieldAt(b, base, j);
    }
    hide Dec32, Hd;
    FieldAt(b, base, k);
    SameFields(Hd(b, base), WithField(Hd(a, base), k, v), Hd(a, base), k);
  }

  lemma SameFields(g: Header, h: Header, was: Header, k: nat)
    requires k < 10 && h == WithField(was, k, FieldOf(g, k))
    requires forall j: nat :: j < 10 && j != k ==> FieldOf(g, j) == FieldOf(was, j)
    ensures g == h
  {
    assert forall j: nat :: j < 10 ==> FieldOf(g, j) == FieldOf(h, j);
    assert FieldOf(g, 0) == FieldOf(h, 0) && FieldOf(g, 1) == FieldOf(h, 1) && FieldOf(g, 2) == FieldOf(h, 2)
        && FieldOf(g, 3) == FieldOf(h, 3) && FieldOf(g, 4) == FieldOf(h, 4) && FieldOf(g, 5) == FieldOf(h, 5)
        && FieldOf(g, 6) == FieldOf(h, 6) && FieldOf(g, 7) == FieldOf(h, 7) && FieldOf(g, 8) == FieldOf(h, 8)
        && FieldOf(g, 9) == FieldOf(h, 9);
  }

  /** A header is determined by its 40 bytes. */
  lemma HdOfBlock(a: bytes, i: nat, b: bytes, j: nat)
    requires i + 40 <= |a| && j + 40 <= |b| && Block(a, i, 40) == Block(b, j, 40)
    ensures Hd(a, i) == Hd(b, j)
  {
    SameSlices(a, i, b, j, 40);
    hide Dec32;
    MoveWord(a, i, b, j, 40, 0);
    MoveWord(a, i, b, j, 40, 4);
    MoveWord(a, i, b, j, 40, 8);
    MoveWord(a, i, b, j, 40, 12);
    MoveWord(a, i, b, j, 40, 16);
    MoveWord(a, i, b, j, 40, 20);
    MoveWord(a, i, b, j, 40, 24);
    MoveWord(a, i, b, j, 40, 28);
    MoveWord(a, i, b, j, 40, 32);
    MoveWord(a, i, b, j, 40, 36);
  }

  method GetField(mem: array<byte>, b: nat, k: nat) returns (v: u32)
    requires b + 40 <= mem.Length && k < 10
    ensures v == FieldOf(Hd(mem[..], b), k)
  {
    hide Hd, Dec32, FieldOf;
    FieldAt(mem[..], b, k);
    v := Load32(mem, b + 4 * k);
  }

  method SetField(mem: array<byte>, b: nat, k: nat, v: u32)
    requires b + 40 <= mem.Length && k < 10
    modifies mem
    ensures Hd(mem[..], b) == WithField(old(Hd(mem[..], b)), k, v)
    ensures forall i: nat, m: nat :: i + m <= mem.Length && Disjoint(b + 4 * k, 4, i, m) ==>
              Block(mem[..], i, m) == old(Block(mem[..], i, m))
  {
    hide Hd, Dec32, Block, WithField;
    ghost var a := mem[..];
    Store32(mem, b + 4 * k, v);
    FieldSet(a, mem[..], b, k, v);
    forall i: nat, m: nat | i + m <= mem.Length && Disjoint(b + 4 * k, 4, i, m)
      ensures Block(mem[..], i, m) == Block(a, i, m) {
      KeptBlock(a, mem[..], b + 4 * k, 4, i, m);
    }
  }

  // ---------- fdt_resize ----------

  /** fdt_sw_probe_ */
  function SwError(h: Header): int {
    if h.magic == FDT_MAGIC then -BADSTATE
    else if h.magic != FDT_SW_MAGIC then -BADMAGIC
    else 0
  }

  /** The error of fdt_resize, or 0. */
  function ResizeError(h: Header, bufsize: int): int {
    var used := h.offDtStruct + h.sizeDtStruct + h.sizeDtStrings;
    if SwError(h) != 0 then SwError(h)
    else if bufsize < 0 then -NOSPACE
    else if used > h.totalsize then -INTERNAL
    else if used > bufsize then -NOSPACE
    else 0
  }

  /** The answer e of fdt_resize. */
  predicate ResizeAnswer(h: Header, bufsize: int, e: int) {
    var used := h.offDtStruct + h.sizeDtStruct + h.sizeDtStrings;
    && (e == 0 <==> h.magic == 0x2ff2_0112 && used <= h.totalsize && used <= bufsize)
    && (e == -BADSTATE <==> h.magic == 0xd00d_feed)
    && (e == -BADMAGIC <==> h.magic != 0xd00d_feed && h.magic != 0x2ff2_0112)
    && (e == -INTERNAL <==> h.magic == 0x2ff2_0112 && bufsize >= 0 && used > h.totalsize)
    && e in {0, -BADSTATE, -BADMAGIC, -INTERNAL, -NOSPACE}
  }

  /** When fdt_resize succeeds, and why it fails. */
  lemma ResizeErrorExact(h: Header, bufsize: int)
    ensures ResizeAnswer(h, bufsize, ResizeError(h, bufsize))
  {
  }

  /** Splitting a block off the front of a block. */
  lemma BlockSplit(a: bytes, i: nat, b: bytes, j: nat, n: nat, x: nat, m: nat)
    requires i + n <= |a| && j + n <= |b| && Block(a, i, n) == Block(b, j, n) && x + m <= n
    ensures Block(a, i + x, m) == Block(b, j + x, m)
  {
    SameSlices(a, i, b, j, n);
    SameShorter(a, i, b, j, n, x, m);
    SameSlices(a, i + x, b, j + x, m);
  }

  /**
   * The two moves of fdt_resize: the order is chosen so that neither move destroys what the other
   * still has to read, however the two buffers overlap.
   */
  method MoveEnds(mem: array<byte>, fdt: nat, totalsize: nat, buf: nat, bufsize: nat, headsize: nat, tailsize: nat)
    requires fdt + totalsize <= mem.Length && buf + bufsize <= mem.Length
    requires headsize + tailsize <= totalsize && headsize + tailsize <= bufsize
    modifies mem
    ensures Block(mem[..], buf, headsize) == old(Block(mem[..], fdt, headsize))
    ensures Block(mem[..], buf + bufsize - tailsize, tailsize) ==
              old(Block(mem[..], fdt + totalsize - tailsize, tailsize))
    ensures forall i: nat, m: nat :: i + m <= mem.Length && Disjoint(buf, bufsize, i, m) ==>
              Block(mem[..], i, m) == old(Block(mem[..], i, m))
  {
    hide Block;
    var oldtail := fdt + totalsize - tailsize;
    var newtail := buf + bufsize - tailsize;
    if buf <= fdt {
      MoveBlock(mem, buf, fdt, headsize);
      MoveBlock(mem, newtail, oldtail, tailsize);
    } else {
      MoveBlock(mem, newtail, oldtail, tailsize);
      MoveBlock(mem, buf, fdt, headsize);
    }
  }

  /** The unfinished tree at buf in b is the one at fdt in a: header, reserve map, structure and strings so far. */
  ghost predicate Resized(a: bytes, fdt: nat, b: bytes, buf: nat, bufsize: nat) {
    && fdt + 40 <= |a| && buf + 40 <= |b| && bufsize <= INT_MAX
    && var h := Hd(a, fdt);
       var head := h.offDtStruct + h.sizeDtStruct;
       && 40 <= head && head + h.sizeDtStrings <= h.totalsize && fdt + h.totalsize <= |a|
       && head + h.sizeDtStrings <= bufsize && buf + bufsize <= |b|
       && Hd(b, buf) == h.(totalsize := bufsize, offDtStrings := if h.offDtStrings == 0 then 0 else bufsize)
       && Block(b, buf + 40, head - 40) == Block(a, fdt + 40, head - 40)
       && Block(b, buf + bufsize - h.sizeDtStrings, h.sizeDtStrings)
          == Block(a, fdt + h.totalsize - h.sizeDtStrings, h.sizeDtStrings)
  }

  /**
   * fdt_resize on an unfinished tree: the header, the reserve map and structure so far, and the
   * strings at the end of the buffer are those of the old tree, whatever the overlap.
   */
  method Resize(mem: array<byte>, fdt: nat, buf: nat, bufsize: int) returns (err: int)
    requires fdt + 40 <= mem.Length && bufsize <= INT_MAX
    requires var h := Hd(mem[..], fdt);
      SwError(h) == 0 ==>
        fdt + h.totalsize <= mem.Length && 40 <= h.offDtStruct &&
          h.offDtStruct + h.sizeDtStruct + h.sizeDtStrings < TWO_32
    requires bufsize >= 0 ==> buf + bufsize <= mem.Length
    modifies mem
    ensures err == ResizeError(old(Hd(mem[..], fdt)), bufsize)
    ensures ResizeAnswer(old(Hd(mem[..], fdt)), bufsize, err)
    ensures err != 0 ==> mem[..] == old(mem[..])
    ensures err == 0 ==> bufsize >= 0 && Resized(old(mem[..]), fdt, mem[..], buf, bufsize)
    ensures err == 0 ==>
      forall i: nat, m: nat :: i + m <= mem.Length && Disjoint(buf, bufsize, i, m) ==>
        Block(mem[..], i, m) == old(Block(mem[..], i, m))
  {
    hide Hd, Block, U32, ResizeAnswer;
    ghost var a := mem[..];
    ghost var h := Hd(mem[..], fdt);
    ResizeErrorExact(h, bufsize);
    var magic := GetField(mem, fdt, MAGIC);
    if magic == FDT_MAGIC {
      return -BADSTATE;
    } else if magic != FDT_SW_MAGIC {
      return -BADMAGIC;
    }
    if bufsize < 0 {
      return -NOSPACE;
    }
    var so := GetField(mem, fdt, OFF_DT_STRUCT);
    var ss := GetField(mem, fdt, SIZE_DT_STRUCT);
    var tailsize := GetField(mem, fdt, SIZE_DT_STRINGS);
    var total := GetField(mem, fdt, TOTALSIZE);
    U32Id(so + ss);
    U32Id(so + ss + tailsize);
    var headsize := U32(so + ss);
    if U32(headsize + tailsize) > total {
      return -INTERNAL;
    }
    if U32(headsize + tailsize) > bufsize {
      return -NOSPACE;
    }
    MoveEnds(mem, fdt, total, buf, bufsize, headsize, tailsize);
    BlockSplit(a, fdt, mem[..], buf, headsize, 0, 40);
    BlockSplit(a, fdt, mem[..], buf, headsize, 40, headsize - 40);
    HdOfBlock(a, fdt, mem[..], buf);
    SetField(mem, buf, TOTALSIZE, bufsize);
    var strings := GetField(mem, buf, OFF_DT_STRINGS);
    if strings != 0 {
      SetField(mem, buf, OFF_DT_STRINGS, bufsize);
    }
    err := 0;
  }

  // ---------- fdt_open_into ----------

  /** fdt_ro_probe_ on a header in memory: its error, or totalsize. */
  method ProbeAt(mem: array<byte>, fdt: nat) returns (r: int)
    requires fdt + 40 <= mem.Length
    ensures var h := Hd(mem[..], fdt); r == if ReadOnly.RoError(h) != 0 then ReadOnly.RoError(h) else h.totalsize
  {
    hide Hd;
    var magic := GetField(mem, fdt, MAGIC);
    var totalsize := GetField(mem, fdt, TOTALSIZE);
    if magic == FDT_MAGIC {
      var version := GetField(mem, fdt, VERSION);
      if version < FDT_FIRST_SUPPORTED_VERSION {
        return -BADVERSION;
      }
      var last := GetField(mem, fdt, LAST_COMP_VERSION);
      if last > FDT_LAST_SUPPORTED_VERSION {
        return -BADVERSION;
      }
    } else if magic == FDT_SW_MAGIC {
      var size := GetField(mem, fdt, SIZE_DT_STRUCT);
      if size == 0 {
        return -BADSTATE;
      }
    } else {
      return -BADMAGIC;
    }
    if totalsize < INT_MAX {
      return totalsize;
    }
    return -TRUNCATED;
  }

  /** fdt_move */
  method Move(mem: array<byte>, fdt: nat, buf: nat, bufsize: int) returns (err: int)
    requires fdt + 40 <= mem.Length && bufsize <= INT_MAX
    requires var h := Hd(mem[..], fdt); ReadOnly.RoError(h) == 0 ==> fdt + h.totalsize <= mem.Length
    requires bufsize >= 0 ==> buf + bufsize <= mem.Length
    modifies mem
    ensures var h := old(Hd(mem[..], fdt));
      err == if bufsize < 0 then -NOSPACE
             else if ReadOnly.RoError(h) != 0 then ReadOnly.RoError(h)
             else if h.totalsize > bufsize then -NOSPACE else 0
    ensures err != 0 ==> mem[..] == old(mem[..])
    ensures err == 0 ==>
      var total := old(Hd(mem[..], fdt)).totalsize;
      buf + total <= mem.Length && Block(mem[..], buf, total) == old(Block(mem[..], fdt, total))
    ensures bufsize >= 0 ==>
              forall i: nat, m: nat :: i + m <= mem.Length && Disjoint(buf, bufsize, i, m) ==>
                Block(mem[..], i, m) == old(Block(mem[..], i, m))
  {
    hide Hd, Block;
    if bufsize < 0 {
      return -NOSPACE;
    }
    err := ProbeAt(mem, fdt);
    if err < 0 {
      return;
    }
    var total := GetField(mem, fdt, TOTALSIZE);
    if total > bufsize {
      return -NOSPACE;
    }
    MoveBlock(mem, buf, fdt, total);
    err := 0;
  }

  /** The blocks of the tree with header h at base b, its reserve map of n entries. */
  function PlacesAt(b: nat, h: Header, n: nat): Places {
    Places(b + h.offMemRsvmap, 16 * n + 16, b + h.offDtStruct, h.sizeDtStruct, b + h.offDtStrings, h.sizeDtStrings)
  }

  /** The header and the blocks, one behind the other. */
  function PackedSize(p: Places): nat {
    FDT_V17_SIZE + p.rsvSize + p.stSize + p.strsSize
  }

  /** h with the blocks p packed. */
  function PackedHeader(h: Header, p: Places): Header
    requires PackedSize(p) <= INT_MAX
  {
    h.(offMemRsvmap := FDT_V17_SIZE, offDtStruct := FDT_V17_SIZE + p.rsvSize, sizeDtStruct := p.stSize,
       offDtStrings := FDT_V17_SIZE + p.rsvSize + p.stSize, sizeDtStrings := p.strsSize)
  }

  /** The blocks at p, packed behind the header at newb. */
  ghost predicate PackedFrom(a: bytes, p: Places, b: bytes, newb: nat) {
    var q := PackedAt(newb, p);
    && PlacesIn(p, |a|) && PlacesIn(q, |b|)
    && Block(b, q.rsv, q.rsvSize) == Block(a, p.rsv, p.rsvSize)
    && Block(b, q.st, q.stSize) == Block(a, p.st, p.stSize)
    && Block(b, q.strs, q.strsSize) == Block(a, p.strs, p.strsSize)
  }

  /** One move of fdt_packblocks_, and the offset of the block in the new header. */
  method PackBlock(mem: array<byte>, newb: nat, dst: nat, src: nat, n: nat, k: nat)
    requires newb + 40 <= dst && dst + n <= mem.Length && src + n <= mem.Length && k < 10 && dst - newb <= INT_MAX
    modifies mem
    ensures Block(mem[..], dst, n) == old(Block(mem[..], src, n))
    ensures Hd(mem[..], newb) == WithField(old(Hd(mem[..], newb)), k, dst - newb)
    ensures forall i: nat, m: nat :: i + m <= mem.Length && Disjoint(newb, 40, i, m) && Disjoint(dst, n, i, m) ==>
              Block(mem[..], i, m) == old(Block(mem[..], i, m))
  {
    hide Block, Hd, WithField;
    ghost var a := mem[..];
    MoveBlock(mem, dst, src, n);
    HdOfBlock(a, newb, mem[..], newb);
    SetField(mem, newb, k, dst - newb);
  }

  /** fdt_packblocks_ into a buffer that has no byte in common with the old tree. */
  method PackInto(mem: array<byte>, p: Places, newb: nat)
    requires PlacesIn(p, mem.Length) && newb + PackedSize(p) <= mem.Length && PackedSize(p) <= INT_MAX
    requires Disjoint(newb, PackedSize(p), p.rsv, p.rsvSize)
    requires Disjoint(newb, PackedSize(p), p.st, p.stSize)
    requires Disjoint(newb, PackedSize(p), p.strs, p.strsSize)
    modifies mem
    ensures PackedFrom(old(mem[..]), p, mem[..], newb)
    ensures Hd(mem[..], newb) == PackedHeader(old(Hd(mem[..], newb)), p)
    ensures forall i: nat, m: nat :: i + m <= mem.Length && Disjoint(newb, PackedSize(p), i, m) ==>
              Block(mem[..], i, m) == old(Block(mem[..], i, m))
  {
    hide Block, Hd;
    var q := PackedAt(newb, p);
    PackBlock(mem, newb, q.rsv, p.rsv, p.rsvSize, OFF_MEM_RSVMAP);
    PackBlock(mem, newb, q.st, p.st, p.stSize, OFF_DT_STRUCT);
    SetField(mem, newb, SIZE_DT_STRUCT, p.stSize);
    PackBlock(mem, newb, q.strs, p.strs, p.strsSize, OFF_DT_STRINGS);
    SetField(mem, newb, SIZE_DT_STRINGS, p.strsSize);
  }

  /** The length of the reserve list of the tree at fdt. */
  function RsvAt(m: bytes, fdt: nat): Walk.Option<seq<Entry>>
    requires fdt + 40 <= |m| && fdt + Hd(m, fdt).totalsize <= |m|
  {
    Rsv(m, fdt + Hd(m, fdt).offMemRsvmap, fdt + Hd(m, fdt).totalsize)
  }

  /** A tree of version 17 whose blocks lie in it. */
  ghost predicate Complete(m: bytes, fdt: nat) {
    && fdt + 40 <= |m|
    && var h := Hd(m, fdt);
       && ReadOnly.RoError(h) == 0 && h.version >= 17
       && 40 <= h.totalsize && fdt + h.totalsize <= |m|
       && h.offDtStruct + h.sizeDtStruct <= h.totalsize
       && h.offDtStrings + h.sizeDtStrings <= h.totalsize
       && (RsvAt(m, fdt).Some? ==>
           FDT_V17_SIZE + 16 * |RsvAt(m, fdt).value| + 16 + h.sizeDtStruct + h.sizeDtStrings <= INT_MAX)
  }

  /** The error of fdt_open_into on a complete tree, or 0. */
  ghost function OpenError(m: bytes, fdt: nat, buf: nat, bufsize: int): int
    requires Complete(m, fdt)
  {
    var h := Hd(m, fdt);
    if RsvAt(m, fdt).None? then -TRUNCATED
    else
      var p := PlacesAt(fdt, h, |RsvAt(m, fdt).value|);
      var newsize := PackedSize(p);
      if !Misordered(h, p.rsvSize, p.stSize) then if h.totalsize > bufsize then -NOSPACE else 0
      else if newsize > bufsize then -NOSPACE
      else if !Disjoint(buf, newsize, fdt, h.totalsize) && fdt + h.totalsize + newsize > buf + bufsize then -NOSPACE
      else 0
  }

  /**
   * The answer e of fdt_open_into on a complete tree: TRUNCATED when the reserve map does not end in the blob;
   * otherwise
   * it is a matter of room. Blocks in order need room for the old blob, others for their packed size, and if that would
   * overlap the old blob, behind it.
   */
  ghost predicate OpenAnswer(m: bytes, fdt: nat, buf: nat, bufsize: int, e: int)
    requires fdt + 40 <= |m|
  {
    var h := Hd(m, fdt);
    var rsv, end := fdt + h.offMemRsvmap, fdt + h.totalsize;
    && e in {0, -TRUNCATED, -NOSPACE}
    && (e == -TRUNCATED <==> forall n: nat :: !EndsAt(m, rsv, end, n))
    && forall n: nat :: EndsAt(m, rsv, end, n) && (forall k: nat :: k < n ==> !EndsAt(m, rsv, end, k)) ==>
         var size := 40 + 16 * n + 16 + h.sizeDtStruct + h.sizeDtStrings;
         var ordered :=
           && 40 <= h.offMemRsvmap && h.offMemRsvmap + 16 * n + 16 <= h.offDtStruct
           && h.offDtStruct + h.sizeDtStruct <= h.offDtStrings
           && h.offDtStrings + h.sizeDtStrings <= h.totalsize;
         && (ordered ==> (e == 0 <==> h.totalsize <= bufsize))
         && (!ordered ==>
               (e == 0 <==>
                  size <= bufsize && (buf + size <= fdt || end <= buf || end + size <= buf + bufsize)))
  }

  /** When fdt_open_into succeeds, and why it fails. */
  lemma OpenErrorExact(m: bytes, fdt: nat, buf: nat, bufsize: int)
    requires Complete(m, fdt)
    ensures OpenAnswer(m, fdt, buf, bufsize, OpenError(m, fdt, buf, bufsize))
  {
    hide Hd, Rsv, EndsAt, Misordered, PackedSize, Disjoint;
    var h := Hd(m, fdt);
    var rsv, end := fdt + h.offMemRsvmap, fdt + h.totalsize;
    RsvExact(m, rsv, end);
    if RsvAt(m, fdt).Some? {
      OpenRoom(m, fdt, buf, bufsize);
      var l := |RsvAt(m, fdt).value|;
      forall n: nat | EndsAt(m, rsv, end, n) && (forall k: nat :: k < n ==> !EndsAt(m, rsv, end, k)) ensures n == l {
        assert !(n < l) && !(l < n);
      }
    }
  }

  lemma OpenRoom(m: bytes, fdt: nat, buf: nat, bufsize: int)
    requires Complete(m, fdt) && RsvAt(m, fdt).Some?
    ensures
      var h, n, e := Hd(m, fdt), |RsvAt(m, fdt).value|, OpenError(m, fdt, buf, bufsize);
      var size := 40 + 16 * n + 16 + h.sizeDtStruct + h.sizeDtStrings;
      var end := fdt + h.totalsize;
      var ordered :=
        && 40 <= h.offMemRsvmap && h.offMemRsvmap + 16 * n + 16 <= h.offDtStruct
        && h.offDtStruct + h.sizeDtStruct <= h.offDtStrings
        && h.offDtStrings + h.sizeDtStrings <= h.totalsize;
      && e in {0, -NOSPACE}
      && (ordered ==> (e == 0 <==> h.totalsize <= bufsize))
      && (!ordered ==>
            (e == 0 <==>
               size <= bufsize && (buf + size <= fdt || end <= buf || end + size <= buf + bufsize)))
  {
    hide Hd, RsvAt, Complete, U32;
    PlacesOfComplete(m, fdt);
    var h, n := Hd(m, fdt), |RsvAt(m, fdt).value|;
    U32Id(h.offMemRsvmap + 16 * n + 16);
    U32Id(h.offDtStruct + h.sizeDtStruct);
    U32Id(h.offDtStrings + h.sizeDtStrings);
  }

  /**
   * When fdt_open_into keeps the boot CPU: the blocks are in order, or the new tree does not cover
   * that field of the old one.
   */
  ghost predicate BootSafe(m: bytes, fdt: nat, buf: nat)
    requires Complete(m, fdt)
  {
    RsvAt(m, fdt).Some? &&
    var h := Hd(m, fdt);
    var p := PlacesAt(fdt, h, |RsvAt(m, fdt).value|);
    !Misordered(h, p.rsvSize, p.stSize) || Disjoint(buf, PackedSize(p), fdt + 28, 4)
  }

  /** What fdt_open_into needs of the buffers when it does not fail. */
  ghost predicate CanOpen(m: bytes, fdt: nat, buf: nat, bufsize: int) {
    Complete(m, fdt) && OpenError(m, fdt, buf, bufsize) == 0 && 0 <= bufsize <= INT_MAX && buf + bufsize <= |m|
  }

  /** The blocks in the order reserve map, structure, strings, all in the tree. */
  predicate InOrder(h: Header, rsvSize: nat) {
    && FDT_V17_SIZE <= h.offMemRsvmap && h.offMemRsvmap + rsvSize <= h.offDtStruct
    && h.offDtStruct + h.sizeDtStruct <= h.offDtStrings && h.offDtStrings + h.sizeDtStrings <= h.totalsize
  }

  /**
   * The tree at buf in b is the one at fdt in a: the same reserve entries, structure and strings, the blocks in order.
   */
  ghost predicate Opened(a: bytes, fdt: nat, b: bytes, buf: nat, bufsize: nat) {
    && Complete(a, fdt) && RsvAt(a, fdt).Some? && buf + 40 <= |b| && buf + bufsize <= |b|
    && var h := Hd(a, fdt);
       var g := Hd(b, buf);
       var p := PlacesAt(fdt, h, |RsvAt(a, fdt).value|);
       var q := PlacesAt(buf, g, |RsvAt(a, fdt).value|);
       && g.version == 17 && g.totalsize == bufsize
       && (h.magic == FDT_MAGIC ==> g.magic == FDT_MAGIC && g.lastCompVersion <= FDT_LAST_SUPPORTED_VERSION)
       && g.sizeDtStruct == h.sizeDtStruct && g.sizeDtStrings == h.sizeDtStrings
       && InOrder(g, p.rsvSize)
       && RsvAt(b, buf) == RsvAt(a, fdt)
       && PlacesIn(p, |a|) && PlacesIn(q, |b|)
       && Block(b, q.st, q.stSize) == Block(a, p.st, p.stSize)
       && Block(b, q.strs, q.strsSize) == Block(a, p.strs, p.strsSize)
  }

  lemma PlacesOfComplete(m: bytes, fdt: nat)
    requires Complete(m, fdt) && RsvAt(m, fdt).Some?
    ensures fdt + 40 <= |m| && PlacesIn(PlacesAt(fdt, Hd(m, fdt), |RsvAt(m, fdt).value|), |m|)
    ensures var h := Hd(m, fdt);
      && h.offMemRsvmap + 16 * |RsvAt(m, fdt).value| + 16 <= h.totalsize
      && h.offDtStruct + h.sizeDtStruct <= h.totalsize && h.offDtStrings + h.sizeDtStrings <= h.totalsize
      && PackedSize(PlacesAt(fdt, h, |RsvAt(m, fdt).value|)) <= INT_MAX
      && 40 <= h.totalsize < INT_MAX && fdt + h.totalsize <= |m|
  {
    hide Hd;
  }

  lemma WholeOpened(a: bytes, fdt: nat, b: bytes, buf: nat, bufsize: nat)
    requires Complete(a, fdt) && RsvAt(a, fdt).Some?
    requires var h := Hd(a, fdt);
      && h.totalsize <= bufsize <= INT_MAX && buf + bufsize <= |b|
      && Block(a, fdt + 40, h.totalsize - 40) == Block(b, buf + 40, h.totalsize - 40)
      && !Misordered(h, 16 * |RsvAt(a, fdt).value| + 16, h.sizeDtStruct)
      && Hd(b, buf) == h.(version := 17, totalsize := bufsize)
    ensures Opened(a, fdt, b, buf, bufsize)
  {
    hide Hd, Block, Rsv, U32;
    var h, n := Hd(a, fdt), |RsvAt(a, fdt).value|;
    var off := h.offMemRsvmap;
    PlacesOfComplete(a, fdt);
    U32Id(off + 16 * n + 16);
    U32Id(h.offDtStruct + h.sizeDtStruct);
    U32Id(h.offDtStrings + h.sizeDtStrings);
    var m := h.totalsize - 40;
    BlockSplit(a, fdt + 40, b, buf + 40, m, off - 40, 16 * n + 16);
    BlockSplit(a, fdt + 40, b, buf + 40, m, h.offDtStruct - 40, h.sizeDtStruct);
    BlockSplit(a, fdt + 40, b, buf + 40, m, h.offDtStrings - 40, h.sizeDtStrings);
    RsvOfBlock(a, fdt + off, fdt + h.totalsize, b, buf + off, buf + bufsize, n);
  }

  lemma PackedOpened(a: bytes, fdt: nat, b: bytes, newb: nat, c: bytes, buf: nat, bufsize: nat)
    requires Complete(a, fdt) && RsvAt(a, fdt).Some? && newb + 40 <= |b|
    requires var p := PlacesAt(fdt, Hd(a, fdt), |RsvAt(a, fdt).value|);
      && PackedSize(p) <= bufsize <= INT_MAX && buf + bufsize <= |c| && newb + PackedSize(p) <= |b|
      && PackedFrom(a, p, b, newb)
      && Block(c, buf + 40, PackedSize(p) - 40) == Block(b, newb + 40, PackedSize(p) - 40)
      && PackedHeader(Hd(c, buf), p) == Hd(c, buf) && Hd(c, buf).version == 17 && Hd(c, buf).totalsize == bufsize
      && Hd(c, buf).magic == FDT_MAGIC && Hd(c, buf).lastCompVersion == 16
    ensures Opened(a, fdt, c, buf, bufsize)
  {
    hide Hd, Block, Rsv, U32;
    var h, n := Hd(a, fdt), |RsvAt(a, fdt).value|;
    PlacesOfComplete(a, fdt);
    var p := PlacesAt(fdt, h, n);
    var q, m := PackedAt(newb, p), PackedSize(p) - 40;
    BlockSplit(b, newb + 40, c, buf + 40, m, 0, p.rsvSize);
    BlockSplit(b, newb + 40, c, buf + 40, m, p.rsvSize, p.stSize);
    BlockSplit(b, newb + 40, c, buf + 40, m, p.rsvSize + p.stSize, p.strsSize);
    RsvOfBlock(a, p.rsv, fdt + h.totalsize, c, buf + 40, buf + bufsize, n);
    U32Id(40 + p.rsvSize);
    U32Id(40 + p.rsvSize + p.stSize);
    U32Id(40 + p.rsvSize + p.stSize + p.strsSize);
  }

  /** fdt_open_into for a tree with its blocks in order: it is moved as it is. */
  method OpenOrdered(mem: array<byte>, fdt: nat, buf: nat, bufsize: int, structSize: u32) returns (err: int)
    requires Complete(mem[..], fdt) && RsvAt(mem[..], fdt).Some? && bufsize <= INT_MAX
    requires bufsize >= 0 ==> buf + bufsize <= mem.Length
    requires var h := Hd(mem[..], fdt);
      structSize == h.sizeDtStruct && !Misordered(h, 16 * |RsvAt(mem[..], fdt).value| + 16, structSize)
    modifies mem
    ensures err == if old(Hd(mem[..], fdt)).totalsize > bufsize then -NOSPACE else 0
    ensures err != 0 ==> mem[..] == old(mem[..])
    ensures err == 0 ==>
              (Opened(old(mem[..]), fdt, mem[..], buf, bufsize) &&
               Hd(mem[..], buf) == old(Hd(mem[..], fdt)).(version := 17, totalsize := bufsize))
    ensures bufsize >= 0 ==>
              forall i: nat, m: nat :: i + m <= mem.Length && Disjoint(buf, bufsize, i, m) ==>
                Block(mem[..], i, m) == old(Block(mem[..], i, m))
  {
    hide Hd, Block, Opened, Misordered;
    ghost var a := mem[..];
    ghost var total := Hd(a, fdt).totalsize;
    err := Move(mem, fdt, buf, bufsize);
    if err != 0 {
      return;
    }
    BlockSplit(a, fdt, mem[..], buf, total, 0, 40);
    HdOfBlock(a, fdt, mem[..], buf);
    BlockSplit(a, fdt, mem[..], buf, total, 40, total - 40);
    SetField(mem, buf, VERSION, 17);
    SetField(mem, buf, SIZE_DT_STRUCT, structSize);
    SetField(mem, buf, TOTALSIZE, bufsize);
    WholeOpened(a, fdt, mem[..], buf, bufsize);
  }

  /** The header updates at the end of fdt_open_into, up to the boot CPU. */
  method FinishHeader(mem: array<byte>, buf: nat, bufsize: nat)
    requires buf + 40 <= mem.Length && bufsize <= INT_MAX
    modifies mem
    ensures Hd(mem[..], buf) ==
            old(Hd(mem[..], buf)).(magic := FDT_MAGIC, totalsize := bufsize, version := 17, lastCompVersion := 16)
    ensures forall i: nat, m: nat :: i + m <= mem.Length && Disjoint(buf, 40, i, m) ==>
              Block(mem[..], i, m) == old(Block(mem[..], i, m))
  {
    hide Hd, Block, Dec32;
    SetField(mem, buf, MAGIC, FDT_MAGIC);
    SetField(mem, buf, TOTALSIZE, bufsize);
    SetField(mem, buf, VERSION, 17);
    SetField(mem, buf, LAST_COMP_VERSION, 16);
  }

  /** The boot CPU is copied from the old place to the new one. */
  method CopyBoot(mem: array<byte>, fdt: nat, buf: nat)
    requires buf + 40 <= mem.Length && fdt + 40 <= mem.Length
    modifies mem
    ensures Hd(mem[..], buf) == old(Hd(mem[..], buf)).(bootCpuid := old(Dec32(mem[..], fdt + 28)))
    ensures Disjoint(buf + 28, 4, fdt + 28, 4) ==> Hd(mem[..], buf).bootCpuid == Dec32(mem[..], fdt + 28)
    ensures forall i: nat, m: nat :: i + m <= mem.Length && Disjoint(buf, 40, i, m) ==>
              Block(mem[..], i, m) == old(Block(mem[..], i, m))
    ensures Block(mem[..], buf + 32, 8) == old(Block(mem[..], buf + 32, 8))
  {
    hide Hd, Block, Dec32;
    ghost var a := mem[..];
    var boot := GetField(mem, fdt, BOOT_CPUID);
    FieldAt(a, fdt, BOOT_CPUID);
    SetField(mem, buf, BOOT_CPUID, boot);
    if Disjoint(buf + 28, 4, fdt + 28, 4) {
      WordOfBlock(a, mem[..], fdt + 28);
    }
  }

  lemma WordOfBlock(a: bytes, b: bytes, i: nat)
    requires i + 4 <= |a| && i + 4 <= |b| && Block(a, i, 4) == Block(b, i, 4)
    ensures Dec32(a, i) == Dec32(b, i)
  {
    SameSlices(a, i, b, i, 4);
    MoveWord(a, i, b, i, 4, 0);
  }

  /** The bytes of a header. */
  function HeaderBytes(h: Header): (r: bytes)
    ensures |r| == 40
  {
    Enc32(h.magic) + Enc32(h.totalsize) + Enc32(h.offDtStruct) + Enc32(h.offDtStrings) + Enc32(h.offMemRsvmap) +
    Enc32(h.version) + Enc32(h.lastCompVersion) + Enc32(h.bootCpuid) + Enc32(h.sizeDtStrings) + Enc32(h.sizeDtStruct)
  }

  /** A header in memory is made up of its bytes. */
  lemma HdBytes(m: bytes, b: nat, h: Header)
    requires b + 40 <= |m|
    ensures Block(m, b, 40) == HeaderBytes(h) ==> Hd(m, b) == h
    ensures Hd(m, b) == h ==> Block(m, b, 40) == HeaderBytes(h)
  {
    hide Dec32, Enc32;
    forall k: nat | k < 10
      ensures m[b + 4 * k..b + 4 * k + 4] == Enc32(FieldOf(h, k)) <==> Dec32(m, b + 4 * k) == FieldOf(h, k) {
      DecAt(m, b + 4 * k, FieldOf(h, k));
    }
    forall k: nat | k < 10 ensures HeaderBytes(h)[4 * k..4 * k + 4] == Enc32(FieldOf(h, k)) {
      HeaderWord(h, k);
    }
    forall k: nat | k < 10 ensures Block(m, b, 40)[4 * k..4 * k + 4] == m[b + 4 * k..b + 4 * k + 4] {
      SliceInBlock(m, b, 40, 4 * k, 4);
    }
    if Block(m, b, 40) == HeaderBytes(h) {
      forall k: nat | k < 10 ensures FieldOf(Hd(m, b), k) == FieldOf(h, k) {
        FieldAt(m, b, k);
        assert Block(m, b, 40)[4 * k..4 * k + 4] == HeaderBytes(h)[4 * k..4 * k + 4];
      }
      SameFields(Hd(m, b), h, h, 0);
    }
    if Hd(m, b) == h {
      forall k: nat | k < 10 ensures Block(m, b, 40)[4 * k..4 * k + 4] == HeaderBytes(h)[4 * k..4 * k + 4] {
        FieldAt(m, b, k);
      }
      WordsEqual(Block(m, b, 40), HeaderBytes(h));
    }
  }

  lemma SliceInBlock(m: bytes, b: nat, n: nat, x: nat, y: nat)
    requires b + n <= |m| && x + y <= n
    ensures Block(m, b, n)[x..x + y] == m[b + x..b + x + y]
  {
    var u, v := Block(m, b, n)[x..x + y], m[b + x..b + x + y];
    forall i | 0 <= i < |u| ensures u[i] == v[i] {
    }
  }

  lemma HeaderWord(h: Header, k: nat)
    requires k < 10
    ensures HeaderBytes(h)[4 * k..4 * k + 4] == Enc32(FieldOf(h, k))
  {
    hide Enc32;
  }

  lemma WordsEqual(a: bytes, b: bytes)
    requires |a| == |b| == 40 && forall k: nat :: k < 10 ==> a[4 * k..4 * k + 4] == b[4 * k..4 * k + 4]
    ensures a == b
  {
    forall i | 0 <= i < 40 ensures a[i] == b[i] {
      var k := i / 4;
      assert a[i] == a[4 * k..4 * k + 4][i - 4 * k] && b[i] == b[4 * k..4 * k + 4][i - 4 * k];
    }
  }

  /** The header of the packed tree; its boot CPU is that of h. */
  function NewHeader(h: Header, p: Places, bufsize: u32): Header
    requires PackedSize(p) <= INT_MAX
  {
    PackedHeader(h, p).(magic := FDT_MAGIC, totalsize := bufsize, version := 17, lastCompVersion := 16)
  }

  /** Where fdt_open_into packs the blocks: in the new buffer, or right behind the old tree if that is in the way. */
  function Scratch(fdt: nat, total: nat, buf: nat, newsize: nat): nat {
    if Disjoint(buf, newsize, fdt, total) then buf else fdt + total
  }

  /** The new tree just before the boot CPU is copied; in its place is what the scratch place had there. */
  function NewTree(m: bytes, tmp: nat, p: Places, bufsize: u32): (r: bytes)
    requires tmp + 40 <= |m| && PlacesIn(p, |m|) && PackedSize(p) <= INT_MAX
    ensures |r| == PackedSize(p)
  {
    HeaderBytes(NewHeader(Hd(m, tmp), p, bufsize)) +
    Block(m, p.rsv, p.rsvSize) + Block(m, p.st, p.stSize) + Block(m, p.strs, p.strsSize)
  }

  /** The boot CPU that is copied: the word in its old place, once the new tree has been laid over the old memory. */
  function BootWord(m: bytes, fdt: nat, buf: nat, tmp: nat, p: Places, bufsize: u32): u32
    requires tmp + 40 <= |m| && PlacesIn(p, |m|) && PackedSize(p) <= INT_MAX
    requires buf + PackedSize(p) <= |m| && fdt + 40 <= |m|
  {
    Dec32(m[..buf] + NewTree(m, tmp, p, bufsize) + m[buf + PackedSize(p)..], fdt + 28)
  }

  lemma FinishedHeader(g: Header, h: Header, p: Places, bufsize: u32)
    requires PackedSize(p) <= INT_MAX && g == NewHeader(h, p, bufsize).(bootCpuid := g.bootCpuid)
    ensures PackedHeader(g, p) == g && g.version == 17 && g.totalsize == bufsize
    ensures g.magic == FDT_MAGIC && g.lastCompVersion == 16
  {
  }

  /** The new tree is in place. */
  lemma NewTreeAt(a: bytes, tmp: nat, p: Places, bufsize: u32, c: bytes, buf: nat)
    requires tmp + 40 <= |a| && PlacesIn(p, |a|) && PackedSize(p) <= INT_MAX && buf + PackedSize(p) <= |c|
    requires PackedFrom(a, p, c, buf) && Hd(c, buf) == NewHeader(Hd(a, tmp), p, bufsize)
    ensures Block(c, buf, PackedSize(p)) == NewTree(a, tmp, p, bufsize)
  {
    hide Hd, Block, HeaderBytes, NewHeader;
    HdBytes(c, buf, Hd(c, buf));
    FourBlocks(c, buf, FDT_V17_SIZE, p.rsvSize, p.stSize, p.strsSize);
  }

  /** A block in four parts. */
  lemma FourBlocks(m: bytes, b: nat, x: nat, y: nat, z: nat, w: nat)
    requires b + x + y + z + w <= |m|
    ensures Block(m, b, x + y + z + w) ==
            Block(m, b, x) + Block(m, b + x, y) + Block(m, b + x + y, z) + Block(m, b + x + y + z, w)
  {
  }

  /** What lies in the place of the old boot CPU once the new tree is in place. */
  lemma BootIs(a: bytes, c: bytes, fdt: nat, buf: nat, tmp: nat, p: Places, bufsize: u32)
    requires |c| == |a| && tmp + 40 <= |a| && PlacesIn(p, |a|) && PackedSize(p) <= INT_MAX
    requires buf + PackedSize(p) <= |a| && fdt + 40 <= |a|
    requires Block(c, buf, PackedSize(p)) == NewTree(a, tmp, p, bufsize)
    requires forall k: nat ::
              fdt + 28 <= k < fdt + 32 && Disjoint(buf, PackedSize(p), k, 1) ==> Block(c, k, 1) == Block(a, k, 1)
    ensures Dec32(c, fdt + 28) == BootWord(a, fdt, buf, tmp, p, bufsize)
  {
    hide Dec32, NewTree;
    var n, t := PackedSize(p), NewTree(a, tmp, p, bufsize);
    var m := a[..buf] + t + a[buf + n..];
    forall k | fdt + 28 <= k < fdt + 32 ensures c[k] == m[k] {
      if buf <= k < buf + n {
        assert c[k] == Block(c, buf, n)[k - buf];
      } else {
        assert Disjoint(buf, n, k, 1);
        assert Block(c, k, 1)[0] == c[k] && Block(a, k, 1)[0] == a[k];
      }
    }
    assert Same(c, fdt + 28, m, fdt + 28, 4);
    MoveWord(c, fdt + 28, m, fdt + 28, 4, 0);
  }

  /** The blocks at p, packed at newb, have been moved with all that is behind the header. */
  lemma PackedMoved(a: bytes, p: Places, b: bytes, newb: nat, c: bytes, buf: nat)
    requires PackedFrom(a, p, b, newb) && newb + PackedSize(p) <= |b| && buf + PackedSize(p) <= |c|
    requires Block(c, buf + 40, PackedSize(p) - 40) == Block(b, newb + 40, PackedSize(p) - 40)
    ensures PackedFrom(a, p, c, buf)
  {
    hide Block;
    var m := PackedSize(p) - 40;
    BlockSplit(b, newb + 40, c, buf + 40, m, 0, p.rsvSize);
    BlockSplit(b, newb + 40, c, buf + 40, m, p.rsvSize, p.stSize);
    BlockSplit(b, newb + 40, c, buf + 40, m, p.rsvSize + p.stSize, p.strsSize);
  }

  /** The blocks are packed at tmp, moved to buf and given a complete header. */
  method PackAndMove(mem: array<byte>, fdt: nat, buf: nat, bufsize: nat, total: nat, p: Places, tmp: nat)
    requires Complete(mem[..], fdt) && RsvAt(mem[..], fdt).Some? && PackedSize(p) <= bufsize <= INT_MAX
    requires buf + bufsize <= mem.Length && buf <= tmp && tmp + PackedSize(p) <= buf + bufsize
    requires p == PlacesAt(fdt, Hd(mem[..], fdt), |RsvAt(mem[..], fdt).value|) && total == Hd(mem[..], fdt).totalsize
    requires Disjoint(tmp, PackedSize(p), fdt, total)
    modifies mem
    ensures Opened(old(mem[..]), fdt, mem[..], buf, bufsize)
    ensures tmp + 40 <= mem.Length && PlacesIn(p, mem.Length) && fdt + 40 <= mem.Length
    ensures Hd(mem[..], buf) ==
            NewHeader(old(Hd(mem[..], tmp)), p,
                      bufsize).(bootCpuid := BootWord(old(mem[..]), fdt, buf, tmp, p, bufsize))
    ensures Disjoint(buf + 28, 4, fdt + 28, 4) ==> Hd(mem[..], buf).bootCpuid == Dec32(mem[..], fdt + 28)
    ensures forall i: nat, m: nat :: i + m <= mem.Length && Disjoint(buf, bufsize, i, m) ==>
              Block(mem[..], i, m) == old(Block(mem[..], i, m))
  {
    hide Hd, Block, Opened, PackedFrom, RsvAt, Dec32, Misordered, Complete, PackedHeader, PackedAt, NewTree, BootWord;
    PlacesOfComplete(mem[..], fdt);
    ghost var a := mem[..];
    var newsize := PackedSize(p);
    PackInto(mem, p, tmp);
    ghost var b := mem[..];
    MoveBlock(mem, buf, tmp, newsize);
    ghost var c := mem[..];
    BlockSplit(b, tmp, c, buf, newsize, 0, 40);
    HdOfBlock(b, tmp, c, buf);
    BlockSplit(b, tmp, c, buf, newsize, 40, newsize - 40);
    FinishHeader(mem, buf, bufsize);
    PackedMoved(a, p, b, tmp, mem[..], buf);
    NewTreeAt(a, tmp, p, bufsize, mem[..], buf);
    BootIs(a, mem[..], fdt, buf, tmp, p, bufsize);
    CopyBoot(mem, fdt, buf);
    FinishedHeader(Hd(mem[..], buf), Hd(a, tmp), p, bufsize);
    PackedOpened(a, fdt, b, tmp, mem[..], buf, bufsize);
  }

  /**
   * fdt_open_into for a tree with its blocks out of order: they are packed in a scratch place that has
   * no byte in common with the old tree, then moved to the new buffer. The boot CPU is read after that.
   */
  method OpenMisordered(mem: array<byte>, fdt: nat, buf: nat, bufsize: int, total: nat, p: Places) returns (err: int)
    requires Complete(mem[..], fdt) && RsvAt(mem[..], fdt).Some? && bufsize <= INT_MAX
    requires bufsize >= 0 ==> buf + bufsize <= mem.Length
    requires p == PlacesAt(fdt, Hd(mem[..], fdt), |RsvAt(mem[..], fdt).value|) && total == Hd(mem[..], fdt).totalsize
    modifies mem
    ensures err == if PackedSize(p) > bufsize then -NOSPACE
                   else if !Disjoint(buf, PackedSize(p), fdt, total) &&
                     fdt + total + PackedSize(p) > buf + bufsize then -NOSPACE
                   else 0
    ensures err != 0 ==> mem[..] == old(mem[..])
    ensures err == 0 ==> Opened(old(mem[..]), fdt, mem[..], buf, bufsize)
    ensures err == 0 ==>
      var tmp := Scratch(fdt, total, buf, PackedSize(p));
      && tmp + PackedSize(p) <= buf + bufsize <= mem.Length && PlacesIn(p, mem.Length) && fdt + 40 <= mem.Length
      && Hd(mem[..], buf) ==
         NewHeader(old(Hd(mem[..], tmp)), p, bufsize).(bootCpuid := BootWord(old(mem[..]), fdt, buf, tmp, p, bufsize))
    ensures err == 0 && Disjoint(buf + 28, 4, fdt + 28, 4) ==> Hd(mem[..], buf).bootCpuid == Dec32(mem[..], fdt + 28)
    ensures bufsize >= 0 ==>
              forall i: nat, m: nat :: i + m <= mem.Length && Disjoint(buf, bufsize, i, m) ==>
                Block(mem[..], i, m) == old(Block(mem[..], i, m))
  {
    hide Hd, Block, Opened, RsvAt, Dec32, Misordered, Complete, NewTree, BootWord, PackedHeader;
    PlacesOfComplete(mem[..], fdt);
    var newsize := PackedSize(p);
    if bufsize < newsize {
      return -NOSPACE;
    }
    var tmp := buf;
    if tmp + newsize > fdt && tmp < fdt + total {
      tmp := fdt + total;
      if tmp + newsize > buf + bufsize {
        return -NOSPACE;
      }
    }
    PackAndMove(mem, fdt, buf, bufsize, total, p, tmp);
    err := 0;
  }

  /** The boot CPU after fdt_open_into, of the memory before. */
  ghost function BootAnswer(m: bytes, fdt: nat, buf: nat, bufsize: int): u32
    requires CanOpen(m, fdt, buf, bufsize)
  {
    var h := Hd(m, fdt);
    PlacesOfComplete(m, fdt);
    var p := PlacesAt(fdt, h, |RsvAt(m, fdt).value|);
    if !Misordered(h, p.rsvSize, p.stSize) then h.bootCpuid
    else BootWord(m, fdt, buf, Scratch(fdt, h.totalsize, buf, PackedSize(p)), p, bufsize)
  }

  /** The boot CPU is kept where BootSafe says so. */
  lemma BootKept(m: bytes, fdt: nat, buf: nat, bufsize: int)
    requires CanOpen(m, fdt, buf, bufsize) && BootSafe(m, fdt, buf)
    ensures BootAnswer(m, fdt, buf, bufsize) == Hd(m, fdt).bootCpuid
  {
    hide Hd, Dec32, NewTree, Misordered, Rsv;
    PlacesOfComplete(m, fdt);
    FieldAt(m, fdt, BOOT_CPUID);
    var h := Hd(m, fdt);
    var p := PlacesAt(fdt, h, |RsvAt(m, fdt).value|);
    if Misordered(h, p.rsvSize, p.stSize) {
      var t := NewTree(m, Scratch(fdt, h.totalsize, buf, PackedSize(p)), p, bufsize);
      var u := m[..buf] + t + m[buf + PackedSize(p)..];
      assert Same(m, fdt + 28, u, fdt + 28, 4);
      MoveWord(m, fdt + 28, u, fdt + 28, 4, 0);
    }
  }

  /**
   * fdt_open_into on a complete tree of version 17 or later. It answers with the error that OpenError
   * names, and otherwise the tree in the new buffer is the old one, whatever the overlap. The boot CPU is the one that
   * BootAnswer names: the old one, unless the new tree covers its place.
   */
  method OpenInto(mem: array<byte>, fdt: nat, buf: nat, bufsize: int) returns (err: int)
    requires fdt + 40 <= mem.Length && bufsize <= INT_MAX && (bufsize >= 0 ==> buf + bufsize <= mem.Length)
    requires ReadOnly.RoError(Hd(mem[..], fdt)) == 0 ==> Complete(mem[..], fdt)
    modifies mem
    ensures old(ReadOnly.RoError(Hd(mem[..], fdt))) != 0 ==> err == old(ReadOnly.RoError(Hd(mem[..], fdt)))
    ensures old(ReadOnly.RoError(Hd(mem[..], fdt))) == 0 ==> err == old(OpenError(mem[..], fdt, buf, bufsize))
    ensures old(ReadOnly.RoError(Hd(mem[..], fdt))) == 0 ==> OpenAnswer(old(mem[..]), fdt, buf, bufsize, err)
    ensures err != 0 ==> mem[..] == old(mem[..])
    ensures err == 0 ==> bufsize >= 0 && Opened(old(mem[..]), fdt, mem[..], buf, bufsize)
    ensures err == 0 ==> Complete(old(mem[..]), fdt)
    ensures err == 0 ==> Hd(mem[..], buf).bootCpuid == BootAnswer(old(mem[..]), fdt, buf, bufsize)
    ensures err == 0 && BootSafe(old(mem[..]), fdt, buf) ==>
              Hd(mem[..], buf).bootCpuid == old(Hd(mem[..], fdt)).bootCpuid
    ensures err == 0 && !BootSafe(old(mem[..]), fdt, buf) && Disjoint(buf + 28, 4, fdt + 28, 4) ==>
              Hd(mem[..], buf).bootCpuid == Dec32(mem[..], fdt + 28)
    ensures bufsize >= 0 ==>
              forall i: nat, m: nat :: i + m <= mem.Length && Disjoint(buf, bufsize, i, m) ==>
                Block(mem[..], i, m) == old(Block(mem[..], i, m))
  {
    hide Hd, Block, Opened, Rsv, Misordered, Dec32, BootWord, NewTree, NewHeader, OpenAnswer;
    err := ProbeAt(mem, fdt);
    if err < 0 {
      return;
    }
    OpenErrorExact(mem[..], fdt, buf, bufsize);
    var rsvmap := GetField(mem, fdt, OFF_MEM_RSVMAP);
    var totalsize := GetField(mem, fdt, TOTALSIZE);
    var n := CountRsv(mem, fdt, rsvmap, totalsize);
    if n < 0 {
      return n;
    }
    PlacesOfComplete(mem[..], fdt);
    var st := GetField(mem, fdt, OFF_DT_STRUCT);
    var structSize := GetField(mem, fdt, SIZE_DT_STRUCT);
    var strs := GetField(mem, fdt, OFF_DT_STRINGS);
    var strsSize := GetField(mem, fdt, SIZE_DT_STRINGS);
    var p := Places(fdt + rsvmap, 16 * n + 16, fdt + st, structSize, fdt + strs, strsSize);
    var misordered := MisorderedAt(mem, fdt, 16 * n + 16, structSize);
    if !misordered {
      err := OpenOrdered(mem, fdt, buf, bufsize, structSize);
    } else {
      ghost var m := mem[..];
      err := OpenMisordered(mem, fdt, buf, bufsize, totalsize, p);
      if err == 0 && BootSafe(m, fdt, buf) {
        BootKept(m, fdt, buf, bufsize);
      }
    }
  }

  /** fdt_blocks_misordered_ on a header in memory. */
  method MisorderedAt(mem: array<byte>, fdt: nat, rsvSize: u32, structSize: u32) returns (b: bool)
    requires fdt + 40 <= mem.Length
    ensures b <==> Misordered(Hd(mem[..], fdt), rsvSize, structSize)
  {
    hide Hd, U32;
    var rsvmap := GetField(mem, fdt, OFF_MEM_RSVMAP);
    var st := GetField(mem, fdt, OFF_DT_STRUCT);
    var strs := GetField(mem, fdt, OFF_DT_STRINGS);
    var strsSize := GetField(mem, fdt, SIZE_DT_STRINGS);
    var totalsize := GetField(mem, fdt, TOTALSIZE);
    b := rsvmap < FDT_V17_SIZE || st < U32(rsvmap + rsvSize) || strs < U32(st + structSize) ||
      totalsize < U32(strs + strsSize);
  }

  // ---------- The boot CPU ----------

  /**
   * Where the new tree covers the boot CPU of the old one, it was packed behind the old tree, and the boot CPU it gets
   * is
   * the word of itself that comes to lie there: another field of its header; for a tree opened in place, what was
   * behind
   * the old tree; or a word of the old reserve map, structure or strings.
   */
  lemma BootCovered(m: bytes, fdt: nat, buf: nat, bufsize: int)
    requires CanOpen(m, fdt, buf, bufsize) && !BootSafe(m, fdt, buf)
    ensures fdt + 40 <= |m|
    ensures
      var h := Hd(m, fdt);
      var p := PlacesAt(fdt, h, |RsvAt(m, fdt).value|);
      var n, end, d := PackedSize(p), fdt + h.totalsize, fdt + 28 - buf;
      var r := BootAnswer(m, fdt, buf, bufsize);
      && PlacesIn(p, |m|) && end + n <= buf + bufsize && n <= INT_MAX && -4 < d < n
      && (forall k: nat :: k < 10 && d == 4 * k ==> r == FieldOf(NewHeader(Hd(m, end), p, bufsize), k))
      && (buf == fdt ==> r == Dec32(m, end + 28))
      && (40 <= d && d + 4 <= 40 + p.rsvSize ==> r == Dec32(m, p.rsv + d - 40))
      && (40 + p.rsvSize <= d && d + 4 <= 40 + p.rsvSize + p.stSize ==> r == Dec32(m, p.st + d - 40 - p.rsvSize))
      && (40 + p.rsvSize + p.stSize <= d && d + 4 <= n ==> r == Dec32(m, p.strs + d - 40 - p.rsvSize - p.stSize))
  {
    hide Hd, Dec32, Misordered, Rsv, HeaderBytes, PackedHeader;
    PlacesOfComplete(m, fdt);
    var h := Hd(m, fdt);
    var p := PlacesAt(fdt, h, |RsvAt(m, fdt).value|);
    var end, d := fdt + h.totalsize, fdt + 28 - buf;
    assert Scratch(fdt, h.totalsize, buf, PackedSize(p)) == end;
    if 0 <= d && d + 4 <= PackedSize(p) {
      BootInTree(m, fdt, buf, end, p, bufsize);
      NewTreeWord(m, end, p, bufsize, d);
    }
    if d == 28 {
      FieldAt(m, end, BOOT_CPUID);
      NewBoot(Hd(m, end), p, bufsize);
    }
  }

  lemma NewBoot(h: Header, p: Places, bufsize: u32)
    requires PackedSize(p) <= INT_MAX
    ensures FieldOf(NewHeader(h, p, bufsize), BOOT_CPUID) == FieldOf(h, BOOT_CPUID)
  {
  }

  /** A word inside the new tree. */
  lemma BootInTree(m: bytes, fdt: nat, buf: nat, tmp: nat, p: Places, bufsize: u32)
    requires tmp + 40 <= |m| && PlacesIn(p, |m|) && PackedSize(p) <= INT_MAX
    requires buf + PackedSize(p) <= |m| && fdt + 40 <= |m| && 0 <= fdt + 28 - buf && fdt + 32 - buf <= PackedSize(p)
    ensures BootWord(m, fdt, buf, tmp, p, bufsize) == Dec32(NewTree(m, tmp, p, bufsize), fdt + 28 - buf)
  {
    hide Dec32, NewTree;
    var t, d := NewTree(m, tmp, p, bufsize), fdt + 28 - buf;
    var u := m[..buf] + t + m[buf + PackedSize(p)..];
    assert Same(t, d, u, fdt + 28, 4);
    MoveWord(t, d, u, fdt + 28, 4, 0);
  }

  /** The words of the new tree. */
  lemma NewTreeWord(m: bytes, tmp: nat, p: Places, bufsize: u32, d: nat)
    requires tmp + 40 <= |m| && PlacesIn(p, |m|) && PackedSize(p) <= INT_MAX && d + 4 <= PackedSize(p)
    ensures var r := Dec32(NewTree(m, tmp, p, bufsize), d);
      && (forall k: nat :: k < 10 && d == 4 * k ==> r == FieldOf(NewHeader(Hd(m, tmp), p, bufsize), k))
      && (40 <= d && d + 4 <= 40 + p.rsvSize ==> r == Dec32(m, p.rsv + d - 40))
      && (40 + p.rsvSize <= d && d + 4 <= 40 + p.rsvSize + p.stSize ==> r == Dec32(m, p.st + d - 40 - p.rsvSize))
      && (40 + p.rsvSize + p.stSize <= d ==> r == Dec32(m, p.strs + d - 40 - p.rsvSize - p.stSize))
  {
    hide Dec32, Hd, NewHeader, HeaderBytes;
    var g, t := NewHeader(Hd(m, tmp), p, bufsize), NewTree(m, tmp, p, bufsize);
    var st := 40 + p.rsvSize;
    var strs := st + p.stSize;
    if exists k: nat :: k < 10 && d == 4 * k {
      var k: nat :| k < 10 && d == 4 * k;
      assert Block(t, 0, 40) == HeaderBytes(g);
      HdBytes(t, 0, g);
      FieldAt(t, 0, k);
    } else if 40 <= d && d + 4 <= st {
      assert Same(m, p.rsv, t, 40, p.rsvSize);
      MoveWord(m, p.rsv, t, 40, p.rsvSize, d - 40);
    } else if st <= d && d + 4 <= strs {
      assert Same(m, p.st, t, st, p.stSize);
      MoveWord(m, p.st, t, st, p.stSize, d - st);
    } else if strs <= d {
      assert Same(m, p.strs, t, strs, p.strsSize);
      MoveWord(m, p.strs, t, strs, p.strsSize, d - strs);
    }
  }

  /** A tree of 64 bytes without strings or reserve entries, its strings block in front of the end of the structure. */
  const CROSSED := Header(FDT_MAGIC, 64, 56, 56, 40, 17, 16, 0, 0, 8)

  /** That tree, opened in place in a buffer of 128 bytes: its boot CPU becomes what was behind it. */
  lemma BootLost()
    ensures var m := HeaderBytes(CROSSED) + seq(24, _ => 0) + seq(64, _ => 9);
      && CanOpen(m, 0, 0, 128) && !BootSafe(m, 0, 0) && Hd(m, 0).bootCpuid == 0
      && BootAnswer(m, 0, 0, 128) == 0x0909_0909
  {
    hide Dec32, HeaderBytes, BootAnswer;
    var m := HeaderBytes(CROSSED) + seq(24, _ => 0) + seq(64, _ => 9);
    assert Block(m, 0, 40) == HeaderBytes(CROSSED);
    HdBytes(m, 0, CROSSED);
    hide Hd;
    NoEntries(m);
    U32Id(56);
    U32Id(64);
    BootCovered(m, 0, 0, 128);
    Nines(m, 92);
  }

  lemma NoEntries(m: bytes)
    requires |m| == 128 && forall k :: 40 <= k < 56 ==> m[k] == 0
    ensures Rsv(m, 40, 64) == Walk.Some([])
  {
  }

  lemma Nines(m: bytes, i: nat)
    requires i + 4 <= |m| && forall k :: i <= k < i + 4 ==> m[k] == 9
    ensures Dec32(m, i) == 0x0909_0909
  {
  }
}
