/** libfdt/fdt_rw.c */
module ReadWrite {
  import opened Bytes
  import opened Tags
  import opened Blob
  import opened Forests
  import opened Edits
  import opened Trees
  import FdtCore
  import ReadOnly
  import Traverse
  import Walk

  /** The longest value or name: one more header and the alignment still give a 32-bit signed length. */
  const MAX_LEN := INT_MAX - 32

  /** The bytes from p + oldlen to end have moved to p + newlen; nothing else has changed. */
  ghost predicate Moved(a: bytes, b: bytes, p: nat, oldlen: nat, newlen: nat, end: nat) {
    |a| == |b| && p + oldlen <= end <= |a| && end - oldlen + newlen <= |a| &&
    forall k {:trigger b[k]} :: 0 <= k < |b| ==>
      b[k] == if p + newlen <= k < end - oldlen + newlen then a[k - newlen + oldlen] else a[k]
  }

  /** What that means for three blocks one behind the other, the middle one containing the range. */
  lemma MovedBlocks(a: bytes, b: bytes, x: nat, oldlen: nat, newlen: nat,
                    so: nat, ss: nat, to: nat, ts: nat, ss': int, to': int)
    requires Moved(a, b, so + x, oldlen, newlen, to + ts)
    requires x + oldlen <= ss && so + ss <= to && ss' == ss - oldlen + newlen && to' == to - oldlen + newlen
    ensures 0 <= ss' && so + ss' <= to' && to' + ts <= |b|
    ensures Block(a, 0, so) == Block(b, 0, so)
    ensures Block(a, to, ts) == Block(b, to', ts)
    ensures SpliceOf(Block(a, so, ss), Block(b, so, ss'), x, oldlen, newlen)
  {
    SameSlices(a, 0, b, 0, so);
    SameSlices(a, to, b, to', ts);
  }

  /**
   * fdt_splice_: room is made for newlen bytes instead of oldlen at p, what follows up to the end of the data moved.
   */
  method Splice(fdt: Fdt, p: nat, oldlen: nat, newlen: nat) returns (err: int)
    requires fdt.Laid() && p + oldlen <= fdt.offDtStrings + fdt.sizeDtStrings && newlen <= INT_MAX - 16
    modifies fdt.mem
    ensures err == 0 <==> fdt.offDtStrings + fdt.sizeDtStrings - oldlen + newlen <= fdt.totalsize
    ensures err != 0 ==> err == -NOSPACE
    ensures err != 0 ==> fdt.mem[..] == old(fdt.mem[..])
    ensures err == 0 ==> Moved(old(fdt.mem[..]), fdt.mem[..], p, oldlen, newlen, fdt.offDtStrings + fdt.sizeDtStrings)
  {
    hide U32;
    U32Id(fdt.offDtStrings + fdt.sizeDtStrings);
    var dsize := U32(fdt.offDtStrings + fdt.sizeDtStrings);
    var soff := p;
    U32Id(soff + oldlen);
    if U32(soff + oldlen) < soff || U32(soff + oldlen) > dsize {
      return -BADOFFSET;
    }
    U32Id(dsize + newlen);
    if U32(dsize + newlen) < oldlen {
      return -BADOFFSET;
    }
    U32Id(dsize - oldlen + newlen);
    if U32(dsize - oldlen + newlen) > fdt.totalsize {
      return -NOSPACE;
    }
    Memmove(fdt.mem, p + newlen, p + oldlen, dsize - (p + oldlen));
    return 0;
  }

  /** fdt_splice_struct_, at structure offset x. */
  method SpliceStruct(fdt: Fdt, x: nat, oldlen: nat, newlen: nat) returns (err: int)
    requires fdt.Laid() && x + oldlen <= fdt.sizeDtStruct && newlen <= INT_MAX - 16
    modifies fdt.mem, fdt`sizeDtStruct, fdt`offDtStrings
    ensures err == 0 <==> old(fdt.offDtStrings + fdt.sizeDtStrings) - oldlen + newlen <= fdt.totalsize
    ensures fdt.Laid()
    ensures err != 0 ==> err == -NOSPACE && fdt.mem[..] == old(fdt.mem[..]) && fdt.Hdr() == old(fdt.Hdr())
    ensures err != 0 ==> fdt.sizeDtStruct == old(fdt.sizeDtStruct) && fdt.offDtStrings == old(fdt.offDtStrings)
    ensures err == 0 ==>
      && fdt.sizeDtStruct == old(fdt.sizeDtStruct) - oldlen + newlen
      && fdt.offDtStrings == old(fdt.offDtStrings) - oldlen + newlen
      && Moved(old(fdt.mem[..]), fdt.mem[..], fdt.offDtStruct + x, oldlen, newlen,
               old(fdt.offDtStrings + fdt.sizeDtStrings))
  {
    hide Moved;
    var delta := newlen - oldlen;
    err := Splice(fdt, x + fdt.offDtStruct, oldlen, newlen);
    if err != 0 {
      return;
    }
    fdt.sizeDtStruct := fdt.sizeDtStruct + delta;
    fdt.offDtStrings := fdt.offDtStrings + delta;
  }

  /** fdt_splice_struct_ in terms of the blocks. */
  method SpliceBlocks(fdt: Fdt, x: nat, oldlen: nat, newlen: nat) returns (err: int)
    requires fdt.Laid() && x + oldlen <= fdt.sizeDtStruct && newlen <= INT_MAX - 16
    modifies fdt.mem, fdt`sizeDtStruct, fdt`offDtStrings
    ensures err == 0 <==> old(fdt.offDtStrings + fdt.sizeDtStrings) - oldlen + newlen <= fdt.totalsize
    ensures fdt.Laid() && fdt.Front() == old(fdt.Front()) && fdt.Strs() == old(fdt.Strs())
    ensures err != 0 ==> err == -NOSPACE && fdt.Hdr() == old(fdt.Hdr()) && fdt.St() == old(fdt.St())
    ensures err == 0 ==>
      && fdt.sizeDtStruct == old(fdt.sizeDtStruct) - oldlen + newlen
      && fdt.offDtStrings == old(fdt.offDtStrings) - oldlen + newlen
      && SpliceOf(old(fdt.St()), fdt.St(), x, oldlen, newlen)
  {
    hide *;
    fdt.Blocks();
    ghost var a := fdt.mem[..];
    ghost var so, ss, to, ts := fdt.offDtStruct, fdt.sizeDtStruct, fdt.offDtStrings, fdt.sizeDtStrings;
    err := SpliceStruct(fdt, x, oldlen, newlen);
    fdt.Blocks();
    if err != 0 {
      return;
    }
    MovedBlocks(a, fdt.mem[..], x, oldlen, newlen, so, ss, to, ts, fdt.sizeDtStruct, fdt.offDtStrings);
  }

  // ---------- Writes inside the structure block ----------

  lemma InnerWrite(a: bytes, b: bytes, y: nat, n: nat, so: nat, ss: nat, to: nat, ts: nat)
    requires |a| == |b| && y + n <= ss && so + ss <= to && to + ts <= |a|
    requires forall k {:trigger b[k]} :: 0 <= k < |b| && !(so + y <= k < so + y + n) ==> b[k] == a[k]
    ensures Block(a, 0, so) == Block(b, 0, so) && Block(a, to, ts) == Block(b, to, ts)
    ensures KeptBut(Block(a, so, ss), Block(b, so, ss), y, n)
  {
    SameSlices(a, 0, b, 0, so);
    SameSlices(a, to, b, to, ts);
  }

  /** Storing a word at structure offset y. */
  method StStore32(fdt: Fdt, y: nat, v: u32)
    requires fdt.Laid() && y + 4 <= fdt.sizeDtStruct
    modifies fdt.mem
    ensures fdt.Front() == old(fdt.Front()) && fdt.Strs() == old(fdt.Strs())
    ensures Dec32(fdt.St(), y) == v
    ensures KeptBut(old(fdt.St()), fdt.St(), y, 4)
  {
    hide *;
    fdt.Blocks();
    ghost var a := fdt.mem[..];
    ghost var so, ss, to, ts := fdt.offDtStruct, fdt.sizeDtStruct, fdt.offDtStrings, fdt.sizeDtStrings;
    Store32(fdt.mem, fdt.offDtStruct + y, v);
    InnerWrite(a, fdt.mem[..], y, 4, so, ss, to, ts);
    BlockWord(fdt.mem[..], so, ss, y);
    fdt.Blocks();
  }

  /** Copying bytes to structure offset y. */
  method StMemcpy(fdt: Fdt, y: nat, src: bytes)
    requires fdt.Laid() && y + |src| <= fdt.sizeDtStruct
    modifies fdt.mem
    ensures fdt.Front() == old(fdt.Front()) && fdt.Strs() == old(fdt.Strs())
    ensures fdt.St()[y..y + |src|] == src
    ensures KeptBut(old(fdt.St()), fdt.St(), y, |src|)
  {
    hide *;
    fdt.Blocks();
    ghost var a := fdt.mem[..];
    ghost var so, ss, to, ts := fdt.offDtStruct, fdt.sizeDtStruct, fdt.offDtStrings, fdt.sizeDtStrings;
    Memcpy(fdt.mem, fdt.offDtStruct + y, src);
    InnerWrite(a, fdt.mem[..], y, |src|, so, ss, to, ts);
    fdt.Blocks();
    CopiedSlice(fdt.mem[..], so, ss, y, src);
  }

  lemma BlockWord(m: bytes, so: nat, ss: nat, y: nat)
    requires so + ss <= |m| && y + 4 <= ss
    ensures Dec32(Block(m, so, ss), y) == Dec32(m, so + y)
  {
  }

  lemma CopiedSlice(m: bytes, so: nat, ss: nat, y: nat, src: bytes)
    requires y + |src| <= ss && so + ss <= |m|
    requires forall k {:trigger m[k]} :: so + y <= k < so + y + |src| ==> m[k] == src[k - so - y]
    ensures Block(m, so, ss)[y..y + |src|] == src
  {
    var s := Block(m, so, ss)[y..y + |src|];
    forall i | 0 <= i < |src| ensures s[i] == src[i] {
      assert s[i] == m[so + y + i];
    }
  }

  // ---------- The string table ----------

  /** The table holds s at off. */
  predicate HoldsAt(tab: bytes, off: int, s: bytes) {
    Walk.StrAt(tab, off) == Walk.Some(s)
  }

  /** The table holds s nowhere. */
  ghost predicate Absent(tab: bytes, s: bytes) {
    forall off: nat :: !HoldsAt(tab, off, s)
  }

  /** fdt_find_string_len_: the first offset at which the table holds s, or -1. */
  method FindStringLen(mem: array<byte>, strtab: nat, tabsize: nat, s: bytes) returns (r: int)
    requires strtab + tabsize <= mem.Length && 0 !in s
    ensures r == -1 ==> Absent(Block(mem[..], strtab, tabsize), s)
    ensures r != -1 ==> 0 <= r < tabsize && HoldsAt(Block(mem[..], strtab, tabsize), r, s)
  {
    hide HoldsAt;
    ghost var tab := Block(mem[..], strtab, tabsize);
    var last := tabsize - (|s| + 1);
    r := 0;
    while r <= last
      invariant 0 <= r
      invariant forall off: nat :: off < r ==> !HoldsAt(tab, off, s)
    {
      StrAtMatch(tab, r, s);
      assert tab[r..r + |s|] == mem[strtab + r..strtab + r + |s|] && tab[r + |s|] == mem[strtab + r + |s|];
      if mem[strtab + r..strtab + r + |s|] == s && mem[strtab + r + |s|] == 0 {
        return;
      }
      r := r + 1;
    }
    forall off: nat ensures !HoldsAt(tab, off, s) {
      if off > last {
        StrAtTooLate(tab, off, s);
      }
    }
    return -1;
  }

  lemma StrAtMatch(tab: bytes, off: nat, s: bytes)
    requires off + |s| < |tab| && 0 !in s
    ensures HoldsAt(tab, off, s) <==> tab[off..off + |s|] == s && tab[off + |s|] == 0
  {
    var k := FindNul(tab, off);
    if tab[off..off + |s|] == s && tab[off + |s|] == 0 {
      FindNulAt(tab, off, off + |s|);
    }
  }

  lemma StrAtTooLate(tab: bytes, off: int, s: bytes)
    requires off + |s| >= |tab|
    ensures !HoldsAt(tab, off, s)
  {
  }

  /** Room is made for newlen bytes at the end of the string table (fdt_splice_string_). */
  method SpliceString(fdt: Fdt, newlen: nat) returns (err: int)
    requires fdt.Laid() && newlen <= INT_MAX - 16
    modifies fdt.mem, fdt`sizeDtStrings
    ensures fdt.Laid()
    ensures err == 0 <==> old(fdt.offDtStrings + fdt.sizeDtStrings) + newlen <= fdt.totalsize
    ensures err != 0 ==> err == -NOSPACE && fdt.sizeDtStrings == old(fdt.sizeDtStrings)
    ensures err == 0 ==> fdt.sizeDtStrings == old(fdt.sizeDtStrings) + newlen
    ensures fdt.mem[..] == old(fdt.mem[..])
  {
    err := Splice(fdt, fdt.offDtStrings + fdt.sizeDtStrings, 0, newlen);
    assert fdt.mem[..] == old(fdt.mem[..]);
    if err != 0 {
      return;
    }
    fdt.sizeDtStrings := fdt.sizeDtStrings + newlen;
  }

  /** The string table after s has been found or added. */
  function Grown(strs: bytes, s: bytes, added: bool): bytes {
    if added then strs + (s + [0]) else strs
  }

  /** The end of fdt_find_add_string_: s is added to the table. */
  method AddString(fdt: Fdt, s: bytes) returns (err: int)
    requires fdt.Laid() && |s| <= MAX_LEN && 0 !in s
    modifies fdt.mem, fdt`sizeDtStrings
    ensures fdt.Laid() && fdt.Front() == old(fdt.Front()) && fdt.St() == old(fdt.St())
    ensures err == 0 <==> old(fdt.offDtStrings + fdt.sizeDtStrings) + |s| + 1 <= fdt.totalsize
    ensures err != 0 ==> err == -NOSPACE && fdt.Strs() == old(fdt.Strs()) && fdt.sizeDtStrings == old(fdt.sizeDtStrings)
    ensures err == 0 ==> fdt.Strs() == Grown(old(fdt.Strs()), s, true) && HoldsAt(fdt.Strs(), old(fdt.sizeDtStrings), s)
    ensures err == 0 ==> fdt.sizeDtStrings == old(fdt.sizeDtStrings) + |s| + 1
  {
    hide Fdt.St, Fdt.Strs, Fdt.Front, Fdt.Laid, Fdt.InBounds, Fdt.StructIn, HoldsAt, Block, Grown;
    fdt.Blocks();
    var strtab, size := fdt.offDtStrings, fdt.sizeDtStrings;
    ghost var a, so, ss := fdt.mem[..], fdt.offDtStruct, fdt.sizeDtStruct;
    err := SpliceString(fdt, |s| + 1);
    if err != 0 {
      fdt.Blocks();
      return;
    }
    fdt.Blocks();
    ghost var strs := Block(a, strtab, size);
    Memcpy(fdt.mem, strtab + size, s + [0]);
    GrownTable(a, fdt.mem[..], so, ss, strtab, size, s + [0], fdt.sizeDtStrings);
    fdt.Blocks();
    GrownIs(strs, s);
    GrownHolds(strs, s);
  }

  /**
   * fdt_find_add_string_: the offset at which the table, possibly longer by one string, holds s.
   */
  method FindAddString(fdt: Fdt, s: bytes) returns (off: int, added: bool)
    requires fdt.Laid() && |s| <= MAX_LEN && 0 !in s
    modifies fdt.mem, fdt`sizeDtStrings
    ensures fdt.Laid() && fdt.Front() == old(fdt.Front()) && fdt.St() == old(fdt.St())
    ensures off >= 0 ==> fdt.Strs() == Grown(old(fdt.Strs()), s, added)
    ensures off >= 0 ==> off <= fdt.sizeDtStrings && Walk.StrAt(fdt.Strs(), off) == Walk.Some(s)
    ensures off >= 0 ==> (added <==> Absent(old(fdt.Strs()), s))
    ensures off < 0 ==> off == -NOSPACE && fdt.Strs() == old(fdt.Strs())
    ensures fdt.sizeDtStrings == old(fdt.sizeDtStrings) + if off >= 0 && added then |s| + 1 else 0
    ensures off < 0 <==> Absent(old(fdt.Strs()), s) &&
                         old(fdt.offDtStrings + fdt.sizeDtStrings) + |s| + 1 > fdt.totalsize
  {
    hide Fdt.St, Fdt.Strs, Fdt.Front, Walk.StrAt, HoldsAt, Absent;
    added := false;
    var strtab, size := fdt.offDtStrings, fdt.sizeDtStrings;
    off := FindStringLen(fdt.mem, strtab, size, s);
    assert fdt.Strs() == Block(fdt.mem[..], strtab, size) by { fdt.Blocks(); }
    if off >= 0 {
      HoldsIs(fdt.Strs(), off, s);
      HeldNotAbsent(fdt.Strs(), off, s);
      return;
    }
    var err := AddString(fdt, s);
    if err != 0 {
      return err, false;
    }
    off, added := size, true;
    HoldsIs(fdt.Strs(), off, s);
  }

  lemma HeldNotAbsent(tab: bytes, off: nat, s: bytes)
    requires HoldsAt(tab, off, s)
    ensures !Absent(tab, s)
  {
  }

  lemma HoldsIs(tab: bytes, off: int, s: bytes)
    ensures HoldsAt(tab, off, s) <==> Walk.StrAt(tab, off) == Walk.Some(s)
  {
  }

  lemma GrownTable(a: bytes, b: bytes, so: nat, ss: nat, to: nat, ts: nat, t: bytes, ts': nat)
    requires |a| == |b| && so + ss <= to && ts' == ts + |t| && to + ts' <= |a|
    requires forall k {:trigger b[k]} :: 0 <= k < |b| && !(to + ts <= k < to + ts + |t|) ==> b[k] == a[k]
    requires forall k {:trigger b[k]} :: to + ts <= k < to + ts + |t| ==> b[k] == t[k - (to + ts)]
    ensures Block(a, 0, so) == Block(b, 0, so) && Block(a, so, ss) == Block(b, so, ss)
    ensures Block(b, to, ts') == Block(a, to, ts) + t
  {
    SameSlices(a, 0, b, 0, so);
    SameSlices(a, so, b, so, ss);
  }

  lemma GrownIs(strs: bytes, s: bytes)
    ensures Grown(strs, s, true) == strs + (s + [0])
  {
  }

  lemma GrownHolds(strs: bytes, s: bytes)
    requires 0 !in s
    ensures HoldsAt(Grown(strs, s, true), |strs|, s)
  {
    var t := Grown(strs, s, true);
    assert t[|strs|..|strs| + |s|] == s;
    StrAtMatch(t, |strs|, s);
  }

  // ---------- Properties ----------

  /** nodeoffset is the offset of the node at the given place, or of no begin tag at all. */
  ghost predicate NodeOffset(fdt: Fdt, nodeoffset: int, place: Walk.Option<Path>)
    requires fdt.Valid()
    reads fdt, fdt.mem
  {
    && -INT_MAX - 1 <= nodeoffset <= INT_MAX
    && match place
       case None => Walk.CheckNode(fdt.St(), nodeoffset) < 0
       case Some(p) =>
         IsPath(fdt.forest, p) && At(fdt.forest, p).Node? && nodeoffset == 4 * Pos(fdt.forest, p)
  }

  /** P is the place of a property of f. */
  ghost predicate PropPlace(f: Forest, p: Path) {
    IsPath(f, p) && At(f, p).Leaf? && At(f, p).item.Prop?
  }

  lemma LengthAt(st: bytes, p: nat, f: Forest)
    requires f.Leaf? && f.item.Prop? && Has(st, p, f)
    ensures 4 * p + 12 <= |st| && Dec32(st, 4 * p + 4) == |f.item.value| && Dec32(st, 4 * p + 8) == f.item.nameoff
    ensures Dec32(st, 4 * p) == FDT_PROP
  {
  }

  /** The words of the property at place p, and the room it takes. */
  lemma PropWords(st: bytes, f: Forest, p: Path)
    requires Encodes(st, f) && PropPlace(f, p)
    ensures var x := 4 * Pos(f, p);
      && x + 12 <= |st| && Dec32(st, x) == FDT_PROP && Dec32(st, x + 4) == |At(f, p).item.value|
      && Dec32(st, x + 8) == At(f, p).item.nameoff
    ensures |st| >= 4 * (Size(f) + 1) && Pos(f, p) + 3 + Cells(|At(f, p).item.value|) <= Size(f)
    ensures 4 * Pos(f, p) + 12 + Align4(|At(f, p).item.value|) <= |st|
  {
    hide Has, HasFirst, Dec32;
    HasAt(st, 0, f, p);
    PosRange(f, p);
    LengthAt(st, Pos(f, p), At(f, p));
  }

  /** Where fdt_get_property finds a property of the node at place p. */
  lemma FoundProperty(st: bytes, strs: bytes, f: Forest, p: Path, name: bytes)
    requires Encodes(st, f) && IsPath(f, p) && At(f, p).Node?
    ensures var r := Walk.GetProperty(st, strs, 4 * Pos(f, p), name);
      match Traverse.PropPath(At(f, p).body, strs, name)
      case None => r == -NOTFOUND
      case Some(q) => PropPlace(f, Inside(p, q)) && r == 4 * Pos(f, Inside(p, q))
  {
    hide Walk.GetProperty, Has, HasFirst, Walk.StrAt;
    AtWf(f, p);
    HasAt(st, 0, f, p);
    Traverse.GetPropertyHas(st, strs, Pos(f, p), At(f, p), name);
    match Traverse.PropPath(At(f, p).body, strs, name)
    case None =>
    case Some(q) => InsideAt(f, p, q, Empty);
  }

  /**
   * b is a with the property of f at place p given room for a value of len bytes; the value is still to be filled in.
   */
  ghost predicate Resized(a: bytes, b: bytes, f: Forest, p: Path, len: nat) {
    PropPlace(f, p) &&
    var x, pos := 4 * Pos(f, p), Pos(f, p);
    && |b| >= x + 12 + Align4(len)
    && Dec32(b, x) == FDT_PROP && Dec32(b, x + 4) == len && Dec32(b, x + 8) == At(f, p).item.nameoff
    && Spliced(a, b, 0, pos, pos + Width(At(f, p)), 3 + Cells(len), Size(f) + 1)
    && Same(a, x + 12, b, x + 12, Min(|At(f, p).item.value|, len))
  }

  /** The splice and the length update of fdt_resize_property_ and fdt_appendprop. */
  method ResizeAt(fdt: Fdt, prop: nat, oldlen: nat, len: nat, ghost p: Path) returns (err: int)
    requires fdt.Valid() && PropPlace(fdt.forest, p) && len <= MAX_LEN
    requires prop == 4 * Pos(fdt.forest, p) && oldlen == |At(fdt.forest, p).item.value|
    modifies fdt.mem, fdt`sizeDtStruct, fdt`offDtStrings
    ensures fdt.Laid() && fdt.Front() == old(fdt.Front()) && fdt.Strs() == old(fdt.Strs())
    ensures err != 0 ==> err == -NOSPACE && fdt.Hdr() == old(fdt.Hdr()) && fdt.St() == old(fdt.St())
    ensures err == 0 <==> old(fdt.offDtStrings + fdt.sizeDtStrings) - Align4(oldlen) + Align4(len) <= fdt.totalsize
    ensures err == 0 ==> Resized(old(fdt.St()), fdt.St(), fdt.forest, p, len)
    ensures err == 0 ==> fdt.offDtStrings == old(fdt.offDtStrings) - Align4(oldlen) + Align4(len)
  {
    hide Fdt.St, Fdt.Strs, Fdt.Front, Dec32, Has, HasFirst, SpliceOf, KeptBut, Cells, Resized;
    ghost var f, a := fdt.forest, fdt.St();
    PropWords(a, f, p);
    fdt.StSize();
    err := SpliceBlocks(fdt, prop + 12, Align4(oldlen), Align4(len));
    if err != 0 {
      return;
    }
    ghost var b := fdt.St();
    fdt.StSize();
    StStore32(fdt, prop + 4, len);
    fdt.StSize();
    FinishResize(a, b, fdt.St(), f, p, len);
  }

  lemma ResizeSplice(a: bytes, b: bytes, c: bytes, pos: nat, u: nat, v: nat, n: nat)
    requires SpliceOf(a, b, 4 * pos + 12, 4 * u, 4 * v) && KeptBut(b, c, 4 * pos + 4, 4)
    requires pos + 3 + u <= n && 4 * n <= |a|
    ensures Spliced(a, c, 0, pos, pos + (3 + u), 3 + v, n)
  {
    hide Spliced, KeptBut, SpliceOf;
    assert 4 * pos + 12 == 4 * (pos + 3);
    SplicedCells(a, b, pos, 3, u, v, n);
    SplicedWrite(a, b, c, pos, pos + (3 + u), 3 + v, n, 4 * pos + 4, 4);
  }

  lemma ResizeWords(a: bytes, b: bytes, c: bytes, x: nat, m: nat, k: nat, l: nat)
    requires SpliceOf(a, b, x + 12, m, k) && KeptBut(b, c, x + 4, 4) && l <= Min(m, k)
    ensures x + 12 + k <= |c| && Dec32(c, x) == Dec32(a, x) && Dec32(c, x + 8) == Dec32(a, x + 8)
    ensures Same(a, x + 12, c, x + 12, l)
  {
    hide Dec32, Same;
    SameWords(a, b, x, x + 12 + Min(m, k));
    KeptWord(b, c, x + 4, 4, x);
    KeptWord(b, c, x + 4, 4, x + 8);
    SameShorter(a, 0, b, 0, x + 12 + Min(m, k), x + 12, l);
    KeptRange(b, c, x + 4, 4, x + 12, l);
    SameTrans(a, x + 12, b, x + 12, c, x + 12, l);
  }

  lemma FinishResize(a: bytes, b: bytes, c: bytes, f: Forest, p: Path, len: nat)
    requires Encodes(a, f) && PropPlace(f, p)
    requires SpliceOf(a, b, 4 * Pos(f, p) + 12, Align4(|At(f, p).item.value|), Align4(len))
    requires KeptBut(b, c, 4 * Pos(f, p) + 4, 4)
    requires 4 * Pos(f, p) + 8 <= |c| && Dec32(c, 4 * Pos(f, p) + 4) == len
    ensures Resized(a, c, f, p, len)
  {
    hide Dec32, Has, HasFirst, Same, Cells, Spliced, SpliceOf, KeptBut;
    var pos, l := Pos(f, p), |At(f, p).item.value|;
    PropWords(a, f, p);
    ResizeSplice(a, b, c, pos, Cells(l), Cells(len), Size(f) + 1);
    ResizeWords(a, b, c, 4 * pos, Align4(l), Align4(len), Min(l, len));
  }

  lemma KeptRange(a: bytes, b: bytes, y: nat, n: nat, x: nat, m: nat)
    requires KeptBut(a, b, y, n) && (x + m <= y || y + n <= x) && x + m <= |a|
    ensures Same(a, x, b, x, m)
  {
  }

  lemma SameWords(a: bytes, b: bytes, x: nat, n: nat)
    requires Same(a, 0, b, 0, n) && x + 12 <= n
    ensures Dec32(b, x) == Dec32(a, x) && Dec32(b, x + 8) == Dec32(a, x + 8)
  {
    MoveWord(a, 0, b, 0, n, x);
    MoveWord(a, 0, b, 0, n, x + 8);
  }

  /** Filling in the value completes the property. */
  lemma FillResized(a: bytes, b: bytes, c: bytes, f: Forest, p: Path, val: bytes)
    requires Encodes(a, f) && Resized(a, b, f, p, |val|) && |val| <= INT_MAX
    requires var x := 4 * Pos(f, p); KeptBut(b, c, x + 12, |val|) && c[x + 12..x + 12 + |val|] == val
    ensures var x, h := 4 * Pos(f, p), At(f, p);
      && PropWritten(c, x, h.item.nameoff, val)
      && WfItem(PropItem(c, x, h.item.nameoff, val))
      && Encodes(c, Put(f, p, Leaf(PropItem(c, x, h.item.nameoff, val), h.rest)))
  {
    hide Dec32, Has, HasFirst, Same, Cells, Spliced;
    var pos, x, h := Pos(f, p), 4 * Pos(f, p), At(f, p);
    KeptWord(b, c, x + 12, |val|, x);
    KeptWord(b, c, x + 12, |val|, x + 4);
    KeptWord(b, c, x + 12, |val|, x + 8);
    SplicedWrite(a, b, c, pos, pos + Width(h), 3 + Cells(|val|), Size(f) + 1, x + 12, |val|);
    PropItemAt(c, pos, h.item.nameoff, val);
    LeafEncodes(a, c, f, p, Width(h), PropItem(c, x, h.item.nameoff, val), h.rest);
  }

  /** b is a with a property put in at place p, its value still to be filled in. */
  ghost predicate Inserted(a: bytes, b: bytes, f: Forest, p: Path, nameoff: u32, len: nat) {
    IsPath(f, p) &&
    var x, pos := 4 * Pos(f, p), Pos(f, p);
    && |b| >= x + 12 + Align4(len)
    && Dec32(b, x) == FDT_PROP && Dec32(b, x + 4) == len && Dec32(b, x + 8) == nameoff
    && Spliced(a, b, 0, pos, pos, 3 + Cells(len), Size(f) + 1)
  }

  lemma FillInserted(a: bytes, b: bytes, c: bytes, f: Forest, p: Path, nameoff: u32, val: bytes)
    requires Encodes(a, f) && Inserted(a, b, f, p, nameoff, |val|) && |val| <= INT_MAX
    requires var x := 4 * Pos(f, p); KeptBut(b, c, x + 12, |val|) && c[x + 12..x + 12 + |val|] == val
    ensures var x := 4 * Pos(f, p);
      && PropWritten(c, x, nameoff, val)
      && WfItem(PropItem(c, x, nameoff, val))
      && Encodes(c, Put(f, p, Leaf(PropItem(c, x, nameoff, val), At(f, p))))
  {
    hide Dec32, Has, HasFirst, Same, Cells, Spliced;
    var pos, x := Pos(f, p), 4 * Pos(f, p);
    KeptWord(b, c, x + 12, |val|, x);
    KeptWord(b, c, x + 12, |val|, x + 4);
    KeptWord(b, c, x + 12, |val|, x + 8);
    SplicedWrite(a, b, c, pos, pos, 3 + Cells(|val|), Size(f) + 1, x + 12, |val|);
    PropItemAt(c, pos, nameoff, val);
    LeafEncodes(a, c, f, p, 0, PropItem(c, x, nameoff, val), At(f, p));
  }

  /** The three words of a new property. */
  method WriteHeader(fdt: Fdt, x: nat, nameoff: u32, len: u32)
    requires fdt.Laid() && x + 12 <= fdt.sizeDtStruct
    modifies fdt.mem
    ensures fdt.Front() == old(fdt.Front()) && fdt.Strs() == old(fdt.Strs())
    ensures KeptBut(old(fdt.St()), fdt.St(), x, 12)
    ensures Dec32(fdt.St(), x) == FDT_PROP && Dec32(fdt.St(), x + 4) == len && Dec32(fdt.St(), x + 8) == nameoff
  {
    hide Fdt.St, Fdt.Strs, Fdt.Front, Dec32, Same, KeptBut, Fdt.Laid, Fdt.InBounds, Fdt.StructIn;
    fdt.Blocks();
    ghost var a := fdt.St();
    StStore32(fdt, x, FDT_PROP);
    ghost var b := fdt.St();
    StStore32(fdt, x + 8, nameoff);
    ghost var c := fdt.St();
    StStore32(fdt, x + 4, len);
    ThreeWrites(a, b, c, fdt.St(), x);
  }

  lemma ThreeWrites(a: bytes, b: bytes, c: bytes, d: bytes, x: nat)
    requires x + 12 <= |a| && KeptBut(a, b, x, 4) && KeptBut(b, c, x + 8, 4) && KeptBut(c, d, x + 4, 4)
    ensures KeptBut(a, d, x, 12) && Dec32(d, x) == Dec32(b, x) && Dec32(d, x + 8) == Dec32(c, x + 8)
  {
  }

  lemma SpliceSize(a: bytes, b: bytes, x: nat, oldlen: nat, newlen: nat)
    requires SpliceOf(a, b, x, oldlen, newlen)
    ensures x + oldlen <= |a| && |b| == |a| - oldlen + newlen
  {
  }

  lemma FinishInsert(a: bytes, b: bytes, c: bytes, f: Forest, p: Path, nameoff: u32, len: nat)
    requires Encodes(a, f) && IsPath(f, p)
    requires var x := 4 * Pos(f, p);
      && SpliceOf(a, b, x, 0, 12 + Align4(len)) && KeptBut(b, c, x, 12) && x + 12 <= |c|
      && Dec32(c, x) == FDT_PROP && Dec32(c, x + 4) == len && Dec32(c, x + 8) == nameoff
    ensures Inserted(a, c, f, p, nameoff, len)
  {
    hide Dec32, Has, HasFirst, SpliceOf, Cells, Spliced;
    var pos, v := Pos(f, p), 3 + Cells(len);
    PosRange(f, p);
    SplicedCells(a, b, pos, 0, 0, v, Size(f) + 1);
    SplicedWrite(a, b, c, pos, pos, v, Size(f) + 1, 4 * pos, 12);
    SpliceSize(a, b, 4 * pos, 0, 12 + Align4(len));
  }

  /** The splice and the header of fdt_add_property_, at place p. */
  method InsertAt(fdt: Fdt, x: nat, nameoff: u32, len: nat, ghost p: Path) returns (err: int)
    requires fdt.Laid() && Encodes(fdt.St(), fdt.forest) && IsPath(fdt.forest, p) && len <= MAX_LEN
    requires x == 4 * Pos(fdt.forest, p)
    modifies fdt.mem, fdt`sizeDtStruct, fdt`offDtStrings
    ensures fdt.Laid() && fdt.Front() == old(fdt.Front()) && fdt.Strs() == old(fdt.Strs())
    ensures err != 0 ==> err == -NOSPACE && fdt.Hdr() == old(fdt.Hdr()) && fdt.St() == old(fdt.St())
    ensures err == 0 <==> old(fdt.offDtStrings + fdt.sizeDtStrings) + 12 + Align4(len) <= fdt.totalsize
    ensures err == 0 ==> Inserted(old(fdt.St()), fdt.St(), fdt.forest, p, nameoff, len)
    ensures err == 0 ==> fdt.offDtStrings == old(fdt.offDtStrings) + 12 + Align4(len)
  {
    hide Fdt.St, Fdt.Strs, Fdt.Front, Dec32, Has, HasFirst, SpliceOf, KeptBut, Cells, Inserted;
    ghost var f, a := fdt.forest, fdt.St();
    assert x <= |a| by { PosRange(f, p); }
    fdt.StSize();
    err := SpliceBlocks(fdt, x, 0, 12 + Align4(len));
    if err != 0 {
      return;
    }
    ghost var b := fdt.St();
    fdt.StSize();
    WriteHeader(fdt, x, nameoff, len);
    fdt.StSize();
    FinishInsert(a, b, fdt.St(), f, p, nameoff, len);
  }

  /** fdt_del_last_string_ */
  method DelLastString(fdt: Fdt, s: bytes)
    requires fdt.Laid() && |s| <= MAX_LEN
    modifies fdt`sizeDtStrings
    ensures fdt.sizeDtStrings == U32(old(fdt.sizeDtStrings) - (|s| + 1))
    ensures fdt.StructIn() && fdt.St() == old(fdt.St())
    ensures |s| + 1 <= old(fdt.sizeDtStrings) ==>
              (fdt.Laid() && fdt.Front() == old(fdt.Front()) &&
               fdt.Strs() == old(fdt.Strs())[..old(fdt.sizeDtStrings) - (|s| + 1)])
  {
    var newlen := |s| + 1;
    fdt.sizeDtStrings := U32(fdt.sizeDtStrings - newlen);
  }

  /** The room that adding a property takes: its three words, its value, and its name if that is new. */
  ghost function AddedSize(strs: bytes, name: bytes, len: nat): nat {
    12 + Align4(len) + (if Absent(strs, name) then |name| + 1 else 0)
  }

  /**
   * fdt_add_property_. When there is no room for the property, the name that may just have been
   * added is taken off again, by the length of the whole C string name.
   */
  method AddProperty(fdt: Fdt, nodeoffset: int, name: bytes, namelen: nat, len: nat, ghost place: Walk.Option<Path>)
    returns (err: int, prop: int, ghost nameoff: u32)
    requires fdt.Valid() && NodeOffset(fdt, nodeoffset, place) && len <= MAX_LEN
    requires 0 !in name && namelen <= |name| <= MAX_LEN
    modifies fdt.mem, fdt`sizeDtStruct, fdt`offDtStrings, fdt`sizeDtStrings
    ensures place.None? ==> err == -BADOFFSET
    ensures place.Some? && err != 0 ==> err == -NOSPACE
    ensures err != 0 ==> fdt.StructIn() && fdt.St() == old(fdt.St())
    ensures err != 0 && namelen == |name| ==>
              (fdt.Hdr() == old(fdt.Hdr()) && fdt.Laid() && fdt.Front() == old(fdt.Front()) &&
               fdt.Strs() == old(fdt.Strs()))
    ensures err != 0 && place.Some? ==>
              fdt.sizeDtStrings ==
              (if Absent(old(fdt.Strs()), name[..namelen]) &&
               old(fdt.offDtStrings + fdt.sizeDtStrings) + namelen + 1 <= fdt.totalsize
               then U32(old(fdt.sizeDtStrings) + namelen - |name|) else old(fdt.sizeDtStrings))
    ensures err == 0 ==> place.Some? && fdt.Laid() && fdt.Front() == old(fdt.Front())
    ensures err == 0 ==> fdt.Strs() == Grown(old(fdt.Strs()), name[..namelen], Absent(old(fdt.Strs()), name[..namelen]))
    ensures err == 0 ==> Walk.StrAt(fdt.Strs(), nameoff) == Walk.Some(name[..namelen])
    ensures err == 0 ==>
              (IsPath(fdt.forest, Inside(place.value, Here)) &&
               prop == 4 * Pos(fdt.forest, Inside(place.value, Here)) &&
               Inserted(old(fdt.St()), fdt.St(), fdt.forest, Inside(place.value, Here), nameoff, len))
    ensures err == 0 <==>
              place.Some? &&
              old(fdt.offDtStrings + fdt.sizeDtStrings + AddedSize(fdt.Strs(), name[..namelen], len)) <= fdt.totalsize
    ensures err == 0 ==>
              fdt.offDtStrings + fdt.sizeDtStrings ==
              old(fdt.offDtStrings + fdt.sizeDtStrings + AddedSize(fdt.Strs(), name[..namelen], len))
  {
    hide Fdt.St, Fdt.Strs, Fdt.Front, Dec32, Has, HasFirst, Same, KeptBut, Cells, Align4, Walk.StrAt, Absent, Inserted,
         Walk.CheckNode, Encodes,
         At, Pos, IsPath, Inside, Named;
    prop, nameoff := -1, 0;
    var nextoffset := FdtCore.CheckNodeOffset(fdt, nodeoffset);
    if place.Some? {
      BodyStart(fdt.St(), fdt.forest, place.value);
    }
    if nextoffset < 0 {
      err := nextoffset;
      CheckNodeError(fdt.St(), nodeoffset);
      return;
    }
    ghost var strs := fdt.Strs();
    StrsSize(fdt);
    var namestroff, added := FindAddString(fdt, name[..namelen]);
    if namestroff < 0 {
      err := namestroff;
      return;
    }
    StrsSize(fdt);
    err := InsertAt(fdt, nextoffset, namestroff, len, Inside(place.value, Here));
    if err != 0 {
      if added {
        if |name| == namelen {
          U32Id(fdt.sizeDtStrings - (|name| + 1));
        }
        DelLastString(fdt, name);
        assert Grown(strs, name[..namelen], true)[..|strs|] == strs;
      }
      return;
    }
    nameoff, prop := namestroff, nextoffset;
  }

  lemma StrsSize(fdt: Fdt)
    requires fdt.InBounds()
    ensures |fdt.Strs()| == fdt.sizeDtStrings
  {
  }

  lemma CheckNodeError(st: bytes, off: int)
    ensures Walk.CheckNode(st, off) < 0 ==> Walk.CheckNode(st, off) == -BADOFFSET
  {
  }

  /** Where the body of the node at place p starts. */
  lemma BodyStart(st: bytes, f: Forest, p: Path)
    requires Encodes(st, f) && IsPath(f, p) && At(f, p).Node?
    ensures IsPath(f, Inside(p, Here)) && At(f, Inside(p, Here)) == At(f, p).body
    ensures Walk.CheckNode(st, 4 * Pos(f, p)) == 4 * Pos(f, Inside(p, Here))
    ensures At(f, p).item.Begin? && Walk.NameOf(st, 4 * Pos(f, p)) == Walk.Some(At(f, p).item.name)
    ensures 4 * Pos(f, Inside(p, Here)) <= |st|
  {
    hide Has, HasFirst;
    AtWf(f, p);
    HasAt(st, 0, f, p);
    Traverse.HasHead(st, Pos(f, p), At(f, p));
    Traverse.NameOfHas(st, Pos(f, p), At(f, p));
    InsideAt(f, p, Here, Empty);
    PosRange(f, Inside(p, Here));
  }

  // ---------- The probe of the editors ----------

  /** fdt_blocks_misordered_, in 32-bit arithmetic. */
  function Misordered(h: Header, memRsvSize: u32, structSize: u32): bool {
    || h.offMemRsvmap < FDT_V17_SIZE
    || h.offDtStruct < U32(h.offMemRsvmap + memRsvSize)
    || h.offDtStrings < U32(h.offDtStruct + structSize)
    || h.totalsize < U32(h.offDtStrings + h.sizeDtStrings)
  }

  /** The error of fdt_rw_probe_ on a header, or 0. */
  function RwError(h: Header): int {
    if ReadOnly.RoError(h) != 0 then ReadOnly.RoError(h)
    else if h.version < 17 then -BADVERSION
    else if Misordered(h, 16, h.sizeDtStruct) then -BADLAYOUT
    else 0
  }

  /** Which headers the editors accept, and why they refuse the others; block ends are taken modulo 2^32. */
  lemma RwErrorExact(h: Header)
    ensures RwError(h) == 0 <==>
              && ReadOnly.RoError(h) == 0 && h.version >= 17
              && 40 <= h.offMemRsvmap && (h.offMemRsvmap + 16) % 0x1_0000_0000 <= h.offDtStruct
              && (h.offDtStruct + h.sizeDtStruct) % 0x1_0000_0000 <= h.offDtStrings
              && (h.offDtStrings + h.sizeDtStrings) % 0x1_0000_0000 <= h.totalsize
    ensures ReadOnly.RoError(h) != 0 ==> RwError(h) == ReadOnly.RoError(h)
    ensures ReadOnly.RoError(h) == 0 && h.version < 17 ==> RwError(h) == -BADVERSION
    ensures ReadOnly.RoError(h) == 0 && h.version >= 17 ==> RwError(h) == 0 || RwError(h) == -BADLAYOUT
  {
  }

  /** No block end of the header wraps around 2^32. */
  predicate NoWrap(h: Header) {
    && h.offMemRsvmap + 16 < TWO_32
    && h.offDtStruct + h.sizeDtStruct < TWO_32
    && h.offDtStrings + h.sizeDtStrings < TWO_32
  }

  /**
   * The blocks of a complete tree of version 17 are laid out in order exactly when the probe accepts the header and no
   * block end wraps around.
   */
  lemma RwErrorMeans(fdt: Fdt)
    requires fdt.totalsize <= fdt.mem.Length && fdt.magic == FDT_MAGIC && fdt.version == FDT_LAST_SUPPORTED_VERSION
    ensures fdt.Laid() <==> RwError(fdt.Hdr()) == 0 && NoWrap(fdt.Hdr())
  {
    hide U32;
    if NoWrap(fdt.Hdr()) {
      U32Id(fdt.offMemRsvmap + 16);
      U32Id(fdt.offDtStruct + fdt.sizeDtStruct);
      U32Id(fdt.offDtStrings + fdt.sizeDtStrings);
    }
  }

  /** A header with a wrapped block end passes the probe although the structure block does not lie in the blob. */
  lemma WrapPasses()
    ensures exists h: Header :: RwError(h) == 0 && h.offDtStruct + h.sizeDtStruct > h.totalsize
  {
    var h := Header(FDT_MAGIC, 100, 0xffff_fff0, 60, 40, 17, 16, 0, 0, 0x20);
    assert U32(h.offDtStruct + 0x20) == 0x10;
    assert RwError(h) == 0 && h.offDtStruct + h.sizeDtStruct > h.totalsize;
  }

  /** fdt_rw_probe_ */
  method RwProbe(fdt: Fdt) returns (err: int)
    modifies fdt`version
    ensures err == RwError(old(fdt.Hdr()))
    ensures fdt.version == if err == 0 && old(fdt.version) > FDT_LAST_SUPPORTED_VERSION
                           then FDT_LAST_SUPPORTED_VERSION else old(fdt.version)
  {
    err := ReadOnly.RoProbe(fdt);
    if err < 0 {
      return;
    }
    if fdt.version < 17 {
      return -BADVERSION;
    }
    if Misordered(fdt.Hdr(), 16, fdt.sizeDtStruct) {
      return -BADLAYOUT;
    }
    if fdt.version > FDT_LAST_SUPPORTED_VERSION {
      fdt.version := FDT_LAST_SUPPORTED_VERSION;
    }
    return 0;
  }

  // ---------- Setting properties ----------

  /** In g, the node at p has a property called name at offset x, with the given value. */
  ghost predicate ValueThere(g: Forest, strs: bytes, p: Path, name: bytes, x: int, val: bytes) {
    && IsPath(g, p) && At(g, p).Node?
    && var q := Traverse.PropPath(At(g, p).body, strs, name);
       q.Some? && PropPlace(g, Inside(p, q.value)) && x == 4 * Pos(g, Inside(p, q.value)) &&
         At(g, Inside(p, q.value)).item.value == val
  }

  lemma {:induction false} PutPropPath(b: Forest, q: Path, it: Item, strs: bytes, name: bytes)
    requires Traverse.PropPath(b, strs, name) == Walk.Some(q) && it.Prop? && it.nameoff == At(b, q).item.nameoff
    ensures Traverse.PropPath(Put(b, q, Leaf(it, At(b, q).rest)), strs, name) == Walk.Some(q)
    decreases q
  {
    match q
    case Here =>
    case Next(r) => PutPropPath(b.rest, r, it, strs, name);
  }

  lemma ReplacedThere(f: Forest, p: Path, q: Path, it: Item, strs: bytes, name: bytes)
    requires IsPath(f, p) && At(f, p).Node? && Traverse.PropPath(At(f, p).body, strs, name) == Walk.Some(q)
    requires it.Prop? && it.nameoff == At(At(f, p).body, q).item.nameoff
    ensures IsPath(f, Inside(p, q)) && At(f, Inside(p, q)) == At(At(f, p).body, q)
    ensures ValueThere(Put(f, Inside(p, q), Leaf(it, At(f, Inside(p, q)).rest)), strs, p, name,
                       4 * Pos(f, Inside(p, q)), it.value)
  {
    hide Traverse.PropPath;
    var b := At(f, p).body;
    var x := Leaf(it, At(b, q).rest);
    InsideAt(f, p, q, x);
    PutAt(f, p, At(f, p).(body := Put(b, q, x)));
    PutAt(f, Inside(p, q), x);
    PutPropPath(b, q, it, strs, name);
  }

  lemma InsertedThere(f: Forest, p: Path, it: Item, strs: bytes, name: bytes)
    requires IsPath(f, p) && At(f, p).Node? && it.Prop? && Walk.StrAt(strs, it.nameoff) == Walk.Some(name)
    ensures IsPath(f, Inside(p, Here))
    ensures ValueThere(Put(f, Inside(p, Here), Leaf(it, At(f, p).body)), strs, p, name, 4 * Pos(f, Inside(p, Here)),
                       it.value)
  {
    hide Walk.StrAt;
    var b := At(f, p).body;
    InsideAt(f, p, Here, Leaf(it, b));
    PutAt(f, p, At(f, p).(body := Leaf(it, b)));
    PutAt(f, Inside(p, Here), Leaf(it, b));
  }

  /** A property of the node at p has been given room and filled in. */
  lemma SetReplaced(a: bytes, b: bytes, c: bytes, strs: bytes, f: Forest, p: Path, q: Path, name: bytes, val: bytes)
    returns (g: Forest)
    requires Encodes(a, f) && Named(f, strs) && IsPath(f, p) && At(f, p).Node? && |val| <= INT_MAX
    requires Traverse.PropPath(At(f, p).body, strs, name) == Walk.Some(q)
    requires IsPath(f, Inside(p, q)) && Resized(a, b, f, Inside(p, q), |val|)
    requires var x := 4 * Pos(f, Inside(p, q));
              KeptBut(b, c, x + 12, |val|) && x + 12 + |val| <= |c| && c[x + 12..x + 12 + |val|] == val
    ensures Encodes(c, g) && Named(g, strs)
    ensures Abs(g, strs) == WithBody(Abs(f, strs), AbsPath(f, p),
                                     Replace(BodyAt(Abs(f, strs), AbsPath(f, p)), name, val))
    ensures NodeEdited(f, g, p) && ValueThere(g, strs, p, name, 4 * Pos(f, Inside(p, q)), val)
  {
    hide Dec32, Has, HasFirst, Same, Cells, Spliced, Encodes, Abs, KeptBut, WfItem;
    FillResized(a, b, c, f, Inside(p, q), val);
    var x, h := 4 * Pos(f, Inside(p, q)), At(f, Inside(p, q));
    var it := PropItem(c, x, h.item.nameoff, val);
    InsideAt(f, p, q, Empty);
    EncodesWf(a, f);
    ReplaceInside(f, p, strs, name, q, it);
    g := Put(f, Inside(p, q), Leaf(it, h.rest));
    PutEdited(f, p, q, Leaf(it, h.rest));
    ReplacedThere(f, p, q, it, strs, name);
  }

  lemma EncodesWf(a: bytes, f: Forest)
    requires Encodes(a, f)
    ensures Wf(f)
  {
  }

  /** A property has been added to the node at p and filled in. */
  lemma SetInserted(a: bytes, b: bytes, c: bytes, strs: bytes, f: Forest, p: Path, nameoff: u32, name: bytes,
                    val: bytes)
    returns (g: Forest)
    requires Encodes(a, f) && Named(f, strs) && IsPath(f, p) && At(f, p).Node? && |val| <= INT_MAX
    requires Walk.StrAt(strs, nameoff) == Walk.Some(name)
    requires IsPath(f, Inside(p, Here)) && Inserted(a, b, f, Inside(p, Here), nameoff, |val|)
    requires var x := 4 * Pos(f, Inside(p, Here));
              KeptBut(b, c, x + 12, |val|) && x + 12 + |val| <= |c| && c[x + 12..x + 12 + |val|] == val
    ensures Encodes(c, g) && Named(g, strs)
    ensures Abs(g, strs) == WithBody(Abs(f, strs), AbsPath(f, p), PropT(name, val, BodyAt(Abs(f, strs), AbsPath(f, p))))
    ensures NodeEdited(f, g, p) && ValueThere(g, strs, p, name, 4 * Pos(f, Inside(p, Here)), val)
  {
    hide Dec32, Has, HasFirst, Same, Cells, Spliced, Encodes, Abs, KeptBut, WfItem, Walk.StrAt;
    FillInserted(a, b, c, f, Inside(p, Here), nameoff, val);
    var x := 4 * Pos(f, Inside(p, Here));
    var it := PropItem(c, x, nameoff, val);
    InsideAt(f, p, Here, Empty);
    EncodesWf(a, f);
    InsertInside(f, p, strs, name, it);
    g := Put(f, Inside(p, Here), Leaf(it, At(f, p).body));
    PutEdited(f, p, Here, Leaf(it, At(f, p).body));
    InsertedThere(f, p, it, strs, name);
  }

  /** A property that was found gets a new value: fdt_resize_property_, then the copy. */
  method ReplaceValue(fdt: Fdt, prop: nat, oldlen: nat, val: bytes, ghost name: bytes, ghost p: Path, ghost q: Path)
    returns (err: int)
    requires fdt.Valid() && IsPath(fdt.forest, p) && At(fdt.forest, p).Node? && |val| <= MAX_LEN
    requires Traverse.PropPath(At(fdt.forest, p).body, fdt.Strs(), name) == Walk.Some(q)
    requires PropPlace(fdt.forest, Inside(p, q)) && prop == 4 * Pos(fdt.forest, Inside(p, q))
    requires oldlen == |At(fdt.forest, Inside(p, q)).item.value|
    modifies fdt, fdt.mem
    ensures fdt.Valid() && fdt.Front() == old(fdt.Front()) && fdt.Strs() == old(fdt.Strs())
    ensures err == 0 <==> old(fdt.offDtStrings + fdt.sizeDtStrings) - Align4(oldlen) + Align4(|val|) <= fdt.totalsize
    ensures err == 0 ==>
              fdt.offDtStrings + fdt.sizeDtStrings ==
                old(fdt.offDtStrings + fdt.sizeDtStrings) - Align4(oldlen) + Align4(|val|)
    ensures err != 0 ==>
              err == -NOSPACE && fdt.Hdr() == old(fdt.Hdr()) && fdt.St() == old(fdt.St()) &&
              fdt.forest == old(fdt.forest)
    ensures err == 0 ==> fdt.Tree() == old(WithBody(fdt.Tree(), AbsPath(fdt.forest, p),
                                                    Replace(BodyAt(fdt.Tree(), AbsPath(fdt.forest, p)), name, val)))
    ensures err == 0 ==> NodeEdited(old(fdt.forest), fdt.forest, p)
  {
    hide Fdt.St, Fdt.Strs, Fdt.Front, Dec32, Has, HasFirst, Same, KeptBut, Cells, Resized, Encodes, Abs, Replace,
         WithBody, BodyAt, Named,
         Walk.StrAt;
    ghost var f, a, strs := fdt.forest, fdt.St(), fdt.Strs();
    err := ResizeAt(fdt, prop, oldlen, |val|, Inside(p, q));
    if err != 0 {
      return;
    }
    ghost var b := fdt.St();
    fdt.StSize();
    ResizedSize(a, b, f, Inside(p, q), |val|);
    StMemcpy(fdt, prop + 12, val);
    fdt.StSize();
    ghost var g := SetReplaced(a, b, fdt.St(), strs, f, p, q, name, val);
    fdt.Adopt(g);
  }

  lemma ResizedSize(a: bytes, b: bytes, f: Forest, p: Path, len: nat)
    requires Resized(a, b, f, p, len)
    ensures PropPlace(f, p) && 4 * Pos(f, p) + 12 + len <= |b|
  {
  }

  lemma InsertedSize(a: bytes, b: bytes, f: Forest, p: Path, nameoff: u32, len: nat)
    requires Inserted(a, b, f, p, nameoff, len)
    ensures IsPath(f, p) && 4 * Pos(f, p) + 12 + len <= |b|
  {
  }

  /** A property that was not found is added: fdt_add_property_, then the copy. */
  method InsertValue(fdt: Fdt, nodeoffset: int, name: bytes, namelen: nat, val: bytes, ghost place: Walk.Option<Path>)
    returns (err: int)
    requires fdt.Valid() && NodeOffset(fdt, nodeoffset, place) && |val| <= MAX_LEN
    requires 0 !in name && namelen <= |name| <= MAX_LEN
    modifies fdt, fdt.mem
    ensures place.None? ==> err == -BADOFFSET
    ensures place.Some? && err != 0 ==> err == -NOSPACE
    ensures err != 0 && namelen == |name| ==>
              (fdt.Valid() && fdt.Hdr() == old(fdt.Hdr()) && fdt.forest == old(fdt.forest) &&
               fdt.Front() == old(fdt.Front()) && fdt.Strs() == old(fdt.Strs()) && fdt.St() == old(fdt.St()))
    ensures err == 0 ==> place.Some? && fdt.Valid() && fdt.Front() == old(fdt.Front())
    ensures err == 0 ==>
              fdt.Tree() == old(WithBody(fdt.Tree(), AbsPath(fdt.forest, place.value),
                                         PropT(name[..namelen], val,
                                               BodyAt(fdt.Tree(), AbsPath(fdt.forest, place.value)))))
    ensures err == 0 <==>
              place.Some? &&
              old(fdt.offDtStrings + fdt.sizeDtStrings + AddedSize(fdt.Strs(), name[..namelen], |val|)) <= fdt.totalsize
    ensures err == 0 ==>
              fdt.offDtStrings + fdt.sizeDtStrings ==
              old(fdt.offDtStrings + fdt.sizeDtStrings + AddedSize(fdt.Strs(), name[..namelen], |val|))
    ensures err == 0 ==> NodeEdited(old(fdt.forest), fdt.forest, place.value)
  {
    hide Fdt.St, Fdt.Strs, Fdt.Front, Dec32, Has, HasFirst, Same, KeptBut, Cells, Inserted, Encodes, Abs, WithBody,
         BodyAt, Named,
         Walk.StrAt, Grown, Walk.CheckNode;
    ghost var f, a, strs, s := fdt.forest, fdt.St(), fdt.Strs(), name[..namelen];
    var prop;
    ghost var nameoff;
    err, prop, nameoff := AddProperty(fdt, nodeoffset, name, namelen, |val|, place);
    if err != 0 {
      return;
    }
    ghost var b, p := fdt.St(), place.value;
    fdt.StSize();
    InsertedSize(a, b, f, Inside(p, Here), nameoff, |val|);
    StMemcpy(fdt, prop + 12, val);
    fdt.StSize();
    EncodesWf(a, f);
    GrownNames(f, strs, s, Absent(strs, s));
    ghost var g := SetInserted(a, b, fdt.St(), fdt.Strs(), f, p, nameoff, s, val);
    fdt.Adopt(g);
  }

  /** A longer string table names the same tree. */
  lemma GrownNames(f: Forest, strs: bytes, s: bytes, added: bool)
    requires Wf(f) && Named(f, strs)
    ensures Named(f, Grown(strs, s, added)) && Abs(f, Grown(strs, s, added)) == Abs(f, strs)
  {
    AbsAppend(f, strs, s + [0]);
  }

  /** The room that setting a property takes. */
  ghost function SetSize(strs: bytes, body: Tree, name: bytes, len: nat): int {
    match Get(body, name)
    case Some(v) => Align4(len) - Align4(|v|)
    case None => AddedSize(strs, name, len)
  }

  /** What fdt_get_property says about a node of the tree. */
  lemma LookedUp(a: bytes, strs: bytes, f: Forest, p: Path, name: bytes) returns (q: Path)
    requires Encodes(a, f) && Named(f, strs) && IsPath(f, p) && At(f, p).Node?
    ensures IsNode(Abs(f, strs), AbsPath(f, p))
    ensures var r := Walk.GetProperty(a, strs, 4 * Pos(f, p), name);
      match Get(BodyAt(Abs(f, strs), AbsPath(f, p)), name)
      case None => r == -NOTFOUND
      case Some(v) =>
        && Traverse.PropPath(At(f, p).body, strs, name) == Walk.Some(q)
        && PropPlace(f, Inside(p, q)) && r == 4 * Pos(f, Inside(p, q)) && At(f, Inside(p, q)).item.value == v
        && 4 * Pos(f, Inside(p, q)) + 12 <= |a| && Dec32(a, 4 * Pos(f, Inside(p, q)) + 4) == |v|
  {
    hide Has, HasFirst, Walk.GetProperty, Walk.StrAt, Dec32, Encodes;
    EncodesWf(a, f);
    FoundProperty(a, strs, f, p, name);
    NodeAbs(f, p, strs);
    PropPathAbs(At(f, p).body, strs, name);
    match Traverse.PropPath(At(f, p).body, strs, name)
    case None => q := Here;
    case Some(r) =>
      q := r;
      InsideAt(f, p, q, Empty);
      PropWords(a, f, Inside(p, q));
  }

  lemma NoNode(st: bytes, strs: bytes, off: int, name: bytes)
    requires Walk.CheckNode(st, off) < 0
    ensures Walk.GetProperty(st, strs, off, name) == -BADOFFSET
  {
    CheckNodeError(st, off);
  }

  /** What property lookup says about a blob. */
  lemma LookupMeans(fdt: Fdt, nodeoffset: int, name: bytes, place: Walk.Option<Path>) returns (q: Path)
    requires fdt.Valid() && NodeOffset(fdt, nodeoffset, place)
    ensures fdt.InBounds() && -INT_MAX - 1 <= nodeoffset <= INT_MAX
    ensures place.Some? ==> IsPath(fdt.forest, place.value) && At(fdt.forest, place.value).Node?
    ensures place.Some? ==> IsNode(fdt.Tree(), AbsPath(fdt.forest, place.value))
    ensures var r := Walk.GetProperty(fdt.St(), fdt.Strs(), nodeoffset, name);
      match place
      case None => r == -BADOFFSET
      case Some(p) =>
        match Get(BodyAt(fdt.Tree(), AbsPath(fdt.forest, p)), name)
        case None => r == -NOTFOUND
        case Some(v) =>
          && 0 <= r <= INT_MAX && r + 8 <= |fdt.St()| && Dec32(fdt.St(), r + 4) == |v|
          && Traverse.PropPath(At(fdt.forest, p).body, fdt.Strs(), name) == Walk.Some(q)
          && PropPlace(fdt.forest, Inside(p, q)) && r == 4 * Pos(fdt.forest, Inside(p, q))
          && At(fdt.forest, Inside(p, q)).item.value == v
  {
    hide Fdt.St, Fdt.Strs, Encodes, Abs, Named, Walk.GetProperty, Dec32, Get, BodyAt, Traverse.PropPath;
    match place
    case None =>
      NoNode(fdt.St(), fdt.Strs(), nodeoffset, name);
      q := Here;
    case Some(p) =>
      fdt.StSize();
      q := LookedUp(fdt.St(), fdt.Strs(), fdt.forest, p, name);
  }

  /** fdt_setprop_namelen, once the header has been accepted. */
  method SetPropProbed(fdt: Fdt, nodeoffset: int, name: bytes, namelen: nat, val: bytes, ghost place: Walk.Option<Path>)
    returns (err: int)
    requires fdt.Valid() && NodeOffset(fdt, nodeoffset, place)
    requires 0 !in name && namelen <= |name| <= MAX_LEN && |val| <= MAX_LEN
    modifies fdt, fdt.mem
    ensures place.None? ==> err == -BADOFFSET
    ensures place.Some? ==> err == 0 || err == -NOSPACE
    ensures place.Some? ==>
              (err == 0 <==>
               old(fdt.offDtStrings + fdt.sizeDtStrings +
                   SetSize(fdt.Strs(), BodyAt(fdt.Tree(), AbsPath(fdt.forest, place.value)), name[..namelen], |val|))
               <= fdt.totalsize)
    ensures err == 0 ==>
              (&& fdt.Valid() && fdt.Front() == old(fdt.Front())
               && fdt.Tree() == old(WithBody(fdt.Tree(), AbsPath(fdt.forest, place.value),
                                             Set(BodyAt(fdt.Tree(), AbsPath(fdt.forest, place.value)), name[..namelen],
                                                 val))))
    ensures err != 0 && namelen == |name| ==>
              (&& fdt.Valid() && fdt.Hdr() == old(fdt.Hdr()) && fdt.Front() == old(fdt.Front())
               && fdt.forest == old(fdt.forest) && fdt.St() == old(fdt.St()) && fdt.Strs() == old(fdt.Strs()))
    ensures err == 0 ==> NodeEdited(old(fdt.forest), fdt.forest, place.value)
    ensures err == 0 ==>
              fdt.offDtStrings + fdt.sizeDtStrings ==
              old(fdt.offDtStrings + fdt.sizeDtStrings +
                  SetSize(fdt.Strs(), BodyAt(fdt.Tree(), AbsPath(fdt.forest, place.value)), name[..namelen], |val|))
  {
    hide Fdt.St, Fdt.Strs, Fdt.Front, Fdt.Tree, Fdt.Hdr, Fdt.Valid, Fdt.Laid, Fdt.InBounds, Dec32, Replace, Remove,
         WithBody, BodyAt, AbsPath, Walk.GetProperty,
         Traverse.PropPath, Get, NodeOffset, PropPlace, IsPath, At, Pos, IsNode, Absent, Align4;
    var s := name[..namelen];
    ghost var q := LookupMeans(fdt, nodeoffset, s, place);
    var prop, oldlen := ReadOnly.GetProperty(fdt, nodeoffset, s);
    if prop >= 0 {
      err := ReplaceValue(fdt, prop, oldlen, val, s, place.value, q);
    } else {
      err := oldlen;
      if err == -NOTFOUND {
        err := InsertValue(fdt, nodeoffset, name, namelen, val, place);
      }
    }
  }

  /**
   * fdt_setprop_namelen. On success the tree is the old one with the property set in the node at
   * the given place, and nothing else changed. It fails for lack of room exactly when the blocks
   * would not fit in totalsize, and then changes nothing if namelen is the length of name.
   */
  method SetPropNamelen(fdt: Fdt, nodeoffset: int, name: bytes, namelen: nat, val: bytes,
                        ghost place: Walk.Option<Path>)
    returns (err: int)
    requires RwError(fdt.Hdr()) == 0 ==> fdt.Valid() && NodeOffset(fdt, nodeoffset, place)
    requires 0 !in name && namelen <= |name| <= MAX_LEN && |val| <= MAX_LEN
    modifies fdt, fdt.mem
    ensures old(RwError(fdt.Hdr())) != 0 ==>
              (err == old(RwError(fdt.Hdr())) && fdt.Hdr() == old(fdt.Hdr()) && fdt.mem[..] == old(fdt.mem[..]))
    ensures old(RwError(fdt.Hdr())) == 0 && place.None? ==> err == -BADOFFSET
    ensures old(RwError(fdt.Hdr())) == 0 && place.Some? ==> err == 0 || err == -NOSPACE
    ensures old(RwError(fdt.Hdr())) == 0 && place.Some? ==>
              (err == 0 <==>
               old(fdt.offDtStrings + fdt.sizeDtStrings +
                   SetSize(fdt.Strs(), BodyAt(fdt.Tree(), AbsPath(fdt.forest, place.value)), name[..namelen], |val|))
               <= fdt.totalsize)
    ensures old(RwError(fdt.Hdr())) == 0 && err == 0 ==>
              (&& fdt.Valid() && fdt.Front() == old(fdt.Front())
               && fdt.Tree() == old(WithBody(fdt.Tree(), AbsPath(fdt.forest, place.value),
                                             Set(BodyAt(fdt.Tree(), AbsPath(fdt.forest, place.value)), name[..namelen],
                                                 val))))
    ensures old(RwError(fdt.Hdr())) == 0 && err != 0 && namelen == |name| ==>
              (&& fdt.Valid() && fdt.Hdr() == old(fdt.Hdr()) && fdt.Front() == old(fdt.Front())
               && fdt.forest == old(fdt.forest) && fdt.St() == old(fdt.St()) && fdt.Strs() == old(fdt.Strs()))
    ensures old(RwError(fdt.Hdr())) == 0 && err == 0 ==> NodeEdited(old(fdt.forest), fdt.forest, place.value)
    ensures old(RwError(fdt.Hdr())) == 0 && err == 0 ==>
              fdt.offDtStrings + fdt.sizeDtStrings ==
              old(fdt.offDtStrings + fdt.sizeDtStrings +
                  SetSize(fdt.Strs(), BodyAt(fdt.Tree(), AbsPath(fdt.forest, place.value)), name[..namelen], |val|))
  {
    hide Fdt.St, Fdt.Strs, Fdt.Front, Fdt.Tree, RwError, WithBody, BodyAt, Set, SetSize, AbsPath, NodeEdited;
    err := RwProbe(fdt);
    if err != 0 {
      return;
    }
    err := SetPropProbed(fdt, nodeoffset, name, namelen, val, place);
  }

  // ---------- Placeholders ----------

  lemma KeptSelf(a: bytes, y: nat, n: nat)
    requires y + n <= |a|
    ensures KeptBut(a, a, y, n)
  {
  }

  /** fdt_resize_property_ on a property that was found: its new value is whatever is there. */
  method ReplacePlaceholder(fdt: Fdt, prop: nat, oldlen: nat, len: nat, ghost name: bytes, ghost p: Path, ghost q: Path)
    returns (err: int, ghost v: bytes)
    requires fdt.Valid() && IsPath(fdt.forest, p) && At(fdt.forest, p).Node? && len <= MAX_LEN
    requires Traverse.PropPath(At(fdt.forest, p).body, fdt.Strs(), name) == Walk.Some(q)
    requires PropPlace(fdt.forest, Inside(p, q)) && prop == 4 * Pos(fdt.forest, Inside(p, q))
    requires oldlen == |At(fdt.forest, Inside(p, q)).item.value|
    modifies fdt, fdt.mem
    ensures fdt.Valid() && fdt.Front() == old(fdt.Front()) && fdt.Strs() == old(fdt.Strs())
    ensures err != 0 ==> err == -NOSPACE && fdt.forest == old(fdt.forest) && fdt.Tree() == old(fdt.Tree())
    ensures err == 0 ==> |v| == len && ValueThere(fdt.forest, fdt.Strs(), p, name, prop, v)
    ensures err == 0 ==> fdt.Tree() == old(WithBody(fdt.Tree(), AbsPath(fdt.forest, p),
                                                    Replace(BodyAt(fdt.Tree(), AbsPath(fdt.forest, p)), name, v)))
    ensures err == 0 ==> NodeEdited(old(fdt.forest), fdt.forest, p)
    ensures err == 0 <==> old(fdt.offDtStrings + fdt.sizeDtStrings) - Align4(oldlen) + Align4(len) <= fdt.totalsize
    ensures err == 0 ==>
              fdt.offDtStrings + fdt.sizeDtStrings ==
                old(fdt.offDtStrings + fdt.sizeDtStrings) - Align4(oldlen) + Align4(len)
  {
    hide Fdt.St, Fdt.Strs, Fdt.Front, Dec32, Has, HasFirst, Same, KeptBut, Cells, Resized, Encodes, Abs, Replace,
         WithBody, BodyAt, Named,
         Walk.StrAt, ValueThere;
    ghost var f, a, strs := fdt.forest, fdt.St(), fdt.Strs();
    v := [];
    err := ResizeAt(fdt, prop, oldlen, len, Inside(p, q));
    if err != 0 {
      return;
    }
    ghost var b := fdt.St();
    ResizedSize(a, b, f, Inside(p, q), len);
    v := b[prop + 12..prop + 12 + len];
    KeptSelf(b, prop + 12, len);
    ghost var g := SetReplaced(a, b, b, strs, f, p, q, name, v);
    fdt.Adopt(g);
  }

  /** fdt_add_property_: the new value is whatever is there. */
  method InsertPlaceholder(fdt: Fdt, nodeoffset: int, name: bytes, len: nat, ghost p: Path)
    returns (err: int, prop: int, ghost v: bytes)
    requires fdt.Valid() && NodeOffset(fdt, nodeoffset, Walk.Some(p)) && len <= MAX_LEN && 0 !in name
    requires |name| <= MAX_LEN
    modifies fdt, fdt.mem
    ensures fdt.Valid() && fdt.Front() == old(fdt.Front())
    ensures err != 0 ==> err == -NOSPACE && fdt.forest == old(fdt.forest) && fdt.Tree() == old(fdt.Tree())
    ensures err == 0 ==> prop >= 0 && |v| == len && ValueThere(fdt.forest, fdt.Strs(), p, name, prop, v)
    ensures err == 0 ==> fdt.Tree() == old(WithBody(fdt.Tree(), AbsPath(fdt.forest, p),
                                                    PropT(name, v, BodyAt(fdt.Tree(), AbsPath(fdt.forest, p)))))
    ensures err == 0 ==> NodeEdited(old(fdt.forest), fdt.forest, p)
    ensures err == 0 <==> old(fdt.offDtStrings + fdt.sizeDtStrings + AddedSize(fdt.Strs(), name, len)) <= fdt.totalsize
    ensures err == 0 ==>
              fdt.offDtStrings + fdt.sizeDtStrings ==
              old(fdt.offDtStrings + fdt.sizeDtStrings + AddedSize(fdt.Strs(), name, len))
  {
    hide Fdt.St, Fdt.Strs, Fdt.Front, Dec32, Has, HasFirst, Same, KeptBut, Cells, Inserted, Encodes, Abs, WithBody,
         BodyAt, Named,
         Walk.StrAt, Grown, Walk.CheckNode, ValueThere;
    ghost var f, a, strs := fdt.forest, fdt.St(), fdt.Strs();
    assert name[..|name|] == name;
    v := [];
    ghost var nameoff;
    err, prop, nameoff := AddProperty(fdt, nodeoffset, name, |name|, len, Walk.Some(p));
    if err != 0 {
      return;
    }
    ghost var b := fdt.St();
    InsertedSize(a, b, f, Inside(p, Here), nameoff, len);
    v := b[prop + 12..prop + 12 + len];
    KeptSelf(b, prop + 12, len);
    EncodesWf(a, f);
    GrownNames(f, strs, name, Absent(strs, name));
    ghost var g := SetInserted(a, b, b, fdt.Strs(), f, p, nameoff, name, v);
    fdt.Adopt(g);
  }

  /**
   * fdt_setprop_placeholder on a blob in good order: the property is set to a value of that length, which is left as it
   * is found.
   */
  method SetPropPlaceholder(fdt: Fdt, nodeoffset: int, name: bytes, len: nat, ghost p: Path)
    returns (err: int, prop: int, ghost v: bytes)
    requires fdt.Valid() && RwError(fdt.Hdr()) == 0 && NodeOffset(fdt, nodeoffset, Walk.Some(p)) && len <= MAX_LEN
    requires 0 !in name && |name| <= MAX_LEN
    modifies fdt, fdt.mem
    ensures fdt.Valid() && fdt.Front() == old(fdt.Front())
    ensures err != 0 ==> err == -NOSPACE && fdt.forest == old(fdt.forest) && fdt.Tree() == old(fdt.Tree())
    ensures err == 0 ==> prop >= 0 && |v| == len && ValueThere(fdt.forest, fdt.Strs(), p, name, prop, v)
    ensures err == 0 ==>
              fdt.Tree() == old(WithBody(fdt.Tree(), AbsPath(fdt.forest, p),
                                         Set(BodyAt(fdt.Tree(), AbsPath(fdt.forest, p)), name, v)))
    ensures err == 0 ==> NodeEdited(old(fdt.forest), fdt.forest, p)
    ensures err == 0 <==>
              old(fdt.offDtStrings + fdt.sizeDtStrings +
                  SetSize(fdt.Strs(), BodyAt(fdt.Tree(), AbsPath(fdt.forest, p)), name, len)) <= fdt.totalsize
    ensures err == 0 ==>
              fdt.offDtStrings + fdt.sizeDtStrings ==
              old(fdt.offDtStrings + fdt.sizeDtStrings +
                  SetSize(fdt.Strs(), BodyAt(fdt.Tree(), AbsPath(fdt.forest, p)), name, len))
  {
    hide Fdt.St, Fdt.Strs, Fdt.Front, Fdt.Tree, Dec32, Replace, WithBody, BodyAt, AbsPath, Walk.GetProperty,
         Traverse.PropPath, Get,
         PropPlace, IsPath, At, Pos, IsNode, ValueThere, RwError, Encodes, Named;
    v, prop := [], -1;
    err := RwProbe(fdt);
    if err != 0 {
      return;
    }
    ghost var q := LookupMeans(fdt, nodeoffset, name, Walk.Some(p));
    var found, oldlen := ReadOnly.GetProperty(fdt, nodeoffset, name);
    if found >= 0 {
      prop := found;
      err, v := ReplacePlaceholder(fdt, found, oldlen, len, name, p, q);
    } else {
      err := oldlen;
      if err == -NOTFOUND {
        err, prop, v := InsertPlaceholder(fdt, nodeoffset, name, len, p);
      }
    }
  }

  /** The room that appending to a property takes. */
  ghost function AppendSize(strs: bytes, body: Tree, name: bytes, len: nat): int {
    match Get(body, name)
    case Some(v) => Align4(|v| + len) - Align4(|v|)
    case None => AddedSize(strs, name, len)
  }

  /**
   * A property that was found gets a longer value: the splice of fdt_appendprop, then the copy behind the old value.
   */
  method AppendValue(fdt: Fdt, prop: nat, oldlen: nat, val: bytes, ghost name: bytes, ghost p: Path, ghost q: Path)
    returns (err: int)
    requires fdt.Valid() && IsPath(fdt.forest, p) && At(fdt.forest, p).Node?
    requires Traverse.PropPath(At(fdt.forest, p).body, fdt.Strs(), name) == Walk.Some(q)
    requires PropPlace(fdt.forest, Inside(p, q)) && prop == 4 * Pos(fdt.forest, Inside(p, q))
    requires oldlen == |At(fdt.forest, Inside(p, q)).item.value| && oldlen + |val| <= MAX_LEN
    modifies fdt, fdt.mem
    ensures fdt.Valid() && fdt.Front() == old(fdt.Front()) && fdt.Strs() == old(fdt.Strs())
    ensures err == 0 <==>
              old(fdt.offDtStrings + fdt.sizeDtStrings) - Align4(oldlen) + Align4(oldlen + |val|) <= fdt.totalsize
    ensures err == 0 ==>
              fdt.offDtStrings + fdt.sizeDtStrings ==
              old(fdt.offDtStrings + fdt.sizeDtStrings) - Align4(oldlen) + Align4(oldlen + |val|)
    ensures err != 0 ==>
              err == -NOSPACE && fdt.Hdr() == old(fdt.Hdr()) && fdt.St() == old(fdt.St()) &&
              fdt.forest == old(fdt.forest)
    ensures err == 0 ==> fdt.Tree() == old(WithBody(fdt.Tree(), AbsPath(fdt.forest, p),
                                                    Replace(BodyAt(fdt.Tree(), AbsPath(fdt.forest, p)), name,
                                                            At(fdt.forest, Inside(p, q)).item.value + val)))
  {
    hide Fdt.St, Fdt.Strs, Fdt.Front, Dec32, Has, HasFirst, Same, KeptBut, Cells, Resized, Encodes, Abs, Replace,
         WithBody, BodyAt, Named,
         Walk.StrAt;
    ghost var f, a, strs := fdt.forest, fdt.St(), fdt.Strs();
    var newlen := |val| + oldlen;
    err := ResizeAt(fdt, prop, oldlen, newlen, Inside(p, q));
    if err != 0 {
      return;
    }
    ghost var b := fdt.St();
    fdt.StSize();
    ResizedSize(a, b, f, Inside(p, q), newlen);
    StMemcpy(fdt, prop + 12 + oldlen, val);
    fdt.StSize();
    AppendedValue(a, b, fdt.St(), f, Inside(p, q), val);
    ghost var g := SetReplaced(a, b, fdt.St(), strs, f, p, q, name, At(f, Inside(p, q)).item.value + val);
    fdt.Adopt(g);
  }

  lemma AppendedValue(a: bytes, b: bytes, c: bytes, f: Forest, p: Path, val: bytes)
    requires Encodes(a, f) && PropPlace(f, p) && Resized(a, b, f, p, |At(f, p).item.value| + |val|)
    requires var y := 4 * Pos(f, p) + 12 + |At(f, p).item.value|;
      KeptBut(b, c, y, |val|) && y + |val| <= |c| && c[y..y + |val|] == val
    ensures var x, v := 4 * Pos(f, p) + 12, At(f, p).item.value;
      KeptBut(b, c, x, |v| + |val|) && x + |v| + |val| <= |c| && c[x..x + |v| + |val|] == v + val
  {
    hide Dec32, Has, HasFirst, Spliced, Cells, Same, KeptBut;
    var x, v := 4 * Pos(f, p) + 12, At(f, p).item.value;
    HasAt(a, 0, f, p);
    ValueAt(a, Pos(f, p), At(f, p));
    JoinedValue(a, b, c, x, v, val);
  }

  lemma JoinedValue(a: bytes, b: bytes, c: bytes, x: nat, v: bytes, val: bytes)
    requires x + |v| <= |a| && a[x..x + |v|] == v && Same(a, x, b, x, |v|)
    requires KeptBut(b, c, x + |v|, |val|) && x + |v| + |val| <= |c| && c[x + |v|..x + |v| + |val|] == val
    ensures KeptBut(b, c, x, |v| + |val|) && c[x..x + |v| + |val|] == v + val
  {
    KeptRange(b, c, x + |v|, |val|, x, |v|);
    SameTrans(a, x, b, x, c, x, |v|);
    SameSlices(a, x, c, x, |v|);
    assert c[x..x + |v| + |val|] == c[x..x + |v|] + c[x + |v|..x + |v| + |val|];
  }

  lemma ValueAt(st: bytes, p: nat, f: Forest)
    requires f.Leaf? && f.item.Prop? && Has(st, p, f)
    ensures 4 * p + 12 + |f.item.value| <= |st| && st[4 * p + 12..4 * p + 12 + |f.item.value|] == f.item.value
  {
  }

  lemma AppendCases(strs: bytes, body: Tree, name: bytes, val: bytes)
    ensures match Get(body, name)
      case Some(v) =>
        && Append(body, name, val) == Replace(body, name, v + val)
        && AppendSize(strs, body, name, |val|) == Align4(|v| + |val|) - Align4(|v|)
        && Get(body, name).GetOr([]) == v
      case None =>
        && Append(body, name, val) == PropT(name, val, body)
        && AppendSize(strs, body, name, |val|) == AddedSize(strs, name, |val|)
  {
    hide Replace, Align4, AddedSize, Get;
    match Get(body, name)
    case Some(_) =>
    case None =>
  }

  /** fdt_appendprop, once the header has been accepted. */
  method AppendPropProbed(fdt: Fdt, nodeoffset: int, name: bytes, val: bytes, ghost place: Walk.Option<Path>)
    returns (err: int)
    requires fdt.Valid() && NodeOffset(fdt, nodeoffset, place)
    requires 0 !in name && |name| <= MAX_LEN && |val| <= MAX_LEN
    requires place.Some? ==>
               |val| + |Get(BodyAt(fdt.Tree(), AbsPath(fdt.forest, place.value)), name).GetOr([])| <= MAX_LEN
    modifies fdt, fdt.mem
    ensures fdt.Valid() && fdt.Front() == old(fdt.Front())
    ensures place.None? ==> err == -BADOFFSET
    ensures place.Some? ==> err == 0 || err == -NOSPACE
    ensures place.Some? ==>
              (err == 0 <==>
               old(fdt.offDtStrings + fdt.sizeDtStrings +
                   AppendSize(fdt.Strs(), BodyAt(fdt.Tree(), AbsPath(fdt.forest, place.value)), name, |val|))
               <= fdt.totalsize)
    ensures err == 0 ==>
              fdt.offDtStrings + fdt.sizeDtStrings ==
              old(fdt.offDtStrings + fdt.sizeDtStrings +
                  AppendSize(fdt.Strs(), BodyAt(fdt.Tree(), AbsPath(fdt.forest, place.value)), name, |val|))
    ensures err == 0 ==>
              fdt.Tree() == old(WithBody(fdt.Tree(), AbsPath(fdt.forest, place.value),
                                         Append(BodyAt(fdt.Tree(), AbsPath(fdt.forest, place.value)), name, val)))
    ensures err != 0 ==>
              (&& fdt.Hdr() == old(fdt.Hdr())
               && fdt.forest == old(fdt.forest) && fdt.St() == old(fdt.St()) && fdt.Strs() == old(fdt.Strs()))
  {
    hide Fdt.St, Fdt.Strs, Fdt.Front, Fdt.Tree, Fdt.Hdr, Fdt.Valid, Fdt.Laid, Fdt.InBounds, Dec32, Replace, Remove,
         WithBody, BodyAt, AbsPath, Walk.GetProperty,
         Traverse.PropPath, Get, NodeOffset, PropPlace, IsPath, At, Pos, IsNode, Absent, Align4, AddedSize, Append,
           AppendSize;
    ghost var q := LookupMeans(fdt, nodeoffset, name, place);
    var prop, oldlen := ReadOnly.GetProperty(fdt, nodeoffset, name);
    if place.Some? {
      AppendCases(fdt.Strs(), BodyAt(fdt.Tree(), AbsPath(fdt.forest, place.value)), name, val);
    }
    if prop >= 0 {
      err := AppendValue(fdt, prop, oldlen, val, name, place.value, q);
    } else {
      assert name[..|name|] == name;
      err := InsertValue(fdt, nodeoffset, name, |name|, val, place);
    }
  }

  /** fdt_appendprop */
  method AppendProp(fdt: Fdt, nodeoffset: int, name: bytes, val: bytes, ghost place: Walk.Option<Path>)
    returns (err: int)
    requires RwError(fdt.Hdr()) == 0 ==> fdt.Valid() && NodeOffset(fdt, nodeoffset, place)
    requires 0 !in name && |name| <= MAX_LEN && |val| <= MAX_LEN
    requires RwError(fdt.Hdr()) == 0 && place.Some? ==>
               |val| + |Get(BodyAt(fdt.Tree(), AbsPath(fdt.forest, place.value)), name).GetOr([])| <= MAX_LEN
    modifies fdt, fdt.mem
    ensures old(RwError(fdt.Hdr())) != 0 ==>
              (err == old(RwError(fdt.Hdr())) && fdt.Hdr() == old(fdt.Hdr()) && fdt.mem[..] == old(fdt.mem[..]))
    ensures old(RwError(fdt.Hdr())) == 0 && place.None? ==> err == -BADOFFSET
    ensures old(RwError(fdt.Hdr())) == 0 && place.Some? ==> err == 0 || err == -NOSPACE
    ensures old(RwError(fdt.Hdr())) == 0 && place.Some? ==>
              (err == 0 <==>
               old(fdt.offDtStrings + fdt.sizeDtStrings +
                   AppendSize(fdt.Strs(), BodyAt(fdt.Tree(), AbsPath(fdt.forest, place.value)), name, |val|))
               <= fdt.totalsize)
    ensures old(RwError(fdt.Hdr())) == 0 && err == 0 ==>
              fdt.offDtStrings + fdt.sizeDtStrings ==
              old(fdt.offDtStrings + fdt.sizeDtStrings +
                  AppendSize(fdt.Strs(), BodyAt(fdt.Tree(), AbsPath(fdt.forest, place.value)), name, |val|))
    ensures old(RwError(fdt.Hdr())) == 0 && err == 0 ==>
              (&& fdt.Valid() && fdt.Front() == old(fdt.Front())
               && fdt.Tree() == old(WithBody(fdt.Tree(), AbsPath(fdt.forest, place.value),
                                             Append(BodyAt(fdt.Tree(), AbsPath(fdt.forest, place.value)), name, val))))
    ensures old(RwError(fdt.Hdr())) == 0 && err != 0 ==>
              (&& fdt.Valid() && fdt.Hdr() == old(fdt.Hdr()) && fdt.Front() == old(fdt.Front())
               && fdt.forest == old(fdt.forest) && fdt.St() == old(fdt.St()) && fdt.Strs() == old(fdt.Strs()))
  {
    hide Fdt.St, Fdt.Strs, Fdt.Front, Fdt.Tree, RwError, WithBody, BodyAt, Append, AppendSize, AbsPath, Get;
    err := RwProbe(fdt);
    if err != 0 {
      return;
    }
    err := AppendPropProbed(fdt, nodeoffset, name, val, place);
  }

  // ---------- Deleting ----------

  lemma PropDeleted(a: bytes, b: bytes, strs: bytes, f: Forest, p: Path, q: Path, name: bytes) returns (g: Forest)
    requires Encodes(a, f) && Named(f, strs) && IsPath(f, p) && At(f, p).Node?
    requires Traverse.PropPath(At(f, p).body, strs, name) == Walk.Some(q) && PropPlace(f, Inside(p, q))
    requires var x, u := 4 * Pos(f, Inside(p, q)), 12 + Align4(|At(f, Inside(p, q)).item.value|);
      SpliceOf(a, b, x, u, 0)
    ensures Encodes(b, g) && Named(g, strs)
    ensures Abs(g, strs) == WithBody(Abs(f, strs), AbsPath(f, p), Remove(BodyAt(Abs(f, strs), AbsPath(f, p)), name))
  {
    hide Dec32, Has, HasFirst, SpliceOf, Cells, Spliced, Abs;
    var i := Inside(p, q);
    var pos, u := Pos(f, i), 3 + Cells(|At(f, i).item.value|);
    PropWords(a, f, i);
    SplicedCells(a, b, pos, 0, u, 0, Size(f) + 1);
    DeleteEncodes(a, b, f, i);
    InsideAt(f, p, q, Empty);
    RemoveInside(f, p, strs, name, q, 0);
    g := Put(f, i, At(f, i).rest);
  }

  /** A property that was found is taken out: the splice of fdt_delprop. */
  method DeleteFound(fdt: Fdt, prop: nat, len: nat, ghost name: bytes, ghost p: Path, ghost q: Path) returns (err: int)
    requires fdt.Valid() && IsPath(fdt.forest, p) && At(fdt.forest, p).Node?
    requires Traverse.PropPath(At(fdt.forest, p).body, fdt.Strs(), name) == Walk.Some(q)
    requires PropPlace(fdt.forest, Inside(p, q)) && prop == 4 * Pos(fdt.forest, Inside(p, q))
    requires len == |At(fdt.forest, Inside(p, q)).item.value|
    modifies fdt, fdt.mem
    ensures err == 0 && fdt.Valid() && fdt.Front() == old(fdt.Front()) && fdt.Strs() == old(fdt.Strs())
    ensures fdt.Tree() == old(WithBody(fdt.Tree(), AbsPath(fdt.forest, p),
                                       Remove(BodyAt(fdt.Tree(), AbsPath(fdt.forest, p)), name)))
    ensures fdt.offDtStrings + fdt.sizeDtStrings == old(fdt.offDtStrings + fdt.sizeDtStrings) - 12 - Align4(len)
  {
    hide Fdt.St, Fdt.Strs, Fdt.Front, Dec32, Encodes, Abs, Remove, WithBody, BodyAt, Named, Has, HasFirst, Align4,
         SpliceOf;
    ghost var f, a, strs := fdt.forest, fdt.St(), fdt.Strs();
    fdt.StSize();
    PropWords(a, f, Inside(p, q));
    var proplen := 12 + Align4(len);
    err := SpliceBlocks(fdt, prop, proplen, 0);
    ghost var g := PropDeleted(a, fdt.St(), strs, f, p, q, name);
    fdt.Adopt(g);
  }

  /** fdt_delprop, once the header has been accepted. */
  method DelPropProbed(fdt: Fdt, nodeoffset: int, name: bytes, ghost place: Walk.Option<Path>) returns (err: int)
    requires fdt.Valid() && NodeOffset(fdt, nodeoffset, place)
    modifies fdt, fdt.mem
    ensures fdt.Valid() && fdt.Front() == old(fdt.Front()) && fdt.Strs() == old(fdt.Strs())
    ensures place.None? ==> err == -BADOFFSET
    ensures place.Some? ==>
              err == if old(Get(BodyAt(fdt.Tree(), AbsPath(fdt.forest, place.value)), name)).Some? then 0 else -NOTFOUND
    ensures err == 0 ==>
              fdt.Tree() == old(WithBody(fdt.Tree(), AbsPath(fdt.forest, place.value),
                                         Remove(BodyAt(fdt.Tree(), AbsPath(fdt.forest, place.value)), name)))
    ensures err == 0 ==>
              fdt.offDtStrings + fdt.sizeDtStrings ==
              old(fdt.offDtStrings + fdt.sizeDtStrings)
              - 12 - Align4(|old(Get(BodyAt(fdt.Tree(), AbsPath(fdt.forest, place.value)), name)).value|)
    ensures err != 0 ==> fdt.Hdr() == old(fdt.Hdr()) && fdt.forest == old(fdt.forest) && fdt.St() == old(fdt.St())
  {
    hide Fdt.St, Fdt.Strs, Fdt.Front, Fdt.Tree, Fdt.Hdr, Fdt.Valid, Fdt.Laid, Fdt.InBounds, Dec32, Replace, Remove,
         WithBody, BodyAt, AbsPath, Walk.GetProperty,
         Traverse.PropPath, Get, NodeOffset, PropPlace, IsPath, At, Pos, IsNode, Absent, Align4;
    ghost var q := LookupMeans(fdt, nodeoffset, name, place);
    var prop, len := ReadOnly.GetProperty(fdt, nodeoffset, name);
    if prop < 0 {
      return len;
    }
    err := DeleteFound(fdt, prop, len, name, place.value, q);
  }

  /** fdt_delprop */
  method DelProp(fdt: Fdt, nodeoffset: int, name: bytes, ghost place: Walk.Option<Path>) returns (err: int)
    requires RwError(fdt.Hdr()) == 0 ==> fdt.Valid() && NodeOffset(fdt, nodeoffset, place)
    modifies fdt, fdt.mem
    ensures old(RwError(fdt.Hdr())) != 0 ==>
              (err == old(RwError(fdt.Hdr())) && fdt.Hdr() == old(fdt.Hdr()) && fdt.mem[..] == old(fdt.mem[..]))
    ensures old(RwError(fdt.Hdr())) == 0 && place.None? ==> err == -BADOFFSET
    ensures old(RwError(fdt.Hdr())) == 0 && place.Some? ==>
              err == if old(Get(BodyAt(fdt.Tree(), AbsPath(fdt.forest, place.value)), name)).Some? then 0 else -NOTFOUND
    ensures old(RwError(fdt.Hdr())) == 0 ==>
              fdt.Valid() && fdt.Front() == old(fdt.Front()) && fdt.Strs() == old(fdt.Strs())
    ensures old(RwError(fdt.Hdr())) == 0 && err == 0 ==>
              fdt.Tree() == old(WithBody(fdt.Tree(), AbsPath(fdt.forest, place.value),
                                         Remove(BodyAt(fdt.Tree(), AbsPath(fdt.forest, place.value)), name)))
    ensures old(RwError(fdt.Hdr())) == 0 && err == 0 ==>
              fdt.offDtStrings + fdt.sizeDtStrings ==
              old(fdt.offDtStrings + fdt.sizeDtStrings)
              - 12 - Align4(|old(Get(BodyAt(fdt.Tree(), AbsPath(fdt.forest, place.value)), name)).value|)
    ensures old(RwError(fdt.Hdr())) == 0 && err != 0 ==>
              fdt.Hdr() == old(fdt.Hdr()) && fdt.forest == old(fdt.forest) && fdt.St() == old(fdt.St())
  {
    hide Fdt.St, Fdt.Strs, Fdt.Front, Fdt.Tree, RwError, WithBody, BodyAt, Remove, AbsPath, Get;
    err := RwProbe(fdt);
    if err != 0 {
      return;
    }
    err := DelPropProbed(fdt, nodeoffset, name, place);
  }
}
