/** libfdt/fdt_wip.c */
module InPlace {
  import opened Bytes
  import opened Tags
  import opened Blob
  import opened Forests
  import opened Edits
  import opened Trees
  import opened ReadWrite
  import FdtCore
  import ReadOnly
  import Traverse
  import Walk

  /** fdt_node_end_offset_ */
  method NodeEndOffset(fdt: Fdt, nodeoffset: int) returns (offset: int)
    requires fdt.StructIn() && -INT_MAX - 1 <= nodeoffset <= INT_MAX
    ensures offset == Walk.NodeEnd(fdt.St(), nodeoffset) && offset <= INT_MAX
  {
    hide Fdt.St, Walk.NextNode, Walk.Nodes, Walk.NodesEnd;
    var depth := 0;
    offset := nodeoffset;
    ghost var st := fdt.St();
    while offset >= 0 && depth >= 0
      invariant offset <= INT_MAX
      invariant Walk.NodesEnd(st, offset, depth) == Walk.NodesEnd(st, nodeoffset, 0)
      decreases if offset < 0 || depth < 0 then 0 else 1 + INT_MAX - offset
    {
      Walk.NodesStep(st, offset, depth);
      offset, depth := FdtCore.NextNode(fdt, offset, depth);
    }
    Walk.NodesHead(st, offset, depth);
  }

  /** Where the subtree of a node ends. */
  lemma NodeEnds(a: bytes, f: Forest, p: Path)
    requires Encodes(a, f) && IsPath(f, p) && At(f, p).Node?
    ensures Walk.NodeEnd(a, 4 * Pos(f, p)) == 4 * (Pos(f, p) + Width(At(f, p)))
    ensures |a| >= 4 * (Size(f) + 1) && Pos(f, p) + Width(At(f, p)) <= Size(f)
  {
    hide Has, HasFirst;
    AtWf(f, p);
    HasAt(a, 0, f, p);
    PosRange(f, p);
    Traverse.SubtreeHas(a, Pos(f, p), At(f, p));
  }

  lemma NoNodeEnd(st: bytes, off: int)
    requires Walk.CheckNode(st, off) < 0
    ensures Walk.NodeEnd(st, off) == if off < 0 then off else -BADOFFSET
  {
    CheckNodeError(st, off);
  }

  // ---------- Setting values in place ----------

  /** Bytes kept outside a range of cells are a splice that changes no length. */
  lemma KeptSpliced(a: bytes, b: bytes, pos: nat, w: nat, n: nat, y: nat, m: nat)
    requires KeptBut(a, b, y, m) && 4 * pos <= y && y + m <= 4 * (pos + w) && pos + w <= n && 4 * n <= |a|
    ensures Spliced(a, b, 0, pos, pos + w, w, n)
  {
    hide Same;
    SameShorter(a, 0, b, 0, y, 0, 4 * pos);
    SameShorter(a, y + m, b, y + m, |a| - y - m, 4 * (pos + w) - y - m, 4 * (n - pos - w));
    assert SameCells(a, 0, b, 0, pos);
  }

  /** v with the bytes from idx on overwritten by val. */
  function Patched(v: bytes, idx: nat, val: bytes): (r: bytes)
    requires idx + |val| <= |v|
    ensures |r| == |v|
  {
    v[..idx] + val + v[idx + |val|..]
  }

  lemma PatchedSlice(a: bytes, b: bytes, x: nat, v: bytes, idx: nat, val: bytes)
    requires x + |v| <= |a| && a[x..x + |v|] == v && idx + |val| <= |v|
    requires KeptBut(a, b, x + idx, |val|) && b[x + idx..x + idx + |val|] == val
    ensures b[x..x + |v|] == Patched(v, idx, val)
  {
    var s, r := b[x..x + |v|], Patched(v, idx, val);
    forall i | 0 <= i < |v| ensures s[i] == r[i] {
      assert v[i] == a[x + i];
      if idx <= i < idx + |val| {
        assert b[x + i] == b[x + idx..x + idx + |val|][i - idx];
      }
    }
  }

  lemma PatchedEncodes(a: bytes, b: bytes, f: Forest, p: Path, idx: nat, val: bytes) returns (it: Item)
    requires Encodes(a, f) && PropPlace(f, p) && idx + |val| <= |At(f, p).item.value|
    requires var y := 4 * Pos(f, p) + 12 + idx;
      KeptBut(a, b, y, |val|) && y + |val| <= |b| && b[y..y + |val|] == val
    ensures it.Prop? && WfItem(it) && it.nameoff == At(f, p).item.nameoff
    ensures it.value == Patched(At(f, p).item.value, idx, val)
    ensures Encodes(b, Put(f, p, Leaf(it, At(f, p).rest)))
  {
    hide Dec32, Has, HasFirst, Cells, KeptBut, Patched, Spliced, At, Pos, IsPath, Encodes, ItemAt;
    var pos, v, nameoff := Pos(f, p), At(f, p).item.value, At(f, p).item.nameoff;
    var x, val' := 4 * pos, Patched(v, idx, val);
    EncodesAt(a, f, p);
    ValueAt(a, pos, At(f, p));
    PropWords(a, f, p);
    PatchedSlice(a, b, x + 12, v, idx, val);
    KeptWord(a, b, x + 12 + idx, |val|, x);
    KeptWord(a, b, x + 12 + idx, |val|, x + 4);
    KeptWord(a, b, x + 12 + idx, |val|, x + 8);
    KeptSize(a, b, x + 12 + idx, |val|);
    PropItemAt(b, pos, nameoff, val');
    it := PropItem(b, x, nameoff, val');
    KeptSpliced(a, b, pos, 3 + Cells(|v|), Size(f) + 1, x + 12 + idx, |val|);
    LeafEncodes(a, b, f, p, 3 + Cells(|v|), it, At(f, p).rest);
  }

  lemma KeptSize(a: bytes, b: bytes, y: nat, n: nat)
    requires KeptBut(a, b, y, n)
    ensures |a| == |b| && y + n <= |a|
  {
  }

  lemma ValuePatched(a: bytes, b: bytes, strs: bytes, f: Forest, p: Path, q: Path, name: bytes, idx: nat, val: bytes)
    returns (g: Forest)
    requires Encodes(a, f) && Named(f, strs) && IsPath(f, p) && At(f, p).Node?
    requires Traverse.PropPath(At(f, p).body, strs, name) == Walk.Some(q)
    requires PropPlace(f, Inside(p, q)) && idx + |val| <= |At(f, Inside(p, q)).item.value|
    requires var y := 4 * Pos(f, Inside(p, q)) + 12 + idx;
      KeptBut(a, b, y, |val|) && y + |val| <= |b| && b[y..y + |val|] == val
    ensures Encodes(b, g) && Named(g, strs) && Alike(f, g)
    ensures Abs(g, strs) == WithBody(Abs(f, strs), AbsPath(f, p),
                                     Replace(BodyAt(Abs(f, strs), AbsPath(f, p)), name,
                                             Patched(At(f, Inside(p, q)).item.value, idx, val)))
  {
    hide Dec32, Has, HasFirst, KeptBut, Abs, Replace, Encodes, Walk.StrAt, Patched, WfItem;
    var it := PatchedEncodes(a, b, f, Inside(p, q), idx, val);
    InsideAt(f, p, q, Empty);
    EncodesWf(a, f);
    ReplaceInside(f, p, strs, name, q, it);
    AlikePut(f, Inside(p, q), it);
    g := Put(f, Inside(p, q), Leaf(it, At(f, Inside(p, q)).rest));
  }

  /** A part of the value of a property that was found is overwritten. */
  method PatchFound(fdt: Fdt, prop: nat, idx: nat, val: bytes, ghost name: bytes, ghost p: Path, ghost q: Path)
    requires fdt.Valid() && IsPath(fdt.forest, p) && At(fdt.forest, p).Node?
    requires Traverse.PropPath(At(fdt.forest, p).body, fdt.Strs(), name) == Walk.Some(q)
    requires PropPlace(fdt.forest, Inside(p, q)) && prop == 4 * Pos(fdt.forest, Inside(p, q))
    requires idx + |val| <= |At(fdt.forest, Inside(p, q)).item.value|
    modifies fdt, fdt.mem
    ensures fdt.Valid() && fdt.Hdr() == old(fdt.Hdr()) && fdt.Front() == old(fdt.Front())
    ensures fdt.Strs() == old(fdt.Strs())
    ensures KeptBut(old(fdt.St()), fdt.St(), prop + 12 + idx, |val|) && Alike(old(fdt.forest), fdt.forest)
    ensures fdt.Tree() == old(WithBody(fdt.Tree(), AbsPath(fdt.forest, p),
                                       Replace(BodyAt(fdt.Tree(), AbsPath(fdt.forest, p)), name,
                                               Patched(At(fdt.forest, Inside(p, q)).item.value, idx, val))))
  {
    hide Fdt.St, Fdt.Strs, Fdt.Front, Dec32, Encodes, Abs, Replace, WithBody, BodyAt, Named, Has, HasFirst, KeptBut,
         Patched, Cells;
    ghost var f, a, strs := fdt.forest, fdt.St(), fdt.Strs();
    fdt.StSize();
    PropWords(a, f, Inside(p, q));
    StMemcpy(fdt, prop + 12 + idx, val);
    fdt.StSize();
    ghost var g := ValuePatched(a, fdt.St(), strs, f, p, q, name, idx, val);
    fdt.Adopt(g);
  }

  /**
   * fdt_setprop_inplace_namelen_partial. The room test adds two unsigned words; the caller has to
   * see to it that the sum does not wrap around.
   */
  method SetPropInplacePartial(fdt: Fdt, nodeoffset: int, name: bytes, idx: u32, val: bytes,
                               ghost place: Walk.Option<Path>)
    returns (err: int)
    requires fdt.Valid() && NodeOffset(fdt, nodeoffset, place) && |val| <= INT_MAX && idx + |val| < TWO_32
    modifies fdt, fdt.mem
    ensures fdt.Valid() && fdt.Hdr() == old(fdt.Hdr()) && fdt.Front() == old(fdt.Front())
    ensures fdt.Strs() == old(fdt.Strs())
    ensures place.None? ==> err == -BADOFFSET
    ensures place.Some? ==>
              (match old(Get(BodyAt(fdt.Tree(), AbsPath(fdt.forest, place.value)), name))
               case None => err == -NOTFOUND
               case Some(v) =>
                 if idx + |val| > |v| then err == -NOSPACE
                 else
                   && err == 0
                   && fdt.Tree() == old(WithBody(fdt.Tree(), AbsPath(fdt.forest, place.value),
                                                 Replace(BodyAt(fdt.Tree(), AbsPath(fdt.forest, place.value)), name,
                                                         Patched(v, idx, val)))))
    ensures err == 0 ==>
              (var r := old(Walk.GetProperty(fdt.St(), fdt.Strs(), nodeoffset, name));
               r >= 0 && KeptBut(old(fdt.St()), fdt.St(), r + 12 + idx, |val|))
    ensures err == 0 ==> Alike(old(fdt.forest), fdt.forest)
    ensures err != 0 ==> fdt.forest == old(fdt.forest) && fdt.St() == old(fdt.St())
  {
    hide Fdt.St, Fdt.Strs, Fdt.Front, Fdt.Tree, Fdt.Hdr, Fdt.Valid, Fdt.Laid, Fdt.InBounds, Dec32, Replace, Remove,
         WithBody, BodyAt, AbsPath, Walk.GetProperty,
         Traverse.PropPath, Get, NodeOffset, PropPlace, IsPath, At, Pos, IsNode, Absent, Align4, U32, KeptBut, Patched;
    ghost var q := LookupMeans(fdt, nodeoffset, name, place);
    var prop, proplen := ReadOnly.GetProperty(fdt, nodeoffset, name);
    if prop < 0 {
      return proplen;
    }
    U32Id(|val| + idx);
    if proplen < U32(|val| + idx) {
      return -NOSPACE;
    }
    PatchFound(fdt, prop, idx, val, name, place.value, q);
    err := 0;
  }

  /** The room test of fdt_setprop_inplace_namelen_partial. */
  predicate RoomTest(proplen: nat, idx: u32, len: nat) {
    U32(len + idx) <= proplen
  }

  /**
   * Exactly when the room test of a partial update is right: the sum does not wrap around to a length within the value.
   */
  lemma PartialRoom(proplen: nat, idx: u32, len: nat)
    requires proplen <= INT_MAX && len <= INT_MAX
    ensures (RoomTest(proplen, idx, len) <==> idx + len <= proplen) <==>
              (idx + len < TWO_32 || idx + len - TWO_32 > proplen)
  {
  }

  /** A partial update far outside the value that passes the room test. */
  lemma PartialWraps()
    ensures exists idx: u32, len: nat :: len <= 4 && RoomTest(4, idx, len) && idx + len > 4
  {
    assert RoomTest(4, 0xffff_fffe, 4);
  }

  /** fdt_setprop_inplace */
  method SetPropInplace(fdt: Fdt, nodeoffset: int, name: bytes, val: bytes, ghost place: Walk.Option<Path>)
    returns (err: int)
    requires fdt.Valid() && NodeOffset(fdt, nodeoffset, place) && |val| <= INT_MAX
    modifies fdt, fdt.mem
    ensures fdt.Valid() && fdt.Hdr() == old(fdt.Hdr()) && fdt.Front() == old(fdt.Front())
    ensures fdt.Strs() == old(fdt.Strs())
    ensures place.None? ==> err == -BADOFFSET
    ensures place.Some? ==>
              (match old(Get(BodyAt(fdt.Tree(), AbsPath(fdt.forest, place.value)), name))
               case None => err == -NOTFOUND
               case Some(v) =>
                 if |v| != |val| then err == -NOSPACE
                 else
                   && err == 0
                   && fdt.Tree() == old(WithBody(fdt.Tree(), AbsPath(fdt.forest, place.value),
                                                 Set(BodyAt(fdt.Tree(), AbsPath(fdt.forest, place.value)), name, val))))
    ensures err == 0 ==>
              (var r := old(Walk.GetProperty(fdt.St(), fdt.Strs(), nodeoffset, name));
               r >= 0 && KeptBut(old(fdt.St()), fdt.St(), r + 12, |val|))
    ensures err == 0 ==> Alike(old(fdt.forest), fdt.forest)
    ensures err != 0 ==> fdt.forest == old(fdt.forest) && fdt.St() == old(fdt.St())
  {
    hide Fdt.St, Fdt.Strs, Fdt.Front, Fdt.Tree, Fdt.Hdr, Fdt.Valid, Dec32, Replace, WithBody, BodyAt, AbsPath,
         Walk.GetProperty, KeptBut,
         Patched, Get, Set, NodeOffset;
    ghost var q := LookupMeans(fdt, nodeoffset, name, place);
    var prop, proplen := ReadOnly.GetProperty(fdt, nodeoffset, name);
    if prop < 0 {
      return proplen;
    }
    if proplen != |val| {
      return -NOSPACE;
    }
    if place.Some? {
      PatchedIsSet(BodyAt(fdt.Tree(), AbsPath(fdt.forest, place.value)), name, val);
    }
    err := SetPropInplacePartial(fdt, nodeoffset, name, 0, val, place);
  }

  lemma PatchedIsSet(t: Tree, name: bytes, val: bytes)
    ensures match Get(t, name)
      case Some(v) => |v| == |val| ==> Replace(t, name, Patched(v, 0, val)) == Set(t, name, val)
      case None => true
  {
  }

  // ---------- NOPs ----------

  /** The n cells of st from position p on are NOPs. */
  ghost predicate AllNops(st: bytes, p: nat, n: nat) {
    forall k: nat :: p <= k < p + n ==> TagAt(st, k, FDT_NOP)
  }

  /** fdt_nop_region_: the whole cells from start on that cover len bytes become NOPs. */
  method NopRegion(fdt: Fdt, start: nat, len: nat, ghost p: nat)
    requires fdt.Laid() && start == 4 * p && start + Align4(len) <= fdt.sizeDtStruct
    modifies fdt.mem
    ensures fdt.Front() == old(fdt.Front()) && fdt.Strs() == old(fdt.Strs())
    ensures KeptBut(old(fdt.St()), fdt.St(), start, Align4(len))
    ensures AllNops(fdt.St(), p, Cells(len))
  {
    hide Fdt.St, Fdt.Strs, Fdt.Front, Dec32, KeptBut, AllNops, Cells;
    ghost var a := fdt.St();
    var x := start;
    ghost var i := 0;
    fdt.StSize();
    NopsNone(a, p, start);
    while x < start + len
      invariant x == start + 4 * i && i <= Cells(len)
      invariant fdt.Laid() && fdt.Front() == old(fdt.Front()) && fdt.Strs() == old(fdt.Strs())
      invariant KeptBut(a, fdt.St(), start, 4 * i) && AllNops(fdt.St(), p, i)
      decreases start + len - x
    {
      ghost var b := fdt.St();
      StStore32(fdt, x, FDT_NOP);
      fdt.StSize();
      NopsOneMore(a, b, fdt.St(), p, i);
      x := x + 4;
      i := i + 1;
    }
  }

  lemma NopsNone(a: bytes, p: nat, start: nat)
    requires start <= |a|
    ensures KeptBut(a, a, start, 0) && AllNops(a, p, 0)
  {
  }

  lemma NopsOneMore(a: bytes, b: bytes, c: bytes, p: nat, i: nat)
    requires KeptBut(a, b, 4 * p, 4 * i) && AllNops(b, p, i) && KeptBut(b, c, 4 * p + 4 * i, 4)
    requires 4 * p + 4 * i + 4 <= |c| && Dec32(c, 4 * p + 4 * i) == FDT_NOP
    ensures KeptBut(a, c, 4 * p, 4 * (i + 1)) && AllNops(c, p, i + 1)
  {
    forall k: nat | p <= k < p + i + 1 ensures TagAt(c, k, FDT_NOP) {
      assert k < p + i ==> TagAt(b, k, FDT_NOP);
    }
  }

  lemma {:induction false} NopsHas(st: bytes, p: nat, n: nat, rest: Forest)
    requires AllNops(st, p, n) && Has(st, p + n, rest)
    ensures Has(st, p, Nops(n, rest))
    decreases n
  {
    if n > 0 {
      NopsHas(st, p + 1, n - 1, rest);
      assert TagAt(st, p, FDT_NOP);
    }
  }

  lemma {:induction false} NopsWf(n: nat, rest: Forest)
    requires Wf(rest)
    ensures Wf(Nops(n, rest)) && Size(Nops(n, rest)) == n + Size(rest)
  {
    if n > 0 {
      NopsWf(n - 1, rest);
    }
  }

  /** NOPs written over the entry at place p. */
  lemma NopsEncode(a: bytes, b: bytes, f: Forest, p: Path)
    requires Encodes(a, f) && IsPath(f, p) && At(f, p) != Empty
    requires KeptBut(a, b, 4 * Pos(f, p), 4 * Width(At(f, p))) && AllNops(b, Pos(f, p), Width(At(f, p)))
    requires 4 * (Size(f) + 1) <= |a|
    ensures Encodes(b, Put(f, p, Nops(Width(At(f, p)), At(f, p).rest)))
  {
    hide HasFirst, Spliced, Width, KeptBut, Encodes, AllNops, Wf;
    var pos, w, rest := Pos(f, p), Width(At(f, p)), At(f, p).rest;
    EncodesAt(a, f, p);
    PosRange(f, p);
    RestWf(At(f, p));
    KeptSpliced(a, b, pos, w, Size(f) + 1, 4 * pos, 4 * w);
    AfterSplice(a, b, f, p, w, w, rest);
    NopsHas(b, pos, w, rest);
    NopsWf(w, rest);
    FinishSplice(a, b, f, p, w, w, Nops(w, rest));
  }

  lemma RestWf(f: Forest)
    requires f != Empty && Wf(f)
    ensures Wf(f.rest)
  {
  }

  lemma PropNopped(a: bytes, b: bytes, strs: bytes, f: Forest, p: Path, q: Path, name: bytes) returns (g: Forest)
    requires Encodes(a, f) && Named(f, strs) && IsPath(f, p) && At(f, p).Node?
    requires Traverse.PropPath(At(f, p).body, strs, name) == Walk.Some(q) && PropPlace(f, Inside(p, q))
    requires var i := Inside(p, q);
      KeptBut(a, b, 4 * Pos(f, i), 4 * Width(At(f, i))) && AllNops(b, Pos(f, i), Width(At(f, i)))
    ensures Encodes(b, g) && Named(g, strs)
    ensures Abs(g, strs) == WithBody(Abs(f, strs), AbsPath(f, p), Remove(BodyAt(Abs(f, strs), AbsPath(f, p)), name))
  {
    hide Dec32, Has, HasFirst, Abs, AllNops, KeptBut, Width, Cells;
    var i := Inside(p, q);
    PropWords(a, f, i);
    NopsEncode(a, b, f, i);
    InsideAt(f, p, q, Empty);
    RemoveInside(f, p, strs, name, q, Width(At(f, i)));
    g := Put(f, i, Nops(Width(At(f, i)), At(f, i).rest));
  }

  /** A property that was found is overwritten with NOPs. */
  method NopFound(fdt: Fdt, prop: nat, len: nat, ghost name: bytes, ghost p: Path, ghost q: Path)
    requires fdt.Valid() && IsPath(fdt.forest, p) && At(fdt.forest, p).Node?
    requires Traverse.PropPath(At(fdt.forest, p).body, fdt.Strs(), name) == Walk.Some(q)
    requires PropPlace(fdt.forest, Inside(p, q)) && prop == 4 * Pos(fdt.forest, Inside(p, q))
    requires len == |At(fdt.forest, Inside(p, q)).item.value|
    modifies fdt, fdt.mem
    ensures fdt.Valid() && fdt.Hdr() == old(fdt.Hdr()) && fdt.Front() == old(fdt.Front())
    ensures fdt.Strs() == old(fdt.Strs())
    ensures KeptBut(old(fdt.St()), fdt.St(), prop, 12 + Align4(len))
    ensures fdt.Tree() == old(WithBody(fdt.Tree(), AbsPath(fdt.forest, p),
                                       Remove(BodyAt(fdt.Tree(), AbsPath(fdt.forest, p)), name)))
  {
    hide Fdt.St, Fdt.Strs, Fdt.Front, Dec32, Encodes, Abs, Remove, WithBody, BodyAt, Named, Has, HasFirst, KeptBut,
         AllNops, Cells;
    ghost var f, a, strs := fdt.forest, fdt.St(), fdt.Strs();
    fdt.StSize();
    PropWords(a, f, Inside(p, q));
    AlignPlus(3, len);
    NopRegion(fdt, prop, len + 12, Pos(f, Inside(p, q)));
    ghost var g := PropNopped(a, fdt.St(), strs, f, p, q, name);
    fdt.Adopt(g);
  }

  /**
   * fdt_nop_property: the tree becomes the one that fdt_delprop makes, but only bytes of the
   * property change and no block moves.
   */
  method NopProperty(fdt: Fdt, nodeoffset: int, name: bytes, ghost place: Walk.Option<Path>) returns (err: int)
    requires fdt.Valid() && NodeOffset(fdt, nodeoffset, place)
    modifies fdt, fdt.mem
    ensures fdt.Valid() && fdt.Hdr() == old(fdt.Hdr()) && fdt.Front() == old(fdt.Front())
    ensures fdt.Strs() == old(fdt.Strs())
    ensures place.None? ==> err == -BADOFFSET
    ensures place.Some? ==>
              (match old(Get(BodyAt(fdt.Tree(), AbsPath(fdt.forest, place.value)), name))
               case None => err == -NOTFOUND
               case Some(v) =>
                 && err == 0
                 && fdt.Tree() == old(WithBody(fdt.Tree(), AbsPath(fdt.forest, place.value),
                                               Remove(BodyAt(fdt.Tree(), AbsPath(fdt.forest, place.value)), name)))
                 && var r := old(Walk.GetProperty(fdt.St(), fdt.Strs(), nodeoffset, name));
                    r >= 0 && KeptBut(old(fdt.St()), fdt.St(), r, 12 + Align4(|v|)))
    ensures err != 0 ==> fdt.forest == old(fdt.forest) && fdt.St() == old(fdt.St())
  {
    hide Fdt.St, Fdt.Strs, Fdt.Front, Fdt.Tree, Fdt.Hdr, Fdt.Valid, Fdt.Laid, Fdt.InBounds, Dec32, Replace, Remove,
         WithBody, BodyAt, AbsPath, Walk.GetProperty,
         Traverse.PropPath, Get, NodeOffset, PropPlace, IsPath, At, Pos, IsNode, Absent, Align4, KeptBut;
    ghost var q := LookupMeans(fdt, nodeoffset, name, place);
    var prop, len := ReadOnly.GetProperty(fdt, nodeoffset, name);
    if prop < 0 {
      return len;
    }
    NopFound(fdt, prop, len, name, place.value, q);
    err := 0;
  }

  lemma NodeNopped(a: bytes, b: bytes, strs: bytes, f: Forest, p: Path) returns (g: Forest)
    requires Encodes(a, f) && Named(f, strs) && IsPath(f, p) && At(f, p).Node? && 4 * (Size(f) + 1) <= |a|
    requires KeptBut(a, b, 4 * Pos(f, p), 4 * Width(At(f, p))) && AllNops(b, Pos(f, p), Width(At(f, p)))
    ensures Encodes(b, g) && Named(g, strs)
    ensures IsNode(Abs(f, strs), AbsPath(f, p))
    ensures Abs(g, strs) == TreePut(Abs(f, strs), AbsPath(f, p), TreeAt(Abs(f, strs), AbsPath(f, p)).rest)
  {
    hide Has, HasFirst, KeptBut, AllNops, Width;
    var n := At(f, p);
    NopsEncode(a, b, f, p);
    NodeAbs(f, p, strs);
    NopsAbs(Width(n), n.rest, strs);
    AbsPut(f, p, Nops(Width(n), n.rest), strs);
    g := Put(f, p, Nops(Width(n), n.rest));
  }

  /** The subtree of the node at p is overwritten with NOPs. */
  method NopSubtree(fdt: Fdt, nodeoffset: nat, endoffset: nat, ghost p: Path)
    requires fdt.Valid() && IsPath(fdt.forest, p) && At(fdt.forest, p).Node?
    requires nodeoffset == 4 * Pos(fdt.forest, p) && endoffset == nodeoffset + 4 * Width(At(fdt.forest, p))
    requires 4 * (Size(fdt.forest) + 1) <= |fdt.St()|
    modifies fdt, fdt.mem
    ensures fdt.Valid() && fdt.Hdr() == old(fdt.Hdr()) && fdt.Front() == old(fdt.Front())
    ensures fdt.Strs() == old(fdt.Strs())
    ensures KeptBut(old(fdt.St()), fdt.St(), nodeoffset, endoffset - nodeoffset)
    ensures old(IsNode(fdt.Tree(), AbsPath(fdt.forest, p)))
    ensures fdt.Tree() == old(TreePut(fdt.Tree(), AbsPath(fdt.forest, p),
                                      TreeAt(fdt.Tree(), AbsPath(fdt.forest, p)).rest))
  {
    hide Fdt.St, Fdt.Strs, Fdt.Front, Encodes, Abs, Named, Has, HasFirst, KeptBut, AllNops, TreePut, TreeAt, Cells,
         Width, IsNode;
    ghost var f, a, strs := fdt.forest, fdt.St(), fdt.Strs();
    fdt.StSize();
    PosRange(f, p);
    AlignPlus(Width(At(f, p)), 0);
    assert Cells(0) == 0;
    assert Size(At(f, p)) == Width(At(f, p)) + Size(At(f, p).rest);
    NopRegion(fdt, nodeoffset, endoffset - nodeoffset, Pos(f, p));
    ghost var g := NodeNopped(a, fdt.St(), strs, f, p);
    fdt.Adopt(g);
  }

  /** fdt_nop_node: the tree becomes the one that fdt_del_node makes, but only bytes of the subtree change. */
  method NopNode(fdt: Fdt, nodeoffset: int, ghost place: Walk.Option<Path>) returns (err: int)
    requires fdt.Valid() && NodeOffset(fdt, nodeoffset, place)
    modifies fdt, fdt.mem
    ensures fdt.Valid() && fdt.Hdr() == old(fdt.Hdr()) && fdt.Front() == old(fdt.Front())
    ensures fdt.Strs() == old(fdt.Strs())
    ensures err == if place.Some? then 0 else if nodeoffset < 0 then nodeoffset else -BADOFFSET
    ensures err == 0 ==>
              (&& old(IsNode(fdt.Tree(), AbsPath(fdt.forest, place.value)))
               && fdt.Tree() == old(TreePut(fdt.Tree(), AbsPath(fdt.forest, place.value),
                                            TreeAt(fdt.Tree(), AbsPath(fdt.forest, place.value)).rest))
               && KeptBut(old(fdt.St()), fdt.St(), nodeoffset, 4 * old(Width(At(fdt.forest, place.value)))))
    ensures err != 0 ==> fdt.forest == old(fdt.forest) && fdt.St() == old(fdt.St())
  {
    hide Fdt.St, Fdt.Strs, Fdt.Front, Encodes, Abs, Named, Fdt.Hdr, Has, HasFirst, TreePut, TreeAt, Walk.NodeEnd,
         IsNode, KeptBut;
    fdt.Blocks();
    var endoffset := NodeEndOffset(fdt, nodeoffset);
    if place.Some? {
      NodeEnds(fdt.St(), fdt.forest, place.value);
    } else {
      NoNodeEnd(fdt.St(), nodeoffset);
    }
    if endoffset < 0 {
      return endoffset;
    }
    NopSubtree(fdt, nodeoffset, endoffset, place.value);
    err := 0;
  }
}
