/** libfdt/fdt_overlay.c: the passes over phandles and references, on the blob of the overlay. */
module Renumber {
  import opened Bytes
  import opened Tags
  import opened Blob
  import opened Forests
  import opened Edits
  import opened Trees
  import opened Walk
  import opened ReadWrite
  import opened InPlace
  import opened Applying
  import opened Overlay
  import Traverse
  import FdtCore
  import ReadOnly
  import NodeEdit

  // ---------- What the passes keep ----------

  /** Everything about a blob but the values of its properties. */
  datatype Layout = Layout(forest: Forest, strs: bytes, front: Kept, hdr: Header)

  ghost function LayoutOf(fdt: Fdt): Layout
    requires fdt.Valid()
    reads fdt, fdt.mem
  {
    Layout(fdt.forest, fdt.Strs(), fdt.Front(), fdt.Hdr())
  }

  /** Only values have changed, and none of the lengths. */
  ghost predicate Changes(l: Layout, m: Layout) {
    Alike(l.forest, m.forest) && m.strs == l.strs && m.front == l.front && m.hdr == l.hdr
  }

  ghost predicate Keeps(l: Layout, fdt: Fdt)
    reads fdt, fdt.mem
  {
    fdt.Valid() && Changes(l, LayoutOf(fdt))
  }

  lemma KeepsSelf(fdt: Fdt)
    requires fdt.Valid()
    ensures Keeps(LayoutOf(fdt), fdt)
  {
    AlikeSelf(fdt.forest);
  }

  lemma KeepsTrans(l: Layout, m: Layout, fdt: Fdt)
    requires Changes(l, m) && Keeps(m, fdt)
    ensures Keeps(l, fdt)
  {
    AlikeTrans(l.forest, m.forest, fdt.forest);
  }

  /** An offset stays that of the same node. */
  lemma KeepsTarget(l: Layout, fdt: Fdt, target: int, p: Path)
    requires Keeps(l, fdt) && IsPath(l.forest, p) && At(l.forest, p).Node?
    requires -INT_MAX - 1 <= target <= INT_MAX && target == 4 * Pos(l.forest, p)
    ensures Target(fdt, target, p) && AbsPath(fdt.forest, p) == AbsPath(l.forest, p)
  {
    hide Fdt.St, Fdt.Strs, Encodes, Named;
    AlikePlace(l.forest, fdt.forest, p);
    AlikeAbsPath(l.forest, fdt.forest, p);
  }

  lemma {:induction false} AlikeAbsPath(f: Forest, g: Forest, p: Path)
    requires Alike(f, g) && IsPath(f, p) && IsPath(g, p)
    ensures AbsPath(g, p) == AbsPath(f, p)
    decreases p
  {
    match p
    case Here =>
    case Next(q) => AlikeAbsPath(f.rest, g.rest, q);
    case Into(q) => AlikeAbsPath(f.body, g.body, q);
  }

  // ---------- Words in values ----------

  lemma PatchedWord(v: bytes, off: nat, w: u32)
    requires off + 4 <= |v|
    ensures Patched(v, off, Enc32(w)) == SetWord(v, off, w)
  {
  }

  /** fdt32_st to a place in the value of a property that was found. */
  method StoreInValue(fdt: Fdt, prop: nat, off: nat, w: u32, ghost name: bytes, ghost p: Path, ghost q: Path)
    requires fdt.Valid() && IsPath(fdt.forest, p) && At(fdt.forest, p).Node?
    requires Traverse.PropPath(At(fdt.forest, p).body, fdt.Strs(), name) == Some(q)
    requires PropPlace(fdt.forest, Inside(p, q)) && prop == 4 * Pos(fdt.forest, Inside(p, q))
    requires off + 4 <= |At(fdt.forest, Inside(p, q)).item.value|
    modifies fdt, fdt.mem
    ensures Keeps(old(LayoutOf(fdt)), fdt) && KeptBut(old(fdt.St()), fdt.St(), prop + 12 + off, 4)
    ensures fdt.Tree() == old(WithBody(fdt.Tree(), AbsPath(fdt.forest, p),
                                       Replace(BodyAt(fdt.Tree(), AbsPath(fdt.forest, p)), name,
                                               SetWord(At(fdt.forest, Inside(p, q)).item.value, off, w))))
  {
    hide Fdt.St, Fdt.Strs, Fdt.Front, Dec32, Encodes, Abs, Replace, WithBody, BodyAt, Named, Has, HasFirst, KeptBut,
         Patched, Cells,
         Enc32, SetWord;
    ghost var f, a, strs := fdt.forest, fdt.St(), fdt.Strs();
    fdt.StSize();
    PropWords(a, f, Inside(p, q));
    StStore32(fdt, prop + 12 + off, w);
    fdt.StSize();
    DecAt(fdt.St(), prop + 12 + off, w);
    PatchedWord(At(f, Inside(p, q)).item.value, off, w);
    ghost var g := ValuePatched(a, fdt.St(), strs, f, p, q, name, off, Enc32(w));
    fdt.Adopt(g);
  }

  /** A word of the value of a property. */
  lemma ValueWord(a: bytes, f: Forest, p: Path, off: nat)
    requires Encodes(a, f) && PropPlace(f, p) && off + 4 <= |At(f, p).item.value|
    ensures 4 * Pos(f, p) + 16 + off <= |a| && Dec32(a, 4 * Pos(f, p) + 12 + off) == Dec32(At(f, p).item.value, off)
  {
    hide Has, HasFirst, Dec32, Encodes;
    var x, v := 4 * Pos(f, p) + 12, At(f, p).item.value;
    EncodesAt(a, f, p);
    PropWords(a, f, p);
    ValueAt(a, Pos(f, p), At(f, p));
    DecSlice(a, x, x + |v|, off);
  }

  // ---------- Shifting the phandles ----------

  lemma AddOffsetErrors(b: Tree, name: bytes, delta: u32)
    ensures AddOffset(b, name, delta).Err? ==>
              AddOffset(b, name, delta).error < 0 && AddOffset(b, name, delta).error != -NOTFOUND
  {
  }

  /** overlay_phandle_add_offset */
  method PhandleAddOffset(fdto: Fdt, node: int, name: bytes, delta: u32, ghost p: Path) returns (ret: int)
    requires Target(fdto, node, p) && IsPath(fdto.forest, p)
    modifies fdto, fdto.mem
    ensures Keeps(old(LayoutOf(fdto)), fdto)
    ensures var b := old(BodyAt(fdto.Tree(), AbsPath(fdto.forest, p)));
      match AddOffset(b, name, delta)
      case Err(e) => ret == e
      case Ok(x) =>
        (ret == 0 || ret == -NOTFOUND) && fdto.Tree() == old(WithBody(fdto.Tree(), AbsPath(fdto.forest, p), x))
  {
    hide Fdt.St, Fdt.Strs, Fdt.Front, Fdt.Tree, Dec32, Replace, WithBody, BodyAt, AbsPath, Walk.GetProperty, Get,
         KeptBut, Enc32,
         Traverse.PropPath, PropPlace, Encodes, Abs, Named, IsNode, At, Pos, IsPath, U32, SetWord;
    ghost var q := LookupMeans(fdto, node, name, Some(p));
    ghost var t, k := fdto.Tree(), AbsPath(fdto.forest, p);
    KeepsSelf(fdto);
    WithBodySelf(t, k);
    var valp, len := ReadOnly.GetProperty(fdto, node, name);
    if valp < 0 {
      return len;
    }
    if len != 4 {
      return -BADPHANDLE;
    }
    ValueWord(fdto.St(), fdto.forest, Inside(p, q), 0);
    var val := FdtCore.StWord(fdto, valp + 12);
    if U32(val + delta) < val || U32(val + delta) == 0xffff_ffff {
      return -NOPHANDLES;
    }
    WholeWord(Get(BodyAt(t, k), name).value, U32(val + delta));
    StoreInValue(fdto, valp, 0, U32(val + delta), name, p, q);
    ret := 0;
  }

  lemma WholeWord(v: bytes, w: u32)
    requires |v| == 4
    ensures SetWord(v, 0, w) == Enc32(w)
  {
  }

  // ---------- Children ----------

  /** A place among the entries of one body. */
  ghost predicate Flat(r: Path) {
    r.Here? || (r.Next? && Flat(r.tail))
  }

  lemma {:induction false} FirstFlat(f: Forest)
    ensures Traverse.FirstNode(f).Some? ==> Flat(Traverse.FirstNode(f).value)
  {
    if f.Leaf? {
      FirstFlat(f.rest);
    }
  }

  lemma {:induction false} FlatJoin(a: Path, b: Path)
    requires Flat(a) && Flat(b)
    ensures Flat(Join(a, b))
    decreases a
  {
    if a.Next? {
      FlatJoin(a.tail, b);
    }
  }

  lemma {:induction false} FlatEnd(f: Forest, r: Path)
    requires IsPath(f, r) && Flat(r)
    ensures Pos(f, r) + Size(At(f, r)) == Size(f)
    decreases r
  {
    if r.Next? {
      FlatEnd(f.rest, r.tail);
    }
  }

  /** child is the offset of the node at place r of the body of the node at p. */
  ghost predicate ChildOf(fdt: Fdt, child: int, p: Path, r: Path)
    reads fdt, fdt.mem
  {
    && fdt.Valid() && IsPath(fdt.forest, p) && At(fdt.forest, p).Node? && Flat(r) && IsPath(At(fdt.forest, p).body, r)
    && child >= 0 && Target(fdt, child, Inside(p, r))
  }

  /** Where a child is encoded, and the end of its siblings. */
  lemma ChildHas(fdt: Fdt, child: int, p: Path, r: Path)
    requires ChildOf(fdt, child, p, r)
    ensures IsPath(fdt.forest, Inside(p, r)) && At(fdt.forest, Inside(p, r)) == At(At(fdt.forest, p).body, r)
    ensures var n := At(fdt.forest, Inside(p, r));
      && n.Node? && Wf(n) && Has(fdt.St(), Pos(fdt.forest, Inside(p, r)), n)
      && TagAt(fdt.St(), Pos(fdt.forest, Inside(p, r)) + Size(n), FDT_END_NODE)
  {
    hide Fdt.St, Fdt.Strs, Has, HasFirst, TagAt;
    var f := fdt.forest;
    EncodesAt(fdt.St(), f, p);
    Traverse.HasHead(fdt.St(), Pos(f, p), At(f, p));
    Traverse.HasBody(fdt.St(), Pos(f, p), At(f, p));
    InsideAt(f, p, r, Empty);
    EncodesAt(fdt.St(), f, Inside(p, r));
    FlatEnd(At(f, p).body, r);
  }

  lemma OffsetBound(fdt: Fdt, c: Path)
    requires fdt.Valid() && IsPath(fdt.forest, c)
    ensures 4 * Pos(fdt.forest, c) <= INT_MAX
  {
    hide Fdt.St;
    NodeEdit.PlaceInside(fdt.St(), fdt.forest, c);
    fdt.StSize();
  }

  /** fdt_first_subnode on a node of the tree. */
  method FirstChild(fdt: Fdt, node: int, ghost p: Path) returns (child: int, ghost r: Path)
    requires Target(fdt, node, p)
    ensures match Traverse.FirstNode(At(fdt.forest, p).body)
      case None => child == -NOTFOUND
      case Some(x) => r == x && ChildOf(fdt, child, p, r)
  {
    hide Fdt.St, Fdt.Strs, Has, HasFirst, Walk.FirstSubnode;
    ghost var f := fdt.forest;
    EncodesAt(fdt.St(), f, p);
    Traverse.FirstSubnodeHas(fdt.St(), Pos(f, p), At(f, p));
    child := FdtCore.FirstSubnode(fdt, node);
    FirstFlat(At(f, p).body);
    r := Traverse.FirstNode(At(f, p).body).GetOr(Here);
    if child >= 0 {
      InsideAt(f, p, r, Empty);
      OffsetBound(fdt, Inside(p, r));
    }
  }

  /** fdt_next_subnode on a node of the tree. */
  method NextChild(fdt: Fdt, child: int, ghost p: Path, ghost r: Path) returns (next: int, ghost r': Path)
    requires ChildOf(fdt, child, p, r)
    ensures IsPath(fdt.forest, Inside(p, r)) && At(fdt.forest, Inside(p, r)).Node?
    ensures match Traverse.FirstNode(At(fdt.forest, Inside(p, r)).rest)
      case None => next == -NOTFOUND
      case Some(x) => r' == Join(r, Next(x)) && ChildOf(fdt, next, p, r')
  {
    hide Fdt.St, Fdt.Strs, Has, HasFirst, Walk.NextSubnode, TagAt;
    ghost var f := fdt.forest;
    ChildHas(fdt, child, p, r);
    ghost var n := At(f, Inside(p, r));
    Traverse.NextSubnodeHas(fdt.St(), Pos(f, Inside(p, r)), n);
    next := FdtCore.NextSubnode(fdt, child);
    FirstFlat(n.rest);
    ghost var x := Traverse.FirstNode(n.rest).GetOr(Here);
    r' := Join(r, Next(x));
    if next >= 0 {
      FlatJoin(r, Next(x));
      JoinAt(At(f, p).body, r, Next(x), Empty);
      InsideAt(f, p, r, Empty);
      InsideAt(f, p, r', Empty);
      OffsetBound(fdt, Inside(p, r'));
    }
  }

  // ---------- Shifting below a node ----------

  /** t with the entries from place k on adjusted. */
  ghost function AdjustFrom(t: Tree, k: Path, delta: u32): Result<Tree> {
    if !IsPlace(t, k) then Err(0) else PutBack(t, k, AdjustKids(TreeAt(t, k), delta))
  }

  ghost function PutBack(t: Tree, k: Path, r: Result<Tree>): Result<Tree>
    requires IsPlace(t, k)
  {
    match r
    case Err(e) => Err(e)
    case Ok(x) => Ok(TreePut(t, k, x))
  }

  /** What a result for the body of the node at k means for the tree. */
  ghost function Within(t: Tree, k: Path, r: Result<Tree>): Result<Tree> {
    match r
    case Err(e) => Err(e)
    case Ok(x) => Ok(WithBody(t, k, x))
  }

  /** The body of the node at place p. */
  ghost function BodyOf(fdt: Fdt, p: Path): Tree
    requires fdt.Valid() && IsPath(fdt.forest, p)
    reads fdt, fdt.mem
  {
    BodyAt(fdt.Tree(), AbsPath(fdt.forest, p))
  }

  /** The tree with a result for the body of the node at place p. */
  ghost function InTree(fdt: Fdt, p: Path, r: Result<Tree>): Result<Tree>
    requires fdt.Valid() && IsPath(fdt.forest, p)
    reads fdt, fdt.mem
  {
    Within(fdt.Tree(), AbsPath(fdt.forest, p), r)
  }

  lemma AdjustFromJoin(t: Tree, k: Path, d: Path, delta: u32)
    requires IsPlace(t, k) && IsPlace(TreeAt(t, k), d)
    ensures IsPlace(t, Join(k, d))
    ensures AdjustFrom(t, Join(k, d), delta) == PutBack(t, k, AdjustFrom(TreeAt(t, k), d, delta))
  {
    hide AdjustKids;
    var r := AdjustKids(TreeAt(TreeAt(t, k), d), delta);
    JoinPlace(t, k, d, if r.Ok? then r.value else Nil);
  }

  /** Only nodes are adjusted. */
  lemma {:induction false} SkipAdjust(f: Forest, strs: bytes, delta: u32)
    requires Wf(f) && Named(f, strs)
    ensures match Traverse.FirstNode(f)
      case None => AdjustKids(Abs(f, strs), delta) == Ok(Abs(f, strs))
      case Some(r) =>
        IsPlace(Abs(f, strs), AbsPath(f, r)) &&
          AdjustKids(Abs(f, strs), delta) == AdjustFrom(Abs(f, strs), AbsPath(f, r), delta)
  {
    if f.Leaf? {
      SkipAdjust(f.rest, strs, delta);
    }
  }

  /** The adjustment of the children of the node at p starts at the first one. */
  lemma AdjustStart(f: Forest, strs: bytes, p: Path, delta: u32)
    requires Wf(f) && Named(f, strs) && IsPath(f, p) && At(f, p).Node?
    ensures var t, k := Abs(f, strs), AbsPath(f, p);
      match Traverse.FirstNode(At(f, p).body)
      case None => Within(t, k, AdjustKids(BodyAt(t, k), delta)) == Ok(t)
      case Some(r) =>
        IsPath(f, Inside(p, r)) &&
          AdjustFrom(t, AbsPath(f, Inside(p, r)), delta) == Within(t, k, AdjustKids(BodyAt(t, k), delta))
  {
    hide AdjustKids, Abs;
    var t, k, n := Abs(f, strs), AbsPath(f, p), At(f, p);
    NodeAbs(f, p, strs);
    NodeParts(n, strs);
    SkipAdjust(n.body, strs, delta);
    match Traverse.FirstNode(n.body)
    case None => WithBodySelf(t, k);
    case Some(r) =>
      AbsPathJoin(f, p, Into(r));
      AdjustFromJoin(t, k, Into(AbsPath(n.body, r)), delta);
  }

  lemma NodeParts(n: Forest, strs: bytes)
    requires n.Node? && Wf(n) && Named(n, strs)
    ensures n.item.Begin? && Wf(n.body) && Named(n.body, strs) && Wf(n.rest) && Named(n.rest, strs)
    ensures Abs(n, strs) == NodeT(n.item.name, Abs(n.body, strs), Abs(n.rest, strs))
  {
  }

  /** When the child at c has been adjusted, the adjustment goes on behind it. */
  lemma AdjustStep(f: Forest, strs: bytes, c: Path, t: Tree, x: Tree, delta: u32)
    requires Wf(f) && Named(f, strs) && IsPath(f, c) && At(f, c).Node?
    requires IsNode(t, AbsPath(f, c)) && Abs(f, strs) == WithBody(t, AbsPath(f, c), x)
    requires AdjustNode(BodyAt(t, AbsPath(f, c)), delta) == Ok(x)
    ensures match Traverse.FirstNode(At(f, c).rest)
      case None => AdjustFrom(t, AbsPath(f, c), delta) == Ok(Abs(f, strs))
      case Some(r) =>
        && IsPath(f, Join(c, Next(r)))
        && AdjustFrom(Abs(f, strs), AbsPath(f, Join(c, Next(r))), delta) == AdjustFrom(t, AbsPath(f, c), delta)
  {
    hide AdjustNode, Abs;
    var k, n, t' := AbsPath(f, c), At(f, c), Abs(f, strs);
    var o := TreeAt(t, k);
    NodeAbs(f, c, strs);
    NodeParts(n, strs);
    WithBodyAt(t, k, x, x);
    assert TreeAt(t', k) == NodeT(o.name, x, o.rest);
    SkipAdjust(n.rest, strs, delta);
    var r' := AdjustKids(o.rest, delta);
    KidsOfNode(o, x, delta);
    TreePutAt(t, k, NodeT(o.name, x, o.rest), if r'.Ok? then NodeT(o.name, x, r'.value) else Nil);
    match Traverse.FirstNode(n.rest)
    case None =>
    case Some(r) =>
      AbsPathJoin(f, c, Next(r));
      AdjustFromJoin(t', k, Next(AbsPath(n.rest, r)), delta);
  }

  lemma KidsOfNode(o: Tree, x: Tree, delta: u32)
    requires o.NodeT? && AdjustNode(o.body, delta) == Ok(x)
    ensures AdjustKids(o, delta) == match AdjustKids(o.rest,
                                                     delta) case Err(e) => Err(e) case Ok(r) => Ok(NodeT(o.name, x, r))
  {
  }

  lemma {:induction false} AdjustErrors(b: Tree, delta: u32)
    ensures AdjustNode(b, delta).Err? ==> AdjustNode(b, delta).error < 0
    decreases Entries(b), 1
  {
    hide AddOffset;
    AddOffsetErrors(b, PHANDLE, delta);
    match AddOffset(b, PHANDLE, delta)
    case Err(_) =>
    case Ok(b1) =>
      AddOffsetErrors(b1, LINUX_PHANDLE, delta);
      match AddOffset(b1, LINUX_PHANDLE, delta)
      case Err(_) =>
      case Ok(b2) => KidsErrors(b2, delta);
  }

  lemma {:induction false} KidsErrors(b: Tree, delta: u32)
    ensures AdjustKids(b, delta).Err? ==> AdjustKids(b, delta).error < 0
    decreases Entries(b), 0
  {
    match b
    case Nil =>
    case PropT(_, _, rest) => KidsErrors(rest, delta);
    case NodeT(_, body, rest) =>
      AdjustErrors(body, delta);
      KidsErrors(rest, delta);
  }

  /** What ret says about a pass whose result for the tree is goal. */
  ghost predicate Answers(fdto: Fdt, l: Layout, goal: Result<Tree>, ret: int)
    reads fdto, fdto.mem
  {
    Keeps(l, fdto) &&
    match goal
    case Err(e) => ret == e && e < 0
    case Ok(x) => ret == 0 && fdto.Tree() == x
  }

  /** Both phandle properties of a node. */
  ghost function AddOffsets(b: Tree, delta: u32): Result<Tree> {
    match AddOffset(b, PHANDLE, delta)
    case Err(e) => Err(e)
    case Ok(b1) => AddOffset(b1, LINUX_PHANDLE, delta)
  }

  method AdjustOwnPhandles(fdto: Fdt, node: int, delta: u32, ghost p: Path) returns (ret: int)
    requires Target(fdto, node, p) && IsPath(fdto.forest, p)
    modifies fdto, fdto.mem
    ensures Answers(fdto, old(LayoutOf(fdto)),
                    old(InTree(fdto, p, AddOffsets(BodyOf(fdto, p), delta))), ret)
  {
    hide Fdt.St, Fdt.Strs, Fdt.Front, Fdt.Tree, Fdt.Hdr, WithBody, BodyAt, AbsPath, Encodes, Named, IsNode, At, Pos,
         IsPath, AddOffset;
    ghost var l, t, k := LayoutOf(fdto), fdto.Tree(), AbsPath(fdto.forest, p);
    ghost var b := BodyAt(t, k);
    NodeHere(fdto, node, p);
    AddOffsetErrors(b, PHANDLE, delta);
    ret := PhandleAddOffset(fdto, node, PHANDLE, delta, p);
    if ret != 0 && ret != -NOTFOUND {
      return;
    }
    ghost var b1 := AddOffset(b, PHANDLE, delta).value;
    ghost var m := LayoutOf(fdto);
    KeepsTarget(l, fdto, node, p);
    WithBodyAt(t, k, b1,
               if AddOffset(b1, LINUX_PHANDLE, delta).Ok? then AddOffset(b1, LINUX_PHANDLE, delta).value else Nil);
    AddOffsetErrors(b1, LINUX_PHANDLE, delta);
    ret := PhandleAddOffset(fdto, node, LINUX_PHANDLE, delta, p);
    KeepsTrans(l, m, fdto);
    if ret != 0 && ret != -NOTFOUND {
      return;
    }
    ret := 0;
  }

  lemma NodeHere(fdt: Fdt, node: int, p: Path)
    requires Target(fdt, node, p)
    ensures IsPath(fdt.forest, p) && At(fdt.forest, p).Node? && IsNode(fdt.Tree(), AbsPath(fdt.forest, p))
    ensures -INT_MAX - 1 <= node <= INT_MAX && node == 4 * Pos(fdt.forest, p)
  {
    NodeAbs(fdt.forest, p, fdt.Strs());
  }

  /** The size of what is left of a loop over children. */
  ghost function Left(fdt: Fdt, child: int, c: Path): nat
    reads fdt
  {
    if child >= 0 && IsPath(fdt.forest, c) then Size(At(fdt.forest, c)) else 0
  }

  /** The blob between two rounds of the loop over the children of the node at p. */
  ghost predicate Adjusting(fdto: Fdt, child: int, p: Path, r: Path, l: Layout, delta: u32, goal: Result<Tree>)
    reads fdto, fdto.mem
  {
    && Keeps(l, fdto)
    && if child >= 0 then ChildOf(fdto, child, p, r) && IsPath(fdto.forest, Inside(p, r)) &&
                          AdjustFrom(fdto.Tree(), AbsPath(fdto.forest, Inside(p, r)), delta) == goal
       else goal == Ok(fdto.Tree())
  }

  lemma JoinInside(p: Path, r: Path, x: Path)
    ensures Join(Inside(p, r), x) == Inside(p, Join(r, x))
  {
    JoinJoin(p, Into(r), x);
  }

  lemma {:induction false} JoinJoin(p: Path, q: Path, x: Path)
    ensures Join(Join(p, q), x) == Join(p, Join(q, x))
  {
    if p != Here {
      JoinJoin(p.tail, q, x);
    }
  }

  /** The first child, as the start of a loop. */
  method StartAdjusting(fdto: Fdt, node: int, delta: u32, ghost p: Path) returns (child: int, ghost r: Path)
    requires Target(fdto, node, p) && IsPath(fdto.forest, p)
    ensures Adjusting(fdto, child, p, r, LayoutOf(fdto), delta,
                      InTree(fdto, p, AdjustKids(BodyOf(fdto, p), delta)))
    ensures IsPath(fdto.forest, p) && Left(fdto, child, Inside(p, r)) < Size(At(fdto.forest, p))
  {
    hide Fdt.St, Fdt.Strs, Fdt.Front, Abs, AdjustFrom, Within, AdjustKids, BodyAt, Alike, Encodes;
    KeepsSelf(fdto);
    child, r := FirstChild(fdto, node, p);
    EncodesWf(fdto.St(), fdto.forest);
    AdjustStart(fdto.forest, fdto.Strs(), p, delta);
    if child >= 0 {
      InsideAt(fdto.forest, p, r, Empty);
      PosRange(At(fdto.forest, p).body, r);
    }
  }

  /** A round for a child that was adjusted, up to the next child. */
  lemma RoundDone(fdto: Fdt, child: int, p: Path, r: Path, next: int, r': Path, l: Layout, m: Layout, t: Tree,
                  delta: u32,
                  goal: Result<Tree>)
    requires Changes(l, m)
    requires IsPath(m.forest, Inside(p, r)) && At(m.forest, Inside(p, r)).Node?
    requires IsNode(t, AbsPath(m.forest, Inside(p, r)))
    requires var k := AbsPath(m.forest, Inside(p, r));
      Answers(fdto, m, Within(t, k, AdjustNode(BodyAt(t, k), delta)), 0) && AdjustFrom(t, k, delta) == goal
    requires ChildOf(fdto, child, p, r) && IsPath(fdto.forest, Inside(p, r)) && At(fdto.forest, Inside(p, r)).Node?
    requires match Traverse.FirstNode(At(fdto.forest, Inside(p, r)).rest)
      case None => next == -NOTFOUND
      case Some(x) => r' == Join(r, Next(x)) && ChildOf(fdto, next, p, r')
    ensures Adjusting(fdto, next, p, r', l, delta, goal)
    ensures Left(fdto, next, Inside(p, r')) < Left(fdto, child, Inside(p, r))
  {
    hide Fdt.St, Fdt.Strs, Fdt.Front, Abs, AdjustFrom, AdjustNode, BodyAt, Alike, Encodes, WithBody, AdjustKids, IsNode;
    var f, c := fdto.forest, Inside(p, r);
    KeepsTrans(l, m, fdto);
    AlikePlace(m.forest, f, c);
    AlikeAbsPath(m.forest, f, c);
    var x := AdjustNode(BodyAt(t, AbsPath(f, c)), delta).value;
    EncodesWf(fdto.St(), f);
    AdjustStep(f, fdto.Strs(), c, t, x, delta);
    match Traverse.FirstNode(At(f, c).rest)
    case None =>
    case Some(y) =>
      JoinInside(p, r, Next(y));
      JoinAt(f, c, Next(y), Empty);
      PosRange(At(f, c).rest, y);
  }

  lemma RoundFailed(fdto: Fdt, l: Layout, m: Layout, t: Tree, k: Path, delta: u32, goal: Result<Tree>, ret: int)
    requires Changes(l, m)
    requires IsNode(t, k) && Answers(fdto, m, Within(t, k, AdjustNode(BodyAt(t, k), delta)), ret) && ret != 0
    requires AdjustFrom(t, k, delta) == goal
    ensures Answers(fdto, l, goal, ret)
  {
    KeepsTrans(l, m, fdto);
    assert AdjustKids(TreeAt(t, k), delta) == Err(ret);
  }

  /** What a round starts with. */
  lemma RoundStart(fdto: Fdt, child: int, p: Path, r: Path, l: Layout, delta: u32, goal: Result<Tree>)
    requires Adjusting(fdto, child, p, r, l, delta, goal) && child >= 0
    ensures fdto.Valid() && ChildOf(fdto, child, p, r) && Target(fdto, child, Inside(p, r))
    ensures IsPath(fdto.forest, Inside(p, r)) && At(fdto.forest, Inside(p, r)).Node?
    ensures -INT_MAX - 1 <= child <= INT_MAX && child == 4 * Pos(fdto.forest, Inside(p, r))
    ensures IsNode(fdto.Tree(), AbsPath(fdto.forest, Inside(p, r)))
    ensures AdjustFrom(fdto.Tree(), AbsPath(fdto.forest, Inside(p, r)), delta) == goal
    ensures Changes(l, LayoutOf(fdto))
    ensures Left(fdto, child, Inside(p, r)) == Size(At(fdto.forest, Inside(p, r)))
  {
    hide Fdt.St, Fdt.Strs, Fdt.Front, Abs, AdjustFrom, Alike, Encodes, IsNode;
    NodeHere(fdto, child, Inside(p, r));
  }

  lemma ChildStays(m: Layout, fdto: Fdt, child: int, p: Path, r: Path)
    requires Keeps(m, fdto) && IsPath(m.forest, p) && At(m.forest, p).Node? && Flat(r)
    requires IsPath(At(m.forest, p).body, r)
    requires IsPath(m.forest, Inside(p, r)) && At(m.forest, Inside(p, r)).Node?
    requires child >= 0 && -INT_MAX - 1 <= child <= INT_MAX && child == 4 * Pos(m.forest, Inside(p, r))
    ensures ChildOf(fdto, child, p, r) && IsPath(fdto.forest, Inside(p, r)) && At(fdto.forest, Inside(p, r)).Node?
    ensures Left(fdto, child, Inside(p, r)) == Size(At(m.forest, Inside(p, r)))
  {
    hide Fdt.St, Fdt.Strs, Fdt.Front, Abs, Encodes, IsNode;
    KeepsTarget(m, fdto, child, Inside(p, r));
    AlikePlace(m.forest, fdto.forest, p);
    AlikePlace(At(m.forest, p).body, At(fdto.forest, p).body, r);
    AlikePlace(m.forest, fdto.forest, Inside(p, r));
    AlikeSize(At(m.forest, Inside(p, r)), At(fdto.forest, Inside(p, r)));
  }

  lemma ChildParts(fdto: Fdt, child: int, p: Path, r: Path)
    requires ChildOf(fdto, child, p, r)
    ensures IsPath(fdto.forest, p) && At(fdto.forest, p).Node? && Flat(r) && IsPath(At(fdto.forest, p).body, r)
  {
  }

  /** The loop of overlay_adjust_node_phandles over the children. */
  method AdjustChildren(fdto: Fdt, node: int, delta: u32, ghost p: Path) returns (ret: int)
    requires Target(fdto, node, p) && IsPath(fdto.forest, p)
    modifies fdto, fdto.mem
    ensures Answers(fdto, old(LayoutOf(fdto)),
                    old(InTree(fdto, p, AdjustKids(BodyOf(fdto, p), delta))), ret)
    decreases Size(At(fdto.forest, p)), 0
  {
    hide *;
    PassStart(fdto, node, p);
    ghost var l, t, k := LayoutOf(fdto), fdto.Tree(), AbsPath(fdto.forest, p);
    ghost var goal := Within(t, k, AdjustKids(BodyAt(t, k), delta));
    var child;
    ghost var r;
    child, r := StartAdjusting(fdto, node, delta, p);
    while child >= 0
      invariant Adjusting(fdto, child, p, r, l, delta, goal) && Left(fdto, child, Inside(p, r)) < Size(At(l.forest, p))
      decreases Left(fdto, child, Inside(p, r))
    {
      RoundStart(fdto, child, p, r, l, delta, goal);
      ChildParts(fdto, child, p, r);
      ghost var m, t1, c := LayoutOf(fdto), fdto.Tree(), Inside(p, r);
      PassStart(fdto, child, c);
      AdjustGoalIs(fdto, c, delta);
      ghost var k1 := AbsPath(m.forest, c);
      ret := AdjustNodePhandles(fdto, child, delta, c);
      if ret != 0 {
        RoundFailed(fdto, l, m, t1, k1, delta, goal, ret);
        return;
      }
      AnswerKeeps(fdto, m, Within(t1, k1, AdjustNode(BodyAt(t1, k1), delta)), 0);
      ChildStays(m, fdto, child, p, r);
      var next;
      ghost var r';
      next, r' := NextChild(fdto, child, p, r);
      RoundDone(fdto, child, p, r, next, r', l, m, t1, delta, goal);
      child, r := next, r';
    }
    AdjustedAll(fdto, child, p, r, l, delta, goal);
    ret := 0;
  }

  /** What a pass over the node at p starts with. */
  lemma PassStart(fdt: Fdt, node: int, p: Path)
    requires Target(fdt, node, p)
    ensures fdt.Valid() && IsPath(fdt.forest, p) && At(fdt.forest, p).Node?
    ensures var t, k, l := fdt.Tree(), AbsPath(fdt.forest, p), LayoutOf(fdt);
      && IsNode(t, k) && BodyOf(fdt, p) == BodyAt(t, k)
      && (forall r: Result<Tree> :: InTree(fdt, p, r) == Within(t, k, r))
      && l.forest == fdt.forest
    ensures -INT_MAX - 1 <= node <= INT_MAX && node == 4 * Pos(fdt.forest, p)
  {
    NodeHere(fdt, node, p);
  }

  lemma AnswerKeeps(fdto: Fdt, l: Layout, goal: Result<Tree>, ret: int)
    requires Answers(fdto, l, goal, ret)
    ensures Keeps(l, fdto)
  {
  }

  lemma AdjustedAll(fdto: Fdt, child: int, p: Path, r: Path, l: Layout, delta: u32, goal: Result<Tree>)
    requires Adjusting(fdto, child, p, r, l, delta, goal) && child < 0
    ensures Answers(fdto, l, goal, 0)
  {
  }

  /** The tree with the phandles of the node at p, and of those below it, shifted; or the error. */
  ghost function AdjustGoal(fdto: Fdt, p: Path, delta: u32): Result<Tree>
    requires fdto.Valid() && IsPath(fdto.forest, p)
    reads fdto, fdto.mem
  {
    InTree(fdto, p, AdjustNode(BodyOf(fdto, p), delta))
  }

  lemma AdjustGoalIs(fdto: Fdt, p: Path, delta: u32)
    requires fdto.Valid() && IsPath(fdto.forest, p)
    ensures AdjustGoal(fdto, p, delta) == InTree(fdto, p, AdjustNode(BodyOf(fdto, p), delta))
  {
  }

  /** overlay_adjust_node_phandles */
  method AdjustNodePhandles(fdto: Fdt, node: int, delta: u32, ghost p: Path) returns (ret: int)
    requires Target(fdto, node, p) && IsPath(fdto.forest, p)
    modifies fdto, fdto.mem
    ensures Answers(fdto, old(LayoutOf(fdto)),
                    old(AdjustGoal(fdto, p, delta)), ret)
    decreases Size(At(fdto.forest, p)), 1
  {
    hide *;
    PassStart(fdto, node, p);
    ghost var l, t, k := LayoutOf(fdto), fdto.Tree(), AbsPath(fdto.forest, p);
    ghost var b := BodyAt(t, k);
    AdjustIs(b, delta);
    AdjustGoalIs(fdto, p, delta);
    ret := AdjustOwnPhandles(fdto, node, delta, p);
    if ret != 0 {
      OwnFailed(fdto, l, t, k, b, delta, ret);
      return;
    }
    ghost var b2 := OwnDone(fdto, node, p, l, t, k, b, delta);
    PassStart(fdto, node, p);
    ghost var m := LayoutOf(fdto);
    ret := AdjustChildren(fdto, node, delta, p);
    KidsDone(fdto, l, m, t, k, b, b2, delta, ret);
  }

  lemma AdjustIs(b: Tree, delta: u32)
    ensures AdjustNode(b, delta) ==
            match AddOffsets(b, delta) case Err(e) => Err(e) case Ok(b2) => AdjustKids(b2, delta)
  {
  }

  lemma OwnFailed(fdto: Fdt, l: Layout, t: Tree, k: Path, b: Tree, delta: u32, ret: int)
    requires Answers(fdto, l, Within(t, k, AddOffsets(b, delta)), ret) && ret != 0
    ensures Answers(fdto, l, Within(t, k, AdjustNode(b, delta)), ret)
  {
    hide AddOffsets;
    AdjustIs(b, delta);
  }

  lemma OwnDone(fdto: Fdt, node: int, p: Path, l: Layout, t: Tree, k: Path, b: Tree, delta: u32) returns (b2: Tree)
    requires Answers(fdto, l, Within(t, k, AddOffsets(b, delta)), 0)
    requires IsPath(l.forest, p) && At(l.forest, p).Node? && k == AbsPath(l.forest, p) && IsNode(t, k)
    requires -INT_MAX - 1 <= node <= INT_MAX && node == 4 * Pos(l.forest, p)
    ensures AddOffsets(b, delta) == Ok(b2) && fdto.Valid() && fdto.Tree() == WithBody(t, k, b2)
    ensures Keeps(l, fdto) && Target(fdto, node, p) && IsPath(fdto.forest, p) && AbsPath(fdto.forest, p) == k
    ensures Changes(l, LayoutOf(fdto))
    ensures IsNode(fdto.Tree(), k) && BodyAt(fdto.Tree(), k) == b2
    ensures Size(At(fdto.forest, p)) == Size(At(l.forest, p))
  {
    hide Fdt.St, Fdt.Strs, Fdt.Front, Abs, Encodes, IsNode, AddOffsets, WithBody, BodyAt;
    b2 := AddOffsets(b, delta).value;
    KeepsTarget(l, fdto, node, p);
    WithBodyAt(t, k, b2, b2);
    AlikePlace(l.forest, fdto.forest, p);
    AlikeSize(At(l.forest, p), At(fdto.forest, p));
  }

  lemma KidsDone(fdto: Fdt, l: Layout, m: Layout, t: Tree, k: Path, b: Tree, b2: Tree, delta: u32, ret: int)
    requires Changes(l, m)
    requires IsNode(t, k) && AddOffsets(b, delta) == Ok(b2)
    requires Answers(fdto, m, Within(WithBody(t, k, b2), k, AdjustKids(b2, delta)), ret)
    ensures Answers(fdto, l, Within(t, k, AdjustNode(b, delta)), ret)
  {
    hide AddOffsets, WithBody;
    AdjustIs(b, delta);
    KeepsTrans(l, m, fdto);
    var r := AdjustKids(b2, delta);
    WithBodyAt(t, k, b2, if r.Ok? then r.value else Nil);
  }
}
