/** libfdt/fdt_rw.c: names and nodes. */
module NodeEdit {
  import opened Bytes
  import opened Tags
  import opened Blob
  import opened Forests
  import opened Edits
  import opened Trees
  import opened ReadWrite
  import FdtCore
  import opened InPlace
  import ReadOnly
  import Traverse
  import Walk

  // ---------- Renaming ----------

  /** A begin tag with the name written behind it and the padding found there. */
  function BeginItem(c: bytes, x: nat, name: bytes): Item
    requires x + 4 + Align4(|name| + 1) <= |c|
  {
    Begin(name, c[x + 5 + |name|..x + 4 + Align4(|name| + 1)])
  }

  lemma BeginItemAt(c: bytes, p: nat, name: bytes)
    requires 4 * p + 4 + Align4(|name| + 1) <= |c| && 0 !in name
    requires Dec32(c, 4 * p) == FDT_BEGIN_NODE
    requires c[4 * p + 4..4 * p + 5 + |name|] == name + [0]
    ensures WfItem(BeginItem(c, 4 * p, name)) && ItemAt(c, p, BeginItem(c, 4 * p, name))
  {
    hide Dec32, Cells;
    var x := 4 * p + 4;
    assert c[x..x + |name|] == c[x..x + |name| + 1][..|name|];
    assert c[x + |name|] == c[x..x + |name| + 1][|name|];
  }

  /** The begin tag of the node at place p, and the room its name takes. */
  lemma BeginWords(a: bytes, f: Forest, p: Path)
    requires Encodes(a, f) && IsPath(f, p) && At(f, p).Node?
    ensures At(f, p).item.Begin? && 4 * Pos(f, p) + 4 <= |a| && Dec32(a, 4 * Pos(f, p)) == FDT_BEGIN_NODE
    ensures Walk.NameOf(a, 4 * Pos(f, p)) == Walk.Some(At(f, p).item.name)
    ensures Pos(f, p) + 1 + Cells(|At(f, p).item.name| + 1) <= Size(f) && 4 * (Size(f) + 1) <= |a|
  {
    hide Has, HasFirst, Cells;
    EncodesAt(a, f, p);
    PosRange(f, p);
    Traverse.HasHead(a, Pos(f, p), At(f, p));
    Traverse.NameOfHas(a, Pos(f, p), At(f, p));
    BeginTag(a, Pos(f, p), At(f, p));
  }

  lemma BeginTag(a: bytes, p: nat, f: Forest)
    requires f.Node? && Wf(f) && HasFirst(a, p, f)
    ensures TagAt(a, p, FDT_BEGIN_NODE)
  {
  }

  /** The name of the node at p has been given new room and written. */
  lemma Renamed(a: bytes, b: bytes, c: bytes, strs: bytes, f: Forest, p: Path, name: bytes) returns (g: Forest)
    requires Encodes(a, f) && Named(f, strs) && IsPath(f, p) && At(f, p).Node? && At(f, p).item.Begin? && 0 !in name
    requires var x := 4 * Pos(f, p) + 4;
      && SpliceOf(a, b, x, Align4(|At(f, p).item.name| + 1), Align4(|name| + 1))
      && KeptBut(b, c, x, |name| + 1) && x + |name| + 1 <= |c| && c[x..x + |name| + 1] == name + [0]
    ensures Encodes(c, g) && Named(g, strs) && IsNode(Abs(f, strs), AbsPath(f, p))
    ensures var n := TreeAt(Abs(f, strs), AbsPath(f, p));
      Abs(g, strs) == TreePut(Abs(f, strs), AbsPath(f, p), NodeT(name, n.body, n.rest))
  {
    hide Dec32, Has, HasFirst, SpliceOf, KeptBut, Spliced, Cells, Encodes;
    var pos, h := Pos(f, p), At(f, p);
    var u, v := Cells(|h.item.name| + 1), Cells(|name| + 1);
    BeginWords(a, f, p);
    SplicedCells(a, b, pos, 1, u, v, Size(f) + 1);
    SplicedWrite(a, b, c, pos, pos + (1 + u), 1 + v, Size(f) + 1, 4 * pos + 4, |name| + 1);
    RenamedWord(a, b, c, 4 * pos, 4 * u, 4 * v, |name| + 1);
    var it := BeginItem(c, 4 * pos, name);
    BeginItemAt(c, pos, name);
    RenameEncodes(a, c, f, p, it);
    EncodesWf(a, f);
    RenamedAbs(f, strs, p, it);
    g := Put(f, p, Node(it, h.body, h.rest));
  }

  lemma RenamedAbs(f: Forest, strs: bytes, p: Path, it: Item)
    requires Wf(f) && Named(f, strs) && IsPath(f, p) && At(f, p).Node? && it.Begin? && WfItem(it)
    ensures var g := Put(f, p, Node(it, At(f, p).body, At(f, p).rest));
      var n := Abs(f, strs);
      && Wf(g) && Named(g, strs) && IsNode(n, AbsPath(f, p))
      && Abs(g, strs) == TreePut(n, AbsPath(f, p),
                                 NodeT(it.name, TreeAt(n, AbsPath(f, p)).body, TreeAt(n, AbsPath(f, p)).rest))
  {
    NodeAbs(f, p, strs);
    AbsPut(f, p, Node(it, At(f, p).body, At(f, p).rest), strs);
  }

  lemma RenamedWord(a: bytes, b: bytes, c: bytes, x: nat, u: nat, v: nat, n: nat)
    requires SpliceOf(a, b, x + 4, u, v) && KeptBut(b, c, x + 4, n)
    ensures x + 4 + v <= |c| && Dec32(c, x) == Dec32(a, x)
  {
    hide Dec32, Same;
    MoveWord(a, 0, b, 0, x + 4 + Min(u, v), x);
    KeptWord(b, c, x + 4, n, x);
  }

  /** The splice of fdt_set_name, then the copy. */
  method WriteName(fdt: Fdt, nodeoffset: nat, oldlen: nat, name: bytes, ghost p: Path) returns (err: int)
    requires fdt.Valid() && IsPath(fdt.forest, p) && At(fdt.forest, p).Node? && At(fdt.forest, p).item.Begin?
    requires nodeoffset == 4 * Pos(fdt.forest, p) && oldlen == |At(fdt.forest, p).item.name|
    requires nodeoffset + 4 + Align4(oldlen + 1) <= |fdt.St()| && 0 !in name && |name| <= MAX_LEN
    modifies fdt, fdt.mem
    ensures fdt.Valid() && fdt.Front() == old(fdt.Front()) && fdt.Strs() == old(fdt.Strs())
    ensures err == 0 || err == -NOSPACE
    ensures err == 0 <==>
              old(fdt.offDtStrings + fdt.sizeDtStrings) - Align4(oldlen + 1) + Align4(|name| + 1) <= fdt.totalsize
    ensures err == 0 ==>
              fdt.offDtStrings + fdt.sizeDtStrings ==
              old(fdt.offDtStrings + fdt.sizeDtStrings) - Align4(oldlen + 1) + Align4(|name| + 1)
    ensures err == 0 ==>
              (&& old(IsNode(fdt.Tree(), AbsPath(fdt.forest, p)))
               && fdt.Tree() == old(TreePut(fdt.Tree(), AbsPath(fdt.forest, p),
                                            NodeT(name, TreeAt(fdt.Tree(), AbsPath(fdt.forest, p)).body,
                                                  TreeAt(fdt.Tree(), AbsPath(fdt.forest, p)).rest))))
    ensures err != 0 ==> fdt.Hdr() == old(fdt.Hdr()) && fdt.forest == old(fdt.forest) && fdt.St() == old(fdt.St())
  {
    hide Fdt.St, Fdt.Strs, Fdt.Front, Encodes, Abs, Named, Has, HasFirst, SpliceOf, KeptBut, TreePut, TreeAt, Align4,
         Cells, IsNode;
    ghost var f, a, strs := fdt.forest, fdt.St(), fdt.Strs();
    fdt.StSize();
    NameRoom(|name| + 1);
    err := SpliceBlocks(fdt, nodeoffset + 4, Align4(oldlen + 1), Align4(|name| + 1));
    if err != 0 {
      return;
    }
    ghost var b := fdt.St();
    fdt.StSize();
    StMemcpy(fdt, nodeoffset + 4, name + [0]);
    fdt.StSize();
    ghost var g := Renamed(a, b, fdt.St(), strs, f, p, name);
    fdt.Adopt(g);
  }

  /** fdt_set_name, once the header has been accepted. */
  method SetNameProbed(fdt: Fdt, nodeoffset: int, name: bytes, ghost place: Walk.Option<Path>) returns (err: int)
    requires fdt.Valid() && NodeOffset(fdt, nodeoffset, place) && 0 !in name && |name| <= MAX_LEN
    modifies fdt, fdt.mem
    ensures fdt.Valid() && fdt.Front() == old(fdt.Front()) && fdt.Strs() == old(fdt.Strs())
    ensures place.None? ==> err == -BADOFFSET
    ensures place.Some? ==> err == 0 || err == -NOSPACE
    ensures place.Some? ==> old(IsNode(fdt.Tree(), AbsPath(fdt.forest, place.value)))
    ensures place.Some? ==>
              (err == 0 <==>
               old(fdt.offDtStrings + fdt.sizeDtStrings
                   - Align4(|TreeAt(fdt.Tree(), AbsPath(fdt.forest, place.value)).name| + 1))
               + Align4(|name| + 1) <= fdt.totalsize)
    ensures err == 0 ==>
              fdt.offDtStrings + fdt.sizeDtStrings ==
              old(fdt.offDtStrings + fdt.sizeDtStrings
                  - Align4(|TreeAt(fdt.Tree(), AbsPath(fdt.forest, place.value)).name| + 1)) + Align4(|name| + 1)
    ensures err == 0 ==>
              fdt.Tree() == old(TreePut(fdt.Tree(), AbsPath(fdt.forest, place.value),
                                        NodeT(name, TreeAt(fdt.Tree(), AbsPath(fdt.forest, place.value)).body,
                                              TreeAt(fdt.Tree(), AbsPath(fdt.forest, place.value)).rest)))
    ensures err != 0 ==> fdt.Hdr() == old(fdt.Hdr()) && fdt.forest == old(fdt.forest) && fdt.St() == old(fdt.St())
  {
    hide Fdt.St, Fdt.Strs, Fdt.Front, Encodes, Abs, Named, Fdt.Hdr, Has, HasFirst, SpliceOf, KeptBut, TreePut, TreeAt,
         Walk.NameOf, Align4, Dec32, Walk.CheckNode, Cells, IsNode;
    fdt.Blocks();
    ghost var f, a, strs := fdt.forest, fdt.St(), fdt.Strs();
    var oldlen := ReadOnly.GetName(fdt, nodeoffset);
    if place.Some? {
      BeginWords(a, f, place.value);
      NamedNode(a, f, place.value, strs);
    } else {
      NoName(a, nodeoffset);
    }
    if oldlen < 0 {
      return oldlen;
    }
    err := WriteName(fdt, nodeoffset, oldlen, name, place.value);
  }

  lemma NoName(st: bytes, off: int)
    requires Walk.CheckNode(st, off) < 0
    ensures Walk.CheckNode(st, off) == -BADOFFSET && Walk.NameOf(st, off).None?
  {
    CheckNodeError(st, off);
  }

  lemma NameRoom(n: nat)
    ensures n <= Align4(n) <= n + 3
  {
  }

  lemma NamedNode(a: bytes, f: Forest, p: Path, strs: bytes)
    requires Encodes(a, f) && Named(f, strs) && IsPath(f, p) && At(f, p).Node?
    ensures At(f, p).item.Begin? && IsNode(Abs(f, strs), AbsPath(f, p))
    ensures TreeAt(Abs(f, strs), AbsPath(f, p)).name == At(f, p).item.name
    ensures 4 * Pos(f, p) + 4 + Align4(|At(f, p).item.name| + 1) <= |a|
  {
    hide Has, HasFirst;
    NodeAbs(f, p, strs);
    BeginWords(a, f, p);
  }

  /** fdt_set_name */
  method SetName(fdt: Fdt, nodeoffset: int, name: bytes, ghost place: Walk.Option<Path>) returns (err: int)
    requires RwError(fdt.Hdr()) == 0 ==> fdt.Valid() && NodeOffset(fdt, nodeoffset, place)
    requires 0 !in name && |name| <= MAX_LEN
    modifies fdt, fdt.mem
    ensures old(RwError(fdt.Hdr())) != 0 ==>
              (err == old(RwError(fdt.Hdr())) && fdt.Hdr() == old(fdt.Hdr()) && fdt.mem[..] == old(fdt.mem[..]))
    ensures old(RwError(fdt.Hdr())) == 0 ==>
              fdt.Valid() && fdt.Front() == old(fdt.Front()) && fdt.Strs() == old(fdt.Strs())
    ensures old(RwError(fdt.Hdr())) == 0 && place.None? ==> err == -BADOFFSET
    ensures old(RwError(fdt.Hdr())) == 0 && place.Some? ==> err == 0 || err == -NOSPACE
    ensures old(RwError(fdt.Hdr())) == 0 && place.Some? ==> old(IsNode(fdt.Tree(), AbsPath(fdt.forest, place.value)))
    ensures old(RwError(fdt.Hdr())) == 0 && place.Some? ==>
              (err == 0 <==>
               old(fdt.offDtStrings + fdt.sizeDtStrings
                   - Align4(|TreeAt(fdt.Tree(), AbsPath(fdt.forest, place.value)).name| + 1))
               + Align4(|name| + 1) <= fdt.totalsize)
    ensures old(RwError(fdt.Hdr())) == 0 && err == 0 ==>
              fdt.offDtStrings + fdt.sizeDtStrings ==
              old(fdt.offDtStrings + fdt.sizeDtStrings
                  - Align4(|TreeAt(fdt.Tree(), AbsPath(fdt.forest, place.value)).name| + 1)) + Align4(|name| + 1)
    ensures old(RwError(fdt.Hdr())) == 0 && err == 0 ==>
              fdt.Tree() == old(TreePut(fdt.Tree(), AbsPath(fdt.forest, place.value),
                                        NodeT(name, TreeAt(fdt.Tree(), AbsPath(fdt.forest, place.value)).body,
                                              TreeAt(fdt.Tree(), AbsPath(fdt.forest, place.value)).rest)))
    ensures old(RwError(fdt.Hdr())) == 0 && err != 0 ==>
              fdt.Hdr() == old(fdt.Hdr()) && fdt.forest == old(fdt.forest) && fdt.St() == old(fdt.St())
  {
    hide Fdt.St, Fdt.Strs, Fdt.Front, Fdt.Tree, RwError, AbsPath, TreePut, TreeAt, Align4;
    err := RwProbe(fdt);
    if err != 0 {
      return;
    }
    err := SetNameProbed(fdt, nodeoffset, name, place);
  }

  // ---------- Adding ----------

  /** The loop of fdt_add_subnode stops behind the properties of an encoded body. */
  lemma {:induction false} SkipEntriesHas(st: bytes, p: nat, f: Forest)
    requires Wf(f) && Has(st, p, f) && TagAt(st, p + Size(f), FDT_END_NODE)
    ensures Walk.SkipEntries(st, 4 * p) == 4 * (p + Pos(f, ChildrenPath(f)))
    decreases f
  {
    hide Tags.NextTag, Has, HasFirst, Len;
    if f == Empty {
      NextTagWord(st, p, FDT_END_NODE);
    } else {
      Traverse.HasHead(st, p, f);
      if f.Leaf? {
        SkipEntriesHas(st, p + Width(f), f.rest);
      }
    }
  }

  /** Where fdt_add_subnode puts the new node. */
  lemma ChildrenStart(a: bytes, f: Forest, p: Path)
    requires Encodes(a, f) && IsPath(f, p) && At(f, p).Node?
    ensures var i := Inside(p, ChildrenPath(At(f, p).body));
      IsPath(f, i) && Walk.SkipEntries(a, Walk.CheckNode(a, 4 * Pos(f, p))) == 4 * Pos(f, i) && 4 * Pos(f, i) <= |a|
    ensures Tags.NextTag(a, 4 * Pos(f, p)) == (FDT_BEGIN_NODE, Walk.CheckNode(a, 4 * Pos(f, p)))
  {
    hide Tags.NextTag, Has, HasFirst, Walk.SkipEntries, Walk.CheckNode, Walk.NameOf, At, Pos, IsPath, ChildrenPath,
         Len, Inside;
    var pos, n := Pos(f, p), At(f, p);
    EncodesAt(a, f, p);
    Traverse.HasHead(a, pos, n);
    Traverse.HasBody(a, pos, n);
    Traverse.NameOfHas(a, pos, n);
    SkipEntriesHas(a, pos + Len(n.item), n.body);
    InsideAt(f, p, ChildrenPath(n.body), Empty);
    PosRange(f, Inside(p, ChildrenPath(n.body)));
  }

  /** b is a with an empty node called name put in at place p. */
  ghost predicate NodeAdded(a: bytes, b: bytes, f: Forest, p: Path, name: bytes) {
    IsPath(f, p) &&
    var x, pos := 4 * Pos(f, p), Pos(f, p);
    && |b| >= x + 8 + Align4(|name| + 1)
    && Dec32(b, x) == FDT_BEGIN_NODE && b[x + 4..x + 5 + |name|] == name + [0]
    && Dec32(b, x + 4 + Align4(|name| + 1)) == FDT_END_NODE
    && Spliced(a, b, 0, pos, pos, 2 + Cells(|name| + 1), Size(f) + 1)
  }

  lemma FinishNode(a: bytes, b: bytes, c: bytes, f: Forest, p: Path, name: bytes)
    requires Encodes(a, f) && IsPath(f, p)
    requires var x, m := 4 * Pos(f, p), Align4(|name| + 1);
      && SpliceOf(a, b, x, 0, 8 + m) && KeptBut(b, c, x, 8 + m) && |c| >= x + 8 + m
      && Dec32(c, x) == FDT_BEGIN_NODE && Dec32(c, x + 4 + m) == FDT_END_NODE
      && c[x + 4..x + 5 + |name|] == name + [0]
    ensures NodeAdded(a, c, f, p, name)
  {
    hide Dec32, Has, HasFirst, SpliceOf, Cells, Spliced, KeptBut;
    var pos, v := Pos(f, p), 2 + Cells(|name| + 1);
    PosRange(f, p);
    SpliceSize(a, b, 4 * pos, 0, 4 * v);
    SplicedCells(a, b, pos, 0, 0, v, Size(f) + 1);
    SplicedWrite(a, b, c, pos, pos, v, Size(f) + 1, 4 * pos, 4 * v);
  }

  /** The writes that make a node: the begin tag, zeros for the name, the name, the end tag. */
  method WriteNode(fdt: Fdt, x: nat, name: bytes)
    requires fdt.Laid() && x + 8 + Align4(|name| + 1) <= fdt.sizeDtStruct
    modifies fdt.mem
    ensures fdt.Front() == old(fdt.Front()) && fdt.Strs() == old(fdt.Strs())
    ensures KeptBut(old(fdt.St()), fdt.St(), x, 8 + Align4(|name| + 1))
    ensures Dec32(fdt.St(), x) == FDT_BEGIN_NODE && fdt.St()[x + 4..x + 5 + |name|] == name + [0]
    ensures Dec32(fdt.St(), x + 4 + Align4(|name| + 1)) == FDT_END_NODE
  {
    hide Fdt.St, Fdt.Strs, Fdt.Front, Dec32, Same, KeptBut, Fdt.Laid, Fdt.InBounds, Fdt.StructIn, Align4;
    fdt.Blocks();
    var m := Align4(|name| + 1);
    NameRoom(|name| + 1);
    ghost var a := fdt.St();
    StStore32(fdt, x, FDT_BEGIN_NODE);
    ghost var b := fdt.St();
    StMemcpy(fdt, x + 4, Zeros(m));
    ghost var c := fdt.St();
    StMemcpy(fdt, x + 4, name);
    ghost var d := fdt.St();
    StStore32(fdt, x + 4 + m, FDT_END_NODE);
    FourWrites(a, b, c, d, fdt.St(), x, m, name);
  }

  function Zeros(n: nat): (r: bytes)
    ensures |r| == n && forall i :: 0 <= i < n ==> r[i] == 0
  {
    seq(n, _ => 0)
  }

  lemma FourWrites(a: bytes, b: bytes, c: bytes, d: bytes, e: bytes, x: nat, m: nat, name: bytes)
    requires x + 8 + m <= |a| && m >= |name| + 1
    requires KeptBut(a, b, x, 4) && KeptBut(b, c, x + 4, m) && KeptBut(c, d, x + 4, |name|)
    requires KeptBut(d, e, x + 4 + m, 4)
    requires c[x + 4..x + 4 + m] == Zeros(m) && d[x + 4..x + 4 + |name|] == name
    ensures KeptBut(a, e, x, 8 + m) && Dec32(e, x) == Dec32(b, x)
    ensures e[x + 4..x + 5 + |name|] == name + [0]
  {
    FourKept(a, b, c, d, e, x, m, |name|);
    NameWritten(c, d, e, x, m, name);
    hide Same;
    KeptWord(b, c, x + 4, m, x);
    KeptWord(c, d, x + 4, |name|, x);
    KeptWord(d, e, x + 4 + m, 4, x);
  }

  lemma NameWritten(c: bytes, d: bytes, e: bytes, x: nat, m: nat, name: bytes)
    requires x + 8 + m <= |c| && m >= |name| + 1
    requires KeptBut(c, d, x + 4, |name|) && KeptBut(d, e, x + 4 + m, 4)
    requires c[x + 4..x + 4 + m] == Zeros(m) && d[x + 4..x + 4 + |name|] == name
    ensures e[x + 4..x + 5 + |name|] == name + [0]
  {
    var n := |name|;
    assert d[x + 4 + n] == c[x + 4 + n] == c[x + 4..x + 4 + m][n] == 0;
    KeptRange(d, e, x + 4 + m, 4, x + 4, n);
    SameSlices(d, x + 4, e, x + 4, n);
    assert e[x + 4..x + 5 + n] == e[x + 4..x + 4 + n] + [e[x + 4 + n]];
  }

  lemma FourKept(a: bytes, b: bytes, c: bytes, d: bytes, e: bytes, x: nat, m: nat, n: nat)
    requires x + 8 + m <= |a| && m >= n + 1
    requires KeptBut(a, b, x, 4) && KeptBut(b, c, x + 4, m) && KeptBut(c, d, x + 4, n) && KeptBut(d, e, x + 4 + m, 4)
    ensures KeptBut(a, e, x, 8 + m)
  {
  }

  /** The splice and the writes of fdt_add_subnode, at place p. */
  method AddNodeAt(fdt: Fdt, x: nat, name: bytes, ghost p: Path) returns (err: int)
    requires fdt.Laid() && Encodes(fdt.St(), fdt.forest) && IsPath(fdt.forest, p) && |name| <= MAX_LEN
    requires x == 4 * Pos(fdt.forest, p)
    modifies fdt.mem, fdt`sizeDtStruct, fdt`offDtStrings
    ensures fdt.Laid() && fdt.Front() == old(fdt.Front()) && fdt.Strs() == old(fdt.Strs())
    ensures err != 0 ==> err == -NOSPACE && fdt.Hdr() == old(fdt.Hdr()) && fdt.St() == old(fdt.St())
    ensures err == 0 <==> old(fdt.offDtStrings + fdt.sizeDtStrings) + 8 + Align4(|name| + 1) <= fdt.totalsize
    ensures err == 0 ==> NodeAdded(old(fdt.St()), fdt.St(), fdt.forest, p, name)
    ensures err == 0 ==>
              fdt.offDtStrings + fdt.sizeDtStrings == old(fdt.offDtStrings + fdt.sizeDtStrings) + 8 + Align4(|name| + 1)
  {
    hide Fdt.St, Fdt.Strs, Fdt.Front, Dec32, Has, HasFirst, SpliceOf, KeptBut, Align4, NodeAdded;
    ghost var f, a := fdt.forest, fdt.St();
    assert x <= |a| by { PosRange(f, p); }
    fdt.StSize();
    NameRoom(|name| + 1);
    var nodelen := 4 + Align4(|name| + 1) + 4;
    err := SpliceBlocks(fdt, x, 0, nodelen);
    if err != 0 {
      return;
    }
    ghost var b := fdt.St();
    fdt.StSize();
    WriteNode(fdt, x, name);
    fdt.StSize();
    FinishNode(a, b, fdt.St(), f, p, name);
  }

  lemma ChildPathPut(f: Forest, p: Path, it: Item)
    requires Wf(f) && IsPath(f, p) && At(f, p).Node? && it.Begin?
    ensures var c := ChildrenPath(At(f, p).body);
      && IsPath(f, Inside(p, c))
      && var g := Put(f, Inside(p, c), Node(it, Empty, At(f, Inside(p, c))));
         IsPath(g, p) && At(g, p).Node? && Traverse.ChildPath(At(g, p).body, it.name) == Walk.Some(c)
  {
    var b := At(f, p).body;
    var c := ChildrenPath(b);
    AtWf(f, p);
    ChildPathNew(b, it);
    InsideAt(f, p, c, Node(it, Empty, At(b, c)));
    PutAt(f, p, At(f, p).(body := Put(b, c, Node(it, Empty, At(b, c)))));
  }

  /** A node has been added to the node at p. */
  lemma ChildAdded(a: bytes, b: bytes, strs: bytes, f: Forest, p: Path, name: bytes) returns (g: Forest)
    requires Encodes(a, f) && Named(f, strs) && IsPath(f, p) && At(f, p).Node? && 0 !in name
    requires NodeAdded(a, b, f, Inside(p, ChildrenPath(At(f, p).body)), name)
    ensures Encodes(b, g) && Named(g, strs)
    ensures Abs(g, strs) == WithBody(Abs(f, strs), AbsPath(f, p), AddChild(BodyAt(Abs(f, strs), AbsPath(f, p)), name))
    ensures var i := Inside(p, ChildrenPath(At(f, p).body));
      && IsPath(f, i) && IsPath(g, i) && Pos(g, i) == Pos(f, i) && At(g, i).Node?
      && At(g, i).item.Begin? && At(g, i).item.name == name && At(g, i).body == Empty
    ensures NodeEdited(f, g, p) && ChildMade(f, g, p, name)
  {
    hide Dec32, Has, HasFirst, Spliced, Cells, Encodes, Abs;
    var i := Inside(p, ChildrenPath(At(f, p).body));
    var pos := Pos(f, i);
    BeginItemAt(b, pos, name);
    var it := BeginItem(b, 4 * pos, name);
    NewNodeEncodes(a, b, f, i, it);
    EncodesWf(a, f);
    AddChildInside(f, p, strs, it);
    InsideAt(f, p, ChildrenPath(At(f, p).body), Empty);
    g := Put(f, i, Node(it, Empty, At(f, i)));
    PutAt(f, i, Node(it, Empty, At(f, i)));
    PutEdited(f, p, ChildrenPath(At(f, p).body), Node(it, Empty, At(f, i)));
    ChildPathPut(f, p, it);
  }

  /** The node at p has a new child, at the place behind the properties, and it answers to its name. */
  ghost predicate ChildMade(f: Forest, g: Forest, p: Path, name: bytes) {
    && IsPath(f, p) && At(f, p).Node? && IsPath(g, p) && At(g, p).Node?
    && Traverse.ChildPath(At(g, p).body, name) == Walk.Some(ChildrenPath(At(f, p).body))
  }

  /** A new node is added to the node at p. */
  method InsertChild(fdt: Fdt, x: nat, name: bytes, ghost p: Path) returns (err: int)
    requires fdt.Valid() && IsPath(fdt.forest, p) && At(fdt.forest, p).Node? && 0 !in name && |name| <= MAX_LEN
    requires var i := Inside(p, ChildrenPath(At(fdt.forest, p).body));
              IsPath(fdt.forest, i) && x == 4 * Pos(fdt.forest, i)
    modifies fdt, fdt.mem
    ensures fdt.Valid() && fdt.Front() == old(fdt.Front()) && fdt.Strs() == old(fdt.Strs())
    ensures err == 0 || err == -NOSPACE
    ensures err == 0 <==> old(fdt.offDtStrings + fdt.sizeDtStrings) + 8 + Align4(|name| + 1) <= fdt.totalsize
    ensures err == 0 ==>
              (&& NodeOffset(fdt, x, Walk.Some(NewPlace(old(fdt.forest), p)))
               && At(fdt.forest, NewPlace(old(fdt.forest), p)).item.Begin?
               && At(fdt.forest, NewPlace(old(fdt.forest), p)).item.name == name
               && At(fdt.forest, NewPlace(old(fdt.forest), p)).body == Empty
               && fdt.Tree() == old(WithBody(fdt.Tree(), AbsPath(fdt.forest, p),
                                             AddChild(BodyAt(fdt.Tree(), AbsPath(fdt.forest, p)), name))))
    ensures err != 0 ==> fdt.Hdr() == old(fdt.Hdr()) && fdt.forest == old(fdt.forest) && fdt.St() == old(fdt.St())
    ensures err == 0 ==> NodeEdited(old(fdt.forest), fdt.forest, p)
    ensures err == 0 ==> ChildMade(old(fdt.forest), fdt.forest, p, name)
    ensures err == 0 ==>
              fdt.offDtStrings + fdt.sizeDtStrings == old(fdt.offDtStrings + fdt.sizeDtStrings) + 8 + Align4(|name| + 1)
  {
    hide Fdt.St, Fdt.Strs, Fdt.Front, Encodes, Abs, Named, Has, HasFirst, NodeAdded, WithBody, AddChild, BodyAt,
         Align4, Cells;
    ghost var f, a, strs := fdt.forest, fdt.St(), fdt.Strs();
    err := AddNodeAt(fdt, x, name, Inside(p, ChildrenPath(At(fdt.forest, p).body)));
    if err != 0 {
      return;
    }
    ghost var g := ChildAdded(a, fdt.St(), strs, f, p, name);
    fdt.Adopt(g);
    assert x <= INT_MAX by { fdt.StSize(); PlaceInside(fdt.St(), g, NewPlace(f, p)); }
  }

  lemma PlaceInside(st: bytes, f: Forest, p: Path)
    requires Encodes(st, f) && IsPath(f, p)
    ensures 4 * Pos(f, p) <= |st|
  {
    hide Has;
    PosRange(f, p);
  }

  /** The place of a new child of the node at p. */
  ghost function NewPlace(f: Forest, p: Path): Path {
    if IsPath(f, p) && At(f, p).Node? then Inside(p, ChildrenPath(At(f, p).body)) else Here
  }

  /** What child lookup says about a node of the tree. */
  lemma ChildLookedUp(a: bytes, strs: bytes, f: Forest, p: Path, name: bytes)
    requires Encodes(a, f) && Named(f, strs) && IsPath(f, p) && At(f, p).Node?
    ensures var r := Walk.SubnodeOffset(a, 4 * Pos(f, p), name);
      if ChildAt(BodyAt(Abs(f, strs), AbsPath(f, p)), name).Some? then r >= 0 else r == -NOTFOUND
  {
    hide Has, HasFirst, Walk.SubnodeOffset, Encodes, Walk.NameEq;
    EncodesAt(a, f, p);
    EncodesWf(a, f);
    NodeAbs(f, p, strs);
    Traverse.SubnodeOffsetHas(a, Pos(f, p), At(f, p), name);
    ChildPathAbs(At(f, p).body, strs, name);
  }

  /** The loop of fdt_add_subnode over the tags behind the begin tag. */
  method SkipToChildren(fdt: Fdt, start: nat) returns (offset: int)
    requires fdt.StructIn() && start <= INT_MAX
    ensures offset == Walk.SkipEntries(fdt.St(), start)
  {
    hide Tags.NextTag, Fdt.St;
    assert |fdt.St()| <= INT_MAX - 3 by { fdt.StSize(); }
    var nextoffset := start;
    offset := start;
    var tag := FDT_NOP;
    while tag == FDT_PROP || tag == FDT_NOP
      invariant tag == FDT_PROP || tag == FDT_NOP ==>
                  0 <= nextoffset <= INT_MAX &&
                    Walk.SkipEntries(fdt.St(), nextoffset) == Walk.SkipEntries(fdt.St(), start)
      invariant !(tag == FDT_PROP || tag == FDT_NOP) ==> offset == Walk.SkipEntries(fdt.St(), start)
      decreases tag == FDT_PROP || tag == FDT_NOP, |fdt.St()| - nextoffset
    {
      offset := nextoffset;
      tag, nextoffset := FdtCore.NextTag(fdt, offset);
    }
  }

  /** The error of fdt_add_subnode for an offset that is not a node's. */
  function BadParent(parentoffset: int): int {
    if parentoffset == -NOTFOUND then -INTERNAL else if parentoffset < 0 then parentoffset else -BADOFFSET
  }

  lemma NoParent(st: bytes, off: int, name: bytes)
    requires Walk.CheckNode(st, off) < 0
    ensures Walk.SubnodeOffset(st, off, name) == if off < 0 then off else -BADOFFSET
    ensures off < 0 ==> Tags.NextTag(st, off).0 == FDT_END
  {
    CheckNodeError(st, off);
    if off >= 0 {
      Walk.NodesStep(st, off, 0);
      Walk.NodesHead(st, -BADOFFSET, 0);
      Walk.SubStep(st, off, 0, name);
    } else {
      Walk.NodesHead(st, off, 0);
    }
  }

  /** fdt_add_subnode_namelen, once the header has been accepted. */
  method AddSubnodeProbed(fdt: Fdt, parentoffset: int, name: bytes, ghost place: Walk.Option<Path>)
    returns (offset: int)
    requires fdt.Valid() && NodeOffset(fdt, parentoffset, place) && 0 !in name && |name| <= MAX_LEN
    modifies fdt, fdt.mem
    ensures fdt.Valid() && fdt.Front() == old(fdt.Front()) && fdt.Strs() == old(fdt.Strs())
    ensures place.None? ==> offset == BadParent(parentoffset)
    ensures place.Some? ==>
              (if old(ChildAt(BodyAt(fdt.Tree(), AbsPath(fdt.forest, place.value)), name)).Some? then offset == -EXISTS
               else if old(fdt.offDtStrings + fdt.sizeDtStrings) + 8 + Align4(|name| + 1) > fdt.totalsize
               then offset == -NOSPACE
               else offset >= 0)
    ensures offset >= 0 ==>
              (&& NodeOffset(fdt, offset, Walk.Some(NewPlace(old(fdt.forest), place.value)))
               && At(fdt.forest, NewPlace(old(fdt.forest), place.value)).item.Begin?
               && At(fdt.forest, NewPlace(old(fdt.forest), place.value)).item.name == name
               && At(fdt.forest, NewPlace(old(fdt.forest), place.value)).body == Empty
               && fdt.Tree() == old(WithBody(fdt.Tree(), AbsPath(fdt.forest, place.value),
                                             AddChild(BodyAt(fdt.Tree(), AbsPath(fdt.forest, place.value)), name))))
    ensures offset < 0 ==> fdt.Hdr() == old(fdt.Hdr()) && fdt.forest == old(fdt.forest) && fdt.St() == old(fdt.St())
    ensures offset >= 0 ==> NodeEdited(old(fdt.forest), fdt.forest, place.value)
    ensures offset >= 0 ==>
              ChildMade(old(fdt.forest), fdt.forest, place.value, name)
    ensures offset >= 0 ==>
              fdt.offDtStrings + fdt.sizeDtStrings == old(fdt.offDtStrings + fdt.sizeDtStrings) + 8 + Align4(|name| + 1)
  {
    hide Fdt.St, Fdt.Strs, Fdt.Front, Encodes, Abs, Named, Fdt.Hdr, Has, HasFirst, WithBody, AddChild, BodyAt, Align4,
         Cells,
         Walk.SubnodeOffset, Walk.CheckNode, Tags.NextTag, Walk.SkipEntries, ChildAt;
    fdt.Blocks();
    offset := ReadOnly.SubnodeOffset(fdt, parentoffset, name);
    if place.Some? {
      ChildLookedUp(fdt.St(), fdt.Strs(), fdt.forest, place.value, name);
      ChildrenStart(fdt.St(), fdt.forest, place.value);
    } else {
      NoParent(fdt.St(), parentoffset, name);
    }
    if offset >= 0 {
      return -EXISTS;
    } else if offset != -NOTFOUND {
      return;
    }
    var tag, nextoffset := FdtCore.NextTag(fdt, parentoffset);
    if tag != FDT_BEGIN_NODE {
      return -INTERNAL;
    }
    fdt.StSize();
    offset := SkipToChildren(fdt, nextoffset);
    var err := InsertChild(fdt, offset, name, place.value);
    if err != 0 {
      return err;
    }
  }

  /**
   * fdt_add_subnode_namelen. A child that answers to name, possibly by its name without a unit
   * address, makes it fail with EXISTS.
   */
  method AddSubnode(fdt: Fdt, parentoffset: int, name: bytes, ghost place: Walk.Option<Path>) returns (offset: int)
    requires RwError(fdt.Hdr()) == 0 ==> fdt.Valid() && NodeOffset(fdt, parentoffset, place)
    requires 0 !in name && |name| <= MAX_LEN
    modifies fdt, fdt.mem
    ensures old(RwError(fdt.Hdr())) != 0 ==>
              (offset == old(RwError(fdt.Hdr())) && fdt.Hdr() == old(fdt.Hdr()) && fdt.mem[..] == old(fdt.mem[..]))
    ensures old(RwError(fdt.Hdr())) == 0 ==>
              fdt.Valid() && fdt.Front() == old(fdt.Front()) && fdt.Strs() == old(fdt.Strs())
    ensures old(RwError(fdt.Hdr())) == 0 && place.None? ==> offset == BadParent(parentoffset)
    ensures old(RwError(fdt.Hdr())) == 0 && place.Some? ==>
              (if old(ChildAt(BodyAt(fdt.Tree(), AbsPath(fdt.forest, place.value)), name)).Some? then offset == -EXISTS
               else if old(fdt.offDtStrings + fdt.sizeDtStrings) + 8 + Align4(|name| + 1) > fdt.totalsize
               then offset == -NOSPACE
               else offset >= 0)
    ensures old(RwError(fdt.Hdr())) == 0 && offset >= 0 ==>
              (&& NodeOffset(fdt, offset, Walk.Some(NewPlace(old(fdt.forest), place.value)))
               && At(fdt.forest, NewPlace(old(fdt.forest), place.value)).item.Begin?
               && At(fdt.forest, NewPlace(old(fdt.forest), place.value)).item.name == name
               && At(fdt.forest, NewPlace(old(fdt.forest), place.value)).body == Empty
               && fdt.Tree() == old(WithBody(fdt.Tree(), AbsPath(fdt.forest, place.value),
                                             AddChild(BodyAt(fdt.Tree(), AbsPath(fdt.forest, place.value)), name))))
    ensures old(RwError(fdt.Hdr())) == 0 && offset < 0 ==>
              fdt.Hdr() == old(fdt.Hdr()) && fdt.forest == old(fdt.forest) && fdt.St() == old(fdt.St())
    ensures old(RwError(fdt.Hdr())) == 0 && offset >= 0 ==> NodeEdited(old(fdt.forest), fdt.forest, place.value)
    ensures old(RwError(fdt.Hdr())) == 0 && offset >= 0 ==>
              ChildMade(old(fdt.forest), fdt.forest, place.value, name)
    ensures old(RwError(fdt.Hdr())) == 0 && offset >= 0 ==>
              fdt.offDtStrings + fdt.sizeDtStrings == old(fdt.offDtStrings + fdt.sizeDtStrings) + 8 + Align4(|name| + 1)
  {
    hide Fdt.St, Fdt.Strs, Fdt.Front, Fdt.Tree, RwError, AbsPath, WithBody, BodyAt, AddChild, ChildAt, Align4,
         NodeOffset, NodeEdited, ChildMade;
    var err := RwProbe(fdt);
    if err != 0 {
      return err;
    }
    offset := AddSubnodeProbed(fdt, parentoffset, name, place);
  }

  // ---------- Deleting ----------

  lemma NodeDeleted(a: bytes, b: bytes, strs: bytes, f: Forest, p: Path) returns (g: Forest)
    requires Encodes(a, f) && Named(f, strs) && IsPath(f, p) && At(f, p).Node?
    requires var x, u := 4 * Pos(f, p), 4 * Width(At(f, p));
      SpliceOf(a, b, x, u, 0)
    ensures Encodes(b, g) && Named(g, strs)
    ensures IsNode(Abs(f, strs), AbsPath(f, p))
    ensures Abs(g, strs) == TreePut(Abs(f, strs), AbsPath(f, p), TreeAt(Abs(f, strs), AbsPath(f, p)).rest)
  {
    hide Has, HasFirst, SpliceOf, Spliced, Pos, At, IsPath, Width, Encodes;
    var pos, u := Pos(f, p), Width(At(f, p));
    NodeEnds(a, f, p);
    SplicedCells(a, b, pos, 0, u, 0, Size(f) + 1);
    DeleteEncodes(a, b, f, p);
    EncodesWf(a, f);
    NodeAbs(f, p, strs);
    AbsPut(f, p, At(f, p).rest, strs);
    g := Put(f, p, At(f, p).rest);
  }

  /** fdt_del_node, once the header has been accepted. */
  method DelNodeProbed(fdt: Fdt, nodeoffset: int, ghost place: Walk.Option<Path>) returns (err: int)
    requires fdt.Valid() && NodeOffset(fdt, nodeoffset, place)
    modifies fdt, fdt.mem
    ensures fdt.Valid() && fdt.Front() == old(fdt.Front()) && fdt.Strs() == old(fdt.Strs())
    ensures err == if place.Some? then 0 else if nodeoffset < 0 then nodeoffset else -BADOFFSET
    ensures err == 0 ==>
              (&& old(IsNode(fdt.Tree(), AbsPath(fdt.forest, place.value)))
               && fdt.Tree() == old(TreePut(fdt.Tree(), AbsPath(fdt.forest, place.value),
                                            TreeAt(fdt.Tree(), AbsPath(fdt.forest, place.value)).rest))
               && fdt.offDtStrings + fdt.sizeDtStrings ==
                  old(fdt.offDtStrings + fdt.sizeDtStrings - 4 * Width(At(fdt.forest, place.value))))
    ensures err != 0 ==> fdt.Hdr() == old(fdt.Hdr()) && fdt.forest == old(fdt.forest) && fdt.St() == old(fdt.St())
  {
    hide Fdt.St, Fdt.Strs, Fdt.Front, Encodes, Abs, Named, Fdt.Hdr, Has, HasFirst, SpliceOf, Spliced, TreePut, TreeAt,
         Walk.NodeEnd;
    fdt.Blocks();
    ghost var f, a, strs := fdt.forest, fdt.St(), fdt.Strs();
    var endoffset := NodeEndOffset(fdt, nodeoffset);
    if place.Some? {
      NodeEnds(a, f, place.value);
    } else {
      NoNodeEnd(a, nodeoffset);
    }
    if endoffset < 0 {
      return endoffset;
    }
    fdt.StSize();
    err := SpliceBlocks(fdt, nodeoffset, endoffset - nodeoffset, 0);
    fdt.StSize();
    ghost var g := NodeDeleted(a, fdt.St(), strs, f, place.value);
    fdt.Adopt(g);
  }

  /** fdt_del_node */
  method DelNode(fdt: Fdt, nodeoffset: int, ghost place: Walk.Option<Path>) returns (err: int)
    requires RwError(fdt.Hdr()) == 0 ==> fdt.Valid() && NodeOffset(fdt, nodeoffset, place)
    modifies fdt, fdt.mem
    ensures old(RwError(fdt.Hdr())) != 0 ==>
              (err == old(RwError(fdt.Hdr())) && fdt.Hdr() == old(fdt.Hdr()) && fdt.mem[..] == old(fdt.mem[..]))
    ensures old(RwError(fdt.Hdr())) == 0 ==>
              (&& fdt.Valid() && fdt.Front() == old(fdt.Front()) && fdt.Strs() == old(fdt.Strs())
               && err == if place.Some? then 0 else if nodeoffset < 0 then nodeoffset else -BADOFFSET)
    ensures old(RwError(fdt.Hdr())) == 0 && err == 0 ==>
              (&& old(IsNode(fdt.Tree(), AbsPath(fdt.forest, place.value)))
               && fdt.Tree() == old(TreePut(fdt.Tree(), AbsPath(fdt.forest, place.value),
                                            TreeAt(fdt.Tree(), AbsPath(fdt.forest, place.value)).rest))
               && fdt.offDtStrings + fdt.sizeDtStrings ==
                  old(fdt.offDtStrings + fdt.sizeDtStrings - 4 * Width(At(fdt.forest, place.value))))
    ensures old(RwError(fdt.Hdr())) == 0 && err != 0 ==>
              fdt.Hdr() == old(fdt.Hdr()) && fdt.forest == old(fdt.forest) && fdt.St() == old(fdt.St())
  {
    hide Fdt.St, Fdt.Strs, Fdt.Front, Fdt.Tree, RwError, AbsPath, TreePut, TreeAt, IsNode;
    err := RwProbe(fdt);
    if err != 0 {
      return;
    }
    err := DelNodeProbed(fdt, nodeoffset, place);
  }
}
