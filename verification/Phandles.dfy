/** libfdt/fdt_ro.c: phandles, searched over the whole blob. */
module Phandles {
  import opened Bytes
  import opened Tags
  import opened Blob
  import opened Forests
  import opened Edits
  import opened Trees
  import opened Walk
  import FdtCore
  import ReadOnly
  import Traverse
  import Overlay
  import OverlayApply

  // ---------- The walk over all nodes ----------

  /** The loop of fdt_next_node without a depth, from the tag at off on. */
  function ScanAll(st: bytes, off: int): (r: int)
    requires off >= 0
    ensures r >= 0 ==> r >= off && NextTag(st, r).0 == FDT_BEGIN_NODE
    decreases |st| - off
  {
    var (tag, next) := NextTag(st, off);
    if tag == FDT_BEGIN_NODE then off
    else if tag == FDT_END then if next >= 0 || next == -TRUNCATED then -NOTFOUND else next
    else ScanAll(st, next)
  }

  /** fdt_next_node without a depth. */
  function NextAll(st: bytes, off: int): (r: int)
    ensures r >= 0 && off >= 0 ==> r > off && off + 4 <= |st|
  {
    if off < 0 then ScanAll(st, 0)
    else
      var first := CheckNode(st, off);
      if first < 0 then first else ScanAll(st, first)
  }

  method NextNode(fdt: Fdt, startoffset: int) returns (offset: int)
    requires fdt.StructIn() && -INT_MAX - 1 <= startoffset <= INT_MAX
    ensures offset == NextAll(fdt.St(), startoffset) && offset <= INT_MAX
  {
    hide Tags.NextTag, Fdt.St;
    assert |fdt.St()| <= INT_MAX - 3 by { fdt.StSize(); }
    var nextoffset := 0;
    if startoffset >= 0 {
      nextoffset := FdtCore.CheckNodeOffset(fdt, startoffset);
      if nextoffset < 0 {
        return nextoffset;
      }
    }
    var tag: u32 := FDT_NOP;
    offset := nextoffset;
    ghost var want := ScanAll(fdt.St(), offset);
    while tag != FDT_BEGIN_NODE
      invariant tag != FDT_BEGIN_NODE ==> 0 <= nextoffset <= INT_MAX && ScanAll(fdt.St(), nextoffset) == want
      invariant tag == FDT_BEGIN_NODE ==> offset == want && offset <= INT_MAX
      decreases tag != FDT_BEGIN_NODE, |fdt.St()| - nextoffset
    {
      offset := nextoffset;
      tag, nextoffset := FdtCore.NextTag(fdt, offset);
      if tag == FDT_END {
        if nextoffset >= 0 || nextoffset == -TRUNCATED {
          return -NOTFOUND;
        }
        return nextoffset;
      }
    }
  }

  /** The word in a property of 4 bytes of the node at off. */
  function WordOf(st: bytes, strs: bytes, off: int, name: bytes): Option<u32> {
    var r := GetProperty(st, strs, off, name);
    if r < 0 || WordAt(st, r + 4) != 4 then None else Some(WordAt(st, r + 12))
  }

  /** fdt_get_phandle */
  function PhandleOf(st: bytes, strs: bytes, off: int): u32 {
    match WordOf(st, strs, off, Overlay.PHANDLE)
    case Some(w) => w
    case None => WordOf(st, strs, off, Overlay.LINUX_PHANDLE).GetOr(0)
  }

  method GetWord(fdt: Fdt, node: int, name: bytes) returns (w: Option<u32>)
    requires fdt.InBounds() && -INT_MAX - 1 <= node <= INT_MAX
    ensures w == WordOf(fdt.St(), fdt.Strs(), node, name)
  {
    hide Fdt.St, Fdt.Strs, GetProperty, Dec32;
    var prop, len := ReadOnly.GetProperty(fdt, node, name);
    if prop < 0 || len != 4 {
      return None;
    }
    var v := FdtCore.StWord(fdt, prop + 12);
    return Some(v);
  }

  method GetPhandle(fdt: Fdt, node: int) returns (w: u32)
    requires fdt.InBounds() && -INT_MAX - 1 <= node <= INT_MAX
    ensures w == PhandleOf(fdt.St(), fdt.Strs(), node)
  {
    hide WordOf;
    var p := GetWord(fdt, node, Overlay.PHANDLE);
    if p.None? {
      p := GetWord(fdt, node, Overlay.LINUX_PHANDLE);
      if p.None? {
        return 0;
      }
    }
    return p.value;
  }

  // ---------- fdt_find_max_phandle ----------

  function Max(a: u32, b: u32): u32 {
    if a > b then a else b
  }

  /** The maximum over the node at off and all that follow in the walk. */
  function MaxFrom(st: bytes, strs: bytes, off: int): u32
    decreases |st| - off
  {
    if off < 0 then 0
    else
      var next := NextAll(st, off);
      if next < 0 then PhandleOf(st, strs, off) else Max(PhandleOf(st, strs, off), MaxFrom(st, strs, next))
  }

  /** The error with which the walk ends. */
  function EndOfAll(st: bytes, off: int): int
    decreases |st| - off
  {
    if off < 0 then off
    else
      var next := NextAll(st, off);
      if next < 0 then next else EndOfAll(st, next)
  }

  /** On an encoded node, the word is that of the property of the tree. */
  lemma WordHas(st: bytes, strs: bytes, p: nat, f: Forest, name: bytes)
    requires f.Node? && Wf(f) && Has(st, p, f) && Named(f, strs)
    ensures WordOf(st, strs, 4 * p, name) == Overlay.WordProp(Abs(f.body, strs), name)
  {
    hide Has, HasFirst, GetProperty, StrAt, Dec32, Abs, Get, ItemAt, TagAt, WfItem, NextTag;
    Traverse.HasHead(st, p, f);
    Traverse.HasBody(st, p, f);
    Traverse.GetPropertyHas(st, strs, p, f, name);
    PropPathAbs(f.body, strs, name);
    match Traverse.PropPath(f.body, strs, name)
    case None =>
    case Some(q) =>
      HasAt(st, p + Len(f.item), f.body, q);
      AtWf(f.body, q);
      WordInside(st, p + Len(f.item) + Pos(f.body, q), At(f.body, q));
  }

  lemma WordInside(st: bytes, p: nat, f: Forest)
    requires f.Leaf? && f.item.Prop? && Has(st, p, f)
    ensures WordAt(st, 4 * p + 4) == |f.item.value|
    ensures |f.item.value| == 4 ==> WordAt(st, 4 * p + 12) == Dec32(f.item.value, 0)
  {
    var v := f.item.value;
    if |v| == 4 {
      assert st[4 * p + 12..4 * p + 16] == v;
      assert v[0] == st[4 * p + 12] && v[1] == st[4 * p + 13] && v[2] == st[4 * p + 14] && v[3] == st[4 * p + 15];
    }
  }

  lemma PhandleHas(st: bytes, strs: bytes, p: nat, f: Forest)
    requires f.Node? && Wf(f) && Has(st, p, f) && Named(f, strs)
    ensures PhandleOf(st, strs, 4 * p) == Overlay.Phandle(Abs(f.body, strs))
  {
    hide Has, WordOf, Overlay.WordProp, Abs;
    WordHas(st, strs, p, f, Overlay.PHANDLE);
    WordHas(st, strs, p, f, Overlay.LINUX_PHANDLE);
  }

  /** The maximum over the nodes from the tag at off on. */
  function MaxScan(st: bytes, strs: bytes, off: int): u32
    requires off >= 0
  {
    MaxFrom(st, strs, ScanAll(st, off))
  }

  function EndScan(st: bytes, off: int): int
    requires off >= 0
  {
    EndOfAll(st, ScanAll(st, off))
  }

  /** The maximum over the parts of a forest. */
  lemma MaxParts(f: Forest, strs: bytes)
    requires Wf(f) && Named(f, strs)
    ensures f == Empty ==> OverlayApply.MaxKids(Abs(f, strs)) == 0
    ensures f.Leaf? ==>
              Wf(f.rest) && Named(f.rest, strs) &&
                OverlayApply.MaxKids(Abs(f, strs)) == OverlayApply.MaxKids(Abs(f.rest, strs)) &&
              !f.item.Begin?
    ensures f.Node? ==>
              && f.item.Begin? && Wf(f.body) && Named(f.body, strs) && Wf(f.rest) && Named(f.rest, strs)
              && OverlayApply.MaxKids(Abs(f, strs)) ==
                 Max(Overlay.Phandle(Abs(f.body, strs)),
                     Max(OverlayApply.MaxKids(Abs(f.body, strs)), OverlayApply.MaxKids(Abs(f.rest, strs))))
  {
    hide Overlay.Phandle, StrAt, WfItem;
  }

  /** Walking over an encoded forest takes the maximum of its phandles. */
  lemma {:induction false} MaxHas(st: bytes, strs: bytes, p: nat, f: Forest)
    requires Wf(f) && Has(st, p, f) && Named(f, strs)
    ensures MaxScan(st, strs, 4 * p) == Max(OverlayApply.MaxKids(Abs(f, strs)), MaxScan(st, strs, 4 * (p + Size(f))))
    ensures EndScan(st, 4 * p) == EndScan(st, 4 * (p + Size(f)))
    decreases f
  {
    hide NextTag, Has, HasFirst, PhandleOf, Overlay.Phandle, OverlayApply.MaxKids, Abs, Named, Wf, MaxScan, EndScan,
         Len;
    MaxParts(f, strs);
    if f != Empty {
      Traverse.HasHead(st, p, f);
      MaxHas(st, strs, p + Width(f), f.rest);
      if f.Leaf? {
        MaxPast(st, strs, 4 * p, 4 * (p + Width(f)));
      } else {
        var h, e := p + Len(f.item), p + Len(f.item) + Size(f.body);
        Traverse.HasBody(st, p, f);
        MaxHas(st, strs, h, f.body);
        MaxPast(st, strs, 4 * e, 4 * (p + Width(f)));
        PhandleHas(st, strs, p, f);
        MaxNode(st, strs, 4 * p, 4 * h);
      }
    }
  }

  /** Tags other than begin and end tags are passed over. */
  lemma MaxPast(st: bytes, strs: bytes, off: nat, next: nat)
    requires NextTag(st, off).1 == next && NextTag(st, off).0 != FDT_BEGIN_NODE && NextTag(st, off).0 != FDT_END
    ensures MaxScan(st, strs, off) == MaxScan(st, strs, next) && EndScan(st, off) == EndScan(st, next)
  {
    hide NextTag, MaxFrom, EndOfAll;
  }

  lemma MaxNode(st: bytes, strs: bytes, off: nat, next: nat)
    requires NextTag(st, off) == (FDT_BEGIN_NODE, next) && off % 4 == 0
    ensures MaxScan(st, strs, off) == Max(PhandleOf(st, strs, off), MaxScan(st, strs, next))
    ensures EndScan(st, off) == EndScan(st, next)
  {
    hide NextTag, PhandleOf;
    assert CheckNode(st, off) == next;
    assert ScanAll(st, off) == off;
    assert NextAll(st, off) == ScanAll(st, next);
  }

  /** fdt_find_max_phandle: the maximum over all nodes of the tree. */
  method FindMaxPhandle(fdt: Fdt) returns (err: int, max: u32)
    requires fdt.Valid()
    ensures err == 0 && max == OverlayApply.MaxKids(fdt.Tree())
  {
    hide Fdt.St, Fdt.Strs, NextAll, PhandleOf, Encodes, Abs, Named;
    ghost var st, strs := fdt.St(), fdt.Strs();
    MaxWhole(st, strs, fdt.forest);
    max := 0;
    var offset := -1;
    offset := NextNode(fdt, offset);
    while offset >= 0
      invariant offset <= INT_MAX && Max(max, MaxFrom(st, strs, offset)) == MaxFrom(st, strs, NextAll(st, -1))
      invariant EndOfAll(st, offset) == -NOTFOUND
      decreases if offset < 0 then 0 else 1 + INT_MAX - offset
    {
      var value := GetPhandle(fdt, offset);
      if value > max {
        max := value;
      }
      offset := NextNode(fdt, offset);
    }
    if offset == -NOTFOUND {
      return 0, max;
    }
    return offset, max;
  }

  lemma MaxWhole(st: bytes, strs: bytes, f: Forest)
    requires Encodes(st, f) && Named(f, strs)
    ensures Wf(f) && MaxFrom(st, strs, NextAll(st, -1)) == OverlayApply.MaxKids(Abs(f, strs))
    ensures EndOfAll(st, NextAll(st, -1)) == -NOTFOUND
  {
    hide Has, MaxFrom, PhandleOf, Abs, NextTag, Named, ScanAll, EndOfAll, Dec32, Size, OverlayApply.MaxKids;
    MaxHas(st, strs, 0, f);
    NextTagWord(st, Size(f), FDT_END);
    NoneLeft(st, strs, 4 * Size(f), 4 * (Size(f) + 1));
  }

  lemma NoneLeft(st: bytes, strs: bytes, off: nat, next: nat)
    requires NextTag(st, off) == (FDT_END, next)
    ensures MaxScan(st, strs, off) == 0 && EndScan(st, off) == -NOTFOUND
  {
    hide NextTag;
  }

  // ---------- fdt_node_offset_by_phandle ----------

  /** The first node from off on that carries the phandle, or the error with which the walk ends. */
  function FindFrom(st: bytes, strs: bytes, off: int, phandle: u32): (r: int)
    ensures r >= 0 ==> PhandleOf(st, strs, r) == phandle
    decreases |st| - off
  {
    if off < 0 then off
    else if PhandleOf(st, strs, off) == phandle then off
    else
      var next := NextAll(st, off);
      if next < 0 then next else FindFrom(st, strs, next, phandle)
  }

  /** The place of the first node, in preorder, that carries the phandle. */
  ghost function PhandlePath(f: Forest, strs: bytes, phandle: u32): (r: Option<Path>)
    requires Wf(f) && Named(f, strs)
    ensures r.Some? ==> IsPath(f, r.value) && At(f, r.value).Node?
    decreases f
  {
    if f == Empty then None
    else if f.Node? && Overlay.Phandle(Abs(f.body, strs)) == phandle then Some(Here)
    else
      match if f.Node? then PhandlePath(f.body, strs, phandle) else None
      case Some(q) => Some(Into(q))
      case None =>
        match PhandlePath(f.rest, strs, phandle)
        case Some(q) => Some(Next(q))
        case None => None
  }

  /** That place: its node carries the phandle, and no node before it does. */
  lemma {:induction false} PhandlePathMeans(f: Forest, strs: bytes, phandle: u32, q: Path)
    requires Wf(f) && Named(f, strs) && IsPath(f, q) && At(f, q).Node?
    ensures Wf(At(f, q)) && Named(At(f, q), strs)
    ensures PhandlePath(f, strs, phandle) == Some(q) ==> Overlay.Phandle(Abs(At(f, q).body, strs)) == phandle
    ensures Overlay.Phandle(Abs(At(f, q).body, strs)) == phandle ==>
              PhandlePath(f, strs, phandle).Some? && Pos(f, PhandlePath(f, strs, phandle).value) <= Pos(f, q)
    decreases q
  {
    hide Overlay.Phandle;
    match q
    case Here =>
    case Next(r) =>
      PhandlePathMeans(f.rest, strs, phandle, r);
      if f.Node? && PhandlePath(f.body, strs, phandle).Some? {
        PosRange(f.body, PhandlePath(f.body, strs, phandle).value);
      }
    case Into(r) => PhandlePathMeans(f.body, strs, phandle, r);
  }

  function FindScan(st: bytes, strs: bytes, off: int, phandle: u32): int
    requires off >= 0
  {
    FindFrom(st, strs, ScanAll(st, off), phandle)
  }

  /** Walking over an encoded forest finds its first node with the phandle. */
  lemma {:induction false} FindHas(st: bytes, strs: bytes, p: nat, f: Forest, phandle: u32)
    requires Wf(f) && Has(st, p, f) && Named(f, strs)
    ensures FindScan(st, strs, 4 * p, phandle) ==
            (match PhandlePath(f, strs, phandle)
             case None => FindScan(st, strs, 4 * (p + Size(f)), phandle)
             case Some(q) => 4 * (p + Pos(f, q)))
    decreases f
  {
    hide NextTag, Has, HasFirst, PhandleOf, Overlay.Phandle, FindScan, StrAt, Len, Abs;
    if f != Empty {
      Traverse.HasHead(st, p, f);
      FindHas(st, strs, p + Width(f), f.rest, phandle);
      if f.Leaf? {
        FindPast(st, strs, 4 * p, 4 * (p + Width(f)), phandle);
      } else {
        var h, e := p + Len(f.item), p + Len(f.item) + Size(f.body);
        Traverse.HasBody(st, p, f);
        FindHas(st, strs, h, f.body, phandle);
        FindPast(st, strs, 4 * e, 4 * (p + Width(f)), phandle);
        PhandleHas(st, strs, p, f);
        FindNode(st, strs, 4 * p, 4 * h, phandle);
      }
    }
  }

  lemma FindPast(st: bytes, strs: bytes, off: nat, next: nat, phandle: u32)
    requires NextTag(st, off).1 == next && NextTag(st, off).0 != FDT_BEGIN_NODE && NextTag(st, off).0 != FDT_END
    ensures FindScan(st, strs, off, phandle) == FindScan(st, strs, next, phandle)
  {
    hide NextTag, FindFrom;
  }

  lemma FindNode(st: bytes, strs: bytes, off: nat, next: nat, phandle: u32)
    requires NextTag(st, off) == (FDT_BEGIN_NODE, next) && off % 4 == 0
    ensures FindScan(st, strs, off, phandle) ==
            if PhandleOf(st, strs, off) == phandle then off else FindScan(st, strs, next, phandle)
  {
    hide NextTag, PhandleOf;
    assert CheckNode(st, off) == next;
    assert ScanAll(st, off) == off;
    assert NextAll(st, off) == ScanAll(st, next);
  }

  /** fdt_node_offset_by_phandle: the first node of the tree, in preorder, that carries the phandle. */
  method NodeOffsetByPhandle(fdt: Fdt, phandle: u32) returns (offset: int)
    requires fdt.Valid()
    ensures offset ==
            if phandle == 0 || phandle == Overlay.MAX_U32 then -BADPHANDLE
            else
              match PhandlePath(fdt.forest, fdt.Strs(), phandle)
              case None => -NOTFOUND
              case Some(q) => 4 * Pos(fdt.forest, q)
  {
    hide Fdt.St, Fdt.Strs, NextAll, PhandleOf, Encodes, Abs, Named, PhandlePath, Wf;
    if phandle == 0 || phandle == 0xffff_ffff {
      return -BADPHANDLE;
    }
    var probe := ReadOnly.RoProbe(fdt);
    if probe < 0 {
      return probe;
    }
    ghost var st, strs := fdt.St(), fdt.Strs();
    FindWhole(st, strs, fdt.forest, phandle);
    offset := NextNode(fdt, -1);
    while offset >= 0
      invariant offset <= INT_MAX && FindFrom(st, strs, offset, phandle) == FindFrom(st, strs, NextAll(st, -1), phandle)
      decreases if offset < 0 then 0 else 1 + INT_MAX - offset
    {
      var value := GetPhandle(fdt, offset);
      if value == phandle {
        return;
      }
      offset := NextNode(fdt, offset);
    }
  }

  lemma FindWhole(st: bytes, strs: bytes, f: Forest, phandle: u32)
    requires Encodes(st, f) && Named(f, strs)
    ensures Wf(f) && FindFrom(st, strs, NextAll(st, -1), phandle) ==
                     (match PhandlePath(f, strs, phandle) case None => -NOTFOUND case Some(q) => 4 * Pos(f, q))
  {
    hide Has, FindFrom, PhandleOf, Abs, PhandlePath;
    FindHas(st, strs, 0, f, phandle);
    NextTagWord(st, Size(f), FDT_END);
    FindNone(st, strs, 4 * Size(f), 4 * (Size(f) + 1), phandle);
  }

  lemma FindNone(st: bytes, strs: bytes, off: nat, next: nat, phandle: u32)
    requires NextTag(st, off) == (FDT_END, next)
    ensures FindScan(st, strs, off, phandle) == -NOTFOUND
  {
    hide NextTag;
  }
}
