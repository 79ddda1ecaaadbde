/** libfdt/fdt.c */
module FdtCore {
  import opened Bytes
  import opened Tags
  import opened Blob
  import Walk

  /**
   * fdt_offset_ptr: the 32-bit tests accept exactly the ranges inside the structure block.
   */
  method OffsetPtr(fdt: Fdt, offset: int, len: u32) returns (ok: bool)
    requires fdt.StructIn() && -INT_MAX - 1 <= offset <= INT_MAX
    ensures ok <==> 0 <= offset && offset + len <= |fdt.St()|
  {
    var uoffset := U32(offset);
    var absoffset := U32(offset + fdt.offDtStruct);
    if offset < 0 {
      return false;
    }
    if absoffset < uoffset || U32(absoffset + len) < absoffset || U32(absoffset + len) > fdt.totalsize {
      return false;
    }
    if fdt.version >= 0x11 {
      if U32(uoffset + len) < uoffset || U32(offset + len) > fdt.sizeDtStruct {
        return false;
      }
    }
    return true;
  }

  /** The byte that fdt_offset_ptr points to. */
  method StByte(fdt: Fdt, offset: nat) returns (b: byte)
    requires fdt.StructIn() && offset < |fdt.St()|
    ensures b == fdt.St()[offset]
  {
    b := fdt.mem[fdt.offDtStruct + offset];
  }

  method StWord(fdt: Fdt, offset: nat) returns (w: u32)
    requires fdt.StructIn() && offset + 4 <= |fdt.St()|
    ensures w == Dec32(fdt.St(), offset)
  {
    w := Load32(fdt.mem, fdt.offDtStruct + offset);
    DecSlice(fdt.mem[..], fdt.offDtStruct, fdt.offDtStruct + fdt.sizeDtStruct, offset);
    assert fdt.St() == fdt.mem[..][fdt.offDtStruct..fdt.offDtStruct + fdt.sizeDtStruct];
  }

  /** The bytes that fdt_offset_ptr points to. */
  method StSlice(fdt: Fdt, offset: nat, len: nat) returns (s: bytes)
    requires fdt.StructIn() && offset + len <= |fdt.St()|
    ensures s == fdt.St()[offset..offset + len]
  {
    var so := fdt.offDtStruct;
    s := fdt.mem[so + offset..so + offset + len];
    ghost var st := fdt.St();
    forall i | 0 <= i < len ensures s[i] == st[offset..offset + len][i] {
    }
  }

  /** The loop over a node name in fdt_next_tag: the offset behind the terminator, or -1. */
  method SkipName(fdt: Fdt, start: nat) returns (offset: int)
    requires fdt.StructIn() && start <= |fdt.St()|
    ensures offset == (var k := FindNul(fdt.St(), start); if k < 0 then -1 else k + 1)
  {
    offset := start;
    var p := OffsetPtr(fdt, offset, 1);
    offset := offset + 1;
    while true
      invariant start < offset <= |fdt.St()| + 1
      invariant p <==> offset <= |fdt.St()|
      invariant FindNul(fdt.St(), offset - 1) == FindNul(fdt.St(), start)
      decreases |fdt.St()| + 1 - offset
    {
      if !p {
        return -1;
      }
      var c := StByte(fdt, offset - 1);
      if c == 0 {
        return;
      }
      p := OffsetPtr(fdt, offset, 1);
      offset := offset + 1;
    }
  }

  /** The case of a property in fdt_next_tag: the offset behind its value, or -1. */
  method SkipProp(fdt: Fdt, start: nat) returns (offset: int)
    requires fdt.StructIn() && start <= |fdt.St()|
    ensures offset == -1 <==> start + 4 > |fdt.St()| || Dec32(fdt.St(), start) + start >= INT_MAX
    ensures offset != -1 ==> offset == start + 8 + Dec32(fdt.St(), start)
  {
    offset := start;
    var ok := OffsetPtr(fdt, offset, 4);
    if !ok {
      return -1;
    }
    var len := StWord(fdt, offset);
    var sum := U32(len + offset);
    SumTest(len, offset);
    if INT_MAX <= sum || sum < offset {
      return -1;
    }
    offset := offset + 8 + len;
  }

  /** fdt_next_tag */
  method NextTag(fdt: Fdt, startoffset: int) returns (tag: u32, nextoffset: int)
    requires fdt.StructIn() && -INT_MAX - 1 <= startoffset <= INT_MAX
    ensures (tag, nextoffset) == Tags.NextTag(fdt.St(), startoffset)
  {
    hide U32, Dec32, Fdt.St;
    assert |fdt.St()| <= INT_MAX by { fdt.StSize(); }
    nextoffset := -TRUNCATED;
    var offset := startoffset;
    var ok := OffsetPtr(fdt, offset, 4);
    if !ok {
      return FDT_END, nextoffset;
    }
    tag := StWord(fdt, offset);
    offset := offset + 4;
    nextoffset := -BADSTRUCTURE;
    if tag == FDT_BEGIN_NODE {
      offset := SkipName(fdt, offset);
    } else if tag == FDT_PROP {
      offset := SkipProp(fdt, offset);
    } else if tag != FDT_END && tag != FDT_END_NODE && tag != FDT_NOP {
      return FDT_END, nextoffset;
    }
    if offset < 0 {
      return FDT_END, nextoffset;
    }
    U32Id(offset - startoffset);
    ok := OffsetPtr(fdt, startoffset, U32(offset - startoffset));
    if !ok {
      return FDT_END, nextoffset;
    }
    nextoffset := Align4(offset);
  }

  /** fdt_check_node_offset_ */
  method CheckNodeOffset(fdt: Fdt, offset: int) returns (r: int)
    requires fdt.StructIn() && -INT_MAX - 1 <= offset <= INT_MAX
    ensures r == Walk.CheckNode(fdt.St(), offset)
  {
    if offset < 0 || offset % 4 != 0 {
      return -BADOFFSET;
    }
    var tag, next := NextTag(fdt, offset);
    if tag != FDT_BEGIN_NODE {
      return -BADOFFSET;
    }
    return next;
  }

  /** fdt_check_prop_offset_ */
  method CheckPropOffset(fdt: Fdt, offset: int) returns (r: int)
    requires fdt.StructIn() && -INT_MAX - 1 <= offset <= INT_MAX
    ensures r == if offset < 0 || offset % 4 != 0 || Tags.NextTag(fdt.St(), offset).0 != FDT_PROP
                 then -BADOFFSET else Tags.NextTag(fdt.St(), offset).1
  {
    if offset < 0 || offset % 4 != 0 {
      return -BADOFFSET;
    }
    var tag, next := NextTag(fdt, offset);
    if tag != FDT_PROP {
      return -BADOFFSET;
    }
    return next;
  }

  /** fdt_next_node, called with a depth. */
  method NextNode(fdt: Fdt, startoffset: int, startdepth: int) returns (offset: int, depth: int)
    requires fdt.StructIn() && -INT_MAX - 1 <= startoffset <= INT_MAX
    ensures (offset, depth) == Walk.NextNode(fdt.St(), startoffset, startdepth)
    ensures offset <= INT_MAX
  {
    hide Tags.NextTag, Fdt.St;
    assert |fdt.St()| <= INT_MAX - 3 by { fdt.StSize(); }
    var nextoffset := 0;
    depth := startdepth;
    if startoffset >= 0 {
      nextoffset := CheckNodeOffset(fdt, startoffset);
      if nextoffset < 0 {
        return nextoffset, depth;
      }
    }
    var tag: u32 := FDT_NOP;
    offset := nextoffset;
    ghost var want := Walk.ScanNode(fdt.St(), offset, depth);
    while tag != FDT_BEGIN_NODE
      invariant tag != FDT_BEGIN_NODE ==>
                0 <= nextoffset <= INT_MAX && Walk.ScanNode(fdt.St(), nextoffset, depth) == want
      invariant tag == FDT_BEGIN_NODE ==> (offset, depth) == want && offset <= INT_MAX
      decreases tag != FDT_BEGIN_NODE, |fdt.St()| - nextoffset
    {
      offset := nextoffset;
      tag, nextoffset := NextTag(fdt, offset);
      if tag == FDT_BEGIN_NODE {
        depth := depth + 1;
      } else if tag == FDT_END_NODE {
        depth := depth - 1;
        if depth < 0 {
          return nextoffset, depth;
        }
      } else if tag == FDT_END {
        if nextoffset >= 0 {
          return -NOTFOUND, depth;
        }
        return nextoffset, depth;
      }
    }
  }

  /** fdt_first_subnode */
  method FirstSubnode(fdt: Fdt, parent: int) returns (offset: int)
    requires fdt.StructIn() && -INT_MAX - 1 <= parent <= INT_MAX
    ensures offset == Walk.FirstSubnode(fdt.St(), parent) && offset <= INT_MAX
  {
    var depth;
    offset, depth := NextNode(fdt, parent, 0);
    if offset < 0 || depth != 1 {
      return -NOTFOUND;
    }
  }

  /** fdt_next_subnode */
  method NextSubnode(fdt: Fdt, node: int) returns (offset: int)
    requires fdt.StructIn() && 0 <= node <= INT_MAX
    ensures offset == Walk.NextSubnode(fdt.St(), node) && offset <= INT_MAX
  {
    hide Walk.NextNode, Walk.Nodes, Fdt.St;
    var depth := 1;
    offset := node;
    ghost var st := fdt.St();
    Walk.NodesHead(st, offset, depth);
    while true
      invariant fdt.StructIn() && fdt.St() == st
      invariant 0 <= offset <= INT_MAX && depth >= 1
      invariant offset <= INT_MAX && Walk.Nodes(st, offset, depth) != []
      invariant Walk.NextSubnode(st, node) == Walk.Shallow(Walk.Nodes(st, offset, depth)[1..])
      decreases |st| - offset
    {
      Walk.NodesStep(st, offset, depth);
      offset, depth := NextNode(fdt, offset, depth);
      Walk.NodesHead(st, offset, depth);
      if offset < 0 || depth < 1 {
        return -NOTFOUND;
      }
      if depth <= 1 {
        return;
      }
    }
  }
}
