/** libfdt/fdt_ro.c */
module ReadOnly {
  import opened Bytes
  import opened Tags
  import opened Blob
  import opened FdtCore
  import Walk

  /** The error of fdt_ro_probe_ on a header, or 0. */
  function RoError(h: Header): (r: int)
    ensures r == 0 ==> h.totalsize < INT_MAX && (h.magic == FDT_MAGIC || h.magic == FDT_SW_MAGIC)
  {
    if h.magic == FDT_MAGIC && h.version < FDT_FIRST_SUPPORTED_VERSION then -BADVERSION
    else if h.magic == FDT_MAGIC && h.lastCompVersion > FDT_LAST_SUPPORTED_VERSION then -BADVERSION
    else if h.magic == FDT_SW_MAGIC && h.sizeDtStruct == 0 then -BADSTATE
    else if h.magic != FDT_MAGIC && h.magic != FDT_SW_MAGIC then -BADMAGIC
    else if h.totalsize >= INT_MAX then -TRUNCATED
    else 0
  }

  /** Which headers the readers accept, and why they refuse the others. */
  lemma RoErrorExact(h: Header)
    ensures RoError(h) == 0 <==>
              && h.totalsize < 0x7fff_ffff
              && ((h.magic == 0xd00d_feed && 2 <= h.version && h.lastCompVersion <= 17) ||
                  (h.magic == 0x2ff2_0112 && h.sizeDtStruct != 0))
    ensures RoError(h) == -BADMAGIC <==> h.magic != 0xd00d_feed && h.magic != 0x2ff2_0112
    ensures RoError(h) == -BADVERSION <==> h.magic == 0xd00d_feed && (h.version < 2 || h.lastCompVersion > 17)
    ensures RoError(h) == -BADSTATE <==> h.magic == 0x2ff2_0112 && h.sizeDtStruct == 0
    ensures RoError(h) in {0, -BADMAGIC, -BADVERSION, -BADSTATE, -TRUNCATED}
  {
  }

  /** fdt_ro_probe_ */
  method RoProbe(fdt: Fdt) returns (r: int)
    ensures r == if RoError(fdt.Hdr()) != 0 then RoError(fdt.Hdr()) else fdt.totalsize
    ensures fdt.InBounds() ==> r == fdt.totalsize
  {
    var totalsize := fdt.totalsize;
    if fdt.magic == FDT_MAGIC {
      if fdt.version < FDT_FIRST_SUPPORTED_VERSION {
        return -BADVERSION;
      }
      if fdt.lastCompVersion > FDT_LAST_SUPPORTED_VERSION {
        return -BADVERSION;
      }
    } else if fdt.magic == FDT_SW_MAGIC {
      if fdt.sizeDtStruct == 0 {
        return -BADSTATE;
      }
    } else {
      return -BADMAGIC;
    }
    if totalsize < INT_MAX {
      return totalsize;
    }
    return -TRUNCATED;
  }

  /** memchr for a zero byte: its index in mem, or -1. */
  method MemchrNul(mem: array<byte>, start: nat, len: nat) returns (r: int)
    requires start + len <= mem.Length
    ensures r == -1 ==> forall k :: start <= k < start + len ==> mem[k] != 0
    ensures r != -1 ==> start <= r < start + len && mem[r] == 0 && forall k :: start <= k < r ==> mem[k] != 0
  {
    r := start;
    while r < start + len
      invariant start <= r <= start + len
      invariant forall k :: start <= k < r ==> mem[k] != 0
    {
      if mem[r] == 0 {
        return;
      }
      r := r + 1;
    }
    return -1;
  }

  /** fdt_get_string on a complete tree: the place and length of the string, or an error. */
  method GetString(fdt: Fdt, stroffset: int) returns (s: int, lenp: int)
    requires fdt.InBounds() && -INT_MAX - 1 <= stroffset <= INT_MAX
    ensures s >= 0 ==> lenp >= 0 && s + lenp <= fdt.mem.Length &&
                       Walk.StrAt(fdt.Strs(), stroffset) == Walk.Some(fdt.mem[s..s + lenp])
    ensures s < 0 ==> Walk.StrAt(fdt.Strs(), stroffset).None?
    ensures s < 0 ==> lenp == if stroffset < 0 || stroffset >= fdt.sizeDtStrings then -BADOFFSET else -TRUNCATED
  {
    hide U32, Walk.StrAt;
    var totalsize := RoProbe(fdt);
    var absoffset := U32(stroffset + fdt.offDtStrings);
    if absoffset >= totalsize {
      if 0 <= stroffset {
        U32Id(stroffset + fdt.offDtStrings);
      }
      OutOfTable(fdt.Strs(), stroffset);
      return -1, -BADOFFSET;
    }
    var len := totalsize - absoffset;
    if stroffset < 0 {
      OutOfTable(fdt.Strs(), stroffset);
      return -1, -BADOFFSET;
    }
    if stroffset >= fdt.sizeDtStrings {
      OutOfTable(fdt.Strs(), stroffset);
      return -1, -BADOFFSET;
    }
    U32Id(stroffset + fdt.offDtStrings);
    if fdt.sizeDtStrings - stroffset < len {
      len := fdt.sizeDtStrings - stroffset;
    }
    var n := MemchrNul(fdt.mem, absoffset, len);
    if n < 0 {
      NoNulInSlice(fdt.mem[..], fdt.offDtStrings, fdt.offDtStrings + fdt.sizeDtStrings, stroffset);
      assert fdt.Strs() == fdt.mem[..][fdt.offDtStrings..fdt.offDtStrings + fdt.sizeDtStrings];
      return -1, -TRUNCATED;
    }
    NulInSlice(fdt.mem[..], fdt.offDtStrings, fdt.offDtStrings + fdt.sizeDtStrings, stroffset, n);
    assert fdt.Strs() == fdt.mem[..][fdt.offDtStrings..fdt.offDtStrings + fdt.sizeDtStrings];
    return absoffset, n - absoffset;
  }

  lemma OutOfTable(strs: bytes, off: int)
    requires off < 0 || off >= |strs|
    ensures Walk.StrAt(strs, off) == Walk.None
  {
  }

  lemma NoNulInSlice(m: bytes, a: nat, b: nat, off: nat)
    requires a <= b <= |m| && off <= b - a && forall k :: a + off <= k < b ==> m[k] != 0
    ensures Walk.StrAt(m[a..b], off) == Walk.None
  {
    var s := m[a..b];
    forall k | off <= k < |s| ensures s[k] != 0 {
      assert s[k] == m[a + k];
    }
  }

  lemma NulInSlice(m: bytes, a: nat, b: nat, off: nat, n: nat)
    requires a <= b <= |m| && a + off <= n < b && m[n] == 0 && forall k :: a + off <= k < n ==> m[k] != 0
    ensures Walk.StrAt(m[a..b], off) == Walk.Some(m[a + off..n])
  {
    var s := m[a..b];
    assert s[n - a] == 0;
    forall k | off <= k < n - a ensures s[k] != 0 {
      assert s[k] == m[a + k];
    }
    assert FindNul(s, off) == n - a;
    var x, y := s[off..n - a], m[a + off..n];
    assert |x| == |y|;
    forall i | 0 <= i < |x| ensures x[i] == y[i] {
    }
    assert x == y;
  }

  /** nextprop_ */
  method NextProp(fdt: Fdt, start: int) returns (offset: int)
    requires fdt.StructIn() && 0 <= start <= INT_MAX
    ensures offset == Walk.NextProp(fdt.St(), start) && offset <= INT_MAX
  {
    hide Tags.NextTag, Fdt.St;
    assert |fdt.St()| <= INT_MAX - 3 by { fdt.StSize(); }
    offset := start;
    var tag: u32 := FDT_NOP;
    while tag == FDT_NOP
      invariant tag == FDT_NOP ==>
                0 <= offset <= INT_MAX && Walk.NextProp(fdt.St(), offset) == Walk.NextProp(fdt.St(), start)
      invariant tag != FDT_NOP ==> Walk.NextProp(fdt.St(), start) == -NOTFOUND
      decreases tag == FDT_NOP, |fdt.St()| - offset
    {
      var nextoffset;
      tag, nextoffset := FdtCore.NextTag(fdt, offset);
      if tag == FDT_END {
        if nextoffset >= 0 {
          return -BADSTRUCTURE;
        }
        return nextoffset;
      } else if tag == FDT_PROP {
        return;
      }
      offset := nextoffset;
    }
    return -NOTFOUND;
  }

  /** fdt_first_property_offset */
  method FirstPropertyOffset(fdt: Fdt, nodeoffset: int) returns (offset: int)
    requires fdt.StructIn() && -INT_MAX - 1 <= nodeoffset <= INT_MAX
    ensures offset == (var first := Walk.CheckNode(fdt.St(), nodeoffset);
                       if first < 0 then first else Walk.NextProp(fdt.St(), first))
    ensures offset <= INT_MAX
  {
    hide Walk.CheckNode;
    offset := CheckNodeOffset(fdt, nodeoffset);
    if offset < 0 {
      return;
    }
    fdt.StSize();
    offset := NextProp(fdt, offset);
  }

  /** fdt_next_property_offset, on the offset of a property. */
  method NextPropertyOffset(fdt: Fdt, propoffset: int) returns (offset: int)
    requires fdt.StructIn() && 0 <= propoffset <= INT_MAX
    ensures offset <= INT_MAX
    ensures offset == if propoffset % 4 != 0 || Tags.NextTag(fdt.St(), propoffset).0 != FDT_PROP then -BADOFFSET
                      else Walk.NextProp(fdt.St(), Tags.NextTag(fdt.St(), propoffset).1)
  {
    hide Tags.NextTag;
    offset := CheckPropOffset(fdt, propoffset);
    if offset < 0 {
      return;
    }
    fdt.StSize();
    offset := NextProp(fdt, offset);
  }

  /** fdt_string_eq_ */
  method StringEq(fdt: Fdt, stroffset: int, s: bytes) returns (b: bool)
    requires fdt.InBounds() && -INT_MAX - 1 <= stroffset <= INT_MAX
    ensures b <==> Walk.StrAt(fdt.Strs(), stroffset) == Walk.Some(s)
  {
    var p, slen := GetString(fdt, stroffset);
    b := p >= 0 && slen == |s| && fdt.mem[p..p + slen] == s;
  }

  /** The conversion of an unsigned word to a signed one. */
  function I32(w: u32): int {
    if w > INT_MAX then w - TWO_32 else w
  }

  lemma NegativeOffset(strs: bytes, w: u32)
    requires |strs| <= INT_MAX
    ensures Walk.StrAt(strs, I32(w)) == Walk.StrAt(strs, w)
  {
  }

  /** The offset of the property at or after off in a node is a multiple of the tag size. */
  lemma PropAligned(st: bytes, off: int)
    requires off >= 0 && off % 4 == 0
    ensures Walk.NextProp(st, off) >= 0 ==> Walk.NextProp(st, off) % 4 == 0
    decreases |st| - off
  {
    var (tag, next) := Tags.NextTag(st, off);
    if tag == FDT_NOP {
      PropAligned(st, next);
    }
  }

  lemma TagAligned(st: bytes, off: int)
    ensures Tags.NextTag(st, off).1 >= 0 ==> Tags.NextTag(st, off).1 % 4 == 0
  {
  }

  /** fdt_get_property_namelen_: the offset and length of the property, or an error twice. */
  method GetProperty(fdt: Fdt, nodeoffset: int, name: bytes) returns (offset: int, lenp: int)
    requires fdt.InBounds() && -INT_MAX - 1 <= nodeoffset <= INT_MAX
    ensures offset == Walk.GetProperty(fdt.St(), fdt.Strs(), nodeoffset, name)
    ensures 0 <= offset ==> lenp >= 0 && offset + 12 + lenp <= |fdt.St()| && lenp == Dec32(fdt.St(), offset + 4)
    ensures offset < 0 ==> lenp == offset
  {
    hide Tags.NextTag, Fdt.St, Fdt.Strs, Walk.StrAt, Walk.NextProp, Dec32;
    assert |fdt.St()| <= INT_MAX - 3 by { fdt.StSize(); }
    assert |fdt.Strs()| <= INT_MAX by { StrsSize(fdt); }
    ghost var st, strs := fdt.St(), fdt.Strs();
    offset := FirstPropertyOffset(fdt, nodeoffset);
    ghost var first := Walk.CheckNode(st, nodeoffset);
    if first >= 0 {
      TagAligned(st, nodeoffset);
      PropAligned(st, first);
    }
    while offset >= 0
      invariant offset <= INT_MAX
      invariant offset >= 0 ==> offset % 4 == 0 && Tags.NextTag(st, offset).0 == FDT_PROP
      invariant Walk.FindProp(st, strs, offset, name) == Walk.GetProperty(st, strs, nodeoffset, name)
      decreases if offset < 0 then 0 else |st| - offset + 1
    {
      Walk.PropTagBounds(st, offset);
      lenp := StWord(fdt, offset + 4);
      var nameoff := StWord(fdt, offset + 8);
      NegativeOffset(strs, nameoff);
      assert nameoff == Walk.WordAt(st, offset + 8);
      var eq := StringEq(fdt, I32(nameoff), name);
      if eq {
        return;
      }
      TagAligned(st, offset);
      PropAligned(st, Tags.NextTag(st, offset).1);
      offset := NextPropertyOffset(fdt, offset);
    }
    lenp := offset;
  }

  lemma StrsSize(fdt: Fdt)
    requires fdt.InBounds()
    ensures |fdt.Strs()| == fdt.sizeDtStrings && |fdt.Strs()| <= INT_MAX
  {
  }

  /** fdt_get_name: the length of the name that starts at nodeoffset + 4, or an error. */
  method GetName(fdt: Fdt, nodeoffset: int) returns (len: int)
    requires fdt.InBounds() && -INT_MAX - 1 <= nodeoffset <= INT_MAX
    ensures len >= 0 <==> Walk.NameOf(fdt.St(), nodeoffset).Some?
    ensures len >= 0 ==> nodeoffset >= 0 && nodeoffset + 4 + len < |fdt.St()| &&
                         Walk.NameOf(fdt.St(), nodeoffset).value == fdt.St()[nodeoffset + 4..nodeoffset + 4 + len]
    ensures len < 0 ==> len == Walk.CheckNode(fdt.St(), nodeoffset)
  {
    hide Fdt.St, Dec32;
    var probe := RoProbe(fdt);
    if probe < 0 {
      return probe;
    }
    var check := CheckNodeOffset(fdt, nodeoffset);
    if check < 0 {
      return check;
    }
    fdt.StSize();
    var end := SkipName(fdt, nodeoffset + 4);
    len := end - 1 - (nodeoffset + 4);
  }

  /** fdt_nodename_eq_ */
  method NodenameEq(fdt: Fdt, offset: int, s: bytes) returns (b: bool)
    requires fdt.InBounds() && -INT_MAX - 1 <= offset <= INT_MAX
    ensures b <==> Walk.NameOf(fdt.St(), offset).Some? && Walk.NameEq(Walk.NameOf(fdt.St(), offset).value, s)
  {
    hide Walk.NameOf;
    var olen := GetName(fdt, offset);
    if olen < |s| {
      return false;
    }
    var p := fdt.offDtStruct + offset + 4;
    ghost var n := Walk.NameOf(fdt.St(), offset).value;
    assert n == fdt.mem[p..p + olen];
    assert n[..|s|] == fdt.mem[p..p + |s|];
    if fdt.mem[p..p + |s|] != s {
      return false;
    }
    if olen == |s| {
      return true;
    }
    assert n[|s|] == fdt.mem[p + |s|];
    return Walk.AT !in s && fdt.mem[p + |s|] == Walk.AT;
  }

  /** fdt_subnode_offset_namelen */
  method SubnodeOffset(fdt: Fdt, parent: int, name: bytes) returns (offset: int)
    requires fdt.InBounds() && -INT_MAX - 1 <= parent <= INT_MAX
    ensures offset == Walk.SubnodeOffset(fdt.St(), parent, name) && offset <= INT_MAX
  {
    hide Fdt.St, Walk.Nodes, Walk.NodesEnd, Walk.NextNode, Walk.NameOf, Walk.NameEq;
    var probe := RoProbe(fdt);
    if probe < 0 {
      return probe;
    }
    var depth := 0;
    offset := parent;
    ghost var st := fdt.St();
    while offset >= 0 && depth >= 0
      invariant offset <= INT_MAX
      invariant Walk.SubFrom(st, offset, depth, name) == Walk.SubnodeOffset(st, parent, name)
      decreases if offset < 0 || depth < 0 then 0 else 1 + INT_MAX - offset
    {
      var eq := NodenameEq(fdt, offset, name);
      Walk.SubStep(st, offset, depth, name);
      Walk.NodesStep(st, offset, depth);
      if depth == 1 && eq {
        return;
      }
      offset, depth := NextNode(fdt, offset, depth);
    }
    Walk.NodesHead(st, offset, depth);
    if depth < 0 {
      return -NOTFOUND;
    }
  }
}
