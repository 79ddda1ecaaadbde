/** The tag stream of a structure block, as read by fdt_next_tag. */
module Tags {
  import opened Bytes

  const FDT_BEGIN_NODE: u32 := 1
  const FDT_END_NODE: u32 := 2
  const FDT_PROP: u32 := 3
  const FDT_NOP: u32 := 4
  const FDT_END: u32 := 9

  const NOTFOUND := 1
  const EXISTS := 2
  const NOSPACE := 3
  const BADOFFSET := 4
  const BADPATH := 5
  const BADPHANDLE := 6
  const BADSTATE := 7
  const TRUNCATED := 8
  const BADMAGIC := 9
  const BADVERSION := 10
  const BADSTRUCTURE := 11
  const BADLAYOUT := 12
  const INTERNAL := 13
  const BADVALUE := 15
  const BADOVERLAY := 16
  const NOPHANDLES := 17
  const BADFLAGS := 18
  const ALIGNMENT := 19

  /** Index of the first zero byte at or after i, or -1. */
  function FindNul(st: bytes, i: nat): (r: int)
    ensures r == -1 ==> forall k :: i <= k < |st| ==> st[k] != 0
    ensures r != -1 ==> i <= r < |st| && st[r] == 0 && forall k :: i <= k < r ==> st[k] != 0
    decreases |st| - i
  {
    if i >= |st| then -1
    else if st[i] == 0 then i
    else FindNul(st, i + 1)
  }

  /** The tag at off in the accessible structure bytes, and the offset of the next one (or a negated error). */
  function NextTag(st: bytes, off: int): (r: (u32, int))
    ensures r.1 >= 0 ==> off >= 0 && off + 4 <= |st| && off + 4 <= r.1 <= |st| + 3
    ensures r.1 < 0 ==> r.0 == FDT_END && r.1 >= -BADSTRUCTURE
  {
    if off < 0 || off + 4 > |st| then (FDT_END, -TRUNCATED)
    else
      var tag := Dec32(st, off);
      if tag == FDT_BEGIN_NODE then
        var k := FindNul(st, off + 4);
        if k < 0 then (FDT_END, -BADSTRUCTURE) else (tag, Align4(k + 1))
      else if tag == FDT_PROP then
        if off + 8 > |st| || off + 12 + Dec32(st, off + 4) > |st| then (FDT_END, -BADSTRUCTURE)
        else (tag, Align4(off + 12 + Dec32(st, off + 4)))
      else if tag == FDT_END_NODE || tag == FDT_NOP || tag == FDT_END then (tag, Align4(off + 4))
      else (FDT_END, -BADSTRUCTURE)
  }

  /**
   * Why fdt_next_tag fails: the tag itself does not lie in the structure block, or it is none, or the name behind it
   * has
   * no end in the block, or the property does not.
   */
  lemma NextTagFails(st: bytes, off: int)
    ensures NextTag(st, off).1 == -TRUNCATED <==> off < 0 || off + 4 > |st|
    ensures NextTag(st, off).1 < 0 ==> NextTag(st, off).1 in {-TRUNCATED, -BADSTRUCTURE}
    ensures 0 <= off && off + 4 <= |st| ==>
              var tag := Dec32(st, off);
              (NextTag(st, off).1 == -BADSTRUCTURE <==>
                 || tag !in {1, 2, 3, 4, 9}
                 || (tag == 1 && forall k :: off + 4 <= k < |st| ==> st[k] != 0)
                 || (tag == 3 && (off + 8 > |st| || off + 12 + Dec32(st, off + 4) > |st|)))
  {
    hide Cells;
  }

  lemma NextTagOfBegin(st: bytes, off: nat)
    requires off + 4 <= |st| && Dec32(st, off) == FDT_BEGIN_NODE && FindNul(st, off + 4) >= 0
    ensures NextTag(st, off) == (FDT_BEGIN_NODE, Align4(FindNul(st, off + 4) + 1))
  {
    hide Dec32, FindNul, Cells;
  }

  lemma NextTagOfProp(st: bytes, off: nat)
    requires off + 12 <= |st| && Dec32(st, off) == FDT_PROP && off + 12 + Dec32(st, off + 4) <= |st|
    ensures NextTag(st, off) == (FDT_PROP, Align4(off + 12 + Dec32(st, off + 4)))
  {
    hide Dec32, Cells;
  }
}
