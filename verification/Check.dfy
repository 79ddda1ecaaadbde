/** libfdt/fdt_check.c */
module Checking {
  import opened Bytes
  import opened Tags
  import opened Blob
  import opened Forests
  import opened Edits
  import opened Trees
  import opened Walk
  import Traverse
  import FdtCore
  import ReadOnly
  import Reserve

  // ---------- The walk of fdt_check_full ----------

  /** The error of fdt_get_string for an offset that denotes no string. */
  function NameError(strs: bytes, nameoff: int): int {
    if nameoff < 0 || nameoff >= |strs| then -BADOFFSET else -TRUNCATED
  }

  /** The loop of fdt_check_full from the tag at off on: an error, or 0. */
  function CheckWalk(st: bytes, strs: bytes, off: int, depth: nat, expectEnd: bool): int
    requires off >= 0
    decreases |st| - off
  {
    var (tag, next) := NextTag(st, off);
    if next < 0 then next
    else if expectEnd && tag != FDT_END && tag != FDT_NOP then -BADSTRUCTURE
    else if tag == FDT_NOP then CheckWalk(st, strs, next, depth, expectEnd)
    else if tag == FDT_END then if depth != 0 then -BADSTRUCTURE else 0
    else if tag == FDT_BEGIN_NODE then
      if depth == 0 && NameOf(st, off) != Some([]) then -BADSTRUCTURE
      else CheckWalk(st, strs, next, depth + 1, expectEnd)
    else if tag == FDT_END_NODE then
      if depth == 0 then -BADSTRUCTURE else CheckWalk(st, strs, next, depth - 1, expectEnd || depth == 1)
    else if tag == FDT_PROP then
      if StrAt(strs, WordAt(st, off + 8)).None? then NameError(strs, WordAt(st, off + 8))
      else CheckWalk(st, strs, next, depth, expectEnd)
    else -INTERNAL
  }

  // ---------- What it accepts ----------

  ghost predicate OnlyNops(f: Forest) {
    f == Empty || (f.Leaf? && f.item.Nop? && OnlyNops(f.rest))
  }

  /** At most one root, with an empty name and nothing but NOPs behind it; properties may come before it. */
  ghost predicate Doc(f: Forest) {
    match f
    case Empty => true
    case Leaf(_, rest) => Doc(rest)
    case Node(item, _, rest) => item.Begin? && item.name == [] && OnlyNops(rest)
  }

  /** st is an encoding of f, which has at most one root, and every property of f has a name. */
  ghost predicate Accepted(st: bytes, strs: bytes, f: Forest) {
    Encodes(st, f) && Named(f, strs) && Doc(f)
  }

  // ---------- Everything that is described is accepted ----------

  lemma PropName(st: bytes, p: nat, f: Forest)
    requires f.Leaf? && f.item.Prop? && HasFirst(st, p, f)
    ensures WordAt(st, 4 * p + 8) == f.item.nameoff
  {
    hide Dec32;
  }

  /** Inside a node, the walk passes over an encoded forest. */
  lemma {:induction false} CheckBody(st: bytes, strs: bytes, p: nat, f: Forest, d: nat)
    requires Wf(f) && Has(st, p, f) && Named(f, strs) && d >= 1
    ensures CheckWalk(st, strs, 4 * p, d, false) == CheckWalk(st, strs, 4 * (p + Size(f)), d, false)
    decreases f
  {
    hide NextTag, Has, HasFirst, Len, StrAt, WordAt;
    if f != Empty {
      Traverse.HasHead(st, p, f);
      CheckBody(st, strs, p + Width(f), f.rest, d);
      if f.Node? {
        Traverse.HasBody(st, p, f);
        CheckBody(st, strs, p + Len(f.item), f.body, d + 1);
      } else if f.item.Prop? {
        PropName(st, p, f);
      }
    }
  }

  lemma {:induction false} CheckNops(st: bytes, strs: bytes, p: nat, f: Forest)
    requires Wf(f) && Has(st, p, f) && OnlyNops(f)
    ensures CheckWalk(st, strs, 4 * p, 0, true) == CheckWalk(st, strs, 4 * (p + Size(f)), 0, true)
    decreases f
  {
    hide NextTag, Has, HasFirst, Len;
    if f != Empty {
      Traverse.HasHead(st, p, f);
      CheckNops(st, strs, p + Width(f), f.rest);
    }
  }

  lemma {:induction false} CheckDoc(st: bytes, strs: bytes, p: nat, f: Forest)
    requires Wf(f) && Has(st, p, f) && Named(f, strs) && Doc(f) && TagAt(st, p + Size(f), FDT_END)
    ensures CheckWalk(st, strs, 4 * p, 0, false) == 0
    decreases f
  {
    hide NextTag, Has, HasFirst, Len, StrAt, WordAt, NameOf;
    if f == Empty {
      NextTagWord(st, p, FDT_END);
    } else {
      Traverse.HasHead(st, p, f);
      if f.Leaf? {
        CheckDoc(st, strs, p + Width(f), f.rest);
        if f.item.Prop? {
          PropName(st, p, f);
        }
      } else {
        Traverse.HasBody(st, p, f);
        Traverse.NameOfHas(st, p, f);
        CheckBody(st, strs, p + Len(f.item), f.body, 1);
        CheckNops(st, strs, p + Width(f), f.rest);
        NextTagWord(st, p + Size(f), FDT_END);
      }
    }
  }

  // ---------- Everything that is accepted is described ----------

  /** An accepting walk has a tag where it goes on. */
  lemma GoesOn(st: bytes, strs: bytes, off: int, depth: nat, expectEnd: bool)
    requires off >= 0 && CheckWalk(st, strs, off, depth, expectEnd) == 0
    ensures off + 4 <= |st|
  {
  }

  lemma PropParsed(st: bytes, p: nat) returns (it: Item)
    requires NextTag(st, 4 * p).0 == FDT_PROP && NextTag(st, 4 * p).1 <= |st| <= INT_MAX
    ensures it.Prop? && WfItem(it) && ItemAt(st, p, it) && NextTag(st, 4 * p).1 == 4 * (p + Len(it))
    ensures it.nameoff == WordAt(st, 4 * p + 8)
  {
    hide Dec32, Cells;
    var o := 4 * p;
    PropTagBounds(st, o);
    NextTagOfProp(st, o);
    var n := Dec32(st, o + 4);
    AlignPlus(p + 3, n);
    it := Prop(Dec32(st, o + 8), st[o + 12..o + 12 + n], st[o + 12 + n..o + 12 + Align4(n)]);
  }

  lemma BeginParsed(st: bytes, p: nat) returns (it: Item)
    requires NextTag(st, 4 * p).0 == FDT_BEGIN_NODE && NextTag(st, 4 * p).1 <= |st| <= INT_MAX
    ensures it.Begin? && WfItem(it) && ItemAt(st, p, it) && NextTag(st, 4 * p).1 == 4 * (p + Len(it))
    ensures NameOf(st, 4 * p) == Some(it.name)
  {
    hide Dec32, Cells;
    var x := 4 * p + 4;
    var k := FindNul(st, x);
    NextTagNamed(st, p, k - x);
    it := Begin(st[x..k], st[k + 1..x + Align4(k - x + 1)]);
  }

  lemma WordParsed(st: bytes, p: nat, tag: u32)
    requires NextTag(st, 4 * p).0 == tag && NextTag(st, 4 * p).1 >= 0
    ensures TagAt(st, p, tag)
    ensures tag == FDT_NOP || tag == FDT_END_NODE || tag == FDT_END ==> NextTag(st, 4 * p).1 == 4 * (p + 1)
  {
    hide Dec32;
    AlignPlus(p + 1, 0);
  }

  /** An accepting walk inside a node passes over an encoded forest and the end tag of the node. */
  lemma {:induction false} ParseBody(st: bytes, strs: bytes, p: nat, d: nat) returns (f: Forest)
    requires |st| <= INT_MAX && d >= 1 && CheckWalk(st, strs, 4 * p, d, false) == 0
    ensures Wf(f) && Has(st, p, f) && Named(f, strs) && TagAt(st, p + Size(f), FDT_END_NODE)
    ensures CheckWalk(st, strs, 4 * (p + Size(f) + 1), d - 1, d == 1) == 0
    decreases |st| - 4 * p
  {
    hide NextTag, ItemAt, WfItem, Len, TagAt, StrAt, WordAt, NameOf, Has, HasFirst, Wf, Size, Named;
    GoesOn(st, strs, 4 * p, d, false);
    var (tag, next) := NextTag(st, 4 * p);
    if tag == FDT_NOP {
      WordParsed(st, p, FDT_NOP);
      f := ParseBody(st, strs, p + 1, d);
      NopIs(st, p);
      LeafHas(st, p, Nop, f, strs);
      f := Leaf(Nop, f);
    } else if tag == FDT_PROP {
      GoesOn(st, strs, next, d, false);
      var it := PropParsed(st, p);
      f := ParseBody(st, strs, p + Len(it), d);
      LeafHas(st, p, it, f, strs);
      f := Leaf(it, f);
    } else if tag == FDT_BEGIN_NODE {
      GoesOn(st, strs, next, d + 1, false);
      var it := BeginParsed(st, p);
      var body := ParseBody(st, strs, p + Len(it), d + 1);
      f := ParseBody(st, strs, p + Len(it) + Size(body) + 1, d);
      NodeHas(st, p, it, body, f, strs);
      f := Node(it, body, f);
    } else {
      WordParsed(st, p, FDT_END_NODE);
      f := Empty;
      EmptyHas(st, p, strs);
    }
  }

  lemma NopIs(st: bytes, p: nat)
    requires TagAt(st, p, FDT_NOP)
    ensures WfItem(Nop) && ItemAt(st, p, Nop) && Len(Nop) == 1
  {
  }

  /** Behind the root, an accepting walk passes over NOPs only. */
  lemma {:induction false} ParseNops(st: bytes, strs: bytes, p: nat) returns (f: Forest)
    requires CheckWalk(st, strs, 4 * p, 0, true) == 0
    ensures Wf(f) && Has(st, p, f) && Named(f, strs) && OnlyNops(f) && TagAt(st, p + Size(f), FDT_END)
    decreases |st| - 4 * p
  {
    hide NextTag, ItemAt, WfItem, Len, TagAt, StrAt, WordAt, NameOf, Has, HasFirst, Wf, Size, Named;
    GoesOn(st, strs, 4 * p, 0, true);
    var (tag, next) := NextTag(st, 4 * p);
    if tag == FDT_NOP {
      WordParsed(st, p, FDT_NOP);
      f := ParseNops(st, strs, p + 1);
      NopIs(st, p);
      LeafHas(st, p, Nop, f, strs);
      f := Leaf(Nop, f);
    } else {
      WordParsed(st, p, FDT_END);
      f := Empty;
      EmptyHas(st, p, strs);
    }
  }

  /** An accepting walk from the start passes over a document. */
  lemma {:induction false} ParseDoc(st: bytes, strs: bytes, p: nat) returns (f: Forest)
    requires |st| <= INT_MAX && CheckWalk(st, strs, 4 * p, 0, false) == 0
    ensures Wf(f) && Has(st, p, f) && Named(f, strs) && Doc(f) && TagAt(st, p + Size(f), FDT_END)
    decreases |st| - 4 * p
  {
    hide NextTag, ItemAt, WfItem, Len, TagAt, StrAt, WordAt, NameOf, Has, HasFirst, Wf, Size, Named;
    GoesOn(st, strs, 4 * p, 0, false);
    var (tag, next) := NextTag(st, 4 * p);
    if tag == FDT_NOP {
      WordParsed(st, p, FDT_NOP);
      f := ParseDoc(st, strs, p + 1);
      NopIs(st, p);
      LeafHas(st, p, Nop, f, strs);
      f := Leaf(Nop, f);
    } else if tag == FDT_PROP {
      GoesOn(st, strs, next, 0, false);
      var it := PropParsed(st, p);
      f := ParseDoc(st, strs, p + Len(it));
      LeafHas(st, p, it, f, strs);
      f := Leaf(it, f);
    } else if tag == FDT_BEGIN_NODE {
      GoesOn(st, strs, next, 1, false);
      var it := BeginParsed(st, p);
      var body := ParseBody(st, strs, p + Len(it), 1);
      f := ParseNops(st, strs, p + Len(it) + Size(body) + 1);
      NodeHas(st, p, it, body, f, strs);
      f := Node(it, body, f);
    } else {
      WordParsed(st, p, FDT_END);
      f := Empty;
      EmptyHas(st, p, strs);
    }
  }

  /** The walk accepts exactly the encodings of documents whose properties all have names. */
  lemma AcceptsExactly(st: bytes, strs: bytes)
    requires |st| <= INT_MAX
    ensures CheckWalk(st, strs, 0, 0, false) == 0 <==> exists f :: Accepted(st, strs, f)
  {
    hide CheckWalk, Has, Wf, Named, Doc, TagAt;
    if CheckWalk(st, strs, 0, 0, false) == 0 {
      var f := ParseDoc(st, strs, 0);
      assert Accepted(st, strs, f);
    }
    forall f | Accepted(st, strs, f) ensures CheckWalk(st, strs, 0, 0, false) == 0 {
      CheckDoc(st, strs, 0, f);
    }
  }

  lemma {:induction false} NopsOfNil(f: Forest, strs: bytes)
    requires Wf(f) && Named(f, strs) && Abs(f, strs) == Nil
    ensures OnlyNops(f)
  {
    if f != Empty {
      NopsOfNil(f.rest, strs);
    }
  }

  /** A forest that stands for a single root with an empty name is a document. */
  lemma {:induction false} DocOfRoot(f: Forest, strs: bytes, body: Tree)
    requires Wf(f) && Named(f, strs) && Abs(f, strs) == NodeT([], body, Nil)
    ensures Doc(f)
  {
    if f.Leaf? {
      DocOfRoot(f.rest, strs, body);
    } else {
      NopsOfNil(f.rest, strs);
    }
  }

  // ---------- An encoding determines its forest ----------

  lemma ItemUnique(st: bytes, p: nat, a: Item, b: Item)
    requires WfItem(a) && WfItem(b) && ItemAt(st, p, a) && ItemAt(st, p, b) && TagOf(a) == TagOf(b)
    ensures a == b
  {
    hide Dec32, Cells;
    if a.Begin? {
      NameEnds(st, p, a.name, a.padding);
      NameEnds(st, p, b.name, b.padding);
    }
  }

  /** Two forests encoded at the same place, each closed by an end tag, are equal. */
  lemma {:induction false} HasUnique(st: bytes, p: nat, f: Forest, g: Forest, tag: u32, tag': u32)
    requires Wf(f) && Wf(g) && Has(st, p, f) && Has(st, p, g)
    requires tag == FDT_END || tag == FDT_END_NODE
    requires tag' == FDT_END || tag' == FDT_END_NODE
    requires TagAt(st, p + Size(f), tag) && TagAt(st, p + Size(g), tag')
    ensures f == g
    decreases f
  {
    hide *;
    Traverse.Parts(f);
    Traverse.Parts(g);
    FirstTag(st, p, f, tag);
    FirstTag(st, p, g, tag');
    if f != Empty {
      Traverse.HasHead(st, p, f);
      Traverse.HasHead(st, p, g);
      FirstItem(st, p, f);
      FirstItem(st, p, g);
      ItemUnique(st, p, f.item, g.item);
      if f.Node? {
        BodyParts(st, p, f);
        BodyParts(st, p, g);
        HasUnique(st, p + Len(f.item), f.body, g.body, FDT_END_NODE, FDT_END_NODE);
      }
      WidthUnique(f, g);
      HasUnique(st, p + Width(f), f.rest, g.rest, tag, tag');
    }
  }

  /** What the first tag says about an encoded forest. */
  lemma FirstTag(st: bytes, p: nat, f: Forest, tag: u32)
    requires Wf(f) && Has(st, p, f) && TagAt(st, p + Size(f), tag)
    requires tag == FDT_END || tag == FDT_END_NODE
    ensures var t := NextTag(st, 4 * p).0;
      (f == Empty <==> t == FDT_END || t == FDT_END_NODE) &&
      (f.Node? <==> t == FDT_BEGIN_NODE)
  {
    hide NextTag, ItemAt, WfItem, Len, TagAt, Has, HasFirst;
    if f == Empty {
      NextTagWord(st, p, tag);
    } else {
      Traverse.HasHead(st, p, f);
    }
  }

  lemma FirstItem(st: bytes, p: nat, f: Forest)
    requires f != Empty && Wf(f) && HasFirst(st, p, f)
    ensures WfItem(f.item) && ItemAt(st, p, f.item)
  {
  }

  lemma BodyParts(st: bytes, p: nat, f: Forest)
    requires f.Node? && Wf(f) && HasFirst(st, p, f)
    ensures Wf(f.body) && Has(st, p + Len(f.item), f.body) && TagAt(st, p + Len(f.item) + Size(f.body), FDT_END_NODE)
  {
  }

  lemma WidthUnique(f: Forest, g: Forest)
    requires f != Empty && g != Empty && f.item == g.item && f.Node? == g.Node? && (f.Node? ==> f.body == g.body)
    ensures Width(f) == Width(g)
  {
  }

  /** The bytes of a structure block determine the forest, and so the tree. */
  lemma EncodesUnique(st: bytes, f: Forest, g: Forest)
    requires Encodes(st, f) && Encodes(st, g)
    ensures f == g
  {
    hide Has, Wf, Size, TagAt;
    HasUnique(st, 0, f, g, FDT_END, FDT_END);
  }

  // ---------- fdt_check_header and fdt_check_full ----------

  predicate CheckOff(hdrsize: u32, totalsize: u32, off: u32) {
    hdrsize <= off <= totalsize
  }

  /** check_block_, in 32-bit arithmetic. */
  predicate CheckBlock(hdrsize: u32, totalsize: u32, base: u32, size: u32) {
    CheckOff(hdrsize, totalsize, base) && U32(base + size) >= base && CheckOff(hdrsize, totalsize, U32(base + size))
  }

  /** The 32-bit tests accept exactly the blocks between header and end. */
  lemma CheckBlockMeans(hdrsize: u32, totalsize: u32, base: u32, size: u32)
    ensures CheckBlock(hdrsize, totalsize, base, size) <==> hdrsize <= base && base + size <= totalsize
  {
    if base + size < TWO_32 {
      U32Id(base + size);
    }
  }

  /** What fdt_check_full says about the header of a tree of version 17 or later in a buffer: an error, or 0. */
  function HeaderError(h: Header, bufsize: nat): int {
    if bufsize < FDT_V17_SIZE then -TRUNCATED
    else if h.magic != FDT_MAGIC then -BADMAGIC
    else if h.version < FDT_FIRST_SUPPORTED_VERSION || h.lastCompVersion > FDT_LAST_SUPPORTED_VERSION then -BADVERSION
    else if h.version < h.lastCompVersion then -BADVERSION
    else if h.totalsize < FDT_V17_SIZE || h.totalsize > INT_MAX then -TRUNCATED
    else if h.offMemRsvmap % 8 != 0 then -ALIGNMENT
    else if h.offDtStruct % 4 != 0 then -ALIGNMENT
    else if !CheckOff(FDT_V17_SIZE, h.totalsize, h.offMemRsvmap) then -TRUNCATED
    else if !CheckBlock(FDT_V17_SIZE, h.totalsize, h.offDtStruct, h.sizeDtStruct) then -TRUNCATED
    else if !CheckBlock(FDT_V17_SIZE, h.totalsize, h.offDtStrings, h.sizeDtStrings) then -TRUNCATED
    else if bufsize < h.totalsize then -TRUNCATED
    else 0
  }

  /** The magic number and the versions that the library reads. */
  ghost predicate Supported(h: Header) {
    h.magic == FDT_MAGIC && FDT_FIRST_SUPPORTED_VERSION <= h.version &&
      h.lastCompVersion <= FDT_LAST_SUPPORTED_VERSION &&
    h.lastCompVersion <= h.version
  }

  ghost predicate Aligned(h: Header) {
    h.offMemRsvmap % 8 == 0 && h.offDtStruct % 4 == 0
  }

  /** Every block begins behind the header and ends within totalsize, and totalsize within the buffer. */
  ghost predicate BlocksIn(h: Header, bufsize: nat) {
    && FDT_V17_SIZE <= h.offMemRsvmap <= h.totalsize
    && FDT_V17_SIZE <= h.offDtStruct && h.offDtStruct + h.sizeDtStruct <= h.totalsize
    && FDT_V17_SIZE <= h.offDtStrings && h.offDtStrings + h.sizeDtStrings <= h.totalsize
    && h.totalsize <= INT_MAX && h.totalsize <= bufsize
  }

  /**
   * A header passes exactly when it is supported, aligned, and its blocks lie in the buffer; each error says what is
   * wrong.
   */
  lemma HeaderErrorMeans(h: Header, bufsize: nat)
    ensures HeaderError(h, bufsize) == 0 <==> Supported(h) && Aligned(h) && BlocksIn(h, bufsize)
    ensures HeaderError(h, bufsize) == -BADMAGIC <==> bufsize >= FDT_V17_SIZE && h.magic != FDT_MAGIC
    ensures HeaderError(h, bufsize) == -BADVERSION <==>
              bufsize >= FDT_V17_SIZE && h.magic == FDT_MAGIC && !Supported(h)
    ensures HeaderError(h, bufsize) == -ALIGNMENT <==>
              bufsize >= FDT_V17_SIZE && Supported(h) && FDT_V17_SIZE <= h.totalsize <= INT_MAX && !Aligned(h)
    ensures HeaderError(h, bufsize) in {0, -BADMAGIC, -BADVERSION, -ALIGNMENT, -TRUNCATED}
  {
    hide U32;
    CheckBlockMeans(FDT_V17_SIZE, h.totalsize, h.offDtStruct, h.sizeDtStruct);
    CheckBlockMeans(FDT_V17_SIZE, h.totalsize, h.offDtStrings, h.sizeDtStrings);
  }

  lemma HeaderSize(h: Header, bufsize: nat)
    requires HeaderError(h, bufsize) == 0
    ensures h.totalsize <= INT_MAX
  {
  }

  /** A header that passes puts all blocks in the blob. */
  lemma HeaderMeans(fdt: Fdt, bufsize: nat)
    requires fdt.version >= 17 && HeaderError(fdt.Hdr(), bufsize) == 0 && bufsize <= fdt.mem.Length
    requires fdt.totalsize < INT_MAX
    ensures fdt.InBounds() && ReadOnly.RoError(fdt.Hdr()) == 0
  {
    hide U32;
    CheckBlockMeans(FDT_V17_SIZE, fdt.totalsize, fdt.offDtStruct, fdt.sizeDtStruct);
    CheckBlockMeans(FDT_V17_SIZE, fdt.totalsize, fdt.offDtStrings, fdt.sizeDtStrings);
  }

  /** The answer of fdt_check_full. */
  ghost function FullError(fdt: Fdt, bufsize: nat): int
    requires fdt.version >= 17 && bufsize <= fdt.mem.Length
    reads fdt, fdt.mem
  {
    if HeaderError(fdt.Hdr(), bufsize) != 0 then HeaderError(fdt.Hdr(), bufsize)
    else if fdt.totalsize == INT_MAX then -TRUNCATED
    else
      HeaderMeans(fdt, bufsize);
      if Reserve.Rsv(fdt.mem[..], fdt.offMemRsvmap, fdt.totalsize).None? then -TRUNCATED
      else CheckWalk(fdt.St(), fdt.Strs(), 0, 0, false)
  }

  /** fdt_check_header, and the tests of fdt_check_full around it. */
  method CheckHeader(fdt: Fdt, bufsize: nat) returns (err: int)
    requires fdt.version >= 17
    ensures err == HeaderError(fdt.Hdr(), bufsize)
    ensures err == 0 <==> Supported(fdt.Hdr()) && Aligned(fdt.Hdr()) && BlocksIn(fdt.Hdr(), bufsize)
  {
    hide U32;
    HeaderErrorMeans(fdt.Hdr(), bufsize);
    if bufsize < FDT_V17_SIZE {
      return -TRUNCATED;
    }
    if fdt.magic != FDT_MAGIC {
      return -BADMAGIC;
    }
    if fdt.version < FDT_FIRST_SUPPORTED_VERSION || fdt.lastCompVersion > FDT_LAST_SUPPORTED_VERSION {
      return -BADVERSION;
    }
    if fdt.version < fdt.lastCompVersion {
      return -BADVERSION;
    }
    if fdt.totalsize < FDT_V17_SIZE || fdt.totalsize > INT_MAX {
      return -TRUNCATED;
    }
    if fdt.offMemRsvmap % 8 != 0 {
      return -ALIGNMENT;
    }
    if fdt.offDtStruct % 4 != 0 {
      return -ALIGNMENT;
    }
    if !CheckOff(FDT_V17_SIZE, fdt.totalsize, fdt.offMemRsvmap) {
      return -TRUNCATED;
    }
    if !CheckBlock(FDT_V17_SIZE, fdt.totalsize, fdt.offDtStruct, fdt.sizeDtStruct) {
      return -TRUNCATED;
    }
    if !CheckBlock(FDT_V17_SIZE, fdt.totalsize, fdt.offDtStrings, fdt.sizeDtStrings) {
      return -TRUNCATED;
    }
    if bufsize < fdt.totalsize {
      return -TRUNCATED;
    }
    return 0;
  }

  /** The case of a property: fdt_getprop_by_offset, as far as its name is concerned. */
  method CheckProp(fdt: Fdt, offset: nat) returns (err: int)
    requires fdt.InBounds() && offset <= INT_MAX && NextTag(fdt.St(), offset).0 == FDT_PROP
    ensures var s := WordAt(fdt.St(), offset + 8);
      err == if StrAt(fdt.Strs(), s).None? then NameError(fdt.Strs(), s) else 0
  {
    hide NextTag, Fdt.St, Fdt.Strs, StrAt, Dec32;
    PropTagBounds(fdt.St(), offset);
    ReadOnly.StrsSize(fdt);
    var nameoff := FdtCore.StWord(fdt, offset + 8);
    ReadOnly.NegativeOffset(fdt.Strs(), nameoff);
    var s, len := ReadOnly.GetString(fdt, ReadOnly.I32(nameoff));
    err := if s < 0 then len else 0;
  }

  /** The loop of fdt_check_full. The depth is at most a quarter of the offset, so it stays below INT_MAX. */
  method CheckTags(fdt: Fdt) returns (err: int)
    requires fdt.InBounds()
    ensures err == CheckWalk(fdt.St(), fdt.Strs(), 0, 0, false)
  {
    hide NextTag, Fdt.St, Fdt.Strs, StrAt, WordAt, NameOf;
    assert |fdt.St()| <= INT_MAX - 3 by { fdt.StSize(); }
    var nextoffset := 0;
    var depth := 0;
    var expectEnd := false;
    while true
      invariant 0 <= nextoffset <= INT_MAX && nextoffset % 4 == 0 && 0 <= 4 * depth <= nextoffset
      invariant CheckWalk(fdt.St(), fdt.Strs(), nextoffset, depth, expectEnd) ==
                CheckWalk(fdt.St(), fdt.Strs(), 0, 0, false)
      decreases |fdt.St()| - nextoffset
    {
      var offset := nextoffset;
      var tag;
      tag, nextoffset := FdtCore.NextTag(fdt, offset);
      if nextoffset < 0 {
        return nextoffset;
      }
      ReadOnly.TagAligned(fdt.St(), offset);
      if expectEnd && tag != FDT_END && tag != FDT_NOP {
        return -BADSTRUCTURE;
      }
      if tag == FDT_NOP {
      } else if tag == FDT_END {
        if depth != 0 {
          return -BADSTRUCTURE;
        }
        return 0;
      } else if tag == FDT_BEGIN_NODE {
        depth := depth + 1;
        if depth == 1 {
          var len := ReadOnly.GetName(fdt, offset);
          BeginNamed(fdt.St(), offset);
          if len != 0 {
            return -BADSTRUCTURE;
          }
        }
      } else if tag == FDT_END_NODE {
        if depth == 0 {
          return -BADSTRUCTURE;
        }
        depth := depth - 1;
        if depth == 0 {
          expectEnd := true;
        }
      } else if tag == FDT_PROP {
        var e := CheckProp(fdt, offset);
        if e != 0 {
          return e;
        }
      } else {
        return -INTERNAL;
      }
    }
  }

  lemma BeginNamed(st: bytes, off: nat)
    requires NextTag(st, off).0 == FDT_BEGIN_NODE && off % 4 == 0
    ensures NameOf(st, off).Some? && (NameOf(st, off) == Some([]) <==> |NameOf(st, off).value| == 0)
  {
  }

  /**
   * fdt_check_full on a tree of version 17 or later: it ends on every content of the buffer, and it
   * accepts exactly the buffers with a good header, an ended reserve map, and a structure block that
   * encodes a document whose property names are all in the strings block.
   */
  method CheckFull(fdt: Fdt, bufsize: nat) returns (err: int)
    requires fdt.version >= 17 && bufsize <= fdt.mem.Length
    ensures err == FullError(fdt, bufsize)
    ensures err == 0 <==>
              && Supported(fdt.Hdr()) && Aligned(fdt.Hdr()) && BlocksIn(fdt.Hdr(), bufsize) && fdt.totalsize < INT_MAX
              && Reserve.Rsv(fdt.mem[..], fdt.offMemRsvmap, fdt.totalsize).Some?
              && exists f :: Accepted(fdt.St(), fdt.Strs(), f)
  {
    hide Fdt.St, Fdt.Strs, CheckWalk, HeaderError, Accepted, Reserve.Rsv;
    HeaderErrorMeans(fdt.Hdr(), bufsize);
    err := CheckHeader(fdt, bufsize);
    if err != 0 {
      return;
    }
    HeaderSize(fdt.Hdr(), bufsize);
    if fdt.totalsize == INT_MAX {
      return -TRUNCATED;
    }
    HeaderMeans(fdt, bufsize);
    var n := Reserve.NumMemRsv(fdt);
    if n < 0 {
      return n;
    }
    fdt.StSize();
    AcceptsExactly(fdt.St(), fdt.Strs());
    err := CheckTags(fdt);
  }

  /** A complete tree in good order with a single root passes fdt_check_full. */
  lemma RootPasses(fdt: Fdt, body: Tree)
    requires fdt.Valid() && fdt.Tree() == NodeT([], body, Nil) && Reserve.Reserved(fdt).Some?
    requires fdt.lastCompVersion <= FDT_LAST_SUPPORTED_VERSION && fdt.offMemRsvmap % 8 == 0 && fdt.offDtStruct % 4 == 0
    ensures FullError(fdt, fdt.totalsize) == 0
  {
    hide Fdt.St, Fdt.Strs, CheckWalk, Reserve.Rsv, Has, Wf, Named, TagAt, Abs, CheckBlock, Doc;
    CheckBlockMeans(FDT_V17_SIZE, fdt.totalsize, fdt.offDtStruct, fdt.sizeDtStruct);
    CheckBlockMeans(FDT_V17_SIZE, fdt.totalsize, fdt.offDtStrings, fdt.sizeDtStrings);
    Reserve.RsvWiden(fdt.mem[..], fdt.offMemRsvmap, fdt.offDtStruct, fdt.totalsize);
    DocOfRoot(fdt.forest, fdt.Strs(), body);
    CheckDoc(fdt.St(), fdt.Strs(), 0, fdt.forest);
  }
}
