/** libfdt/fdt_overlay.c: overlay_apply_node on two blobs. */
module Applying {
  import opened Bytes
  import opened Tags
  import opened Blob
  import opened Forests
  import opened Edits
  import opened Trees
  import opened Walk
  import opened ReadWrite
  import opened NodeEdit
  import opened Merging
  import SeqWrite
  import Traverse
  import FdtCore
  import ReadOnly

  // ---------- Room ----------

  /** The room that a property takes at most: its tag, its value and its name. */
  function PropRoom(name: bytes, len: nat): nat {
    12 + Align4(len) + |name| + 1
  }

  /** The room that a node takes, without its properties and children. */
  function KidRoom(name: bytes): nat {
    8 + Align4(|name| + 1)
  }

  /** The room for the properties that come first. */
  function PropsRoom(t: Tree): nat {
    if t.PropT? then PropRoom(t.name, |t.value|) + PropsRoom(t.rest) else 0
  }

  /** The room for the nodes, with all that is in them. */
  function KidsRoom(t: Tree): nat {
    match t
    case Nil => 0
    case PropT(_, _, rest) => KidsRoom(rest)
    case NodeT(name, body, rest) => KidRoom(name) + PropsRoom(body) + KidsRoom(body) + KidsRoom(rest)
  }

  /** The room that a merge of t takes at most. */
  function Room(t: Tree): nat {
    PropsRoom(t) + KidsRoom(t)
  }

  /** The names of all properties of t, with their terminators. */
  function NameBytes(t: Tree): nat {
    match t
    case Nil => 0
    case PropT(name, _, rest) => |name| + 1 + NameBytes(rest)
    case NodeT(_, body, rest) => NameBytes(body) + NameBytes(rest)
  }

  /** The room for a merge of t is no more than what t itself takes, when no name is shared. */
  lemma {:induction false} RoomBound(t: Tree)
    ensures Room(t) <= SeqWrite.StructSize(t) + NameBytes(t)
  {
    match t
    case Nil =>
    case PropT(name, value, rest) => RoomBound(rest);
    case NodeT(name, body, rest) =>
      RoomBound(body);
      RoomBound(rest);
  }

  lemma SetRoom(body: Tree, name: bytes, len: nat)
    ensures forall strs: bytes :: SetSize(strs, body, name, len) <= PropRoom(name, len)
  {
  }

  lemma PropRooms(name: bytes, value: bytes, rest: Tree)
    ensures PropsRoom(PropT(name, value, rest)) == PropRoom(name, |value|) + PropsRoom(rest)
  {
  }

  lemma {:induction false} KidsRoomSkipped(t: Tree)
    ensures KidsRoom(SkipProps(t)) == KidsRoom(t)
  {
    if t.PropT? {
      KidsRoomSkipped(t.rest);
    }
  }

  /**
   * From end on, the data has grown by no more than room, and ends at now; or, if ret is an error, there is less than
   * that room.
   */
  ghost predicate Taken(ret: int, end: int, now: int, room: int, total: int) {
    if ret == 0 then now <= end + room else end + room > total
  }

  lemma TakenNone(end: int, total: int)
    ensures Taken(0, end, end, 0, total)
  {
  }

  lemma TakenMore(ret: int, end: int, mid: int, now: int, x: int, y: int, total: int)
    requires Taken(0, end, mid, x, total) && Taken(ret, mid, now, y, total)
    ensures Taken(ret, end, now, x + y, total)
  {
  }

  lemma TakenWithin(ret: int, end: int, now: int, x: int, y: int, total: int)
    requires Taken(ret, end, now, x, total) && x <= y
    ensures Taken(ret, end, now, y, total)
  {
  }

  // ---------- Reading the overlay ----------

  /** The entries rest, the last ones of a node body, are encoded at position pos. */
  ghost predicate Cursor(st: bytes, strs: bytes, pos: nat, rest: Forest) {
    Wf(rest) && Named(rest, strs) && Has(st, pos, rest) && TagAt(st, pos + Size(rest), FDT_END_NODE)
  }

  /** The position and the entries behind the NOPs that come first. */
  ghost function SkipNops(pos: nat, rest: Forest): (r: (nat, Forest))
    ensures Size(r.1) <= Size(rest) && r.0 + Size(r.1) == pos + Size(rest)
    decreases rest
  {
    if rest.Leaf? && rest.item.Nop? then SkipNops(pos + 1, rest.rest) else (pos, rest)
  }

  /** The position and the entries behind the properties and NOPs that come first. */
  ghost function SkipLeaves(pos: nat, rest: Forest): (r: (nat, Forest))
    ensures Size(r.1) <= Size(rest) && r.0 + Size(r.1) == pos + Size(rest)
    decreases rest
  {
    if rest.Leaf? then SkipLeaves(pos + Width(rest), rest.rest) else (pos, rest)
  }

  lemma CursorHead(st: bytes, strs: bytes, pos: nat, rest: Forest)
    requires Cursor(st, strs, pos, rest) && rest != Empty
    ensures Cursor(st, strs, pos + Width(rest), rest.rest)
    ensures Tags.NextTag(st, 4 * pos) == (TagOf(rest.item), 4 * (pos + Len(rest.item)))
    ensures rest.Leaf? ==> Width(rest) == Len(rest.item)
  {
    hide Has, HasFirst, Tags.NextTag, TagAt;
    Traverse.HasHead(st, pos, rest);
  }

  /** The property iteration finds the next property, if only NOPs come before it. */
  lemma {:induction false} NextPropCursor(st: bytes, strs: bytes, pos: nat, rest: Forest)
    requires Cursor(st, strs, pos, rest)
    ensures var (p, r) := SkipNops(pos, rest);
      && Cursor(st, strs, p, r) && Abs(r, strs) == Abs(rest, strs)
      && Walk.NextProp(st, 4 * pos) == if r.Leaf? then 4 * p else -NOTFOUND
    decreases rest
  {
    hide Tags.NextTag, Has, HasFirst, TagAt;
    if rest == Empty {
      NextTagWord(st, pos, FDT_END_NODE);
    } else {
      CursorHead(st, strs, pos, rest);
      if rest.Leaf? && rest.item.Nop? {
        NextPropCursor(st, strs, pos + 1, rest.rest);
      }
    }
  }

  lemma {:induction false} LeavesCursor(st: bytes, strs: bytes, pos: nat, rest: Forest)
    requires Cursor(st, strs, pos, rest)
    ensures var (p, r) := SkipLeaves(pos, rest);
      && Cursor(st, strs, p, r) && !r.Leaf? && Abs(r, strs) == SkipProps(Abs(rest, strs))
      && (match Traverse.FirstNode(rest)
          case None => r == Empty
          case Some(q) => r.Node? && p == pos + Pos(rest, q))
    decreases rest
  {
    hide Tags.NextTag, Has, HasFirst, TagAt;
    if rest.Leaf? {
      CursorHead(st, strs, pos, rest);
      LeavesCursor(st, strs, pos + Width(rest), rest.rest);
    }
  }

  /** t without the properties that come first. */
  function SkipProps(t: Tree): Tree {
    if t.PropT? then SkipProps(t.rest) else t
  }

  lemma {:induction false} KidsSkipped(b: Tree, o: Tree)
    ensures MergeKids(b, SkipProps(o)) == MergeKids(b, o)
    decreases o
  {
    if o.PropT? {
      KidsSkipped(b, o.rest);
    }
  }

  /** What the overlay says about a property. */
  lemma PropCursor(st: bytes, strs: bytes, pos: nat, rest: Forest)
    requires Cursor(st, strs, pos, rest) && rest.Leaf? && rest.item.Prop?
    ensures 4 * pos + 12 + |rest.item.value| <= |st|
    ensures Tags.NextTag(st, 4 * pos) == (FDT_PROP, 4 * (pos + Width(rest)))
    ensures Dec32(st, 4 * pos + 4) == |rest.item.value| && Dec32(st, 4 * pos + 8) == rest.item.nameoff
    ensures st[4 * pos + 12..4 * pos + 12 + |rest.item.value|] == rest.item.value
    ensures StrAt(strs, rest.item.nameoff).Some?
    ensures Abs(rest, strs) == PropT(StrAt(strs, rest.item.nameoff).value, rest.item.value, Abs(rest.rest, strs))
  {
    hide Dec32, Has, Tags.NextTag;
    CursorHead(st, strs, pos, rest);
    LengthAt(st, pos, rest);
    ValueAt(st, pos, rest);
  }

  lemma StrAtName(strs: bytes, off: int)
    ensures StrAt(strs, off).Some? ==> |StrAt(strs, off).value| <= |strs| && 0 !in StrAt(strs, off).value
  {
  }

  // ---------- The base ----------

  lemma FrontTotal(fdt: Fdt)
    requires fdt.Laid()
    ensures fdt.Front().totalsize == fdt.totalsize
  {
  }

  /** A blob with its blocks in order passes the probe. */
  lemma LaidProbe(fdt: Fdt)
    requires fdt.Laid()
    ensures RwError(fdt.Hdr()) == 0
  {
    hide U32;
    U32Id(fdt.offMemRsvmap + 16);
    U32Id(fdt.offDtStruct + fdt.sizeDtStruct);
    U32Id(fdt.offDtStrings + fdt.sizeDtStrings);
  }

  /** target is the offset of the node at place p. */
  ghost predicate Target(fdt: Fdt, target: int, p: Path)
    reads fdt, fdt.mem
  {
    fdt.Valid() && NodeOffset(fdt, target, Some(p))
  }

  lemma TargetStays(fdt: Fdt, target: int, p: Path, f: Forest)
    requires fdt.Valid() && NodeEdited(f, fdt.forest, p) && -INT_MAX - 1 <= target <= INT_MAX && target == 4 * Pos(f, p)
    ensures Target(fdt, target, p) && AbsPath(fdt.forest, p) == AbsPath(f, p)
  {
    EditedPlace(f, fdt.forest, p);
  }

  /** The node of the overlay at offset node: it is the first entry of n, encoded at pos. */
  ghost predicate Source(fdto: Fdt, node: int, pos: nat, n: Forest)
    reads fdto, fdto.mem
  {
    fdto.Valid() && n.Node? && node == 4 * pos && Wf(n) && Named(n, fdto.Strs()) && Has(fdto.St(), pos, n)
  }

  lemma SourceBody(fdto: Fdt, node: int, pos: nat, n: Forest)
    requires Source(fdto, node, pos, n)
    ensures fdto.InBounds() && 0 <= node <= INT_MAX
    ensures Cursor(fdto.St(), fdto.Strs(), pos + Len(n.item), n.body)
    ensures Walk.CheckNode(fdto.St(), node) == 4 * (pos + Len(n.item))
    ensures n.item.Begin? && Walk.NameOf(fdto.St(), node) == Some(n.item.name) && 0 !in n.item.name
    ensures Size(n.body) < Size(n)
  {
    hide Fdt.St, Fdt.Strs, Has, HasFirst, Walk.CheckNode, Walk.NameOf;
    fdto.StSize();
    Traverse.HasHead(fdto.St(), pos, n);
    Traverse.HasBody(fdto.St(), pos, n);
    Traverse.NameOfHas(fdto.St(), pos, n);
    CheckNodeBound(fdto.St(), node);
  }

  lemma CheckNodeBound(st: bytes, off: int)
    ensures Walk.CheckNode(st, off) >= 0 ==> off + 4 <= |st|
  {
  }

  /** In the tree was, the node at place q has got the body b; nothing else has changed. */
  ghost predicate Changed(fdt: Fdt, was: Tree, q: Path, b: Tree)
    reads fdt, fdt.mem
  {
    fdt.Valid() && IsNode(was, q) && fdt.Tree() == WithBody(was, q, b)
  }

  lemma ChangedSelf(fdt: Fdt, target: int, p: Path)
    requires Target(fdt, target, p)
    ensures NodeEdited(fdt.forest, fdt.forest, p)
    ensures IsNode(fdt.Tree(), AbsPath(fdt.forest, p))
    ensures Changed(fdt, fdt.Tree(), AbsPath(fdt.forest, p), BodyAt(fdt.Tree(), AbsPath(fdt.forest, p)))
    ensures -INT_MAX - 1 <= target <= INT_MAX && target == 4 * Pos(fdt.forest, p)
  {
    EditedSelf(fdt.forest, p);
    NodeAbs(fdt.forest, p, fdt.Strs());
    WithBodySelf(fdt.Tree(), AbsPath(fdt.forest, p));
  }

  lemma ChangedBody(fdt: Fdt, was: Tree, q: Path, b: Tree)
    requires Changed(fdt, was, q, b)
    ensures IsNode(fdt.Tree(), q) && BodyAt(fdt.Tree(), q) == b
  {
    WithBodyAt(was, q, b, b);
  }

  lemma ChangedTwice(fdt: Fdt, was: Tree, mid: Tree, q: Path, x: Tree, y: Tree)
    requires fdt.Valid() && IsNode(was, q) && mid == WithBody(was, q, x) && fdt.Tree() == WithBody(mid, q, y)
    ensures Changed(fdt, was, q, y)
  {
    WithBodyAt(was, q, x, y);
  }

  lemma SkippedNops(pos: nat, rest: Forest)
    requires Wf(rest)
    ensures SkipNops(pos, rest).1.Leaf? ==> SkipNops(pos, rest).1.item.Prop?
    decreases rest
  {
    if rest.Leaf? && rest.item.Nop? {
      SkippedNops(pos + 1, rest.rest);
    }
  }

  lemma NoProp(b: Tree, strs: bytes, rest: Forest)
    requires Wf(rest) && Named(rest, strs) && !rest.Leaf?
    ensures MergeProps(b, Abs(rest, strs)) == b
  {
  }

  lemma ValueBounds(fdt: Fdt)
    requires fdt.Laid()
    ensures |fdt.St()| <= MAX_LEN && |fdt.Strs()| <= MAX_LEN
  {
  }

  /**
   * The base in the middle of a merge: the node at place p, which is place q of the tree, has got the
   * body b in the tree was; nothing else has changed.
   */
  ghost predicate Editing(fdt: Fdt, target: int, p: Path, f: Forest, was: Tree, q: Path, b: Tree, front: Kept)
    reads fdt, fdt.mem
  {
    && Target(fdt, target, p) && NodeEdited(f, fdt.forest, p) && AbsPath(fdt.forest, p) == q
    && Changed(fdt, was, q, b) && fdt.Front() == front
  }

  lemma StartEditing(fdt: Fdt, target: int, p: Path)
    requires Target(fdt, target, p)
    ensures fdt.Valid() && fdt.Laid() && IsPath(fdt.forest, p)
    ensures
      var q := AbsPath(fdt.forest, p);
      Editing(fdt, target, p, fdt.forest, fdt.Tree(), q, BodyAt(fdt.Tree(), q), fdt.Front())
  {
    hide Fdt.Tree, Fdt.Front, Changed, NodeEdited;
    ChangedSelf(fdt, target, p);
  }

  /** fdt_setprop on a blob in good order, as one step of a series of changes of one node. */
  method SetStep(fdt: Fdt, target: int, name: bytes, val: bytes,
                 ghost p: Path, ghost f: Forest, ghost was: Tree, ghost q: Path, ghost b: Tree, ghost front: Kept)
    returns (ret: int)
    requires Editing(fdt, target, p, f, was, q, b, front) && 0 !in name && |name| <= MAX_LEN && |val| <= MAX_LEN
    modifies fdt, fdt.mem
    ensures ret == 0 || ret == -NOSPACE
    ensures Editing(fdt, target, p, f, was, q, if ret == 0 then Set(b, name, val) else b, front)
    ensures Taken(ret, old(fdt.DataEnd()), fdt.DataEnd(), PropRoom(name, |val|), front.totalsize)
  {
    hide Fdt.St, Fdt.Strs, Fdt.Front, Abs, Fdt.Laid, NodeEdited, Set, SetSize, WithBody, BodyAt, IsPath, At, Pos,
         AbsPath, IsNode,
         Encodes, Named, RwError;
    ghost var g, mid := fdt.forest, fdt.Tree();
    LaidProbe(fdt);
    ChangedSelf(fdt, target, p);
    ChangedBody(fdt, was, q, b);
    assert name[..|name|] == name;
    FrontTotal(fdt);
    SetRoom(b, name, |val|);
    ret := SetPropNamelen(fdt, target, name, |name|, val, Some(p));
    if ret != 0 {
      return;
    }
    TargetStays(fdt, target, p, g);
    EditedTrans(f, g, fdt.forest, p);
    ChangedTwice(fdt, was, mid, q, b, Set(b, name, val));
  }

  /** The overlay in the middle of the iteration over the properties of a node: rest is still to come. */
  ghost predicate AtProp(fdto: Fdt, property: int, cp: nat, rest: Forest)
    reads fdto, fdto.mem
  {
    && fdto.Laid() && Cursor(fdto.St(), fdto.Strs(), cp, rest) && (rest.Leaf? ==> rest.item.Prop?)
    && property <= INT_MAX && property == if rest.Leaf? then 4 * cp else -NOTFOUND
  }

  /** The entries of the overlay that are still to come, as a tree. */
  ghost function Rest(fdto: Fdt, rest: Forest): Tree
    reads fdto, fdto.mem
  {
    if fdto.InBounds() && Wf(rest) && Named(rest, fdto.Strs()) then Abs(rest, fdto.Strs()) else Nil
  }

  method FirstProp(fdto: Fdt, node: int, ghost pos: nat, ghost n: Forest)
    returns (property: int, ghost cp: nat, ghost rest: Forest)
    requires Source(fdto, node, pos, n)
    ensures AtProp(fdto, property, cp, rest) && Rest(fdto, rest) == Rest(fdto, n.body)
    ensures pos <= cp && cp + Size(rest) == pos + Len(n.item) + Size(n.body)
  {
    hide Fdt.St, Fdt.Strs, Encodes, Tags.NextTag, Walk.NextProp, TagAt, Abs, Has, SkipNops;
    SourceBody(fdto, node, pos, n);
    NextPropCursor(fdto.St(), fdto.Strs(), pos + Len(n.item), n.body);
    SkippedNops(pos + Len(n.item), n.body);
    property := ReadOnly.FirstPropertyOffset(fdto, node);
    cp, rest := SkipNops(pos + Len(n.item), n.body).0, SkipNops(pos + Len(n.item), n.body).1;
  }

  method NextPropOf(fdto: Fdt, property: nat, ghost cp: nat, ghost rest: Forest)
    returns (next: int, ghost cp': nat, ghost rest': Forest)
    requires AtProp(fdto, property, cp, rest)
    ensures AtProp(fdto, next, cp', rest') && rest.Leaf? && Rest(fdto, rest') == Rest(fdto, rest.rest)
    ensures Size(rest') < Size(rest)
    ensures cp' + Size(rest') == cp + Size(rest)
  {
    hide Fdt.St, Fdt.Strs, Encodes, Tags.NextTag, Walk.NextProp, TagAt, Abs, Has, SkipNops;
    PropCursor(fdto.St(), fdto.Strs(), cp, rest);
    CursorHead(fdto.St(), fdto.Strs(), cp, rest);
    NextPropCursor(fdto.St(), fdto.Strs(), cp + Width(rest), rest.rest);
    SkippedNops(cp + Width(rest), rest.rest);
    next := ReadOnly.NextPropertyOffset(fdto, property);
    cp', rest' := SkipNops(cp + Width(rest), rest.rest).0, SkipNops(cp + Width(rest), rest.rest).1;
  }

  /** fdt_getprop_by_offset on a property: its name and its value. */
  method GetPropByOffset(fdto: Fdt, offset: nat, ghost cp: nat, ghost rest: Forest) returns (name: bytes, value: bytes)
    requires AtProp(fdto, offset, cp, rest)
    ensures rest.Leaf? && Rest(fdto, rest) == PropT(name, value, Rest(fdto, rest.rest))
    ensures |name| <= MAX_LEN && |value| <= MAX_LEN && 0 !in name
  {
    hide Fdt.St, Fdt.Strs, Dec32, StrAt, Abs, TagAt, Has;
    PropCursor(fdto.St(), fdto.Strs(), cp, rest);
    ReadOnly.StrsSize(fdto);
    ValueBounds(fdto);
    var len := FdtCore.StWord(fdto, offset + 4);
    var nameoff := FdtCore.StWord(fdto, offset + 8);
    ReadOnly.NegativeOffset(fdto.Strs(), nameoff);
    var s, n := ReadOnly.GetString(fdto, ReadOnly.I32(nameoff));
    name := fdto.mem[s..s + n];
    value := FdtCore.StSlice(fdto, offset + 12, len);
    StrAtName(fdto.Strs(), rest.item.nameoff);
  }

  /** One round of the first loop of overlay_apply_node. */
  method ApplyProp(fdt: Fdt, target: int, fdto: Fdt, property: nat,
                   ghost p: Path, ghost f: Forest, ghost was: Tree, ghost q: Path, ghost b: Tree, ghost front: Kept,
                   ghost cp: nat, ghost rest: Forest)
    returns (ret: int, ghost b': Tree)
    requires Editing(fdt, target, p, f, was, q, b, front) && AtProp(fdto, property, cp, rest) && fdt != fdto
    requires fdt.mem != fdto.mem
    modifies fdt, fdt.mem
    ensures ret == 0 || ret == -NOSPACE
    ensures Editing(fdt, target, p, f, was, q, b', front)
    ensures AtProp(fdto, property, cp, rest) && rest.Leaf? && old(Rest(fdto, rest)) == Rest(fdto, rest)
    ensures ret == 0 ==> MergeProps(b, Rest(fdto, rest)) == MergeProps(b', Rest(fdto, rest.rest))
    ensures Taken(ret, old(fdt.DataEnd()), fdt.DataEnd(),
                  PropsRoom(Rest(fdto, rest)) - PropsRoom(Rest(fdto, rest.rest)), front.totalsize)
  {
    hide *;
    var name, val := GetPropByOffset(fdto, property, cp, rest);
    ret := SetStep(fdt, target, name, val, p, f, was, q, b, front);
    b' := if ret == 0 then Set(b, name, val) else b;
    MergeOne(b, name, val, Rest(fdto, rest.rest));
    PropRooms(name, val, Rest(fdto, rest.rest));
  }

  lemma MergeOne(b: Tree, name: bytes, val: bytes, rest: Tree)
    ensures MergeProps(b, PropT(name, val, rest)) == MergeProps(Set(b, name, val), rest)
  {
  }

  /** The first loop of overlay_apply_node: the properties. */
  method ApplyProps(fdt: Fdt, target: int, fdto: Fdt, node: int,
                    ghost p: Path, ghost f: Forest, ghost was: Tree, ghost q: Path, ghost b0: Tree, ghost front: Kept,
                    ghost pos: nat, ghost n: Forest)
    returns (ret: int, ghost b: Tree)
    requires Editing(fdt, target, p, f, was, q, b0, front) && Source(fdto, node, pos, n) && fdt != fdto
    requires fdt.mem != fdto.mem && n.Node?
    modifies fdt, fdt.mem
    ensures ret == 0 || ret == -NOSPACE
    ensures Editing(fdt, target, p, f, was, q, b, front) && Source(fdto, node, pos, n)
    ensures ret == 0 ==> b == MergeProps(b0, Rest(fdto, n.body))
    ensures Taken(ret, old(fdt.DataEnd()), fdt.DataEnd(), PropsRoom(Rest(fdto, n.body)), front.totalsize)
  {
    hide *;
    ghost var o, end, total := Rest(fdto, n.body), fdt.DataEnd(), front.totalsize;
    TakenNone(end, total);
    var property;
    ghost var cp, rest;
    property, cp, rest := FirstProp(fdto, node, pos, n);
    ret, b := 0, b0;
    while property >= 0
      invariant Editing(fdt, target, p, f, was, q, b, front) && Source(fdto, node, pos, n)
      invariant AtProp(fdto, property, cp, rest)
      invariant Rest(fdto, n.body) == o && ret == 0
      invariant MergeProps(b, Rest(fdto, rest)) == MergeProps(b0, o)
      invariant Taken(0, end, fdt.DataEnd(), PropsRoom(o) - PropsRoom(Rest(fdto, rest)), total)
      decreases Size(rest)
    {
      ghost var mid, x, y := fdt.DataEnd(), PropsRoom(o) - PropsRoom(Rest(fdto, rest)), PropsRoom(Rest(fdto, rest));
      ret, b := ApplyProp(fdt, target, fdto, property, p, f, was, q, b, front, cp, rest);
      TakenMore(ret, end, mid, fdt.DataEnd(), x, y - PropsRoom(Rest(fdto, rest.rest)), total);
      if ret != 0 {
        TakenWithin(ret, end, fdt.DataEnd(), x + y - PropsRoom(Rest(fdto, rest.rest)), PropsRoom(o), total);
        return;
      }
      property, cp, rest := NextPropOf(fdto, property, cp, rest);
    }
    NoMoreProps(fdto, b, property, cp, rest);
  }

  lemma NoMoreProps(fdto: Fdt, b: Tree, property: int, cp: nat, rest: Forest)
    requires AtProp(fdto, property, cp, rest) && property < 0
    ensures MergeProps(b, Rest(fdto, rest)) == b && PropsRoom(Rest(fdto, rest)) == 0
  {
    NoProp(b, fdto.Strs(), rest);
  }

  // ---------- Children ----------

  /** What child lookup says about the node at place p. */
  lemma ChildOffset(fdt: Fdt, target: int, p: Path, name: bytes) returns (c: Path)
    requires Target(fdt, target, p) && ChildAt(BodyAt(fdt.Tree(), AbsPath(fdt.forest, p)), name).Some?
    ensures Traverse.ChildPath(At(fdt.forest, p).body, name) == Some(c)
    ensures ChildTarget(fdt, Walk.SubnodeOffset(fdt.St(), target, name), p, c, name)
    ensures Walk.SubnodeOffset(fdt.St(), target, name) >= 0
  {
    hide Fdt.St, Fdt.Strs, Walk.SubnodeOffset, Has, HasFirst, NameEq;
    var f := fdt.forest;
    EncodesWf(fdt.St(), f);
    EncodesAt(fdt.St(), f, p);
    NodeAbs(f, p, fdt.Strs());
    ChildPathAbs(At(f, p).body, fdt.Strs(), name);
    c := Traverse.ChildPath(At(f, p).body, name).value;
    ChildPlaces(f, fdt.Strs(), p, name);
    Traverse.SubnodeOffsetHas(fdt.St(), Pos(f, p), At(f, p), name);
    InsideAt(f, p, c, Empty);
    PlaceInside(fdt.St(), f, Inside(p, c));
    fdt.StSize();
  }

  /** nnode is the offset of the child c of the node at place p, the one that answers to name. */
  ghost predicate ChildTarget(fdt: Fdt, nnode: int, p: Path, c: Path, name: bytes)
    reads fdt, fdt.mem
  {
    && fdt.Valid() && IsPath(fdt.forest, p) && At(fdt.forest, p).Node? && IsPath(At(fdt.forest, p).body, c)
    && Target(fdt, nnode, Inside(p, c))
    && var q := AbsPath(fdt.forest, p);
       var b := BodyAt(fdt.Tree(), q);
       && IsNode(fdt.Tree(), q) && ChildAt(b, name).Some?
       && AbsPath(fdt.forest, Inside(p, c)) == Inside(q, ChildAt(b, name).value)
  }

  lemma MadeTarget(fdt: Fdt, f: Forest, nnode: int, p: Path, name: bytes) returns (c: Path)
    requires fdt.Valid() && ChildMade(f, fdt.forest, p, name) && NodeOffset(fdt, nnode, Some(NewPlace(f, p)))
    ensures ChildTarget(fdt, nnode, p, c, name)
  {
    hide Fdt.St, Fdt.Strs, Has, HasFirst, NameEq;
    c := ChildrenPath(At(f, p).body);
    EncodesWf(fdt.St(), fdt.forest);
    ChildPlaces(fdt.forest, fdt.Strs(), p, name);
  }

  /** fdt_add_subnode on a blob in good order, as one step of a series of changes of one node. */
  method AddStep(fdt: Fdt, target: int, name: bytes,
                 ghost p: Path, ghost f: Forest, ghost was: Tree, ghost q: Path, ghost b: Tree, ghost front: Kept)
    returns (nnode: int, ghost c: Path)
    requires Editing(fdt, target, p, f, was, q, b, front) && 0 !in name && |name| <= MAX_LEN
    modifies fdt, fdt.mem
    ensures nnode >= 0 ==>
              Editing(fdt, target, p, f, was, q, AddChild(b, name), front) && ChildTarget(fdt, nnode, p, c, name)
    ensures nnode >= 0 ==> ChildAt(b, name).None?
    ensures nnode < 0 ==> nnode == (if ChildAt(b, name).Some? then -EXISTS else -NOSPACE)
    ensures nnode < 0 ==> Editing(fdt, target, p, f, was, q, b, front) && fdt.DataEnd() == old(fdt.DataEnd())
    ensures Taken(if nnode == -NOSPACE then nnode else 0, old(fdt.DataEnd()), fdt.DataEnd(), KidRoom(name),
                  front.totalsize)
  {
    hide Fdt.St, Fdt.Strs, Fdt.Front, Abs, Fdt.Laid, NodeEdited, AddChild, WithBody, BodyAt, IsPath, At, Pos, AbsPath,
         IsNode,
         Encodes, Named, RwError, ChildAt, NewPlace, ChildMade, ChildTarget;
    ghost var g, mid := fdt.forest, fdt.Tree();
    LaidProbe(fdt);
    ChangedSelf(fdt, target, p);
    ChangedBody(fdt, was, q, b);
    FrontTotal(fdt);
    nnode := NodeEdit.AddSubnode(fdt, target, name, Some(p));
    c := Here;
    if nnode < 0 {
      return;
    }
    TargetStays(fdt, target, p, g);
    EditedTrans(f, g, fdt.forest, p);
    ChangedTwice(fdt, was, mid, q, b, AddChild(b, name));
    c := MadeTarget(fdt, g, nnode, p, name);
  }

  /** The child of the base that an overlay child is merged into: found, or added. */
  method FindOrAdd(fdt: Fdt, target: int, name: bytes,
                   ghost p: Path, ghost f: Forest, ghost was: Tree, ghost q: Path, ghost b: Tree, ghost front: Kept)
    returns (nnode: int, ghost c: Path)
    requires Editing(fdt, target, p, f, was, q, b, front) && 0 !in name && |name| <= MAX_LEN
    modifies fdt, fdt.mem
    ensures nnode >= 0 ==>
              Editing(fdt, target, p, f, was, q, WithChild(b, name), front) && ChildTarget(fdt, nnode, p, c, name)
    ensures nnode < 0 ==> nnode == -NOSPACE && Editing(fdt, target, p, f, was, q, b, front)
    ensures Taken(if nnode < 0 then nnode else 0, old(fdt.DataEnd()), fdt.DataEnd(), KidRoom(name), front.totalsize)
  {
    hide Fdt.St, Fdt.Strs, Fdt.Front, Fdt.Tree, AddChild, IsPath, At, Pos, AbsPath, IsNode, ChildAt, ChildTarget,
         NodeEdited,
         Walk.SubnodeOffset, Encodes, Named;
    nnode, c := AddStep(fdt, target, name, p, f, was, q, b, front);
    if nnode == -EXISTS {
      ChangedBody(fdt, was, q, b);
      ChangedSelf(fdt, target, p);
      c := ChildOffset(fdt, target, p, name);
      nnode := ReadOnly.SubnodeOffset(fdt, target, name);
      if nnode == -NOTFOUND {
        return -INTERNAL, c;
      }
    }
  }

  /** The name of a node of the overlay. */
  method NodeName(fdto: Fdt, node: int, ghost pos: nat, ghost n: Forest) returns (name: bytes)
    requires Source(fdto, node, pos, n)
    ensures n.item.Begin? && name == n.item.name && |name| <= MAX_LEN && 0 !in name
  {
    hide Fdt.St, Fdt.Strs, Has, Walk.CheckNode, Walk.NameOf, Encodes;
    SourceBody(fdto, node, pos, n);
    ValueBounds(fdto);
    var len := ReadOnly.GetName(fdto, node);
    name := FdtCore.StSlice(fdto, node + 4, len);
  }

  /** The overlay in the middle of the iteration over the children of a node: rest is still to come. */
  ghost predicate AtKid(fdto: Fdt, subnode: int, cp: nat, rest: Forest)
    reads fdto, fdto.mem
  {
    && fdto.Valid() && Cursor(fdto.St(), fdto.Strs(), cp, rest) && !rest.Leaf?
    && subnode <= INT_MAX && subnode == if rest.Node? then 4 * cp else -NOTFOUND
  }

  lemma KidSource(fdto: Fdt, subnode: int, cp: nat, rest: Forest)
    requires AtKid(fdto, subnode, cp, rest) && subnode >= 0
    ensures rest.Node? && Source(fdto, subnode, cp, rest)
  {
  }

  method FirstKid(fdto: Fdt, node: int, ghost pos: nat, ghost n: Forest)
    returns (subnode: int, ghost cp: nat, ghost rest: Forest)
    requires Source(fdto, node, pos, n)
    ensures AtKid(fdto, subnode, cp, rest) && Rest(fdto, rest) == SkipProps(Rest(fdto, n.body)) && Size(rest) < Size(n)
    ensures pos <= cp && cp + Size(rest) == pos + Len(n.item) + Size(n.body)
  {
    hide Fdt.St, Fdt.Strs, Encodes, Has, HasFirst, TagAt, Abs, SkipLeaves, Walk.FirstSubnode, SkipProps;
    SourceBody(fdto, node, pos, n);
    LeavesCursor(fdto.St(), fdto.Strs(), pos + Len(n.item), n.body);
    Traverse.FirstSubnodeHas(fdto.St(), pos, n);
    subnode := FdtCore.FirstSubnode(fdto, node);
    cp, rest := SkipLeaves(pos + Len(n.item), n.body).0, SkipLeaves(pos + Len(n.item), n.body).1;
  }

  method NextKid(fdto: Fdt, subnode: nat, ghost cp: nat, ghost rest: Forest)
    returns (next: int, ghost cp': nat, ghost rest': Forest)
    requires AtKid(fdto, subnode, cp, rest)
    ensures AtKid(fdto, next, cp', rest') && rest.Node? && Size(rest') < Size(rest)
    ensures Rest(fdto, rest') == SkipProps(Rest(fdto, rest.rest)) && cp' + Size(rest') == cp + Size(rest)
  {
    hide Fdt.St, Fdt.Strs, Encodes, Has, HasFirst, TagAt, Abs, SkipLeaves, Walk.NextSubnode, SkipProps;
    CursorHead(fdto.St(), fdto.Strs(), cp, rest);
    LeavesCursor(fdto.St(), fdto.Strs(), cp + Width(rest), rest.rest);
    Traverse.NextSubnodeHas(fdto.St(), cp, rest);
    next := FdtCore.NextSubnode(fdto, subnode);
    cp', rest' := SkipLeaves(cp + Width(rest), rest.rest).0, SkipLeaves(cp + Width(rest), rest.rest).1;
  }

  /** A merge into a child is a step of the merge into its parent. */
  lemma KidStep(was: Tree, mid: Tree, q: Path, b: Tree, name: bytes, body: Tree)
    requires IsNode(was, q) && mid == WithBody(was, q, WithChild(b, name))
    ensures IsNode(mid, q) && BodyAt(mid, q) == WithChild(b, name) && ChildAt(WithChild(b, name), name).Some?
    ensures var i := Inside(q, ChildAt(WithChild(b, name), name).value);
      IsNode(mid, i) && WithBody(mid, i, Merge(BodyAt(mid, i), body)) == WithBody(was, q, MergeKid(b, name, body))
  {
    hide IsNode, WithBody, BodyAt, Merge, Inside;
    AddedChild(b, name);
    var w := WithChild(b, name);
    var c := ChildAt(w, name).value;
    ChildIsNode(w, name);
    WithBodyAt(was, q, w, WithBody(w, c, Merge(BodyAt(w, c), body)));
    WithBodyInside(mid, q, c, Merge(BodyAt(w, c), body));
  }

  lemma ChildIsNode(t: Tree, name: bytes)
    requires ChildAt(t, name).Some?
    ensures IsNode(t, ChildAt(t, name).value)
  {
  }

  /** One round of the second loop of overlay_apply_node: a child is found or added, and merged into. */
  method ApplyKid(fdt: Fdt, target: int, fdto: Fdt, subnode: nat,
                  ghost p: Path, ghost f: Forest, ghost was: Tree, ghost q: Path, ghost b: Tree, ghost front: Kept,
                  ghost cp: nat, ghost rest: Forest)
    returns (ret: int)
    requires Editing(fdt, target, p, f, was, q, b, front) && AtKid(fdto, subnode, cp, rest)
    requires fdt != fdto && fdt.mem != fdto.mem
    modifies fdt, fdt.mem
    ensures ret == 0 || ret == -NOSPACE
    ensures rest.Node? && rest.item.Begin?
    ensures ret == 0 ==> Editing(fdt, target, p, f, was, q, MergeKid(b, rest.item.name, Rest(fdto, rest.body)), front)
    ensures ret != 0 ==> fdt.Valid() && NodeEdited(f, fdt.forest, p) && fdt.Front() == front
    ensures AtKid(fdto, subnode, cp, rest)
    ensures Taken(ret, old(fdt.DataEnd()), fdt.DataEnd(), KidRoom(rest.item.name) + Room(Rest(fdto, rest.body)),
                  front.totalsize)
    decreases Size(rest), 3
  {
    hide *;
    KidSource(fdto, subnode, cp, rest);
    ghost var end, total, room := fdt.DataEnd(), front.totalsize, Room(Rest(fdto, rest.body));
    var name := NodeName(fdto, subnode, cp, rest);
    var nnode;
    ghost var c;
    nnode, c := FindOrAdd(fdt, target, name, p, f, was, q, b, front);
    if nnode < 0 {
      EditingFacts(fdt, target, p, f, was, q, b, front);
      TakenWithin(nnode, end, fdt.DataEnd(), KidRoom(name), KidRoom(name) + room, total);
      return nnode;
    }
    ghost var w, mid0 := WithChild(b, name), fdt.DataEnd();
    EditingFacts(fdt, target, p, f, was, q, w, front);
    ghost var g, mid := fdt.forest, fdt.Tree();
    KidStep(was, mid, q, b, name, Rest(fdto, rest.body));
    ChildFacts(fdt, nnode, p, c, name, q, w);
    FrontTotal(fdt);
    ret := ApplyNode(fdt, nnode, fdto, subnode, Inside(p, c), cp, rest);
    TakenMore(ret, end, mid0, fdt.DataEnd(), KidRoom(name), room, total);
    EditedUp(g, fdt.forest, p, c);
    EditedTrans(f, g, fdt.forest, p);
    if ret == 0 {
      KidDone(fdt, target, p, f, g, was, q, MergeKid(b, name, Rest(fdto, rest.body)), front);
    }
  }

  lemma EditingFacts(fdt: Fdt, target: int, p: Path, f: Forest, was: Tree, q: Path, b: Tree, front: Kept)
    requires Editing(fdt, target, p, f, was, q, b, front)
    ensures fdt.Valid() && fdt.Laid() && NodeEdited(f, fdt.forest, p) && fdt.Front() == front && IsNode(was, q)
    ensures fdt.Tree() == WithBody(was, q, b) && IsPath(fdt.forest, p) && At(fdt.forest, p).Node?
    ensures AbsPath(fdt.forest, p) == q
    ensures -INT_MAX - 1 <= target <= INT_MAX && target == 4 * Pos(fdt.forest, p)
  {
    hide Fdt.St, Fdt.Strs, Fdt.Front, Abs, Encodes, Named;
  }

  lemma ChildFacts(fdt: Fdt, nnode: int, p: Path, c: Path, name: bytes, q: Path, w: Tree)
    requires ChildTarget(fdt, nnode, p, c, name) && AbsPath(fdt.forest, p) == q && IsNode(fdt.Tree(), q)
    requires BodyAt(fdt.Tree(), q) == w
    ensures IsPath(At(fdt.forest, p).body, c) && Target(fdt, nnode, Inside(p, c)) && ChildAt(w, name).Some?
    ensures IsPath(fdt.forest, Inside(p, c)) && AbsPath(fdt.forest, Inside(p, c)) == Inside(q, ChildAt(w, name).value)
  {
    hide Fdt.St, Fdt.Strs, Fdt.Front, Abs, Encodes, Named;
  }

  lemma KidDone(fdt: Fdt, target: int, p: Path, f: Forest, g: Forest, was: Tree, q: Path, b: Tree, front: Kept)
    requires fdt.Valid() && NodeEdited(g, fdt.forest, p) && NodeEdited(f, fdt.forest, p) && fdt.Front() == front
    requires IsPath(g, p) && AbsPath(g, p) == q && target == 4 * Pos(g, p) && -INT_MAX - 1 <= target <= INT_MAX
    requires IsNode(was, q) && fdt.Tree() == WithBody(was, q, b)
    ensures Editing(fdt, target, p, f, was, q, b, front)
  {
    hide Fdt.St, Fdt.Strs, Fdt.Front, Abs, Encodes, Named;
    TargetStays(fdt, target, p, g);
  }

  /** The second loop of overlay_apply_node: the children. */
  method ApplyKids(fdt: Fdt, target: int, fdto: Fdt, node: int,
                   ghost p: Path, ghost f: Forest, ghost was: Tree, ghost q: Path, ghost b0: Tree, ghost front: Kept,
                   ghost pos: nat, ghost n: Forest)
    returns (ret: int)
    requires Editing(fdt, target, p, f, was, q, b0, front) && Source(fdto, node, pos, n) && n.Node?
    requires fdt != fdto && fdt.mem != fdto.mem
    modifies fdt, fdt.mem
    ensures ret == 0 || ret == -NOSPACE
    ensures ret == 0 ==> Editing(fdt, target, p, f, was, q, MergeKids(b0, Rest(fdto, n.body)), front)
    ensures ret != 0 ==> fdt.Valid() && NodeEdited(f, fdt.forest, p) && fdt.Front() == front
    ensures Taken(ret, old(fdt.DataEnd()), fdt.DataEnd(), KidsRoom(Rest(fdto, n.body)), front.totalsize)
    decreases Size(n), 1
  {
    hide *;
    ghost var b, o, end, total := b0, Rest(fdto, n.body), fdt.DataEnd(), front.totalsize;
    TakenNone(end, total);
    KidsRoomSkipped(o);
    var subnode;
    ghost var cp, rest;
    subnode, cp, rest := FirstKid(fdto, node, pos, n);
    KidsSkipped(b, o);
    ret := 0;
    while subnode >= 0
      invariant Editing(fdt, target, p, f, was, q, b, front) && AtKid(fdto, subnode, cp, rest) && ret == 0
      invariant MergeKids(b, Rest(fdto, rest)) == MergeKids(b0, o) && Size(rest) < Size(n)
      invariant Taken(0, end, fdt.DataEnd(), KidsRoom(o) - KidsRoom(Rest(fdto, rest)), total)
      decreases Size(rest)
    {
      ghost var mid, x, y := fdt.DataEnd(), KidsRoom(o) - KidsRoom(Rest(fdto, rest)), KidsRoom(Rest(fdto, rest));
      ret := ApplyKid(fdt, target, fdto, subnode, p, f, was, q, b, front, cp, rest);
      KidsRoomOne(fdto, subnode, cp, rest);
      TakenMore(ret, end, mid, fdt.DataEnd(), x, y - KidsRoom(Rest(fdto, rest.rest)), total);
      if ret != 0 {
        TakenWithin(ret, end, fdt.DataEnd(), x + y - KidsRoom(Rest(fdto, rest.rest)), KidsRoom(o), total);
        return;
      }
      KidsRoomSkipped(Rest(fdto, rest.rest));
      KidsOne(fdto, subnode, cp, rest, b);
      b := MergeKid(b, rest.item.name, Rest(fdto, rest.body));
      KidsSkipped(b, Rest(fdto, rest.rest));
      subnode, cp, rest := NextKid(fdto, subnode, cp, rest);
    }
    NoMoreKids(fdto, b, subnode, cp, rest);
  }

  lemma KidsOne(fdto: Fdt, subnode: nat, cp: nat, rest: Forest, b: Tree)
    requires AtKid(fdto, subnode, cp, rest)
    ensures rest.Node? && rest.item.Begin?
    ensures MergeKids(b, Rest(fdto, rest)) == MergeKids(MergeKid(b, rest.item.name, Rest(fdto, rest.body)),
                                                        Rest(fdto, rest.rest))
  {
    hide Fdt.St, Fdt.Strs, Encodes, Has, TagAt;
  }

  lemma KidsRoomOne(fdto: Fdt, subnode: nat, cp: nat, rest: Forest)
    requires AtKid(fdto, subnode, cp, rest)
    ensures rest.Node? && rest.item.Begin?
    ensures KidsRoom(Rest(fdto, rest)) ==
            KidRoom(rest.item.name) + Room(Rest(fdto, rest.body)) + KidsRoom(Rest(fdto, rest.rest))
  {
    hide Fdt.St, Fdt.Strs, Encodes, Has, TagAt, KidRoom, PropsRoom;
  }

  lemma NoMoreKids(fdto: Fdt, b: Tree, subnode: int, cp: nat, rest: Forest)
    requires AtKid(fdto, subnode, cp, rest) && subnode < 0
    ensures MergeKids(b, Rest(fdto, rest)) == b && KidsRoom(Rest(fdto, rest)) == 0
  {
    hide Fdt.St, Fdt.Strs, Encodes, Has, TagAt;
  }

  /**
   * overlay_apply_node. On success the base tree is the old one with the overlay node merged into the
   * target: its properties override, its children are merged recursively. All the offsets that the
   * loops hold on to stay valid, because every edit lies behind them.
   */
  method ApplyNode(fdt: Fdt, target: int, fdto: Fdt, node: int, ghost p: Path, ghost pos: nat, ghost n: Forest)
    returns (ret: int)
    requires Target(fdt, target, p) && Source(fdto, node, pos, n) && fdt != fdto && fdt.mem != fdto.mem && n.Node?
    modifies fdt, fdt.mem
    ensures ret == 0 || ret == -NOSPACE
    ensures fdt.Valid() && NodeEdited(old(fdt.forest), fdt.forest, p) && fdt.Front() == old(fdt.Front())
    ensures ret == 0 ==>
              fdt.Tree() == old(WithBody(fdt.Tree(), AbsPath(fdt.forest, p),
                                         Merge(BodyAt(fdt.Tree(), AbsPath(fdt.forest, p)), Rest(fdto, n.body))))
    ensures Taken(ret, old(fdt.DataEnd()), fdt.DataEnd(), Room(Rest(fdto, n.body)), old(fdt.totalsize))
    decreases Size(n), 2
  {
    hide *;
    StartEditing(fdt, target, p);
    FrontTotal(fdt);
    ghost var end, total := fdt.DataEnd(), fdt.totalsize;
    ghost var f, was, q, front := fdt.forest, fdt.Tree(), AbsPath(fdt.forest, p), fdt.Front();
    ghost var b0, o := BodyAt(was, q), Rest(fdto, n.body);
    ghost var b;
    RoomIs(o);
    ret, b := ApplyProps(fdt, target, fdto, node, p, f, was, q, b0, front, pos, n);
    ghost var mid := fdt.DataEnd();
    if ret != 0 {
      TakenWithin(ret, end, mid, PropsRoom(o), Room(o), total);
      EditingFacts(fdt, target, p, f, was, q, b, front);
      return;
    }
    ret := ApplyKids(fdt, target, fdto, node, p, f, was, q, b, front, pos, n);
    MergeIs(b0, o);
    TakenMore(ret, end, mid, fdt.DataEnd(), PropsRoom(o), KidsRoom(o), total);
    if ret == 0 {
      EditingFacts(fdt, target, p, f, was, q, MergeKids(b, o), front);
    }
  }

  lemma RoomIs(t: Tree)
    ensures Room(t) == PropsRoom(t) + KidsRoom(t)
  {
  }

  lemma MergeIs(b: Tree, o: Tree)
    ensures Merge(b, o) == MergeKids(MergeProps(b, o), o)
  {
  }
}
