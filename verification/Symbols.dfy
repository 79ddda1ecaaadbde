/** libfdt/fdt_overlay.c: overlay_symbol_update. */
module Symbols {
  // The symbols of the overlay are rewritten to paths of the base. The path of a target is printed by fdt_get_path
  // straight into the property that was made for it, in the blob that fdt_get_path walks over.

  import opened Bytes
  import opened Tags
  import opened Blob
  import opened Forests
  import opened Edits
  import opened Trees
  import opened Walk
  import opened Merging
  import opened ReadWrite
  import opened Applying
  import opened Overlay
  import opened Renumber
  import opened References
  import opened Conflicts
  import opened Targets
  import opened Paths
  import FdtCore
  import ReadOnly
  import Traverse
  import InPlace

  const SYMBOLS: bytes := [0x5f, 0x5f, 0x73, 0x79, 0x6d, 0x62, 0x6f, 0x6c, 0x73, 0x5f, 0x5f]  // "__symbols__"
  const OVERLAY_DIR: bytes := [SLASH] + OVERLAY  // "/__overlay__"

  // ---------- Reading a symbol ----------

  /**
   * What a symbol of the overlay says: nothing well-formed, a place outside all fragments, or a place in a fragment.
   */
  datatype Parsed = Bad | Elsewhere | In(fragment: bytes, rel: bytes)

  /** v is a string with a single terminator that starts with a slash. */
  predicate IsSymbol(v: bytes) {
    v != [] && v[0] == SLASH && 0 !in v[..|v| - 1] && v[|v| - 1] == 0
  }

  /** v is the symbol "/<fragment>/__overlay__" or "/<fragment>/__overlay__/<rel>". */
  predicate Spells(v: bytes, fragment: bytes, rel: bytes) {
    SLASH !in fragment &&
    (v == [SLASH] + fragment + OVERLAY_DIR + [SLASH] + rel + [0] ||
     (rel == [] && v == [SLASH] + fragment + OVERLAY_DIR + [0]))
  }

  /** Reading a symbol as overlay_symbol_update does. */
  method ParseSymbol(v: bytes) returns (r: Parsed)
    ensures r == Parse(v)
  {
    hide Spells;
    ParseMeans(v);
    var pathLen := |v|;
    if pathLen < 1 || FindNul(v, 0) != pathLen - 1 {
      return Bad;
    }
    if v[0] != SLASH {
      return Bad;
    }
    var s := FindSlash(v, 1);
    if s >= |v| {
      return Elsewhere;
    }
    var len := |OVERLAY_DIR| + 1;
    if pathLen - s > len && v[s..s + len] == OVERLAY_DIR + [SLASH] {
      return In(v[1..s], v[s + len..pathLen - 1]);
    } else if pathLen - s == len && v[s..s + len - 1] == OVERLAY_DIR {
      return In(v[1..s], []);
    } else {
      return Elsewhere;
    }
  }

  /** The same as a function. */
  function Parse(v: bytes): Parsed {
    if |v| < 1 || FindNul(v, 0) != |v| - 1 || v[0] != SLASH then Bad
    else
      var s, len := 1 + FirstSlash(v[1..]), |OVERLAY_DIR| + 1;
      if s >= |v| then Elsewhere
      else if |v| - s > len && v[s..s + len] == OVERLAY_DIR + [SLASH] then In(v[1..s], v[s + len..|v| - 1])
      else if |v| - s == len && v[s..s + len - 1] == OVERLAY_DIR then In(v[1..s], [])
      else Elsewhere
  }

  lemma ParseMeans(v: bytes)
    ensures Parse(v) == Bad <==> !IsSymbol(v)
  {
  }

  /** Exactly the symbols spelled with a fragment and a relative path are read as such. */
  lemma ParseExact(v: bytes, fragment: bytes, rel: bytes)
    ensures Parse(v) == In(fragment, rel) <==> IsSymbol(v) && Spells(v, fragment, rel)
  {
    hide Parse, IsSymbol, Spells;
    if Parse(v) == In(fragment, rel) {
      ParseSpells(v, fragment, rel);
    }
    if IsSymbol(v) && Spells(v, fragment, rel) {
      SpellsParse(v, fragment, rel);
    }
  }

  lemma ParseSpells(v: bytes, fragment: bytes, rel: bytes)
    requires Parse(v) == In(fragment, rel)
    ensures IsSymbol(v) && Spells(v, fragment, rel)
  {
    hide FindNul;
    ParseMeans(v);
    var s := 1 + FirstSlash(v[1..]);
    assert v[1..][..s - 1] == v[1..s];
    SplitAt(v, s);
  }

  lemma SpellsParse(v: bytes, fragment: bytes, rel: bytes)
    requires IsSymbol(v) && Spells(v, fragment, rel)
    ensures Parse(v) == In(fragment, rel)
  {
    hide FindNul;
    ParseMeans(v);
    var s := 1 + |fragment|;
    assert v[1..s] == fragment && v[1..][..|fragment|] == fragment;
    assert v[s] == SLASH && v[s] == v[1..][|fragment|];
    FirstSlashIs(v[1..], |fragment|);
    if v == [SLASH] + fragment + OVERLAY_DIR + [SLASH] + rel + [0] {
      assert v[s..s + |OVERLAY_DIR| + 1] == OVERLAY_DIR + [SLASH];
      assert v[s + |OVERLAY_DIR| + 1..|v| - 1] == rel;
    } else {
      assert v[s..s + |OVERLAY_DIR|] == OVERLAY_DIR;
    }
  }

  lemma SplitAt(v: bytes, s: nat)
    requires 1 <= s < |v| && v[0] == SLASH && v[|v| - 1] == 0
    ensures var len := |OVERLAY_DIR| + 1;
      && (|v| - s > len && v[s..s + len] == OVERLAY_DIR + [SLASH] ==>
            v == [SLASH] + v[1..s] + OVERLAY_DIR + [SLASH] + v[s + len..|v| - 1] + [0])
      && (|v| - s == len && v[s..s + len - 1] == OVERLAY_DIR ==> v == [SLASH] + v[1..s] + OVERLAY_DIR + [0])
  {
    var len := |OVERLAY_DIR| + 1;
    assert v == [v[0]] + v[1..s] + v[s..];
    if |v| - s > len && v[s..s + len] == OVERLAY_DIR + [SLASH] {
      assert v[s..] == v[s..s + len] + v[s + len..|v| - 1] + [v[|v| - 1]];
      assert v == [SLASH] + v[1..s] + (OVERLAY_DIR + [SLASH]) + v[s + len..|v| - 1] + [0];
    }
    if |v| - s == len && v[s..s + len - 1] == OVERLAY_DIR {
      assert v[s..] == v[s..s + len - 1] + [v[|v| - 1]];
    }
  }

  // ---------- Names on the way to a node ----------

  /** The names on the way to the node at place k, its own included. */
  ghost function NamesAt(t: Tree, k: Path): (r: seq<bytes>)
    requires IsNode(t, k)
    ensures |r| >= 1
    decreases k
  {
    match k
    case Here => [t.name]
    case Next(q) => NamesAt(t.rest, q)
    case Into(q) => [t.name] + NamesAt(t.body, q)
  }

  lemma {:induction false} NamesToAbs(f: Forest, strs: bytes, p: Path)
    requires Wf(f) && Named(f, strs) && NodePlace(f, p)
    ensures IsNode(Abs(f, strs), AbsPath(f, p)) && NamesTo(f, p) == NamesAt(Abs(f, strs), AbsPath(f, p))
    decreases p
  {
    match p
    case Here =>
    case Next(q) => NamesToAbs(f.rest, strs, q);
    case Into(q) => NamesToAbs(f.body, strs, q);
  }

  /** All names below t are components of paths. */
  ghost predicate Clean(t: Tree) {
    match t
    case Nil => true
    case PropT(_, _, rest) => Clean(rest)
    case NodeT(name, body, rest) => name != [] && SLASH !in name && 0 !in name && Clean(body) && Clean(rest)
  }

  /** A tree with one root without a name, and names that are components of paths below it. */
  ghost predicate CleanRoot(t: Tree) {
    t.NodeT? && t.name == [] && Clean(t.body) && t.rest == Nil
  }

  lemma {:induction false} CleanForest(f: Forest, strs: bytes)
    requires Wf(f) && Named(f, strs) && Clean(Abs(f, strs))
    ensures NoSlash(f)
  {
    if f != Empty {
      CleanForest(f.rest, strs);
      if f.Node? {
        CleanForest(f.body, strs);
      }
    }
  }

  lemma {:induction false} CleanNames(t: Tree, k: Path)
    requires Clean(t) && IsNode(t, k)
    ensures forall x :: x in NamesAt(t, k) ==> x != [] && SLASH !in x && 0 !in x
    decreases k
  {
    match k
    case Here =>
    case Next(q) => CleanNames(t.rest, q);
    case Into(q) => CleanNames(t.body, q);
  }

  // ---------- The length of a path ----------

  /** The place of the parent. */
  ghost function ParentPlace(p: Path): Option<Path> {
    match p
    case Here => None
    case Next(q) => (match ParentPlace(q) case None => None case Some(r) => Some(Next(r)))
    case Into(q) => (match ParentPlace(q) case None => Some(Here) case Some(r) => Some(Into(r)))
  }

  /** The parent's offset comes before the node's own, and the node's name after the parent's. */
  lemma {:induction false} ParentMeans(f: Forest, pos: nat, p: Path)
    requires Wf(f) && NodePlace(f, p)
    ensures At(f, p).item.Begin?
    ensures match ParentPlace(p)
      case None => |Chain(f, pos, p)| == 1 && NamesTo(f, p) == [At(f, p).item.name]
      case Some(r) =>
        && NodePlace(f, r) && |Chain(f, pos, p)| >= 2
        && Chain(f, pos, p)[|Chain(f, pos, p)| - 2] == 4 * (pos + Pos(f, r))
        && NamesTo(f, p) == NamesTo(f, r) + [At(f, p).item.name]
    decreases p
  {
    hide Len, WfItem, Size;
    match p
    case Here =>
    case Next(q) => ParentMeans(f.rest, pos + Width(f), q);
    case Into(q) => ParentMeans(f.body, pos + Len(f.item), q);
  }

  lemma ParentInRoot(f: Forest, p: Path)
    requires Wf(f) && InRoot(f, p)
    ensures NodePlace(f, p) && At(f, p).item.Begin?
    ensures match ParentPlace(p)
      case None => p == Here
      case Some(r) =>
        && InRoot(f, r) && |Chain(f, 0, p)| >= 2 && Chain(f, 0, p)[|Chain(f, 0, p)| - 2] == 4 * Pos(f, r)
        && NamesTo(f, p) == NamesTo(f, r) + [At(f, p).item.name]
  {
    ParentMeans(f, 0, p);
  }

  /** Only the root has no name. */
  lemma NameOfPlace(fdt: Fdt, p: Path)
    requires fdt.Valid() && CleanRoot(fdt.Tree()) && InRoot(fdt.forest, p)
    ensures Wf(fdt.forest) && NodePlace(fdt.forest, p) && At(fdt.forest, p).item.Begin?
    ensures At(fdt.forest, p).item.name == [] <==> p == Here
    ensures Walk.NameOf(fdt.St(), 4 * Pos(fdt.forest, p)) == Some(At(fdt.forest, p).item.name)
    ensures NoSlash(fdt.forest)
    ensures 4 * Pos(fdt.forest, p) <= INT_MAX
  {
    hide Fdt.St, Fdt.Strs, Has, HasFirst, Walk.NameOf, Encodes, Named;
    var f, strs := fdt.forest, fdt.Strs();
    EncodesWf(fdt.St(), f);
    ParentInRoot(f, p);
    NodeAbs(f, p, strs);
    NodeAbs(f, Here, strs);
    if p != Here {
      CleanNames(fdt.Tree().body, AbsPath(f, p).tail);
      LastName(fdt.Tree().body, AbsPath(f, p).tail);
    }
    NodeParts(f, strs);
    CleanForest(f.body, strs);
    CleanForest(f.rest, strs);
    EncodesAt(fdt.St(), f, p);
    Traverse.HasHead(fdt.St(), Pos(f, p), At(f, p));
    Traverse.NameOfHas(fdt.St(), Pos(f, p), At(f, p));
    OffsetBound(fdt, p);
  }

  lemma {:induction false} LastName(t: Tree, k: Path)
    requires IsNode(t, k)
    ensures TreeAt(t, k).name in NamesAt(t, k)
    decreases k
  {
    match k
    case Here =>
    case Next(q) => LastName(t.rest, q);
    case Into(q) => LastName(t.body, q);
  }

  /** get_path_len: the length of the path that fdt_get_path prints. */
  method GetPathLen(fdt: Fdt, nodeoffset: int, ghost p: Path) returns (len: int)
    requires fdt.Valid() && CleanRoot(fdt.Tree()) && InRoot(fdt.forest, p) && nodeoffset == 4 * Pos(fdt.forest, p)
    ensures Wf(fdt.forest) && NodePlace(fdt.forest, p) && len == |PathString(NamesTo(fdt.forest, p))|
  {
    hide Fdt.St, Fdt.Strs, Fdt.Tree, Has, Walk.NameOf, Encodes, Named, Pos, Chain, NamesTo, At, Joined, CleanRoot,
         InRoot;
    NameOfPlace(fdt, p);
    len := 0;
    var offset := nodeoffset;
    ghost var q := p;
    ghost var want := |Joined(NamesTo(fdt.forest, p))|;
    while true
      invariant InRoot(fdt.forest, q) && NodePlace(fdt.forest, q) && offset == 4 * Pos(fdt.forest, q) && len >= 0
      invariant len + |Joined(NamesTo(fdt.forest, q))| == want
      decreases |NamesTo(fdt.forest, q)|
    {
      NameOfPlace(fdt, q);
      ParentInRoot(fdt.forest, q);
      var namelen := ReadOnly.GetName(fdt, offset);
      if namelen < 0 {
        return namelen;
      }
      if namelen == 0 {
        assert q == Here;
        break;
      }
      ghost var r := ParentPlace(q).value;
      JoinedSnoc(NamesTo(fdt.forest, r), At(fdt.forest, q).item.name);
      NameOfPlace(fdt, r);
      offset := ParentOffset(fdt, offset, q);
      if offset < 0 {
        return offset;
      }
      len := len + namelen + 1;
      q := r;
    }
    RootNames(fdt.forest);
    PathLength(NamesTo(fdt.forest, p), 0);
    if len == 0 {
      len := len + 1;
    }
  }

  lemma RootNames(f: Forest)
    requires Wf(f) && NodePlace(f, Here) && At(f, Here).item.Begin? && At(f, Here).item.name == []
    ensures Joined(NamesTo(f, Here)) == [SLASH]
  {
    assert NamesTo(f, Here)[..0] == [];
  }

  // ---------- The walk while values change ----------

  lemma {:induction false} AlikePreorder(f: Forest, g: Forest, pos: nat, d: int)
    requires Alike(f, g)
    ensures Traverse.Preorder(f, pos, d) == Traverse.Preorder(g, pos, d)
    decreases f
  {
    hide Len;
    AlikeSize(f, g);
    if f != Empty {
      AlikePreorder(f.rest, g.rest, pos + Width(f), d);
      if f.Node? {
        AlikePreorder(f.body, g.body, pos + Len(f.item), d + 1);
      }
    }
  }

  /** The nodes have the same names in both. */
  ghost predicate SameNames(a: bytes, b: bytes, nodes: seq<(int, int)>) {
    forall x :: x in nodes ==> Walk.NameOf(a, x.0) == Walk.NameOf(b, x.0)
  }

  lemma {:induction false} AlikeNames(a: bytes, b: bytes, f: Forest, g: Forest, pos: nat, d: int)
    requires Alike(f, g) && Wf(f) && Wf(g) && Has(a, pos, f) && Has(b, pos, g)
    ensures SameNames(a, b, Traverse.Preorder(f, pos, d))
    decreases f
  {
    hide Len, Has, HasFirst, Walk.NameOf;
    AlikeSize(f, g);
    if f != Empty {
      Traverse.HasHead(a, pos, f);
      Traverse.HasHead(b, pos, g);
      AlikeNames(a, b, f.rest, g.rest, pos + Width(f), d);
      if f.Node? {
        NodeNamed(a, pos, f, Here);
        NodeNamed(b, pos, g, Here);
        AlikeNames(a, b, f.body, g.body, pos + Len(f.item), d + 1);
      }
    }
  }

  /** The walk from the root visits the same nodes, with the same names. */
  lemma SameWalk(a: bytes, b: bytes, f: Forest, g: Forest)
    requires Encodes(a, f) && Encodes(b, g) && Alike(f, g) && f.Node?
    ensures Nodes(a, 0, 0) == Nodes(b, 0, 0) && SameNames(a, b, Nodes(a, 0, 0))
  {
    hide Has, HasFirst, Walk.NameOf, Nodes, TagAt, Len;
    RootNodes(a, f);
    RootNodes(b, g);
    EncodesWf(a, f);
    EncodesWf(b, g);
    NodeNamed(a, 0, f, Here);
    NodeNamed(b, 0, g, Here);
    AlikePreorder(f.body, g.body, Len(f.item), 1);
    AlikeNames(a, b, f.body, g.body, Len(f.item), 1);
  }

  /** The walk goes on from each node that it visits. */
  lemma {:induction false} NodesAtIndex(st: bytes, w: seq<(int, int)>, i: nat)
    requires Nodes(st, 0, 0) == w && i < |w|
    ensures w[i].0 >= 0 && w[i].1 >= 0 && Nodes(st, w[i].0, w[i].1) == w[i..]
    ensures i + 1 < |w| ==> Walk.NextNode(st, w[i].0, w[i].1) == w[i + 1] && w[i + 1].0 > w[i].0
  {
    hide Walk.NextNode, Nodes;
    if i == 0 {
      NodesHead(st, 0, 0);
      assert w[0..] == w;
    } else {
      NodesAtIndex(st, w, i - 1);
      var (o, d) := w[i - 1];
      NodesStep(st, o, d);
      assert w[i - 1..][1..] == w[i..];
      assert w[i - 1..][0] == w[i - 1];
    }
    var (o, d) := w[i];
    NodesHead(st, o, d);
    NodesStep(st, o, d);
    var (next, e) := Walk.NextNode(st, o, d);
    assert w[i..][1..] == w[i + 1..] == Nodes(st, next, e);
    NodesHead(st, next, e);
    if i + 1 < |w| {
      assert w[i + 1..][0] == w[i + 1];
    }
  }

  // ---------- Printing a path into the blob ----------

  /** Bytes of the value of a property are overwritten. */
  method PatchValue(fdt: Fdt, prop: nat, idx: nat, val: bytes, ghost name: bytes, ghost p: Path, ghost v: bytes,
                    ghost t: Tree, ghost k: Path)
    requires Updated(fdt, p, name, prop, v, t, k) && fdt.Valid() && idx + |val| <= |v|
    modifies fdt, fdt.mem
    ensures Keeps(old(LayoutOf(fdt)), fdt) && Updated(fdt, p, name, prop, InPlace.Patched(v, idx, val), t, k)
  {
    hide Fdt.St, Fdt.Strs, Fdt.Front, Fdt.Tree, Fdt.Hdr, WithBody, Replace, Abs, Alike, KeptBut, Encodes, Named, Dec32,
         Traverse.PropPath, PropPlace,
         BodyAt, AbsPath, Updated, InPlace.Patched, IsNode, Get, Wf;
    ghost var l, t1 := LayoutOf(fdt), fdt.Tree();
    ghost var q := UpdatedFacts(fdt, p, name, prop, v, t, k);
    InPlace.PatchFound(fdt, prop, idx, val, name, p, q);
    ValueStored(fdt, l, p, name, q, prop, t1, InPlace.Patched(v, idx, val));
    UpdatedMore(fdt, l, p, name, prop, v, InPlace.Patched(v, idx, val), t, k, t1);
  }

  lemma UpdatedFacts(fdt: Fdt, p: Path, name: bytes, prop: int, v: bytes, t: Tree, k: Path) returns (q: Path)
    requires Updated(fdt, p, name, prop, v, t, k)
    ensures fdt.Valid() && IsPath(fdt.forest, p) && At(fdt.forest, p).Node? && AbsPath(fdt.forest, p) == k
    ensures IsNode(t, k)
    ensures fdt.Tree() == WithBody(t, k, Replace(BodyAt(t, k), name, v))
    ensures Traverse.PropPath(At(fdt.forest, p).body, fdt.Strs(), name) == Some(q) && IsPath(fdt.forest, Inside(p, q))
    ensures PropPlace(fdt.forest, Inside(p, q)) && prop == 4 * Pos(fdt.forest, Inside(p, q))
    ensures At(fdt.forest, Inside(p, q)).item.value == v
    ensures Wf(fdt.forest) && Named(fdt.forest, fdt.Strs()) && IsNode(fdt.Tree(), k)
    ensures Get(BodyAt(fdt.Tree(), k), name) == Some(v)
    ensures prop + 12 + |v| <= |fdt.St()| && fdt.St()[prop + 12..prop + 12 + |v|] == v
  {
    hide Fdt.St, Fdt.Strs, Fdt.Front, Abs, Alike, Encodes, Dec32, Get, Traverse.PropPath, Cells, Named, Wf, WithBody,
         Replace;
    var f, body := fdt.forest, At(fdt.forest, p).body;
    q := Traverse.PropPath(body, fdt.Strs(), name).value;
    EncodesWf(fdt.St(), f);
    NodeAbs(f, p, fdt.Strs());
    PropPathAbs(body, fdt.Strs(), name);
    InsideAt(f, p, q, Empty);
    EncodesAt(fdt.St(), f, Inside(p, q));
    ValueAt(fdt.St(), Pos(f, Inside(p, q)), At(f, Inside(p, q)));
    PropWords(fdt.St(), f, Inside(p, q));
  }

  /** The memory of the blob from the value on holds what the value holds. */
  lemma HoldsIn(fdt: Fdt, y: nat, u: bytes, x: nat, stack: seq<bytes>)
    requires fdt.StructIn() && y + |u| <= |fdt.St()| && fdt.St()[y..y + |u|] == u && x <= |u|
    ensures fdt.offDtStruct + y <= fdt.mem.Length
    ensures Holds(fdt.mem[fdt.offDtStruct + y..], x, stack) <==> Holds(u, x, stack)
  {
    hide Joined;
    var m := fdt.mem[fdt.offDtStruct + y..];
    assert m[..x] == u[..x] by {
      forall i | 0 <= i < x ensures m[i] == u[i] {
        assert u[i] == fdt.St()[y..y + |u|][i];
      }
    }
  }

  lemma PushHolds(u: bytes, x: nat, name: bytes, stack: seq<bytes>)
    requires Holds(u, x, stack) && x + |name| + 1 <= |u| && SLASH !in name
    ensures var w := InPlace.Patched(InPlace.Patched(u, x, name), x + |name|, [SLASH]);
      Holds(w, x + |name| + 1, stack + [name]) && w[x + |name| + 1..] == u[x + |name| + 1..]
  {
    hide Joined;
    var a := InPlace.Patched(u, x, name);
    var w := InPlace.Patched(a, x + |name|, [SLASH]);
    JoinedSnoc(stack, name);
    assert w[..x + |name| + 1] == u[..x] + (name + [SLASH]);
    forall z | z in stack + [name] ensures SLASH !in z {
    }
  }

  /** A component is pushed onto the path in the value. */
  method PushInto(fdt: Fdt, prop: nat, r: nat, component: bytes, ghost stack: seq<bytes>, ghost n: nat,
                  ghost name: bytes, ghost p: Path, ghost u: bytes, ghost t: Tree,
                    ghost k: Path) returns (ghost w: bytes)
    requires Updated(fdt, p, name, prop, u, t, k) && fdt.Valid() && Holds(u, r, stack)
    requires r + |component| + 1 <= n <= |u| && SLASH !in component
    modifies fdt, fdt.mem
    ensures |w| == |u| && w[n..] == u[n..] && Keeps(old(LayoutOf(fdt)), fdt) && Updated(fdt, p, name, prop, w, t, k)
    ensures Holds(w, r + |component| + 1, stack + [component])
  {
    hide Fdt.St, Fdt.Strs, Fdt.Front, Fdt.Tree, Fdt.Hdr, Joined, Updated, InPlace.Patched, Encodes, Named, Keeps, Holds;
    ghost var l := LayoutOf(fdt);
    PushHolds(u, r, component, stack);
    PatchValue(fdt, prop, r, component, name, p, u, t, k);
    KeepsChanges(l, fdt);
    ghost var m := LayoutOf(fdt);
    PatchValue(fdt, prop, r + |component|, [SLASH], name, p, InPlace.Patched(u, r, component), t, k);
    KeepsTrans(l, m, fdt);
    w := InPlace.Patched(InPlace.Patched(u, r, component), r + |component|, [SLASH]);
    TailKept(u, w, r + |component| + 1, n);
  }

  /** Popping components off the path in the value, down to the depth of the next node. */
  method PopInto(fdt: Fdt, prop: nat, x: nat, pdepth: nat, depth: nat, ghost stack: seq<bytes>,
                 ghost name: bytes, ghost p: Path, ghost u: bytes, ghost t: Tree, ghost k: Path) returns (r: nat,
                   rdepth: nat)
    requires Updated(fdt, p, name, prop, u, t, k) && x <= |u|
    requires Holds(u, x, stack) && pdepth == |stack| && (pdepth > depth ==> depth >= 1)
    ensures Holds(u, r, Popped(stack, depth)) && rdepth == |Popped(stack, depth)| && r <= x
  {
    hide Fdt.St, Fdt.Strs, Fdt.Front, Fdt.Tree, Fdt.Hdr, Joined, Updated, Encodes, Named, Holds, Popped;
    ghost var q := UpdatedFacts(fdt, p, name, prop, u, t, k);
    var start := fdt.offDtStruct + prop + 12;
    HoldsIn(fdt, prop + 12, u, x, stack);
    r, rdepth := PopTo(fdt.mem, start, x, pdepth, depth, stack);
    HoldsLength(u, x, stack);
    PoppedLength(stack, depth);
    HoldsLength(fdt.mem[start..], r, Popped(stack, depth));
    HoldsIn(fdt, prop + 12, u, r, Popped(stack, depth));
  }

  /** One round of the loop of fdt_get_path when the buffer is the value of a property of the blob itself. */
  method VisitInto(fdt: Fdt, offset: nat, depth: nat, prop: nat, n: nat, x: nat, pdepth: nat, ghost stack: seq<bytes>,
                   ghost name: bytes, ghost p: Path, ghost u: bytes, ghost t: Tree, ghost k: Path)
    returns (r: nat, rdepth: nat, err: int, ghost w: bytes)
    requires Updated(fdt, p, name, prop, u, t, k) && fdt.Valid() && offset <= INT_MAX && n <= |u| && x <= n
    requires Holds(u, x, stack) && pdepth == |stack| && (pdepth > depth ==> depth >= 1)
    requires Walk.NameOf(fdt.St(), offset).Some? && SLASH !in Walk.NameOf(fdt.St(), offset).value
    modifies fdt, fdt.mem
    ensures err == 0 && r <= n && |w| == |u| && w[n..] == u[n..] && Keeps(old(LayoutOf(fdt)), fdt)
    ensures Updated(fdt, p, name, prop, w, t, k)
    ensures var s := Visit(stack, depth, old(Walk.NameOf(fdt.St(), offset).value), n); Holds(w, r, s) && rdepth == |s|
  {
    hide Fdt.St, Fdt.Strs, Fdt.Front, Fdt.Tree, Fdt.Hdr, Walk.NameOf, Joined, Walk.CheckNode, Updated, Encodes, Named,
         Keeps, Holds, Popped;
    err, w := 0, u;
    KeepsSelf(fdt);
    r, rdepth := PopInto(fdt, prop, x, pdepth, depth, stack, name, p, u, t, k);
    HoldsLength(u, r, Popped(stack, depth));
    if rdepth >= depth {
      var namelen := ReadOnly.GetName(fdt, offset);
      if namelen < 0 {
        return r, rdepth, namelen, w;
      }
      if r + namelen + 1 <= n {
        var component := FdtCore.StSlice(fdt, offset + 4, namelen);
        w := PushInto(fdt, prop, r, component, Popped(stack, depth), n, name, p, u, t, k);
        r, rdepth := r + namelen + 1, rdepth + 1;
      }
    }
  }

  lemma KeepsChanges(l: Layout, fdt: Fdt)
    requires Keeps(l, fdt)
    ensures fdt.Valid() && Changes(l, LayoutOf(fdt))
  {
  }

  lemma TailKept(u: bytes, w: bytes, a: nat, n: nat)
    requires |w| == |u| && a <= n <= |u| && w[a..] == u[a..]
    ensures w[n..] == u[n..]
  {
    assert w[n..] == w[a..][n - a..] && u[n..] == u[a..][n - a..];
  }

  /**
   * The walk w at its node number i: the node to be found is still to come, and what is on the stack leads to its path.
   */
  ghost predicate OnTheWay(st: bytes, w: seq<(int, int)>, i: nat, target: int, stack: seq<bytes>, n: int,
                           want: Option<seq<bytes>>) {
    i < |w| && Super(w[i..], target, -1, 0).Some? && Scan(st, w[i..], target, stack, n) == want && Tidy(st, w[i..])
  }

  lemma OneNode(st: bytes, w: seq<(int, int)>, i: nat, target: int, stack: seq<bytes>, n: int, want: Option<seq<bytes>>)
    requires OnTheWay(st, w, i, target, stack, n, want)
    ensures var (off, depth) := w[i];
      && off <= target && w[i] in w && Walk.NameOf(st, off).Some? && SLASH !in Walk.NameOf(st, off).value
      && (off == 0 || depth >= 1)
      && var s := Visit(stack, depth, Walk.NameOf(st, off).value, n);
         && (off == target ==> want == if |s| >= depth + 1 then Some(s) else None)
         && (off != target ==> OnTheWay(st, w, i + 1, target, s, n, want))
  {
    hide Walk.NameOf, Visit;
    assert w[i..] == [w[i]] + w[i + 1..];
    SuperCons(w[i], w[i + 1..], target, -1, 0);
    ScanCons(st, w[i], w[i + 1..], target, stack, n);
    assert w[i] in w[i..];
    forall x | x in w[i + 1..] ensures x in w[i..] {
    }
  }

  lemma StartWalk(fdt: Fdt, p: Path, n: int)
    requires fdt.Valid() && InRoot(fdt.forest, p) && NoSlash(fdt.forest) && n >= 0
    ensures Wf(fdt.forest) && NodePlace(fdt.forest, p) && Nodes(fdt.St(), 0, 0) != []
    ensures Nodes(fdt.St(), 0, 0)[0] == (0, 0)
    ensures var names := NamesTo(fdt.forest, p);
      OnTheWay(fdt.St(), Nodes(fdt.St(), 0, 0), 0, 4 * Pos(fdt.forest, p), [], n,
               if |Joined(names)| <= n then Some(names) else None)
  {
    hide Fdt.St, Fdt.Strs, Nodes, Super, Encodes, Scan, Tidy, Joined, NoSlash;
    EncodesWf(fdt.St(), fdt.forest);
    SuperHas(fdt.St(), fdt.forest, p, -1, 0);
    ScanHas(fdt.St(), fdt.forest, p, n);
    TidyRoot(fdt.St(), fdt.forest);
    NodesHead(fdt.St(), 0, 0);
    var w := Nodes(fdt.St(), 0, 0);
    assert w[0..] == w;
  }

  /** The blob in the middle of the walk: only the value u of the property has changed. */
  ghost predicate Printing(fdt: Fdt, l: Layout, st: bytes, name: bytes, p: Path, prop: int, v: bytes, u: bytes, n: nat,
                           t: Tree, k: Path)
    reads fdt, fdt.mem
  {
    && Keeps(l, fdt) && Updated(fdt, p, name, prop, u, t, k) && |u| == |v| && n <= |u| && u[n..] == v[n..]
    && Encodes(st, l.forest) && l.forest.Node?
  }

  /** The walk over the blob as it is now is the walk over the blob as it was. */
  lemma PrintingWalk(fdt: Fdt, l: Layout, st: bytes, name: bytes, p: Path, prop: int, v: bytes, u: bytes, n: nat,
                     t: Tree, k: Path, i: nat)
    requires Printing(fdt, l, st, name, p, prop, v, u, n, t, k) && i < |Nodes(st, 0, 0)|
    ensures fdt.Valid() && fdt.InBounds() && fdt.StructIn() && Updated(fdt, p, name, prop, u, t, k)
    ensures Changes(l, LayoutOf(fdt))
    ensures var w := Nodes(st, 0, 0);
      && Walk.NameOf(fdt.St(), w[i].0) == Walk.NameOf(st, w[i].0) && w[i].0 >= 0 && w[i].1 >= 0
      && (i + 1 < |w| ==> Walk.NextNode(fdt.St(), w[i].0, w[i].1) == w[i + 1] && w[i + 1].0 > w[i].0)
  {
    hide Fdt.St, Fdt.Strs, Fdt.Front, Nodes, Walk.NextNode, Walk.NameOf, Encodes, Alike, Named, Updated;
    SameWalk(st, fdt.St(), l.forest, fdt.forest);
    NodesAtIndex(fdt.St(), Nodes(st, 0, 0), i);
  }

  lemma PrintingMore(fdt: Fdt, l: Layout, m: Layout, st: bytes, name: bytes, p: Path, prop: int, v: bytes, u: bytes,
                     w: bytes, n: nat, t: Tree, k: Path)
    requires Changes(l, m) && Keeps(m, fdt) && Updated(fdt, p, name, prop, w, t, k) && |w| == |u| == |v| && n <= |u|
    requires w[n..] == u[n..] == v[n..] && Encodes(st, l.forest) && l.forest.Node?
    ensures Printing(fdt, l, st, name, p, prop, v, w, n, t, k)
  {
    hide Fdt.St, Fdt.Strs, Fdt.Front, Encodes, Updated;
    KeepsTrans(l, m, fdt);
  }

  lemma PrintingFacts(fdt: Fdt, l: Layout, st: bytes, name: bytes, p: Path, prop: int, v: bytes, u: bytes, n: nat,
                      t: Tree, k: Path)
    requires Printing(fdt, l, st, name, p, prop, v, u, n, t, k)
    ensures Keeps(l, fdt) && Updated(fdt, p, name, prop, u, t, k) && |u| == |v| && n <= |u| && u[n..] == v[n..]
    ensures Encodes(st, l.forest) && l.forest.Node? && fdt.Valid() && Changes(l, LayoutOf(fdt))
  {
    hide Fdt.St, Fdt.Strs, Fdt.Front, Encodes, Updated;
  }

  /**
   * fdt_get_path for a node of a tree without slashes in its names, into the value of a property of the same tree. The
   * walk is not disturbed by what is written, nothing is written behind the buffer, and no other part of the blob
   * changes.
   */
  method GetPathInto(fdt: Fdt, nodeoffset: int, prop: nat, buflen: nat, ghost q: Path,
                     ghost name: bytes, ghost p: Path, ghost v: bytes, ghost t: Tree, ghost k: Path) returns (err: int,
                       ghost u: bytes)
    requires Updated(fdt, p, name, prop, v, t, k) && fdt.Valid() && InRoot(fdt.forest, q) && NoSlash(fdt.forest)
    requires buflen <= |v|
    requires nodeoffset == 4 * Pos(fdt.forest, q) <= INT_MAX
    modifies fdt, fdt.mem
    ensures old(Wf(fdt.forest)) && Keeps(old(LayoutOf(fdt)), fdt) && Updated(fdt, p, name, prop, u, t, k)
    ensures |u| == |v| && u[buflen..] == v[buflen..]
    ensures var path := old(PathString(NamesTo(fdt.forest, q)));
      && err == (if buflen < 2 || |path| + 1 > buflen then -NOSPACE else 0)
      && (err == 0 ==> u[..|path|] == path && u[|path|] == 0)
  {
    hide Fdt.St, Fdt.Strs, Fdt.Front, Fdt.Tree, Fdt.Hdr, Nodes, Walk.NextNode, Encodes, Pos, At, Walk.NameOf, Wf,
         NamesTo, Joined, NoSlash, Holds,
         Updated, Keeps, Printing, OnTheWay, Visit, IsPath, Changes, InPlace.Patched;
    u := v;
    KeepsSelf(fdt);
    StartWalk(fdt, q, buflen);
    ghost var l, st, names := LayoutOf(fdt), fdt.St(), NamesTo(fdt.forest, q);
    PathLength(names, buflen);
    if buflen < 2 {
      return -NOSPACE, u;
    }
    ghost var w, want := Nodes(st, 0, 0), if |Joined(names)| <= buflen then Some(names) else None;
    var pdepth: nat, x: nat := 0, 0;
    var offset, depth := 0, 0;
    ghost var stack: seq<bytes>, i: nat := [], 0;
    HoldsNone(v);
    KeepsChanges(l, fdt);
    PrintingMore(fdt, l, l, st, name, p, prop, v, v, v, buflen, t, k);
    while offset >= 0 && offset <= nodeoffset
      invariant Printing(fdt, l, st, name, p, prop, v, u, buflen, t, k)
      invariant OnTheWay(st, w, i, nodeoffset, stack, buflen, want)
      invariant i < |w| && w[i] == (offset, depth) && Holds(u, x, stack) && pdepth == |stack| && x <= buflen
      invariant (offset == 0 ==> stack == [])
      decreases |w| - i
    {
      OneNode(st, w, i, nodeoffset, stack, buflen, want);
      PrintingWalk(fdt, l, st, name, p, prop, v, u, buflen, t, k, i);
      PrintingFacts(fdt, l, st, name, p, prop, v, u, buflen, t, k);
      ghost var m, u0, component := LayoutOf(fdt), u, Walk.NameOf(st, offset).value;
      var e;
      x, pdepth, e, u := VisitInto(fdt, offset, depth, prop, buflen, x, pdepth, stack, name, p, u, t, k);
      stack := Visit(stack, depth, component, buflen);
      PrintingMore(fdt, l, m, st, name, p, prop, v, u0, u, buflen, t, k);
      if e < 0 {
        return e, u;
      }
      if offset == nodeoffset {
        PrintingFacts(fdt, l, st, name, p, prop, v, u, buflen, t, k);
        if pdepth < depth + 1 {
          return -NOSPACE, u;
        }
        PathHeld(u, x, names);
        if x > 1 {
          x := x - 1;
        }
        ghost var m1, u1 := LayoutOf(fdt), u;
        PatchValue(fdt, prop, x, [0], name, p, u, t, k);
        u := InPlace.Patched(u, x, [0]);
        Terminated(u1, x, u, PathString(names), buflen);
        KeepsTrans(l, m1, fdt);
        return 0, u;
      }
      PrintingWalk(fdt, l, st, name, p, prop, v, u, buflen, t, k, i);
      WayIndex(st, w, i + 1, nodeoffset, stack, buflen, want);
      offset, depth := FdtCore.NextNode(fdt, offset, depth);
      i := i + 1;
    }
    OneNode(st, w, i, nodeoffset, stack, buflen, want);
    PrintingWalk(fdt, l, st, name, p, prop, v, u, buflen, t, k, i);
    err := -BADOFFSET;
  }

  lemma WayIndex(st: bytes, w: seq<(int, int)>, i: nat, target: int, stack: seq<bytes>, n: int,
                 want: Option<seq<bytes>>)
    requires OnTheWay(st, w, i, target, stack, n, want)
    ensures i < |w|
  {
  }

  lemma Terminated(u: bytes, x: nat, w: bytes, path: bytes, n: nat)
    requires x < n <= |u| && |path| == x && u[..x] == path && w == InPlace.Patched(u, x, [0])
    ensures |w| == |u| && w[..x] == path && w[x] == 0 && w[n..] == u[n..]
  {
  }

  // ---------- One symbol, on trees ----------

  /** The path of a target: the one by which the fragment names it, or else the printed one. */
  ghost function TargetText(t: Tree, frag: Tree, k: Path): bytes
    requires IsNode(t, k)
  {
    TargetString(frag).GetOr(PathString(NamesAt(t, k)))
  }

  /** The value of a symbol in the base: the path of the target, a slash, and the relative path. */
  function NewValue(text: bytes, rel: bytes): bytes {
    (if |text| > 1 then text else []) + [SLASH] + rel + [0]
  }

  lemma TargetNode(t: Tree, frag: Tree)
    ensures TargetOf(t, frag).Ok? ==> IsNode(t, TargetOf(t, frag).value) || !t.NodeT?
    ensures TargetOf(t, frag).Err? ==> TargetOf(t, frag).error < 0
    ensures TargetOf(t, frag).Ok? && TargetString(frag).None? ==>
              TargetOf(t, frag) == Targets.Found(FirstWith(t, TargetWord(frag)))
    ensures TargetOf(t, frag).Ok? && TargetString(frag).Some? ==> TargetString(frag).value != []
  {
    hide TargetWord, FirstWith, StrAt;
    if TargetOf(t, frag).Ok? && TargetWord(frag) == 0 && t.NodeT? {
      PathNode(t, Here, StrAt(Get(frag, TARGET_PATH).value, 0).GetOr([]));
    }
  }

  lemma {:induction false} PathNode(t: Tree, k: Path, path: bytes)
    requires IsNode(t, k)
    ensures PathPlace(t, k, path).Some? ==> IsNode(t, PathPlace(t, k, path).value)
    decreases |path|
  {
    hide IsNode, BodyAt, FirstSlash;
    if path != [] {
      if path[0] == SLASH {
        PathNode(t, k, path[1..]);
      } else {
        SlashAfter(path);
        var n := FirstSlash(path);
        if ChildAt(BodyAt(t, k), path[..n]).Some? {
          ChildInside(t, k, path[..n], Nil);
          PathNode(t, Inside(k, ChildAt(BodyAt(t, k), path[..n]).value), path[n..]);
        }
      }
    }
  }

  /** One symbol: the node at sk is that of the base's symbols, o the overlay. */
  ghost function SymbolStep(t: Tree, sk: Path, o: Tree, name: bytes, v: bytes): Result<Tree> {
    match Parse(v)
    case Bad => Err(-BADVALUE)
    case Elsewhere => Ok(t)
    case In(fragment, rel) =>
      match Kid(o, fragment)
      case None => Err(-BADOVERLAY)
      case Some(frag) =>
        if Kid(frag, OVERLAY).None? then Err(-BADOVERLAY)
        else
          match TargetOf(t, frag)
          case Err(e) => Err(e)
          case Ok(k) =>
            if !IsNode(t, k) then Err(0)
            else Ok(WithBody(t, sk, Set(BodyAt(t, sk), name, NewValue(TargetText(t, frag, k), rel))))
  }

  /** The room that one symbol takes at most. */
  ghost function SymbolRoom(t: Tree, o: Tree, name: bytes, v: bytes): nat {
    match Parse(v)
    case Bad => 0
    case Elsewhere => 0
    case In(fragment, rel) =>
      match Kid(o, fragment)
      case None => 0
      case Some(frag) =>
        match TargetOf(t, frag)
        case Err(_) => 0
        case Ok(k) => if IsNode(t, k) then PropRoom(name, |NewValue(TargetText(t, frag, k), rel)|) else 0
  }

  // ---------- What setting a symbol does not change ----------

  lemma {:induction false} CleanReplace(b: Tree, name: bytes, v: bytes)
    ensures Clean(Replace(b, name, v)) == Clean(b)
  {
    if b.PropT? {
      CleanReplace(b.rest, name, v);
    }
  }

  lemma {:induction false} CleanSet(t: Tree, sk: Path, name: bytes, v: bytes)
    requires IsNode(t, sk)
    ensures Clean(t) ==> Clean(WithBody(t, sk, Set(BodyAt(t, sk), name, v)))
    ensures Clean(BodyAt(t, sk)) ==> Clean(Set(BodyAt(t, sk), name, v))
    decreases sk
  {
    match sk
    case Here => CleanReplace(t.body, name, v);
    case Next(q) =>
      CleanSet(t.rest, q, name, v);
      BesideBody(t, q, Set(BodyAt(t.rest, q), name, v));
    case Into(q) =>
      CleanSet(t.body, q, name, v);
      BelowBody(t, q, Set(BodyAt(t.body, q), name, v));
  }

  lemma BesideBody(t: Tree, q: Path, x: Tree)
    requires t != Nil && IsNode(t.rest, q)
    ensures IsNode(t, Next(q)) && BodyAt(t, Next(q)) == BodyAt(t.rest, q)
    ensures WithBody(t, Next(q), x) == t.(rest := WithBody(t.rest, q, x))
  {
  }

  lemma BelowBody(t: Tree, q: Path, x: Tree)
    requires t.NodeT? && IsNode(t.body, q)
    ensures IsNode(t, Into(q)) && BodyAt(t, Into(q)) == BodyAt(t.body, q)
    ensures WithBody(t, Into(q), x) == t.(body := WithBody(t.body, q, x))
  {
  }

  lemma OneTree(t: Tree, k: Path)
    requires t.NodeT? && t.rest == Nil && IsNode(t, k)
    ensures k == Here || (k.Into? && IsNode(t.body, k.tail))
  {
    NilPlace(if k == Here then Here else k.tail);
  }

  lemma NilPlace(k: Path)
    ensures !IsNode(Nil, k)
  {
  }

  lemma CleanRootSet(t: Tree, sk: Path, name: bytes, v: bytes)
    requires CleanRoot(t) && IsNode(t, sk)
    ensures CleanRoot(WithBody(t, sk, Set(BodyAt(t, sk), name, v)))
  {
    OneTree(t, sk);
    if sk == Here {
      CleanReplace(t.body, name, v);
    } else {
      CleanSet(t.body, sk.tail, name, v);
      BelowBody(t, sk.tail, Set(BodyAt(t, sk), name, v));
    }
  }

  /** The same node is found first, or none: its names are the same. */
  ghost predicate SameFirst(t: Tree, u: Tree, w: u32) {
    match FirstWith(t, w)
    case None => FirstWith(u, w).None?
    case Some(k) => FirstWith(u, w).Some? && NamesAt(u, FirstWith(u, w).value) == NamesAt(t, k)
  }

  lemma SameFirstNext(t: Tree, u: Tree, w: u32)
    requires t.PropT? && u.PropT? && SameFirst(t.rest, u.rest, w)
    ensures SameFirst(t, u, w)
  {
  }

  lemma SameFirstNode(t: Tree, u: Tree, w: u32)
    requires t.NodeT? && u.NodeT? && t.name == u.name && Phandle(t.body) == Phandle(u.body)
    requires SameFirst(t.body, u.body, w) && SameFirst(t.rest, u.rest, w)
    ensures SameFirst(t, u, w)
  {
    hide Phandle;
  }

  lemma {:induction false} FirstReplace(b: Tree, name: bytes, v: bytes, w: u32)
    ensures SameFirst(b, Replace(b, name, v), w)
  {
    if b.PropT? {
      if b.name != name {
        FirstReplace(b.rest, name, v, w);
      }
      SameFirstNext(b, Replace(b, name, v), w);
    }
  }

  lemma FirstSet(b: Tree, name: bytes, v: bytes, w: u32)
    ensures SameFirst(b, Set(b, name, v), w)
  {
    FirstReplace(b, name, v, w);
  }

  lemma PhandleSet(b: Tree, name: bytes, v: bytes)
    requires !IsPhandleName(name)
    ensures Phandle(Set(b, name, v)) == Phandle(b)
  {
    SetMeans(b, name, v, PHANDLE);
    SetMeans(b, name, v, LINUX_PHANDLE);
  }

  /** Setting a property that is no phandle does not disturb the search for phandles. */
  lemma {:induction false} FirstKept(t: Tree, sk: Path, name: bytes, v: bytes, w: u32)
    requires IsNode(t, sk) && !IsPhandleName(name)
    ensures SameFirst(t, WithBody(t, sk, Set(BodyAt(t, sk), name, v)), w)
    decreases sk
  {
    hide Phandle, SameFirst, Set;
    match sk
    case Here =>
      PhandleSet(t.body, name, v);
      FirstSet(t.body, name, v, w);
      FirstSelf(t.rest, w);
      SameFirstNode(t, WithBody(t, sk, Set(BodyAt(t, sk), name, v)), w);
    case Next(q) =>
      FirstKept(t.rest, q, name, v, w);
      BesideBody(t, q, Set(BodyAt(t.rest, q), name, v));
      if t.PropT? {
        SameFirstNext(t, WithBody(t, sk, Set(BodyAt(t, sk), name, v)), w);
      } else {
        FirstSelf(t.body, w);
        SameFirstNode(t, WithBody(t, sk, Set(BodyAt(t, sk), name, v)), w);
      }
    case Into(q) =>
      FirstKept(t.body, q, name, v, w);
      BelowBody(t, q, Set(BodyAt(t.body, q), name, v));
      PhandleBelow(t.body, q, name, v);
      FirstSelf(t.rest, w);
      SameFirstNode(t, WithBody(t, sk, Set(BodyAt(t, sk), name, v)), w);
  }

  lemma FirstSelf(t: Tree, w: u32)
    ensures SameFirst(t, t, w)
  {
  }

  /** A change inside a child changes no property of the node. */
  lemma {:induction false} BelowGet(b: Tree, q: Path, x: Tree, name: bytes)
    requires IsNode(b, q)
    ensures Get(WithBody(b, q, x), name) == Get(b, name)
    decreases q
  {
    match q
    case Here =>
    case Next(r) =>
      BesideBody(b, r, x);
      BelowGet(b.rest, r, x, name);
    case Into(r) =>
      BelowBody(b, r, x);
  }

  lemma PhandleBelow(b: Tree, q: Path, name: bytes, v: bytes)
    requires IsNode(b, q)
    ensures Phandle(WithBody(b, q, Set(BodyAt(b, q), name, v))) == Phandle(b)
  {
    BelowGet(b, q, Set(BodyAt(b, q), name, v), PHANDLE);
    BelowGet(b, q, Set(BodyAt(b, q), name, v), LINUX_PHANDLE);
  }

  lemma {:induction false} SetTwice(b: Tree, name: bytes, v: bytes, u: bytes)
    ensures Replace(Set(b, name, v), name, u) == Set(b, name, u)
  {
    ReplaceTwice(b, name, v, u);
  }

  // ---------- One symbol, on the blobs ----------

  lemma Assembled(u: bytes, text: bytes, rel: bytes)
    requires var x := if |text| > 1 then |text| else 0; |u| == x + |rel| + 2 && u[..x] == text[..x]
    ensures var x := if |text| > 1 then |text| else 0;
      InPlace.Patched(InPlace.Patched(InPlace.Patched(u, x, [SLASH]), x + 1, rel), x + 1 + |rel|, [0]) ==
        NewValue(text, rel)
  {
    var x := if |text| > 1 then |text| else 0;
    var a := InPlace.Patched(u, x, [SLASH]);
    assert a[..x + 1] == u[..x] + [SLASH];
    var b := InPlace.Patched(a, x + 1, rel);
    assert b[..x + 1 + |rel|] == a[..x + 1] + rel;
    var c := InPlace.Patched(b, x + 1 + |rel|, [0]);
    assert c == b[..x + 1 + |rel|] + [0];
  }

  /** The end of a symbol: a slash, the relative path and a terminator, behind the path of the target. */
  method WriteTail(fdt: Fdt, prop: nat, x: nat, rel: bytes, ghost text: bytes,
                   ghost name: bytes, ghost p: Path, ghost u: bytes, ghost t: Tree, ghost k: Path)
    requires Updated(fdt, p, name, prop, u, t, k) && fdt.Valid() && x == (if |text| > 1 then |text| else 0)
    requires |u| == x + |rel| + 2 && u[..x] == text[..x]
    modifies fdt, fdt.mem
    ensures Keeps(old(LayoutOf(fdt)), fdt) && Updated(fdt, p, name, prop, NewValue(text, rel), t, k)
  {
    hide Fdt.St, Fdt.Strs, Fdt.Front, Fdt.Tree, Fdt.Hdr, Updated, InPlace.Patched, Encodes, Named, Keeps, NewValue;
    ghost var l := LayoutOf(fdt);
    Assembled(u, text, rel);
    ghost var a := InPlace.Patched(u, x, [SLASH]);
    ghost var b := InPlace.Patched(a, x + 1, rel);
    PatchValue(fdt, prop, x, [SLASH], name, p, u, t, k);
    KeepsChanges(l, fdt);
    ghost var m := LayoutOf(fdt);
    PatchValue(fdt, prop, x + 1, rel, name, p, a, t, k);
    KeepsTrans(l, m, fdt);
    KeepsChanges(l, fdt);
    m := LayoutOf(fdt);
    PatchValue(fdt, prop, x + 1 + |rel|, [0], name, p, b, t, k);
    KeepsTrans(l, m, fdt);
  }

  /** In a tree with one root, every node lies in it. */
  lemma InOneRoot(fdt: Fdt, target: int, q: Path)
    requires fdt.Valid() && CleanRoot(fdt.Tree()) && Target(fdt, target, q) && IsPath(fdt.forest, q) && fdt.forest.Node?
    ensures InRoot(fdt.forest, q) && Wf(fdt.forest) && NodePlace(fdt.forest, q) && NoSlash(fdt.forest)
    ensures target == 4 * Pos(fdt.forest, q) && IsNode(fdt.Tree(), AbsPath(fdt.forest, q))
    ensures NamesTo(fdt.forest, q) == NamesAt(fdt.Tree(), AbsPath(fdt.forest, q))
  {
    hide Fdt.St, Fdt.Strs, Has, Encodes, Named;
    NodeHere(fdt, target, q);
    EncodesWf(fdt.St(), fdt.forest);
    OneTree(fdt.Tree(), AbsPath(fdt.forest, q));
    NamesToAbs(fdt.forest, fdt.Strs(), q);
    NameOfPlace(fdt, q);
  }

  /** The path of the target is written to the front of the value: printed, or copied from the fragment. */
  method WriteTarget(fdt: Fdt, fdto: Fdt, fragment: int, prop: nat, len: nat, path: Option<bytes>, ghost c: Path,
                     ghost text: bytes,
                     ghost name: bytes, ghost p: Path, ghost v: bytes, ghost t: Tree, ghost k: Path) returns (err: int,
                       ghost u: bytes)
    requires fdt != fdto && fdt.mem != fdto.mem && Updated(fdt, p, name, prop, v, t, k) && fdt.Valid()
    requires len == |text| > 1 && len + 1 <= |v|
    requires Target(fdt, 0, Here) && IsPath(fdt.forest, Here) && fdt.forest.Node? && CleanRoot(fdt.Tree())
    requires Target(fdto, fragment, c) && fdto.Valid() && IsPath(fdto.forest, c)
    requires match path
      case Some(s) => s == text
      case None =>
        (var r := TargetOf(fdt.Tree(), BodyOf(fdto, c));
         r.Ok? && IsNode(fdt.Tree(), r.value) && PathString(NamesAt(fdt.Tree(), r.value)) == text)
    modifies fdt, fdt.mem
    ensures err == 0 && Keeps(old(LayoutOf(fdt)), fdt) && Updated(fdt, p, name, prop, u, t, k) && |u| == |v|
    ensures u[..len] == text
  {
    hide Fdt.St, Fdt.Strs, Fdt.Front, Fdt.Tree, Fdt.Hdr, Updated, InPlace.Patched, Encodes, Named, Keeps, TargetOf,
         PathString, CleanRoot, InRoot;
    u := v;
    match path {
      case Some(s) =>
        PatchFront(v, s + [0]);
        PatchValue(fdt, prop, 0, s + [0], name, p, v, t, k);
        u := InPlace.Patched(v, 0, s + [0]);
        err := 0;
      case None =>
        var target, pathp;
        ghost var q;
        target, pathp, q := TargetOffset(fdt, fdto, fragment, c);
        if target < 0 {
          return target, u;
        }
        InOneRoot(fdt, target, q);
        OffsetBound(fdt, q);
        err, u := GetPathInto(fdt, target, prop, len + 1, q, name, p, v, t, k);
    }
  }

  lemma PatchFront(v: bytes, s: bytes)
    requires |s| <= |v| && s != []
    ensures InPlace.Patched(v, 0, s)[..|s| - 1] == s[..|s| - 1]
  {
  }

  /** The base between two symbols: the node of its symbols is at sp, place sk of the tree. */
  ghost predicate SymBase(fdt: Fdt, rootSym: int, sp: Path, sk: Path, front: Kept)
    reads fdt, fdt.mem
  {
    && fdt.Valid() && Target(fdt, 0, Here) && IsPath(fdt.forest, Here) && Target(fdt, rootSym, sp)
    && IsPath(fdt.forest, sp)
    && AbsPath(fdt.forest, sp) == sk && CleanRoot(fdt.Tree()) && fdt.Front() == front
  }

  lemma SymBaseFacts(fdt: Fdt, rootSym: int, sp: Path, sk: Path, front: Kept)
    requires SymBase(fdt, rootSym, sp, sk, front)
    ensures fdt.Valid() && fdt.Laid() && fdt.InBounds() && fdt.StructIn() && RwError(fdt.Hdr()) == 0
    ensures Target(fdt, 0, Here) && Target(fdt, rootSym, sp) && NodeOffset(fdt, rootSym, Some(sp))
    ensures IsPath(fdt.forest, sp) && IsPath(fdt.forest, Here)
    ensures fdt.forest.Node? && At(fdt.forest, sp).Node? && IsNode(fdt.Tree(), sk) && AbsPath(fdt.forest, sp) == sk
    ensures CleanRoot(fdt.Tree()) && fdt.Front() == front && fdt.Tree().NodeT?
    ensures -INT_MAX - 1 <= rootSym <= INT_MAX && rootSym == 4 * Pos(fdt.forest, sp)
  {
    hide Fdt.St, Fdt.Strs;
    LaidProbe(fdt);
    NodeHere(fdt, rootSym, sp);
    NodeHere(fdt, 0, Here);
  }

  /** A change below the node at sp keeps its offset, and the root's. */
  lemma SymEdited(fdt: Fdt, f: Forest, rootSym: int, sp: Path, sk: Path, front: Kept)
    requires fdt.Valid() && NodeEdited(f, fdt.forest, sp) && f.Node? && AbsPath(f, sp) == sk && fdt.Front() == front
    requires CleanRoot(fdt.Tree())
    requires -INT_MAX - 1 <= rootSym <= INT_MAX && rootSym == 4 * Pos(f, sp)
    ensures SymBase(fdt, rootSym, sp, sk, front)
  {
    hide Fdt.St, Fdt.Strs, Encodes, Named;
    EditedPlace(f, fdt.forest, sp);
    if sp != Here {
      assert fdt.forest == Put(f, sp, At(fdt.forest, sp));
    }
  }

  lemma SymKept(fdt: Fdt, l: Layout, rootSym: int, sp: Path, sk: Path, front: Kept)
    requires Keeps(l, fdt) && l.forest.Node? && IsPath(l.forest, sp) && At(l.forest, sp).Node?
    requires AbsPath(l.forest, sp) == sk && l.front == front
    requires -INT_MAX - 1 <= rootSym <= INT_MAX && rootSym == 4 * Pos(l.forest, sp) && CleanRoot(fdt.Tree())
    ensures SymBase(fdt, rootSym, sp, sk, front)
  {
    hide Fdt.St, Fdt.Strs, Encodes, Named;
    KeepsTarget(l, fdt, rootSym, sp);
    KeepsTarget(l, fdt, 0, Here);
  }

  /** The tree after a placeholder has been filled in. */
  lemma FilledIn(t: Tree, sk: Path, name: bytes, v: bytes, u: bytes, t1: Tree, t2: Tree)
    requires IsNode(t, sk) && t1 == WithBody(t, sk, Set(BodyAt(t, sk), name, v))
    requires IsNode(t1, sk) && t2 == WithBody(t1, sk, Replace(BodyAt(t1, sk), name, u))
    ensures t2 == WithBody(t, sk, Set(BodyAt(t, sk), name, u))
  {
    var b := BodyAt(t, sk);
    WithBodyAt(t, sk, Set(b, name, v), Set(b, name, u));
    SetTwice(b, name, v, u);
  }

  /** Looking up the target again after the placeholder has been made finds the node with the same path. */
  lemma TargetAgain(t: Tree, sk: Path, name: bytes, v: bytes, frag: Tree)
    requires t.NodeT? && IsNode(t, sk) && !IsPhandleName(name) && TargetOf(t, frag).Ok? && TargetString(frag).None?
    ensures var u := WithBody(t, sk, Set(BodyAt(t, sk), name, v));
      && IsNode(t, TargetOf(t, frag).value)
      && TargetOf(u, frag).Ok? && IsNode(u, TargetOf(u, frag).value)
      && NamesAt(u, TargetOf(u, frag).value) == NamesAt(t, TargetOf(t, frag).value)
  {
    hide WithBody, NamesAt;
    TargetNode(t, frag);
    FirstKept(t, sk, name, v, TargetWord(frag));
  }

  /** Makes room for a symbol. */
  method MakeSymbol(fdt: Fdt, rootSym: int, name: bytes, len: nat, ghost sp: Path, ghost sk: Path, ghost front: Kept)
    returns (err: int, prop: int, ghost v: bytes)
    requires SymBase(fdt, rootSym, sp, sk, front) && fdt.Valid() && 0 !in name && |name| <= MAX_LEN && len <= MAX_LEN
    modifies fdt, fdt.mem
    ensures SymBase(fdt, rootSym, sp, sk, front) && fdt.Valid()
    ensures err != 0 ==> err == -NOSPACE
    ensures err == 0 ==>
              && fdt.Tree() == old(WithBody(fdt.Tree(), sk, Set(BodyAt(fdt.Tree(), sk), name, v)))
              && prop >= 0 && |v| == len && Updated(fdt, sp, name, prop, v, fdt.Tree(), sk)
    ensures Taken(err, old(fdt.DataEnd()), fdt.DataEnd(), PropRoom(name, len), front.totalsize)
  {
    hide Fdt.St, Fdt.Strs, Fdt.Front, Fdt.Tree, WithBody, BodyAt, Set, SetSize, NodeEdited, RwError, Encodes, Named,
         CleanRoot, Updated,
      Replace, Abs;
    SymBaseFacts(fdt, rootSym, sp, sk, front);
    SymBaseSize(fdt, rootSym, sp, sk, front);
    SetRoom(BodyAt(fdt.Tree(), AbsPath(fdt.forest, sp)), name, len);
    ghost var f, t := fdt.forest, fdt.Tree();
    err, prop, v := SetPropPlaceholder(fdt, rootSym, name, len, sp);
    FrontTotal(fdt);
    if err == 0 {
      CleanRootSet(t, sk, name, v);
      SymEdited(fdt, f, rootSym, sp, sk, front);
      UpdatedSelf(fdt, sp, name, prop, v);
    } else {
      SymUnchanged(fdt, f, t, rootSym, sp, sk, front);
    }
  }

  lemma SymUnchanged(fdt: Fdt, f: Forest, t: Tree, rootSym: int, sp: Path, sk: Path, front: Kept)
    requires fdt.Valid() && fdt.forest == f && f.Node? && IsPath(f, sp) && At(f, sp).Node? && AbsPath(f, sp) == sk
    requires fdt.Front() == front
    requires CleanRoot(fdt.Tree()) && -INT_MAX - 1 <= rootSym <= INT_MAX && rootSym == 4 * Pos(f, sp)
    ensures SymBase(fdt, rootSym, sp, sk, front)
  {
    EditedSelf(f, sp);
    SymEdited(fdt, f, rootSym, sp, sk, front);
  }

  lemma TextBound(fdt: Fdt, p: Path)
    requires fdt.Valid() && InRoot(fdt.forest, p)
    ensures Wf(fdt.forest) && NodePlace(fdt.forest, p) && |PathString(NamesTo(fdt.forest, p))| <= fdt.totalsize
  {
    hide Fdt.St, Fdt.Strs, Encodes;
    EncodesWf(fdt.St(), fdt.forest);
    JoinedBound(fdt.forest, p);
    Sized(fdt.St(), fdt.forest);
    fdt.StSize();
  }

  lemma {:induction false} JoinedBound(f: Forest, p: Path)
    requires Wf(f) && NodePlace(f, p)
    ensures |Joined(NamesTo(f, p))| <= 4 * Size(f)
    decreases p
  {
    match p
    case Here => assert NamesTo(f, p)[..0] == [];
    case Next(q) => JoinedBound(f.rest, q);
    case Into(q) =>
      JoinedBound(f.body, q);
      JoinedCons(f.item.name, NamesTo(f.body, q));
  }

  /** The length of the path of the target. */
  method TargetLen(fdt: Fdt, target: int, path: Option<bytes>, ghost q: Path, ghost frag: Tree) returns (len: int)
    requires fdt.Valid() && CleanRoot(fdt.Tree()) && fdt.forest.Node? && Target(fdt, target, q) && IsPath(fdt.forest, q)
    requires path == TargetString(frag)
    requires path.Some? ==> path.value != []
    ensures IsNode(fdt.Tree(), AbsPath(fdt.forest, q)) && len == |TargetText(fdt.Tree(), frag, AbsPath(fdt.forest, q))|
    ensures len >= 1
    ensures path.None? ==> len <= fdt.totalsize
  {
    hide Fdt.St, Fdt.Strs, Fdt.Tree, CleanRoot, TargetString, PathString, NamesTo, NamesAt, InRoot;
    InOneRoot(fdt, target, q);
    TextBound(fdt, q);
    PathLength(NamesTo(fdt.forest, q), 0);
    JoinedEnds(NamesTo(fdt.forest, q));
    if path.None? {
      len := GetPathLen(fdt, target, q);
    } else {
      len := |path.value|;
    }
  }

  /** The part of overlay_symbol_update that sets one symbol, once its target has been found. */
  method SetSymbol(fdt: Fdt, fdto: Fdt, rootSym: int, fragment: int, name: bytes, rel: bytes, target: int,
                   path: Option<bytes>,
                   ghost sp: Path, ghost sk: Path, ghost front: Kept, ghost c: Path, ghost q: Path) returns (ret: int)
    requires fdt != fdto && fdt.mem != fdto.mem && SymBase(fdt, rootSym, sp, sk, front) && fdt.Valid()
    requires !IsPhandleName(name)
    requires 0 !in name && |name| <= MAX_LEN && |rel| <= fdto.totalsize
    requires fdt.totalsize + 2 * fdto.totalsize <= MAX_LEN - 2
    requires Target(fdto, fragment, c) && fdto.Valid() && IsPath(fdto.forest, c)
    requires Target(fdt, target, q) && IsPath(fdt.forest, q)
    requires TargetOf(fdt.Tree(), BodyOf(fdto, c)) == Ok(AbsPath(fdt.forest, q))
    requires path == TargetString(BodyOf(fdto, c)) && (path.Some? ==> |path.value| <= fdto.totalsize)
    modifies fdt, fdt.mem
    ensures SymBase(fdt, rootSym, sp, sk, front) && fdt.Valid()
    ensures ret != 0 ==> ret == -NOSPACE
    ensures old(IsNode(fdt.Tree(), AbsPath(fdt.forest, q)))
    ensures ret == 0 ==>
              fdt.Tree() == old(WithBody(fdt.Tree(), sk,
                                         Set(BodyAt(fdt.Tree(), sk), name,
                                             NewValue(TargetText(fdt.Tree(), BodyOf(fdto, c), AbsPath(fdt.forest, q)),
                                                      rel))))
    ensures Taken(ret, old(fdt.DataEnd()), fdt.DataEnd(),
                  old(PropRoom(name, |NewValue(TargetText(fdt.Tree(), BodyOf(fdto, c), AbsPath(fdt.forest, q)), rel)|)),
                  front.totalsize)
  {
    hide *;
    SymBaseFacts(fdt, rootSym, sp, sk, front);
    ghost var t, frag, k := fdt.Tree(), BodyOf(fdto, c), AbsPath(fdt.forest, q);
    TargetNode(t, frag);
    var len := TargetLen(fdt, target, path, q, frag);
    ghost var text := TargetText(t, frag, k);
    TextIs(t, frag, k);
    NoSpaceCode();
    NewLength(text, rel, len);
    var prop;
    ghost var v;
    ret, prop, v := MakeSymbol(fdt, rootSym, name, len + (if len > 1 then 1 else 0) + |rel| + 1, sp, sk, front);
    if ret < 0 {
      return;
    }
    ghost var t1 := fdt.Tree();
    SymBaseFacts(fdt, rootSym, sp, sk, front);
    if TargetString(frag).None? {
      TargetAgain(t, sk, name, v, frag);
    }
    KeepsSelf(fdt);
    FrontOf(fdt);
    ghost var l := LayoutOf(fdt);
    KeepsEnd(l, fdt);
    ghost var u := v;
    if len > 1 {
      ret, u := WriteTarget(fdt, fdto, fragment, prop, len, path, c, text, name, sp, v, t1, sk);
    } else {
      len := len - 1;
    }
    KeepsChanges(l, fdt);
    ghost var m := LayoutOf(fdt);
    WriteTail(fdt, prop, len, rel, text, name, sp, u, t1, sk);
    KeepsTrans(l, m, fdt);
    Symbolled(fdt, l, t, t1, rootSym, sp, sk, front, name, prop, v, NewValue(text, rel));
    KeepsEnd(l, fdt);
    ret := 0;
  }

  lemma NewLength(text: bytes, rel: bytes, len: nat)
    requires len == |text| >= 1
    ensures |NewValue(text, rel)| == len + (if len > 1 then 1 else 0) + |rel| + 1
  {
  }

  lemma KeepsEnd(l: Layout, fdt: Fdt)
    requires Keeps(l, fdt)
    ensures fdt.DataEnd() == l.hdr.offDtStrings + l.hdr.sizeDtStrings
  {
    hide Fdt.St, Fdt.Strs, Encodes, Named;
  }

  lemma TextIs(t: Tree, frag: Tree, k: Path)
    requires IsNode(t, k)
    ensures match TargetString(frag)
      case None => TargetText(t, frag, k) == PathString(NamesAt(t, k))
      case Some(s) => TargetText(t, frag, k) == s
    ensures TargetText(t, frag, k)[..0] == []
  {
  }

  lemma NoSpaceCode()
    ensures 0 < NOSPACE
  {
  }

  lemma Symbolled(fdt: Fdt, l: Layout, t: Tree, t1: Tree, rootSym: int, sp: Path, sk: Path, front: Kept, name: bytes,
                  prop: int, v: bytes, u: bytes)
    requires Keeps(l, fdt) && fdt.Valid() && Updated(fdt, sp, name, prop, u, t1, sk)
    requires IsNode(t, sk) && t1 == WithBody(t, sk, Set(BodyAt(t, sk), name, v)) && CleanRoot(t)
    requires l.forest.Node? && IsPath(l.forest, sp) && At(l.forest, sp).Node? && AbsPath(l.forest, sp) == sk
    requires l.front == front
    requires -INT_MAX - 1 <= rootSym <= INT_MAX && rootSym == 4 * Pos(l.forest, sp)
    ensures SymBase(fdt, rootSym, sp, sk, front) && fdt.Tree() == WithBody(t, sk, Set(BodyAt(t, sk), name, u))
  {
    hide Fdt.St, Fdt.Strs, Fdt.Front, Encodes, Named, WithBody, Set, BodyAt, CleanRoot, Replace, Abs;
    var q := UpdatedFacts(fdt, sp, name, prop, u, t1, sk);
    FilledIn(t, sk, name, v, u, t1, fdt.Tree());
    CleanRootSet(t, sk, name, u);
    SymKept(fdt, l, rootSym, sp, sk, front);
  }

  lemma FrontOf(fdt: Fdt)
    requires fdt.Valid()
    ensures LayoutOf(fdt).front == fdt.Front() && LayoutOf(fdt).forest == fdt.forest
  {
  }

  // ---------- All symbols ----------

  lemma StepIs(t: Tree, sk: Path, o: Tree, name: bytes, v: bytes)
    ensures Parse(v) == Bad ==> SymbolStep(t, sk, o, name, v) == Err(-BADVALUE)
    ensures Parse(v) == Elsewhere ==> SymbolStep(t, sk, o, name, v) == Ok(t)
    ensures Parse(v).In? ==>
              match Kid(o, Parse(v).fragment)
              case None => SymbolStep(t, sk, o, name, v) == Err(-BADOVERLAY)
              case Some(frag) =>
                && (Kid(frag, OVERLAY).None? ==> SymbolStep(t, sk, o, name, v) == Err(-BADOVERLAY))
                && (Kid(frag, OVERLAY).Some? ==>
                      match TargetOf(t, frag)
                      case Err(e) => SymbolStep(t, sk, o, name, v) == Err(e)
                      case Ok(k) => IsNode(t, k) ==>
                        SymbolStep(t, sk, o, name, v) ==
                        Ok(WithBody(t, sk, Set(BodyAt(t, sk), name, NewValue(TargetText(t, frag, k), Parse(v).rel)))))
  {
  }

  lemma SymbolRoomIs(t: Tree, o: Tree, name: bytes, v: bytes)
    ensures !Parse(v).In? ==> SymbolRoom(t, o, name, v) == 0
    ensures Parse(v).In? && Kid(o, Parse(v).fragment).Some? ==>
              var frag := Kid(o, Parse(v).fragment).value;
              TargetOf(t, frag).Ok? && IsNode(t, TargetOf(t, frag).value) ==>
                SymbolRoom(t, o, name, v) ==
                PropRoom(name, |NewValue(TargetText(t, frag, TargetOf(t, frag).value), Parse(v).rel)|)
  {
  }

  lemma RelBound(v: bytes, path: Option<bytes>, n: nat)
    requires |v| <= n
    ensures Parse(v).In? ==> |Parse(v).rel| <= n
  {
  }

  /** The place of a child of the overlay's root. */
  lemma FragmentPlace(fdto: Fdt, name: bytes) returns (c: Path)
    requires Target(fdto, 0, Here) && IsPath(fdto.forest, Here) && Kid(BodyOf(fdto, Here), name).Some?
    ensures Target(fdto, Walk.SubnodeOffset(fdto.St(), 0, name), c) && IsPath(fdto.forest, c) && fdto.Valid()
    ensures BodyOf(fdto, c) == Kid(BodyOf(fdto, Here), name).value && Walk.SubnodeOffset(fdto.St(), 0, name) >= 0
  {
    hide Fdt.St, Fdt.Strs, Has, Encodes, Named, Abs, NameEq, Walk.SubnodeOffset;
    NodeHere(fdto, 0, Here);
    var d := ChildOffset(fdto, 0, Here, name);
    c := Inside(Here, d);
    ChildInside(fdto.Tree(), Here, name, Nil);
  }

  /** The target-path of a fragment is part of the overlay. */
  lemma PathBound(fdto: Fdt, fragment: int, c: Path)
    requires Target(fdto, fragment, c) && IsPath(fdto.forest, c)
    ensures TargetString(BodyOf(fdto, c)).Some? ==> |TargetString(BodyOf(fdto, c)).value| <= fdto.totalsize
  {
    hide Fdt.St, Fdt.Strs, Fdt.Tree, Encodes, Named, Walk.GetProperty, Dec32, PropPlace, Traverse.PropPath;
    var q := LookupMeans(fdto, fragment, TARGET_PATH, Some(c));
    if TargetString(BodyOf(fdto, c)).Some? {
      PropWords(fdto.St(), fdto.forest, Inside(c, q));
      StringShort(Get(BodyOf(fdto, c), TARGET_PATH).value);
      fdto.StSize();
    }
  }

  lemma StringShort(v: bytes)
    ensures StrAt(v, 0).Some? ==> |StrAt(v, 0).value| <= |v|
  {
  }

  /** A round of overlay_symbol_update. */
  method UpdateSymbol(fdt: Fdt, fdto: Fdt, rootSym: int, name: bytes, v: bytes, ghost sp: Path, ghost sk: Path,
                      ghost front: Kept)
    returns (ret: int)
    requires fdt != fdto && fdt.mem != fdto.mem && SymBase(fdt, rootSym, sp, sk, front) && fdt.Valid()
    requires !IsPhandleName(name)
    requires 0 !in name && |name| <= MAX_LEN && |v| <= fdto.totalsize
    requires fdt.totalsize + 2 * fdto.totalsize <= MAX_LEN - 2
    requires Target(fdto, 0, Here) && IsPath(fdto.forest, Here) && fdto.Valid()
    modifies fdt, fdt.mem
    ensures SymBase(fdt, rootSym, sp, sk, front) && fdt.Valid()
    ensures ret == 0 ==> SymbolStep(old(fdt.Tree()), sk, BodyOf(fdto, Here), name, v) == Ok(fdt.Tree())
    ensures ret != 0 ==> ret == -NOSPACE || SymbolStep(old(fdt.Tree()), sk, BodyOf(fdto, Here), name, v) == Err(ret)
    ensures SymbolStep(old(fdt.Tree()), sk, BodyOf(fdto, Here), name, v).Err? ==>
              SymbolStep(old(fdt.Tree()), sk, BodyOf(fdto, Here), name, v) == Err(ret)
    ensures SymbolStep(old(fdt.Tree()), sk, BodyOf(fdto, Here), name, v).Ok? ==>
              Taken(ret, old(fdt.DataEnd()), fdt.DataEnd(), old(SymbolRoom(fdt.Tree(), BodyOf(fdto, Here), name, v)),
                    front.totalsize)
  {
    hide *;
    SymBaseFacts(fdt, rootSym, sp, sk, front);
    ghost var t, o := fdt.Tree(), BodyOf(fdto, Here);
    StepIs(t, sk, o, name, v);
    SymbolRoomIs(t, o, name, v);
    TakenNone(fdt.DataEnd(), front.totalsize);
    Codes();
    var parsed := ParseSymbol(v);
    if parsed == Bad {
      return -BADVALUE;
    }
    if parsed == Elsewhere {
      return 0;
    }
    ValidBounds(fdto);
    KidOffset(fdto, 0, Here, parsed.fragment);
    var fragment := ReadOnly.SubnodeOffset(fdto, 0, parsed.fragment);
    if fragment < 0 {
      return -BADOVERLAY;
    }
    ghost var c := FragmentPlace(fdto, parsed.fragment);
    PassStart(fdto, fragment, c);
    KidOffset(fdto, fragment, c, OVERLAY);
    var overlay := ReadOnly.SubnodeOffset(fdto, fragment, OVERLAY);
    if overlay < 0 {
      return -BADOVERLAY;
    }
    var target, path;
    ghost var q;
    target, path, q := TargetOffset(fdt, fdto, fragment, c);
    if target < 0 {
      return target;
    }
    RelBound(v, path, fdto.totalsize);
    PathBound(fdto, fragment, c);
    ret := SetSymbol(fdt, fdto, rootSym, fragment, name, parsed.rel, target, path, sp, sk, front, c, q);
  }

  lemma Codes()
    ensures 0 < NOTFOUND && 0 < BADOVERLAY && 0 < BADVALUE && 0 < NOSPACE && 0 < EXISTS
  {
  }

  /** The symbols among the entries e of the overlay's symbols, one after the other. */
  ghost function SymbolSteps(t: Tree, sk: Path, o: Tree, e: Tree): Result<Tree>
    decreases e
  {
    if !e.PropT? then Ok(t)
    else
      match SymbolStep(t, sk, o, e.name, e.value)
      case Err(x) => Err(x)
      case Ok(t1) => SymbolSteps(t1, sk, o, e.rest)
  }

  /** The room that those symbols take at most. */
  ghost function SymbolsRoom(t: Tree, sk: Path, o: Tree, e: Tree): nat
    decreases e
  {
    if !e.PropT? then 0
    else
      match SymbolStep(t, sk, o, e.name, e.value)
      case Err(_) => 0
      case Ok(t1) => SymbolRoom(t, o, e.name, e.value) + SymbolsRoom(t1, sk, o, e.rest)
  }

  /** The room that overlay_symbol_update takes at most. */
  ghost function AllSymbolsRoom(t: Tree, o: Tree): nat {
    match Kid(o, SYMBOLS)
    case None => 0
    case Some(e) => KidRoom(SYMBOLS) + SymbolsRoom(WithSymbols(t), SymbolsPlace(WithSymbols(t)), o, e)
  }

  /** The base tree with a node for symbols. */
  ghost function WithSymbols(t: Tree): Tree {
    if Kid(BodyAt(t, Here), SYMBOLS).Some? then t else WithBody(t, Here, AddChild(BodyAt(t, Here), SYMBOLS))
  }

  /** The place of the base's symbols. */
  ghost function SymbolsPlace(t: Tree): Path {
    Inside(Here, ChildAt(BodyAt(t, Here), SYMBOLS).GetOr(Here))
  }

  /** overlay_symbol_update, for the base tree t and the overlay body o. */
  ghost function SymbolsTree(t: Tree, o: Tree): Result<Tree> {
    match Kid(o, SYMBOLS)
    case None => Ok(t)
    case Some(e) => SymbolSteps(WithSymbols(t), SymbolsPlace(WithSymbols(t)), o, e)
  }

  /** No symbol is called like a phandle. */
  ghost predicate NamesOk(e: Tree) {
    e.PropT? ==> !IsPhandleName(e.name) && NamesOk(e.rest)
  }

  ghost predicate SymbolNamesOk(o: Tree) {
    Kid(o, SYMBOLS).Some? ==> NamesOk(Kid(o, SYMBOLS).value)
  }

  /** The node of the overlay's symbols, to be read property by property. */
  lemma SymbolsSource(fdto: Fdt) returns (q: Path)
    requires Target(fdto, 0, Here) && IsPath(fdto.forest, Here) && Kid(BodyOf(fdto, Here), SYMBOLS).Some?
    ensures fdto.Valid() && IsPath(fdto.forest, q) && At(fdto.forest, q).Node?
    ensures Source(fdto, Walk.SubnodeOffset(fdto.St(), 0, SYMBOLS), Pos(fdto.forest, q), At(fdto.forest, q))
    ensures Rest(fdto, At(fdto.forest, q).body) == Kid(BodyOf(fdto, Here), SYMBOLS).value
  {
    hide Fdt.St, Fdt.Strs, Has, Encodes, Named, Abs, NameEq, Walk.SubnodeOffset;
    q := FragmentPlace(fdto, SYMBOLS);
    NodeHere(fdto, Walk.SubnodeOffset(fdto.St(), 0, SYMBOLS), q);
    EncodesAt(fdto.St(), fdto.forest, q);
    EncodesWf(fdto.St(), fdto.forest);
    NodeAbs(fdto.forest, q, fdto.Strs());
    BodyIs(fdto, q);
  }

  lemma ValueShort(fdto: Fdt, property: int, cp: nat, rest: Forest, name: bytes, value: bytes)
    requires fdto.Valid() && AtProp(fdto, property, cp, rest) && rest.Leaf?
    requires Rest(fdto, rest) == PropT(name, value, Rest(fdto, rest.rest))
    ensures |value| <= fdto.totalsize
  {
    hide Fdt.St, Fdt.Strs, Dec32, Has, TagAt, StrAt;
    PropCursor(fdto.St(), fdto.Strs(), cp, rest);
    fdto.StSize();
  }

  /** The blobs between two symbols. */
  ghost predicate Symboling(fdt: Fdt, fdto: Fdt, rootSym: int, sp: Path, sk: Path, front: Kept, property: int, cp: nat,
                            rest: Forest, goal: Result<Tree>,
                            end: int, room: int)
    reads fdt, fdt.mem, fdto, fdto.mem
  {
    && SymBase(fdt, rootSym, sp, sk, front) && Target(fdto, 0, Here) && IsPath(fdto.forest, Here)
    && AtProp(fdto, property, cp, rest)
    && SymbolSteps(fdt.Tree(), sk, BodyOf(fdto, Here), Rest(fdto, rest)) == goal && NamesOk(Rest(fdto, rest))
    && Taken(0, end, fdt.DataEnd(), room - SymbolsRoom(fdt.Tree(), sk, BodyOf(fdto, Here), Rest(fdto, rest)),
             front.totalsize)
  }

  lemma SymbolingFacts(fdt: Fdt, fdto: Fdt, rootSym: int, sp: Path, sk: Path, front: Kept, property: int, cp: nat,
                       rest: Forest, goal: Result<Tree>,
                       end: int, room: int)
    requires Symboling(fdt, fdto, rootSym, sp, sk, front, property, cp, rest, goal, end, room)
    ensures SymBase(fdt, rootSym, sp, sk, front) && fdt.Valid() && fdto.Valid() && Target(fdto, 0, Here)
    ensures IsPath(fdto.forest, Here)
    ensures AtProp(fdto, property, cp, rest)
    ensures SymbolSteps(fdt.Tree(), sk, BodyOf(fdto, Here), Rest(fdto, rest)) == goal && NamesOk(Rest(fdto, rest))
    ensures property >= 0 ==> rest.Leaf?
    ensures property < 0 ==> goal == Ok(fdt.Tree())
    ensures Taken(0, end, fdt.DataEnd(), room - SymbolsRoom(fdt.Tree(), sk, BodyOf(fdto, Here), Rest(fdto, rest)),
                  front.totalsize)
    ensures property < 0 ==> Taken(0, end, fdt.DataEnd(), room, front.totalsize)
  {
    hide Fdt.St, Fdt.Strs, Has, SymbolStep, SymbolRoom, TagAt, Taken;
  }

  lemma StepsStep(t: Tree, sk: Path, o: Tree, name: bytes, v: bytes, rest: Tree)
    ensures match SymbolStep(t, sk, o, name, v)
      case Err(x) => SymbolSteps(t, sk, o, PropT(name, v, rest)) == Err(x)
      case Ok(t1) => SymbolSteps(t, sk, o, PropT(name, v, rest)) == SymbolSteps(t1, sk, o, rest)
    ensures NamesOk(PropT(name, v, rest)) ==> !IsPhandleName(name) && NamesOk(rest)
    ensures SymbolStep(t, sk, o, name, v).Ok? ==>
              SymbolsRoom(t, sk, o, PropT(name, v, rest)) ==
              SymbolRoom(t, o, name, v) + SymbolsRoom(SymbolStep(t, sk, o, name, v).value, sk, o, rest)
  {
    hide SymbolStep, SymbolRoom;
  }

  /** The loop of overlay_symbol_update. */
  method UpdateSymbols(fdt: Fdt, fdto: Fdt, rootSym: int, ovSym: int, ghost sp: Path, ghost sk: Path,
                       ghost front: Kept, ghost pos: nat, ghost n: Forest)
    returns (ret: int)
    requires fdt != fdto && fdt.mem != fdto.mem && SymBase(fdt, rootSym, sp, sk, front) && fdt.Valid()
    requires fdt.totalsize + 2 * fdto.totalsize <= MAX_LEN - 2 && fdt.totalsize == front.totalsize
    requires Target(fdto, 0, Here) && IsPath(fdto.forest, Here) && fdto.Valid() && Source(fdto, ovSym, pos, n)
    requires n.Node? && NamesOk(Rest(fdto, n.body))
    modifies fdt, fdt.mem
    ensures SymBase(fdt, rootSym, sp, sk, front) && fdt.Valid()
    ensures ret == 0 ==> SymbolSteps(old(fdt.Tree()), sk, BodyOf(fdto, Here), Rest(fdto, n.body)) == Ok(fdt.Tree())
    ensures ret != 0 ==>
              ret == -NOSPACE || SymbolSteps(old(fdt.Tree()), sk, BodyOf(fdto, Here), Rest(fdto, n.body)) == Err(ret)
    ensures SymbolSteps(old(fdt.Tree()), sk, BodyOf(fdto, Here), Rest(fdto, n.body)) == Err(ret) ||
            Taken(ret, old(fdt.DataEnd()), fdt.DataEnd(),
                  old(SymbolsRoom(fdt.Tree(), sk, BodyOf(fdto, Here), Rest(fdto, n.body))),
                  front.totalsize)
  {
    hide *;
    ghost var o := BodyOf(fdto, Here);
    ghost var end, room, total := fdt.DataEnd(), SymbolsRoom(fdt.Tree(), sk, o, Rest(fdto, n.body)), front.totalsize;
    TakenNone(end, total);
    ghost var goal := SymbolSteps(fdt.Tree(), sk, o, Rest(fdto, n.body));
    var property;
    ghost var cp, rest;
    property, cp, rest := FirstProp(fdto, ovSym, pos, n);
    SymbolingIs(fdt, fdto, rootSym, sp, sk, front, property, cp, rest, goal, end, room);
    while property >= 0
      invariant Symboling(fdt, fdto, rootSym, sp, sk, front, property, cp, rest, goal, end, room)
      decreases Size(rest)
    {
      SymbolingFacts(fdt, fdto, rootSym, sp, sk, front, property, cp, rest, goal, end, room);
      var name, value := GetPropByOffset(fdto, property, cp, rest);
      ValueShort(fdto, property, cp, rest, name, value);
      SymBaseSize(fdt, rootSym, sp, sk, front);
      StepsStep(fdt.Tree(), sk, o, name, value, Rest(fdto, rest.rest));
      ghost var mid, t := fdt.DataEnd(), fdt.Tree();
      ghost var x, y := room - SymbolsRoom(t, sk, o, Rest(fdto, rest)), SymbolRoom(t, o, name, value);
      ret := UpdateSymbol(fdt, fdto, rootSym, name, value, sp, sk, front);
      if ret != 0 {
        if SymbolStep(t, sk, o, name, value).Ok? {
          TakenMore(ret, end, mid, fdt.DataEnd(), x, y, total);
          StepTaken(t, sk, o, name, value, Rest(fdto, rest.rest), ret, end, fdt.DataEnd(), x, room, total);
        }
        return;
      }
      TakenMore(0, end, mid, fdt.DataEnd(), x, y, total);
      property, cp, rest := NextPropOf(fdto, property, cp, rest);
      SymbolingIs(fdt, fdto, rootSym, sp, sk, front, property, cp, rest, goal, end, room);
    }
    SymbolingFacts(fdt, fdto, rootSym, sp, sk, front, property, cp, rest, goal, end, room);
    ret := 0;
  }

  /** Without room for a symbol, there is none for it and those behind it. */
  lemma StepTaken(t: Tree, sk: Path, o: Tree, name: bytes, v: bytes, rest: Tree, ret: int, end: int, now: int, x: int,
                  room: int, total: int)
    requires SymbolStep(t, sk, o, name, v).Ok? && x == room - SymbolsRoom(t, sk, o, PropT(name, v, rest))
    requires Taken(ret, end, now, x + SymbolRoom(t, o, name, v), total)
    ensures Taken(ret, end, now, room, total)
  {
    hide SymbolStep, SymbolRoom;
  }

  lemma SymBaseSize(fdt: Fdt, rootSym: int, sp: Path, sk: Path, front: Kept)
    requires SymBase(fdt, rootSym, sp, sk, front)
    ensures fdt.totalsize == front.totalsize
  {
  }

  lemma SymbolingIs(fdt: Fdt, fdto: Fdt, rootSym: int, sp: Path, sk: Path, front: Kept, property: int, cp: nat,
                    rest: Forest, goal: Result<Tree>,
                    end: int, room: int)
    requires SymBase(fdt, rootSym, sp, sk, front) && fdt.Valid() && fdto.Valid() && Target(fdto, 0, Here)
    requires IsPath(fdto.forest, Here)
    requires AtProp(fdto, property, cp, rest)
    requires SymbolSteps(fdt.Tree(), sk, BodyOf(fdto, Here), Rest(fdto, rest)) == goal && NamesOk(Rest(fdto, rest))
    requires Taken(0, end, fdt.DataEnd(), room - SymbolsRoom(fdt.Tree(), sk, BodyOf(fdto, Here), Rest(fdto, rest)),
                   front.totalsize)
    ensures Symboling(fdt, fdto, rootSym, sp, sk, front, property, cp, rest, goal, end, room)
  {
  }

  lemma {:induction false} CleanAdd(b: Tree, name: bytes)
    requires Clean(b) && name != [] && SLASH !in name && 0 !in name
    ensures Clean(AddChild(b, name))
  {
    if b.PropT? {
      CleanAdd(b.rest, name);
    }
  }

  lemma SymbolsName()
    ensures SYMBOLS != [] && SLASH !in SYMBOLS && 0 !in SYMBOLS && |SYMBOLS| <= MAX_LEN
  {
  }

  /** The base as overlay_symbol_update finds it. */
  ghost predicate SymReady(fdt: Fdt, front: Kept)
    reads fdt, fdt.mem
  {
    fdt.Valid() && Target(fdt, 0, Here) && IsPath(fdt.forest, Here) && fdt.Front() == front
  }

  /** Finds the node of the base's symbols, or adds one. */
  method FindSymbols(fdt: Fdt, ghost front: Kept) returns (rootSym: int, ghost sp: Path)
    requires SymReady(fdt, front) && fdt.Valid() && CleanRoot(fdt.Tree())
    modifies fdt, fdt.mem
    ensures SymReady(fdt, front) && fdt.Valid()
    ensures rootSym < 0 ==> rootSym == -NOSPACE
    ensures rootSym >= 0 ==>
              fdt.Tree() == WithSymbols(old(fdt.Tree())) && SymBase(fdt, rootSym, sp, SymbolsPlace(fdt.Tree()), front)
    ensures Taken(if rootSym < 0 then rootSym else 0, old(fdt.DataEnd()), fdt.DataEnd(), KidRoom(SYMBOLS),
                  front.totalsize)
  {
    hide *;
    TakenNone(fdt.DataEnd(), front.totalsize);
    TakenWithin(0, fdt.DataEnd(), fdt.DataEnd(), 0, KidRoom(SYMBOLS), front.totalsize);
    ReadyFacts(fdt, front);
    Codes();
    SymbolsName();
    ghost var t, f := fdt.Tree(), fdt.forest;
    sp := Here;
    KidOffset(fdt, 0, Here, SYMBOLS);
    rootSym := ReadOnly.SubnodeOffset(fdt, 0, SYMBOLS);
    if rootSym == -NOTFOUND {
      StartEditing(fdt, 0, Here);
      ghost var c;
      rootSym, c := AddStep(fdt, 0, SYMBOLS, Here, f, t, Here, BodyAt(t, Here), front);
      SymbolsAdded(fdt, rootSym, c, f, t, front);
      sp := Inside(Here, c);
    } else {
      sp := SymbolsFound(fdt, rootSym, front);
    }
  }

  lemma ReadyFacts(fdt: Fdt, front: Kept)
    requires SymReady(fdt, front)
    ensures fdt.Valid() && fdt.Laid() && fdt.InBounds() && fdt.StructIn() && Target(fdt, 0, Here)
    ensures IsPath(fdt.forest, Here)
    ensures AbsPath(fdt.forest, Here) == Here && fdt.Front() == front && fdt.Tree().NodeT?
    ensures BodyOf(fdt, Here) == BodyAt(fdt.Tree(), Here)
    ensures IsNode(fdt.Tree(), Here) && fdt.forest.Node?
  {
    NodeHere(fdt, 0, Here);
  }

  lemma SymbolsFound(fdt: Fdt, rootSym: int, front: Kept) returns (sp: Path)
    requires SymReady(fdt, front) && fdt.Valid() && CleanRoot(fdt.Tree()) && Kid(BodyOf(fdt, Here), SYMBOLS).Some?
    requires rootSym == Walk.SubnodeOffset(fdt.St(), 0, SYMBOLS)
    ensures rootSym >= 0 && fdt.Tree() == WithSymbols(fdt.Tree())
    ensures SymBase(fdt, rootSym, sp, SymbolsPlace(fdt.Tree()), front)
  {
    hide Fdt.St, Fdt.Strs, Has, Encodes, Named, Abs, NameEq, Walk.SubnodeOffset, CleanRoot;
    NodeHere(fdt, 0, Here);
    var d := ChildOffset(fdt, 0, Here, SYMBOLS);
    sp := Inside(Here, d);
  }

  lemma SymbolsAdded(fdt: Fdt, rootSym: int, c: Path, f: Forest, t: Tree, front: Kept)
    requires CleanRoot(t) && t.NodeT? && f.Node?
    requires (rootSym < 0 ==> rootSym == (if ChildAt(BodyAt(t, Here), SYMBOLS).Some? then -EXISTS else -NOSPACE))
    requires Kid(BodyAt(t, Here), SYMBOLS).None?
    requires Editing(fdt, 0, Here, f, t, Here,
                     if rootSym >= 0 then AddChild(BodyAt(t, Here), SYMBOLS) else BodyAt(t, Here), front)
    requires rootSym >= 0 ==> ChildTarget(fdt, rootSym, Here, c, SYMBOLS)
    ensures SymReady(fdt, front) && fdt.Valid()
    ensures rootSym < 0 ==> rootSym == -NOSPACE
    ensures rootSym >= 0 ==>
              fdt.Tree() == WithSymbols(t) && SymBase(fdt, rootSym, Inside(Here, c), SymbolsPlace(fdt.Tree()), front)
  {
    hide Fdt.St, Fdt.Strs, Has, Encodes, Named, Abs, NameEq, Clean, Fdt.Front;
    SymbolsName();
    WithBodySelf(t, Here);
    CleanAdd(t.body, SYMBOLS);
    WithBodyAt(t, Here, AddChild(t.body, SYMBOLS), Nil);
  }

  /** overlay_symbol_update */
  method SymbolUpdate(fdt: Fdt, fdto: Fdt, ghost front: Kept) returns (ret: int)
    requires fdt != fdto && fdt.mem != fdto.mem && SymReady(fdt, front) && fdt.Valid()
    requires Target(fdto, 0, Here) && IsPath(fdto.forest, Here) && fdto.Valid()
    requires Kid(BodyOf(fdto, Here), SYMBOLS).Some? ==>
               CleanRoot(fdt.Tree()) && SymbolNamesOk(BodyOf(fdto, Here)) &&
                 fdt.totalsize + 2 * fdto.totalsize <= MAX_LEN - 2
    modifies fdt, fdt.mem
    ensures SymReady(fdt, front) && fdt.Valid()
    ensures ret == 0 ==> SymbolsTree(old(fdt.Tree()), BodyOf(fdto, Here)) == Ok(fdt.Tree())
    ensures ret != 0 ==> ret == -NOSPACE || SymbolsTree(old(fdt.Tree()), BodyOf(fdto, Here)) == Err(ret)
    ensures SymbolsTree(old(fdt.Tree()), BodyOf(fdto, Here)) == Err(ret) ||
            Taken(ret, old(fdt.DataEnd()), fdt.DataEnd(), old(AllSymbolsRoom(fdt.Tree(), BodyOf(fdto, Here))),
                  front.totalsize)
  {
    hide *;
    ghost var end, total := fdt.DataEnd(), front.totalsize;
    TakenNone(end, total);
    ReadyFacts(fdt, front);
    Codes();
    ValidBounds(fdto);
    FrontSize(fdt);
    ghost var t, o := fdt.Tree(), BodyOf(fdto, Here);
    SymbolsTreeIs(t, o);
    KidOffset(fdto, 0, Here, SYMBOLS);
    var ovSym := ReadOnly.SubnodeOffset(fdto, 0, SYMBOLS);
    if ovSym < 0 {
      return 0;
    }
    var rootSym;
    ghost var sp;
    rootSym, sp := FindSymbols(fdt, front);
    ghost var mid, y := fdt.DataEnd(), AllSymbolsRoom(t, o) - KidRoom(SYMBOLS);
    if rootSym < 0 {
      TakenWithin(rootSym, end, mid, KidRoom(SYMBOLS), KidRoom(SYMBOLS) + y, total);
      return rootSym;
    }
    ghost var q := SymbolsSource(fdto);
    FrontSize(fdt);
    ReadyFacts(fdt, front);
    ghost var sk := SymbolsPlace(fdt.Tree());
    ret := UpdateSymbols(fdt, fdto, rootSym, ovSym, sp, sk, front, Pos(fdto.forest, q), At(fdto.forest, q));
    SymReadyAgain(fdt, rootSym, sp, sk, front);
    if SymbolsTree(t, o) != Err(ret) {
      TakenMore(ret, end, mid, fdt.DataEnd(), KidRoom(SYMBOLS), y, total);
    }
  }

  lemma FrontSize(fdt: Fdt)
    requires fdt.Valid()
    ensures fdt.Front().totalsize == fdt.totalsize
  {
  }

  lemma SymReadyAgain(fdt: Fdt, rootSym: int, sp: Path, sk: Path, front: Kept)
    requires SymBase(fdt, rootSym, sp, sk, front)
    ensures SymReady(fdt, front)
  {
  }

  lemma SymbolsTreeIs(t: Tree, o: Tree)
    ensures Kid(o, SYMBOLS).None? ==> SymbolsTree(t, o) == Ok(t)
    ensures Kid(o, SYMBOLS).Some? ==>
              SymbolsTree(t, o) == SymbolSteps(WithSymbols(t), SymbolsPlace(WithSymbols(t)), o, Kid(o, SYMBOLS).value)
    ensures SymbolNamesOk(o) && Kid(o, SYMBOLS).Some? ==> NamesOk(Kid(o, SYMBOLS).value)
    ensures AllSymbolsRoom(t, o) ==
            match Kid(o, SYMBOLS)
            case None => 0
            case Some(e) => KidRoom(SYMBOLS) + SymbolsRoom(WithSymbols(t), SymbolsPlace(WithSymbols(t)), o, e)
  {
  }
}
