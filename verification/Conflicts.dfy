/** libfdt/fdt_overlay.c: taking over the phandles of the base, on the blob of the overlay. */
module Conflicts {
  import opened Bytes
  import opened Tags
  import opened Blob
  import opened Forests
  import opened Edits
  import opened Trees
  import opened Walk
  import opened Merging
  import opened ReadWrite
  import opened Applying
  import opened Overlay
  import opened Renumber
  import opened References
  import Traverse
  import FdtCore
  import ReadOnly
  import InPlace
  import Phandles

  // ---------- Addresses and places ----------

  /** The place of the node at address a below the node at place k of the tree t. */
  ghost function PlaceBy(t: Tree, k: Path, a: Address): Option<Path>
    decreases |a|
  {
    if a == [] then Some(k)
    else
      match ChildAt(BodyAt(t, k), a[0])
      case None => None
      case Some(c) => PlaceBy(t, Inside(k, c), a[1..])
  }

  lemma ChildInside(t: Tree, k: Path, name: bytes, x: Tree)
    requires IsNode(t, k) && ChildAt(BodyAt(t, k), name).Some?
    ensures var c := ChildAt(BodyAt(t, k), name).value;
      && IsNode(t, Inside(k, c)) && Kid(BodyAt(t, k), name) == Some(BodyAt(t, Inside(k, c)))
      && WithBody(t, Inside(k, c), x) == WithBody(t, k, PutKid(BodyAt(t, k), name, x))
  {
    ChildIsNode(BodyAt(t, k), name);
    WithBodyInside(t, k, ChildAt(BodyAt(t, k), name).value, x);
  }

  /** Reading and writing by address are reading and writing at the place. */
  lemma {:induction false} PlaceByMeans(t: Tree, k: Path, a: Address, q: Path, x: Tree)
    requires IsNode(t, k) && PlaceBy(t, k, a) == Some(q)
    ensures IsNode(t, q) && NodeBy(BodyAt(t, k), a) == Some(BodyAt(t, q))
    ensures WithBody(t, q, x) == WithBody(t, k, SetBy(BodyAt(t, k), a, x))
    decreases |a|
  {
    hide IsNode, WithBody, BodyAt;
    if a != [] {
      var c := ChildAt(BodyAt(t, k), a[0]).value;
      ChildInside(t, k, a[0], x);
      PlaceByMeans(t, Inside(k, c), a[1..], q, x);
      ChildInside(t, k, a[0], SetBy(BodyAt(t, Inside(k, c)), a[1..], x));
    }
  }

  lemma {:induction false} PlaceByNext(t: Tree, k: Path, a: Address, q: Path, name: bytes)
    requires PlaceBy(t, k, a) == Some(q) && ChildAt(BodyAt(t, q), name).Some?
    ensures PlaceBy(t, k, a + [name]) == Some(Inside(q, ChildAt(BodyAt(t, q), name).value))
    decreases |a|
  {
    if a == [] {
      assert (a + [name])[1..] == [];
    } else {
      assert (a + [name])[0] == a[0] && (a + [name])[1..] == a[1..] + [name];
      PlaceByNext(t, Inside(k, ChildAt(BodyAt(t, k), a[0]).value), a[1..], q, name);
    }
  }

  lemma {:induction false} LikePlace(t: Tree, u: Tree, k: Path)
    requires Like(t, u) && IsPlace(t, k)
    ensures IsPlace(u, k) && Like(TreeAt(t, k), TreeAt(u, k))
    decreases k
  {
    match k
    case Here =>
    case Next(q) => LikePlace(t.rest, u.rest, q);
    case Into(q) => LikePlace(t.body, u.body, q);
  }

  lemma {:induction false} LikeChildAt(t: Tree, u: Tree, name: bytes)
    requires Like(t, u)
    ensures ChildAt(t, name) == ChildAt(u, name)
    decreases t
  {
    if t != Nil {
      LikeChildAt(t.rest, u.rest, name);
    }
  }

  lemma LikeNode(t: Tree, u: Tree, k: Path)
    requires Like(t, u) && IsNode(t, k)
    ensures IsNode(u, k) && Like(BodyAt(t, k), BodyAt(u, k)) && TreeAt(u, k).name == TreeAt(t, k).name
  {
    LikePlace(t, u, k);
  }

  lemma {:induction false} PlaceByLike(t: Tree, u: Tree, k: Path, a: Address)
    requires Like(t, u) && IsNode(t, k)
    ensures PlaceBy(u, k, a) == PlaceBy(t, k, a)
    decreases |a|
  {
    if a != [] {
      LikeNode(t, u, k);
      LikeChildAt(BodyAt(t, k), BodyAt(u, k), a[0]);
      if ChildAt(BodyAt(t, k), a[0]).Some? {
        ChildInside(t, k, a[0], Nil);
        PlaceByLike(t, u, Inside(k, ChildAt(BodyAt(t, k), a[0]).value), a[1..]);
      }
    }
  }

  // ---------- Names that lead to their nodes ----------

  /** No node is shadowed: none answers to the name of a later sibling. */
  ghost predicate Exact(t: Tree) {
    match t
    case Nil => true
    case PropT(_, _, rest) => Exact(rest)
    case NodeT(name, body, rest) => Unreached(rest, name) && Exact(body) && Exact(rest)
  }

  lemma {:induction false} UnreachedAt(t: Tree, x: bytes, c: Path)
    requires Unreached(t, x) && IsNode(t, c) && Flat(c)
    ensures !NameEq(x, TreeAt(t, c).name)
    decreases c
  {
    if c.Next? {
      UnreachedAt(t.rest, x, c.tail);
    }
  }

  /** Looking up the name of a child finds that child. */
  lemma {:induction false} OwnChild(t: Tree, c: Path)
    requires Exact(t) && IsNode(t, c) && Flat(c)
    ensures ChildAt(t, TreeAt(t, c).name) == Some(c)
    decreases c
  {
    match c
    case Here => assert t.name[..|t.name|] == t.name;
    case Next(d) =>
      OwnChild(t.rest, d);
      if t.NodeT? {
        UnreachedAt(t.rest, t.name, d);
      }
  }

  lemma {:induction false} ExactAt(t: Tree, c: Path)
    requires Exact(t) && IsPlace(t, c)
    ensures Exact(TreeAt(t, c))
    decreases c
  {
    match c
    case Here =>
    case Next(d) => ExactAt(t.rest, d);
    case Into(d) => ExactAt(t.body, d);
  }

  lemma {:induction false} UnreachedLike(t: Tree, u: Tree, x: bytes)
    requires Like(t, u) && Unreached(t, x)
    ensures Unreached(u, x)
    decreases t
  {
    if t != Nil {
      UnreachedLike(t.rest, u.rest, x);
    }
  }

  lemma {:induction false} ExactLike(t: Tree, u: Tree)
    requires Like(t, u) && Exact(t)
    ensures Exact(u)
    decreases t
  {
    if t != Nil {
      ExactLike(t.rest, u.rest);
      if t.NodeT? {
        ExactLike(t.body, u.body);
        UnreachedLike(t.rest, u.rest, t.name);
      }
    }
  }

  /** Of the overlay's entries, only the names matter to the walk. */
  lemma {:induction false} PreventLike(t: Tree, b: Tree, a: Address, e: Tree, e': Tree)
    requires Like(e, e')
    ensures PreventNode(t, b, a, e') == PreventNode(t, b, a, e)
    decreases e, 1
  {
    hide Resolve;
    PreventKidsLike(t, b, a, e, e');
    if Phandle(b) != 0 && PhandleAt(t, a) != 0 {
      match Resolve(t, a, Phandle(b))
      case Err(_) =>
      case Ok(t1) => PreventKidsLike(t1, b, a, e, e');
    }
  }

  lemma {:induction false} PreventKidsLike(t: Tree, b: Tree, a: Address, e: Tree, e': Tree)
    requires Like(e, e')
    ensures PreventKids(t, b, a, e') == PreventKids(t, b, a, e)
    decreases e, 0
  {
    match e
    case Nil =>
    case PropT(_, _, rest) => PreventKidsLike(t, b, a, rest, e'.rest);
    case NodeT(name, body, rest) =>
      PreventKidsLike(t, b, a, rest, e'.rest);
      if Kid(b, name).Some? {
        var x := Kid(b, name).value;
        PreventLike(t, x, a + [name], body, e'.body);
        match PreventNode(t, x, a + [name], body)
        case Err(_) =>
        case Ok(t1) => PreventKidsLike(t1, b, a, rest, e'.rest);
      }
  }

  // ---------- The fixups stay as they are ----------

  lemma {:induction false} ChildAtFlat(t: Tree, name: bytes)
    ensures ChildAt(t, name).Some? ==> Flat(ChildAt(t, name).value)
  {
    if t != Nil {
      ChildAtFlat(t.rest, name);
    }
  }

  /** A new body for one child changes no name. */
  lemma {:induction false} NamesKept(t: Tree, d: Path, x: Tree, name: bytes)
    requires IsNode(t, d) && Flat(d)
    ensures ChildAt(WithBody(t, d, x), name) == ChildAt(t, name)
    decreases d
  {
    if d.Next? {
      NextBody(t, d.tail, x);
      NamesKept(t.rest, d.tail, x, name);
    }
  }

  /** t has the same children as u, at the same places. */
  lemma {:induction false} ReplaceChildAt(t: Tree, name: bytes, v: bytes, other: bytes)
    ensures ChildAt(Replace(t, name, v), other) == ChildAt(t, other)
    ensures ChildAt(t, other).Some? ==>
              TreeAt(Replace(t, name, v), ChildAt(t, other).value) == TreeAt(t, ChildAt(t, other).value)
  {
    if t.PropT? {
      ReplaceChildAt(t.rest, name, v, other);
    }
  }

  lemma {:induction false} MapPropsChildAt(t: Tree, f: Tree, g: u32 -> u32, other: bytes)
    requires MapProps(t, f, g).Ok?
    ensures ChildAt(MapProps(t, f, g).value, other) == ChildAt(t, other)
    ensures ChildAt(t, other).Some? ==>
              TreeAt(MapProps(t, f, g).value, ChildAt(t, other).value) == TreeAt(t, ChildAt(t, other).value)
    decreases f
  {
    if f.PropT? {
      var v := MapWords(Get(t, f.name).value, f.value, 0, g);
      ReplaceChildAt(t, f.name, v, other);
      MapPropsChildAt(Replace(t, f.name, v), f.rest, g, other);
    }
  }

  /** A pass over fixups whose names do not lead to the child x leaves that child alone. */
  lemma {:induction false} MapKidsAside(t: Tree, f: Tree, g: u32 -> u32, x: bytes)
    requires ChildAt(t, x).Some? && Unreached(f, TreeAt(t, ChildAt(t, x).value).name) && MapKids(t, f, g).Ok?
    ensures Kid(MapKids(t, f, g).value, x) == Kid(t, x)
    decreases f
  {
    hide MapNode, NameEq;
    match f
    case Nil =>
    case PropT(_, _, rest) => MapKidsAside(t, rest, g, x);
    case NodeT(name, body, rest) =>
      var y := MapNode(Kid(t, name).value, body, g).value;
      var c, d := ChildAt(t, x).value, ChildAt(t, name).value;
      ChildAtFlat(t, x);
      ChildAtFlat(t, name);
      FlatAside(d, c);
      NamesKept(t, d, y, x);
      OthersKept(t, d, y, c);
      MapKidsAside(PutKid(t, name, y), rest, g, x);
  }

  lemma MapAllFixups(t: Tree, g: u32 -> u32)
    requires FixupsFit(t) && MapAll(t, g).Ok?
    ensures Kid(MapAll(t, g).value, LOCAL_FIXUPS) == Kid(t, LOCAL_FIXUPS)
  {
    hide MapProps, MapKids, Fits, Unreached;
    match Kid(t, LOCAL_FIXUPS)
    case None =>
    case Some(f) =>
      MapPropsChildAt(t, f, g, LOCAL_FIXUPS);
      MapKidsAside(MapProps(t, f, g).value, f, g, LOCAL_FIXUPS);
  }

  /** The node at place k is aside from the fixups of the root body t. */
  ghost predicate AsideFixups(t: Tree, k: Path) {
    ChildAt(t, LOCAL_FIXUPS).Some? ==> Aside(k, Inside(Here, ChildAt(t, LOCAL_FIXUPS).value))
  }

  /** A new body of a node aside from the fixups. */
  lemma FixupsAside(t: Tree, k: Path, x: Tree)
    requires t.NodeT? && IsNode(t, k) && AsideFixups(t.body, k) && Like(t, WithBody(t, k, x))
    ensures WithBody(t, k, x).NodeT? && Kid(WithBody(t, k, x).body, LOCAL_FIXUPS) == Kid(t.body, LOCAL_FIXUPS)
  {
    hide WithBody, BodyAt;
    var u := WithBody(t, k, x);
    LikeChildAt(t.body, u.body, LOCAL_FIXUPS);
    if ChildAt(t.body, LOCAL_FIXUPS).Some? {
      var c := ChildAt(t.body, LOCAL_FIXUPS).value;
      ChildIsNode(t.body, LOCAL_FIXUPS);
      ChildIsNode(u.body, LOCAL_FIXUPS);
      UnderRoot(t, c);
      UnderRoot(u, c);
      OthersKept(t, k, x, Inside(Here, c));
    }
  }

  lemma UnderRoot(t: Tree, c: Path)
    requires t.NodeT? && IsNode(t.body, c)
    ensures IsNode(t, Inside(Here, c)) && BodyAt(t, Inside(Here, c)) == BodyAt(t.body, c)
  {
  }

  lemma FixupsFitLike(t: Tree, u: Tree)
    requires FixupsFit(t) && Like(t, u) && Kid(u, LOCAL_FIXUPS) == Kid(t, LOCAL_FIXUPS)
    ensures FixupsFit(u)
  {
    hide Fits, Unreached;
    LikeChildAt(t, u, LOCAL_FIXUPS);
    if ChildAt(t, LOCAL_FIXUPS).Some? {
      var c := ChildAt(t, LOCAL_FIXUPS).value;
      LikePlace(t, u, c);
      FitsLike(t, u, BodyAt(t, c));
    }
  }

  // ---------- One conflict ----------

  /** One property of overlay_adjust_local_conflicting_phandle. */
  method ConflictingProp(fdto: Fdt, node: int, name: bytes, fdtPhandle: u32, ghost p: Path) returns (ret: int)
    requires Target(fdto, node, p) && IsPath(fdto.forest, p) && fdto.Valid()
    modifies fdto, fdto.mem
    ensures Answers(fdto, old(LayoutOf(fdto)),
                    old(InTree(fdto, p, Ok(ConflictProp(BodyOf(fdto, p), name, fdtPhandle)))), ret)
  {
    hide Fdt.St, Fdt.Strs, Fdt.Front, Fdt.Tree, WithBody, BodyAt, AbsPath, Encodes, Named, IsNode, At, Pos, IsPath,
         Get, Set, Enc32, Walk.GetProperty,
         KeptBut, Dec32, Traverse.PropPath, PropPlace, Alike;
    ghost var q := LookupMeans(fdto, node, name, Some(p));
    ghost var l, t, k := LayoutOf(fdto), fdto.Tree(), AbsPath(fdto.forest, p);
    ghost var b := BodyOf(fdto, p);
    KeepsSelf(fdto);
    WithBodySelf(t, k);
    ConflictPropIs(b, name, fdtPhandle);
    ret := 0;
    var php, len := ReadOnly.GetProperty(fdto, node, name);
    if php >= 0 && len == 4 {
      ret := InPlace.SetPropInplace(fdto, node, name, Enc32(fdtPhandle), Some(p));
    }
  }

  lemma ConflictPropIs(b: Tree, name: bytes, w: u32)
    ensures ConflictProp(b, name, w) ==
            if Get(b, name).Some? && |Get(b, name).value| == 4 then Set(b, name, Enc32(w)) else b
    ensures |Enc32(w)| == 4
  {
  }

  /** overlay_adjust_local_conflicting_phandle */
  method AdjustConflictingPhandle(fdto: Fdt, node: int, fdtPhandle: u32, ghost p: Path) returns (ret: int)
    requires Target(fdto, node, p) && IsPath(fdto.forest, p) && fdto.Valid()
    modifies fdto, fdto.mem
    ensures Answers(fdto, old(LayoutOf(fdto)),
                    old(InTree(fdto, p, Ok(ConflictingPhandle(BodyOf(fdto, p), fdtPhandle)))), ret)
  {
    hide *;
    PassStart(fdto, node, p);
    ghost var l, t, k := LayoutOf(fdto), fdto.Tree(), AbsPath(fdto.forest, p);
    ghost var b := BodyAt(t, k);
    ret := ConflictingProp(fdto, node, PHANDLE, fdtPhandle, p);
    PassDone(fdto, node, l, t, p, ConflictProp(b, PHANDLE, fdtPhandle), ret);
    if ret != 0 {
      return;
    }
    ghost var m := LayoutOf(fdto);
    ret := ConflictingProp(fdto, node, LINUX_PHANDLE, fdtPhandle, p);
    PassTwice(fdto, l, m, t, k, ConflictProp(b, PHANDLE, fdtPhandle),
              ConflictProp(ConflictProp(b, PHANDLE, fdtPhandle), LINUX_PHANDLE, fdtPhandle), ret);
    ConflictingIs(b, fdtPhandle);
  }

  lemma ConflictingIs(b: Tree, w: u32)
    ensures ConflictingPhandle(b, w) == ConflictProp(ConflictProp(b, PHANDLE, w), LINUX_PHANDLE, w)
  {
  }

  /** What a pass that gave the node at p the body x leaves for the next one. */
  lemma PassDone(fdto: Fdt, node: int, l: Layout, t: Tree, p: Path, x: Tree, ret: int)
    requires IsPath(l.forest, p) && At(l.forest, p).Node? && IsNode(t, AbsPath(l.forest, p))
    requires Answers(fdto, l, Within(t, AbsPath(l.forest, p), Ok(x)), ret)
    requires -INT_MAX - 1 <= node <= INT_MAX && node == 4 * Pos(l.forest, p)
    ensures ret == 0 && fdto.Valid() && Keeps(l, fdto) && Changes(l, LayoutOf(fdto)) && Target(fdto, node, p)
    ensures IsPath(fdto.forest, p)
    ensures AbsPath(fdto.forest, p) == AbsPath(l.forest, p) && BodyOf(fdto, p) == x
    ensures fdto.Tree() == WithBody(t, AbsPath(l.forest, p), x)
    ensures forall r: Result<Tree> :: InTree(fdto, p, r) == Within(fdto.Tree(), AbsPath(l.forest, p), r)
  {
    hide Fdt.St, Fdt.Strs, Fdt.Front, Encodes, Named, Abs, WithBody, BodyAt, IsNode;
    KeepsTarget(l, fdto, node, p);
    WithBodyAt(t, AbsPath(l.forest, p), x, x);
  }

  lemma PassTwice(fdto: Fdt, l: Layout, m: Layout, t: Tree, k: Path, x: Tree, y: Tree, ret: int)
    requires Changes(l, m) && IsNode(t, k) && Answers(fdto, m, Within(WithBody(t, k, x), k, Ok(y)), ret)
    ensures Answers(fdto, l, Within(t, k, Ok(y)), ret)
  {
    hide WithBody;
    WithBodyAt(t, k, x, y);
    KeepsTrans(l, m, fdto);
  }

  /**
   * p is the place and a the address of a node of the overlay. The fixups list words of the overlay and lie aside
   * from the node, and no node below it is shadowed.
   */
  ghost predicate Guarded(fdto: Fdt, node: int, p: Path, a: Address)
    reads fdto, fdto.mem
  {
    && Target(fdto, node, p) && Target(fdto, 0, Here) && IsPath(fdto.forest, p)
    && PlaceBy(fdto.Tree(), Here, a) == Some(AbsPath(fdto.forest, p))
    && FixupsFit(BodyOf(fdto, Here)) && AsideFixups(BodyOf(fdto, Here), AbsPath(fdto.forest, p))
    && Exact(BodyOf(fdto, p))
  }

  /** The fixups of the overlay. */
  ghost function FixupsOf(fdto: Fdt): Option<Tree>
    requires fdto.Valid()
    reads fdto, fdto.mem
  {
    Kid(BodyOf(fdto, Here), LOCAL_FIXUPS)
  }

  lemma GuardFacts(fdto: Fdt, node: int, p: Path, a: Address)
    requires Guarded(fdto, node, p, a)
    ensures Target(fdto, node, p) && Target(fdto, 0, Here) && fdto.Valid() && fdto.Laid() && fdto.InBounds()
    ensures fdto.StructIn() && IsPath(fdto.forest, p)
    ensures At(fdto.forest, p).Node? && fdto.forest.Node? && AbsPath(fdto.forest, Here) == Here
    ensures IsPath(fdto.forest, Here)
    ensures -INT_MAX - 1 <= node <= INT_MAX && node == 4 * Pos(fdto.forest, p) && Pos(fdto.forest, Here) == 0
    ensures At(fdto.forest, Here).Node?
    ensures var t, k, l := fdto.Tree(), AbsPath(fdto.forest, p), LayoutOf(fdto);
      && t.NodeT? && IsNode(t, Here) && IsNode(t, k) && BodyOf(fdto, Here) == t.body == BodyAt(t, Here)
      && BodyOf(fdto, p) == BodyAt(t, k)
      && PlaceBy(t, Here, a) == Some(k) && AsideFixups(t.body, k) && FixupsFit(t.body) && Exact(BodyAt(t, k))
      && l.forest == fdto.forest && Wf(l.forest) && Named(l.forest, l.strs) && t == Abs(l.forest, l.strs)
      && l.strs == fdto.Strs()
      && FixupsOf(fdto) == Kid(t.body, LOCAL_FIXUPS)
      && (forall r: Result<Tree> :: InTree(fdto, p, r) == Within(t, k, r))
      && (forall r: Result<Tree> :: InTree(fdto, Here, r) == Within(t, Here, r))
  {
    hide Fdt.St, Fdt.Strs, Encodes;
    EncodesWf(fdto.St(), fdto.forest);
    NodeHere(fdto, node, p);
    NodeHere(fdto, 0, Here);
  }

  /** The guard stays while values change elsewhere than in the fixups. */
  lemma GuardStays(fdto: Fdt, l: Layout, t: Tree, node: int, p: Path, a: Address)
    requires Keeps(l, fdto) && Wf(l.forest) && Named(l.forest, l.strs) && t == Abs(l.forest, l.strs)
    requires l.forest.Node? && IsPath(l.forest, p) && At(l.forest, p).Node? && t.NodeT?
    requires -INT_MAX - 1 <= node <= INT_MAX && node == 4 * Pos(l.forest, p)
    requires var k := AbsPath(l.forest, p);
      PlaceBy(t, Here, a) == Some(k) && AsideFixups(t.body, k) && FixupsFit(t.body) && IsNode(t, k) &&
        Exact(BodyAt(t, k))
    requires FixupsOf(fdto) == Kid(t.body, LOCAL_FIXUPS)
    ensures Guarded(fdto, node, p, a) && Like(t, fdto.Tree())
  {
    hide Fdt.St, Fdt.Strs, Fdt.Front, Encodes, FixupsFit, Exact, Abs;
    var u := fdto.Tree();
    EncodesWf(fdto.St(), fdto.forest);
    AlikeAbs(l.forest, fdto.forest, l.strs);
    KeepsTarget(l, fdto, node, p);
    KeepsTarget(l, fdto, 0, Here);
    var k := AbsPath(l.forest, p);
    LikeNode(t, u, k);
    PlaceByLike(t, u, Here, a);
    LikeChildAt(t.body, u.body, LOCAL_FIXUPS);
    ExactLike(BodyAt(t, k), BodyAt(u, k));
    FixupsFitLike(t.body, u.body);
  }

  /** The overlay body with one conflict resolved, or the error. */
  ghost function Resolved(t: Tree, a: Address, fdtPhandle: u32): Result<Tree> {
    if NodeBy(t, a).None? then Err(0) else Resolve(t, a, fdtPhandle)
  }

  /** The first of the two updates. */
  lemma ConflictSet(fdto: Fdt, l: Layout, t: Tree, node: int, p: Path, a: Address, x: u32)
    requires Keeps(l, fdto) && Wf(l.forest) && Named(l.forest, l.strs) && t == Abs(l.forest, l.strs)
    requires l.forest.Node? && IsPath(l.forest, p) && At(l.forest, p).Node? && t.NodeT?
    requires -INT_MAX - 1 <= node <= INT_MAX && node == 4 * Pos(l.forest, p)
    requires var k := AbsPath(l.forest, p);
      && PlaceBy(t, Here, a) == Some(k) && AsideFixups(t.body, k) && FixupsFit(t.body) && IsNode(t, k)
      && Exact(BodyAt(t, k))
      && fdto.Tree() == WithBody(t, k, ConflictingPhandle(BodyAt(t, k), x))
    ensures Guarded(fdto, node, p, a) && FixupsOf(fdto) == Kid(t.body, LOCAL_FIXUPS)
    ensures var k := AbsPath(l.forest, p);
      && NodeBy(t.body, a) == Some(BodyAt(t, k))
      && fdto.Tree() == WithBody(t, Here, SetBy(t.body, a, ConflictingPhandle(BodyAt(t, k), x)))
      && BodyOf(fdto, Here) == SetBy(t.body, a, ConflictingPhandle(BodyAt(t, k), x))
  {
    hide Fdt.St, Fdt.Strs, Fdt.Front, Encodes, FixupsFit, Exact, Abs, ConflictingPhandle;
    var k := AbsPath(l.forest, p);
    var y := ConflictingPhandle(BodyAt(t, k), x);
    EncodesWf(fdto.St(), fdto.forest);
    AlikeAbs(l.forest, fdto.forest, l.strs);
    PlaceByMeans(t, Here, a, k, y);
    WithBodyAt(t, Here, SetBy(t.body, a, y), Nil);
    FixupsAside(t, k, y);
    GuardStays(fdto, l, t, node, p, a);
  }

  ghost function ResolveGoal(fdto: Fdt, a: Address, fdtPhandle: u32): Result<Tree>
    requires fdto.Valid()
    reads fdto, fdto.mem
  {
    InTree(fdto, Here, Resolved(BodyOf(fdto, Here), a, fdtPhandle))
  }

  lemma ResolveGoalIs(fdto: Fdt, a: Address, x: u32)
    requires fdto.Valid()
    ensures ResolveGoal(fdto, a, x) == InTree(fdto, Here, Resolved(BodyOf(fdto, Here), a, x))
  {
  }

  lemma ResolveIs(t: Tree, a: Address, x: u32, n: Tree)
    requires NodeBy(t, a) == Some(n)
    ensures Resolved(t, a, x) == MapAll(SetBy(t, a, ConflictingPhandle(n, x)), ConflictMap(x, Phandle(n)))
  {
    MapAllIs(SetBy(t, a, ConflictingPhandle(n, x)), 0);
  }

  /** The two updates for a node of the overlay that falls on a node of the base, both with a phandle. */
  method ResolveConflict(fdto: Fdt, node: int, fdtPhandle: u32, fdtoPhandle: u32, ghost p: Path, ghost a: Address)
    returns (ret: int)
    requires Guarded(fdto, node, p, a) && fdto.Valid() && IsPath(fdto.forest, p)
    requires fdtoPhandle == Phandle(BodyOf(fdto, p))
    modifies fdto, fdto.mem
    ensures Answers(fdto, old(LayoutOf(fdto)), old(ResolveGoal(fdto, a, fdtPhandle)), ret)
    ensures ret == 0 ==> fdto.Valid() && FixupsOf(fdto) == old(FixupsOf(fdto))
  {
    hide *;
    GuardFacts(fdto, node, p, a);
    ghost var l, t, k := LayoutOf(fdto), fdto.Tree(), AbsPath(fdto.forest, p);
    ghost var y := ConflictingPhandle(BodyAt(t, k), fdtPhandle);
    ResolveGoalIs(fdto, a, fdtPhandle);
    ret := AdjustConflictingPhandle(fdto, node, fdtPhandle, p);
    PassDone(fdto, node, l, t, p, y, ret);
    ConflictSet(fdto, l, t, node, p, a, fdtPhandle);
    GuardFacts(fdto, node, p, a);
    ghost var m, t1 := LayoutOf(fdto), fdto.Tree();
    var g := ConflictMap(fdtPhandle, fdtoPhandle);
    ReferencesGoalIs(fdto, g);
    ResolveIs(t.body, a, fdtPhandle, BodyAt(t, k));
    ret := UpdateReferences(fdto, g);
    ReferencesDone(fdto, l, m, t, t1, g, ret);
  }

  lemma ReferencesGoalIs(fdto: Fdt, g: u32 -> u32)
    requires fdto.Valid()
    ensures ReferencesGoal(fdto, g) == InTree(fdto, Here, MapAll(BodyOf(fdto, Here), g))
  {
  }

  lemma ReferencesDone(fdto: Fdt, l: Layout, m: Layout, t: Tree, t1: Tree, g: u32 -> u32, ret: int)
    requires Changes(l, m) && t.NodeT? && t1.NodeT? && t1 == WithBody(t, Here, t1.body) && FixupsFit(t1.body)
    requires Answers(fdto, m, Within(t1, Here, MapAll(t1.body, g)), ret)
    ensures Answers(fdto, l, Within(t, Here, MapAll(t1.body, g)), ret)
    ensures ret == 0 ==> fdto.Valid() && FixupsOf(fdto) == Kid(t1.body, LOCAL_FIXUPS)
  {
    hide Fdt.St, Fdt.Strs, Fdt.Front, Encodes, Abs, MapAll, FixupsFit;
    KeepsTrans(l, m, fdto);
    match MapAll(t1.body, g)
    case Err(_) =>
    case Ok(x) =>
      WithBodyAt(t, Here, t1.body, x);
      MapAllFixups(t1.body, g);
  }

  // ---------- The walk over base and overlay ----------

  /** The phandle of a node of the tree. */
  lemma PhandleIs(fdt: Fdt, node: int, p: Path)
    requires Target(fdt, node, p) && IsPath(fdt.forest, p)
    ensures fdt.InBounds() && Phandles.PhandleOf(fdt.St(), fdt.Strs(), node) == Phandle(BodyOf(fdt, p))
  {
    hide Fdt.St, Fdt.Strs, Has, Phandles.PhandleOf, Phandle, Abs;
    NodeAbs(fdt.forest, p, fdt.Strs());
    EncodesAt(fdt.St(), fdt.forest, p);
    Phandles.PhandleHas(fdt.St(), fdt.Strs(), Pos(fdt.forest, p), At(fdt.forest, p));
    NodeParts(At(fdt.forest, p), fdt.Strs());
  }

  /** Only nodes matter to the walk. */
  lemma {:induction false} SkipPrevent(t: Tree, b: Tree, a: Address, f: Forest, strs: bytes)
    requires Wf(f) && Named(f, strs)
    ensures match Traverse.FirstNode(f)
      case None => PreventKids(t, b, a, Abs(f, strs)) == Ok(t)
      case Some(r) =>
        && Wf(At(f, r)) && Named(At(f, r), strs)
        && PreventKids(t, b, a, Abs(f, strs)) == PreventKids(t, b, a, Abs(At(f, r), strs))
    decreases f
  {
    if f.Leaf? {
      SkipPrevent(t, b, a, f.rest, strs);
    }
  }

  lemma {:induction false} AbsFlat(f: Forest, r: Path)
    requires IsPath(f, r) && Flat(r)
    ensures Flat(AbsPath(f, r))
    decreases r
  {
    if r.Next? {
      AbsFlat(f.rest, r.tail);
    }
  }

  /** The entries of the node at p from place r of its body on. */
  ghost function Suffix(fdto: Fdt, p: Path, r: Path): Tree
    requires fdto.Valid()
    reads fdto, fdto.mem
  {
    if IsPath(fdto.forest, Inside(p, r)) && Wf(At(fdto.forest, Inside(p, r))) &&
      Named(At(fdto.forest, Inside(p, r)), fdto.Strs())
    then Abs(At(fdto.forest, Inside(p, r)), fdto.Strs()) else Nil
  }

  /** The blob of the overlay between two rounds of the loop over the children of the node at p. */
  ghost predicate Preventing(fdto: Fdt, node: int, child: int, p: Path, r: Path, a: Address, l: Layout, t: Tree,
                             b: Tree, fx: Option<Tree>,
                             goal: Result<Tree>)
    reads fdto, fdto.mem
  {
    && Keeps(l, fdto) && Guarded(fdto, node, p, a) && FixupsOf(fdto) == fx
    && fdto.Tree() == WithBody(t, Here, BodyOf(fdto, Here))
    && if child >= 0 then
         ChildOf(fdto, child, p, r) && PreventKids(BodyOf(fdto, Here), b, a, Suffix(fdto, p, r)) == goal
       else goal == Ok(BodyOf(fdto, Here))
  }

  /** A child of the overlay node, its entries and its guard. */
  lemma ChildGuarded(fdto: Fdt, node: int, child: int, p: Path, r: Path, a: Address) returns (name: bytes, rest: Tree)
    requires Guarded(fdto, node, p, a) && ChildOf(fdto, child, p, r)
    ensures fdto.Valid() && IsPath(fdto.forest, Inside(p, r)) && At(fdto.forest, Inside(p, r)).Node?
    ensures At(fdto.forest, Inside(p, r)).item.Begin? && At(fdto.forest, Inside(p, r)).item.name == name && 0 !in name
    ensures Guarded(fdto, child, Inside(p, r), a + [name])
    ensures var n := At(fdto.forest, Inside(p, r));
      && Wf(n.rest) && Named(n.rest, fdto.Strs()) && rest == Abs(n.rest, fdto.Strs())
      && Suffix(fdto, p, r) == NodeT(name, BodyOf(fdto, Inside(p, r)), rest)
  {
    hide Fdt.St, Fdt.Strs, Has, Encodes, Abs, Named, FixupsFit, Exact;
    GuardFacts(fdto, node, p, a);
    var f, strs, t := fdto.forest, fdto.Strs(), fdto.Tree();
    var k, body := AbsPath(f, p), At(f, p).body;
    EncodesWf(fdto.St(), f);
    NodeAbs(f, p, strs);
    NodeParts(At(f, p), strs);
    InsideAt(f, p, r, Empty);
    NodeAbs(f, Inside(p, r), strs);
    NodeParts(At(f, Inside(p, r)), strs);
    name := At(f, Inside(p, r)).item.name;
    rest := Abs(At(f, Inside(p, r)).rest, strs);
    AbsPathJoin(f, p, Into(r));
    var c := AbsPath(body, r);
    AbsPut(body, r, Empty, strs);
    AbsFlat(body, r);
    OwnChild(BodyAt(t, k), c);
    PlaceByNext(t, Here, a, k, name);
    ExactAt(BodyAt(t, k), c);
    ExactNode(TreeAt(BodyAt(t, k), c));
    if ChildAt(t.body, LOCAL_FIXUPS).Some? {
      AsideBelow(k, c, Inside(Here, ChildAt(t.body, LOCAL_FIXUPS).value));
    }
  }

  lemma ExactNode(t: Tree)
    requires t.NodeT? && Exact(t)
    ensures Exact(t.body)
  {
  }

  /** The first child, as the start of a loop. */
  method StartPreventing(fdto: Fdt, node: int, ghost p: Path, ghost a: Address, ghost b: Tree)
    returns (child: int, ghost r: Path)
    requires Guarded(fdto, node, p, a) && fdto.Valid() && IsPath(fdto.forest, p)
    ensures Preventing(fdto, node, child, p, r, a, LayoutOf(fdto), fdto.Tree(), b, FixupsOf(fdto),
                       PreventKids(BodyOf(fdto, Here), b, a, BodyOf(fdto, p)))
    ensures Left(fdto, child, Inside(p, r)) < Size(At(fdto.forest, p))
  {
    hide *;
    GuardFacts(fdto, node, p, a);
    child, r := FirstChild(fdto, node, p);
    FirstPrevented(fdto, node, child, p, r, a, b);
  }

  lemma FirstPrevented(fdto: Fdt, node: int, child: int, p: Path, r: Path, a: Address, b: Tree)
    requires Guarded(fdto, node, p, a) && fdto.Valid() && IsPath(fdto.forest, p) && At(fdto.forest, p).Node?
    requires match Traverse.FirstNode(At(fdto.forest, p).body)
      case None => child == -NOTFOUND
      case Some(x) => r == x && ChildOf(fdto, child, p, r)
    ensures Preventing(fdto, node, child, p, r, a, LayoutOf(fdto), fdto.Tree(), b, FixupsOf(fdto),
                       PreventKids(BodyOf(fdto, Here), b, a, BodyOf(fdto, p)))
    ensures Left(fdto, child, Inside(p, r)) < Size(At(fdto.forest, p))
  {
    hide Fdt.St, Fdt.Strs, Fdt.Front, Has, Encodes, Abs, Named, PreventKids, Alike, Guarded, Wf;
    KeepsSelf(fdto);
    GuardFacts(fdto, node, p, a);
    WithBodySelf(fdto.Tree(), Here);
    var n, strs := At(fdto.forest, p), fdto.Strs();
    BodyIs(fdto, p);
    SkipPrevent(BodyOf(fdto, Here), b, a, n.body, strs);
    if child >= 0 {
      InsideAt(fdto.forest, p, r, Empty);
      PosRange(n.body, r);
    }
  }

  lemma BodyIs(fdto: Fdt, p: Path)
    requires fdto.Valid() && IsPath(fdto.forest, p) && At(fdto.forest, p).Node?
    ensures var n := At(fdto.forest, p);
      Wf(n.body) && Named(n.body, fdto.Strs()) && BodyOf(fdto, p) == Abs(n.body, fdto.Strs())
  {
    hide Fdt.St, Fdt.Strs, Has, Abs, Encodes, Named;
    EncodesWf(fdto.St(), fdto.forest);
    NodeAbs(fdto.forest, p, fdto.Strs());
    NodeParts(At(fdto.forest, p), fdto.Strs());
  }

  /** fdt_get_name on a child of a node. */
  method ChildName(fdto: Fdt, child: int, ghost p: Path, ghost r: Path) returns (name: bytes)
    requires ChildOf(fdto, child, p, r) && IsPath(fdto.forest, Inside(p, r)) && At(fdto.forest, Inside(p, r)).Node?
    requires At(fdto.forest, Inside(p, r)).item.Begin?
    ensures name == At(fdto.forest, Inside(p, r)).item.name
  {
    hide Fdt.St, Fdt.Strs, Has, HasFirst, Encodes, Abs, Named, Walk.NameOf, Walk.CheckNode;
    ChildHas(fdto, child, p, r);
    ghost var n := At(fdto.forest, Inside(p, r));
    Traverse.HasHead(fdto.St(), Pos(fdto.forest, Inside(p, r)), n);
    Traverse.NameOfHas(fdto.St(), Pos(fdto.forest, Inside(p, r)), n);
    var len := ReadOnly.GetName(fdto, child);
    name := FdtCore.StSlice(fdto, child + 4, len);
  }

  /** The node of the base that an overlay child falls on. */
  lemma BaseChild(fdt: Fdt, fdtnode: int, bp: Path, name: bytes) returns (c: Path)
    requires Target(fdt, fdtnode, bp) && IsPath(fdt.forest, bp) && Kid(BodyOf(fdt, bp), name).Some?
    ensures Target(fdt, Walk.SubnodeOffset(fdt.St(), fdtnode, name), c) && fdt.Valid() && IsPath(fdt.forest, c)
    ensures BodyOf(fdt, c) == Kid(BodyOf(fdt, bp), name).value && Walk.SubnodeOffset(fdt.St(), fdtnode, name) >= 0
  {
    hide Fdt.St, Fdt.Strs, Has, Encodes, Named, NameEq, Walk.SubnodeOffset, Abs;
    NodeHere(fdt, fdtnode, bp);
    var d := ChildOffset(fdt, fdtnode, bp, name);
    c := Inside(bp, d);
    ChildInside(fdt.Tree(), AbsPath(fdt.forest, bp), name, Nil);
  }

  /** The result of the walk over a node, for the overlay body; or the error. */
  ghost function PreventGoal(fdt: Fdt, bp: Path, fdto: Fdt, p: Path, a: Address): Result<Tree>
    requires fdt.Valid() && IsPath(fdt.forest, bp) && fdto.Valid() && IsPath(fdto.forest, p)
    reads fdt, fdt.mem, fdto, fdto.mem
  {
    InTree(fdto, Here, PreventNode(BodyOf(fdto, Here), BodyOf(fdt, bp), a, BodyOf(fdto, p)))
  }

  lemma PreventGoalIs(fdt: Fdt, bp: Path, fdto: Fdt, p: Path, a: Address)
    requires fdt.Valid() && IsPath(fdt.forest, bp) && fdto.Valid() && IsPath(fdto.forest, p)
    ensures PreventGoal(fdt, bp, fdto, p, a) ==
            Within(fdto.Tree(), AbsPath(fdto.forest, Here),
                   PreventNode(BodyOf(fdto, Here), BodyOf(fdt, bp), a, BodyOf(fdto, p)))
  {
  }

  ghost function PreventKidsGoal(fdt: Fdt, bp: Path, fdto: Fdt, p: Path, a: Address): Result<Tree>
    requires fdt.Valid() && IsPath(fdt.forest, bp) && fdto.Valid() && IsPath(fdto.forest, p)
    reads fdt, fdt.mem, fdto, fdto.mem
  {
    InTree(fdto, Here, PreventKids(BodyOf(fdto, Here), BodyOf(fdt, bp), a, BodyOf(fdto, p)))
  }

  lemma PreventKidsGoalIs(fdt: Fdt, bp: Path, fdto: Fdt, p: Path, a: Address)
    requires fdt.Valid() && IsPath(fdt.forest, bp) && fdto.Valid() && IsPath(fdto.forest, p)
    ensures PreventKidsGoal(fdt, bp, fdto, p, a) ==
            Within(fdto.Tree(), AbsPath(fdto.forest, Here),
                   PreventKids(BodyOf(fdto, Here), BodyOf(fdt, bp), a, BodyOf(fdto, p)))
  {
  }

  lemma PreventingFacts(fdto: Fdt, node: int, child: int, p: Path, r: Path, a: Address, l: Layout, t: Tree, b: Tree,
                        fx: Option<Tree>,
                        goal: Result<Tree>)
    requires Preventing(fdto, node, child, p, r, a, l, t, b, fx, goal)
    ensures Guarded(fdto, node, p, a) && fdto.Valid() && FixupsOf(fdto) == fx && Keeps(l, fdto)
    ensures Changes(l, LayoutOf(fdto))
    ensures child >= 0 ==>
              ChildOf(fdto, child, p, r) && PreventKids(BodyOf(fdto, Here), b, a, Suffix(fdto, p, r)) == goal
    ensures child < 0 ==> goal == Ok(BodyOf(fdto, Here))
    ensures fdto.Tree() == WithBody(t, Here, BodyOf(fdto, Here))
  {
    hide Fdt.St, Fdt.Strs, Guarded;
  }

  /** A round, up to the next child: the tree was t1, with entries e1 from the child on. */
  lemma PreventNext(fdto: Fdt, node: int, child: int, p: Path, r: Path, a: Address, l: Layout, t: Tree, b: Tree,
                    fx: Option<Tree>, goal: Result<Tree>,
                    m: Layout, t1: Tree, name: bytes, body: Tree, rest: Tree, next: int, r': Path)
    requires Keeps(l, fdto) && Guarded(fdto, node, p, a) && FixupsOf(fdto) == fx && ChildOf(fdto, child, p, r)
    requires fdto.Tree() == WithBody(t, Here, BodyOf(fdto, Here))
    requires PreventKids(t1, b, a, NodeT(name, body, rest)) == goal
    requires ChildResult(t1, b, a, name, body) == Ok(BodyOf(fdto, Here))
    requires IsPath(m.forest, Inside(p, r)) && At(m.forest, Inside(p, r)).Node? && Keeps(m, fdto)
    requires Wf(At(m.forest, Inside(p, r)).rest) && Named(At(m.forest, Inside(p, r)).rest, m.strs)
    requires rest == Abs(At(m.forest, Inside(p, r)).rest, m.strs)
    requires IsPath(fdto.forest, Inside(p, r)) && At(fdto.forest, Inside(p, r)).Node?
    requires match Traverse.FirstNode(At(fdto.forest, Inside(p, r)).rest)
      case None => next == -NOTFOUND
      case Some(x) => r' == Join(r, Next(x)) && ChildOf(fdto, next, p, r')
    ensures Preventing(fdto, node, next, p, r', a, l, t, b, fx, goal)
    ensures Left(fdto, next, Inside(p, r')) < Left(fdto, child, Inside(p, r))
  {
    hide Fdt.St, Fdt.Strs, Fdt.Front, Has, Encodes, Abs, Named, PreventKids, PreventNode, Alike, Guarded, Wf;
    var g, c, t2, strs := fdto.forest, Inside(p, r), BodyOf(fdto, Here), fdto.Strs();
    WalkedKids(t1, t2, b, a, name, body, rest);
    AlikePlace(m.forest, g, c);
    AlikeRests(m.forest, g, c);
    EncodesWf(fdto.St(), g);
    NodeAbs(g, c, strs);
    NodeParts(At(g, c), strs);
    AlikeAbs(At(m.forest, c).rest, At(g, c).rest, strs);
    PreventKidsLike(t2, b, a, rest, Abs(At(g, c).rest, strs));
    SkipPrevent(t2, b, a, At(g, c).rest, strs);
    match Traverse.FirstNode(At(g, c).rest)
    case None =>
    case Some(y) =>
      JoinInside(p, r, Next(y));
      JoinAt(g, c, Next(y), Empty);
      PosRange(At(g, c).rest, y);
  }

  lemma AlikeRests(f: Forest, g: Forest, p: Path)
    requires IsPath(f, p) && At(f, p).Node? && IsPath(g, p) && Alike(At(f, p), At(g, p))
    ensures At(g, p).Node? && Alike(At(f, p).rest, At(g, p).rest)
  {
  }

  lemma WalkedKids(t1: Tree, t2: Tree, b: Tree, a: Address, name: bytes, body: Tree, rest: Tree)
    requires ChildResult(t1, b, a, name, body) == Ok(t2)
    ensures PreventKids(t1, b, a, NodeT(name, body, rest)) == PreventKids(t2, b, a, rest)
  {
  }

  lemma WalkFailed(fdto: Fdt, l: Layout, m: Layout, t: Tree, t1: Tree, b: Tree, a: Address, name: bytes, body: Tree,
                   rest: Tree,
                   goal: Result<Tree>, ret: int)
    requires Changes(l, m) && ret != 0
    requires t1.NodeT? && Answers(fdto, m, Within(t1, Here, ChildResult(t1.body, b, a, name, body)), ret)
    requires PreventKids(t1.body, b, a, NodeT(name, body, rest)) == goal
    ensures Answers(fdto, l, Within(t, Here, goal), ret)
  {
    KeepsTrans(l, m, fdto);
  }

  /** The walk over a child is done: the guard stays, and what has changed is the overlay body. */
  lemma WalkDone(fdto: Fdt, l: Layout, m: Layout, t: Tree, t1: Tree, b: Tree, a: Address, node: int, child: int,
                 p: Path, r: Path, name: bytes, body: Tree)
    requires Changes(l, m) && t.NodeT? && t1.NodeT? && t1 == WithBody(t, Here, t1.body)
    requires Answers(fdto, m, Within(t1, Here, ChildResult(t1.body, b, a, name, body)), 0)
    requires Wf(m.forest) && Named(m.forest, m.strs) && t1 == Abs(m.forest, m.strs) && m.forest.Node?
    requires IsPath(m.forest, p) && At(m.forest, p).Node? && -INT_MAX - 1 <= node <= INT_MAX
    requires node == 4 * Pos(m.forest, p)
    requires var k := AbsPath(m.forest, p);
      PlaceBy(t1, Here, a) == Some(k) && AsideFixups(t1.body, k) && FixupsFit(t1.body) && IsNode(t1, k) &&
        Exact(BodyAt(t1, k))
    requires fdto.Valid() && FixupsOf(fdto) == Kid(t1.body, LOCAL_FIXUPS)
    requires Flat(r) && IsPath(At(m.forest, p).body, r) && IsPath(m.forest, Inside(p, r))
    requires At(m.forest, Inside(p, r)).Node?
    requires child >= 0 && -INT_MAX - 1 <= child <= INT_MAX && child == 4 * Pos(m.forest, Inside(p, r))
    ensures fdto.Tree() == WithBody(t, Here, BodyOf(fdto, Here))
    ensures Keeps(l, fdto) && Keeps(m, fdto) && Guarded(fdto, node, p, a) && ChildOf(fdto, child, p, r)
    ensures IsPath(fdto.forest, Inside(p, r)) && At(fdto.forest, Inside(p, r)).Node?
    ensures ChildResult(t1.body, b, a, name, body) == Ok(BodyOf(fdto, Here))
    ensures Left(fdto, child, Inside(p, r)) == Size(At(m.forest, Inside(p, r)))
  {
    hide Fdt.St, Fdt.Strs, Fdt.Front, Has, Encodes, Abs, Named, PreventNode, Alike, Guarded, Wf, FixupsFit, Exact,
         AsideFixups;
    KeepsTrans(l, m, fdto);
    GuardStays(fdto, m, t1, node, p, a);
    ChildStays(m, fdto, child, p, r);
    GuardFacts(fdto, node, p, a);
    var x := ChildResult(t1.body, b, a, name, body).value;
    WithBodyAt(t1, Here, x, x);
    WithBodyAt(t, Here, t1.body, x);
  }

  /** A round of the loop over the children of the overlay node. */
  method PreventRound(fdt: Fdt, fdtnode: int, fdto: Fdt, fdtonode: int, child: nat, ghost bp: Path, ghost p: Path,
                      ghost r: Path, ghost a: Address,
                      ghost l: Layout, ghost t: Tree, ghost fx: Option<Tree>, ghost goal: Result<Tree>)
    returns (ret: int, next: int, ghost r': Path)
    requires fdt != fdto && fdt.mem != fdto.mem && Target(fdt, fdtnode, bp) && fdt.Valid() && IsPath(fdt.forest, bp)
    requires t.NodeT?
    requires Preventing(fdto, fdtonode, child, p, r, a, l, t, BodyOf(fdt, bp), fx, goal)
    modifies fdto, fdto.mem
    ensures ret != 0 ==> Answers(fdto, l, Within(t, Here, goal), ret)
    ensures ret == 0 ==> Preventing(fdto, fdtonode, next, p, r', a, l, t, BodyOf(fdt, bp), fx, goal)
    ensures ret == 0 ==> Left(fdto, next, Inside(p, r')) < old(Left(fdto, child, Inside(p, r)))
    decreases Left(fdto, child, Inside(p, r)), 4
  {
    hide *;
    ghost var b, c := BodyOf(fdt, bp), Inside(p, r);
    PreventingFacts(fdto, fdtonode, child, p, r, a, l, t, b, fx, goal);
    GuardFacts(fdto, fdtonode, p, a);
    ChildParts(fdto, child, p, r);
    ghost var m, t1 := LayoutOf(fdto), fdto.Tree();
    ghost var n, rest := ChildGuarded(fdto, fdtonode, child, p, r, a);
    GuardFacts(fdto, child, c, a + [n]);
    LeftIs(fdto, child, c);
    ghost var body := BodyOf(fdto, c);
    next, r' := child, r;
    var name := ChildName(fdto, child, p, r);
    ChildGoalIs(fdt, bp, fdto, c, a, name);
    ret := PreventChild(fdt, fdtnode, fdto, child, name, bp, c, a);
    if ret != 0 {
      WalkFailed(fdto, l, m, t, t1, b, a, name, body, rest, goal, ret);
      return;
    }
    WalkDone(fdto, l, m, t, t1, b, a, fdtonode, child, p, r, name, body);
    GuardFacts(fdto, fdtonode, p, a);
    next, r' := NextChild(fdto, child, p, r);
    PreventNext(fdto, fdtonode, child, p, r, a, l, t, b, fx, goal, m, t1.body, name, body, rest, next, r');
  }

  /** What a round does to the overlay body. */
  ghost function ChildResult(t: Tree, b: Tree, a: Address, name: bytes, body: Tree): Result<Tree> {
    match Kid(b, name)
    case None => Ok(t)
    case Some(x) => PreventNode(t, x, a + [name], body)
  }

  ghost function ChildGoal(fdt: Fdt, bp: Path, fdto: Fdt, c: Path, a: Address, name: bytes): Result<Tree>
    requires fdt.Valid() && IsPath(fdt.forest, bp) && fdto.Valid() && IsPath(fdto.forest, c)
    reads fdt, fdt.mem, fdto, fdto.mem
  {
    InTree(fdto, Here, ChildResult(BodyOf(fdto, Here), BodyOf(fdt, bp), a, name, BodyOf(fdto, c)))
  }

  lemma ChildGoalIs(fdt: Fdt, bp: Path, fdto: Fdt, c: Path, a: Address, name: bytes)
    requires fdt.Valid() && IsPath(fdt.forest, bp) && fdto.Valid() && IsPath(fdto.forest, c)
    ensures ChildGoal(fdt, bp, fdto, c, a, name) == 
            Within(fdto.Tree(), AbsPath(fdto.forest, Here),
                   ChildResult(BodyOf(fdto, Here), BodyOf(fdt, bp), a, name, BodyOf(fdto, c)))
  {
  }

  /** A child of the overlay is passed over if the base does not have it, and walked over if it does. */
  method PreventChild(fdt: Fdt, fdtnode: int, fdto: Fdt, child: nat, name: bytes, ghost bp: Path, ghost c: Path,
                      ghost a: Address)
    returns (ret: int)
    requires fdt != fdto && fdt.mem != fdto.mem && Target(fdt, fdtnode, bp) && fdt.Valid() && IsPath(fdt.forest, bp)
    requires Guarded(fdto, child, c, a + [name]) && fdto.Valid() && IsPath(fdto.forest, c)
    modifies fdto, fdto.mem
    ensures Answers(fdto, old(LayoutOf(fdto)), old(ChildGoal(fdt, bp, fdto, c, a, name)), ret)
    ensures ret == 0 ==> fdto.Valid() && FixupsOf(fdto) == old(FixupsOf(fdto))
    decreases Size(At(fdto.forest, c)), 3
  {
    hide *;
    ChildGoalIs(fdt, bp, fdto, c, a, name);
    PassStart(fdt, fdtnode, bp);
    GuardFacts(fdto, child, c, a + [name]);
    KidOffset(fdt, fdtnode, bp, name);
    ErrorCodes();
    ValidBounds(fdt);
    var fdtchild := ReadOnly.SubnodeOffset(fdt, fdtnode, name);
    ChildResultIs(BodyOf(fdto, Here), BodyOf(fdt, bp), a, name, BodyOf(fdto, c));
    if fdtchild == -NOTFOUND {
      Untaken(fdto);
      return 0;
    }
    ghost var bc := BaseChild(fdt, fdtnode, bp, name);
    PreventGoalIs(fdt, bc, fdto, c, a + [name]);
    ret := PreventOverwriteNode(fdt, fdtchild, fdto, child, bc, c, a + [name]);
  }

  lemma ChildResultIs(t: Tree, b: Tree, a: Address, name: bytes, body: Tree)
    ensures ChildResult(t, b, a, name, body) ==
            match Kid(b, name) case None => Ok(t) case Some(x) => PreventNode(t, x, a + [name], body)
  {
  }

  lemma Untaken(fdto: Fdt)
    requires fdto.Valid() && fdto.Tree().NodeT?
    ensures Answers(fdto, LayoutOf(fdto), Within(fdto.Tree(), Here, Ok(fdto.Tree().body)), 0)
  {
    KeepsSelf(fdto);
    WithBodySelf(fdto.Tree(), Here);
  }

  /** The loop of overlay_prevent_phandle_overwrite_node over the children of the overlay node. */
  method PreventChildren(fdt: Fdt, fdtnode: int, fdto: Fdt, fdtonode: int, ghost bp: Path, ghost p: Path,
                         ghost a: Address)
    returns (ret: int)
    requires fdt != fdto && fdt.mem != fdto.mem && Target(fdt, fdtnode, bp) && fdt.Valid() && IsPath(fdt.forest, bp)
    requires Guarded(fdto, fdtonode, p, a) && fdto.Valid() && IsPath(fdto.forest, p)
    modifies fdto, fdto.mem
    ensures Answers(fdto, old(LayoutOf(fdto)), old(PreventKidsGoal(fdt, bp, fdto, p, a)), ret)
    ensures ret == 0 ==> fdto.Valid() && FixupsOf(fdto) == old(FixupsOf(fdto))
    decreases Size(At(fdto.forest, p)), 0
  {
    hide *;
    PassStart(fdt, fdtnode, bp);
    GuardFacts(fdto, fdtonode, p, a);
    PreventKidsGoalIs(fdt, bp, fdto, p, a);
    ghost var l, t, b, fx := LayoutOf(fdto), fdto.Tree(), BodyOf(fdt, bp), FixupsOf(fdto);
    ghost var goal := PreventKids(t.body, b, a, BodyOf(fdto, p));
    var child;
    ghost var r;
    child, r := StartPreventing(fdto, fdtonode, p, a, b);
    while child >= 0
      invariant Preventing(fdto, fdtonode, child, p, r, a, l, t, b, fx, goal)
      invariant Left(fdto, child, Inside(p, r)) < Size(At(l.forest, p))
      decreases Left(fdto, child, Inside(p, r))
    {
      ret, child, r := PreventRound(fdt, fdtnode, fdto, fdtonode, child, bp, p, r, a, l, t, fx, goal);
      if ret != 0 {
        return;
      }
    }
    PreventingFacts(fdto, fdtonode, child, p, r, a, l, t, b, fx, goal);
    GuardFacts(fdto, fdtonode, p, a);
    PreventedAll(fdto, l, t, goal);
    ret := 0;
  }

  lemma ValidBounds(fdt: Fdt)
    requires fdt.Valid()
    ensures fdt.InBounds() && fdt.StructIn()
  {
  }

  lemma LeftIs(fdt: Fdt, child: int, c: Path)
    requires child >= 0 && IsPath(fdt.forest, c)
    ensures Left(fdt, child, c) == Size(At(fdt.forest, c))
  {
  }

  lemma PreventedAll(fdto: Fdt, l: Layout, t: Tree, goal: Result<Tree>)
    requires Keeps(l, fdto) && goal == Ok(BodyOf(fdto, Here)) && fdto.Tree() == WithBody(t, Here, BodyOf(fdto, Here))
    ensures Answers(fdto, l, Within(t, Here, goal), 0)
  {
  }

  /** overlay_prevent_phandle_overwrite_node */
  method PreventOverwriteNode(fdt: Fdt, fdtnode: int, fdto: Fdt, fdtonode: int, ghost bp: Path, ghost p: Path,
                              ghost a: Address)
    returns (ret: int)
    requires fdt != fdto && fdt.mem != fdto.mem && Target(fdt, fdtnode, bp) && fdt.Valid() && IsPath(fdt.forest, bp)
    requires Guarded(fdto, fdtonode, p, a) && fdto.Valid() && IsPath(fdto.forest, p)
    modifies fdto, fdto.mem
    ensures Answers(fdto, old(LayoutOf(fdto)), old(PreventGoal(fdt, bp, fdto, p, a)), ret)
    ensures ret == 0 ==> fdto.Valid() && FixupsOf(fdto) == old(FixupsOf(fdto))
    decreases Size(At(fdto.forest, p)), 2
  {
    hide *;
    PassStart(fdt, fdtnode, bp);
    ValidBounds(fdt);
    GuardFacts(fdto, fdtonode, p, a);
    PreventGoalIs(fdt, bp, fdto, p, a);
    ghost var l, t, b, o := LayoutOf(fdto), fdto.Tree(), BodyOf(fdt, bp), BodyOf(fdto, p);
    PhandleIs(fdt, fdtnode, bp);
    PhandleIs(fdto, fdtonode, p);
    var fdtPhandle := Phandles.GetPhandle(fdt, fdtnode);
    var fdtoPhandle := Phandles.GetPhandle(fdto, fdtonode);
    NodeAt(t, a, AbsPath(fdto.forest, p), b);
    if fdtPhandle != 0 && fdtoPhandle != 0 {
      ResolveGoalIs(fdto, a, fdtPhandle);
      ret := ResolveConflict(fdto, fdtonode, fdtPhandle, fdtoPhandle, p, a);
      if ret != 0 {
        ResolveFailed(fdto, l, t, b, a, o, ret);
        return;
      }
      ResolveDone(fdto, l, t, b, a, fdtonode, p);
    } else {
      NoConflict(fdto, t, b, a, o, p);
    }
    GuardFacts(fdto, fdtonode, p, a);
    ghost var m, t1, o1 := LayoutOf(fdto), fdto.Tree(), BodyOf(fdto, p);
    PreventKidsGoalIs(fdt, bp, fdto, p, a);
    ret := PreventChildren(fdt, fdtnode, fdto, fdtonode, bp, p, a);
    PreventedNode(fdto, l, m, t, t1, b, a, o, o1, ret);
  }

  /** t1 is the overlay body t with the conflict at a, if there is one, resolved. */
  ghost predicate Settled(t: Tree, t1: Tree, b: Tree, a: Address) {
    if Phandle(b) != 0 && PhandleAt(t, a) != 0 then Resolved(t, a, Phandle(b)) == Ok(t1) else t1 == t
  }

  lemma NodeAt(t: Tree, a: Address, k: Path, b: Tree)
    requires t.NodeT? && IsNode(t, k) && PlaceBy(t, Here, a) == Some(k)
    ensures NodeBy(t.body, a) == Some(BodyAt(t, k)) && PhandleAt(t.body, a) == Phandle(BodyAt(t, k))
  {
    PlaceByMeans(t, Here, a, k, Nil);
  }

  lemma NoConflict(fdto: Fdt, t: Tree, b: Tree, a: Address, o: Tree, p: Path)
    requires fdto.Valid() && t == fdto.Tree() && t.NodeT? && IsPath(fdto.forest, p) && o == BodyOf(fdto, p)
    requires NodeBy(t.body, a) == Some(o) && !(Phandle(b) != 0 && Phandle(o) != 0)
    ensures Settled(t.body, t.body, b, a) && t == WithBody(t, Here, t.body) && Like(o, o)
    ensures Changes(LayoutOf(fdto), LayoutOf(fdto))
  {
    hide Fdt.St, Fdt.Strs, Phandle;
    LikeSelf(o);
    KeepsSelf(fdto);
  }

  lemma {:induction false} LikeSelf(t: Tree)
    ensures Like(t, t)
  {
    if t != Nil {
      LikeSelf(t.rest);
      if t.NodeT? {
        LikeSelf(t.body);
      }
    }
  }

  lemma ResolveFailed(fdto: Fdt, l: Layout, t: Tree, b: Tree, a: Address, o: Tree, ret: int)
    requires t.NodeT? && NodeBy(t.body, a) == Some(o) && Phandle(b) != 0 && Phandle(o) != 0 && ret != 0
    requires Answers(fdto, l, Within(t, Here, Resolved(t.body, a, Phandle(b))), ret)
    ensures Answers(fdto, l, Within(t, Here, PreventNode(t.body, b, a, o)), ret)
  {
    hide Resolve;
  }

  lemma ResolveDone(fdto: Fdt, l: Layout, t: Tree, b: Tree, a: Address, node: int, p: Path)
    requires t.NodeT? && Answers(fdto, l, Within(t, Here, Resolved(t.body, a, Phandle(b))), 0)
    requires Wf(l.forest) && Named(l.forest, l.strs) && t == Abs(l.forest, l.strs)
    requires l.forest.Node? && IsPath(l.forest, p) && At(l.forest, p).Node? && t.NodeT?
    requires -INT_MAX - 1 <= node <= INT_MAX && node == 4 * Pos(l.forest, p)
    requires var k := AbsPath(l.forest, p);
      PlaceBy(t, Here, a) == Some(k) && AsideFixups(t.body, k) && FixupsFit(t.body) && IsNode(t, k) &&
        Exact(BodyAt(t, k))
    requires fdto.Valid() && FixupsOf(fdto) == Kid(t.body, LOCAL_FIXUPS)
    requires Phandle(b) != 0 && Phandle(BodyAt(t, AbsPath(l.forest, p))) != 0
    ensures Guarded(fdto, node, p, a) && fdto.Valid() && IsPath(fdto.forest, p) && Keeps(l, fdto)
    ensures Settled(t.body, BodyOf(fdto, Here), b, a) && fdto.Tree() == WithBody(t, Here, BodyOf(fdto, Here))
    ensures Like(BodyAt(t, AbsPath(l.forest, p)), BodyOf(fdto, p)) && Changes(l, LayoutOf(fdto))
    ensures Size(At(fdto.forest, p)) == Size(At(l.forest, p))
  {
    hide Fdt.St, Fdt.Strs, Fdt.Front, Encodes, Named, Abs, Wf, Resolved, FixupsFit, Exact, AsideFixups, Phandle,
         Guarded;
    var x := Resolved(t.body, a, Phandle(b)).value;
    var k := AbsPath(l.forest, p);
    GuardStays(fdto, l, t, node, p, a);
    GuardFacts(fdto, node, p, a);
    NodeAt(t, a, k, b);
    WithBodyAt(t, Here, x, x);
    KeepsTarget(l, fdto, node, p);
    LikeNode(t, fdto.Tree(), k);
    AlikePlace(l.forest, fdto.forest, p);
    AlikeSize(At(l.forest, p), At(fdto.forest, p));
  }

  lemma PreventedNode(fdto: Fdt, l: Layout, m: Layout, t: Tree, t1: Tree, b: Tree, a: Address, o: Tree, o1: Tree,
                      ret: int)
    requires t.NodeT? && t1.NodeT? && NodeBy(t.body, a).Some? && Changes(l, m) && Settled(t.body, t1.body, b, a)
    requires Like(o, o1)
    requires t1 == WithBody(t, Here, t1.body)
    requires Answers(fdto, m, Within(t1, Here, PreventKids(t1.body, b, a, o1)), ret)
    ensures Answers(fdto, l, Within(t, Here, PreventNode(t.body, b, a, o)), ret)
  {
    hide Fdt.St, Fdt.Strs, Fdt.Front, Encodes, Named, Abs, Resolve;
    PreventKidsLike(t1.body, b, a, o, o1);
    KeepsTrans(l, m, fdto);
    var r := PreventKids(t1.body, b, a, o);
    WithBodyAt(t, Here, t1.body, if r.Ok? then r.value else Nil);
  }
}
