/** libfdt/fdt_overlay.c: the loops over the fragments, and fdt_overlay_apply, on two blobs. */
module Fragments {
  import opened Bytes
  import opened Tags
  import opened Blob
  import opened Forests
  import opened Edits
  import opened Trees
  import opened Walk
  import opened Merging
  import opened ReadWrite
  import opened Applying
  import opened Overlay
  import opened Renumber
  import opened References
  import opened Conflicts
  import opened Targets
  import opened Symbols
  import ReadOnly
  import Traverse
  import OverlayApply
  import Phandles
  import SeqWrite

  const FIXUPS: bytes := [0x5f, 0x5f, 0x66, 0x69, 0x78, 0x75, 0x70, 0x73, 0x5f, 0x5f]  // "__fixups__"

  // ---------- The loops, on trees ----------

  /** One fragment, called name, of the overlay body t: its phandles, for the base tree. */
  ghost function PreventFrag(t: Tree, base: Tree, name: bytes): Result<Tree> {
    match NodeBy(t, [name])
    case None => Ok(t)
    case Some(frag) =>
      match Kid(frag, OVERLAY)
      case None => Ok(t)
      case Some(o) =>
        match TargetOf(base, frag)
        case Err(x) => if x == -NOTFOUND then Ok(t) else Err(x)
        case Ok(k) => PreventNode(t, BodyAt(base, k), [name, OVERLAY], o)
  }

  /** overlay_prevent_phandle_overwrite, from the entries e of the overlay body on. */
  ghost function PreventFrags(t: Tree, base: Tree, e: Tree): Result<Tree>
    decreases e
  {
    match e
    case Nil => Ok(t)
    case PropT(_, _, rest) => PreventFrags(t, base, rest)
    case NodeT(name, _, rest) =>
      match PreventFrag(t, base, name)
      case Err(x) => Err(x)
      case Ok(t1) => PreventFrags(t1, base, rest)
  }

  /** One fragment with the given body, merged into the base tree. */
  ghost function MergeFrag(base: Tree, frag: Tree): Result<Tree> {
    match Kid(frag, OVERLAY)
    case None => Ok(base)
    case Some(o) =>
      match TargetOf(base, frag)
      case Err(x) => Err(x)
      case Ok(k) => Ok(WithBody(base, k, Merge(BodyAt(base, k), o)))
  }

  /** overlay_merge, from the entries e of the overlay body on. */
  ghost function MergeFrags(base: Tree, e: Tree): Result<Tree>
    decreases e
  {
    match e
    case Nil => Ok(base)
    case PropT(_, _, rest) => MergeFrags(base, rest)
    case NodeT(_, body, rest) =>
      match MergeFrag(base, body)
      case Err(x) => Err(x)
      case Ok(b1) => MergeFrags(b1, rest)
  }

  /** The room that the merge of a fragment with the given body takes at most. */
  ghost function FragRoom(frag: Tree): nat {
    match Kid(frag, OVERLAY)
    case None => 0
    case Some(o) => Room(o)
  }

  /** The room that the merge of all fragments takes at most, from the entries e of the overlay body on. */
  ghost function FragsRoom(e: Tree): nat {
    match e
    case Nil => 0
    case PropT(_, _, rest) => FragsRoom(rest)
    case NodeT(_, body, rest) => FragRoom(body) + FragsRoom(rest)
  }

  /** The room for the merges is no more than what the overlay itself takes, when no name is shared. */
  lemma {:induction false} FragsBound(e: Tree)
    ensures FragsRoom(e) <= SeqWrite.StructSize(e) + NameBytes(e)
  {
    match e
    case Nil =>
    case PropT(_, _, rest) => FragsBound(rest);
    case NodeT(_, body, rest) =>
      FragsBound(rest);
      KidBound(body, OVERLAY);
      if Kid(body, OVERLAY).Some? {
        RoomBound(Kid(body, OVERLAY).value);
      }
  }

  lemma {:induction false} KidBound(t: Tree, name: bytes)
    ensures Kid(t, name).Some? ==>
              var kid := Kid(t, name).value;
              SeqWrite.StructSize(kid) + NameBytes(kid) <= SeqWrite.StructSize(t) + NameBytes(t)
  {
    hide NameEq;
    if t != Nil {
      KidBound(t.rest, name);
      if !(t.NodeT? && NameEq(t.name, name)) {
        KidNext(t, name);
      }
    }
  }

  lemma FragsRoomNode(name: bytes, body: Tree, rest: Tree)
    ensures FragsRoom(NodeT(name, body, rest)) == FragRoom(body) + FragsRoom(rest)
  {
  }

  lemma {:induction false} SkipFragsRoom(f: Forest, strs: bytes)
    requires Wf(f) && Named(f, strs)
    ensures match Traverse.FirstNode(f)
      case None => FragsRoom(Abs(f, strs)) == 0
      case Some(r) => Wf(At(f, r)) && Named(At(f, r), strs) && FragsRoom(Abs(f, strs)) == FragsRoom(Abs(At(f, r), strs))
    decreases f
  {
    hide FragRoom;
    if f.Leaf? {
      SkipFragsRoom(f.rest, strs);
    }
  }

  lemma {:induction false} PreventFragsLike(t: Tree, base: Tree, e: Tree, e': Tree)
    requires Like(e, e')
    ensures PreventFrags(t, base, e') == PreventFrags(t, base, e)
    decreases e
  {
    hide PreventFrag;
    match e
    case Nil =>
    case PropT(_, _, rest) => PreventFragsLike(t, base, rest, e'.rest);
    case NodeT(name, _, rest) =>
      match PreventFrag(t, base, name)
      case Err(_) =>
      case Ok(t1) => PreventFragsLike(t1, base, rest, e'.rest);
  }

  lemma {:induction false} SkipFrags(t: Tree, base: Tree, f: Forest, strs: bytes)
    requires Wf(f) && Named(f, strs)
    ensures match Traverse.FirstNode(f)
      case None => PreventFrags(t, base, Abs(f, strs)) == Ok(t) && MergeFrags(t, Abs(f, strs)) == Ok(t)
      case Some(r) =>
        && Wf(At(f, r)) && Named(At(f, r), strs)
        && PreventFrags(t, base, Abs(f, strs)) == PreventFrags(t, base, Abs(At(f, r), strs))
        && MergeFrags(t, Abs(f, strs)) == MergeFrags(t, Abs(At(f, r), strs))
    decreases f
  {
    if f.Leaf? {
      SkipFrags(t, base, f.rest, strs);
    }
  }

  // ---------- One fragment ----------

  /** The overlay: its fixups list words of its values and are no fragment, and no node is shadowed. */
  ghost predicate RootGuard(fdto: Fdt)
    reads fdto, fdto.mem
  {
    && Target(fdto, 0, Here) && IsPath(fdto.forest, Here) && FixupsFit(BodyOf(fdto, Here)) && Exact(BodyOf(fdto, Here))
    && (FixupsOf(fdto).Some? ==> Kid(FixupsOf(fdto).value, OVERLAY).None?)
  }

  /** The fragment at place c of the overlay, called name. */
  ghost predicate FragmentAt(fdto: Fdt, fragment: int, c: Path, name: bytes)
    reads fdto, fdto.mem
  {
    && RootGuard(fdto) && Target(fdto, fragment, c) && IsPath(fdto.forest, c)
    && PlaceBy(fdto.Tree(), Here, [name]) == Some(AbsPath(fdto.forest, c)) && Exact(BodyOf(fdto, c))
    && AbsPath(fdto.forest, c).Into? && Flat(AbsPath(fdto.forest, c).tail)
  }

  lemma RootFacts(fdto: Fdt)
    requires RootGuard(fdto)
    ensures fdto.Valid() && fdto.Laid() && fdto.InBounds() && fdto.StructIn() && fdto.forest.Node?
    ensures IsPath(fdto.forest, Here)
    ensures Target(fdto, 0, Here) && AbsPath(fdto.forest, Here) == Here && Pos(fdto.forest, Here) == 0
    ensures At(fdto.forest, Here) == fdto.forest
    ensures var t, l := fdto.Tree(), LayoutOf(fdto);
      && t.NodeT? && IsNode(t, Here) && BodyOf(fdto, Here) == t.body == BodyAt(t, Here) && FixupsFit(t.body)
      && Exact(t.body)
      && l.forest == fdto.forest && Wf(l.forest) && Named(l.forest, l.strs) && t == Abs(l.forest, l.strs)
      && l.strs == fdto.Strs()
      && FixupsOf(fdto) == Kid(t.body, LOCAL_FIXUPS)
      && (forall r: Result<Tree> :: InTree(fdto, Here, r) == Within(t, Here, r))
      && (FixupsOf(fdto).Some? ==> Kid(FixupsOf(fdto).value, OVERLAY).None?)
  {
    hide Fdt.St, Fdt.Strs, Encodes;
    EncodesWf(fdto.St(), fdto.forest);
    NodeHere(fdto, 0, Here);
  }

  lemma FragmentFacts(fdto: Fdt, fragment: int, c: Path, name: bytes)
    requires FragmentAt(fdto, fragment, c, name)
    ensures RootGuard(fdto) && fdto.Valid() && Target(fdto, fragment, c) && IsPath(fdto.forest, c) && fdto.InBounds()
    ensures At(fdto.forest, c).Node? && -INT_MAX - 1 <= fragment <= INT_MAX && fragment == 4 * Pos(fdto.forest, c)
    ensures NodeBy(BodyOf(fdto, Here), [name]) == Some(BodyOf(fdto, c))
  {
    hide Fdt.St, Fdt.Strs, Encodes, Exact, FixupsFit;
    RootFacts(fdto);
    NodeHere(fdto, fragment, c);
    PlaceByMeans(fdto.Tree(), Here, [name], AbsPath(fdto.forest, c), Nil);
  }

  /** The overlay node of a fragment is guarded. */
  lemma OverlayNode(fdto: Fdt, fragment: int, c: Path, name: bytes) returns (q: Path)
    requires FragmentAt(fdto, fragment, c, name) && Kid(BodyOf(fdto, c), OVERLAY).Some?
    ensures Walk.SubnodeOffset(fdto.St(), fragment, OVERLAY) >= 0 && IsPath(fdto.forest, q)
    ensures Guarded(fdto, Walk.SubnodeOffset(fdto.St(), fragment, OVERLAY), q, [name, OVERLAY])
    ensures BodyOf(fdto, q) == Kid(BodyOf(fdto, c), OVERLAY).value
  {
    hide Fdt.St, Fdt.Strs, Has, Encodes, Named, Abs, NameEq, Walk.SubnodeOffset, FixupsFit, Exact;
    RootFacts(fdto);
    NodeHere(fdto, fragment, c);
    var t, k := fdto.Tree(), AbsPath(fdto.forest, c);
    var d := ChildOffset(fdto, fragment, c, OVERLAY);
    q := Inside(c, d);
    var w := ChildAt(BodyAt(t, k), OVERLAY).value;
    ChildInside(t, k, OVERLAY, Nil);
    PlaceByNext(t, Here, [name], k, OVERLAY);
    assert [name] + [OVERLAY] == [name, OVERLAY];
    ExactAt(BodyAt(t, k), w);
    ExactNode(TreeAt(BodyAt(t, k), w));
    OverlayAside(t, k, w);
  }

  lemma OverlayAside(t: Tree, k: Path, w: Path)
    requires t.NodeT? && IsNode(t, k) && k.Into? && Flat(k.tail) && ChildAt(BodyAt(t, k), OVERLAY) == Some(w)
    requires Kid(t.body, LOCAL_FIXUPS).Some? ==> Kid(Kid(t.body, LOCAL_FIXUPS).value, OVERLAY).None?
    ensures AsideFixups(t.body, Inside(k, w))
  {
    hide NameEq;
    if ChildAt(t.body, LOCAL_FIXUPS).Some? {
      var fc := ChildAt(t.body, LOCAL_FIXUPS).value;
      ChildAtFlat(t.body, LOCAL_FIXUPS);
      assert k.tail != fc;
      FlatAside(k.tail, fc);
      AsideBelow(k, w, Inside(Here, fc));
    }
  }

  ghost function FragmentGoal(fdt: Fdt, fdto: Fdt, name: bytes): Result<Tree>
    requires fdt.Valid() && fdto.Valid()
    reads fdt, fdt.mem, fdto, fdto.mem
  {
    InTree(fdto, Here, PreventFrag(BodyOf(fdto, Here), fdt.Tree(), name))
  }

  lemma FragmentGoalIs(fdt: Fdt, fdto: Fdt, name: bytes)
    requires fdt.Valid() && fdto.Valid()
    ensures FragmentGoal(fdt, fdto, name) == InTree(fdto, Here, PreventFrag(BodyOf(fdto, Here), fdt.Tree(), name))
  {
  }

  lemma PreventFragIs(t: Tree, base: Tree, name: bytes, frag: Tree)
    requires NodeBy(t, [name]) == Some(frag)
    ensures PreventFrag(t, base, name) ==
            match Kid(frag, OVERLAY)
            case None => Ok(t)
            case Some(o) =>
              match TargetOf(base, frag)
              case Err(x) => if x == -NOTFOUND then Ok(t) else Err(x)
              case Ok(k) => PreventNode(t, BodyAt(base, k), [name, OVERLAY], o)
  {
  }

  /** A round of overlay_prevent_phandle_overwrite. */
  method PreventFragment(fdt: Fdt, fdto: Fdt, fragment: int, ghost c: Path, ghost name: bytes) returns (ret: int)
    requires fdt != fdto && fdt.mem != fdto.mem && fdt.Valid() && Target(fdt, 0, Here) && IsPath(fdt.forest, Here)
    requires FragmentAt(fdto, fragment, c, name) && fdto.Valid()
    modifies fdto, fdto.mem
    ensures Answers(fdto, old(LayoutOf(fdto)), old(FragmentGoal(fdt, fdto, name)), ret)
    ensures ret == 0 ==> fdto.Valid() && FixupsOf(fdto) == old(FixupsOf(fdto))
  {
    hide *;
    FragmentFacts(fdto, fragment, c, name);
    RootFacts(fdto);
    FragmentGoalIs(fdt, fdto, name);
    PreventFragIs(BodyOf(fdto, Here), fdt.Tree(), name, BodyOf(fdto, c));
    KidOffset(fdto, fragment, c, OVERLAY);
    ErrorCodes();
    Untaken(fdto);
    var overlay := ReadOnly.SubnodeOffset(fdto, fragment, OVERLAY);
    if overlay == -NOTFOUND {
      return 0;
    }
    if overlay < 0 {
      return overlay;
    }
    var target, path;
    ghost var bq;
    target, path, bq := TargetOffset(fdt, fdto, fragment, c);
    if target == -NOTFOUND {
      return 0;
    } else if target < 0 {
      FragmentFailed(fdto, target);
      return target;
    }
    ghost var q := OverlayNode(fdto, fragment, c, name);
    PassStart(fdt, target, bq);
    PreventGoalIs(fdt, bq, fdto, q, [name, OVERLAY]);
    ret := PreventOverwriteNode(fdt, target, fdto, overlay, bq, q, [name, OVERLAY]);
  }

  lemma FragmentFailed(fdto: Fdt, e: int)
    requires fdto.Valid() && e < 0
    ensures Answers(fdto, LayoutOf(fdto), Within(fdto.Tree(), Here, Err(e)), e)
  {
    KeepsSelf(fdto);
  }

  // ---------- All fragments: phandles ----------

  /** The blob of the overlay between two rounds. */
  ghost predicate Fragmenting(fdto: Fdt, child: int, r: Path, l: Layout, t: Tree, base: Tree, fx: Option<Tree>,
                              goal: Result<Tree>)
    reads fdto, fdto.mem
  {
    && Keeps(l, fdto) && RootGuard(fdto) && FixupsOf(fdto) == fx && fdto.Tree() == WithBody(t, Here, BodyOf(fdto, Here))
    && if child >= 0 then
         ChildOf(fdto, child, Here, r) && PreventFrags(BodyOf(fdto, Here), base, Suffix(fdto, Here, r)) == goal
       else goal == Ok(BodyOf(fdto, Here))
  }

  /** A child of the overlay's root, as a fragment, and the entries from it on. */
  lemma FragmentOf(fdto: Fdt, child: int, r: Path) returns (name: bytes, rest: Tree)
    requires RootGuard(fdto) && ChildOf(fdto, child, Here, r)
    ensures fdto.Valid() && IsPath(fdto.forest, Inside(Here, r)) && At(fdto.forest, Inside(Here, r)).Node?
    ensures FragmentAt(fdto, child, Inside(Here, r), name)
    ensures var n := At(fdto.forest, Inside(Here, r));
      && Wf(n.rest) && Named(n.rest, fdto.Strs()) && rest == Abs(n.rest, fdto.Strs())
      && Suffix(fdto, Here, r) == NodeT(name, BodyOf(fdto, Inside(Here, r)), rest)
  {
    hide Fdt.St, Fdt.Strs, Has, Encodes, Abs, Named, FixupsFit, Exact;
    RootFacts(fdto);
    var f, strs, t, c := fdto.forest, fdto.Strs(), fdto.Tree(), Inside(Here, r);
    EncodesWf(fdto.St(), f);
    InsideAt(f, Here, r, Empty);
    NodeAbs(f, c, strs);
    NodeParts(At(f, c), strs);
    NodeAbs(f, Here, strs);
    NodeParts(f, strs);
    name := At(f, c).item.name;
    rest := Abs(At(f, c).rest, strs);
    AbsPathJoin(f, Here, Into(r));
    var d := AbsPath(f.body, r);
    AbsPut(f.body, r, Empty, strs);
    AbsFlat(f.body, r);
    OwnChild(t.body, d);
    assert PlaceBy(t, Here, []) == Some(Here);
    PlaceByNext(t, Here, [], Here, name);
    assert [] + [name] == [name];
    ExactAt(t.body, d);
    ExactNode(TreeAt(t.body, d));
  }

  /** The guard stays while values change elsewhere than in the fixups. */
  lemma RootStays(fdto: Fdt, l: Layout, t: Tree)
    requires Keeps(l, fdto) && Wf(l.forest) && Named(l.forest, l.strs) && t == Abs(l.forest, l.strs) && l.forest.Node?
    requires t.NodeT?
    requires FixupsFit(t.body) && Exact(t.body) && FixupsOf(fdto) == Kid(t.body, LOCAL_FIXUPS)
    requires FixupsOf(fdto).Some? ==> Kid(FixupsOf(fdto).value, OVERLAY).None?
    ensures RootGuard(fdto) && Like(t, fdto.Tree()) && fdto.Tree().NodeT? && BodyOf(fdto, Here) == fdto.Tree().body
  {
    hide Fdt.St, Fdt.Strs, Fdt.Front, Encodes, FixupsFit, Exact, Abs;
    EncodesWf(fdto.St(), fdto.forest);
    AlikeAbs(l.forest, fdto.forest, l.strs);
    KeepsTarget(l, fdto, 0, Here);
    ExactLike(t.body, fdto.Tree().body);
    FixupsFitLike(t.body, fdto.Tree().body);
  }

  /** A round, up to the next fragment. */
  lemma FragmentNext(fdto: Fdt, child: int, r: Path, l: Layout, t: Tree, base: Tree, fx: Option<Tree>,
                     goal: Result<Tree>,
                     m: Layout, t1: Tree, name: bytes, body: Tree, rest: Tree, next: int, r': Path)
    requires Keeps(l, fdto) && RootGuard(fdto) && FixupsOf(fdto) == fx && ChildOf(fdto, child, Here, r)
    requires fdto.Tree() == WithBody(t, Here, BodyOf(fdto, Here))
    requires PreventFrags(t1, base, NodeT(name, body, rest)) == goal
    requires PreventFrag(t1, base, name) == Ok(BodyOf(fdto, Here))
    requires IsPath(m.forest, Inside(Here, r)) && At(m.forest, Inside(Here, r)).Node? && Keeps(m, fdto)
    requires Wf(At(m.forest, Inside(Here, r)).rest) && Named(At(m.forest, Inside(Here, r)).rest, m.strs)
    requires rest == Abs(At(m.forest, Inside(Here, r)).rest, m.strs)
    requires IsPath(fdto.forest, Inside(Here, r)) && At(fdto.forest, Inside(Here, r)).Node?
    requires match Traverse.FirstNode(At(fdto.forest, Inside(Here, r)).rest)
      case None => next == -NOTFOUND
      case Some(x) => r' == Join(r, Next(x)) && ChildOf(fdto, next, Here, r')
    ensures Fragmenting(fdto, next, r', l, t, base, fx, goal)
    ensures Left(fdto, next, Inside(Here, r')) < Left(fdto, child, Inside(Here, r))
  {
    hide Fdt.St, Fdt.Strs, Fdt.Front, Has, Encodes, Abs, Named, PreventFrag, Alike, RootGuard, Wf;
    var g, c, t2, strs := fdto.forest, Inside(Here, r), BodyOf(fdto, Here), fdto.Strs();
    AlikePlace(m.forest, g, c);
    AlikeRests(m.forest, g, c);
    EncodesWf(fdto.St(), g);
    NodeAbs(g, c, strs);
    NodeParts(At(g, c), strs);
    AlikeAbs(At(m.forest, c).rest, At(g, c).rest, strs);
    PreventFragsLike(t2, base, rest, Abs(At(g, c).rest, strs));
    SkipFrags(t2, base, At(g, c).rest, strs);
    match Traverse.FirstNode(At(g, c).rest)
    case None =>
    case Some(y) =>
      JoinInside(Here, r, Next(y));
      JoinAt(g, c, Next(y), Empty);
      PosRange(At(g, c).rest, y);
  }

  lemma FragmentingFacts(fdto: Fdt, child: int, r: Path, l: Layout, t: Tree, base: Tree, fx: Option<Tree>,
                         goal: Result<Tree>)
    requires Fragmenting(fdto, child, r, l, t, base, fx, goal)
    ensures RootGuard(fdto) && fdto.Valid() && FixupsOf(fdto) == fx && Keeps(l, fdto) && Changes(l, LayoutOf(fdto))
    ensures child >= 0 ==>
              ChildOf(fdto, child, Here, r) && PreventFrags(BodyOf(fdto, Here), base, Suffix(fdto, Here, r)) == goal
    ensures child < 0 ==> goal == Ok(BodyOf(fdto, Here))
    ensures fdto.Tree() == WithBody(t, Here, BodyOf(fdto, Here))
  {
    hide Fdt.St, Fdt.Strs, RootGuard;
  }

  lemma FragmentErr(fdto: Fdt, l: Layout, m: Layout, t: Tree, t1: Tree, base: Tree, name: bytes, body: Tree, rest: Tree,
                    goal: Result<Tree>, ret: int)
    requires Changes(l, m) && ret != 0 && t1.NodeT?
    requires Answers(fdto, m, Within(t1, Here, PreventFrag(t1.body, base, name)), ret)
    requires PreventFrags(t1.body, base, NodeT(name, body, rest)) == goal
    ensures Answers(fdto, l, Within(t, Here, goal), ret)
  {
    hide PreventFrag;
    KeepsTrans(l, m, fdto);
  }

  lemma FragmentDone(fdto: Fdt, l: Layout, m: Layout, t: Tree, t1: Tree, base: Tree, child: int, r: Path, name: bytes)
    requires Changes(l, m) && t.NodeT? && t1.NodeT? && t1 == WithBody(t, Here, t1.body)
    requires Answers(fdto, m, Within(t1, Here, PreventFrag(t1.body, base, name)), 0)
    requires Wf(m.forest) && Named(m.forest, m.strs) && t1 == Abs(m.forest, m.strs) && m.forest.Node?
    requires FixupsFit(t1.body) && Exact(t1.body)
    requires fdto.Valid() && FixupsOf(fdto) == Kid(t1.body, LOCAL_FIXUPS)
    requires (FixupsOf(fdto).Some? ==> Kid(FixupsOf(fdto).value, OVERLAY).None?)
    requires Flat(r) && IsPath(m.forest.body, r) && IsPath(m.forest, Inside(Here, r))
    requires At(m.forest, Inside(Here, r)).Node?
    requires child >= 0 && -INT_MAX - 1 <= child <= INT_MAX && child == 4 * Pos(m.forest, Inside(Here, r))
    ensures fdto.Tree() == WithBody(t, Here, BodyOf(fdto, Here))
    ensures Keeps(l, fdto) && Keeps(m, fdto) && RootGuard(fdto) && ChildOf(fdto, child, Here, r)
    ensures IsPath(fdto.forest, Inside(Here, r)) && At(fdto.forest, Inside(Here, r)).Node?
    ensures PreventFrag(t1.body, base, name) == Ok(BodyOf(fdto, Here))
    ensures Left(fdto, child, Inside(Here, r)) == Size(At(m.forest, Inside(Here, r)))
  {
    hide Fdt.St, Fdt.Strs, Fdt.Front, Has, Encodes, Abs, Named, PreventFrag, Alike, RootGuard, Wf, FixupsFit, Exact;
    KeepsTrans(l, m, fdto);
    RootStays(fdto, m, t1);
    ChildStays(m, fdto, child, Here, r);
    var x := PreventFrag(t1.body, base, name).value;
    WithBodyAt(t1, Here, x, x);
    WithBodyAt(t, Here, t1.body, x);
  }

  /** The first fragment. */
  method StartFragments(fdto: Fdt, ghost base: Tree) returns (child: int, ghost r: Path)
    requires RootGuard(fdto) && fdto.Valid()
    ensures Fragmenting(fdto, child, r, LayoutOf(fdto), fdto.Tree(), base, FixupsOf(fdto),
                        PreventFrags(BodyOf(fdto, Here), base, BodyOf(fdto, Here)))
  {
    hide *;
    RootFacts(fdto);
    child, r := FirstChild(fdto, 0, Here);
    FirstFragment(fdto, child, r, base);
  }

  lemma FirstFragment(fdto: Fdt, child: int, r: Path, base: Tree)
    requires RootGuard(fdto) && fdto.Valid() && fdto.forest.Node?
    requires match Traverse.FirstNode(fdto.forest.body)
      case None => child == -NOTFOUND
      case Some(x) => r == x && ChildOf(fdto, child, Here, r)
    ensures Fragmenting(fdto, child, r, LayoutOf(fdto), fdto.Tree(), base, FixupsOf(fdto),
                        PreventFrags(BodyOf(fdto, Here), base, BodyOf(fdto, Here)))
  {
    hide Fdt.St, Fdt.Strs, Fdt.Front, Has, Encodes, Abs, Named, PreventFrags, Alike, RootGuard, Wf;
    KeepsSelf(fdto);
    RootFacts(fdto);
    WithBodySelf(fdto.Tree(), Here);
    BodyIs(fdto, Here);
    SkipFrags(BodyOf(fdto, Here), base, fdto.forest.body, fdto.Strs());
    if child >= 0 {
      InsideAt(fdto.forest, Here, r, Empty);
    }
  }

  /** The overlay after the pass over all fragments. */
  ghost function PreventAllGoal(fdt: Fdt, fdto: Fdt): Result<Tree>
    requires fdt.Valid() && fdto.Valid()
    reads fdt, fdt.mem, fdto, fdto.mem
  {
    InTree(fdto, Here, PreventFrags(BodyOf(fdto, Here), fdt.Tree(), BodyOf(fdto, Here)))
  }

  lemma PreventAllGoalIs(fdt: Fdt, fdto: Fdt)
    requires fdt.Valid() && fdto.Valid()
    ensures PreventAllGoal(fdt, fdto) == InTree(fdto, Here,
                                                PreventFrags(BodyOf(fdto, Here), fdt.Tree(), BodyOf(fdto, Here)))
  {
  }

  /** overlay_prevent_phandle_overwrite */
  method PreventOverwrite(fdt: Fdt, fdto: Fdt) returns (ret: int)
    requires fdt != fdto && fdt.mem != fdto.mem && fdt.Valid() && Target(fdt, 0, Here) && IsPath(fdt.forest, Here)
    requires RootGuard(fdto) && fdto.Valid()
    modifies fdto, fdto.mem
    ensures Answers(fdto, old(LayoutOf(fdto)), old(PreventAllGoal(fdt, fdto)), ret)
    ensures ret == 0 ==> fdto.Valid() && FixupsOf(fdto) == old(FixupsOf(fdto))
  {
    hide *;
    RootFacts(fdto);
    PreventAllGoalIs(fdt, fdto);
    ghost var l, t, base, fx := LayoutOf(fdto), fdto.Tree(), fdt.Tree(), FixupsOf(fdto);
    ghost var goal := PreventFrags(t.body, base, t.body);
    var fragment;
    ghost var r;
    fragment, r := StartFragments(fdto, base);
    while fragment >= 0
      invariant Fragmenting(fdto, fragment, r, l, t, base, fx, goal)
      decreases Left(fdto, fragment, Inside(Here, r))
    {
      FragmentingFacts(fdto, fragment, r, l, t, base, fx, goal);
      RootFacts(fdto);
      ChildParts(fdto, fragment, Here, r);
      ghost var m, t1, c := LayoutOf(fdto), fdto.Tree(), Inside(Here, r);
      ghost var n, rest := FragmentOf(fdto, fragment, r);
      FragmentFacts(fdto, fragment, c, n);
      LeftIs(fdto, fragment, c);
      ghost var body := BodyOf(fdto, c);
      FragmentGoalIs(fdt, fdto, n);
      ret := PreventFragment(fdt, fdto, fragment, c, n);
      if ret != 0 {
        FragmentErr(fdto, l, m, t, t1, base, n, body, rest, goal, ret);
        return;
      }
      FragmentDone(fdto, l, m, t, t1, base, fragment, r, n);
      var next;
      ghost var r';
      next, r' := NextChild(fdto, fragment, Here, r);
      FragmentNext(fdto, fragment, r, l, t, base, fx, goal, m, t1.body, n, body, rest, next, r');
      fragment, r := next, r';
    }
    FragmentingFacts(fdto, fragment, r, l, t, base, fx, goal);
    RootFacts(fdto);
    PreventedAll(fdto, l, t, goal);
    ret := 0;
  }

  // ---------- All fragments: merging ----------

  /** The base while fragments are merged into it: its root stays at offset 0. */
  ghost predicate BaseAt(fdt: Fdt, front: Kept)
    reads fdt, fdt.mem
  {
    fdt.Valid() && Target(fdt, 0, Here) && IsPath(fdt.forest, Here) && fdt.Front() == front
  }

  lemma RootEdited(fdt: Fdt, f: Forest, p: Path)
    requires fdt.Valid() && f.Node? && NodeEdited(f, fdt.forest, p)
    ensures BaseAt(fdt, fdt.Front())
  {
    hide Fdt.St, Fdt.Strs, Encodes, Named;
    if p != Here {
      assert fdt.forest == Put(f, p, At(fdt.forest, p));
    }
  }

  /** The overlay node of a fragment, to be merged. */
  lemma OverlaySource(fdto: Fdt, fragment: int, c: Path) returns (q: Path)
    requires Target(fdto, fragment, c) && IsPath(fdto.forest, c) && Kid(BodyOf(fdto, c), OVERLAY).Some?
    ensures Walk.SubnodeOffset(fdto.St(), fragment, OVERLAY) >= 0 && IsPath(fdto.forest, q) && At(fdto.forest, q).Node?
    ensures Source(fdto, Walk.SubnodeOffset(fdto.St(), fragment, OVERLAY), Pos(fdto.forest, q), At(fdto.forest, q))
    ensures Rest(fdto, At(fdto.forest, q).body) == Kid(BodyOf(fdto, c), OVERLAY).value
  {
    hide Fdt.St, Fdt.Strs, Has, Encodes, Named, Abs, NameEq, Walk.SubnodeOffset;
    NodeHere(fdto, fragment, c);
    EncodesWf(fdto.St(), fdto.forest);
    var d := ChildOffset(fdto, fragment, c, OVERLAY);
    q := Inside(c, d);
    ChildInside(fdto.Tree(), AbsPath(fdto.forest, c), OVERLAY, Nil);
    EncodesAt(fdto.St(), fdto.forest, q);
    NodeAbs(fdto.forest, q, fdto.Strs());
    BodyIs(fdto, q);
  }

  lemma MergeFragIs(base: Tree, frag: Tree)
    ensures MergeFrag(base, frag) ==
            match Kid(frag, OVERLAY)
            case None => Ok(base)
            case Some(o) =>
              match TargetOf(base, frag)
              case Err(x) => Err(x)
              case Ok(k) => Ok(WithBody(base, k, Merge(BodyAt(base, k), o)))
  {
  }

  lemma BaseFacts(fdt: Fdt, front: Kept)
    requires BaseAt(fdt, front)
    ensures fdt.Valid() && Target(fdt, 0, Here) && IsPath(fdt.forest, Here) && fdt.Front() == front && fdt.forest.Node?
  {
  }

  lemma BaseTotal(fdt: Fdt, front: Kept)
    requires BaseAt(fdt, front)
    ensures fdt.totalsize == front.totalsize
  {
  }

  lemma FragRoomIs(frag: Tree)
    ensures FragRoom(frag) == match Kid(frag, OVERLAY) case None => 0 case Some(o) => Room(o)
  {
  }

  /** A round of overlay_merge. */
  method MergeFragment(fdt: Fdt, fdto: Fdt, fragment: int, ghost c: Path, ghost front: Kept) returns (ret: int)
    requires fdt != fdto && fdt.mem != fdto.mem && BaseAt(fdt, front) && fdt.Valid()
    requires Target(fdto, fragment, c) && fdto.Valid() && IsPath(fdto.forest, c)
    modifies fdt, fdt.mem
    ensures BaseAt(fdt, front) && fdt.Valid()
    ensures ret == 0 ==> MergeFrag(old(fdt.Tree()), BodyOf(fdto, c)) == Ok(fdt.Tree())
    ensures ret != 0 ==> ret == -NOSPACE || MergeFrag(old(fdt.Tree()), BodyOf(fdto, c)) == Err(ret)
    ensures MergeFrag(old(fdt.Tree()), BodyOf(fdto, c)) == Err(ret) ||
            Taken(ret, old(fdt.DataEnd()), fdt.DataEnd(), FragRoom(BodyOf(fdto, c)), front.totalsize)
  {
    hide *;
    BaseFacts(fdt, front);
    BaseTotal(fdt, front);
    FragRoomIs(BodyOf(fdto, c));
    TakenNone(fdt.DataEnd(), front.totalsize);
    PassStart(fdto, fragment, c);
    ghost var base, f := fdt.Tree(), fdt.forest;
    MergeFragIs(base, BodyOf(fdto, c));
    KidOffset(fdto, fragment, c, OVERLAY);
    ErrorCodes();
    ValidBounds(fdto);
    var overlay := ReadOnly.SubnodeOffset(fdto, fragment, OVERLAY);
    if overlay == -NOTFOUND {
      return 0;
    }
    if overlay < 0 {
      return overlay;
    }
    var target, path;
    ghost var bq;
    target, path, bq := TargetOffset(fdt, fdto, fragment, c);
    if target < 0 {
      return target;
    }
    ghost var q := OverlaySource(fdto, fragment, c);
    ApplyReady(fdt, target, bq);
    ret := ApplyNode(fdt, target, fdto, overlay, bq, Pos(fdto.forest, q), At(fdto.forest, q));
    RootEdited(fdt, f, bq);
  }

  lemma ApplyReady(fdt: Fdt, target: int, p: Path)
    requires Target(fdt, target, p)
    ensures fdt.Valid() && fdt.Laid() && IsPath(fdt.forest, p)
  {
  }

  /** The base between two rounds. */
  ghost predicate BaseMerging(fdt: Fdt, fdto: Fdt, child: int, r: Path, front: Kept, goal: Result<Tree>, end: int,
                              room: int)
    reads fdt, fdt.mem, fdto, fdto.mem
  {
    && BaseAt(fdt, front) && RootGuard(fdto)
    && if child >= 0 then
         && ChildOf(fdto, child, Here, r) && MergeFrags(fdt.Tree(), Suffix(fdto, Here, r)) == goal
         && Taken(0, end, fdt.DataEnd(), room - FragsRoom(Suffix(fdto, Here, r)), front.totalsize)
       else goal == Ok(fdt.Tree()) && Taken(0, end, fdt.DataEnd(), room, front.totalsize)
  }

  lemma MergingFacts(fdt: Fdt, fdto: Fdt, child: int, r: Path, front: Kept, goal: Result<Tree>, end: int, room: int)
    requires BaseMerging(fdt, fdto, child, r, front, goal, end, room)
    ensures BaseAt(fdt, front) && fdt.Valid() && RootGuard(fdto) && fdto.Valid()
    ensures child >= 0 ==> ChildOf(fdto, child, Here, r) && MergeFrags(fdt.Tree(), Suffix(fdto, Here, r)) == goal
    ensures child >= 0 ==> Taken(0, end, fdt.DataEnd(), room - FragsRoom(Suffix(fdto, Here, r)), front.totalsize)
    ensures child < 0 ==> goal == Ok(fdt.Tree()) && Taken(0, end, fdt.DataEnd(), room, front.totalsize)
  {
    hide Fdt.St, Fdt.Strs, Taken;
  }

  lemma MergeNext(fdt: Fdt, fdto: Fdt, child: int, r: Path, front: Kept, goal: Result<Tree>, b: Tree, name: bytes,
                  body: Tree, rest: Tree,
                  next: int, r': Path, end: int, room: int)
    requires Taken(0, end, fdt.DataEnd(), room - FragsRoom(rest), front.totalsize)
    requires BaseAt(fdt, front) && RootGuard(fdto) && fdt.Valid() && fdto.Valid() && ChildOf(fdto, child, Here, r)
    requires MergeFrags(b, NodeT(name, body, rest)) == goal && MergeFrag(b, body) == Ok(fdt.Tree())
    requires IsPath(fdto.forest, Inside(Here, r)) && At(fdto.forest, Inside(Here, r)).Node?
    requires Wf(At(fdto.forest, Inside(Here, r)).rest) && Named(At(fdto.forest, Inside(Here, r)).rest, fdto.Strs())
    requires rest == Abs(At(fdto.forest, Inside(Here, r)).rest, fdto.Strs())
    requires match Traverse.FirstNode(At(fdto.forest, Inside(Here, r)).rest)
      case None => next == -NOTFOUND
      case Some(x) => r' == Join(r, Next(x)) && ChildOf(fdto, next, Here, r')
    ensures BaseMerging(fdt, fdto, next, r', front, goal, end, room)
    ensures Left(fdto, next, Inside(Here, r')) < Left(fdto, child, Inside(Here, r))
  {
    hide Fdt.St, Fdt.Strs, Fdt.Front, Has, Encodes, Abs, Named, MergeFrag, RootGuard, Wf, BaseAt, FragsRoom, Taken;
    var c := Inside(Here, r);
    SkipFrags(fdt.Tree(), Nil, At(fdto.forest, c).rest, fdto.Strs());
    SkipFragsRoom(At(fdto.forest, c).rest, fdto.Strs());
    match Traverse.FirstNode(At(fdto.forest, c).rest)
    case None =>
    case Some(y) =>
      JoinInside(Here, r, Next(y));
      JoinAt(fdto.forest, c, Next(y), Empty);
      PosRange(At(fdto.forest, c).rest, y);
  }

  lemma MergeErr(b: Tree, name: bytes, body: Tree, rest: Tree, e: int)
    requires MergeFrag(b, body) == Err(e)
    ensures MergeFrags(b, NodeT(name, body, rest)) == Err(e)
  {
  }

  lemma MergeStart(fdt: Fdt, fdto: Fdt, child: int, r: Path, front: Kept)
    requires BaseAt(fdt, front) && RootGuard(fdto) && fdt.Valid() && fdto.Valid() && fdto.forest.Node?
    requires match Traverse.FirstNode(fdto.forest.body)
      case None => child == -NOTFOUND
      case Some(x) => r == x && ChildOf(fdto, child, Here, r)
    ensures BaseMerging(fdt, fdto, child, r, front, MergeFrags(fdt.Tree(), BodyOf(fdto, Here)), fdt.DataEnd(),
                        FragsRoom(BodyOf(fdto, Here)))
  {
    hide Fdt.St, Fdt.Strs, Fdt.Front, Has, Encodes, Abs, Named, MergeFrags, RootGuard, Wf, BaseAt, FragsRoom;
    RootFacts(fdto);
    BodyIs(fdto, Here);
    SkipFrags(fdt.Tree(), Nil, fdto.forest.body, fdto.Strs());
    SkipFragsRoom(fdto.forest.body, fdto.Strs());
    if child >= 0 {
      InsideAt(fdto.forest, Here, r, Empty);
    }
  }

  /** overlay_merge. It runs out of room only if there is less than FragsRoom. */
  method MergeOverlay(fdt: Fdt, fdto: Fdt, ghost front: Kept) returns (ret: int)
    requires fdt != fdto && fdt.mem != fdto.mem && BaseAt(fdt, front) && fdt.Valid() && RootGuard(fdto) && fdto.Valid()
    modifies fdt, fdt.mem
    ensures BaseAt(fdt, front) && fdt.Valid()
    ensures ret == 0 ==> MergeFrags(old(fdt.Tree()), BodyOf(fdto, Here)) == Ok(fdt.Tree())
    ensures ret != 0 ==> ret == -NOSPACE || MergeFrags(old(fdt.Tree()), BodyOf(fdto, Here)) == Err(ret)
    ensures MergeFrags(old(fdt.Tree()), BodyOf(fdto, Here)) == Err(ret) ||
            Taken(ret, old(fdt.DataEnd()), fdt.DataEnd(), FragsRoom(BodyOf(fdto, Here)), front.totalsize)
  {
    hide *;
    RootFacts(fdto);
    ghost var goal := MergeFrags(fdt.Tree(), BodyOf(fdto, Here));
    ghost var end, room, total := fdt.DataEnd(), FragsRoom(BodyOf(fdto, Here)), front.totalsize;
    var fragment;
    ghost var r;
    fragment, r := FirstChild(fdto, 0, Here);
    MergeStart(fdt, fdto, fragment, r, front);
    while fragment >= 0
      invariant BaseMerging(fdt, fdto, fragment, r, front, goal, end, room)
      decreases Left(fdto, fragment, Inside(Here, r))
    {
      MergingFacts(fdt, fdto, fragment, r, front, goal, end, room);
      ghost var b, c := fdt.Tree(), Inside(Here, r);
      ghost var n, rest := FragmentOf(fdto, fragment, r);
      FragmentFacts(fdto, fragment, c, n);
      ghost var body := BodyOf(fdto, c);
      ghost var mid := fdt.DataEnd();
      FragsRoomNode(n, body, rest);
      ret := MergeFragment(fdt, fdto, fragment, c, front);
      if ret != 0 {
        if MergeFrag(b, body) == Err(ret) {
          MergeErr(b, n, body, rest, ret);
        } else {
          TakenMore(ret, end, mid, fdt.DataEnd(), room - FragsRoom(NodeT(n, body, rest)), FragRoom(body), total);
          TakenWithin(ret, end, fdt.DataEnd(), room - FragsRoom(rest), room, total);
        }
        return;
      }
      TakenMore(ret, end, mid, fdt.DataEnd(), room - FragsRoom(NodeT(n, body, rest)), FragRoom(body), total);
      var next;
      ghost var r';
      next, r' := NextChild(fdto, fragment, Here, r);
      MergeNext(fdt, fdto, fragment, r, front, goal, b, n, body, rest, next, r', end, room);
      fragment, r := next, r';
    }
    MergingFacts(fdt, fdto, fragment, r, front, goal, end, room);
    ret := 0;
  }

  // ---------- The whole application ----------

  /** The passes over the overlay body o, for a base tree. */
  ghost function Passes(base: Tree, o: Tree): Result<Tree> {
    var delta := OverlayApply.MaxKids(base);
    ReferencesPass(base, AdjustNode(o, delta), delta)
  }

  ghost function ReferencesPass(base: Tree, r: Result<Tree>, delta: u32): Result<Tree> {
    match r
    case Err(e) => Err(e)
    case Ok(o) => PreventPass(base, LocalReferences(o, delta))
  }

  ghost function PreventPass(base: Tree, r: Result<Tree>): Result<Tree> {
    match r
    case Err(e) => Err(e)
    case Ok(o) => PreventFrags(o, base, o)
  }

  /** The passes and the merge, for a base tree and the body of an overlay without external fixups. */
  ghost function MergeTree(base: Tree, o: Tree): Result<Tree> {
    match Passes(base, o)
    case Err(e) => Err(e)
    case Ok(t) => MergeFrags(base, t)
  }

  ghost function SymbolsPass(r: Result<Tree>, t: Tree): Result<Tree> {
    match r
    case Err(e) => Err(e)
    case Ok(m) => SymbolsTree(m, t)
  }

  /** fdt_overlay_apply, for a base tree and the body of an overlay without external fixups. */
  ghost function ApplyTree(base: Tree, o: Tree): Result<Tree> {
    match Passes(base, o)
    case Err(e) => Err(e)
    case Ok(t) => SymbolsPass(MergeFrags(base, t), t)
  }

  /** Neither the node with body b nor a node below it has a phandle. */
  ghost predicate NoPhandles(b: Tree)
    decreases b, 1
  {
    Get(b, PHANDLE).None? && Get(b, LINUX_PHANDLE).None? && NoPhandlesBelow(b)
  }

  ghost predicate NoPhandlesBelow(b: Tree)
    decreases b, 0
  {
    match b
    case Nil => true
    case PropT(_, _, rest) => NoPhandlesBelow(rest)
    case NodeT(_, body, rest) => NoPhandles(body) && NoPhandlesBelow(rest)
  }

  lemma {:induction false} AdjustNothing(b: Tree, delta: u32)
    requires NoPhandles(b)
    ensures AdjustNode(b, delta) == Ok(b)
    decreases b, 1
  {
    AdjustNoKids(b, delta);
  }

  lemma {:induction false} AdjustNoKids(b: Tree, delta: u32)
    requires NoPhandlesBelow(b)
    ensures AdjustKids(b, delta) == Ok(b)
    decreases b, 0
  {
    match b
    case Nil =>
    case PropT(_, _, rest) => AdjustNoKids(rest, delta);
    case NodeT(_, body, rest) =>
      AdjustNothing(body, delta);
      AdjustNoKids(rest, delta);
  }

  /** The shift leaves fixups without phandles alone. */
  lemma AdjustFixups(o: Tree, delta: u32)
    requires AdjustNode(o, delta).Ok? && (Kid(o, LOCAL_FIXUPS).Some? ==> NoPhandles(Kid(o, LOCAL_FIXUPS).value))
    ensures Kid(AdjustNode(o, delta).value, LOCAL_FIXUPS) == Kid(o, LOCAL_FIXUPS)
  {
    var b1 := AddOffset(o, PHANDLE, delta).value;
    var b2 := AddOffset(b1, LINUX_PHANDLE, delta).value;
    AddOffsetGet(o, PHANDLE, delta, PHANDLE);
    AddOffsetGet(b1, LINUX_PHANDLE, delta, PHANDLE);
    KidOfChildren(b2, o, LOCAL_FIXUPS);
    AdjustKidsMeans(b2, delta, LOCAL_FIXUPS);
    match Kid(o, LOCAL_FIXUPS)
    case None =>
    case Some(f) => AdjustNothing(f, delta);
  }

  /** An overlay that can be applied: guarded, and without phandles in its fixups. */
  ghost predicate Appliable(fdto: Fdt)
    reads fdto, fdto.mem
  {
    RootGuard(fdto) && (FixupsOf(fdto).Some? ==> NoPhandles(FixupsOf(fdto).value))
  }

  lemma AppliableFacts(fdto: Fdt)
    requires Appliable(fdto)
    ensures RootGuard(fdto) && fdto.Valid() && (FixupsOf(fdto).Some? ==> NoPhandles(FixupsOf(fdto).value))
  {
  }

  /** After a pass over the overlay body that left the fixups alone, the overlay is guarded. */
  lemma StillGuarded(fdto: Fdt, l: Layout, t: Tree, r: Result<Tree>)
    requires t.NodeT? && l.forest.Node? && Wf(l.forest) && Named(l.forest, l.strs) && t == Abs(l.forest, l.strs)
    requires FixupsFit(t.body) && Exact(t.body) && Answers(fdto, l, Within(t, Here, r), 0)
    requires Kid(t.body, LOCAL_FIXUPS).Some? ==> Kid(Kid(t.body, LOCAL_FIXUPS).value, OVERLAY).None?
    requires r.Ok? ==> Kid(r.value, LOCAL_FIXUPS) == Kid(t.body, LOCAL_FIXUPS)
    ensures RootGuard(fdto) && fdto.Valid() && r == Ok(BodyOf(fdto, Here))
    ensures FixupsOf(fdto) == Kid(t.body, LOCAL_FIXUPS)
  {
    hide Fdt.St, Fdt.Strs, Fdt.Front, Encodes, FixupsFit, Exact, Abs, Named, Wf, Alike;
    WithBodyAt(t, Here, r.value, Nil);
    KeepsTarget(l, fdto, 0, Here);
    NodeHere(fdto, 0, Here);
    RootStays(fdto, l, t);
  }

  lemma AnswerCode(fdto: Fdt, l: Layout, t: Tree, r: Result<Tree>, ret: int)
    requires Answers(fdto, l, Within(t, Here, r), ret)
    ensures ret != 0 ==> r == Err(ret)
    ensures ret == 0 ==> r.Ok?
  {
  }

  /** The passes of fdt_overlay_apply that change the overlay. */
  method ApplyPasses(fdt: Fdt, fdto: Fdt) returns (ret: int)
    requires fdt != fdto && fdt.mem != fdto.mem && fdt.Valid() && Target(fdt, 0, Here) && IsPath(fdt.forest, Here)
    requires Appliable(fdto) && fdto.Valid()
    modifies fdto, fdto.mem
    ensures ret == 0 ==>
              RootGuard(fdto) && fdto.Valid() && Passes(fdt.Tree(), old(BodyOf(fdto, Here))) == Ok(BodyOf(fdto, Here))
    ensures ret == 0 ==> Keeps(old(LayoutOf(fdto)), fdto)
    ensures ret != 0 ==> Passes(fdt.Tree(), old(BodyOf(fdto, Here))) == Err(ret)
  {
    hide *;
    AppliableFacts(fdto);
    RootFacts(fdto);
    ghost var l, t, o := LayoutOf(fdto), fdto.Tree(), BodyOf(fdto, Here);
    var err, delta := Phandles.FindMaxPhandle(fdt);
    AdjustGoalIs(fdto, Here, delta);
    if err != 0 {
      return err;
    }
    ret := AdjustNodePhandles(fdto, 0, delta, Here);
    AnswerCode(fdto, l, t, AdjustNode(o, delta), ret);
    if ret != 0 {
      PassesFail(fdt.Tree(), o, delta, ret);
      return;
    }
    AdjustFixups(o, delta);
    AnswerKeeps(fdto, l, Within(t, Here, AdjustNode(o, delta)), 0);
    KeepsChanges(l, fdto);
    StillGuarded(fdto, l, t, AdjustNode(o, delta));
    RootFacts(fdto);
    ghost var l1, t1, o1 := LayoutOf(fdto), fdto.Tree(), BodyOf(fdto, Here);
    PassesAre(fdt.Tree(), o, delta, o1);
    ReferencesGoalIs(fdto, ShiftMap(delta));
    MapAllIs(o1, delta);
    ret := UpdateReferences(fdto, ShiftMap(delta));
    AnswerCode(fdto, l1, t1, LocalReferences(o1, delta), ret);
    if ret != 0 {
      return;
    }
    MapAllFixups(o1, ShiftMap(delta));
    AnswerKeeps(fdto, l1, Within(t1, Here, LocalReferences(o1, delta)), 0);
    KeepsTrans(l, l1, fdto);
    KeepsChanges(l, fdto);
    StillGuarded(fdto, l1, t1, LocalReferences(o1, delta));
    RootFacts(fdto);
    ghost var l2, t2, o2 := LayoutOf(fdto), fdto.Tree(), BodyOf(fdto, Here);
    PreventAllGoalIs(fdt, fdto);
    ret := PreventOverwrite(fdt, fdto);
    AnswerCode(fdto, l2, t2, PreventFrags(o2, fdt.Tree(), o2), ret);
    if ret == 0 {
      AnswerKeeps(fdto, l2, Within(t2, Here, PreventFrags(o2, fdt.Tree(), o2)), 0);
      KeepsTrans(l, l2, fdto);
      PreventedFixups(fdto, l2, t2, PreventFrags(o2, fdt.Tree(), o2));
    }
  }

  lemma PassesFail(base: Tree, o: Tree, delta: u32, e: int)
    requires delta == OverlayApply.MaxKids(base) && AdjustNode(o, delta) == Err(e)
    ensures Passes(base, o) == Err(e)
  {
  }

  lemma PassesAre(base: Tree, o: Tree, delta: u32, o1: Tree)
    requires delta == OverlayApply.MaxKids(base) && AdjustNode(o, delta) == Ok(o1)
    ensures LocalReferences(o1, delta).Err? ==> Passes(base, o) == Err(LocalReferences(o1, delta).error)
    ensures LocalReferences(o1, delta).Ok? ==>
              Passes(base, o) == PreventFrags(LocalReferences(o1, delta).value, base, LocalReferences(o1, delta).value)
  {
  }

  lemma PreventedFixups(fdto: Fdt, l: Layout, t: Tree, r: Result<Tree>)
    requires t.NodeT? && l.forest.Node? && Wf(l.forest) && Named(l.forest, l.strs) && t == Abs(l.forest, l.strs)
    requires FixupsFit(t.body) && Exact(t.body) && Answers(fdto, l, Within(t, Here, r), 0)
    requires Kid(t.body, LOCAL_FIXUPS).Some? ==> Kid(Kid(t.body, LOCAL_FIXUPS).value, OVERLAY).None?
    requires fdto.Valid() && FixupsOf(fdto) == Kid(t.body, LOCAL_FIXUPS)
    ensures RootGuard(fdto) && fdto.Valid() && r == Ok(BodyOf(fdto, Here))
  {
    hide Fdt.St, Fdt.Strs, Fdt.Front, Encodes, FixupsFit, Exact, Abs, Named, Wf, Alike;
    WithBodyAt(t, Here, r.value, Nil);
    RootStays(fdto, l, t);
  }

  // ---------- Names stay fit for paths ----------

  lemma {:induction false} CleanLike(t: Tree, u: Tree)
    requires Like(t, u) && Clean(t)
    ensures Clean(u)
    decreases t
  {
    if t != Nil {
      CleanLike(t.rest, u.rest);
      if t.NodeT? {
        CleanLike(t.body, u.body);
      }
    }
  }

  lemma {:induction false} NamesOkLike(t: Tree, u: Tree)
    requires Like(t, u) && NamesOk(t)
    ensures NamesOk(u)
    decreases t
  {
    if t.PropT? {
      NamesOkLike(t.rest, u.rest);
    }
  }

  lemma {:induction false} CleanMergeProps(b: Tree, o: Tree)
    requires Clean(b)
    ensures Clean(MergeProps(b, o))
    decreases o
  {
    if o.PropT? {
      CleanReplace(b, o.name, o.value);
      CleanMergeProps(Set(b, o.name, o.value), o.rest);
    }
  }

  lemma {:induction false} CleanKid(b: Tree, c: Path)
    requires Clean(b) && IsNode(b, c)
    ensures Clean(BodyAt(b, c))
    decreases c
  {
    match c
    case Here =>
    case Next(d) =>
      CleanKid(b.rest, d);
      BesideBody(b, d, Nil);
    case Into(d) =>
      CleanKid(b.body, d);
      BelowBody(b, d, Nil);
  }

  lemma {:induction false} CleanPut(b: Tree, c: Path, x: Tree)
    requires Clean(b) && IsNode(b, c) && Clean(x)
    ensures Clean(WithBody(b, c, x))
    decreases c
  {
    match c
    case Here =>
    case Next(d) =>
      BesideBody(b, d, x);
      CleanPut(b.rest, d, x);
    case Into(d) =>
      BelowBody(b, d, x);
      CleanPut(b.body, d, x);
  }

  lemma {:induction false} CleanMerge(b: Tree, o: Tree)
    requires Clean(b) && Clean(o)
    ensures Clean(Merge(b, o))
    decreases o, 1
  {
    CleanMergeProps(b, o);
    CleanMergeKids(MergeProps(b, o), o);
  }

  lemma {:induction false} CleanMergeKids(b: Tree, o: Tree)
    requires Clean(b) && Clean(o)
    ensures Clean(MergeKids(b, o))
    decreases o, 0
  {
    match o
    case Nil =>
    case PropT(_, _, rest) => CleanMergeKids(b, rest);
    case NodeT(name, body, rest) =>
      AddedChild(b, name);
      CleanAdd(b, name);
      var w := WithChild(b, name);
      var c := ChildAt(w, name).value;
      CleanKid(w, c);
      CleanMerge(BodyAt(w, c), body);
      CleanPut(w, c, Merge(BodyAt(w, c), body));
      CleanMergeKids(WithBody(w, c, Merge(BodyAt(w, c), body)), rest);
  }

  lemma CleanRootKid(t: Tree, k: Path, x: Tree)
    requires CleanRoot(t) && IsNode(t, k)
    ensures Clean(BodyAt(t, k)) && (Clean(x) ==> CleanRoot(WithBody(t, k, x)))
  {
    OneTree(t, k);
    if k.Into? {
      CleanKid(t.body, k.tail);
      BelowBody(t, k.tail, x);
      if Clean(x) {
        CleanPut(t.body, k.tail, x);
      }
    }
  }

  lemma {:induction false} MergeFragsClean(base: Tree, e: Tree)
    requires CleanRoot(base) && Clean(e) && MergeFrags(base, e).Ok?
    ensures CleanRoot(MergeFrags(base, e).value)
    decreases e
  {
    match e
    case Nil =>
    case PropT(_, _, rest) => MergeFragsClean(base, rest);
    case NodeT(_, body, rest) =>
      MergeFragClean(base, body);
      MergeFragsClean(MergeFrag(base, body).value, rest);
  }

  lemma MergeFragClean(base: Tree, frag: Tree)
    requires CleanRoot(base) && Clean(frag) && MergeFrag(base, frag).Ok?
    ensures CleanRoot(MergeFrag(base, frag).value)
  {
    hide TargetOf;
    if Kid(frag, OVERLAY).Some? {
      var o := Kid(frag, OVERLAY).value;
      ChildIsNode(frag, OVERLAY);
      CleanKid(frag, ChildAt(frag, OVERLAY).value);
      TargetNode(base, frag);
      var k := TargetOf(base, frag).value;
      CleanRootKid(base, k, Nil);
      CleanMerge(BodyAt(base, k), o);
      CleanRootKid(base, k, Merge(BodyAt(base, k), o));
    }
  }

  /**
   * If there are symbols, names are components of paths, no symbol is called like a phandle, and the blobs are small.
   */
  ghost predicate SymbolsFine(fdt: Fdt, fdto: Fdt)
    requires fdt.Valid() && fdto.Valid()
    reads fdt, fdt.mem, fdto, fdto.mem
  {
    var o := BodyOf(fdto, Here);
    Kid(o, SYMBOLS).Some? ==>
      CleanRoot(fdt.Tree()) && Clean(o) && SymbolNamesOk(o) && fdt.totalsize + 2 * fdto.totalsize <= MAX_LEN - 2
  }

  /** The symbols of the overlay, after the passes. */
  lemma SymbolsStay(fdto: Fdt, l: Layout, t: Tree)
    requires Keeps(l, fdto) && t.NodeT? && Wf(l.forest) && Named(l.forest, l.strs) && t == Abs(l.forest, l.strs)
    requires l.forest.Node?
    ensures fdto.totalsize == l.hdr.totalsize
    ensures Kid(BodyOf(fdto, Here), SYMBOLS).Some? ==> Kid(t.body, SYMBOLS).Some?
    ensures Clean(t.body) ==> Clean(BodyOf(fdto, Here))
    ensures SymbolNamesOk(t.body) ==> SymbolNamesOk(BodyOf(fdto, Here))
  {
    hide Fdt.St, Fdt.Strs, Encodes, Abs, Named, Wf;
    EncodesWf(fdto.St(), fdto.forest);
    AlikeAbs(l.forest, fdto.forest, l.strs);
    var o := fdto.Tree().body;
    if Clean(t.body) {
      CleanLike(t.body, o);
    }
    LikeKid(t.body, o, SYMBOLS);
    if SymbolNamesOk(t.body) && Kid(t.body, SYMBOLS).Some? {
      NamesOkLike(Kid(t.body, SYMBOLS).value, Kid(o, SYMBOLS).value);
    }
  }

  lemma BaseReady(fdt: Fdt, front: Kept)
    ensures BaseAt(fdt, front) <==> SymReady(fdt, front)
  {
  }

  lemma ApplyIs(base: Tree, o: Tree)
    ensures Passes(base, o).Err? ==> ApplyTree(base, o) == Err(Passes(base, o).error)
    ensures Passes(base, o).Ok? ==>
              ApplyTree(base, o) == SymbolsPass(MergeFrags(base, Passes(base, o).value), Passes(base, o).value)
  {
  }

  /** The room that the symbols take at most, once the merge has given r. */
  ghost function PassRoom(r: Result<Tree>, t: Tree): nat {
    match r
    case Err(_) => 0
    case Ok(m) => AllSymbolsRoom(m, t)
  }

  /** The room that the application of the overlay body o takes at most: its fragments, and its symbols. */
  ghost function OverlayRoom(base: Tree, o: Tree): nat {
    FragsRoom(o) +
    match Passes(base, o)
    case Err(_) => 0
    case Ok(t) => PassRoom(MergeFrags(base, t), t)
  }

  lemma OverlayRoomIs(base: Tree, o: Tree, t: Tree)
    requires Passes(base, o) == Ok(t) && Like(o, t)
    ensures OverlayRoom(base, o) == FragsRoom(t) + PassRoom(MergeFrags(base, t), t)
  {
    hide Passes, MergeFrags;
    FragsRoomLike(o, t);
  }

  lemma {:induction false} FragsRoomLike(t: Tree, u: Tree)
    requires Like(t, u)
    ensures FragsRoom(u) == FragsRoom(t)
    decreases t
  {
    if t != Nil {
      FragsRoomLike(t.rest, u.rest);
      if t.NodeT? {
        LikeKid(t.body, u.body, OVERLAY);
        if Kid(t.body, OVERLAY).Some? {
          RoomLike(Kid(t.body, OVERLAY).value, Kid(u.body, OVERLAY).value);
        }
      }
    }
  }

  /** Values of the same lengths take the same room. */
  lemma {:induction false} RoomLike(t: Tree, u: Tree)
    requires Like(t, u)
    ensures PropsRoom(u) == PropsRoom(t) && KidsRoom(u) == KidsRoom(t) && Room(u) == Room(t)
    decreases t
  {
    hide PropRoom, KidRoom;
    if t != Nil {
      RoomLike(t.rest, u.rest);
      if t.NodeT? {
        RoomLike(t.body, u.body);
      }
    }
  }

  lemma SymbolsPassIs(r: Result<Tree>, t: Tree)
    ensures PassRoom(r, t) == if r.Ok? then AllSymbolsRoom(r.value, t) else 0
    ensures r.Err? ==> SymbolsPass(r, t) == Err(r.error)
    ensures r.Ok? ==> SymbolsPass(r, t) == SymbolsTree(r.value, t)
  {
  }

  /** The last two steps: the merge, and the symbols. */
  method MergeAndUpdate(fdt: Fdt, fdto: Fdt, ghost front: Kept) returns (ret: int)
    requires fdt != fdto && fdt.mem != fdto.mem && BaseAt(fdt, front) && fdt.Valid() && RootGuard(fdto) && fdto.Valid()
    requires SymbolsFine(fdt, fdto)
    modifies fdt, fdt.mem
    ensures BaseAt(fdt, front) && fdt.Valid()
    ensures ret == 0 ==>
              SymbolsPass(MergeFrags(old(fdt.Tree()), BodyOf(fdto, Here)), BodyOf(fdto, Here)) == Ok(fdt.Tree())
    ensures ret != 0 ==>
              ret == -NOSPACE ||
              SymbolsPass(MergeFrags(old(fdt.Tree()), BodyOf(fdto, Here)), BodyOf(fdto, Here)) == Err(ret)
    ensures SymbolsPass(MergeFrags(old(fdt.Tree()), BodyOf(fdto, Here)), BodyOf(fdto, Here)) == Err(ret) ||
            Taken(ret, old(fdt.DataEnd()), fdt.DataEnd(),
                  FragsRoom(BodyOf(fdto, Here)) + PassRoom(MergeFrags(old(fdt.Tree()), BodyOf(fdto, Here)),
                                                           BodyOf(fdto, Here)),
                  front.totalsize)
  {
    hide *;
    ghost var end, total := fdt.DataEnd(), front.totalsize;
    RootFacts(fdto);
    BaseFacts(fdt, front);
    FrontSize(fdt);
    ghost var base, o := fdt.Tree(), BodyOf(fdto, Here);
    SymbolsPassIs(MergeFrags(base, o), o);
    FineFacts(fdt, fdto);
    ghost var x, y := FragsRoom(o), PassRoom(MergeFrags(base, o), o);
    ret := MergeOverlay(fdt, fdto, front);
    ghost var mid := fdt.DataEnd();
    if ret != 0 {
      if MergeFrags(base, o) != Err(ret) {
        TakenWithin(ret, end, mid, x, x + y, total);
      }
      return;
    }
    if Kid(o, SYMBOLS).Some? {
      MergeFragsClean(base, o);
    }
    BaseFacts(fdt, front);
    FrontSize(fdt);
    BaseReady(fdt, front);
    ret := SymbolUpdate(fdt, fdto, front);
    BaseReady(fdt, front);
    if SymbolsPass(MergeFrags(base, o), o) != Err(ret) {
      TakenMore(ret, end, mid, fdt.DataEnd(), x, y, total);
    }
  }

  lemma FineFacts(fdt: Fdt, fdto: Fdt)
    requires fdt.Valid() && fdto.Valid() && SymbolsFine(fdt, fdto)
    ensures var o := BodyOf(fdto, Here);
      Kid(o, SYMBOLS).Some? ==>
        CleanRoot(fdt.Tree()) && Clean(o) && SymbolNamesOk(o) && fdt.totalsize + 2 * fdto.totalsize <= MAX_LEN - 2
  {
  }

  lemma TakenFails(ret: int, end: int, now: int, room: int, total: int)
    requires ret != 0 && Taken(ret, end, now, room, total)
    ensures end + room > total
  {
  }

  /** The passes keep the lengths of all values. */
  lemma PassedLike(fdto: Fdt, l: Layout, t: Tree)
    requires Keeps(l, fdto) && t.NodeT? && Wf(l.forest) && Named(l.forest, l.strs) && t == Abs(l.forest, l.strs)
    requires l.forest.Node?
    ensures Like(t.body, BodyOf(fdto, Here))
  {
    hide Fdt.St, Fdt.Strs, Encodes, Abs, Named, Wf;
    EncodesWf(fdto.St(), fdto.forest);
    AlikeAbs(l.forest, fdto.forest, l.strs);
    WithBodySelf(fdto.Tree(), Here);
    BodyOfRoot(fdto);
  }

  lemma BodyOfRoot(fdto: Fdt)
    requires fdto.Valid() && fdto.forest.Node? && IsPath(fdto.forest, Here)
    ensures fdto.Tree().NodeT? && BodyOf(fdto, Here) == fdto.Tree().body
  {
    hide Fdt.St, Fdt.Strs, Encodes;
  }

  /**
   * fdt_overlay_apply for an overlay without external fixups. The overlay loses its magic; on failure the base does,
   * too.
   * It runs out of room only if there is less than OverlayRoom.
   */
  method FdtOverlayApply(fdt: Fdt, fdto: Fdt) returns (ret: int)
    requires fdt != fdto && fdt.mem != fdto.mem && fdt.Valid() && Target(fdt, 0, Here) && IsPath(fdt.forest, Here)
    requires Appliable(fdto) && fdto.Valid() && SymbolsFine(fdt, fdto) && Kid(BodyOf(fdto, Here), FIXUPS).None?
    modifies fdt, fdt.mem, fdto, fdto.mem
    ensures fdto.magic == MAX_U32
    ensures ret == 0 ==>
              fdt.Valid() && ApplyTree(old(fdt.Tree()), old(BodyOf(fdto, Here))) == Ok(fdt.Tree()) &&
              fdt.Front() == old(fdt.Front())
    ensures ret != 0 ==> fdt.magic == MAX_U32
    ensures ret != 0 ==>
              || ApplyTree(old(fdt.Tree()), old(BodyOf(fdto, Here))) == Err(ret)
              || (ret == -NOSPACE && old(fdt.DataEnd() + OverlayRoom(fdt.Tree(), BodyOf(fdto, Here)) > fdt.totalsize))
  {
    hide Taken, OverlayRoom, PassRoom, FragsRoom, Fdt.DataEnd, Fdt.St, Fdt.Strs, Fdt.Tree, Fdt.Front, Encodes,
         Appliable, RootGuard, Passes, MergeFrags, BodyOf, ApplyTree, SymbolsPass, Keeps;
    ghost var base, o, front := fdt.Tree(), BodyOf(fdto, Here), fdt.Front();
    ApplyIs(base, o);
    AppliableFacts(fdto);
    RootFacts(fdto);
    ghost var l, t := LayoutOf(fdto), fdto.Tree();
    var probe := ReadOnly.RoProbe(fdt);
    assert probe >= 0;
    probe := ReadOnly.RoProbe(fdto);
    assert probe >= 0;
    ret := ApplyPasses(fdt, fdto);
    if ret == 0 {
      SymbolsStay(fdto, l, t);
      PassedLike(fdto, l, t);
      OverlayRoomIs(base, o, BodyOf(fdto, Here));
      FrontTotal(fdt);
      ghost var end := fdt.DataEnd();
      ret := MergeAndUpdate(fdt, fdto, front);
      if ret != 0 && ApplyTree(base, o) != Err(ret) {
        TakenFails(ret, end, fdt.DataEnd(), OverlayRoom(base, o), front.totalsize);
      }
    }
    fdto.magic := 0xffff_ffff;
    if ret != 0 {
      fdt.magic := 0xffff_ffff;
    }
  }
}
