/** libfdt/fdt_overlay.c: the target of a fragment. */
module Targets {
  import opened Bytes
  import opened Tags
  import opened Blob
  import opened Forests
  import opened Edits
  import opened Trees
  import opened Walk
  import opened Merging
  import opened ReadWrite
  import opened Applying
  import opened Overlay
  import opened Renumber
  import opened References
  import opened Paths
  import FdtCore
  import ReadOnly
  import Traverse
  import Phandles

  const TARGET: bytes := [0x74, 0x61, 0x72, 0x67, 0x65, 0x74]  // "target"
  const TARGET_PATH: bytes := TARGET + [0x2d, 0x70, 0x61, 0x74, 0x68]  // "target-path"

  // ---------- On trees ----------

  /** The place of the first node, in preorder, that carries the phandle. */
  ghost function FirstWith(t: Tree, phandle: u32): (r: Option<Path>)
    ensures r.Some? ==> IsNode(t, r.value)
  {
    match t
    case Nil => None
    case PropT(_, _, rest) => Beside(FirstWith(rest, phandle))
    case NodeT(_, body, rest) =>
      if Phandle(body) == phandle then Some(Here)
      else
        match FirstWith(body, phandle)
        case Some(q) => Some(Into(q))
        case None => Beside(FirstWith(rest, phandle))
  }

  ghost function Beside(q: Option<Path>): Option<Path> {
    match q
    case None => None
    case Some(r) => Some(Next(r))
  }

  /** The place that a path leads to from the node at place k. */
  ghost function PathPlace(t: Tree, k: Path, path: bytes): Option<Path>
    decreases |path|
  {
    if path == [] then Some(k)
    else if path[0] == SLASH then PathPlace(t, k, path[1..])
    else
      var n := FirstSlash(path);
      match ChildAt(BodyAt(t, k), path[..n])
      case None => None
      case Some(c) => if n == 0 then None else PathPlace(t, Inside(k, c), path[n..])
  }

  /** The word in the target property of a fragment: 0 if there is none, and the largest word if it is malformed. */
  function TargetWord(frag: Tree): u32 {
    match Get(frag, TARGET)
    case None => 0
    case Some(v) => if |v| != 4 then MAX_U32 else Dec32(v, 0)
  }

  /** Where the target-path of a fragment leads to; a path that does not start with a slash leads nowhere. */
  ghost function PathTarget(t: Tree, frag: Tree): Result<Path> {
    match Get(frag, TARGET_PATH)
    case None => Err(-BADOVERLAY)
    case Some(v) =>
      var path := StrAt(v, 0).GetOr([]);
      if path == [] || path[0] != SLASH then Err(-BADPATH) else Found(PathPlace(t, Here, path))
  }

  ghost function Found(k: Option<Path>): Result<Path> {
    match k
    case None => Err(-NOTFOUND)
    case Some(q) => Ok(q)
  }

  /** fdt_overlay_target_offset: the place in the base t that a fragment is for. */
  ghost function TargetOf(t: Tree, frag: Tree): Result<Path> {
    var w := TargetWord(frag);
    if w == MAX_U32 then Err(-BADPHANDLE)
    else if w != 0 then Found(FirstWith(t, w))
    else PathTarget(t, frag)
  }

  lemma {:induction false} FirstWithAbs(f: Forest, strs: bytes, phandle: u32)
    requires Wf(f) && Named(f, strs)
    ensures FirstWith(Abs(f, strs), phandle) ==
            (match Phandles.PhandlePath(f, strs, phandle) case None => None case Some(q) => Some(AbsPath(f, q)))
    decreases f
  {
    hide Phandle;
    if f != Empty {
      FirstWithAbs(f.rest, strs, phandle);
      if f.Node? {
        FirstWithAbs(f.body, strs, phandle);
      }
    }
  }

  lemma {:induction false} FirstWithNone(t: Tree, phandle: u32)
    ensures FirstWith(t, phandle).None? <==> forall k :: IsNode(t, k) ==> Phandle(BodyAt(t, k)) != phandle
  {
    hide Phandle;
    if t != Nil {
      FirstWithNone(t.rest, phandle);
      forall k | IsNode(t.rest, k) ensures IsNode(t, Next(k)) && BodyAt(t, Next(k)) == BodyAt(t.rest, k) {
      }
      if t.NodeT? {
        FirstWithNone(t.body, phandle);
        assert IsNode(t, Here) && BodyAt(t, Here) == t.body;
        forall k | IsNode(t.body, k) ensures IsNode(t, Into(k)) && BodyAt(t, Into(k)) == BodyAt(t.body, k) {
        }
      }
    }
  }

  /**
   * Which error the search for a target gives: a phandle that is no word or the largest one is bad, one that no node
   * carries is not found; without a phandle, a fragment needs a path that starts with a slash and leads to a node.
   */
  lemma TargetErrors(t: Tree, frag: Tree)
    ensures
      var r, target, path := TargetOf(t, frag), Get(frag, TARGET), Get(frag, TARGET_PATH);
      var zero := target.None? || target == Some([0, 0, 0, 0]);
      && (r == Err(-BADPHANDLE) <==> target.Some? && (|target.value| != 4 || target == Some([0xff, 0xff, 0xff, 0xff])))
      && (r == Err(-BADOVERLAY) <==> zero && path.None?)
      && (r == Err(-BADPATH) <==> zero && path.Some? && (path == Some([]) || path.value[0] != 0x2f || 0 !in path.value))
      && (r.Err? ==> r.error in {-BADPHANDLE, -BADOVERLAY, -BADPATH, -NOTFOUND})
      && (r.Ok? || r == Err(-NOTFOUND) ==>
            if zero then r == Found(PathPlace(t, Here, StrAt(path.value, 0).value))
            else r.Err? <==> forall k :: IsNode(t, k) ==> Phandle(BodyAt(t, k)) != Dec32(target.value, 0))
  {
    hide FirstWith, PathPlace;
    if Get(frag, TARGET).Some? && |Get(frag, TARGET).value| == 4 {
      Words(Get(frag, TARGET).value);
      FirstWithNone(t, Dec32(Get(frag, TARGET).value, 0));
    }
  }

  lemma Words(v: bytes)
    requires |v| == 4
    ensures Dec32(v, 0) == 0 <==> v == [0, 0, 0, 0]
    ensures Dec32(v, 0) == MAX_U32 <==> v == [0xff, 0xff, 0xff, 0xff]
  {
  }

  // ---------- On the blobs ----------

  /** Looking up a path in the structure block is looking it up in the tree. */
  lemma {:induction false} PathFromIs(fdt: Fdt, node: int, p: Path, path: bytes) returns (q: Path)
    requires Target(fdt, node, p) && IsPath(fdt.forest, p)
    ensures match PathPlace(fdt.Tree(), AbsPath(fdt.forest, p), path)
      case None => PathFrom(fdt.St(), path, node) == -NOTFOUND
      case Some(k) =>
        var r := PathFrom(fdt.St(), path, node);
        r >= 0 && Target(fdt, r, q) && IsPath(fdt.forest, q) && AbsPath(fdt.forest, q) == k
    decreases |path|, 1
  {
    hide Fdt.St, Fdt.Strs, Has, Encodes, Named, NameEq, Walk.SubnodeOffset, Abs;
    q := p;
    if path != [] {
      if path[0] == SLASH {
        q := PathFromIs(fdt, node, p, path[1..]);
      } else {
        q := PathStep(fdt, node, p, path);
      }
    }
  }

  lemma PathStep(fdt: Fdt, node: int, p: Path, path: bytes) returns (q: Path)
    requires Target(fdt, node, p) && IsPath(fdt.forest, p) && path != [] && path[0] != SLASH
    ensures match PathPlace(fdt.Tree(), AbsPath(fdt.forest, p), path)
      case None => PathFrom(fdt.St(), path, node) == -NOTFOUND
      case Some(k) =>
        var r := PathFrom(fdt.St(), path, node);
        r >= 0 && Target(fdt, r, q) && IsPath(fdt.forest, q) && AbsPath(fdt.forest, q) == k
    decreases |path|, 0
  {
    hide Fdt.St, Fdt.Strs, Has, Encodes, Named, NameEq, Walk.SubnodeOffset, Abs, FirstSlash;
    var name := path[..FirstSlash(path)];
    SlashAfter(path);
    NodeHere(fdt, node, p);
    KidOffset(fdt, node, p, name);
    q := p;
    if Kid(BodyOf(fdt, p), name).Some? {
      var c := ChildOffset(fdt, node, p, name);
      q := PathFromIs(fdt, Walk.SubnodeOffset(fdt.St(), node, name), Inside(p, c), path[FirstSlash(path)..]);
    }
  }

  /** fdt_getprop on a node of the tree. */
  method GetProp(fdt: Fdt, node: int, name: bytes, ghost p: Path) returns (v: Option<bytes>)
    requires Target(fdt, node, p) && IsPath(fdt.forest, p) && fdt.Valid()
    ensures v == Get(BodyOf(fdt, p), name)
  {
    hide Fdt.St, Fdt.Strs, Fdt.Tree, Dec32, BodyAt, AbsPath, Walk.GetProperty, Get, Encodes, Abs, Named, IsNode,
         Traverse.PropPath;
    ghost var q := LookupMeans(fdt, node, name, Some(p));
    var prop, len := ReadOnly.GetProperty(fdt, node, name);
    if prop < 0 {
      return None;
    }
    EncodesAt(fdt.St(), fdt.forest, Inside(p, q));
    ValueAt(fdt.St(), Pos(fdt.forest, Inside(p, q)), At(fdt.forest, Inside(p, q)));
    var s := FdtCore.StSlice(fdt, prop + 12, len);
    return Some(s);
  }

  /** overlay_get_target_phandle */
  method GetTargetPhandle(fdto: Fdt, fragment: int, ghost p: Path) returns (w: u32)
    requires Target(fdto, fragment, p) && IsPath(fdto.forest, p) && fdto.Valid()
    ensures w == TargetWord(BodyOf(fdto, p))
  {
    hide Fdt.St, Fdt.Strs, Fdt.Tree, BodyAt, AbsPath, Get;
    var val := GetProp(fdto, fragment, TARGET, p);
    if val.None? {
      return 0;
    }
    if |val.value| != 4 || Dec32(val.value, 0) == 0xffff_ffff {
      return 0xffff_ffff;
    }
    return Dec32(val.value, 0);
  }

  /** fdt_node_offset_by_phandle: the place in the tree. */
  lemma ByPhandle(fdt: Fdt, phandle: u32) returns (q: Path)
    requires fdt.Valid()
    ensures Wf(fdt.forest) && Named(fdt.forest, fdt.Strs())
    ensures match Phandles.PhandlePath(fdt.forest, fdt.Strs(), phandle)
      case None => FirstWith(fdt.Tree(), phandle).None?
      case Some(x) =>
        && q == x && IsPath(fdt.forest, q) && FirstWith(fdt.Tree(), phandle) == Some(AbsPath(fdt.forest, q))
        && Target(fdt, 4 * Pos(fdt.forest, q), q)
  {
    hide Fdt.St, Fdt.Strs, Has, Encodes, Named, Abs, Phandle;
    EncodesWf(fdt.St(), fdt.forest);
    FirstWithAbs(fdt.forest, fdt.Strs(), phandle);
    q := Phandles.PhandlePath(fdt.forest, fdt.Strs(), phandle).GetOr(Here);
    if Phandles.PhandlePath(fdt.forest, fdt.Strs(), phandle).Some? {
      OffsetBound(fdt, q);
    }
  }

  /** The string by which a fragment names its target, if it does so by a path. */
  function TargetString(frag: Tree): Option<bytes> {
    if TargetWord(frag) != 0 || Get(frag, TARGET_PATH).None? then None else StrAt(Get(frag, TARGET_PATH).value, 0)
  }

  /**
   * fdt_overlay_target_offset: the offset of the place in the base and the path that named it, if any; or the error.
   */
  method TargetOffset(fdt: Fdt, fdto: Fdt, fragment: int, ghost p: Path)
    returns (ret: int, pathp: Option<bytes>, ghost q: Path)
    requires fdt.Valid() && Target(fdt, 0, Here) && IsPath(fdt.forest, Here)
    requires Target(fdto, fragment, p) && fdto.Valid() && IsPath(fdto.forest, p)
    ensures match TargetOf(fdt.Tree(), BodyOf(fdto, p))
      case Err(e) => ret == e && e < 0
      case Ok(k) =>
        ret >= 0 && Target(fdt, ret, q) && IsPath(fdt.forest, q) && AbsPath(fdt.forest, q) == k &&
          pathp == TargetString(BodyOf(fdto, p))
  {
    hide Fdt.St, Fdt.Strs, Fdt.Tree, BodyAt, AbsPath, Get, Encodes, Named, Abs, PathFrom, FirstWith, PathPlace, StrAt,
         TargetWord,
         Phandles.PhandlePath;
    q, pathp := Here, None;
    var phandle := GetTargetPhandle(fdto, fragment, p);
    if phandle == 0xffff_ffff {
      return -BADPHANDLE, pathp, q;
    }
    if phandle != 0 {
      q := ByPhandle(fdt, phandle);
      ret := Phandles.NodeOffsetByPhandle(fdt, phandle);
      return;
    }
    var path := GetProp(fdto, fragment, TARGET_PATH, p);
    if path.None? {
      return -BADOVERLAY, pathp, q;
    }
    pathp := StrAt(path.value, 0);
    var s := pathp.GetOr([]);
    if s == [] || s[0] != SLASH {
      return -BADPATH, pathp, q;
    }
    RootPlace(fdt);
    q := PathFromIs(fdt, 0, Here, s);
    ret := PathOffset(fdt, s);
  }

  lemma RootPlace(fdt: Fdt)
    ensures AbsPath(fdt.forest, Here) == Here
  {
  }
}
