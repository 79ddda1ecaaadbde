/** libfdt/fdt_overlay.c: applying an overlay to blobs is applying it by address, and references survive it. */
module Survival {
  import opened Bytes
  import opened Blob
  import opened Forests
  import opened Trees
  import opened Walk
  import opened Merging
  import opened Overlay
  import opened OverlayApply
  import opened Renumber
  import opened References
  import opened Conflicts
  import opened Targets
  import opened Fragments
  import Paths

  // ---------- Well-formed overlays can be applied ----------

  lemma {:induction false} UnreachedFrom(t: Tree, names: set<bytes>, x: bytes)
    requires Uniform(names) && NamesIn(t, names) && x in names && NoKid(t, x)
    ensures Unreached(t, x)
  {
    match t
    case Nil =>
    case PropT(_, _, rest) => UnreachedFrom(rest, names, x);
    case NodeT(n, _, rest) =>
      UnreachedFrom(rest, names, x);
      assert Unlike(n, x);
  }

  lemma {:induction false} ExactFrom(t: Tree, names: set<bytes>)
    requires Uniform(names) && NamesIn(t, names) && Plain(t)
    ensures Exact(t)
  {
    match t
    case Nil =>
    case PropT(_, _, rest) => ExactFrom(rest, names);
    case NodeT(n, body, rest) =>
      ExactFrom(body, names);
      ExactFrom(rest, names);
      UnreachedFrom(rest, names, n);
  }

  /** The offsets that f lists lie in the values of t with the same address. */
  ghost predicate Listing(t: Tree, f: Tree, names: set<bytes>) {
    forall a, name :: Known(a, names) && Val(f, a, name).Some? && Val(t, a, name).Some? ==>
      SlotsIn(Val(f, a, name).value, |Val(t, a, name).value|)
  }

  lemma {:induction false} FitsFrom(t: Tree, f: Tree, names: set<bytes>)
    requires Uniform(names) && NamesIn(t, names) && NamesIn(f, names) && Plain(f) && Listing(t, f, names)
    ensures Fits(t, f)
    decreases f, 1
  {
    forall name | Get(f, name).Some? && Get(t, name).Some? ensures SlotsIn(Get(f, name).value, |Get(t, name).value|) {
      assert Known([], names) && Val(f, [], name) == Get(f, name) && Val(t, [], name) == Get(t, name);
    }
    FitsPropsFrom(t, f);
    FitsKidsFrom(t, f, names);
  }

  lemma {:induction false} FitsPropsFrom(t: Tree, f: Tree)
    requires Plain(f)
    requires forall name ::
              Get(f, name).Some? && Get(t, name).Some? ==> SlotsIn(Get(f, name).value, |Get(t, name).value|)
    ensures FitsProps(t, f)
    decreases f
  {
    if f.PropT? {
      assert Get(f, f.name) == Some(f.value);
      forall name | Get(f.rest, name).Some? && Get(t, name).Some?
        ensures SlotsIn(Get(f.rest, name).value, |Get(t, name).value|)
      {
        assert Get(f, name) == Get(f.rest, name);
      }
      FitsPropsFrom(t, f.rest);
    }
  }

  /** The same for what lies below the node. */
  ghost predicate ListingBelow(t: Tree, f: Tree, names: set<bytes>) {
    forall a, name :: Known(a, names) && a != [] && Val(f, a, name).Some? && Val(t, a, name).Some? ==>
      SlotsIn(Val(f, a, name).value, |Val(t, a, name).value|)
  }

  lemma {:induction false} FitsKidsFrom(t: Tree, f: Tree, names: set<bytes>)
    requires Uniform(names) && NamesIn(t, names) && NamesIn(f, names) && Plain(f) && ListingBelow(t, f, names)
    ensures FitsKids(t, f)
    decreases f, 0
  {
    match f
    case Nil =>
    case PropT(_, _, rest) =>
      SkipProp(f);
      forall a, name | Known(a, names) && a != [] ensures Val(rest, a, name) == Val(f, a, name) {
        assert NodeBy(f, a) == NodeBy(rest, a);
      }
      FitsKidsFrom(t, rest, names);
    case NodeT(n, body, rest) =>
      RestEntries(f, names);
      forall a, name | Known(a, names) && a != [] && Val(rest, a, name).Some?
        ensures Val(rest, a, name) == Val(f, a, name) {
        assert NodeBy(f, a) == NodeBy(rest, a);
      }
      FitsKidsFrom(t, rest, names);
      if Kid(t, n).Some? {
        var k := Kid(t, n).value;
        KidNames(t, names, n);
        forall a, name | Known(a, names) && Val(body, a, name).Some? && Val(k, a, name).Some?
          ensures SlotsIn(Val(body, a, name).value, |Val(k, a, name).value|)
        {
          assert Known([n] + a, names) && ([n] + a)[1..] == a && ([n] + a)[0] == n;
          assert Val(f, [n] + a, name) == Val(body, a, name) && Val(t, [n] + a, name) == Val(k, a, name);
        }
        FitsFrom(k, body, names);
      }
  }

  lemma {:induction false} NoPhandlesFrom(b: Tree, names: set<bytes>)
    requires Uniform(names) && NamesIn(b, names) && Plain(b)
    requires forall a, name :: Known(a, names) && IsPhandleName(name) ==> Val(b, a, name).None?
    ensures NoPhandles(b)
    decreases b, 1
  {
    assert Known([], names) && Val(b, [], PHANDLE) == Get(b, PHANDLE) &&
      Val(b, [], LINUX_PHANDLE) == Get(b, LINUX_PHANDLE);
    NoPhandlesBelowFrom(b, names);
  }

  lemma {:induction false} NoPhandlesBelowFrom(b: Tree, names: set<bytes>)
    requires Uniform(names) && NamesIn(b, names) && Plain(b)
    requires forall a, name :: Known(a, names) && IsPhandleName(name) && a != [] ==> Val(b, a, name).None?
    ensures NoPhandlesBelow(b)
    decreases b, 0
  {
    match b
    case Nil =>
    case PropT(_, _, rest) =>
      SkipProp(b);
      forall a, name | Known(a, names) && IsPhandleName(name) && a != [] ensures Val(rest, a, name).None? {
        assert NodeBy(b, a) == NodeBy(rest, a);
      }
      NoPhandlesBelowFrom(rest, names);
    case NodeT(n, body, rest) =>
      RestEntries(b, names);
      forall a, name | Known(a, names) && IsPhandleName(name) ensures Val(body, a, name).None? {
        assert Known([n] + a, names) && ([n] + a)[1..] == a && ([n] + a)[0] == n;
        assert Val(b, [n] + a, name) == Val(body, a, name);
      }
      NoPhandlesFrom(body, names);
      forall a, name | Known(a, names) && IsPhandleName(name) && a != [] ensures Val(rest, a, name).None? {
        if a[0] != n {
          assert NodeBy(b, a) == NodeBy(rest, a);
        }
      }
      NoPhandlesBelowFrom(rest, names);
  }

  /** Well-formed overlays meet what the passes over the blob ask for. */
  lemma WellFormedFits(o: Tree, names: set<bytes>)
    requires WellFormed(o, names)
    ensures FixupsFit(o) && Exact(o) && (Kid(o, LOCAL_FIXUPS).Some? ==> NoPhandles(Kid(o, LOCAL_FIXUPS).value))
  {
    ExactFrom(o, names);
    OneStep(o, LOCAL_FIXUPS);
    if Kid(o, LOCAL_FIXUPS).Some? {
      var f := Fixups(o);
      FoundExact(o, names, LOCAL_FIXUPS);
      NoKidMeans(f, names, LOCAL_FIXUPS);
      UnreachedFrom(f, names, LOCAL_FIXUPS);
      FitsFrom(o, f, names);
      forall a, name | Known(a, names) && IsPhandleName(name) ensures Val(f, a, name).None? {
        NoFixup(o, names, a, name);
      }
      NoPhandlesFrom(f, names);
    }
  }

  // ---------- Addresses of places, and components of paths ----------

  /** A node at place q among the entries of t, which come at place r of the body of the node at k, has an address. */
  lemma {:induction false} AddressOf(whole: Tree, k: Path, r: Path, t: Tree, q: Path, names: set<bytes>)
    returns (a: Address)
    requires IsNode(whole, k) && Exact(BodyAt(whole, k)) && NamesIn(t, names) && Flat(r)
    requires IsPlace(BodyAt(whole, k), r) && TreeAt(BodyAt(whole, k), r) == t && IsNode(t, q)
    ensures Known(a, names) && PlaceBy(whole, k, a) == Some(Inside(k, Join(r, q)))
    decreases q
  {
    match q
    case Here =>
      JoinHere(r);
      OwnChild(BodyAt(whole, k), r);
      a := [t.name];
      assert a[1..] == [] && PlaceBy(whole, Inside(k, r), []) == Some(Inside(k, r));
    case Next(q') =>
      JoinPlace(BodyAt(whole, k), r, Next(Here), Nil);
      JoinJoin(r, Next(Here), q');
      FlatJoin(r, Next(Here));
      a := AddressOf(whole, k, Join(r, Next(Here)), t.rest, q', names);
    case Into(q') =>
      var b := BodyAt(whole, k);
      OwnChild(b, r);
      ChildInside(whole, k, t.name, Nil);
      WithBodyInside(whole, k, r, Nil);
      ExactAt(b, r);
      a := AddressOf(whole, Inside(k, r), Here, t.body, q', names);
      JoinInside(k, r, Into(q'));
      JoinJoin(k, Into(r), Into(q'));
      a := [t.name] + a;
      assert a[1..] == a[1..] && a[0] == t.name;
  }

  lemma {:induction false} JoinHere(r: Path)
    ensures Join(r, Here) == r
  {
    if r != Here {
      JoinHere(r.tail);
    }
  }

  /** The components of a path. */
  function Components(path: bytes): Address
    decreases |path|
  {
    if path == [] then []
    else if path[0] == SLASH then Components(path[1..])
    else
      var n := Paths.FirstSlash(path);
      if n == 0 then [] else [path[..n]] + Components(path[n..])
  }

  /** A path leads where the address made of its components leads. */
  lemma {:induction false} PathIsAddress(t: Tree, k: Path, path: bytes)
    ensures PathPlace(t, k, path) == PlaceBy(t, k, Components(path))
    decreases |path|
  {
    if path != [] {
      if path[0] == SLASH {
        PathIsAddress(t, k, path[1..]);
      } else {
        var n := Paths.FirstSlash(path);
        Paths.SlashAfter(path);
        var a := Components(path);
        assert a[0] == path[..n] && a[1..] == Components(path[n..]);
        if ChildAt(BodyAt(t, k), a[0]).Some? {
          PathIsAddress(t, Inside(k, ChildAt(BodyAt(t, k), a[0]).value), path[n..]);
        }
      }
    }
  }

  // ---------- Where the targets are ----------

  lemma {:induction false} FirstCarries(t: Tree, w: u32)
    ensures FirstWith(t, w).Some? ==> Phandle(BodyAt(t, FirstWith(t, w).value)) == w
  {
    hide Phandle;
    match t
    case Nil =>
    case PropT(_, _, rest) => FirstCarries(rest, w);
    case NodeT(_, body, rest) =>
      FirstCarries(body, w);
      FirstCarries(rest, w);
  }

  lemma {:induction false} FirstExists(t: Tree, w: u32, q: Path)
    requires IsNode(t, q) && Phandle(BodyAt(t, q)) == w
    ensures FirstWith(t, w).Some?
    decreases q
  {
    hide Phandle;
    match q
    case Here =>
    case Next(r) => FirstExists(t.rest, w, r);
    case Into(r) => FirstExists(t.body, w, r);
  }

  /** A tree with one root, of exact and distinct names. */
  ghost predicate OneRoot(base: Tree, names: set<bytes>) {
    base.NodeT? && base.rest == Nil && Uniform(names) && NamesIn(base.body, names) && Plain(base.body)
  }

  /** No node but the one at a carries the phandle w. */
  ghost predicate OnlyAt(b: Tree, w: u32, a: Address, names: set<bytes>) {
    forall z :: Known(z, names) && PhandleAt(b, z) == w ==> z == a
  }

  /** The search for a phandle that only the node at a carries finds that node. */
  lemma FirstIs(base: Tree, w: u32, a: Address, names: set<bytes>)
    requires OneRoot(base, names) && Known(a, names) && PhandleAt(base.body, a) == w && w != 0
    requires OnlyAt(base.body, w, a, names)
    ensures PlaceBy(base, Here, a).Some? && FirstWith(base, w) == PlaceBy(base, Here, a)
  {
    hide Phandle;
    ExactFrom(base.body, names);
    PlaceExists(base, Here, a);
    var k := PlaceBy(base, Here, a).value;
    PlaceByMeans(base, Here, a, k, Nil);
    FirstExists(base, w, k);
    FirstCarries(base, w);
    var q := FirstWith(base, w).value;
    var z: Address := [];
    if q != Here {
      z := AddressOf(base, Here, Here, base.body, q.tail, names);
      PlaceByMeans(base, Here, z, q, Nil);
    }
    assert PlaceBy(base, Here, z) == Some(q) && PhandleAt(base.body, z) == w;
  }

  lemma {:induction false} PlaceExists(t: Tree, k: Path, a: Address)
    requires IsNode(t, k)
    ensures PlaceBy(t, k, a).Some? <==> NodeBy(BodyAt(t, k), a).Some?
    decreases |a|
  {
    if a != [] && ChildAt(BodyAt(t, k), a[0]).Some? {
      ChildInside(t, k, a[0], Nil);
      PlaceExists(t, Inside(k, ChildAt(BodyAt(t, k), a[0]).value), a[1..]);
    }
  }

  /** The target-path of a fragment consists of the components of a. */
  ghost predicate PathAims(frag: Tree, a: Address) {
    Get(frag, TARGET_PATH).Some? &&
    match StrAt(Get(frag, TARGET_PATH).value, 0)
    case None => false
    case Some(path) => path != [] && path[0] == SLASH && Components(path) == a
  }

  /** A fragment is for the node at address a of the base b: it names its phandle, or its path. */
  ghost predicate Aims(frag: Tree, b: Tree, a: Address) {
    var w := TargetWord(frag);
    w != MAX_U32 && if w != 0 then PhandleAt(b, a) == w else PathAims(frag, a)
  }

  /** The lookup of the target leads to that node. */
  lemma TargetFound(base: Tree, frag: Tree, a: Address, names: set<bytes>)
    requires OneRoot(base, names) && Known(a, names) && Aims(frag, base.body, a)
    requires TargetWord(frag) != 0 ==> OnlyAt(base.body, TargetWord(frag), a, names)
    ensures TargetOf(base, frag) == Found(PlaceBy(base, Here, a))
  {
    hide TargetWord;
    if TargetWord(frag) != 0 {
      FirstIs(base, TargetWord(frag), a, names);
    } else {
      PathIsAddress(base, Here, StrAt(Get(frag, TARGET_PATH).value, 0).value);
    }
  }

  // ---------- The fragments of an overlay ----------

  /** frags are, in order, the fragments among the entries e of the overlay body o. */
  ghost predicate Enumerates(e: Tree, o: Tree, frags: seq<Fragment>)
    decreases e
  {
    match e
    case Nil => frags == []
    case PropT(_, _, rest) => Enumerates(rest, o, frags)
    case NodeT(name, _, rest) =>
      if NodeBy(o, [name, OVERLAY]).None? then Enumerates(rest, o, frags)
      else frags != [] && frags[0].name == name && Enumerates(rest, o, frags[1..])
  }

  /** The fragments' targets, as named in t, are those of frags. */
  ghost predicate AllAim(t: Tree, base: Tree, frags: seq<Fragment>) {
    forall i ::
      0 <= i < |frags| ==>
      NodeBy(t, [frags[i].name]).Some? && Aims(NodeBy(t, [frags[i].name]).value, base, frags[i].target)
  }

  /** The phandles that name targets are carried by one node each. */
  ghost predicate DistinctPhandles(b: Tree, names: set<bytes>) {
    forall a, z ::
      Known(a, names) && Known(z, names) && a != z && PhandleAt(b, a) != 0 ==> PhandleAt(b, a) != PhandleAt(b, z)
  }

  lemma DistinctOnly(b: Tree, names: set<bytes>, a: Address)
    requires DistinctPhandles(b, names) && Known(a, names) && PhandleAt(b, a) != 0
    ensures OnlyAt(b, PhandleAt(b, a), a, names)
  {
  }

  /** The fixups list no target. */
  ghost predicate TargetsUnlisted(f: Tree, frags: seq<Fragment>) {
    forall i :: 0 <= i < |frags| ==> Val(f, [frags[i].name], TARGET).None? && Val(f, [frags[i].name], TARGET_PATH).None?
  }

  lemma AimsOf(s: Tree, t: Tree, base: Tree, a: Address)
    requires Get(s, TARGET) == Get(t, TARGET) && Get(s, TARGET_PATH) == Get(t, TARGET_PATH) && Aims(s, base, a)
    ensures Aims(t, base, a)
  {
  }

  /** The passes keep the targets. */
  lemma AimStays(t: Tree, o: Tree, base: Tree, frags: seq<Fragment>, names: set<bytes>)
    requires AllAim(o, base, frags) && TargetsUnlisted(Fixups(o), frags) && FragmentsOk(frags, names)
    requires OthersStay(t, o, names) && SameShape(t, o, names)
    ensures AllAim(t, base, frags)
  {
    NotPhandleNames();
    forall i | 0 <= i < |frags|
      ensures NodeBy(t, [frags[i].name]).Some? && Aims(NodeBy(t, [frags[i].name]).value, base, frags[i].target)
    {
      var a := [frags[i].name];
      assert Known(a, names);
      assert Val(t, a, TARGET) == Val(o, a, TARGET) && Val(t, a, TARGET_PATH) == Val(o, a, TARGET_PATH);
      AimsOf(NodeBy(o, a).value, NodeBy(t, a).value, base, frags[i].target);
    }
  }

  lemma NotPhandleNames()
    ensures !IsPhandleName(TARGET) && !IsPhandleName(TARGET_PATH)
  {
    assert |TARGET| == 6 && |TARGET_PATH| == 11 && |PHANDLE| == 7 && |LINUX_PHANDLE| == 13;
  }

  // ---------- The pass over the fragments ----------

  /** What the pass over the fragments frags of o finds. */
  ghost predicate LinkPre(t: Tree, base: Tree, e: Tree, frags: seq<Fragment>, o: Tree, d: u32, names: set<bytes>) {
    && OneRoot(base, names) && DistinctPhandles(base.body, names) && Overlay.Ready(o, d, names)
    && Between(t, o, d, names)
    && FragmentsOk(frags, names) && d == MaxPhandle(base.body) && AllAim(o, base.body, frags)
    && TargetsUnlisted(Fixups(o), frags)
    && NamesIn(e, names) && Enumerates(e, o, frags)
    && forall z :: Known(z, names) && !Outside(frags, z) ==> PhandleAt(t, z) == PhandleAt(o, z)
  }

  /** The pass over the fragments is the one over their addresses. */
  lemma {:induction false} PreventLink(t: Tree, base: Tree, e: Tree, frags: seq<Fragment>, o: Tree, d: u32,
                                       names: set<bytes>)
    requires LinkPre(t, base, e, frags, o, d, names)
    ensures PreventFrags(t, base, e) == PreventAll(t, base.body, frags)
    decreases e
  {
    match e
    case Nil =>
    case PropT(_, _, rest) => PreventLink(t, base, rest, frags, o, d, names);
    case NodeT(name, _, rest) =>
      hide PreventFrag, PreventAll, LinkPre, Enumerates, PhandleAt, NodeBy, Between, Overlay.Ready, OneRoot,
           DistinctPhandles;
      if NodeBy(o, [name, OVERLAY]).None? {
        NoFragmentHere(t, base, e, frags, o, d, names);
        PreventLink(t, base, rest, frags, o, d, names);
      } else {
        OneLinked(t, base, e, frags, o, d, names);
        match PreventFrag(t, base, name)
        case Err(_) =>
        case Ok(t1) => PreventLink(t1, base, rest, frags[1..], o, d, names);
      }
  }

  lemma OverlayBy(t: Tree, name: bytes)
    ensures NodeBy(t, [name, OVERLAY]) ==
            match NodeBy(t, [name]) case None => None case Some(frag) => Kid(frag, OVERLAY)
  {
    NodeByJoin(t, [name], [OVERLAY]);
    assert [name] + [OVERLAY] == [name, OVERLAY];
    match NodeBy(t, [name])
    case None =>
    case Some(frag) => OneStep(frag, OVERLAY);
  }

  lemma NoFragmentHere(t: Tree, base: Tree, e: Tree, frags: seq<Fragment>, o: Tree, d: u32, names: set<bytes>)
    requires LinkPre(t, base, e, frags, o, d, names) && e.NodeT? && NodeBy(o, [e.name, OVERLAY]).None?
    ensures PreventFrag(t, base, e.name) == Ok(t) && LinkPre(t, base, e.rest, frags, o, d, names)
  {
    OverlayBy(t, e.name);
    assert Known([e.name, OVERLAY], names);
  }

  /** One fragment. */
  lemma OneLinked(t: Tree, base: Tree, e: Tree, frags: seq<Fragment>, o: Tree, d: u32, names: set<bytes>)
    requires LinkPre(t, base, e, frags, o, d, names) && e.NodeT? && NodeBy(o, [e.name, OVERLAY]).Some?
    ensures frags != []
    ensures match PreventFrag(t, base, e.name)
      case Err(x) => PreventAll(t, base.body, frags) == Err(x)
      case Ok(t1) =>
        PreventAll(t, base.body, frags) == PreventAll(t1, base.body, frags[1..]) &&
        LinkPre(t1, base, e.rest, frags[1..], o, d, names)
  {
    hide PhandleAt, Aims, TargetWord, PreventNode;
    var fr := frags[0];
    FragmentsRest(frags, names);
    var frag, ov := OneFound(t, base, e, frags, o, d, names);
    if PlaceBy(base, Here, fr.target).Some? {
      PlaceByMeans(base, Here, fr.target, PlaceBy(base, Here, fr.target).value, Nil);
      match PreventFrag(t, base, e.name)
      case Err(_) =>
      case Ok(t1) =>
        OnePrevented(t, base, frags, o, d, names, t1);
        RestLinked(t1, base, e, frags, o, d, names);
    } else {
      RestSame(t, frags, o, names);
      RestLinked(t, base, e, frags, o, d, names);
    }
  }

  /** The fragment as it is now, and what the lookup of its target answers. */
  lemma OneFound(t: Tree, base: Tree, e: Tree, frags: seq<Fragment>, o: Tree, d: u32, names: set<bytes>)
    returns (frag: Tree, ov: Tree)
    requires LinkPre(t, base, e, frags, o, d, names) && e.NodeT? && NodeBy(o, [e.name, OVERLAY]).Some?
    ensures frags != [] && frags[0].name == e.name && base.NodeT?
    ensures NodeBy(t, [e.name]) == Some(frag) && Kid(frag, OVERLAY) == Some(ov)
    ensures NodeBy(t, Source(frags[0])) == Some(ov)
    ensures TargetOf(base, frag) == Found(PlaceBy(base, Here, frags[0].target))
    ensures PlaceBy(base, Here, frags[0].target).Some? <==> NodeBy(base.body, frags[0].target).Some?
  {
    var fr := frags[0];
    OverlayBy(t, e.name);
    assert Known([e.name, OVERLAY], names);
    assert NodeBy(t, [e.name, OVERLAY]).Some?;
    AimStays(t, o, base.body, frags, names);
    frag := NodeBy(t, [e.name]).value;
    ov := Kid(frag, OVERLAY).value;
    assert Known(fr.target, names);
    if TargetWord(frag) != 0 {
      DistinctOnly(base.body, names, fr.target);
    }
    TargetFound(base, frag, fr.target, names);
    PlaceExists(base, Here, fr.target);
  }

  /** The walk over one fragment. */
  lemma OnePrevented(t: Tree, base: Tree, frags: seq<Fragment>, o: Tree, d: u32, names: set<bytes>, t1: Tree)
    requires frags != [] && FragmentsOk(frags, names) && FragmentsOk([frags[0]], names) && base.NodeT?
    requires Overlay.Ready(o, d, names) && Between(t, o, d, names) && d == MaxPhandle(base.body)
    requires NodeBy(t, Source(frags[0])).Some? && NodeBy(base.body, frags[0].target).Some?
    requires forall z :: Known(z, names) && !Outside(frags, z) ==> PhandleAt(t, z) == PhandleAt(o, z)
    requires PreventNode(t, NodeBy(base.body, frags[0].target).value, Source(frags[0]),
                         NodeBy(t, Source(frags[0])).value) == Ok(t1)
    ensures Between(t1, o, d, names)
    ensures forall z :: Known(z, names) && !Outside(frags[1..], z) ==> PhandleAt(t1, z) == PhandleAt(o, z)
  {
    hide Between, Overlay.Ready, PhandleAt, PreventNode, NodeBy, FragmentTaken;
    assert Known([], names);
    forall z | Known(z, names) && Below(Source(frags[0]), z) ensures PhandleAt(t, z) == PhandleAt(o, z) {
      assert !Outside(frags, z);
    }
    PreventOne(t, base.body, frags[0], o, d, names, Slot([], PHANDLE, 0), []);
    forall z | Known(z, names) && !Outside(frags[1..], z) ensures PhandleAt(t1, z) == PhandleAt(o, z) {
      RestOutside(frags, names, z);
    }
  }

  lemma RestSame(t: Tree, frags: seq<Fragment>, o: Tree, names: set<bytes>)
    requires frags != [] && FragmentsOk(frags, names)
    requires forall z :: Known(z, names) && !Outside(frags, z) ==> PhandleAt(t, z) == PhandleAt(o, z)
    ensures forall z :: Known(z, names) && !Outside(frags[1..], z) ==> PhandleAt(t, z) == PhandleAt(o, z)
  {
    hide PhandleAt;
    forall z | Known(z, names) && !Outside(frags[1..], z) ensures PhandleAt(t, z) == PhandleAt(o, z) {
      RestOutside(frags, names, z);
    }
  }

  lemma RestLinked(t1: Tree, base: Tree, e: Tree, frags: seq<Fragment>, o: Tree, d: u32, names: set<bytes>)
    requires OneRoot(base, names) && DistinctPhandles(base.body, names) && Overlay.Ready(o, d, names)
    requires Between(t1, o, d, names)
    requires FragmentsOk(frags, names) && d == MaxPhandle(base.body) && AllAim(o, base.body, frags)
    requires TargetsUnlisted(Fixups(o), frags)
    requires NamesIn(e, names) && Enumerates(e, o, frags) && e.NodeT? && NodeBy(o, [e.name, OVERLAY]).Some?
    requires forall z :: Known(z, names) && !Outside(frags[1..], z) ==> PhandleAt(t1, z) == PhandleAt(o, z)
    ensures LinkPre(t1, base, e.rest, frags[1..], o, d, names)
  {
    hide PhandleAt, Between, Overlay.Ready, AllAim, TargetsUnlisted, DistinctPhandles, NodeBy, Val, Fixups, Outside,
         Known, FragmentsOk,
         MaxPhandle;
    FragmentsRest(frags, names);
    AimRest(o, base.body, frags);
    UnlistedRest(Fixups(o), frags);
  }

  lemma AimRest(t: Tree, base: Tree, frags: seq<Fragment>)
    requires AllAim(t, base, frags) && frags != []
    ensures AllAim(t, base, frags[1..])
  {
    hide Aims, NodeBy;
    var r := frags[1..];
    forall i | 0 <= i < |r|
      ensures NodeBy(t, [r[i].name]).Some? && Aims(NodeBy(t, [r[i].name]).value, base, r[i].target) {
      assert r[i] == frags[i + 1];
    }
  }

  lemma UnlistedRest(f: Tree, frags: seq<Fragment>)
    requires TargetsUnlisted(f, frags) && frags != []
    ensures TargetsUnlisted(f, frags[1..])
  {
    hide Val;
    var r := frags[1..];
    forall i | 0 <= i < |r| ensures Val(f, [r[i].name], TARGET).None? && Val(f, [r[i].name], TARGET_PATH).None? {
      assert r[i] == frags[i + 1];
    }
  }

  // ---------- Merges of plain trees are plain ----------

  lemma {:induction false} PlainSetProp(b: Tree, name: bytes, v: bytes)
    requires Plain(b)
    ensures Plain(Set(b, name, v))
  {
    PlainReplace(b, name, v);
  }

  lemma {:induction false} PlainMergeProps(b: Tree, o: Tree)
    requires Plain(b)
    ensures Plain(MergeProps(b, o))
    decreases o
  {
    if o.PropT? {
      PlainSetProp(b, o.name, o.value);
      PlainMergeProps(Set(b, o.name, o.value), o.rest);
    }
  }

  lemma {:induction false} NoneNoKid(b: Tree, name: bytes)
    requires ChildAt(b, name).None?
    ensures NoKid(b, name)
  {
    assert name[..|name|] == name;
    if b != Nil {
      NoneNoKid(b.rest, name);
    }
  }

  lemma {:induction false} PlainAdd(b: Tree, name: bytes)
    requires Plain(b) && NoKid(b, name)
    ensures Plain(AddChild(b, name))
  {
    if b.PropT? {
      PlainAdd(b.rest, name);
      AddChildMeans(b.rest, name, b.name);
    }
  }

  lemma {:induction false} PlainMerge(b: Tree, o: Tree)
    requires Plain(b) && Plain(o)
    ensures Plain(Merge(b, o))
    decreases o, 1
  {
    PlainMergeProps(b, o);
    PlainMergeKids(MergeProps(b, o), o);
  }

  lemma {:induction false} PlainMergeKids(b: Tree, o: Tree)
    requires Plain(b) && Plain(o)
    ensures Plain(MergeKids(b, o))
    decreases o, 0
  {
    match o
    case Nil =>
    case PropT(_, _, rest) => PlainMergeKids(b, rest);
    case NodeT(name, body, rest) =>
      AddedChild(b, name);
      if ChildAt(b, name).None? {
        NoneNoKid(b, name);
        PlainAdd(b, name);
      }
      var w := WithChild(b, name);
      PlainKid(w, name);
      PlainMerge(Kid(w, name).value, body);
      PlainPut(w, name, Merge(Kid(w, name).value, body));
      PlainMergeKids(PutKid(w, name, Merge(Kid(w, name).value, body)), rest);
  }

  // ---------- The merge of the fragments ----------

  /** The base in the middle of the merge: the fragments done have been merged. */
  ghost predicate Stage(cur: Tree, base: Tree, t: Tree, done: seq<Fragment>, o: Tree, names: set<bytes>) {
    && OneRoot(base, names) && OneRoot(cur, names) && cur.name == base.name && DistinctPhandles(base.body, names)
    && Mergeable(base.body, t, done, names) && MergeAll(base.body, t, done) == Ok(cur.body)
    && Between(t, o, MaxPhandle(base.body), names) && Fresh(o, MaxPhandle(base.body), names)
    && AllTaken(t, base.body, done, o, names) && forall a :: Known(a, names) ==> Carried(base.body, a)
  }

  /** At every stage, the nodes of the base have the phandles they had, and nothing else has those. */
  lemma StagePhandles(cur: Tree, base: Tree, t: Tree, done: seq<Fragment>, o: Tree, names: set<bytes>, a: Address)
    requires Stage(cur, base, t, done, o, names) && Known(a, names) && PhandleAt(base.body, a) != 0
    ensures PhandleAt(cur.body, a) == PhandleAt(base.body, a)
    ensures OnlyAt(cur.body, PhandleAt(base.body, a), a, names)
  {
    hide Mergeable, Between, Fresh, AllTaken, Carried, PhandleAt, MergeAll, NamesIn, Plain;
    StageKept(cur, base, t, done, o, names, a);
    forall z | Known(z, names) && PhandleAt(cur.body, z) == PhandleAt(base.body, a) ensures z == a {
      if PhandleAt(base.body, z) != 0 {
        StageKept(cur, base, t, done, o, names, z);
      } else {
        StageFresh(cur, base, t, done, o, names, z);
        MaxBounds(base.body, a);
      }
    }
  }

  lemma StageKept(cur: Tree, base: Tree, t: Tree, done: seq<Fragment>, o: Tree, names: set<bytes>, g: Address)
    requires Stage(cur, base, t, done, o, names) && Known(g, names) && PhandleAt(base.body, g) != 0
    ensures PhandleAt(cur.body, g) == PhandleAt(base.body, g)
  {
    hide Between, Fresh, AllTaken, PhandleAt, MergeAll, NamesIn, Plain;
    var b, w := base.body, PhandleAt(base.body, g);
    forall i, p | 0 <= i < |done| && IsPhandleName(p) && Writes(t, done[i], g, p)
      ensures Val(t, Origin(done[i], g), p) == Some(Enc32(w))
    {
      MetPhandle(t, o, o, b, done, MaxPhandle(b), names, i, g, p);
    }
    assert Carried(b, g);
    CarriedHas(b, g);
    MergedPhandle(b, t, done, names, g, w, if Val(b, g, PHANDLE).Some? then PHANDLE else LINUX_PHANDLE);
  }

  lemma CarriedHas(b: Tree, g: Address)
    requires PhandleAt(b, g) != 0
    ensures Val(b, g, PHANDLE).Some? || Val(b, g, LINUX_PHANDLE).Some?
  {
  }

  lemma StageFresh(cur: Tree, base: Tree, t: Tree, done: seq<Fragment>, o: Tree, names: set<bytes>, z: Address)
    requires Stage(cur, base, t, done, o, names) && Known(z, names) && PhandleAt(base.body, z) == 0
    requires PhandleAt(cur.body, z) != 0
    ensures PhandleAt(cur.body, z) > MaxPhandle(base.body)
  {
    hide Between, AllTaken, PhandleAt, MergeAll, NamesIn, Plain;
    assert Carried(base.body, z);
    var m := PhandleFrom(base.body, t, o, done, names, z);
    OriginKnown(done, names, m, z);
  }

  /** The entries e belong to t, and looking up their names finds them. */
  ghost predicate EntriesIn(e: Tree, t: Tree) {
    match e
    case Nil => true
    case PropT(_, _, rest) => EntriesIn(rest, t)
    case NodeT(name, body, rest) => NodeBy(t, [name]) == Some(body) && EntriesIn(rest, t)
  }

  /** What is still to be merged: the fragments todo, which are those among the entries e of t. */
  ghost predicate Left(e: Tree, t: Tree, base: Tree, todo: seq<Fragment>, o: Tree, names: set<bytes>)
    requires base.NodeT?
  {
    EntriesIn(e, t) && NamesIn(e, names) && Enumerates(e, o, todo) && AllAim(t, base.body, todo)
  }

  lemma {:induction false} MergeAllSnoc(b: Tree, t: Tree, done: seq<Fragment>, fr: Fragment)
    requires MergeAll(b, t, done).Ok?
    ensures MergeAll(b, t, done + [fr]) == MergeAll(MergeAll(b, t, done).value, t, [fr])
    decreases |done|
  {
    if done == [] {
      assert done + [fr] == [fr];
    } else {
      assert (done + [fr])[0] == done[0] && (done + [fr])[1..] == done[1..] + [fr];
      if NodeBy(t, OverlayApply.Source(done[0])).None? {
        MergeAllSnoc(b, t, done[1..], fr);
      } else {
        var x := NodeBy(b, done[0].target).value;
        MergeAllSnoc(SetBy(b, done[0].target, Merge(x, NodeBy(t, OverlayApply.Source(done[0])).value)), t, done[1..],
                     fr);
      }
    }
  }

  /** One fragment merged, by lookup and by address. */
  lemma MergeOneLinked(cur: Tree, base: Tree, e: Tree, t: Tree, done: seq<Fragment>, todo: seq<Fragment>, o: Tree,
                       names: set<bytes>)
    requires Stage(cur, base, t, done, o, names) && e.NodeT? && Left(e, t, base, todo, o, names)
    requires NodeBy(o, [e.name, OVERLAY]).Some?
    requires FragmentsOk(done + todo, names)
    ensures todo != []
    ensures match MergeFrag(cur, e.body)
      case Err(x) => MergeAll(cur.body, t, [todo[0]]) == Err(x)
      case Ok(c1) =>
        c1.NodeT? && c1.name == cur.name && c1.rest == Nil && MergeAll(cur.body, t, [todo[0]]) == Ok(c1.body)
  {
    hide PhandleAt, Between, Fresh, AllTaken, Mergeable, Carried, NamesIn, Plain, TargetOf, DistinctPhandles;
    var fr := todo[0];
    StageAims(cur, base, e, t, done, todo, o, names);
    LeftRest(e, t, base, todo, o, names);
    PlaceExists(cur, Here, fr.target);
    OverlayBy(t, e.name);
    StageShape(cur, base, t, done, o, names, e.name);
    assert OverlayApply.Source(fr) == [e.name, OVERLAY] && [fr][1..] == [] && [fr][0] == fr;
    var ov := Kid(e.body, OVERLAY).value;
    if PlaceBy(cur, Here, fr.target).Some? {
      var k := PlaceBy(cur, Here, fr.target).value;
      PlaceByMeans(cur, Here, fr.target, k, Merge(NodeBy(cur.body, fr.target).value, ov));
    }
  }

  lemma StageShape(cur: Tree, base: Tree, t: Tree, done: seq<Fragment>, o: Tree, names: set<bytes>, name: bytes)
    requires Stage(cur, base, t, done, o, names) && name in names
    ensures NodeBy(t, [name, OVERLAY]).Some? == NodeBy(o, [name, OVERLAY]).Some?
  {
    assert Known([name, OVERLAY], names);
  }

  /** The target of the fragment, looked up at this stage. */
  lemma StageAims(cur: Tree, base: Tree, e: Tree, t: Tree, done: seq<Fragment>, todo: seq<Fragment>, o: Tree,
                  names: set<bytes>)
    requires Stage(cur, base, t, done, o, names) && e.NodeT? && Left(e, t, base, todo, o, names)
    requires NodeBy(o, [e.name, OVERLAY]).Some?
    requires FragmentsOk(done + todo, names)
    ensures todo != [] && todo[0].name == e.name && TargetOf(cur, e.body) == Found(PlaceBy(cur, Here, todo[0].target))
  {
    hide PhandleAt, Between, Fresh, AllTaken, Mergeable, Carried, NamesIn, Plain, TargetOf, DistinctPhandles;
    var fr := todo[0];
    assert (done + todo)[|done|] == fr;
    assert Known(fr.target, names) && Aims(e.body, base.body, fr.target);
    if TargetWord(e.body) != 0 {
      StagePhandles(cur, base, t, done, o, names, fr.target);
    }
    TargetFound(cur, e.body, fr.target, names);
  }

  /** The next stage. */
  lemma StageNext(cur: Tree, base: Tree, t: Tree, done: seq<Fragment>, fr: Fragment, o: Tree, names: set<bytes>,
                  c1: Tree)
    requires Stage(cur, base, t, done, o, names) && FragmentsOk(done + [fr], names)
    requires FragmentTaken(t, base.body, fr, o, names)
    requires base.NodeT? && cur.NodeT? && c1.NodeT? && c1.name == cur.name && c1.rest == Nil
    requires MergeAll(cur.body, t, [fr]) == Ok(c1.body)
    ensures Stage(c1, base, t, done + [fr], o, names)
  {
    hide PhandleAt, Between, Fresh, AllTaken, Carried, DistinctPhandles, OneRoot, NamesIn, Plain, FragmentsOk,
         FragmentTaken, MergeAll;
    MergeAllSnoc(base.body, t, done, fr);
    LastFragment(done, fr, names);
    StagePlain(cur, t, fr, names, c1);
    MoreTaken(t, base.body, done, fr, o, names);
  }

  lemma LastFragment(done: seq<Fragment>, fr: Fragment, names: set<bytes>)
    requires FragmentsOk(done + [fr], names)
    ensures FragmentsOk([fr], names)
  {
    assert (done + [fr])[|done|] == fr;
  }

  lemma MoreTaken(t: Tree, base: Tree, done: seq<Fragment>, fr: Fragment, o: Tree, names: set<bytes>)
    requires AllTaken(t, base, done, o, names) && FragmentTaken(t, base, fr, o, names)
    ensures AllTaken(t, base, done + [fr], o, names)
  {
    hide FragmentTaken;
  }

  lemma StagePlain(cur: Tree, t: Tree, fr: Fragment, names: set<bytes>, c1: Tree)
    requires OneRoot(cur, names) && NamesIn(t, names) && Plain(t) && FragmentsOk([fr], names) && c1.NodeT?
    requires c1.rest == Nil
    requires MergeAll(cur.body, t, [fr]) == Ok(c1.body)
    ensures OneRoot(c1, names)
  {
    hide Plain, NamesIn, Merge;
    var a := OverlayApply.Source(fr);
    assert [fr][0] == fr && [fr][1..] == [] && Known(a, names) && Known(fr.target, names);
    if NodeBy(t, a).Some? {
      var b, ov := NodeBy(cur.body, fr.target).value, NodeBy(t, a).value;
      NodeNames(t, names, a);
      PlainNode(t, a);
      NodeNames(cur.body, names, fr.target);
      PlainNode(cur.body, fr.target);
      MergeNames(b, ov, names);
      PlainMerge(b, ov);
      SetByNames(cur.body, names, fr.target, Merge(b, ov));
      PlainSet(cur.body, fr.target, Merge(b, ov));
    }
  }

  /** The base tree with a result for the body of its root. */
  ghost function Rooted(base: Tree, r: Result<Tree>): Result<Tree>
    requires base.NodeT?
  {
    match r
    case Err(e) => Err(e)
    case Ok(b) => Ok(NodeT(base.name, b, Nil))
  }

  /** Merging the fragments by looking up their targets is merging them by their addresses. */
  lemma {:induction false} MergeLink(cur: Tree, base: Tree, e: Tree, t: Tree, done: seq<Fragment>, todo: seq<Fragment>,
                                     o: Tree, names: set<bytes>)
    requires Stage(cur, base, t, done, o, names) && Left(e, t, base, todo, o, names) && FragmentsOk(done + todo, names)
    requires AllTaken(t, base.body, done + todo, o, names)
    ensures MergeFrags(cur, e) == Rooted(base, MergeAll(cur.body, t, todo))
    ensures MergeFrags(cur, e).Ok? ==> Stage(MergeFrags(cur, e).value, base, t, done + todo, o, names)
    decreases e
  {
    hide Stage, FragmentsOk, AllTaken, MergeFrag, NodeBy, AllAim, NamesIn;
    StageRoot(cur, base, t, done, o, names);
    match e
    case Nil => assert done + todo == done;
    case PropT(_, _, rest) =>
      LeftRest(e, t, base, todo, o, names);
      MergeLink(cur, base, rest, t, done, todo, o, names);
    case NodeT(name, body, rest) =>
      LeftRest(e, t, base, todo, o, names);
      if NodeBy(o, [name, OVERLAY]).None? {
        NothingToMerge(cur, base, e, t, done, todo, o, names);
        MergeLink(cur, base, rest, t, done, todo, o, names);
      } else {
        MergeOneLinked(cur, base, e, t, done, todo, o, names);
        MergeAllHead(cur.body, t, todo);
        match MergeFrag(cur, body)
        case Err(_) =>
        case Ok(c1) =>
          TodoSplit(t, base.body, done, todo, o, names);
          StageNext(cur, base, t, done, todo[0], o, names, c1);
          MergeLink(c1, base, rest, t, done + [todo[0]], todo[1..], o, names);
      }
  }

  lemma StageRoot(cur: Tree, base: Tree, t: Tree, done: seq<Fragment>, o: Tree, names: set<bytes>)
    requires Stage(cur, base, t, done, o, names)
    ensures cur.NodeT? && base.NodeT? && cur == NodeT(base.name, cur.body, Nil)
  {
    hide Mergeable, Between, Fresh, AllTaken, DistinctPhandles;
  }

  lemma LeftRest(e: Tree, t: Tree, base: Tree, todo: seq<Fragment>, o: Tree, names: set<bytes>)
    requires base.NodeT? && Left(e, t, base, todo, o, names) && e != Nil
    ensures e.PropT? || NodeBy(o, [e.name, OVERLAY]).None? ==> Left(e.rest, t, base, todo, o, names)
    ensures e.NodeT? && NodeBy(o, [e.name, OVERLAY]).Some? ==> todo != [] && Left(e.rest, t, base, todo[1..], o, names)
    ensures e.NodeT? ==> e.name in names && NodeBy(t, [e.name]) == Some(e.body)
  {
    hide NodeBy, AllAim;
    if e.NodeT? && NodeBy(o, [e.name, OVERLAY]).Some? {
      AimRest(t, base.body, todo);
    }
  }

  lemma NothingToMerge(cur: Tree, base: Tree, e: Tree, t: Tree, done: seq<Fragment>, todo: seq<Fragment>, o: Tree,
                       names: set<bytes>)
    requires Stage(cur, base, t, done, o, names) && e.NodeT? && e.name in names && NodeBy(t, [e.name]) == Some(e.body)
    requires NodeBy(o, [e.name, OVERLAY]).None?
    ensures MergeFrag(cur, e.body) == Ok(cur)
  {
    StageShape(cur, base, t, done, o, names, e.name);
    OverlayBy(t, e.name);
  }

  lemma MergeAllHead(b: Tree, t: Tree, frags: seq<Fragment>)
    requires frags != []
    ensures match MergeAll(b, t, [frags[0]])
      case Err(x) => MergeAll(b, t, frags) == Err(x)
      case Ok(b1) => MergeAll(b, t, frags) == MergeAll(b1, t, frags[1..])
  {
    var fr := frags[0];
    assert [fr][0] == fr && [fr][1..] == [];
  }

  lemma TodoSplit(t: Tree, base: Tree, done: seq<Fragment>, todo: seq<Fragment>, o: Tree, names: set<bytes>)
    requires todo != [] && FragmentsOk(done + todo, names) && AllTaken(t, base, done + todo, o, names)
    ensures done + [todo[0]] + todo[1..] == done + todo
    ensures FragmentsOk(done + [todo[0]], names) && FragmentTaken(t, base, todo[0], o, names)
  {
    hide FragmentTaken;
    var all, some := done + todo, done + [todo[0]];
    assert all[|done|] == todo[0];
    forall i | 0 <= i < |some| ensures some[i] == all[i] {
    }
  }

  // ---------- The names of the fragments ----------

  /** The names of the children of a body, in order. */
  ghost function NamesOf(t: Tree): seq<bytes> {
    match t
    case Nil => []
    case PropT(_, _, rest) => NamesOf(rest)
    case NodeT(name, _, rest) => [name] + NamesOf(rest)
  }

  lemma {:induction false} NamesOfReplace(t: Tree, name: bytes, v: bytes)
    ensures NamesOf(Replace(t, name, v)) == NamesOf(t)
  {
    if t.PropT? {
      NamesOfReplace(t.rest, name, v);
    }
  }

  lemma {:induction false} NamesOfPut(t: Tree, name: bytes, x: Tree)
    ensures NamesOf(PutKid(t, name, x)) == NamesOf(t)
  {
    if ChildAt(t, name).Some? && !(t.NodeT? && NameEq(t.name, name)) {
      NextBody(t, ChildAt(t.rest, name).value, x);
      NamesOfPut(t.rest, name, x);
    }
  }

  lemma NamesOfAdjusted(t: Tree, delta: u32)
    requires AdjustNode(t, delta).Ok?
    ensures NamesOf(AdjustNode(t, delta).value) == NamesOf(t)
  {
    var b1 := AddOffset(t, PHANDLE, delta).value;
    NamesOfOffset(t, PHANDLE, delta);
    NamesOfOffset(b1, LINUX_PHANDLE, delta);
    NamesOfKids(AddOffset(b1, LINUX_PHANDLE, delta).value, delta);
  }

  lemma NamesOfOffset(t: Tree, name: bytes, delta: u32)
    requires AddOffset(t, name, delta).Ok?
    ensures NamesOf(AddOffset(t, name, delta).value) == NamesOf(t)
  {
    if Get(t, name).Some? {
      NamesOfReplace(t, name, Enc32(U32(Dec32(Get(t, name).value, 0) + delta)));
    }
  }

  lemma {:induction false} NamesOfKids(t: Tree, delta: u32)
    requires AdjustKids(t, delta).Ok?
    ensures NamesOf(AdjustKids(t, delta).value) == NamesOf(t)
  {
    if t != Nil {
      NamesOfKids(t.rest, delta);
    }
  }

  lemma NamesOfMapped(t: Tree, f: Tree, g: u32 -> u32)
    requires MapNode(t, f, g).Ok?
    ensures NamesOf(MapNode(t, f, g).value) == NamesOf(t)
  {
    NamesOfMapProps(t, f, g);
    NamesOfMapKids(MapProps(t, f, g).value, f, g);
  }

  lemma {:induction false} NamesOfMapProps(t: Tree, f: Tree, g: u32 -> u32)
    requires MapProps(t, f, g).Ok?
    ensures NamesOf(MapProps(t, f, g).value) == NamesOf(t)
    decreases f
  {
    if f.PropT? {
      var v := MapWords(Get(t, f.name).value, f.value, 0, g);
      NamesOfReplace(t, f.name, v);
      NamesOfMapProps(Replace(t, f.name, v), f.rest, g);
    }
  }

  lemma {:induction false} NamesOfMapKids(t: Tree, f: Tree, g: u32 -> u32)
    requires MapKids(t, f, g).Ok?
    ensures NamesOf(MapKids(t, f, g).value) == NamesOf(t)
    decreases f
  {
    match f
    case Nil =>
    case PropT(_, _, rest) => NamesOfMapKids(t, rest, g);
    case NodeT(name, body, rest) =>
      var x := MapNode(Kid(t, name).value, body, g).value;
      NamesOfPut(t, name, x);
      NamesOfMapKids(PutKid(t, name, x), rest, g);
  }

  lemma NamesOfResolved(t: Tree, a: Address, x: u32, t': Tree)
    requires a != [] && NodeBy(t, a).Some? && Resolve(t, a, x) == Ok(t')
    ensures NamesOf(t') == NamesOf(t)
  {
    var u := SetBy(t, a, ConflictingPhandle(NodeBy(t, a).value, x));
    NamesOfPut(t, a[0], SetBy(Kid(t, a[0]).value, a[1..], ConflictingPhandle(NodeBy(t, a).value, x)));
    ConflictOf(u, x, PhandleAt(t, a));
    NamesOfMapped(u, Fixups(u), ConflictMap(x, PhandleAt(t, a)));
  }

  lemma {:induction false} NamesOfPrevented(t: Tree, b: Tree, a: Address, e: Tree)
    requires a != [] && PreventNode(t, b, a, e).Ok?
    ensures NamesOf(PreventNode(t, b, a, e).value) == NamesOf(t)
    decreases e, 1
  {
    hide Resolve, Phandle;
    if Phandle(b) != 0 && PhandleAt(t, a) != 0 {
      var t1 := Resolve(t, a, Phandle(b)).value;
      NamesOfResolved(t, a, Phandle(b), t1);
      NamesOfPreventedKids(t1, b, a, e);
    } else {
      NamesOfPreventedKids(t, b, a, e);
    }
  }

  lemma {:induction false} NamesOfPreventedKids(t: Tree, b: Tree, a: Address, e: Tree)
    requires a != [] && PreventKids(t, b, a, e).Ok?
    ensures NamesOf(PreventKids(t, b, a, e).value) == NamesOf(t)
    decreases e, 0
  {
    match e
    case Nil =>
    case PropT(_, _, rest) => NamesOfPreventedKids(t, b, a, rest);
    case NodeT(name, body, rest) =>
      match Kid(b, name)
      case None => NamesOfPreventedKids(t, b, a, rest);
      case Some(x) =>
        NamesOfPrevented(t, x, a + [name], body);
        NamesOfPreventedKids(PreventNode(t, x, a + [name], body).value, b, a, rest);
  }

  lemma {:induction false} NamesOfPreventedAll(t: Tree, base: Tree, frags: seq<Fragment>)
    requires PreventAll(t, base, frags).Ok?
    ensures NamesOf(PreventAll(t, base, frags).value) == NamesOf(t)
    decreases |frags|
  {
    if frags != [] {
      var a := OverlayApply.Source(frags[0]);
      if NodeBy(t, a).Some? && NodeBy(base, frags[0].target).Some? {
        var b, e := NodeBy(base, frags[0].target).value, NodeBy(t, a).value;
        NamesOfPrevented(t, b, a, e);
        NamesOfPreventedAll(PreventNode(t, b, a, e).value, base, frags[1..]);
      } else {
        NamesOfPreventedAll(t, base, frags[1..]);
      }
    }
  }

  /** Which fragments there are depends on the names of the entries only. */
  lemma {:induction false} EnumeratesNames(e: Tree, e': Tree, o: Tree, frags: seq<Fragment>)
    requires NamesOf(e) == NamesOf(e')
    ensures Enumerates(e, o, frags) == Enumerates(e', o, frags)
    decreases e, e'
  {
    if e.PropT? {
      EnumeratesNames(e.rest, e', o, frags);
    } else if e'.PropT? {
      EnumeratesNames(e, e'.rest, o, frags);
    } else if e.NodeT? {
      assert NamesOf(e)[0] == e.name && NamesOf(e')[0] == e'.name;
      assert NamesOf(e)[1..] == NamesOf(e.rest) && NamesOf(e')[1..] == NamesOf(e'.rest);
      EnumeratesNames(e.rest, e'.rest, o, frags);
      if frags != [] {
        EnumeratesNames(e.rest, e'.rest, o, frags[1..]);
      }
    }
  }

  lemma {:induction false} EnumeratesShape(e: Tree, o: Tree, o2: Tree, frags: seq<Fragment>, names: set<bytes>)
    requires SameShape(o2, o, names) && NamesIn(e, names) && OVERLAY in names
    ensures Enumerates(e, o2, frags) == Enumerates(e, o, frags)
    decreases e
  {
    match e
    case Nil =>
    case PropT(_, _, rest) => EnumeratesShape(rest, o, o2, frags, names);
    case NodeT(name, _, rest) =>
      assert Known([name, OVERLAY], names);
      EnumeratesShape(rest, o, o2, frags, names);
      if frags != [] {
        EnumeratesShape(rest, o, o2, frags[1..], names);
      }
  }

  lemma {:induction false} EntriesFrom(e: Tree, t: Tree, names: set<bytes>)
    requires Uniform(names) && NamesIn(e, names) && Plain(e)
    requires forall n :: n in names && Kid(e, n).Some? ==> NodeBy(t, [n]) == Kid(e, n)
    ensures EntriesIn(e, t)
    decreases e
  {
    match e
    case Nil =>
    case PropT(_, _, rest) =>
      SkipProp(e);
      EntriesFrom(rest, t, names);
    case NodeT(name, _, rest) =>
      RestEntries(e, names);
      EntriesFrom(rest, t, names);
  }

  lemma EntriesSelf(t: Tree, names: set<bytes>)
    requires Uniform(names) && NamesIn(t, names) && Plain(t)
    ensures EntriesIn(t, t)
  {
    forall n | n in names ensures NodeBy(t, [n]) == Kid(t, n) {
      OneStep(t, n);
    }
    EntriesFrom(t, t, names);
  }

  // ---------- The theorem ----------

  /**
   * base is a tree with one root, o a well-formed overlay for it, and frags lists the fragments of o with the
   * addresses of the nodes they are for. Names are exact, phandles distinct, and the fixups list no target.
   */
  ghost predicate Sound(base: Tree, o: Tree, frags: seq<Fragment>, names: set<bytes>) {
    && OneRoot(base, names) && DistinctPhandles(base.body, names)
    && (forall a :: Known(a, names) ==> Carried(base.body, a))
    && WellFormed(o, names) && FragmentsOk(frags, names) && Enumerates(o, o, frags) && AllAim(o, base.body, frags)
    && TargetsUnlisted(Fixups(o), frags) && Kid(Fixups(o), OVERLAY).None?
  }

  lemma OneRootMax(base: Tree)
    requires base.NodeT? && base.rest == Nil
    ensures MaxKids(base) == MaxPhandle(base.body)
  {
  }

  /** What fdt_overlay_apply does up to the symbols, looking up targets as it goes, is the application by address. */
  lemma ApplyLinked(base: Tree, o: Tree, frags: seq<Fragment>, names: set<bytes>)
    requires Sound(base, o, frags, names)
    ensures base.NodeT? && MergeTree(base, o) == Rooted(base, Apply(base.body, o, frags))
  {
    hide WellFormed, AdjustNode, LocalReferences, PreventFrags, PreventAll, MergeFrags, MergeAll, MaxPhandle,
         Enumerates, AllAim, OneRoot, NamesIn,
         Carried, FragmentsOk;
    SoundRoot(base, o, frags, names);
    OneRootMax(base);
    var d := MaxPhandle(base.body);
    match AdjustNode(o, d)
    case Err(_) =>
    case Ok(o1) =>
      match LocalReferences(o1, d)
      case Err(_) =>
      case Ok(o2) =>
        ReferencesLinked(base, o, frags, names, o1, o2);
        match PreventFrags(o2, base, o2)
        case Err(_) =>
        case Ok(t) => MergeLinked(base, o, frags, names, o1, o2, t);
  }

  lemma SoundRoot(base: Tree, o: Tree, frags: seq<Fragment>, names: set<bytes>)
    requires Sound(base, o, frags, names)
    ensures base.NodeT? && base.rest == Nil
  {
  }

  /** The overlay after the first two passes. */
  lemma LinkStart(base: Tree, o: Tree, frags: seq<Fragment>, names: set<bytes>, o1: Tree, o2: Tree)
    requires Sound(base, o, frags, names)
    requires AdjustNode(o, MaxPhandle(base.body)) == Ok(o1) && LocalReferences(o1, MaxPhandle(base.body)) == Ok(o2)
    ensures LinkPre(o2, base, o2, frags, o2, MaxPhandle(base.body), names)
  {
    hide AdjustNode, Aims, PhandleAt, NodeBy, Val;
    var d := MaxPhandle(base.body);
    Prepared(o, d, names, o1, o2);
    NamesOfAdjusted(o, d);
    LocalMap(o1, d);
    NamesOfMapped(o1, Fixups(o1), ShiftMap(d));
    EnumeratesNames(o, o2, o, frags);
    EnumeratesShape(o2, o, o2, frags, names);
    AimStays(o2, o, base.body, frags, names);
  }

  lemma ReferencesLinked(base: Tree, o: Tree, frags: seq<Fragment>, names: set<bytes>, o1: Tree, o2: Tree)
    requires Sound(base, o, frags, names)
    requires AdjustNode(o, MaxPhandle(base.body)) == Ok(o1) && LocalReferences(o1, MaxPhandle(base.body)) == Ok(o2)
    ensures PreventFrags(o2, base, o2) == PreventAll(o2, base.body, frags)
  {
    hide *;
    SoundRoot(base, o, frags, names);
    LinkStart(base, o, frags, names, o1, o2);
    PreventLink(o2, base, o2, frags, o2, MaxPhandle(base.body), names);
  }

  lemma MergeLinked(base: Tree, o: Tree, frags: seq<Fragment>, names: set<bytes>, o1: Tree, o2: Tree, t: Tree)
    requires Sound(base, o, frags, names)
    requires AdjustNode(o, MaxPhandle(base.body)) == Ok(o1) && LocalReferences(o1, MaxPhandle(base.body)) == Ok(o2)
    requires PreventAll(o2, base.body, frags) == Ok(t)
    ensures MergeFrags(base, t) == Rooted(base, MergeAll(base.body, t, frags))
    ensures MergeFrags(base, t).Ok? ==> Stage(MergeFrags(base, t).value, base, t, frags, o2, names)
    ensures Between(t, o2, MaxPhandle(base.body), names) && OthersStay(o2, o, names) && SameShape(o2, o, names)
    ensures Fixups(o2) == Fixups(o)
    ensures AllAim(t, base.body, frags)
  {
    Prepared(o, MaxPhandle(base.body), names, o1, o2);
    LinkStart(base, o, frags, names, o1, o2);
    hide AdjustNode, LocalReferences, PreventAll, Aims, PhandleAt, NodeBy, Val, MergeFrags, Enumerates, Plain, NamesIn,
         EntriesIn, AllAim, FragmentTaken,
         FragmentsOk, Mergeable;
    var d := MaxPhandle(base.body);
    assert Known([], names);
    PreventAllKeeps(o2, base.body, frags, o2, d, names, Slot([], PHANDLE, 0), []);
    NamesOfPreventedAll(o2, base.body, frags);
    EnumeratesNames(o2, t, o2, frags);
    AimStays(t, o2, base.body, frags, names);
    EntriesSelf(t, names);
    FirstStage(base, t, o2, names);
    assert [] + frags == frags;
    MergeLink(base, base, t, t, [], frags, o2, names);
  }

  lemma FirstStage(base: Tree, t: Tree, o2: Tree, names: set<bytes>)
    requires OneRoot(base, names) && DistinctPhandles(base.body, names)
    requires (forall a :: Known(a, names) ==> Carried(base.body, a))
    requires Between(t, o2, MaxPhandle(base.body), names) && Fresh(o2, MaxPhandle(base.body), names) && OVERLAY in names
    ensures Stage(base, base, t, [], o2, names)
  {
  }

  // ---------- What follows for fdt_overlay_apply ----------

  /**
   * Word k of the fixups for the property prop of the node g names the node h: in the overlay, fragments i and j are
   * for
   * nodes at or above g and h. The property is not overridden by a later fragment, and no other node with a phandle
   * falls on the same new node.
   */
  ghost predicate Reference(base: Tree, o: Tree, frags: seq<Fragment>, names: set<bytes>,
                            i: nat, j: nat, g: Address, h: Address, prop: bytes, k: nat) {
    && i < |frags| && j < |frags| && Known(g, names) && Known(h, names)
    && Below(frags[i].target, g) && Below(frags[j].target, h)
    && Refers(Fixups(o), o, Slot(Origin(frags[i], g), prop, k), Origin(frags[j], h))
    && PhandleAt(o, Origin(frags[j], h)) != 0
    && (forall m :: i < m < |frags| ==> !Writes(o, frags[m], g, prop))
    && (forall m ::
          0 <= m < |frags| && m != j && Below(frags[m].target, h) && PhandleAt(o, Origin(frags[m], h)) != 0 ==>
          PhandleAt(base, h) != 0)
  }

  /** The offset that word k of the fixups lists for the property prop of the node g. */
  ghost function SlotOffset(o: Tree, fr: Fragment, g: Address, prop: bytes, k: nat): nat
    requires Below(fr.target, g)
  {
    match Val(Fixups(o), Origin(fr, g), prop)
    case None => 0
    case Some(offs) => if 4 * k + 4 <= |offs| then Dec32(offs, 4 * k) else 0
  }

  /** The word at offset off of the property prop of the node g is the phandle of the node h, and of no other node. */
  ghost predicate NamesOnly(b: Tree, g: Address, prop: bytes, off: nat, h: Address, names: set<bytes>) {
    match Val(b, g, prop)
    case None => false
    case Some(v) =>
      off + 4 <= |v| && Dec32(v, off) != 0 && PhandleAt(b, h) == Dec32(v, off) && OnlyAt(b, Dec32(v, off), h, names)
  }

  /**
   * The word at offset off of the property prop of the node g leads to the node h when it is looked up as a phandle.
   */
  ghost predicate LeadsTo(t: Tree, g: Address, prop: bytes, off: nat, h: Address)
    requires t.NodeT?
  {
    match Val(t.body, g, prop)
    case None => false
    case Some(v) => off + 4 <= |v| && PlaceBy(t, Here, h).Some? && FirstWith(t, Dec32(v, off)) == PlaceBy(t, Here, h)
  }

  lemma NamedLeads(t: Tree, g: Address, prop: bytes, off: nat, h: Address, names: set<bytes>)
    requires OneRoot(t, names) && Known(h, names) && NamesOnly(t.body, g, prop, off, h, names)
    ensures t.NodeT? && LeadsTo(t, g, prop, off, h)
  {
    FirstIs(t, Dec32(Val(t.body, g, prop).value, off), h, names);
  }

  lemma {:induction false} MergeAllPlain(b: Tree, t: Tree, frags: seq<Fragment>, names: set<bytes>)
    requires Uniform(names) && NamesIn(b, names) && Plain(b) && NamesIn(t, names) && Plain(t)
    requires FragmentsOk(frags, names)
    requires MergeAll(b, t, frags).Ok?
    ensures NamesIn(MergeAll(b, t, frags).value, names) && Plain(MergeAll(b, t, frags).value)
    decreases |frags|
  {
    hide Plain, NamesIn, Merge;
    if frags != [] {
      FragmentsRest(frags, names);
      var fr, a := frags[0], OverlayApply.Source(frags[0]);
      assert Known(a, names) && Known(fr.target, names);
      if NodeBy(t, a).Some? {
        var x, ov := NodeBy(b, fr.target).value, NodeBy(t, a).value;
        NodeNames(t, names, a);
        PlainNode(t, a);
        NodeNames(b, names, fr.target);
        PlainNode(b, fr.target);
        MergeNames(x, ov, names);
        PlainMerge(x, ov);
        SetByNames(b, names, fr.target, Merge(x, ov));
        PlainSet(b, fr.target, Merge(x, ov));
        MergeAllPlain(SetBy(b, fr.target, Merge(x, ov)), t, frags[1..], names);
      } else {
        MergeAllPlain(b, t, frags[1..], names);
      }
    }
  }

  /** The merged tree has one root again, of exact and distinct names. */
  lemma MergedOneRoot(base: Tree, o: Tree, frags: seq<Fragment>, names: set<bytes>)
    requires Sound(base, o, frags, names) && MergeTree(base, o).Ok?
    ensures base.NodeT? && OneRoot(MergeTree(base, o).value, names)
    ensures Apply(base.body, o, frags) == Ok(MergeTree(base, o).value.body)
  {
    ApplyLinked(base, o, frags, names);
    hide MergeTree, Apply, AllAim, Enumerates, TargetsUnlisted, DistinctPhandles;
    var o2, t := PassesDone(base.body, o, frags, names, Slot([], PHANDLE, 0), []);
    MergeAllPlain(base.body, t, frags, names);
  }

  /** Every reference of the overlay names, in the merged tree, what the node it named has become, and nothing else. */
  lemma ReferenceResolves(base: Tree, o: Tree, frags: seq<Fragment>, names: set<bytes>,
                          i: nat, j: nat, g: Address, h: Address, prop: bytes, k: nat)
    requires Sound(base, o, frags, names) && MergeTree(base, o).Ok? && base.NodeT?
    requires Reference(base.body, o, frags, names, i, j, g, h, prop, k)
    ensures MergeTree(base, o).value.NodeT?
    ensures NamesOnly(MergeTree(base, o).value.body, g, prop, SlotOffset(o, frags[i], g, prop, k), h, names)
  {
    MergedOneRoot(base, o, frags, names);
    ReferencesSurvive(base.body, o, frags, names, i, j, g, h, prop, k);
    hide MergeTree, Apply, AllAim, Enumerates, TargetsUnlisted, OneRoot, WellFormed, NamesIn, Carried, FragmentsOk;
    var merged := MergeTree(base, o).value;
    var w := PhandleAt(merged.body, h);
    forall z | Known(z, names) && PhandleAt(merged.body, z) == w ensures z == h {
      DistinctAll(base.body, names);
      ResolvesOnly(base.body, o, frags, names, j, h, z);
    }
  }

  lemma DistinctAll(b: Tree, names: set<bytes>)
    requires DistinctPhandles(b, names)
    ensures forall a, z ::
              Known(a, names) && Known(z, names) && a != z && PhandleAt(b, a) != 0 ==>
              PhandleAt(b, a) != PhandleAt(b, z)
  {
  }

  /** Every node of the base that had a phandle has kept it. */
  lemma BaseKeeps(base: Tree, o: Tree, frags: seq<Fragment>, names: set<bytes>, g: Address)
    requires Sound(base, o, frags, names) && MergeTree(base, o).Ok? && base.NodeT? && Known(g, names)
    requires PhandleAt(base.body, g) != 0
    ensures MergeTree(base, o).value.NodeT? && PhandleAt(MergeTree(base, o).value.body, g) == PhandleAt(base.body, g)
  {
    MergedOneRoot(base, o, frags, names);
    BasePhandlesKept(base.body, o, frags, names, g);
  }
}
