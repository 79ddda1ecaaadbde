/** libfdt/fdt_overlay.c: when fdt_overlay_apply has no error. */
module Success {
  import opened Bytes
  import opened Tags
  import opened Walk
  import opened Forests
  import opened Trees
  import opened Merging
  import opened Overlay
  import opened OverlayApply

  // ---------- Phandles ----------

  /** The property called name, if the node has it, is a word to which delta can be added. */
  ghost predicate Shiftable(b: Tree, name: bytes, delta: u32) {
    match Get(b, name)
    case None => true
    case Some(v) => |v| == 4 && Dec32(v, 0) + delta < 0xffff_ffff
  }

  /** Both phandle properties of the node can be shifted. */
  ghost predicate NodeFits(b: Tree, delta: u32) {
    Shiftable(b, PHANDLE, delta) && Shiftable(b, LINUX_PHANDLE, delta)
  }

  /** So can those of every node among the entries of b and below. */
  ghost predicate BelowFits(b: Tree, delta: u32) {
    forall k :: IsNode(b, k) ==> NodeFits(BodyAt(b, k), delta)
  }

  /**
   * Every phandle of the tree with the root body b is a word, and none reaches the largest word when delta is added.
   */
  ghost predicate PhandlesFit(b: Tree, delta: u32) {
    NodeFits(b, delta) && BelowFits(b, delta)
  }

  lemma BelowStep(b: Tree, delta: u32)
    ensures match b
      case Nil => BelowFits(b, delta)
      case PropT(_, _, rest) => BelowFits(b, delta) <==> BelowFits(rest, delta)
      case NodeT(_, body, rest) =>
        BelowFits(b, delta) <==> NodeFits(body, delta) && BelowFits(body, delta) && BelowFits(rest, delta)
  {
    hide NodeFits;
    if b != Nil {
      if BelowFits(b, delta) {
        forall k | IsNode(b.rest, k) ensures NodeFits(BodyAt(b.rest, k), delta) {
          assert IsNode(b, Next(k)) && BodyAt(b, Next(k)) == BodyAt(b.rest, k);
        }
        if b.NodeT? {
          assert IsNode(b, Here) && BodyAt(b, Here) == b.body;
          forall k | IsNode(b.body, k) ensures NodeFits(BodyAt(b.body, k), delta) {
            assert IsNode(b, Into(k)) && BodyAt(b, Into(k)) == BodyAt(b.body, k);
          }
        }
      } else {
        var k :| IsNode(b, k) && !NodeFits(BodyAt(b, k), delta);
        match k
        case Here =>
        case Next(q) => assert IsNode(b.rest, q) && BodyAt(b, k) == BodyAt(b.rest, q);
        case Into(q) => assert IsNode(b.body, q) && BodyAt(b, k) == BodyAt(b.body, q);
      }
    }
  }

  /** Which error overlay_phandle_add_offset gives, and when it gives none. */
  lemma AddOffsetExact(b: Tree, name: bytes, delta: u32)
    ensures AddOffset(b, name, delta).Ok? <==> Shiftable(b, name, delta)
    ensures AddOffset(b, name, delta) == Err(-BADPHANDLE) <==> Get(b, name).Some? && |Get(b, name).value| != 4
    ensures AddOffset(b, name, delta) == Err(-NOPHANDLES) <==>
              Get(b, name).Some? && |Get(b, name).value| == 4 && Dec32(Get(b, name).value, 0) + delta >= 0xffff_ffff
  {
    if Get(b, name).Some? && |Get(b, name).value| == 4 {
      SumOk(Dec32(Get(b, name).value, 0), delta);
      U32Wraps(Dec32(Get(b, name).value, 0) + delta);
    }
  }

  lemma {:induction false} ReplaceBelow(b: Tree, name: bytes, v: bytes, delta: u32)
    ensures BelowFits(Replace(b, name, v), delta) <==> BelowFits(b, delta)
  {
    hide BelowFits;
    BelowStep(b, delta);
    BelowStep(Replace(b, name, v), delta);
    if b.PropT? {
      ReplaceBelow(b.rest, name, v, delta);
    }
  }

  lemma AddOffsetBelow(b: Tree, name: bytes, delta: u32)
    requires AddOffset(b, name, delta).Ok?
    ensures BelowFits(AddOffset(b, name, delta).value, delta) <==> BelowFits(b, delta)
  {
    hide BelowFits, Replace;
    if Get(b, name).Some? {
      ReplaceBelow(b, name, Enc32(U32(Dec32(Get(b, name).value, 0) + delta)), delta);
    }
  }

  /** overlay_adjust_node_phandles succeeds exactly when all phandles can be shifted. */
  lemma {:induction false} AdjustExact(b: Tree, delta: u32)
    ensures AdjustNode(b, delta).Ok? <==> PhandlesFit(b, delta)
    decreases Entries(b), 1
  {
    hide BelowFits, AddOffset, Shiftable, AdjustKids, Entries;
    AddOffsetExact(b, PHANDLE, delta);
    if AddOffset(b, PHANDLE, delta).Ok? {
      var b1 := AddOffset(b, PHANDLE, delta).value;
      Distinct();
      SecondShift(b, b1, delta);
      AddOffsetExact(b1, LINUX_PHANDLE, delta);
      AddOffsetBelow(b, PHANDLE, delta);
      if AddOffset(b1, LINUX_PHANDLE, delta).Ok? {
        AddOffsetBelow(b1, LINUX_PHANDLE, delta);
        AdjustKidsExact(AddOffset(b1, LINUX_PHANDLE, delta).value, delta);
      }
    }
  }

  lemma SecondShift(b: Tree, b1: Tree, delta: u32)
    requires AddOffset(b, PHANDLE, delta) == Ok(b1)
    ensures Shiftable(b1, LINUX_PHANDLE, delta) <==> Shiftable(b, LINUX_PHANDLE, delta)
  {
    Distinct();
    AddOffsetGet(b, PHANDLE, delta, LINUX_PHANDLE);
  }

  lemma {:induction false} AdjustKidsExact(b: Tree, delta: u32)
    ensures AdjustKids(b, delta).Ok? <==> BelowFits(b, delta)
    decreases Entries(b), 0
  {
    hide BelowFits, NodeFits, AdjustNode;
    BelowStep(b, delta);
    match b
    case Nil =>
    case PropT(_, _, rest) => AdjustKidsExact(rest, delta);
    case NodeT(_, body, rest) =>
      AdjustExact(body, delta);
      AdjustKidsExact(rest, delta);
  }

  /** The largest phandle is one of those of the nodes, and no node has a larger one. */
  ghost predicate IsMax(b: Tree, m: u32) {
    && (forall k :: IsNode(b, k) ==> Phandle(BodyAt(b, k)) <= m)
    && (m != 0 ==> exists k :: IsNode(b, k) && Phandle(BodyAt(b, k)) == m)
  }

  lemma IsMaxNext(b: Tree, m: u32)
    requires b.PropT? && IsMax(b.rest, m)
    ensures IsMax(b, m)
  {
    hide Phandle;
    forall k | IsNode(b, k) ensures Phandle(BodyAt(b, k)) <= m {
      assert k.Next? && IsNode(b.rest, k.tail) && BodyAt(b, k) == BodyAt(b.rest, k.tail);
    }
    if m != 0 {
      var k :| IsNode(b.rest, k) && Phandle(BodyAt(b.rest, k)) == m;
      assert IsNode(b, Next(k)) && BodyAt(b, Next(k)) == BodyAt(b.rest, k);
    }
  }

  lemma IsMaxNode(b: Tree, x: u32, y: u32, m: u32)
    requires b.NodeT? && IsMax(b.body, x) && IsMax(b.rest, y) && m in {Phandle(b.body), x, y}
    requires Phandle(b.body) <= m && x <= m && y <= m
    ensures IsMax(b, m)
  {
    hide Phandle;
    forall k | IsNode(b, k) ensures Phandle(BodyAt(b, k)) <= m {
      match k
      case Here => assert BodyAt(b, k) == b.body;
      case Next(q) => assert IsNode(b.rest, q) && BodyAt(b, k) == BodyAt(b.rest, q);
      case Into(q) => assert IsNode(b.body, q) && BodyAt(b, k) == BodyAt(b.body, q);
    }
    if m != 0 {
      if m == Phandle(b.body) {
        assert IsNode(b, Here) && BodyAt(b, Here) == b.body;
      } else if m == x {
        var k :| IsNode(b.body, k) && Phandle(BodyAt(b.body, k)) == m;
        assert IsNode(b, Into(k)) && BodyAt(b, Into(k)) == BodyAt(b.body, k);
      } else {
        var k :| IsNode(b.rest, k) && Phandle(BodyAt(b.rest, k)) == m;
        assert IsNode(b, Next(k)) && BodyAt(b, Next(k)) == BodyAt(b.rest, k);
      }
    }
  }

  /** What fdt_find_max_phandle gives for the nodes among b and below, and for a node with the body b. */
  lemma {:induction false} MaxExact(b: Tree)
    ensures IsMax(b, MaxKids(b))
    ensures Phandle(b) <= MaxPhandle(b) && MaxKids(b) <= MaxPhandle(b) && MaxPhandle(b) in {Phandle(b), MaxKids(b)}
  {
    hide IsMax, Phandle;
    match b
    case Nil => NoMax();
    case PropT(_, _, rest) =>
      MaxExact(rest);
      IsMaxNext(b, MaxKids(rest));
    case NodeT(_, body, rest) =>
      MaxExact(body);
      MaxExact(rest);
      MaxParts(body);
      IsMaxNode(b, MaxKids(body), MaxKids(rest), MaxKids(b));
  }

  lemma MaxParts(b: Tree)
    ensures MaxPhandle(b) in {Phandle(b), MaxKids(b)} && Phandle(b) <= MaxPhandle(b) && MaxKids(b) <= MaxPhandle(b)
  {
    hide Phandle;
  }

  lemma NoMax()
    ensures IsMax(Nil, 0)
  {
  }

  // ---------- Fixups ----------

  /** What the fixups f list is there in t: their nodes, and their properties, with offsets that are whole words. */
  ghost predicate Answered(f: Tree, t: Tree, names: set<bytes>) {
    && (forall a :: Known(a, names) && NodeBy(f, a).Some? ==> NodeBy(t, a).Some?)
    && (forall a, name ::
          Known(a, names) && Val(f, a, name).Some? ==> Val(t, a, name).Some? && |Val(f, a, name).value| % 4 == 0)
  }

  /** The same for the properties of one node. */
  ghost predicate PropsAnswered(f: Tree, t: Tree) {
    forall name :: Get(f, name).Some? ==> Get(t, name).Some? && |Get(f, name).value| % 4 == 0
  }

  /** The same below a node. */
  ghost predicate KidsAnswered(f: Tree, t: Tree, names: set<bytes>) {
    forall n :: n in names && Kid(f, n).Some? ==> Kid(t, n).Some? && Answered(Kid(f, n).value, Kid(t, n).value, names)
  }

  lemma AnsweredParts(f: Tree, t: Tree, names: set<bytes>)
    ensures Answered(f, t, names) <==> PropsAnswered(f, t) && KidsAnswered(f, t, names)
  {
    if Answered(f, t, names) {
      forall name | Get(f, name).Some? ensures Get(t, name).Some? && |Get(f, name).value| % 4 == 0 {
        assert Known([], names) && Val(f, [], name) == Get(f, name) && Val(t, [], name) == Get(t, name);
      }
      forall n | n in names && Kid(f, n).Some?
        ensures Kid(t, n).Some? && Answered(Kid(f, n).value, Kid(t, n).value, names)
      {
        KidAnswered(f, t, names, n);
      }
    }
    if PropsAnswered(f, t) && KidsAnswered(f, t, names) {
      forall a | Known(a, names) && NodeBy(f, a).Some? ensures NodeBy(t, a).Some? {
        if a != [] {
          assert Known(a[1..], names) && a[0] in names;
        }
      }
      forall a, name | Known(a, names) && Val(f, a, name).Some?
        ensures Val(t, a, name).Some? && |Val(f, a, name).value| % 4 == 0
      {
        if a != [] {
          assert Known(a[1..], names) && a[0] in names && Val(f, a, name) == Val(Kid(f, a[0]).value, a[1..], name);
        }
      }
    }
  }

  lemma KidAnswered(f: Tree, t: Tree, names: set<bytes>, n: bytes)
    requires Answered(f, t, names) && n in names && Kid(f, n).Some?
    ensures Kid(t, n).Some? && Answered(Kid(f, n).value, Kid(t, n).value, names)
  {
    OneStep(f, n);
    OneStep(t, n);
    assert Known([n], names);
    forall a | Known(a, names) && NodeBy(Kid(f, n).value, a).Some? ensures NodeBy(Kid(t, n).value, a).Some? {
      assert ([n] + a)[1..] == a && Known([n] + a, names);
      assert NodeBy(f, [n] + a).Some?;
    }
    forall a, name | Known(a, names) && Val(Kid(f, n).value, a, name).Some?
      ensures Val(Kid(t, n).value, a, name).Some? && |Val(Kid(f, n).value, a, name).value| % 4 == 0
    {
      assert ([n] + a)[1..] == a && Known([n] + a, names);
      assert Val(f, [n] + a, name) == Val(Kid(f, n).value, a, name);
    }
  }

  /** The pass over the properties that a fixup node lists. */
  lemma {:induction false} MapPropsExact(t: Tree, f: Tree, g: u32 -> u32)
    requires Plain(f)
    ensures MapProps(t, f, g).Ok? <==> PropsAnswered(f, t)
    decreases f
  {
    if f.PropT? {
      assert Get(f, f.name) == Some(f.value);
      if |f.value| % 4 == 0 && Get(t, f.name).Some? {
        var x := MapWords(Get(t, f.name).value, f.value, 0, g);
        var u := Replace(t, f.name, x);
        MapPropsExact(u, f.rest, g);
        forall name ensures Get(u, name).Some? <==> Get(t, name).Some? {
          ReplaceMeans(t, f.name, x, name);
        }
        assert forall name :: name != f.name ==> Get(f, name) == Get(f.rest, name);
      }
    }
  }

  /** overlay_update_local_node_references succeeds exactly when all that the fixups list is there. */
  lemma {:induction false} MapExact(t: Tree, f: Tree, g: u32 -> u32, names: set<bytes>)
    requires Uniform(names) && NamesIn(t, names) && NamesIn(f, names) && Plain(f)
    ensures MapNode(t, f, g).Ok? <==> Answered(f, t, names)
    decreases f, 1
  {
    hide Answered, NamesIn, Plain, PropsAnswered, KidsAnswered, MapProps, MapKids;
    AnsweredParts(f, t, names);
    MapPropsExact(t, f, g);
    if MapProps(t, f, g).Ok? {
      var u := MapProps(t, f, g).value;
      MapPropsNames(t, f, g, names);
      MapKidsExact(u, f, g, names);
      MapPropsMeans(t, f, g, []);
      SameKidsAnswered(f, t, u, names);
    }
  }

  lemma SameKidsAnswered(f: Tree, t: Tree, u: Tree, names: set<bytes>)
    requires Children(u) == Children(t)
    ensures KidsAnswered(f, u, names) <==> KidsAnswered(f, t, names)
  {
    forall n ensures Kid(u, n) == Kid(t, n) {
      KidOfChildren(u, t, n);
    }
  }

  lemma {:induction false} MapKidsExact(t: Tree, f: Tree, g: u32 -> u32, names: set<bytes>)
    requires Uniform(names) && NamesIn(t, names) && NamesIn(f, names) && Plain(f)
    ensures MapKids(t, f, g).Ok? <==> KidsAnswered(f, t, names)
    decreases f, 0
  {
    match f
    case Nil => assert forall n :: Kid(f, n).None?;
    case PropT(_, _, rest) =>
      MapKidsExact(t, rest, g, names);
      forall n ensures Kid(f, n) == Kid(rest, n) {
        KidNext(f, n);
      }
    case NodeT(n, body, rest) =>
      FirstKid(f, names, n);
      if Kid(t, n).Some? {
        KidNames(t, names, n);
        MapExact(Kid(t, n).value, body, g, names);
        if MapNode(Kid(t, n).value, body, g).Ok? {
          var x := MapNode(Kid(t, n).value, body, g).value;
          MapNames(Kid(t, n).value, body, g, names);
          PutKidNames(t, names, n, x);
          MapKidsExact(PutKid(t, n, x), rest, g, names);
          KidsSplit(f, t, x, names);
        }
      }
  }

  /** The fixups of the first node, and those of the others once the first node has been mapped to x. */
  lemma KidsSplit(f: Tree, t: Tree, x: Tree, names: set<bytes>)
    requires Uniform(names) && NamesIn(t, names) && NamesIn(f, names) && Plain(f) && f.NodeT? && Kid(t, f.name).Some?
    requires Answered(f.body, Kid(t, f.name).value, names)
    ensures KidsAnswered(f.rest, PutKid(t, f.name, x), names) <==> KidsAnswered(f, t, names)
  {
    hide Answered, Plain, NamesIn;
    forall n | n in names
      ensures Kid(f, n) == if n == f.name then Some(f.body) else Kid(f.rest, n)
      ensures n == f.name ==> Kid(f.rest, n).None?
      ensures n != f.name ==> Kid(PutKid(t, f.name, x), n) == Kid(t, n)
    {
      FirstKid(f, names, n);
      assert f.name in names by { NamesHead(f, names); }
      PutKidMeans(t, names, f.name, x, n);
    }
    NamesHead(f, names);
  }

  lemma NamesHead(f: Tree, names: set<bytes>)
    requires NamesIn(f, names) && f.NodeT?
    ensures f.name in names
  {
  }

  // ---------- Conflicts ----------

  /** The same nodes and properties. */
  ghost predicate SameParts(t: Tree, o: Tree, names: set<bytes>) {
    && (forall a :: Known(a, names) ==> NodeBy(t, a).Some? == NodeBy(o, a).Some?)
    && (forall a, name :: Known(a, names) ==> Val(t, a, name).Some? == Val(o, a, name).Some?)
  }

  lemma AnsweredSame(f: Tree, t: Tree, o: Tree, names: set<bytes>)
    requires SameParts(t, o, names)
    ensures Answered(f, t, names) <==> Answered(f, o, names)
  {
  }

  lemma ShapeParts(t: Tree, o: Tree, names: set<bytes>)
    requires SameShape(t, o, names)
    ensures SameParts(t, o, names)
  {
    forall a, name | Known(a, names) ensures Val(t, a, name).Some? == Val(o, a, name).Some? {
      assert SameLength(Val(t, a, name), Val(o, a, name));
    }
  }

  lemma ConflictParts(t: Tree, a: Address, x: u32, names: set<bytes>)
    requires Uniform(names) && NamesIn(t, names) && Known(a, names) && NodeBy(t, a).Some?
    ensures SameParts(SetBy(t, a, ConflictingPhandle(NodeBy(t, a).value, x)), t, names)
    ensures NamesIn(SetBy(t, a, ConflictingPhandle(NodeBy(t, a).value, x)), names)
  {
    hide NamesIn, Uniform, NodeBy, Val, SetBy, ConflictingPhandle, Known;
    var n := NodeBy(t, a).value;
    var m := ConflictingPhandle(n, x);
    NodeNames(t, names, a);
    ConflictNames(n, x, names);
    SetByNames(t, names, a, m);
    var u := SetBy(t, a, m);
    forall b | Known(b, names) ensures NodeBy(u, b).Some? == NodeBy(t, b).Some? {
      ConflictPart(t, a, x, names, b, []);
    }
    forall b, name | Known(b, names) ensures Val(u, b, name).Some? == Val(t, b, name).Some? {
      ConflictPart(t, a, x, names, b, name);
    }
  }

  lemma ConflictPart(t: Tree, a: Address, x: u32, names: set<bytes>, b: Address, name: bytes)
    requires Uniform(names) && NamesIn(t, names) && Known(a, names) && NodeBy(t, a).Some? && Known(b, names)
    requires NamesIn(ConflictingPhandle(NodeBy(t, a).value, x), names)
    ensures var u := SetBy(t, a, ConflictingPhandle(NodeBy(t, a).value, x));
      NodeBy(u, b).Some? == NodeBy(t, b).Some? && Val(u, b, name).Some? == Val(t, b, name).Some?
  {
    hide NamesIn, Uniform, NodeBy, Val, SetBy, ConflictingPhandle, Known, WordProp, IsPhandleName;
    var n := NodeBy(t, a).value;
    SetByVal(t, names, a, ConflictingPhandle(n, x), b, name);
    if Below(a, b) {
      var r := b[|a|..];
      ConflictVal(n, x, r, name);
      WordThere(n, name);
      assert b == a + r;
      NodeByJoin(t, a, r);
      ValJoin(t, a, r, name);
      RootVal(n, name);
    }
  }

  lemma WordThere(n: Tree, name: bytes)
    ensures WordProp(n, name).Some? ==> Get(n, name).Some?
  {
  }

  lemma RootVal(n: Tree, name: bytes)
    ensures Val(n, [], name) == Get(n, name)
  {
    assert NodeBy(n, []) == Some(n);
  }

  /** A conflict can be resolved. */
  lemma ResolveOk(t: Tree, o: Tree, d: u32, names: set<bytes>, a: Address, x: u32)
    requires Ready(o, d, names) && Between(t, o, d, names) && Known(a, names) && Answered(Fixups(o), o, names)
    requires a != [] && a[0] != LOCAL_FIXUPS && NodeBy(t, a).Some?
    ensures Resolve(t, a, x).Ok?
  {
    hide Answered, NodeBy, Val, Carried, OldOrBase, SetBy, ConflictingPhandle, PhandleAt, Plain, NamesIn;
    var m := ConflictingPhandle(NodeBy(t, a).value, x);
    var u := SetBy(t, a, m);
    ConflictParts(t, a, x, names);
    FixupsElsewhere(t, a, m, names);
    ConflictOf(u, x, PhandleAt(t, a));
    ShapeParts(t, o, names);
    AnsweredSame(Fixups(o), t, o, names);
    AnsweredSame(Fixups(o), u, t, names);
    MapExact(u, Fixups(o), ConflictMap(x, PhandleAt(t, a)), names);
  }

  lemma {:induction false} PreventNodeOk(t: Tree, b: Tree, a: Address, e: Tree, o: Tree, d: u32, names: set<bytes>)
    requires WalkPre(t, b, a, e, o, d, names) && NodeBy(o, a).Some? && PhandleAt(t, a) == PhandleAt(o, a)
    requires Answered(Fixups(o), o, names)
    ensures PreventNode(t, b, a, e).Ok?
    decreases e, 1
  {
    hide Ready, Between, Fixups, EntriesOf, PreventKids, Resolve, Answered, PhandleAt, NodeBy;
    BaseTop(b, d, names);
    NotTouched(a, e);
    NodeStays(t, o, d, names, a);
    if Phandle(b) != 0 && PhandleAt(t, a) != 0 {
      var x := Phandle(b);
      ResolveOk(t, o, d, names, a, x);
      var t1 := Resolve(t, a, x).value;
      ResolveStep(t, o, d, names, a, x, t1);
      PreventKidsOk(t1, b, a, e, o, d, names);
    } else {
      PreventKidsOk(t, b, a, e, o, d, names);
    }
  }

  /** The walk over the overlay has no error if all that the fixups list is there. */
  lemma {:induction false} PreventKidsOk(t: Tree, b: Tree, a: Address, e: Tree, o: Tree, d: u32, names: set<bytes>)
    requires WalkPre(t, b, a, e, o, d, names) && Answered(Fixups(o), o, names)
    ensures PreventKids(t, b, a, e).Ok?
    decreases e, 0
  {
    hide Between, PhandleAt, NodeBy, Ready, EntriesOf, BaseMax, Fixups, Touched, Answered, WalkPre, Kid, TakenOver;
    match e
    case Nil =>
    case PropT(_, _, rest) =>
      PropPre(t, b, a, e, o, d, names);
      PreventKidsOk(t, b, a, rest, o, d, names);
    case NodeT(n, body, rest) =>
      match Kid(b, n)
      case None =>
        WalkFacts(t, b, a, e, o, d, names);
        RestPre(t, t, b, a, e, o, d, names);
        PreventKidsOk(t, b, a, rest, o, d, names);
      case Some(x) =>
        KidPre(t, b, a, e, o, d, names);
        PreventNodeOk(t, x, a + [n], body, o, d, names);
        assert Known([], names);
        PreventNodeKeeps(t, x, a + [n], body, o, d, names, Slot([], PHANDLE, 0), []);
        var t1 := PreventNode(t, x, a + [n], body).value;
        RestPre(t, t1, b, a, e, o, d, names);
        PreventKidsOk(t1, b, a, rest, o, d, names);
  }

  lemma WalkFacts(t: Tree, b: Tree, a: Address, e: Tree, o: Tree, d: u32, names: set<bytes>)
    requires WalkPre(t, b, a, e, o, d, names)
    ensures Ready(o, d, names) && Between(t, o, d, names)
  {
    hide Ready, Between;
  }

  // ---------- All fragments ----------

  lemma {:induction false} PreventAllOk(t: Tree, base: Tree, frags: seq<Fragment>, o: Tree, d: u32, names: set<bytes>)
    requires Ready(o, d, names) && Between(t, o, d, names) && FragmentsOk(frags, names) && d == MaxPhandle(base)
    requires forall z :: Known(z, names) && !Outside(frags, z) ==> PhandleAt(t, z) == PhandleAt(o, z)
    requires Answered(Fixups(o), o, names)
    ensures PreventAll(t, base, frags).Ok?
    decreases |frags|
  {
    hide Ready, Between, Fixups, PreventNode, PhandleAt, NodeBy, Known, Answered, FragmentTaken;
    if frags != [] {
      var fr := frags[0];
      FragmentsRest(frags, names);
      assert Known([], names) by { NoName(names); }
      if NodeBy(t, Source(fr)).Some? && NodeBy(base, fr.target).Some? {
        FirstPre(t, base, frags, o, d, names);
        PreventNodeOk(t, NodeBy(base, fr.target).value, Source(fr), NodeBy(t, Source(fr)).value, o, d, names);
        PreventOne(t, base, fr, o, d, names, Slot([], PHANDLE, 0), []);
      }
      var t1 := FirstPrevented(t, base, frags);
      forall z | Known(z, names) && !Outside(frags[1..], z) ensures PhandleAt(t1, z) == PhandleAt(o, z) {
        RestOutside(frags, names, z);
      }
      PreventAllOk(t1, base, frags[1..], o, d, names);
    }
  }

  lemma NoName(names: set<bytes>)
    ensures Known([], names)
  {
  }

  lemma FirstPre(t: Tree, base: Tree, frags: seq<Fragment>, o: Tree, d: u32, names: set<bytes>)
    requires frags != [] && Ready(o, d, names) && Between(t, o, d, names) && FragmentsOk(frags, names)
    requires d == MaxPhandle(base)
    requires forall z :: Known(z, names) && !Outside(frags, z) ==> PhandleAt(t, z) == PhandleAt(o, z)
    requires NodeBy(t, Source(frags[0])).Some? && NodeBy(base, frags[0].target).Some?
    ensures var a, e := Source(frags[0]), NodeBy(t, Source(frags[0])).value;
      WalkPre(t, NodeBy(base, frags[0].target).value, a, e, o, d, names) && NodeBy(o, a).Some? &&
      PhandleAt(t, a) == PhandleAt(o, a)
  {
    var fr, a := frags[0], Source(frags[0]);
    var e := NodeBy(t, a).value;
    assert Known(a, names);
    SourceEntries(t, o, d, names, a, e);
    MaxBelow(base, names, fr.target);
    hide Ready, Between, EntriesOf, BaseMax, PhandleAt, NodeBy;
    forall z | Known(z, names) && Below(a, z) ensures PhandleAt(t, z) == PhandleAt(o, z) {
      assert !Outside(frags, z);
    }
    assert Below(a, a);
    forall z | Known(z, names) && Touched(a, e, z) ensures PhandleAt(t, z) == PhandleAt(o, z) {
      TouchedBelow(a, e, z);
    }
  }

  /** The target of fragment i is there when its turn comes: in the base, or brought along by an earlier fragment. */
  ghost predicate TargetThere(base: Tree, t: Tree, frags: seq<Fragment>, i: nat)
    requires i < |frags|
  {
    var a := frags[i].target;
    || NodeBy(base, a).Some?
    || exists j :: 0 <= j < i && Below(frags[j].target, a) && NodeBy(t, Origin(frags[j], a)).Some?
  }

  ghost predicate TargetsThere(base: Tree, t: Tree, frags: seq<Fragment>) {
    forall i: nat :: i < |frags| ==> TargetThere(base, t, frags, i)
  }

  /** The nodes after the first fragment. */
  lemma FirstNodes(base: Tree, t: Tree, frags: seq<Fragment>, names: set<bytes>, g: Address)
    requires Uniform(names) && NamesIn(base, names) && NamesIn(t, names) && Plain(t) && FragmentsOk(frags, names)
    requires frags != [] && Known(g, names)
    requires NodeBy(t, OverlayApply.Source(frags[0])).Some? && NodeBy(base, frags[0].target).Some?
    ensures var b1 := FirstMerged(base, t, frags);
      && NamesIn(b1, names)
      && (NodeBy(b1, g).Some? <==>
            NodeBy(base, g).Some? || (Below(frags[0].target, g) && NodeBy(t, Origin(frags[0], g)).Some?))
  {
    hide NamesIn, Plain, Uniform;
    var fr := frags[0];
    var a := OverlayApply.Source(fr);
    FragmentsRest(frags, names);
    assert Known(a, names);
    var ov, x := NodeBy(t, a).value, NodeBy(base, fr.target).value;
    NodeNames(t, names, a);
    NodeNames(base, names, fr.target);
    PlainNode(t, a);
    MergeNames(x, ov, names);
    SetByNames(base, names, fr.target, Merge(x, ov));
    SetByVal(base, names, fr.target, Merge(x, ov), g, PHANDLE);
    if Below(fr.target, g) {
      var r := g[|fr.target|..];
      assert g == fr.target + r && Known(r, names);
      NodeByJoin(t, a, r);
      NodeByJoin(base, fr.target, r);
      MergeVal(x, ov, names, r, PHANDLE);
    }
  }

  /** overlay_merge succeeds exactly when every target is there when its turn comes. */
  lemma {:induction false} MergeAllExact(base: Tree, t: Tree, frags: seq<Fragment>, names: set<bytes>)
    requires Uniform(names) && NamesIn(base, names) && NamesIn(t, names) && Plain(t) && FragmentsOk(frags, names)
    requires forall i :: 0 <= i < |frags| ==> NodeBy(t, OverlayApply.Source(frags[i])).Some?
    ensures MergeAll(base, t, frags).Ok? <==> TargetsThere(base, t, frags)
    decreases |frags|
  {
    hide NamesIn, Plain, Uniform, NodeBy, TargetThere, FragmentsOk, Known;
    if frags != [] {
      FragmentsRest(frags, names);
      FirstThere(base, t, frags);
      if NodeBy(base, frags[0].target).Some? {
        var b1 := FirstMerged(base, t, frags);
        NoName(names);
        FirstNodes(base, t, frags, names, []);
        MergeAllExact(b1, t, frags[1..], names);
        forall i: nat | 0 < i < |frags|
          ensures TargetThere(b1, t, frags[1..], i - 1) <==> TargetThere(base, t, frags, i)
        {
          LaterThere(base, t, frags, names, i);
        }
        LaterTargets(base, b1, t, frags);
      }
    }
  }

  lemma FirstThere(base: Tree, t: Tree, frags: seq<Fragment>)
    requires frags != []
    ensures TargetThere(base, t, frags, 0) <==> NodeBy(base, frags[0].target).Some?
  {
  }

  lemma LaterTargets(base: Tree, b1: Tree, t: Tree, frags: seq<Fragment>)
    requires frags != [] && TargetThere(base, t, frags, 0)
    requires forall i: nat ::
              0 < i < |frags| ==> (TargetThere(b1, t, frags[1..], i - 1) <==> TargetThere(base, t, frags, i))
    ensures TargetsThere(b1, t, frags[1..]) <==> TargetsThere(base, t, frags)
  {
    hide TargetThere;
    if TargetsThere(base, t, frags) {
      forall i: nat | i < |frags[1..]| ensures TargetThere(b1, t, frags[1..], i) {
        assert TargetThere(base, t, frags, i + 1);
        assert TargetThere(b1, t, frags[1..], i + 1 - 1);
      }
    }
    if TargetsThere(b1, t, frags[1..]) {
      forall i: nat | i < |frags| ensures TargetThere(base, t, frags, i) {
        if i > 0 {
          assert TargetThere(b1, t, frags[1..], i - 1);
        }
      }
    }
  }

  lemma LaterThere(base: Tree, t: Tree, frags: seq<Fragment>, names: set<bytes>, i: nat)
    requires Uniform(names) && NamesIn(base, names) && NamesIn(t, names) && Plain(t) && FragmentsOk(frags, names)
    requires 0 < i < |frags| && NodeBy(t, OverlayApply.Source(frags[0])).Some? && NodeBy(base, frags[0].target).Some?
    ensures TargetThere(FirstMerged(base, t, frags), t, frags[1..], i - 1) <==> TargetThere(base, t, frags, i)
  {
    hide NamesIn, Plain, Uniform, NodeBy;
    var a, b1 := frags[i].target, FirstMerged(base, t, frags);
    assert Known(a, names) && frags[1..][i - 1] == frags[i];
    FirstNodes(base, t, frags, names, a);
    if TargetThere(b1, t, frags[1..], i - 1) && NodeBy(b1, a).None? {
      var j :| 0 <= j < i - 1 && Below(frags[1..][j].target, a) && NodeBy(t, Origin(frags[1..][j], a)).Some?;
      assert frags[j + 1] == frags[1..][j];
    }
    if TargetThere(base, t, frags, i) && NodeBy(b1, a).None? {
      var j :| 0 <= j < i && Below(frags[j].target, a) && NodeBy(t, Origin(frags[j], a)).Some?;
      assert j > 0 && frags[1..][j - 1] == frags[j];
    }
  }
}
