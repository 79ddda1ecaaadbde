/** libfdt/fdt_overlay.c: fdt_overlay_apply as a whole, on trees. */
module OverlayApply {
  import opened Bytes
  import opened Tags
  import opened Walk
  import opened Trees
  import opened Merging
  import opened Overlay

  /** A fragment of the overlay: the name of its node, and the address of the base node it is for. */
  datatype Fragment = Fragment(name: bytes, target: Address)

  /** The address of the node of a fragment that is merged. */
  function Source(fr: Fragment): Address {
    [fr.name, OVERLAY]
  }

  /** overlay_prevent_phandle_overwrite */
  ghost function PreventAll(t: Tree, base: Tree, frags: seq<Fragment>): Result<Tree>
    decreases |frags|
  {
    if frags == [] then Ok(t)
    else
      match NodeBy(t, Source(frags[0]))
      case None => PreventAll(t, base, frags[1..])
      case Some(e) =>
        match NodeBy(base, frags[0].target)
        case None => PreventAll(t, base, frags[1..])
        case Some(b) =>
          match PreventNode(t, b, Source(frags[0]), e)
          case Err(x) => Err(x)
          case Ok(t1) => PreventAll(t1, base, frags[1..])
  }

  /** overlay_merge */
  ghost function MergeAll(base: Tree, t: Tree, frags: seq<Fragment>): Result<Tree>
    decreases |frags|
  {
    if frags == [] then Ok(base)
    else
      match NodeBy(t, Source(frags[0]))
      case None => MergeAll(base, t, frags[1..])
      case Some(o) =>
        match NodeBy(base, frags[0].target)
        case None => Err(-NOTFOUND)
        case Some(b) => MergeAll(SetBy(base, frags[0].target, Merge(b, o)), t, frags[1..])
  }

  /** fdt_find_max_phandle, over a node and the nodes below it. */
  function MaxPhandle(b: Tree): u32
    decreases b, 1
  {
    var k := MaxKids(b);
    if Phandle(b) > k then Phandle(b) else k
  }

  function MaxKids(b: Tree): u32
    decreases b, 0
  {
    match b
    case Nil => 0
    case PropT(_, _, rest) => MaxKids(rest)
    case NodeT(_, body, rest) => if MaxPhandle(body) > MaxKids(rest) then MaxPhandle(body) else MaxKids(rest)
  }

  /** fdt_overlay_apply on an overlay without external fixups and symbols. */
  ghost function Apply(base: Tree, o: Tree, frags: seq<Fragment>): Result<Tree> {
    var delta := MaxPhandle(base);
    match AdjustNode(o, delta)
    case Err(e) => Err(e)
    case Ok(o1) =>
      match LocalReferences(o1, delta)
      case Err(e) => Err(e)
      case Ok(o2) =>
        match PreventAll(o2, base, frags)
        case Err(e) => Err(e)
        case Ok(o3) => MergeAll(base, o3, frags)
  }

  // ---------- The maximum ----------

  lemma {:induction false} MaxKid(b: Tree, name: bytes)
    requires Kid(b, name).Some?
    ensures MaxPhandle(Kid(b, name).value) <= MaxKids(b)
  {
    if !(b.NodeT? && NameEq(b.name, name)) {
      KidNext(b, name);
      MaxKid(b.rest, name);
    }
  }

  lemma {:induction false} MaxBounds(b: Tree, a: Address)
    ensures PhandleAt(b, a) <= MaxPhandle(b)
    decreases |a|
  {
    if a != [] && Kid(b, a[0]).Some? {
      MaxKid(b, a[0]);
      MaxBounds(Kid(b, a[0]).value, a[1..]);
    }
  }

  lemma MaxBelow(b: Tree, names: set<bytes>, a: Address)
    requires NodeBy(b, a).Some?
    ensures BaseMax(NodeBy(b, a).value, MaxPhandle(b), names)
  {
    forall r | Known(r, names) ensures PhandleAt(NodeBy(b, a).value, r) <= MaxPhandle(b) {
      NodeByJoin(b, a, r);
      MaxBounds(b, a + r);
    }
  }

  // ---------- All fragments: phandles ----------

  /** The fragments have distinct names, none is the fixups node, and all names are exact. */
  ghost predicate FragmentsOk(frags: seq<Fragment>, names: set<bytes>) {
    && OVERLAY in names
    && (forall i ::
          0 <= i < |frags| ==> frags[i].name in names && frags[i].name != LOCAL_FIXUPS && Known(frags[i].target, names))
    && (forall i, j :: 0 <= i < |frags| && 0 <= j < |frags| && i != j ==> frags[i].name != frags[j].name)
  }

  /** Where fragment fr falls on base nodes with a phandle, the overlay has taken over that phandle. */
  ghost predicate FragmentTaken(t: Tree, base: Tree, fr: Fragment, o: Tree, names: set<bytes>) {
    forall r {:trigger PhandleAt(o, Source(fr) + r)} :: Known(r, names) ==>
      PhandleAt(t, Source(fr) + r) == After(base, fr.target + r, o, Source(fr) + r)
  }

  lemma SourceEntries(t: Tree, o: Tree, d: u32, names: set<bytes>, a: Address, e: Tree)
    requires Ready(o, d, names) && Between(t, o, d, names) && Known(a, names) && NodeBy(t, a) == Some(e)
    ensures EntriesOf(o, a, e, names) && NodeBy(o, a).Some?
  {
    NodeNames(t, names, a);
    PlainNode(t, a);
    forall r | Known(r, names) && r != [] && NodeBy(e, r).Some? ensures NodeBy(o, a + r).Some? {
      NodeByJoin(t, a, r);
      KnownJoin(a, r, names);
    }
  }

  lemma TouchedBelow(a: Address, e: Tree, z: Address)
    ensures Touched(a, e, z) ==> Below(a, z)
  {
  }

  /** One fragment. */
  lemma PreventOne(t: Tree, base: Tree, fr: Fragment, o: Tree, d: u32, names: set<bytes>, s: Slot, y: Address)
    requires Ready(o, d, names) && Between(t, o, d, names) && FragmentsOk([fr], names) && d == MaxPhandle(base)
    requires Known(s.node, names) && Known(y, names) && NodeBy(t, Source(fr)).Some? && NodeBy(base, fr.target).Some?
    requires forall z :: Known(z, names) && Below(Source(fr), z) ==> PhandleAt(t, z) == PhandleAt(o, z)
    requires PreventNode(t, NodeBy(base, fr.target).value, Source(fr), NodeBy(t, Source(fr)).value).Ok?
    ensures var t1 := PreventNode(t, NodeBy(base, fr.target).value, Source(fr), NodeBy(t, Source(fr)).value).value;
      && Between(t1, o, d, names) && FragmentTaken(t1, base, fr, o, names)
      && (forall z :: Known(z, names) && !Below(Source(fr), z) ==> PhandleAt(t1, z) == PhandleAt(t, z))
      && (Refers(Fixups(o), t, s, y) ==> Refers(Fixups(o), t1, s, y))
  {
    var a := Source(fr);
    var b, e := NodeBy(base, fr.target).value, NodeBy(t, a).value;
    assert [fr][0] == fr && Known(a, names);
    SourceEntries(t, o, d, names, a, e);
    MaxBelow(base, names, fr.target);
    hide Ready, Between, Refers, Fixups, EntriesOf, BaseMax, PreventNode, PhandleAt, NodeBy, Known;
    forall z | Known(z, names) && Touched(a, e, z) ensures PhandleAt(t, z) == PhandleAt(o, z) {
      TouchedBelow(a, e, z);
    }
    assert Below(a, a);
    PreventNodeKeeps(t, b, a, e, o, d, names, s, y);
    var t1 := PreventNode(t, b, a, e).value;
    TakenFragment(t, t1, base, fr, o, d, names);
  }

  lemma TakenFragment(t: Tree, t1: Tree, base: Tree, fr: Fragment, o: Tree, d: u32, names: set<bytes>)
    requires Between(t, o, d, names) && Between(t1, o, d, names)
    requires NodeBy(t, Source(fr)).Some? && NodeBy(base, fr.target).Some? && Known(Source(fr), names)
    requires var b, e := NodeBy(base, fr.target).value, NodeBy(t, Source(fr)).value;
      && TakenOver(t1, b, Source(fr), e, o, names)
      && PhandleAt(t1, Source(fr)) == After(b, [], o, Source(fr))
    ensures FragmentTaken(t1, base, fr, o, names)
  {
    var a := Source(fr);
    var b, e := NodeBy(base, fr.target).value, NodeBy(t, a).value;
    forall r | Known(r, names) ensures PhandleAt(t1, a + r) == After(base, fr.target + r, o, a + r) {
      NodeByJoin(base, fr.target, r);
      NodeByJoin(t, a, r);
      KnownJoin(a, r, names);
      assert NodeBy(t, a + r).Some? == NodeBy(o, a + r).Some?;
      assert NodeBy(t1, a + r).Some? == NodeBy(o, a + r).Some?;
      assert PhandleAt(base, fr.target + r) == PhandleAt(b, r);
      if r == [] {
        assert a + r == a;
      }
    }
  }

  ghost predicate AllTaken(t: Tree, base: Tree, frags: seq<Fragment>, o: Tree, names: set<bytes>) {
    forall i :: 0 <= i < |frags| ==> FragmentTaken(t, base, frags[i], o, names)
  }

  /** z lies in none of the fragments. */
  ghost predicate Outside(frags: seq<Fragment>, z: Address) {
    forall i :: 0 <= i < |frags| ==> !Below(Source(frags[i]), z)
  }

  lemma OneOutside(frags: seq<Fragment>, names: set<bytes>, i: int, z: Address)
    requires FragmentsOk(frags, names) && 0 < i < |frags|
    ensures !(Below(Source(frags[0]), z) && Below(Source(frags[i]), z))
  {
    BelowHead(Source(frags[0]), z);
    BelowHead(Source(frags[i]), z);
  }

  lemma BelowHead(a: Address, z: Address)
    ensures a != [] && Below(a, z) ==> z != [] && z[0] == a[0]
  {
    if a != [] && Below(a, z) {
      assert z[..|a|][0] == z[0];
    }
  }

  lemma TakenAbsent(t: Tree, base: Tree, fr: Fragment, o: Tree, names: set<bytes>)
    requires Known(Source(fr), names) && (NodeBy(o, Source(fr)).None? || NodeBy(base, fr.target).None?)
    requires forall z :: Known(z, names) && Below(Source(fr), z) ==> PhandleAt(t, z) == PhandleAt(o, z)
    ensures FragmentTaken(t, base, fr, o, names)
  {
    forall r | Known(r, names) ensures PhandleAt(t, Source(fr) + r) == After(base, fr.target + r, o, Source(fr) + r) {
      NodeByJoin(base, fr.target, r);
      NodeByJoin(o, Source(fr), r);
      KnownJoin(Source(fr), r, names);
      assert Below(Source(fr), Source(fr) + r);
    }
  }

  lemma TakenLater(t: Tree, t': Tree, base: Tree, fr: Fragment, o: Tree, names: set<bytes>, frags: seq<Fragment>)
    requires FragmentTaken(t, base, fr, o, names) && FragmentsOk([fr] + frags, names)
    requires forall z :: Known(z, names) && Outside(frags, z) ==> PhandleAt(t', z) == PhandleAt(t, z)
    ensures FragmentTaken(t', base, fr, o, names)
  {
    var all := [fr] + frags;
    assert all[0] == fr;
    hide PhandleAt;
    forall r | Known(r, names) ensures PhandleAt(t', Source(fr) + r) == After(base, fr.target + r, o, Source(fr) + r) {
      var z := Source(fr) + r;
      var was := PhandleAt(o, Source(fr) + r);
      assert Known(Source(fr), names);
      KnownJoin(Source(fr), r, names);
      assert Below(Source(fr), z);
      forall i | 0 <= i < |frags| ensures !Below(Source(frags[i]), z) {
        assert all[i + 1] == frags[i];
        OneOutside(all, names, i + 1, z);
      }
    }
  }

  lemma FragmentsRest(frags: seq<Fragment>, names: set<bytes>)
    requires FragmentsOk(frags, names) && frags != []
    ensures FragmentsOk(frags[1..], names) && FragmentsOk([frags[0]], names) && [frags[0]] + frags[1..] == frags
  {
  }

  /** The third pass: phandles of base nodes are taken over, and every reference is kept. */
  lemma {:induction false} PreventAllKeeps(t: Tree, base: Tree, frags: seq<Fragment>, o: Tree, d: u32,
                                           names: set<bytes>,
                                           s: Slot, y: Address)
    requires Ready(o, d, names) && Between(t, o, d, names) && FragmentsOk(frags, names) && d == MaxPhandle(base)
    requires Known(s.node, names) && Known(y, names)
    requires forall z :: Known(z, names) && !Outside(frags, z) ==> PhandleAt(t, z) == PhandleAt(o, z)
    requires PreventAll(t, base, frags).Ok?
    ensures var t' := PreventAll(t, base, frags).value;
      && Between(t', o, d, names) && AllTaken(t', base, frags, o, names)
      && (forall z :: Known(z, names) && Outside(frags, z) ==> PhandleAt(t', z) == PhandleAt(t, z))
      && (Refers(Fixups(o), t, s, y) ==> Refers(Fixups(o), t', s, y))
    decreases |frags|
  {
    if frags != [] {
      FragmentsRest(frags, names);
      PreventFirst(t, base, frags, o, d, names, s, y);
      var t1 := FirstPrevented(t, base, frags);
      PreventAllKeeps(t1, base, frags[1..], o, d, names, s, y);
      PreventJoin(t, t1, PreventAll(t, base, frags).value, base, frags, o, d, names);
    }
  }

  /** The overlay after the first fragment. */
  ghost function FirstPrevented(t: Tree, base: Tree, frags: seq<Fragment>): Tree
    requires frags != []
  {
    if NodeBy(t, Source(frags[0])).Some? && NodeBy(base, frags[0].target).Some? then
      match PreventNode(t, NodeBy(base, frags[0].target).value, Source(frags[0]), NodeBy(t, Source(frags[0])).value)
      case Ok(t1) => t1
      case Err(_) => t
    else t
  }

  lemma PreventFirst(t: Tree, base: Tree, frags: seq<Fragment>, o: Tree, d: u32, names: set<bytes>, s: Slot, y: Address)
    requires frags != [] && Ready(o, d, names) && Between(t, o, d, names) && FragmentsOk(frags, names)
    requires d == MaxPhandle(base)
    requires Known(s.node, names) && Known(y, names)
    requires forall z :: Known(z, names) && !Outside(frags, z) ==> PhandleAt(t, z) == PhandleAt(o, z)
    requires PreventAll(t, base, frags).Ok?
    ensures var t1 := FirstPrevented(t, base, frags);
      && PreventAll(t1, base, frags[1..]) == PreventAll(t, base, frags)
      && Between(t1, o, d, names) && FragmentTaken(t1, base, frags[0], o, names)
      && (forall z :: Known(z, names) && !Below(Source(frags[0]), z) ==> PhandleAt(t1, z) == PhandleAt(t, z))
      && (forall z :: Known(z, names) && !Outside(frags[1..], z) ==> PhandleAt(t1, z) == PhandleAt(o, z))
      && (Refers(Fixups(o), t, s, y) ==> Refers(Fixups(o), t1, s, y))
  {
    var fr := frags[0];
    FragmentsRest(frags, names);
    assert Known(Source(fr), names);
    SourceSome(t, o, d, names, Source(fr));
    hide Ready, Between, Refers, Fixups, PreventNode, PhandleAt, NodeBy, Known, FragmentTaken;
    if NodeBy(t, Source(fr)).Some? && NodeBy(base, fr.target).Some? {
      PreventOne(t, base, fr, o, d, names, s, y);
    } else {
      forall z | Known(z, names) && Below(Source(fr), z) ensures PhandleAt(t, z) == PhandleAt(o, z) {
        assert !Outside(frags, z);
      }
      TakenAbsent(t, base, fr, o, names);
    }
    var t1 := FirstPrevented(t, base, frags);
    forall z | Known(z, names) && !Outside(frags[1..], z) ensures PhandleAt(t1, z) == PhandleAt(o, z) {
      RestOutside(frags, names, z);
    }
  }

  lemma SourceSome(t: Tree, o: Tree, d: u32, names: set<bytes>, a: Address)
    requires Between(t, o, d, names) && Known(a, names)
    ensures NodeBy(t, a).Some? == NodeBy(o, a).Some?
  {
  }

  lemma RestOutside(frags: seq<Fragment>, names: set<bytes>, z: Address)
    requires FragmentsOk(frags, names) && frags != []
    ensures !Outside(frags[1..], z) ==> !Outside(frags, z) && !Below(Source(frags[0]), z)
    ensures Outside(frags, z) ==> Outside(frags[1..], z) && !Below(Source(frags[0]), z)
  {
    if !Outside(frags[1..], z) {
      var i :| 0 <= i < |frags[1..]| && Below(Source(frags[1..][i]), z);
      assert frags[1..][i] == frags[i + 1];
      OneOutside(frags, names, i + 1, z);
    }
    if Outside(frags, z) {
      forall i | 0 <= i < |frags[1..]| ensures !Below(Source(frags[1..][i]), z) {
        assert frags[1..][i] == frags[i + 1];
      }
    }
  }

  lemma PreventJoin(t: Tree, t1: Tree, t': Tree, base: Tree, frags: seq<Fragment>, o: Tree, d: u32, names: set<bytes>)
    requires frags != [] && FragmentsOk(frags, names)
    requires FragmentTaken(t1, base, frags[0], o, names) && AllTaken(t', base, frags[1..], o, names)
    requires forall z :: Known(z, names) && !Below(Source(frags[0]), z) ==> PhandleAt(t1, z) == PhandleAt(t, z)
    requires forall z :: Known(z, names) && Outside(frags[1..], z) ==> PhandleAt(t', z) == PhandleAt(t1, z)
    ensures AllTaken(t', base, frags, o, names)
    ensures forall z :: Known(z, names) && Outside(frags, z) ==> PhandleAt(t', z) == PhandleAt(t, z)
  {
    FragmentsRest(frags, names);
    TakenLater(t1, t', base, frags[0], o, names, frags[1..]);
    hide PhandleAt, FragmentTaken, Known;
    forall i | 0 <= i < |frags| ensures FragmentTaken(t', base, frags[i], o, names) {
      if i > 0 {
        assert frags[i] == frags[1..][i - 1];
      }
    }
    forall z | Known(z, names) && Outside(frags, z) ensures PhandleAt(t', z) == PhandleAt(t, z) {
      RestOutside(frags, names, z);
    }
  }

  // ---------- The merge by address ----------

  lemma {:induction false} ChildOfKid(o: Tree, names: set<bytes>, name: bytes)
    requires Uniform(names) && NamesIn(o, names) && name in names
    ensures match Kid(o, name)
      case None => NoneLike(o, name)
      case Some(x) => HasChild(o, name, x)
  {
    match o
    case Nil =>
    case PropT(_, _, rest) =>
      KidNext(o, name);
      ChildOfKid(rest, names, name);
    case NodeT(n, body, rest) =>
      ChildOfKid(rest, names, name);
      if n == name {
        assert name[..|name|] == name;
      } else {
        assert Unlike(n, name);
        KidNext(o, name);
      }
  }

  lemma {:induction false} PlainDistinct(o: Tree, names: set<bytes>)
    requires Uniform(names) && NamesIn(o, names) && Plain(o)
    ensures DistinctKids(o) && DistinctProps(o)
  {
    match o
    case Nil =>
    case PropT(_, _, rest) => PlainDistinct(rest, names);
    case NodeT(n, _, rest) =>
      PlainDistinct(rest, names);
      NoKidMeans(rest, names, n);
      ChildOfKid(rest, names, n);
  }

  lemma {:induction false} AddChildNames(b: Tree, names: set<bytes>, name: bytes)
    requires NamesIn(b, names) && name in names
    ensures NamesIn(AddChild(b, name), names)
  {
    if b.PropT? {
      AddChildNames(b.rest, names, name);
    }
  }

  lemma {:induction false} MergePropsNames(b: Tree, o: Tree, names: set<bytes>)
    requires NamesIn(b, names)
    ensures NamesIn(MergeProps(b, o), names)
    decreases o
  {
    if o.PropT? {
      ReplaceNames(b, o.name, o.value, names);
      MergePropsNames(Set(b, o.name, o.value), o.rest, names);
    }
  }

  lemma {:induction false} MergeNames(b: Tree, o: Tree, names: set<bytes>)
    requires Uniform(names) && NamesIn(b, names) && NamesIn(o, names)
    ensures NamesIn(Merge(b, o), names)
    decreases o, 1
  {
    MergePropsNames(b, o, names);
    MergeKidsNames(MergeProps(b, o), o, names);
  }

  lemma {:induction false} MergeKidsNames(b: Tree, o: Tree, names: set<bytes>)
    requires Uniform(names) && NamesIn(b, names) && NamesIn(o, names)
    ensures NamesIn(MergeKids(b, o), names)
    decreases o, 0
  {
    match o
    case Nil =>
    case PropT(_, _, rest) => MergeKidsNames(b, rest, names);
    case NodeT(name, body, rest) =>
      AddedChild(b, name);
      AddChildNames(b, names, name);
      var w := WithChild(b, name);
      FoundExact(w, names, name);
      var k := BodyAt(w, ChildAt(w, name).value);
      MergeNames(k, body, names);
      PutKidNames(w, names, name, Merge(k, body));
      MergeKidsNames(PutKid(w, name, Merge(k, body)), rest, names);
  }

  /** After a merge, every property of every node is the overlay's, if the overlay has it, and else the base's. */
  lemma {:induction false} MergeVal(b: Tree, o: Tree, names: set<bytes>, a: Address, name: bytes)
    requires Uniform(names) && NamesIn(b, names) && NamesIn(o, names) && Plain(o) && Known(a, names)
    ensures Val(Merge(b, o), a, name) == if Val(o, a, name).Some? then Val(o, a, name) else Val(b, a, name)
    ensures NodeBy(Merge(b, o), a).Some? == (NodeBy(o, a).Some? || NodeBy(b, a).Some?)
    decreases |a|
  {
    PlainDistinct(o, names);
    if a == [] {
      MergedProps(b, o, name);
    } else {
      ChildOfKid(o, names, a[0]);
      match Kid(o, a[0])
      case None => MergedKids(b, o, a[0], Nil);
      case Some(x) =>
        MergedKids(b, o, a[0], x);
        KidNames(o, names, a[0]);
        PlainKid(o, a[0]);
        if Kid(b, a[0]).Some? {
          KidNames(b, names, a[0]);
        }
        MergeVal(Kid(b, a[0]).GetOr(Nil), x, names, a[1..], name);
        NilVal(a[1..], name);
    }
  }

  lemma NilVal(a: Address, name: bytes)
    ensures Val(Nil, a, name).None? && (a != [] ==> NodeBy(Nil, a).None?)
  {
  }

  // ---------- All fragments: values ----------

  /** The address in the overlay that fragment fr puts at address g of the base. */
  function Origin(fr: Fragment, g: Address): Address
    requires Below(fr.target, g)
  {
    Source(fr) + g[|fr.target|..]
  }

  /** Fragment fr of the overlay t has a value for the property name of the node at g. */
  ghost predicate Writes(t: Tree, fr: Fragment, g: Address, name: bytes) {
    Below(fr.target, g) && Val(t, Origin(fr, g), name).Some?
  }

  /** The base after the first fragment. */
  ghost function FirstMerged(base: Tree, t: Tree, frags: seq<Fragment>): Tree
    requires frags != []
  {
    if NodeBy(t, Source(frags[0])).Some? && NodeBy(base, frags[0].target).Some? then
      SetBy(base, frags[0].target, Merge(NodeBy(base, frags[0].target).value, NodeBy(t, Source(frags[0])).value))
    else base
  }

  ghost predicate Mergeable(base: Tree, t: Tree, frags: seq<Fragment>, names: set<bytes>) {
    && Uniform(names) && NamesIn(base, names) && NamesIn(t, names) && Plain(t) && FragmentsOk(frags, names)
    && MergeAll(base, t, frags).Ok?
  }

  /** What the first fragment does to a value. */
  lemma MergeFirst(base: Tree, t: Tree, frags: seq<Fragment>, names: set<bytes>, g: Address, name: bytes)
    requires Mergeable(base, t, frags, names) && frags != [] && Known(g, names)
    ensures var b1 := FirstMerged(base, t, frags);
      && Mergeable(b1, t, frags[1..], names) && MergeAll(base, t, frags) == MergeAll(b1, t, frags[1..])
      && Val(b1, g, name) ==
         if Writes(t, frags[0], g, name) then Val(t, Origin(frags[0], g), name) else Val(base, g, name)
  {
    var fr := frags[0];
    var a := Source(fr);
    FragmentsRest(frags, names);
    assert Known(a, names);
    if NodeBy(t, a).Some? {
      var o, b := NodeBy(t, a).value, NodeBy(base, fr.target).value;
      NodeNames(t, names, a);
      NodeNames(base, names, fr.target);
      PlainNode(t, a);
      MergeNames(b, o, names);
      SetByNames(base, names, fr.target, Merge(b, o));
      SetByVal(base, names, fr.target, Merge(b, o), g, name);
      if Below(fr.target, g) {
        var r := g[|fr.target|..];
        assert g == fr.target + r;
        MergeVal(b, o, names, r, name);
        ValJoin(t, a, r, name);
        ValJoin(base, fr.target, r, name);
      }
    } else if Below(fr.target, g) {
      ValJoin(t, a, g[|fr.target|..], name);
    }
  }

  /** A value that no fragment has is the base's. */
  lemma {:induction false} MergeKeeps(base: Tree, t: Tree, frags: seq<Fragment>, names: set<bytes>, g: Address,
                                      name: bytes)
    requires Mergeable(base, t, frags, names) && Known(g, names)
    requires forall i :: 0 <= i < |frags| ==> !Writes(t, frags[i], g, name)
    ensures Val(MergeAll(base, t, frags).value, g, name) == Val(base, g, name)
    decreases |frags|
  {
    hide Writes, Mergeable, MergeAll;
    if frags != [] {
      MergeFirst(base, t, frags, names, g, name);
      assert !Writes(t, frags[0], g, name);
      MergeKeeps(FirstMerged(base, t, frags), t, frags[1..], names, g, name);
    } else {
      NoFragments(base, t);
    }
  }

  lemma NoFragments(base: Tree, t: Tree)
    ensures MergeAll(base, t, []) == Ok(base)
  {
  }

  /** The last fragment that has a value determines it. */
  lemma {:induction false} MergeLast(base: Tree, t: Tree, frags: seq<Fragment>, names: set<bytes>, g: Address,
                                     name: bytes, i: nat)
    requires Mergeable(base, t, frags, names) && Known(g, names) && i < |frags| && Writes(t, frags[i], g, name)
    requires forall m :: i < m < |frags| ==> !Writes(t, frags[m], g, name)
    ensures Val(MergeAll(base, t, frags).value, g, name) == Val(t, Origin(frags[i], g), name)
    decreases |frags|
  {
    MergeFirst(base, t, frags, names, g, name);
    var b1 := FirstMerged(base, t, frags);
    if i == 0 {
      MergeKeeps(b1, t, frags[1..], names, g, name);
    } else {
      MergeLast(b1, t, frags[1..], names, g, name, i - 1);
    }
  }

  /** A value on which base and fragments agree is kept. */
  lemma {:induction false} MergeAgrees(base: Tree, t: Tree, frags: seq<Fragment>, names: set<bytes>, g: Address,
                                       name: bytes, v: bytes)
    requires Mergeable(base, t, frags, names) && Known(g, names)
    requires Val(base, g, name).Some? ==> Val(base, g, name) == Some(v)
    requires forall i ::
              0 <= i < |frags| && Writes(t, frags[i], g, name) ==> Val(t, Origin(frags[i], g), name) == Some(v)
    ensures var r := Val(MergeAll(base, t, frags).value, g, name);
      && (r.Some? ==> r == Some(v))
      && (Val(base, g, name).Some? || (exists i :: 0 <= i < |frags| && Writes(t, frags[i], g, name)) ==> r.Some?)
    decreases |frags|
  {
    if frags != [] {
      MergeFirst(base, t, frags, names, g, name);
      var b1 := FirstMerged(base, t, frags);
      forall i | 0 <= i < |frags[1..]| && Writes(t, frags[1..][i], g, name)
        ensures Val(t, Origin(frags[1..][i], g), name) == Some(v)
      {
        assert frags[1..][i] == frags[i + 1];
      }
      MergeAgrees(b1, t, frags[1..], names, g, name, v);
      forall i | 0 < i < |frags| && Writes(t, frags[i], g, name)
        ensures exists m :: 0 <= m < |frags[1..]| && Writes(t, frags[1..][m], g, name)
      {
        assert frags[1..][i - 1] == frags[i];
      }
    }
  }

  // ---------- The theorems ----------

  /** The phandle of the node at g, when all that base and fragments say about it is w. */
  lemma MergedPhandle(base: Tree, t: Tree, frags: seq<Fragment>, names: set<bytes>, g: Address, w: u32, name: bytes)
    requires Mergeable(base, t, frags, names) && Known(g, names) && w != 0 && IsPhandleName(name)
    requires forall p :: IsPhandleName(p) && Val(base, g, p).Some? ==> Val(base, g, p) == Some(Enc32(w))
    requires forall i, p :: 0 <= i < |frags| && IsPhandleName(p) && Writes(t, frags[i], g, p) ==>
               Val(t, Origin(frags[i], g), p) == Some(Enc32(w))
    requires Val(base, g, name).Some? || exists i :: 0 <= i < |frags| && Writes(t, frags[i], g, name)
    ensures PhandleAt(MergeAll(base, t, frags).value, g) == w
  {
    hide MergeAll, PhandleAt, Enc32, NamesIn, Plain, Uniform;
    forall i, p | 0 <= i < |frags| && IsPhandleName(p) && Writes(t, frags[i], g, p)
      ensures Val(t, Origin(frags[i], g), p) == Some(Enc32(w))
    {
    }
    assert IsPhandleName(PHANDLE) && IsPhandleName(LINUX_PHANDLE);
    MergeAgrees(base, t, frags, names, g, PHANDLE, Enc32(w));
    MergeAgrees(base, t, frags, names, g, LINUX_PHANDLE, Enc32(w));
    HoldsPhandle(MergeAll(base, t, frags).value, g, w, name);
  }

  lemma HoldsPhandle(t: Tree, g: Address, w: u32, name: bytes)
    requires forall p :: IsPhandleName(p) && Val(t, g, p).Some? ==> Val(t, g, p) == Some(Enc32(w))
    requires IsPhandleName(name) && Val(t, g, name).Some?
    ensures PhandleAt(t, g) == w
  {
    EncWord(w);
    assert Val(t, g, PHANDLE).Some? ==> Val(t, g, PHANDLE) == Some(Enc32(w));
    assert Val(t, g, LINUX_PHANDLE).Some? ==> Val(t, g, LINUX_PHANDLE) == Some(Enc32(w));
  }

  /** The result of the passes over the overlay, and what they guarantee. */
  lemma PassesDone(base: Tree, o: Tree, frags: seq<Fragment>, names: set<bytes>, s: Slot, y: Address)
    returns (o2: Tree, t: Tree)
    requires WellFormed(o, names) && NamesIn(base, names) && FragmentsOk(frags, names) && Apply(base, o, frags).Ok?
    requires Known(s.node, names) && Known(y, names)
    ensures Apply(base, o, frags) == MergeAll(base, t, frags) && Mergeable(base, t, frags, names)
    ensures Between(t, o2, MaxPhandle(base), names) && AllTaken(t, base, frags, o2, names) && SameShape(o2, o, names)
    ensures Fixups(o2) == Fixups(o) && Fresh(o2, MaxPhandle(base), names)
    ensures forall a :: Known(a, names) ==> (PhandleAt(o2, a) == 0 <==> PhandleAt(o, a) == 0)
    ensures Refers(Fixups(o), o, s, y) && PhandleAt(o, y) != 0 ==> Refers(Fixups(o), t, s, y)
  {
    var d := MaxPhandle(base);
    var o1 := AdjustNode(o, d).value;
    o2 := LocalReferences(o1, d).value;
    t := PreventAll(o2, base, frags).value;
    Prepared(o, d, names, o1, o2);
    if Refers(Fixups(o), o, s, y) && PhandleAt(o, y) != 0 {
      PreparedRefs(o, d, names, o1, o2, s, y);
    }
    PreventAllKeeps(o2, base, frags, o2, d, names, s, y);
  }

  /** A node at which base and overlay meet carries the base's phandle. */
  lemma MetPhandle(t: Tree, o2: Tree, o: Tree, base: Tree, frags: seq<Fragment>, d: u32, names: set<bytes>, i: nat,
                   g: Address, p: bytes)
    requires Between(t, o2, d, names) && AllTaken(t, base, frags, o2, names) && FragmentsOk(frags, names)
    requires i < |frags| && Known(g, names) && PhandleAt(base, g) != 0 && IsPhandleName(p) && Writes(t, frags[i], g, p)
    ensures Val(t, Origin(frags[i], g), p) == Some(Enc32(PhandleAt(base, g)))
  {
    var fr := frags[i];
    var r := g[|fr.target|..];
    var a := Origin(fr, g);
    assert g == fr.target + r && Known(r, names);
    assert Known(Source(fr), names);
    KnownJoin(Source(fr), r, names);
    assert FragmentTaken(t, base, fr, o2, names);
    assert Carried(t, a) && OldOrBase(t, o2, d, a);
    assert PhandleAt(o2, Source(fr) + r) != 0;
  }

  /** Every node of the base that had a phandle keeps it. */
  lemma BasePhandlesKept(base: Tree, o: Tree, frags: seq<Fragment>, names: set<bytes>, g: Address)
    requires WellFormed(o, names) && NamesIn(base, names) && FragmentsOk(frags, names) && Apply(base, o, frags).Ok?
    requires Known(g, names) && Carried(base, g) && PhandleAt(base, g) != 0
    ensures PhandleAt(Apply(base, o, frags).value, g) == PhandleAt(base, g)
  {
    var w := PhandleAt(base, g);
    var o2, t := PassesDone(base, o, frags, names, Slot(g, PHANDLE, 0), g);
    forall i, p | 0 <= i < |frags| && IsPhandleName(p) && Writes(t, frags[i], g, p)
      ensures Val(t, Origin(frags[i], g), p) == Some(Enc32(w))
    {
      MetPhandle(t, o2, o, base, frags, MaxPhandle(base), names, i, g, p);
    }
    MergedPhandle(base, t, frags, names, g, w, if Val(base, g, PHANDLE).Some? then PHANDLE else LINUX_PHANDLE);
  }

  /**
   * References survive: a word listed by the fixups of fragment i that named the node y of fragment j names, in the
   * merged tree, the node that y has become. The property must not be overridden by a later fragment, and no other
   * node with a phandle may fall on the same new node.
   */
  lemma ReferencesSurvive(base: Tree, o: Tree, frags: seq<Fragment>, names: set<bytes>,
                          i: nat, j: nat, g: Address, h: Address, prop: bytes, k: nat)
    requires WellFormed(o, names) && NamesIn(base, names) && FragmentsOk(frags, names) && Apply(base, o, frags).Ok?
    requires forall a :: Known(a, names) ==> Carried(base, a)
    requires i < |frags| && j < |frags| && Known(g, names) && Known(h, names)
    requires Below(frags[i].target, g) && Below(frags[j].target, h)
    requires Refers(Fixups(o), o, Slot(Origin(frags[i], g), prop, k), Origin(frags[j], h))
    requires PhandleAt(o, Origin(frags[j], h)) != 0
    requires forall m :: i < m < |frags| ==> !Writes(o, frags[m], g, prop)
    requires forall m ::
              0 <= m < |frags| && m != j && Below(frags[m].target, h) && PhandleAt(o, Origin(frags[m], h)) != 0 ==>
               PhandleAt(base, h) != 0
    ensures var merged := Apply(base, o, frags).value;
      var off := Dec32(Val(Fixups(o), Origin(frags[i], g), prop).value, 4 * k);
      && Val(merged, g, prop).Some? && off + 4 <= |Val(merged, g, prop).value|
      && PhandleAt(merged, h) != 0 && Dec32(Val(merged, g, prop).value, off) == PhandleAt(merged, h)
  {
    var s, y := Slot(Origin(frags[i], g), prop, k), Origin(frags[j], h);
    OriginKnown(frags, names, i, g);
    OriginKnown(frags, names, j, h);
    var o2, t := PassesDone(base, o, frags, names, s, y);
    SlotLands(base, t, o2, o, frags, names, i, g, prop);
    PhandleLands(base, t, o2, o, frags, names, j, h);
  }

  lemma OriginKnown(frags: seq<Fragment>, names: set<bytes>, i: nat, g: Address)
    requires FragmentsOk(frags, names) && i < |frags| && Below(frags[i].target, g) && Known(g, names)
    ensures Known(Origin(frags[i], g), names)
  {
    assert Known(Source(frags[i]), names) && Known(g[|frags[i].target|..], names);
    KnownJoin(Source(frags[i]), g[|frags[i].target|..], names);
  }

  /** A value of fragment i that no later fragment overrides lands in the base. */
  lemma SlotLands(base: Tree, t: Tree, o2: Tree, o: Tree, frags: seq<Fragment>, names: set<bytes>, i: nat, g: Address,
                  prop: bytes)
    requires Mergeable(base, t, frags, names) && Between(t, o2, MaxPhandle(base), names) && SameShape(o2, o, names)
    requires i < |frags| && Known(g, names) && Below(frags[i].target, g) && Val(o, Origin(frags[i], g), prop).Some?
    requires forall m :: i < m < |frags| ==> !Writes(o, frags[m], g, prop)
    ensures Val(MergeAll(base, t, frags).value, g, prop) == Val(t, Origin(frags[i], g), prop)
  {
    forall m | 0 <= m < |frags| ensures Writes(t, frags[m], g, prop) == Writes(o, frags[m], g, prop) {
      if Below(frags[m].target, g) {
        OriginKnown(frags, names, m, g);
        SameSome(t, o2, o, MaxPhandle(base), names, Origin(frags[m], g), prop);
      }
    }
    MergeLast(base, t, frags, names, g, prop, i);
  }

  lemma SameSome(t: Tree, o2: Tree, o: Tree, d: u32, names: set<bytes>, a: Address, prop: bytes)
    requires Between(t, o2, d, names) && SameShape(o2, o, names) && Known(a, names)
    ensures Val(t, a, prop).Some? == Val(o, a, prop).Some?
  {
    assert SameLength(Val(t, a, prop), Val(o2, a, prop)) && SameLength(Val(o2, a, prop), Val(o, a, prop));
  }

  /** The phandle of a node of fragment j lands in the base. */
  lemma PhandleLands(base: Tree, t: Tree, o2: Tree, o: Tree, frags: seq<Fragment>, names: set<bytes>, j: nat,
                     h: Address)
    requires Mergeable(base, t, frags, names) && Between(t, o2, MaxPhandle(base), names) && SameShape(o2, o, names)
    requires AllTaken(t, base, frags, o2, names) && Carried(base, h)
    requires forall a :: Known(a, names) ==> (PhandleAt(o2, a) == 0 <==> PhandleAt(o, a) == 0)
    requires j < |frags| && Known(h, names) && Below(frags[j].target, h) && PhandleAt(o, Origin(frags[j], h)) != 0
    requires forall m ::
              0 <= m < |frags| && m != j && Below(frags[m].target, h) && PhandleAt(o, Origin(frags[m], h)) != 0 ==>
               PhandleAt(base, h) != 0
    ensures PhandleAt(MergeAll(base, t, frags).value, h) == PhandleAt(t, Origin(frags[j], h)) != 0
  {
    var y := Origin(frags[j], h);
    var w := PhandleAt(t, y);
    var d := MaxPhandle(base);
    OriginKnown(frags, names, j, h);
    var p := CarriedSome(t, o2, d, names, y);
    if PhandleAt(base, h) != 0 {
      MetPhandle(t, o2, o, base, frags, d, names, j, h, p);
      SamePhandle(t, y, p, PhandleAt(base, h), w);
    }
    forall m, q | 0 <= m < |frags| && IsPhandleName(q) && Writes(t, frags[m], h, q)
      ensures Val(t, Origin(frags[m], h), q) == Some(Enc32(w))
    {
      OriginKnown(frags, names, m, h);
      if PhandleAt(base, h) != 0 {
        MetPhandle(t, o2, o, base, frags, d, names, m, h, q);
      } else {
        WriterIsOne(t, o2, o, d, names, Origin(frags[m], h), q);
      }
    }
    MergedPhandle(base, t, frags, names, h, w, p);
  }

  lemma CarriedSome(t: Tree, o2: Tree, d: u32, names: set<bytes>, y: Address) returns (p: bytes)
    requires Between(t, o2, d, names) && Known(y, names) && PhandleAt(o2, y) != 0
    ensures IsPhandleName(p) && PhandleAt(t, y) != 0 && Val(t, y, p) == Some(Enc32(PhandleAt(t, y)))
  {
    assert OldOrBase(t, o2, d, y) && Carried(t, y);
    p := if Val(t, y, PHANDLE).Some? then PHANDLE else LINUX_PHANDLE;
  }

  lemma SamePhandle(t: Tree, y: Address, p: bytes, x: u32, w: u32)
    requires Val(t, y, p) == Some(Enc32(x)) && Val(t, y, p) == Some(Enc32(w))
    ensures x == w
  {
    EncWord(x);
    EncWord(w);
  }

  /** A node with a phandle property carries a phandle, in the overlay as it was, too. */
  lemma WriterIsOne(t: Tree, o2: Tree, o: Tree, d: u32, names: set<bytes>, a: Address, q: bytes)
    requires Between(t, o2, d, names) && Known(a, names) && IsPhandleName(q) && Val(t, a, q).Some?
    requires PhandleAt(o2, a) == 0 <==> PhandleAt(o, a) == 0
    ensures PhandleAt(o, a) != 0 && Val(t, a, q) == Some(Enc32(PhandleAt(t, a)))
  {
    assert OldOrBase(t, o2, d, a) && Carried(t, a);
  }

  // ---------- The node that a reference resolves to ----------

  /** The last fragment before number n that has a value for a property of the node at z, or -1. */
  lemma LastWriter(t: Tree, frags: seq<Fragment>, z: Address, p: bytes, n: nat) returns (m: int)
    requires n <= |frags|
    ensures -1 <= m < n && (m >= 0 ==> Writes(t, frags[m], z, p))
    ensures forall i :: m < i < n ==> !Writes(t, frags[i], z, p)
  {
    if n == 0 {
      m := -1;
    } else if Writes(t, frags[n - 1], z, p) {
      m := n - 1;
    } else {
      m := LastWriter(t, frags, z, p, n - 1);
    }
  }

  /** The phandle that a node of fragment m has after the passes. */
  lemma TakenAt(t: Tree, o2: Tree, base: Tree, frags: seq<Fragment>, names: set<bytes>, m: nat, z: Address)
    requires AllTaken(t, base, frags, o2, names) && m < |frags| && Below(frags[m].target, z) && Known(z, names)
    ensures PhandleAt(t, Origin(frags[m], z)) == After(base, z, o2, Origin(frags[m], z))
  {
    var fr := frags[m];
    var r := z[|fr.target|..];
    assert z == fr.target + r && Known(r, names);
    assert FragmentTaken(t, base, fr, o2, names);
    var was := PhandleAt(o2, Source(fr) + r);
  }

  lemma SameOrigin(frags: seq<Fragment>, names: set<bytes>, i: nat, j: nat, z: Address, h: Address)
    requires FragmentsOk(frags, names) && i < |frags| && j < |frags| && Below(frags[i].target, z)
    requires Below(frags[j].target, h)
    requires Origin(frags[i], z) == Origin(frags[j], h)
    ensures z == h
  {
    var a, b := Origin(frags[i], z), Origin(frags[j], h);
    assert a[0] == frags[i].name && b[0] == frags[j].name;
    assert a[2..] == z[|frags[i].target|..] && b[2..] == h[|frags[j].target|..];
    assert z == frags[i].target + a[2..] && h == frags[j].target + b[2..];
  }

  /** A new phandle of the merged tree was carried by a node of the overlay. */
  lemma PhandleFrom(base: Tree, t: Tree, o2: Tree, frags: seq<Fragment>, names: set<bytes>, z: Address) returns (m: nat)
    requires Mergeable(base, t, frags, names) && Between(t, o2, MaxPhandle(base), names) && FragmentsOk(frags, names)
    requires AllTaken(t, base, frags, o2, names) && Known(z, names) && Carried(base, z) && PhandleAt(base, z) == 0
    requires PhandleAt(MergeAll(base, t, frags).value, z) != 0
    ensures m < |frags| && Below(frags[m].target, z)
    ensures PhandleAt(MergeAll(base, t, frags).value, z) == PhandleAt(o2, Origin(frags[m], z))
  {
    var merged := MergeAll(base, t, frags).value;
    var p := if WordProp(NodeBy(merged, z).value, PHANDLE).Some? then PHANDLE else LINUX_PHANDLE;
    assert Val(merged, z, p).Some? && PhandleAt(merged, z) == Dec32(Val(merged, z, p).value, 0);
    assert Val(base, z, p).None?;
    var l := LastWriter(t, frags, z, p, |frags|);
    if l < 0 {
      MergeKeeps(base, t, frags, names, z, p);
    } else {
      m := l;
      MergeLast(base, t, frags, names, z, p, m);
      OriginKnown(frags, names, m, z);
      assert Carried(t, Origin(frags[m], z));
      EncWord(PhandleAt(t, Origin(frags[m], z)));
      TakenAt(t, o2, base, frags, names, m, z);
    }
  }

  /**
   * In the merged tree, the phandle of what the node y of fragment j has become belongs to that node only, if the
   * phandles of the base are distinct. So looking it up leads there.
   */
  lemma ResolvesOnly(base: Tree, o: Tree, frags: seq<Fragment>, names: set<bytes>, j: nat, h: Address, z: Address)
    requires WellFormed(o, names) && NamesIn(base, names) && FragmentsOk(frags, names) && Apply(base, o, frags).Ok?
    requires forall a :: Known(a, names) ==> Carried(base, a)
    requires forall a, b :: Known(a, names) && Known(b, names) && a != b && PhandleAt(base, a) != 0 ==>
               PhandleAt(base, a) != PhandleAt(base, b)
    requires j < |frags| && Known(h, names) && Known(z, names) && Below(frags[j].target, h)
    requires PhandleAt(o, Origin(frags[j], h)) != 0
    requires forall m ::
              0 <= m < |frags| && m != j && Below(frags[m].target, h) && PhandleAt(o, Origin(frags[m], h)) != 0 ==>
               PhandleAt(base, h) != 0
    requires PhandleAt(Apply(base, o, frags).value, z) == PhandleAt(Apply(base, o, frags).value, h)
    ensures z == h
  {
    var y, d := Origin(frags[j], h), MaxPhandle(base);
    OriginKnown(frags, names, j, h);
    var o2, t := PassesDone(base, o, frags, names, Slot(y, PHANDLE, 0), y);
    PhandleLands(base, t, o2, o, frags, names, j, h);
    TakenAt(t, o2, base, frags, names, j, h);
    MaxBounds(base, h);
    MaxBounds(base, z);
    if PhandleAt(base, z) != 0 {
      BasePhandlesKept(base, o, frags, names, z);
    } else {
      var m := PhandleFrom(base, t, o2, frags, names, z);
      OriginKnown(frags, names, m, z);
      NewPhandle(o2, d, names, Origin(frags[m], z), y, After(base, h, o2, y), PhandleAt(base, h));
      SameOrigin(frags, names, m, j, z, h);
    }
  }

  /** Equal new phandles are carried by the same node. */
  lemma NewPhandle(o2: Tree, d: u32, names: set<bytes>, a: Address, y: Address, w: u32, x: u32)
    requires Fresh(o2, d, names) && Known(a, names) && Known(y, names) && PhandleAt(o2, a) == w != 0
    requires x <= d && w == if x != 0 && PhandleAt(o2, y) != 0 then x else PhandleAt(o2, y)
    ensures a == y
  {
  }
}
