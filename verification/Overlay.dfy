/** libfdt/fdt_overlay.c: phandles and references, on trees. */
module Overlay {
  // Base and overlay are the bodies of their root nodes. A node is named by its address, the sequence of
  // node names that leads to it.

  import opened Bytes
  import opened Tags
  import opened Walk
  import opened Trees
  import opened Merging

  const PHANDLE: bytes := [0x70, 0x68, 0x61, 0x6e, 0x64, 0x6c, 0x65]  // "phandle"
  const LINUX_PHANDLE: bytes := [0x6c, 0x69, 0x6e, 0x75, 0x78, 0x2c] + PHANDLE  // "linux,phandle"
  const LOCAL_FIXUPS: bytes :=  // "__local_fixups__"
    [0x5f, 0x5f, 0x6c, 0x6f, 0x63, 0x61, 0x6c, 0x5f, 0x66, 0x69, 0x78, 0x75, 0x70, 0x73, 0x5f, 0x5f]
  const OVERLAY: bytes := [0x5f, 0x5f, 0x6f, 0x76, 0x65, 0x72, 0x6c, 0x61, 0x79, 0x5f, 0x5f]  // "__overlay__"

  const MAX_U32: u32 := 0xffff_ffff

  datatype Result<+T> = Ok(value: T) | Err(error: int)

  type Address = seq<bytes>

  // ---------- Reading by address ----------

  /** The body of the node at address a. */
  ghost function NodeBy(t: Tree, a: Address): Option<Tree>
    decreases |a|
  {
    if a == [] then Some(t)
    else
      match Kid(t, a[0])
      case None => None
      case Some(b) => NodeBy(b, a[1..])
  }

  /** The value of a property of the node at address a. */
  ghost function Val(t: Tree, a: Address, name: bytes): Option<bytes> {
    match NodeBy(t, a)
    case None => None
    case Some(b) => Get(b, name)
  }

  /** The word in a property of 4 bytes. */
  function WordProp(b: Tree, name: bytes): Option<u32> {
    match Get(b, name)
    case None => None
    case Some(v) => if |v| == 4 then Some(Dec32(v, 0)) else None
  }

  /** fdt_get_phandle */
  function Phandle(b: Tree): u32 {
    match WordProp(b, PHANDLE)
    case Some(w) => w
    case None => WordProp(b, LINUX_PHANDLE).GetOr(0)
  }

  ghost function PhandleAt(t: Tree, a: Address): u32 {
    match NodeBy(t, a)
    case None => 0
    case Some(b) => Phandle(b)
  }

  // ---------- Names ----------

  /** No name abbreviates another one: a node answers to its own name only. */
  ghost predicate Uniform(names: set<bytes>) {
    forall a, b :: a in names && b in names && a != b ==> Unlike(a, b)
  }

  /** All nodes below t have names in names. */
  ghost predicate NamesIn(t: Tree, names: set<bytes>) {
    match t
    case Nil => true
    case PropT(_, _, rest) => NamesIn(rest, names)
    case NodeT(name, body, rest) => name in names && NamesIn(body, names) && NamesIn(rest, names)
  }

  ghost predicate Known(a: Address, names: set<bytes>) {
    forall i :: 0 <= i < |a| ==> a[i] in names
  }

  lemma {:induction false} FoundExact(t: Tree, names: set<bytes>, name: bytes)
    requires Uniform(names) && NamesIn(t, names) && name in names && ChildAt(t, name).Some?
    ensures TreeAt(t, ChildAt(t, name).value).name == name
    ensures NamesIn(BodyAt(t, ChildAt(t, name).value), names)
  {
    if t.NodeT? && NameEq(t.name, name) {
      assert t.name in names && name in names;
    } else {
      FoundExact(t.rest, names, name);
      NextBody(t, ChildAt(t.rest, name).value, Nil);
    }
  }

  /** t with the body of its child called name replaced. */
  ghost function PutKid(t: Tree, name: bytes, x: Tree): Tree {
    match ChildAt(t, name)
    case None => t
    case Some(c) => WithBody(t, c, x)
  }

  lemma {:induction false} PutKidNames(t: Tree, names: set<bytes>, name: bytes, x: Tree)
    requires NamesIn(t, names) && NamesIn(x, names)
    ensures NamesIn(PutKid(t, name, x), names)
  {
    if ChildAt(t, name).Some? && !(t.NodeT? && NameEq(t.name, name)) {
      PutKidNames(t.rest, names, name, x);
      NextBody(t, ChildAt(t.rest, name).value, x);
    }
  }

  /** Replacing the body of a child: that child, the others, and the properties. */
  lemma PutKidMeans(t: Tree, names: set<bytes>, name: bytes, x: Tree, other: bytes)
    requires Uniform(names) && NamesIn(t, names) && name in names && other in names && Kid(t, name).Some?
    ensures Kid(PutKid(t, name, x), other) == if other == name then Some(x) else Kid(t, other)
  {
    FoundExact(t, names, name);
    var unknown := name + [0];
    if other != name {
      if NameEq(name, other) {
        AnswersOne(name, name, other);
      }
      assert name[..|name|] == name;
      OtherKid(t, name, x, other);
    } else {
      assert !NameEq(name, unknown);
      OtherKid(t, name, x, unknown);
    }
  }

  lemma PutKidGet(t: Tree, name: bytes, x: Tree, prop: bytes)
    ensures Get(PutKid(t, name, x), prop) == Get(t, prop)
  {
    if ChildAt(t, name).Some? {
      ChildBodyGet(t, name, x, prop);
    }
  }

  lemma KidNames(t: Tree, names: set<bytes>, name: bytes)
    requires Uniform(names) && NamesIn(t, names) && name in names && Kid(t, name).Some?
    ensures NamesIn(Kid(t, name).value, names)
  {
    FoundExact(t, names, name);
  }

  // ---------- Shifting phandles ----------

  /** The number of entries of t, at all depths. */
  function Entries(t: Tree): nat {
    match t
    case Nil => 0
    case PropT(_, _, rest) => 1 + Entries(rest)
    case NodeT(_, body, rest) => 1 + Entries(body) + Entries(rest)
  }

  lemma {:induction false} ReplaceEntries(t: Tree, name: bytes, value: bytes)
    ensures Entries(Replace(t, name, value)) == Entries(t)
  {
    if t.PropT? {
      ReplaceEntries(t.rest, name, value);
    }
  }

  /** overlay_phandle_add_offset on the properties of one node; an absent property is no error for the caller. */
  function AddOffset(b: Tree, name: bytes, delta: u32): (r: Result<Tree>)
    ensures r.Ok? ==> Entries(r.value) == Entries(b)
  {
    match Get(b, name)
    case None => Ok(b)
    case Some(v) =>
      if |v| != 4 then Err(-BADPHANDLE)
      else
        var val := Dec32(v, 0);
        if U32(val + delta) < val || U32(val + delta) == MAX_U32 then Err(-NOPHANDLES)
        else
          ReplaceEntries(b, name, Enc32(U32(val + delta)));
          Ok(Replace(b, name, Enc32(U32(val + delta))))
  }

  /** overlay_adjust_node_phandles: the phandles of the node, then those below it. */
  function AdjustNode(b: Tree, delta: u32): Result<Tree>
    decreases Entries(b), 1
  {
    match AddOffset(b, PHANDLE, delta)
    case Err(e) => Err(e)
    case Ok(b1) =>
      match AddOffset(b1, LINUX_PHANDLE, delta)
      case Err(e) => Err(e)
      case Ok(b2) => AdjustKids(b2, delta)
  }

  function AdjustKids(b: Tree, delta: u32): Result<Tree>
    decreases Entries(b), 0
  {
    match b
    case Nil => Ok(Nil)
    case PropT(name, value, rest) =>
      (match AdjustKids(rest, delta)
       case Err(e) => Err(e)
       case Ok(r) => Ok(PropT(name, value, r)))
    case NodeT(name, body, rest) =>
      match AdjustNode(body, delta)
      case Err(e) => Err(e)
      case Ok(x) =>
        match AdjustKids(rest, delta)
        case Err(e) => Err(e)
        case Ok(r) => Ok(NodeT(name, x, r))
  }

  /** What the shift does to a property. */
  function Shifted(v: Option<bytes>, delta: u32): Option<bytes> {
    match v
    case None => None
    case Some(x) => if |x| == 4 then Some(Enc32(U32(Dec32(x, 0) + delta))) else None
  }

  /** The sum of two words has not wrapped around when it is not below one of them. */
  lemma SumOk(x: u32, y: u32)
    ensures U32(x + y) >= x <==> x + y < TWO_32
  {
    U32Wraps(x + y);
  }

  lemma U32Wraps(x: int)
    requires 0 <= x < 2 * TWO_32
    ensures U32(x) == if x < TWO_32 then x else x - TWO_32
  {
  }

  lemma AddOffsetGet(b: Tree, name: bytes, delta: u32, other: bytes)
    requires AddOffset(b, name, delta).Ok?
    ensures Get(AddOffset(b, name, delta).value, other) == if other ==
              name then Shifted(Get(b, name), delta) else Get(b, other)
    ensures Children(AddOffset(b, name, delta).value) == Children(b)
    ensures Get(b, name).Some? ==> |Get(b, name).value| == 4 && Dec32(Get(b, name).value, 0) + delta < MAX_U32
  {
    if Get(b, name).Some? && |Get(b, name).value| == 4 {
      var val := Dec32(Get(b, name).value, 0);
      ReplaceMeans(b, name, Enc32(U32(val + delta)), other);
      SumOk(val, delta);
    }
  }

  lemma {:induction false} AdjustKidsMeans(b: Tree, delta: u32, name: bytes)
    requires AdjustKids(b, delta).Ok?
    ensures Get(AdjustKids(b, delta).value, name) == Get(b, name)
    ensures match Kid(b, name)
      case None => Kid(AdjustKids(b, delta).value, name).None?
      case Some(x) =>
        AdjustNode(x, delta).Ok? && Kid(AdjustKids(b, delta).value, name) == Some(AdjustNode(x, delta).value)
    decreases b
  {
    var r := AdjustKids(b, delta).value;
    if b != Nil {
      AdjustKidsMeans(b.rest, delta, name);
      if !(b.NodeT? && NameEq(b.name, name)) {
        KidNext(b, name);
        KidNext(r, name);
      }
    }
  }

  /** All phandles of the tree are shifted, without wrapping around; nothing else changes. */
  lemma {:induction false} AdjustVal(b: Tree, delta: u32, a: Address, name: bytes)
    requires AdjustNode(b, delta).Ok?
    ensures NodeBy(AdjustNode(b, delta).value, a).Some? == NodeBy(b, a).Some?
    ensures Val(AdjustNode(b, delta).value, a, name) ==
            if name == PHANDLE || name == LINUX_PHANDLE then Shifted(Val(b, a, name), delta) else Val(b, a, name)
    ensures (name == PHANDLE || name == LINUX_PHANDLE) && Val(b, a, name).Some? ==>
              |Val(b, a, name).value| == 4 && Dec32(Val(b, a, name).value, 0) + delta < MAX_U32
    decreases |a|
  {
    var b1 := AddOffset(b, PHANDLE, delta).value;
    var b2 := AddOffset(b1, LINUX_PHANDLE, delta).value;
    Distinct();
    if a == [] {
      AddOffsetGet(b, PHANDLE, delta, name);
      AddOffsetGet(b, PHANDLE, delta, LINUX_PHANDLE);
      AddOffsetGet(b1, LINUX_PHANDLE, delta, name);
      AdjustKidsMeans(b2, delta, name);
    } else {
      AddOffsetGet(b, PHANDLE, delta, name);
      AddOffsetGet(b1, LINUX_PHANDLE, delta, name);
      KidOfChildren(b2, b, a[0]);
      AdjustKidsMeans(b2, delta, a[0]);
      match Kid(b, a[0])
      case None =>
      case Some(x) => AdjustVal(x, delta, a[1..], name);
    }
  }

  lemma Distinct()
    ensures PHANDLE != LINUX_PHANDLE
  {
    assert |PHANDLE| != |LINUX_PHANDLE|;
  }

  // ---------- Slots ----------

  /** v with the word at off replaced. */
  function SetWord(v: bytes, off: nat, w: u32): (r: bytes)
    requires off + 4 <= |v|
    ensures |r| == |v|
  {
    v[..off] + Enc32(w) + v[off + 4..]
  }

  lemma SetWordAt(v: bytes, off: nat, w: u32, other: nat)
    requires off + 4 <= |v| && other + 4 <= |v| && (other == off || other + 4 <= off || off + 4 <= other)
    ensures Dec32(SetWord(v, off, w), other) == if other == off then w else Dec32(v, other)
  {
    var r := SetWord(v, off, w);
    if other == off {
      assert r[off..off + 4] == Enc32(w);
      DecAt(r, off, w);
    }
  }

  /** The loop over the offsets listed by a fixup property, from number i on. Offsets have to lie in the value. */
  function MapWords(v: bytes, offs: bytes, i: nat, g: u32 -> u32): (r: bytes)
    ensures |r| == |v|
    decreases |offs| - 4 * i
  {
    if 4 * i + 4 > |offs| then v
    else
      var off := Dec32(offs, 4 * i);
      if off + 4 > |v| then v
      else MapWords(SetWord(v, off, g(Dec32(v, off))), offs, i + 1, g)
  }

  /** The offsets listed by offs lie in a value of n bytes. */
  ghost predicate SlotsIn(offs: bytes, n: nat) {
    forall i: nat :: 4 * i + 4 <= |offs| ==> Dec32(offs, 4 * i) + 4 <= n
  }

  /** They do not overlap, either. */
  ghost predicate SlotsOk(offs: bytes, n: nat) {
    && SlotsIn(offs, n)
    && (forall i: nat, j: nat :: 4 * i + 4 <= |offs| && 4 * j + 4 <= |offs| && i != j ==>
          Dec32(offs, 4 * i) + 4 <= Dec32(offs, 4 * j) || Dec32(offs, 4 * j) + 4 <= Dec32(offs, 4 * i))
  }

  /** Every listed word has been mapped once. */
  lemma {:induction false} MapWordsAt(v: bytes, offs: bytes, i: nat, g: u32 -> u32, k: nat)
    requires SlotsOk(offs, |v|) && 4 * k + 4 <= |offs| && 4 * i <= |offs| + 3
    ensures var off := Dec32(offs, 4 * k);
      off + 4 <= |v| && Dec32(MapWords(v, offs, i, g), off) == if i <= k then g(Dec32(v, off)) else Dec32(v, off)
    decreases |offs| - 4 * i
  {
    hide Dec32;
    assert Dec32(offs, 4 * k) + 4 <= |v|;
    if 4 * i + 4 <= |offs| {
      var off := Dec32(offs, 4 * i);
      var u := SetWord(v, off, g(Dec32(v, off)));
      SetWordAt(v, off, g(Dec32(v, off)), Dec32(offs, 4 * k));
      MapWordsAt(u, offs, i + 1, g, k);
    }
  }

  /** The loop over the properties of a fixup node. */
  function MapProps(t: Tree, f: Tree, g: u32 -> u32): Result<Tree>
    decreases f
  {
    if !f.PropT? then Ok(t)
    else if |f.value| % 4 != 0 then Err(-BADOVERLAY)
    else
      match Get(t, f.name)
      case None => Err(-BADOVERLAY)
      case Some(v) => MapProps(Replace(t, f.name, MapWords(v, f.value, 0, g)), f.rest, g)
  }

  /**
   * overlay_update_local_node_references and overlay_update_node_conflicting_references: the words of t that the
   * fixup body f lists are mapped.
   */
  ghost function MapNode(t: Tree, f: Tree, g: u32 -> u32): Result<Tree>
    decreases f, 1
  {
    match MapProps(t, f, g)
    case Err(e) => Err(e)
    case Ok(t1) => MapKids(t1, f, g)
  }

  ghost function MapKids(t: Tree, f: Tree, g: u32 -> u32): Result<Tree>
    decreases f, 0
  {
    match f
    case Nil => Ok(t)
    case PropT(_, _, rest) => MapKids(t, rest, g)
    case NodeT(name, body, rest) =>
      match Kid(t, name)
      case None => Err(-BADOVERLAY)
      case Some(b) =>
        match MapNode(b, body, g)
        case Err(e) => Err(e)
        case Ok(x) => MapKids(PutKid(t, name, x), rest, g)
  }

  /** The property names of every node are distinct, and so are the names of its children. */
  ghost predicate Plain(t: Tree) {
    match t
    case Nil => true
    case PropT(name, _, rest) => Get(rest, name).None? && Plain(rest)
    case NodeT(name, body, rest) => NoKid(rest, name) && Plain(body) && Plain(rest)
  }

  /** No child is called name. */
  ghost predicate NoKid(t: Tree, name: bytes) {
    match t
    case Nil => true
    case PropT(_, _, rest) => NoKid(rest, name)
    case NodeT(n, _, rest) => n != name && NoKid(rest, name)
  }

  lemma {:induction false} NoKidMeans(t: Tree, names: set<bytes>, name: bytes)
    requires Uniform(names) && NamesIn(t, names) && name in names
    ensures NoKid(t, name) <==> Kid(t, name).None?
  {
    match t
    case Nil =>
    case PropT(_, _, rest) =>
      NoKidMeans(rest, names, name);
      KidNext(t, name);
    case NodeT(n, _, rest) =>
      NoKidMeans(rest, names, name);
      if n == name {
        assert name[..|name|] == name;
      } else {
        assert Unlike(n, name);
        KidNext(t, name);
      }
  }

  /** What the fixup property offs does to the value v. */
  function Mapped(v: Option<bytes>, offs: Option<bytes>, g: u32 -> u32): Option<bytes> {
    if v.Some? && offs.Some? then Some(MapWords(v.value, offs.value, 0, g)) else v
  }

  lemma {:induction false} MapPropsMeans(t: Tree, f: Tree, g: u32 -> u32, name: bytes)
    requires Plain(f) && MapProps(t, f, g).Ok?
    ensures Get(MapProps(t, f, g).value, name) == Mapped(Get(t, name), Get(f, name), g)
    ensures Get(f, name).Some? ==> Get(t, name).Some? && |Get(f, name).value| % 4 == 0
    ensures Children(MapProps(t, f, g).value) == Children(t)
    decreases f
  {
    if f.PropT? {
      var x := MapWords(Get(t, f.name).value, f.value, 0, g);
      ReplaceMeans(t, f.name, x, name);
      MapPropsMeans(Replace(t, f.name, x), f.rest, g, name);
    }
  }

  lemma {:induction false} MapPropsNames(t: Tree, f: Tree, g: u32 -> u32, names: set<bytes>)
    requires NamesIn(t, names) && MapProps(t, f, g).Ok?
    ensures NamesIn(MapProps(t, f, g).value, names)
    decreases f
  {
    if f.PropT? {
      var x := MapWords(Get(t, f.name).value, f.value, 0, g);
      ReplaceNames(t, f.name, x, names);
      MapPropsNames(Replace(t, f.name, x), f.rest, g, names);
    }
  }

  lemma {:induction false} ReplaceNames(t: Tree, name: bytes, value: bytes, names: set<bytes>)
    ensures NamesIn(Replace(t, name, value), names) <==> NamesIn(t, names)
  {
    if t.PropT? {
      ReplaceNames(t.rest, name, value, names);
    }
  }

  lemma {:induction false} MapNames(t: Tree, f: Tree, g: u32 -> u32, names: set<bytes>)
    requires Uniform(names) && NamesIn(t, names) && NamesIn(f, names) && MapNode(t, f, g).Ok?
    ensures NamesIn(MapNode(t, f, g).value, names)
    decreases f, 1
  {
    MapPropsNames(t, f, g, names);
    MapKidsNames(MapProps(t, f, g).value, f, g, names);
  }

  lemma {:induction false} MapKidsNames(t: Tree, f: Tree, g: u32 -> u32, names: set<bytes>)
    requires Uniform(names) && NamesIn(t, names) && NamesIn(f, names) && MapKids(t, f, g).Ok?
    ensures NamesIn(MapKids(t, f, g).value, names)
    decreases f, 0
  {
    match f
    case Nil =>
    case PropT(_, _, rest) => MapKidsNames(t, rest, g, names);
    case NodeT(name, body, rest) =>
      KidNames(t, names, name);
      MapNames(Kid(t, name).value, body, g, names);
      var x := MapNode(Kid(t, name).value, body, g).value;
      PutKidNames(t, names, name, x);
      MapKidsNames(PutKid(t, name, x), rest, g, names);
  }

  /** The children: those with fixups are mapped, the others are kept. */
  lemma {:induction false} MapKidsMeans(t: Tree, f: Tree, g: u32 -> u32, names: set<bytes>, name: bytes)
    requires Uniform(names) && NamesIn(t, names) && NamesIn(f, names) && Plain(f) && name in names
    requires MapKids(t, f, g).Ok?
    ensures match Kid(f, name)
      case None => Kid(MapKids(t, f, g).value, name) == Kid(t, name)
      case Some(fb) =>
        && Kid(t, name).Some? && MapNode(Kid(t, name).value, fb, g).Ok?
        && Kid(MapKids(t, f, g).value, name) == Some(MapNode(Kid(t, name).value, fb, g).value)
    decreases f
  {
    match f
    case Nil =>
    case PropT(_, _, rest) =>
      KidNext(f, name);
      MapKidsMeans(t, rest, g, names, name);
    case NodeT(n, body, rest) =>
      KidNames(t, names, n);
      var x := MapNode(Kid(t, n).value, body, g).value;
      MapNames(Kid(t, n).value, body, g, names);
      PutKidNames(t, names, n, x);
      PutKidMeans(t, names, n, x, name);
      MapKidsMeans(PutKid(t, n, x), rest, g, names, name);
      if n == name {
        assert name[..|name|] == name;
        NoKidMeans(rest, names, name);
      } else {
        assert Unlike(n, name);
        KidNext(f, name);
      }
  }

  lemma {:induction false} MapKidsGet(t: Tree, f: Tree, g: u32 -> u32, prop: bytes)
    requires MapKids(t, f, g).Ok?
    ensures Get(MapKids(t, f, g).value, prop) == Get(t, prop)
    decreases f
  {
    match f
    case Nil =>
    case PropT(_, _, rest) => MapKidsGet(t, rest, g, prop);
    case NodeT(n, body, rest) =>
      var x := MapNode(Kid(t, n).value, body, g).value;
      PutKidGet(t, n, x, prop);
      MapKidsGet(PutKid(t, n, x), rest, g, prop);
  }

  lemma {:induction false} PlainKid(t: Tree, name: bytes)
    requires Plain(t) && Kid(t, name).Some?
    ensures Plain(Kid(t, name).value)
  {
    if !(t.NodeT? && NameEq(t.name, name)) {
      KidNext(t, name);
      PlainKid(t.rest, name);
    }
  }

  /** The pass over the slots maps exactly the values that the fixups list, by address and name. */
  lemma {:induction false} MapVal(t: Tree, f: Tree, g: u32 -> u32, names: set<bytes>, a: Address, name: bytes)
    requires Uniform(names) && NamesIn(t, names) && NamesIn(f, names) && Plain(f) && Known(a, names)
    requires MapNode(t, f, g).Ok?
    ensures NodeBy(MapNode(t, f, g).value, a).Some? == NodeBy(t, a).Some?
    ensures Val(MapNode(t, f, g).value, a, name) == Mapped(Val(t, a, name), Val(f, a, name), g)
    ensures Val(f, a, name).Some? ==> Val(t, a, name).Some? && |Val(f, a, name).value| % 4 == 0
    decreases |a|
  {
    var t1 := MapProps(t, f, g).value;
    MapPropsMeans(t, f, g, name);
    MapPropsNames(t, f, g, names);
    if a == [] {
      MapKidsGet(t1, f, g, name);
    } else {
      MapKidsMeans(t1, f, g, names, a[0]);
      KidOfChildren(t1, t, a[0]);
      if Kid(f, a[0]).Some? {
        KidNames(t, names, a[0]);
        KidNames(f, names, a[0]);
        PlainKid(f, a[0]);
        MapVal(Kid(t, a[0]).value, Kid(f, a[0]).value, g, names, a[1..], name);
      }
    }
  }

  // ---------- Writing by address ----------

  /** t with the body of the node at address a replaced. */
  ghost function SetBy(t: Tree, a: Address, x: Tree): Tree
    decreases |a|
  {
    if a == [] then x
    else
      match Kid(t, a[0])
      case None => t
      case Some(b) => PutKid(t, a[0], SetBy(b, a[1..], x))
  }

  predicate Below(a: Address, b: Address) {
    |a| <= |b| && b[..|a|] == a
  }

  lemma {:induction false} SetByNames(t: Tree, names: set<bytes>, a: Address, x: Tree)
    requires Uniform(names) && NamesIn(t, names) && NamesIn(x, names) && Known(a, names)
    ensures NamesIn(SetBy(t, a, x), names)
    decreases |a|
  {
    if a != [] && Kid(t, a[0]).Some? {
      var b := Kid(t, a[0]).value;
      KidNames(t, names, a[0]);
      SetByNames(b, names, a[1..], x);
      PutKidNames(t, names, a[0], SetBy(b, a[1..], x));
    }
  }

  lemma {:induction false} NodeNames(t: Tree, names: set<bytes>, a: Address)
    requires Uniform(names) && NamesIn(t, names) && Known(a, names) && NodeBy(t, a).Some?
    ensures NamesIn(NodeBy(t, a).value, names)
    decreases |a|
  {
    if a != [] {
      KidNames(t, names, a[0]);
      NodeNames(Kid(t, a[0]).value, names, a[1..]);
    }
  }

  /** Values below the address are those of the new body, the others are kept. */
  lemma {:induction false} SetByVal(t: Tree, names: set<bytes>, a: Address, x: Tree, b: Address, name: bytes)
    requires Uniform(names) && NamesIn(t, names) && NamesIn(x, names) && Known(a, names) && Known(b, names)
    requires NodeBy(t, a).Some?
    ensures Val(SetBy(t, a, x), b, name) == if Below(a, b) then Val(x, b[|a|..], name) else Val(t, b, name)
    ensures NodeBy(SetBy(t, a, x), b).Some? == if Below(a, b) then NodeBy(x, b[|a|..]).Some? else NodeBy(t, b).Some?
    decreases |a|
  {
    if a == [] {
      assert b[0..] == b && b[..0] == [];
    } else {
      var k := Kid(t, a[0]).value;
      var y := SetBy(k, a[1..], x);
      PutKidGet(t, a[0], y, name);
      if b != [] {
        KidNames(t, names, a[0]);
        PutKidMeans(t, names, a[0], y, b[0]);
        if b[0] == a[0] {
          SetByVal(k, names, a[1..], x, b[1..], name);
          BelowTail(a, b);
        }
      }
    }
  }

  lemma BelowTail(a: Address, b: Address)
    requires a != [] && b != [] && a[0] == b[0]
    ensures Below(a, b) <==> Below(a[1..], b[1..])
    ensures Below(a, b) ==> b[|a|..] == b[1..][|a| - 1..]
  {
    if |a| <= |b| {
      assert b[..|a|] == [b[0]] + b[1..][..|a| - 1];
      assert a == [a[0]] + a[1..];
      assert b[..|a|][1..] == b[1..][..|a| - 1];
    }
  }

  /** A node below an address. */
  lemma {:induction false} NodeByJoin(t: Tree, a: Address, b: Address)
    ensures NodeBy(t, a + b) == (match NodeBy(t, a) case None => None case Some(x) => NodeBy(x, b))
    decreases |a|
  {
    if a == [] {
      assert a + b == b;
    } else {
      assert (a + b)[0] == a[0] && (a + b)[1..] == a[1..] + b;
      match Kid(t, a[0])
      case None =>
      case Some(x) => NodeByJoin(x, a[1..], b);
    }
  }

  lemma ValJoin(t: Tree, a: Address, b: Address, name: bytes)
    ensures Val(t, a + b, name) == (match NodeBy(t, a) case None => None case Some(x) => Val(x, b, name))
  {
    NodeByJoin(t, a, b);
  }

  /** The values of a node determine its phandle. */
  lemma PhandleOfVals(s: Tree, a: Address, t: Tree, b: Address)
    requires Val(s, a, PHANDLE) == Val(t, b, PHANDLE) && Val(s, a, LINUX_PHANDLE) == Val(t, b, LINUX_PHANDLE)
    ensures PhandleAt(s, a) == PhandleAt(t, b)
  {
  }

  // ---------- The passes over the references ----------

  function ShiftMap(delta: u32): u32 -> u32 {
    (v: u32) => U32(v + delta)
  }

  function ConflictMap(x: u32, y: u32): u32 -> u32 {
    (v: u32) => if v == y then x else v
  }

  /** overlay_update_local_references */
  ghost function LocalReferences(t: Tree, delta: u32): Result<Tree> {
    match NodeBy(t, [LOCAL_FIXUPS])
    case None => Ok(t)
    case Some(f) => MapNode(t, f, ShiftMap(delta))
  }

  /** overlay_update_local_conflicting_references */
  ghost function ConflictingReferences(t: Tree, fdtPhandle: u32, fdtoPhandle: u32): Result<Tree> {
    match NodeBy(t, [LOCAL_FIXUPS])
    case None => Ok(t)
    case Some(f) => MapNode(t, f, ConflictMap(fdtPhandle, fdtoPhandle))
  }

  /** One property of overlay_adjust_local_conflicting_phandle. */
  function ConflictProp(b: Tree, name: bytes, fdtPhandle: u32): Tree {
    if WordProp(b, name).Some? then Replace(b, name, Enc32(fdtPhandle)) else b
  }

  /** overlay_adjust_local_conflicting_phandle */
  function ConflictingPhandle(b: Tree, fdtPhandle: u32): Tree {
    ConflictProp(ConflictProp(b, PHANDLE, fdtPhandle), LINUX_PHANDLE, fdtPhandle)
  }

  lemma EncWord(w: u32)
    ensures Dec32(Enc32(w), 0) == w
  {
    DecAt(Enc32(w), 0, w);
    assert Enc32(w)[0..4] == Enc32(w);
  }

  /** The phandle properties of the node get the new value, everything else is kept. */
  lemma ConflictMeans(b: Tree, x: u32, name: bytes)
    ensures Get(ConflictingPhandle(b, x), name) ==
            if (name == PHANDLE || name == LINUX_PHANDLE) && WordProp(b, name).Some? then
              Some(Enc32(x)) else Get(b, name)
    ensures Children(ConflictingPhandle(b, x)) == Children(b)
  {
    Distinct();
    var b1 := ConflictProp(b, PHANDLE, x);
    ReplaceMeans(b, PHANDLE, Enc32(x), name);
    ReplaceMeans(b, PHANDLE, Enc32(x), LINUX_PHANDLE);
    ReplaceMeans(b1, LINUX_PHANDLE, Enc32(x), name);
  }

  lemma ConflictNames(b: Tree, x: u32, names: set<bytes>)
    ensures NamesIn(ConflictingPhandle(b, x), names) <==> NamesIn(b, names)
  {
    ReplaceNames(b, PHANDLE, Enc32(x), names);
    ReplaceNames(ConflictProp(b, PHANDLE, x), LINUX_PHANDLE, Enc32(x), names);
  }

  /** The values below a node with changed phandle properties. */
  lemma ConflictVal(b: Tree, x: u32, r: Address, name: bytes)
    ensures NodeBy(ConflictingPhandle(b, x), r).Some? == NodeBy(b, r).Some?
    ensures Val(ConflictingPhandle(b, x), r, name) ==
            if r == [] && (name == PHANDLE || name == LINUX_PHANDLE) && WordProp(b, name).Some? then Some(Enc32(x))
            else Val(b, r, name)
  {
    ConflictMeans(b, x, name);
    if r != [] {
      KidOfChildren(ConflictingPhandle(b, x), b, r[0]);
    }
  }

  /**
   * The two updates for a node of the overlay that carries a phandle and falls on a base node that carries one, too.
   */
  ghost function Resolve(t: Tree, a: Address, fdtPhandle: u32): Result<Tree>
    requires NodeBy(t, a).Some?
  {
    ConflictingReferences(SetBy(t, a, ConflictingPhandle(NodeBy(t, a).value, fdtPhandle)), fdtPhandle, PhandleAt(t, a))
  }

  /**
   * overlay_prevent_phandle_overwrite_node: b is the node of the base, a the address of the node of the overlay t,
   * o the entries of that node (their names are never changed).
   */
  ghost function PreventNode(t: Tree, b: Tree, a: Address, o: Tree): Result<Tree>
    decreases o, 1
  {
    if Phandle(b) != 0 && PhandleAt(t, a) != 0 then
      match Resolve(t, a, Phandle(b))
      case Err(e) => Err(e)
      case Ok(t1) => PreventKids(t1, b, a, o)
    else PreventKids(t, b, a, o)
  }

  ghost function PreventKids(t: Tree, b: Tree, a: Address, o: Tree): Result<Tree>
    decreases o, 0
  {
    match o
    case Nil => Ok(t)
    case PropT(_, _, rest) => PreventKids(t, b, a, rest)
    case NodeT(name, body, rest) =>
      match Kid(b, name)
      case None => PreventKids(t, b, a, rest)
      case Some(x) =>
        match PreventNode(t, x, a + [name], body)
        case Err(e) => Err(e)
        case Ok(t1) => PreventKids(t1, b, a, rest)
  }

  // ---------- Plain trees stay plain ----------

  lemma {:induction false} PlainReplace(t: Tree, name: bytes, value: bytes)
    requires Plain(t)
    ensures Plain(Replace(t, name, value))
  {
    if t.PropT? {
      ReplaceMeans(t.rest, name, value, t.name);
      PlainReplace(t.rest, name, value);
    }
  }

  lemma {:induction false} NoKidPut(t: Tree, name: bytes, x: Tree, other: bytes)
    ensures NoKid(PutKid(t, name, x), other) <==> NoKid(t, other)
  {
    if ChildAt(t, name).Some? && !(t.NodeT? && NameEq(t.name, name)) {
      NextBody(t, ChildAt(t.rest, name).value, x);
      NoKidPut(t.rest, name, x, other);
    }
  }

  lemma {:induction false} PlainPut(t: Tree, name: bytes, x: Tree)
    requires Plain(t) && Plain(x)
    ensures Plain(PutKid(t, name, x))
  {
    if ChildAt(t, name).Some? && !(t.NodeT? && NameEq(t.name, name)) {
      NextBody(t, ChildAt(t.rest, name).value, x);
      PlainPut(t.rest, name, x);
      if t.PropT? {
        PutKidGet(t.rest, name, x, t.name);
      } else {
        NoKidPut(t.rest, name, x, t.name);
      }
    }
  }

  lemma {:induction false} PlainMap(t: Tree, f: Tree, g: u32 -> u32)
    requires Plain(t) && MapNode(t, f, g).Ok?
    ensures Plain(MapNode(t, f, g).value)
    decreases f, 1
  {
    PlainMapProps(t, f, g);
    PlainMapKids(MapProps(t, f, g).value, f, g);
  }

  lemma {:induction false} PlainMapProps(t: Tree, f: Tree, g: u32 -> u32)
    requires Plain(t) && MapProps(t, f, g).Ok?
    ensures Plain(MapProps(t, f, g).value)
    decreases f
  {
    if f.PropT? {
      var x := MapWords(Get(t, f.name).value, f.value, 0, g);
      PlainReplace(t, f.name, x);
      PlainMapProps(Replace(t, f.name, x), f.rest, g);
    }
  }

  lemma {:induction false} PlainMapKids(t: Tree, f: Tree, g: u32 -> u32)
    requires Plain(t) && MapKids(t, f, g).Ok?
    ensures Plain(MapKids(t, f, g).value)
    decreases f, 0
  {
    match f
    case Nil =>
    case PropT(_, _, rest) => PlainMapKids(t, rest, g);
    case NodeT(name, body, rest) =>
      PlainKid(t, name);
      PlainMap(Kid(t, name).value, body, g);
      var x := MapNode(Kid(t, name).value, body, g).value;
      PlainPut(t, name, x);
      PlainMapKids(PutKid(t, name, x), rest, g);
  }

  lemma {:induction false} PlainSet(t: Tree, a: Address, x: Tree)
    requires Plain(t) && Plain(x)
    ensures Plain(SetBy(t, a, x))
    decreases |a|
  {
    if a != [] && Kid(t, a[0]).Some? {
      PlainKid(t, a[0]);
      PlainSet(Kid(t, a[0]).value, a[1..], x);
      PlainPut(t, a[0], SetBy(Kid(t, a[0]).value, a[1..], x));
    }
  }

  lemma {:induction false} PlainNode(t: Tree, a: Address)
    requires Plain(t) && NodeBy(t, a).Some?
    ensures Plain(NodeBy(t, a).value)
    decreases |a|
  {
    if a != [] {
      PlainKid(t, a[0]);
      PlainNode(Kid(t, a[0]).value, a[1..]);
    }
  }

  lemma PlainResolve(t: Tree, a: Address, x: u32, t': Tree)
    requires Plain(t) && NodeBy(t, a).Some? && Resolve(t, a, x) == Ok(t')
    ensures Plain(t')
  {
    var n := NodeBy(t, a).value;
    PlainNode(t, a);
    PlainReplace(n, PHANDLE, Enc32(x));
    PlainReplace(ConflictProp(n, PHANDLE, x), LINUX_PHANDLE, Enc32(x));
    PlainSet(t, a, ConflictingPhandle(n, x));
    var u := SetBy(t, a, ConflictingPhandle(n, x));
    ConflictOf(u, x, PhandleAt(t, a));
    PlainMap(u, Fixups(u), ConflictMap(x, PhandleAt(t, a)));
  }

  /** Adjusting changes no name. */
  lemma {:induction false} AdjustPlain(b: Tree, delta: u32, names: set<bytes>)
    requires Plain(b) && NamesIn(b, names) && AdjustNode(b, delta).Ok?
    ensures Plain(AdjustNode(b, delta).value) && NamesIn(AdjustNode(b, delta).value, names)
    decreases Entries(b), 1
  {
    var b1 := AddOffset(b, PHANDLE, delta).value;
    var b2 := AddOffset(b1, LINUX_PHANDLE, delta).value;
    AddOffsetPlain(b, PHANDLE, delta, names);
    AddOffsetPlain(b1, LINUX_PHANDLE, delta, names);
    AdjustKidsPlain(b2, delta, names);
  }

  lemma AddOffsetPlain(b: Tree, name: bytes, delta: u32, names: set<bytes>)
    requires Plain(b) && NamesIn(b, names) && AddOffset(b, name, delta).Ok?
    ensures Plain(AddOffset(b, name, delta).value) && NamesIn(AddOffset(b, name, delta).value, names)
  {
    if Get(b, name).Some? {
      var v := Enc32(U32(Dec32(Get(b, name).value, 0) + delta));
      PlainReplace(b, name, v);
      ReplaceNames(b, name, v, names);
    }
  }

  lemma {:induction false} AdjustKidsPlain(b: Tree, delta: u32, names: set<bytes>)
    requires Plain(b) && NamesIn(b, names) && AdjustKids(b, delta).Ok?
    ensures Plain(AdjustKids(b, delta).value) && NamesIn(AdjustKids(b, delta).value, names)
    ensures forall name :: NoKid(b, name) ==> NoKid(AdjustKids(b, delta).value, name)
    decreases Entries(b), 0
  {
    match b
    case Nil =>
    case PropT(name, _, rest) =>
      AdjustKidsPlain(rest, delta, names);
      AdjustKidsMeans(rest, delta, name);
    case NodeT(_, body, rest) =>
      AdjustPlain(body, delta, names);
      AdjustKidsPlain(rest, delta, names);
  }

  // ---------- What the passes keep ----------

  /** The fixups of an overlay, or no fixups. */
  ghost function Fixups(t: Tree): Tree {
    NodeBy(t, [LOCAL_FIXUPS]).GetOr(Nil)
  }

  predicate IsPhandleName(name: bytes) {
    name == PHANDLE || name == LINUX_PHANDLE
  }

  /**
   * Well-formed fixups of the overlay t: exact and distinct names, offsets in range that do not overlap, and
   * neither phandles nor the fixups themselves among the places listed.
   */
  ghost predicate FixupsOk(t: Tree, names: set<bytes>) {
    var f := Fixups(t);
    && LOCAL_FIXUPS in names && Plain(f) && NamesIn(f, names) && Kid(f, LOCAL_FIXUPS).None?
    && (forall a, name :: Known(a, names) && Val(f, a, name).Some? ==>
          !IsPhandleName(name) && (Val(t, a, name).Some? ==> SlotsOk(Val(f, a, name).value, |Val(t, a, name).value|)))
  }

  /** The phandle properties of the node at a, if any, all hold its phandle, which is not 0. */
  ghost predicate Carried(t: Tree, a: Address) {
    forall name :: IsPhandleName(name) && Val(t, a, name).Some? ==>
      PhandleAt(t, a) != 0 && Val(t, a, name) == Some(Enc32(PhandleAt(t, a)))
  }

  /** Both absent, or both there with the same length. */
  predicate SameLength(x: Option<bytes>, y: Option<bytes>) {
    x.Some? == y.Some? && (x.Some? ==> |x.value| == |y.value|)
  }

  /** The same nodes and properties with values of the same length. */
  ghost predicate SameShape(t: Tree, o: Tree, names: set<bytes>) {
    && (forall a :: Known(a, names) ==> NodeBy(t, a).Some? == NodeBy(o, a).Some?)
    && (forall a, name :: Known(a, names) ==> SameLength(Val(t, a, name), Val(o, a, name)))
  }

  /** The phandle of the node at a is the one it had in o, or, if it had one, one of the base. */
  ghost predicate OldOrBase(t: Tree, o: Tree, d: u32, a: Address) {
    PhandleAt(t, a) == PhandleAt(o, a) || (PhandleAt(o, a) != 0 && 1 <= PhandleAt(t, a) <= d)
  }

  /** The values of o that are neither phandles nor listed by its fixups are still there. */
  ghost predicate OthersStay(t: Tree, o: Tree, names: set<bytes>) {
    forall a, name ::
      Known(a, names) && !IsPhandleName(name) && Val(Fixups(o), a, name).None? ==> Val(t, a, name) == Val(o, a, name)
  }

  /** The state of the overlay t between the steps that resolve conflicts; o is the overlay before the first one. */
  ghost predicate Between(t: Tree, o: Tree, d: u32, names: set<bytes>) {
    && NamesIn(t, names) && Plain(t) && Fixups(t) == Fixups(o) && SameShape(t, o, names) && OthersStay(t, o, names)
    && (forall a :: Known(a, names) ==> OldOrBase(t, o, d, a) && Carried(t, a))
  }

  /** No two nodes of the overlay carry the same phandle, and all phandles are above those of the base. */
  ghost predicate Fresh(o: Tree, d: u32, names: set<bytes>) {
    && (forall a :: Known(a, names) && PhandleAt(o, a) != 0 ==> PhandleAt(o, a) > d)
    && (forall a, b ::
          Known(a, names) && Known(b, names) && a != b && PhandleAt(o, a) != 0 ==> PhandleAt(o, a) != PhandleAt(o, b))
  }

  ghost predicate Ready(o: Tree, d: u32, names: set<bytes>) {
    Uniform(names) && NamesIn(o, names) && FixupsOk(o, names) && Fresh(o, d, names)
  }

  /** Word number k listed by the fixups for a property. */
  datatype Slot = Slot(node: Address, prop: bytes, k: nat)

  /** The fixups f list the slot s, and t has a word there. */
  ghost predicate Listed(f: Tree, t: Tree, s: Slot) {
    && Val(f, s.node, s.prop).Some? && 4 * s.k + 4 <= |Val(f, s.node, s.prop).value|
    && Val(t, s.node, s.prop).Some?
    && Dec32(Val(f, s.node, s.prop).value, 4 * s.k) + 4 <= |Val(t, s.node, s.prop).value|
  }

  /** The word in slot s. */
  ghost function SlotWord(f: Tree, t: Tree, s: Slot): u32
    requires Listed(f, t, s)
  {
    Dec32(Val(t, s.node, s.prop).value, Dec32(Val(f, s.node, s.prop).value, 4 * s.k))
  }

  /** The word in slot s refers to the node at address y. */
  ghost predicate Refers(f: Tree, t: Tree, s: Slot, y: Address) {
    Listed(f, t, s) && SlotWord(f, t, s) == PhandleAt(t, y)
  }

  /** A pass over the slots maps the word of every slot once. */
  lemma SlotMapped(t: Tree, f: Tree, g: u32 -> u32, names: set<bytes>, s: Slot, t': Tree)
    requires Listed(f, t, s) && SlotsOk(Val(f, s.node, s.prop).value, |Val(t, s.node, s.prop).value|)
    requires Val(t', s.node, s.prop) == Mapped(Val(t, s.node, s.prop), Val(f, s.node, s.prop), g)
    ensures Listed(f, t', s) && SlotWord(f, t', s) == g(SlotWord(f, t, s))
  {
    MapWordsAt(Val(t, s.node, s.prop).value, Val(f, s.node, s.prop).value, 0, g, s.k);
  }

  /** The fixups are not touched by a pass over the slots. */
  lemma FixupsKept(t: Tree, f: Tree, g: u32 -> u32, names: set<bytes>)
    requires Uniform(names) && NamesIn(t, names) && NamesIn(f, names) && Plain(f) && LOCAL_FIXUPS in names
    requires Kid(f, LOCAL_FIXUPS).None? && MapNode(t, f, g).Ok?
    ensures Fixups(MapNode(t, f, g).value) == Fixups(t)
  {
    var t1 := MapProps(t, f, g).value;
    MapPropsMeans(t, f, g, PHANDLE);
    MapPropsNames(t, f, g, names);
    MapKidsMeans(t1, f, g, names, LOCAL_FIXUPS);
    KidOfChildren(t1, t, LOCAL_FIXUPS);
    OneStep(MapNode(t, f, g).value, LOCAL_FIXUPS);
    OneStep(t, LOCAL_FIXUPS);
  }

  lemma OneStep(t: Tree, name: bytes)
    ensures NodeBy(t, [name]) == Kid(t, name)
  {
    match Kid(t, name)
    case None =>
    case Some(b) => assert NodeBy(b, [name][1..]) == Some(b);
  }

  lemma FixupsElsewhere(t: Tree, a: Address, x: Tree, names: set<bytes>)
    requires Uniform(names) && NamesIn(t, names) && Known(a, names) && LOCAL_FIXUPS in names
    requires a != [] && a[0] != LOCAL_FIXUPS && NodeBy(t, a).Some?
    ensures Fixups(SetBy(t, a, x)) == Fixups(t)
  {
    var k := Kid(t, a[0]).value;
    PutKidMeans(t, names, a[0], SetBy(k, a[1..], x), LOCAL_FIXUPS);
    OneStep(t, LOCAL_FIXUPS);
    OneStep(SetBy(t, a, x), LOCAL_FIXUPS);
  }

  /** The values after one resolved conflict. */
  lemma ResolveVal(t: Tree, a: Address, x: u32, names: set<bytes>, t': Tree, b: Address, name: bytes)
    requires Uniform(names) && NamesIn(t, names) && FixupsOk(t, names) && Known(a, names) && Known(b, names)
    requires a != [] && a[0] != LOCAL_FIXUPS && NodeBy(t, a).Some? && Resolve(t, a, x) == Ok(t')
    ensures NodeBy(t', b).Some? == NodeBy(t, b).Some?
    ensures Val(t', b, name) ==
            var v := if b == a && IsPhandleName(name) &&
              WordProp(NodeBy(t, a).value, name).Some? then Some(Enc32(x)) else Val(t, b, name);
            Mapped(v, Val(Fixups(t), b, name), ConflictMap(x, PhandleAt(t, a)))
    ensures NamesIn(t', names) && Fixups(t') == Fixups(t)
  {
    var n := NodeBy(t, a).value;
    var m := ConflictingPhandle(n, x);
    var u := SetBy(t, a, m);
    NodeNames(t, names, a);
    ConflictNames(n, x, names);
    SetByNames(t, names, a, m);
    SetByVal(t, names, a, m, b, name);
    FixupsElsewhere(t, a, m, names);
    if Below(a, b) {
      var r := b[|a|..];
      ConflictVal(n, x, r, name);
      assert b == a + r;
      NodeByJoin(t, a, r);
      ValJoin(t, a, r, name);
    }
    var f, y := Fixups(t), PhandleAt(t, a);
    ConflictOf(u, x, y);
    MapVal(u, f, ConflictMap(x, y), names, b, name);
    MapNames(u, f, ConflictMap(x, y), names);
    FixupsKept(u, f, ConflictMap(x, y), names);
  }

  lemma ConflictOf(u: Tree, x: u32, y: u32)
    ensures ConflictingReferences(u, x, y) == MapNode(u, Fixups(u), ConflictMap(x, y))
  {
  }

  // ---------- Resolving conflicts ----------

  lemma FixupsStay(t: Tree, o: Tree, d: u32, names: set<bytes>)
    requires FixupsOk(o, names) && Between(t, o, d, names)
    ensures FixupsOk(t, names)
  {
    forall a, name | Known(a, names) && Val(Fixups(t), a, name).Some? && Val(t, a, name).Some?
      ensures SlotsOk(Val(Fixups(t), a, name).value, |Val(t, a, name).value|)
    {
      assert SameLength(Val(t, a, name), Val(o, a, name));
    }
  }

  /** The phandle properties after a resolved conflict. */
  lemma ResolvePhandles(t: Tree, o: Tree, d: u32, names: set<bytes>, a: Address, x: u32, t': Tree, b: Address)
    requires Ready(o, d, names) && Between(t, o, d, names) && Known(a, names) && Known(b, names)
    requires a != [] && a[0] != LOCAL_FIXUPS && NodeBy(t, a).Some? && Resolve(t, a, x) == Ok(t')
    requires x != 0 && PhandleAt(t, a) != 0
    ensures PhandleAt(t', b) == if b == a then x else PhandleAt(t, b)
    ensures Carried(t', b)
  {
    FixupsStay(t, o, d, names);
    forall name | IsPhandleName(name)
      ensures Val(t', b, name) ==
              if b == a && WordProp(NodeBy(t, a).value, name).Some? then Some(Enc32(x)) else Val(t, b, name)
    {
      ResolveVal(t, a, x, names, t', b, name);
      NoFixup(t, names, b, name);
    }
    EncWord(x);
    if b == a {
      CarriedWords(t, a);
    } else {
      PhandleOfVals(t', b, t, b);
    }
  }

  lemma NoFixup(t: Tree, names: set<bytes>, b: Address, name: bytes)
    requires FixupsOk(t, names) && Known(b, names) && IsPhandleName(name)
    ensures Val(Fixups(t), b, name).None?
  {
  }

  lemma CarriedWords(t: Tree, a: Address)
    requires Carried(t, a) && NodeBy(t, a).Some?
    ensures forall name :: IsPhandleName(name) && Val(t, a, name).Some? ==> WordProp(NodeBy(t, a).value, name).Some?
    ensures PhandleAt(t, a) != 0 ==> Val(t, a, PHANDLE).Some? || Val(t, a, LINUX_PHANDLE).Some?
  {
  }

  /** A resolved conflict changes no name and no length. */
  lemma ResolveSame(t: Tree, o: Tree, d: u32, names: set<bytes>, a: Address, x: u32, t': Tree, b: Address, name: bytes)
    requires Ready(o, d, names) && Between(t, o, d, names) && Known(a, names) && Known(b, names)
    requires a != [] && a[0] != LOCAL_FIXUPS && NodeBy(t, a).Some? && Resolve(t, a, x) == Ok(t')
    ensures NodeBy(t', b).Some? == NodeBy(o, b).Some? && SameLength(Val(t', b, name), Val(o, b, name))
    ensures NamesIn(t', names) && Fixups(t') == Fixups(o)
    ensures !IsPhandleName(name) && Val(Fixups(o), b, name).None? ==> Val(t', b, name) == Val(o, b, name)
  {
    FixupsStay(t, o, d, names);
    ResolveVal(t, a, x, names, t', b, name);
    assert SameLength(Val(t, b, name), Val(o, b, name));
    ResolvedLength(t, a, name);
  }

  lemma ResolveState(t: Tree, o: Tree, d: u32, names: set<bytes>, a: Address, x: u32, t': Tree, b: Address)
    requires Ready(o, d, names) && Between(t, o, d, names) && Known(a, names) && Known(b, names)
    requires a != [] && a[0] != LOCAL_FIXUPS && NodeBy(t, a).Some? && Resolve(t, a, x) == Ok(t')
    requires 1 <= x <= d && PhandleAt(t, a) == PhandleAt(o, a) && PhandleAt(o, a) != 0
    ensures OldOrBase(t', o, d, b) && Carried(t', b) && PhandleAt(t', b) == if b == a then x else PhandleAt(t, b)
  {
    hide Ready, FixupsOk, Fresh, Fixups, SameShape, NamesIn, Carried, PhandleAt, NodeBy, Val, Resolve;
    ResolvePhandles(t, o, d, names, a, x, t', b);
    assert OldOrBase(t, o, d, b);
  }

  /** One resolved conflict. */
  lemma ResolveStep(t: Tree, o: Tree, d: u32, names: set<bytes>, a: Address, x: u32, t': Tree)
    requires Ready(o, d, names) && Between(t, o, d, names) && Known(a, names)
    requires a != [] && a[0] != LOCAL_FIXUPS && NodeBy(t, a).Some? && Resolve(t, a, x) == Ok(t')
    requires 1 <= x <= d && PhandleAt(t, a) == PhandleAt(o, a) && PhandleAt(o, a) != 0
    ensures Between(t', o, d, names) && PhandleAt(t', a) == x
    ensures forall b :: Known(b, names) && b != a ==> PhandleAt(t', b) == PhandleAt(t, b)
  {
    PlainBetween(t, o, d, names);
    PlainResolve(t, a, x, t');
    hide *;
    forall b, name | Known(b, names)
      ensures SameLength(Val(t', b, name), Val(o, b, name))
      ensures !IsPhandleName(name) && Val(Fixups(o), b, name).None? ==> Val(t', b, name) == Val(o, b, name)
    {
      ResolveSame(t, o, d, names, a, x, t', b, name);
    }
    forall b | Known(b, names)
      ensures NodeBy(t', b).Some? == NodeBy(o, b).Some?
      ensures OldOrBase(t', o, d, b) && Carried(t', b) && PhandleAt(t', b) == if b == a then x else PhandleAt(t, b)
    {
      ResolveSame(t, o, d, names, a, x, t', b, PHANDLE);
      ResolveState(t, o, d, names, a, x, t', b);
    }
    ResolveSame(t, o, d, names, a, x, t', a, PHANDLE);
    BetweenFrom(t', o, d, names);
  }

  lemma PlainBetween(t: Tree, o: Tree, d: u32, names: set<bytes>)
    requires Between(t, o, d, names)
    ensures Plain(t)
  {
  }

  lemma BetweenFrom(t: Tree, o: Tree, d: u32, names: set<bytes>)
    requires NamesIn(t, names) && Plain(t) && Fixups(t) == Fixups(o)
    requires forall a :: Known(a, names) ==> NodeBy(t, a).Some? == NodeBy(o, a).Some?
    requires forall a, name :: Known(a, names) ==> SameLength(Val(t, a, name), Val(o, a, name))
    requires forall a, name ::
              Known(a, names) && !IsPhandleName(name) && Val(Fixups(o), a, name).None? ==>
              Val(t, a, name) == Val(o, a, name)
    requires forall a :: Known(a, names) ==> OldOrBase(t, o, d, a) && Carried(t, a)
    ensures Between(t, o, d, names)
  {
    hide NamesIn, Plain, Fixups, NodeBy, Val, OldOrBase, Carried, SameLength;
  }

  lemma ResolvedLength(t: Tree, a: Address, name: bytes)
    requires NodeBy(t, a).Some?
    ensures WordProp(NodeBy(t, a).value, name).Some? ==> Val(t, a, name).Some? && |Val(t, a, name).value| == 4
  {
  }

  /** A resolved conflict keeps every reference, to the node concerned and to the others. */
  lemma ResolveRefs(t: Tree, o: Tree, d: u32, names: set<bytes>, a: Address, x: u32, t': Tree, s: Slot, y: Address)
    requires Ready(o, d, names) && Between(t, o, d, names) && Known(a, names) && Known(s.node, names) && Known(y, names)
    requires a != [] && a[0] != LOCAL_FIXUPS && NodeBy(t, a).Some? && Resolve(t, a, x) == Ok(t')
    requires 1 <= x <= d && PhandleAt(t, a) == PhandleAt(o, a) != 0
    requires Refers(Fixups(o), t, s, y)
    ensures Refers(Fixups(o), t', s, y)
  {
    FixupsStay(t, o, d, names);
    ResolveVal(t, a, x, names, t', s.node, s.prop);
    ResolvePhandles(t, o, d, names, a, x, t', y);
    SlotMapped(t, Fixups(o), ConflictMap(x, PhandleAt(t, a)), names, s, t');
    assert OldOrBase(t, o, d, y);
  }

  // ---------- The walk over base and overlay ----------

  /** z lies below a child, named in e, of the node at a. */
  ghost predicate Touched(a: Address, e: Tree, z: Address) {
    Below(a, z) && |a| < |z| && Kid(e, z[|a|]).Some?
  }

  /** e are entries of the node at address a of o. */
  ghost predicate EntriesOf(o: Tree, a: Address, e: Tree, names: set<bytes>) {
    && NamesIn(e, names) && Plain(e)
    && forall r :: Known(r, names) && r != [] && NodeBy(e, r).Some? ==> NodeBy(o, a + r).Some?
  }

  ghost predicate BaseMax(b: Tree, d: u32, names: set<bytes>) {
    forall r :: Known(r, names) ==> PhandleAt(b, r) <= d
  }

  /**
   * The phandle that the node z of the overlay o gets when it falls on the node r of the base b: that one's, if both
   * have one.
   */
  ghost function After(b: Tree, r: Address, o: Tree, z: Address): u32 {
    if PhandleAt(b, r) != 0 && PhandleAt(o, z) != 0 then PhandleAt(b, r) else PhandleAt(o, z)
  }

  /** Where base b and overlay entries e meet below a, the overlay has taken over the base's phandle; nowhere else. */
  ghost predicate TakenOver(t: Tree, b: Tree, a: Address, e: Tree, o: Tree, names: set<bytes>) {
    forall r :: Known(r, names) && r != [] && NodeBy(e, r).Some? ==> PhandleAt(t, a + r) == After(b, r, o, a + r)
  }

  lemma FirstKid(e: Tree, names: set<bytes>, name: bytes)
    requires e.NodeT? && Uniform(names) && NamesIn(e, names) && Plain(e) && name in names
    ensures Kid(e, name) == if name == e.name then Some(e.body) else Kid(e.rest, name)
    ensures Kid(e.rest, e.name).None?
  {
    NoKidMeans(e.rest, names, e.name);
    if name == e.name {
      assert name[..|name|] == name;
    } else {
      assert Unlike(e.name, name);
      KidNext(e, name);
    }
  }

  lemma KnownJoin(a: Address, b: Address, names: set<bytes>)
    requires Known(a, names) && Known(b, names)
    ensures Known(a + b, names)
  {
  }

  /**
   * What the walk over the entries e below a has to find and what it leaves behind; s and y are any slot and any node.
   */
  ghost predicate WalkPre(t: Tree, b: Tree, a: Address, e: Tree, o: Tree, d: u32, names: set<bytes>) {
    && Ready(o, d, names) && Between(t, o, d, names) && Known(a, names) && a != [] && a[0] != LOCAL_FIXUPS
    && EntriesOf(o, a, e, names) && BaseMax(b, d, names)
    && forall z :: Known(z, names) && Touched(a, e, z) ==> PhandleAt(t, z) == PhandleAt(o, z)
  }

  ghost predicate WalkPost(t: Tree, t': Tree, b: Tree, a: Address, e: Tree, o: Tree, d: u32, names: set<bytes>,
                           s: Slot, y: Address) {
    && Between(t', o, d, names) && TakenOver(t', b, a, e, o, names)
    && (forall z :: Known(z, names) && !Touched(a, e, z) ==> PhandleAt(t', z) == PhandleAt(t, z))
    && (Refers(Fixups(o), t, s, y) ==> Refers(Fixups(o), t', s, y))
  }

  /** The walk over a node and the nodes below it. */
  lemma {:induction false} PreventNodeKeeps(t: Tree, b: Tree, a: Address, e: Tree, o: Tree, d: u32, names: set<bytes>,
                                            s: Slot, y: Address)
    requires WalkPre(t, b, a, e, o, d, names) && NodeBy(o, a).Some? && PhandleAt(t, a) == PhandleAt(o, a)
    requires Known(s.node, names) && Known(y, names) && PreventNode(t, b, a, e).Ok?
    ensures var t' := PreventNode(t, b, a, e).value;
      && Between(t', o, d, names) && TakenOver(t', b, a, e, o, names)
      && PhandleAt(t', a) == After(b, [], o, a)
      && (forall z :: Known(z, names) && !Below(a, z) ==> PhandleAt(t', z) == PhandleAt(t, z))
      && (Refers(Fixups(o), t, s, y) ==> Refers(Fixups(o), t', s, y))
    decreases e, 2
  {
    hide Ready, Between, Refers, Fixups, EntriesOf, PreventKids, Resolve, TakenOver;
    BaseTop(b, d, names);
    NotTouched(a, e);
    if Phandle(b) != 0 && PhandleAt(t, a) != 0 {
      var x := Phandle(b);
      NodeStays(t, o, d, names, a);
      var t1 := Resolve(t, a, x).value;
      ResolveStep(t, o, d, names, a, x, t1);
      if Refers(Fixups(o), t, s, y) {
        ResolveRefs(t, o, d, names, a, x, t1, s, y);
      }
      PreventKidsKeeps(t1, b, a, e, o, d, names, s, y);
    } else {
      PreventKidsKeeps(t, b, a, e, o, d, names, s, y);
    }
  }

  lemma NotTouched(a: Address, e: Tree)
    ensures !Touched(a, e, a)
  {
  }

  lemma BaseTop(b: Tree, d: u32, names: set<bytes>)
    requires BaseMax(b, d, names)
    ensures Phandle(b) <= d && PhandleAt(b, []) == Phandle(b)
  {
    assert Known([], names) && PhandleAt(b, []) == Phandle(b);
  }

  lemma NodeStays(t: Tree, o: Tree, d: u32, names: set<bytes>, a: Address)
    requires Between(t, o, d, names) && Known(a, names) && NodeBy(o, a).Some?
    ensures NodeBy(t, a).Some?
  {
  }

  lemma {:induction false} PreventKidsKeeps(t: Tree, b: Tree, a: Address, e: Tree, o: Tree, d: u32, names: set<bytes>,
                                            s: Slot, y: Address)
    requires WalkPre(t, b, a, e, o, d, names) && Known(s.node, names) && Known(y, names) && PreventKids(t, b, a, e).Ok?
    ensures WalkPost(t, PreventKids(t, b, a, e).value, b, a, e, o, d, names, s, y)
    decreases e, 1
  {
    hide WalkPre, WalkPost;
    match e
    case Nil => NoEntries(t, b, a, o, d, names, s, y);
    case PropT(_, _, rest) =>
      PropPre(t, b, a, e, o, d, names);
      PreventKidsKeeps(t, b, a, rest, o, d, names, s, y);
      PropPost(t, PreventKids(t, b, a, rest).value, b, a, e, o, d, names, s, y);
    case NodeT(n, body, rest) => PreventKidKeeps(t, b, a, e, o, d, names, s, y);
  }

  lemma NoEntries(t: Tree, b: Tree, a: Address, o: Tree, d: u32, names: set<bytes>, s: Slot, y: Address)
    requires WalkPre(t, b, a, Nil, o, d, names)
    ensures WalkPost(t, t, b, a, Nil, o, d, names, s, y)
  {
    assert forall r: Address :: r != [] ==> NodeBy(Nil, r).None?;
  }

  lemma PropPre(t: Tree, b: Tree, a: Address, e: Tree, o: Tree, d: u32, names: set<bytes>)
    requires WalkPre(t, b, a, e, o, d, names) && e.PropT?
    ensures WalkPre(t, b, a, e.rest, o, d, names)
  {
    hide Ready, Between, BaseMax, Kid, PhandleAt;
    SkipProp(e);
  }

  lemma PropPost(t: Tree, t': Tree, b: Tree, a: Address, e: Tree, o: Tree, d: u32, names: set<bytes>, s: Slot,
                 y: Address)
    requires e.PropT? && WalkPost(t, t', b, a, e.rest, o, d, names, s, y)
    ensures WalkPost(t, t', b, a, e, o, d, names, s, y)
  {
    hide Between, Refers, Fixups, Kid, PhandleAt;
    SkipProp(e);
  }

  lemma SkipProp(e: Tree)
    requires e.PropT?
    ensures forall m :: Kid(e, m) == Kid(e.rest, m)
    ensures forall r: Address :: r != [] ==> NodeBy(e, r) == NodeBy(e.rest, r)
  {
    forall m ensures Kid(e, m) == Kid(e.rest, m) {
      KidNext(e, m);
    }
  }

  /** Addresses among the entries behind the first one. */
  lemma RestEntries(e: Tree, names: set<bytes>)
    requires e.NodeT? && Uniform(names) && NamesIn(e, names) && Plain(e)
    ensures Kid(e.rest, e.name).None? && Kid(e, e.name) == Some(e.body)
    ensures forall m :: m in names && m != e.name ==> Kid(e, m) == Kid(e.rest, m)
    ensures forall r :: Known(r, names) && r != [] && r[0] != e.name ==> NodeBy(e, r) == NodeBy(e.rest, r)
    ensures forall r :: Known(r, names) && r != [] && r[0] == e.name ==> NodeBy(e.rest, r).None?
  {
    FirstKid(e, names, e.name);
    forall m | m in names && m != e.name ensures Kid(e, m) == Kid(e.rest, m) {
      FirstKid(e, names, m);
    }
  }

  lemma EntriesRest(o: Tree, a: Address, e: Tree, names: set<bytes>)
    requires Uniform(names) && EntriesOf(o, a, e, names) && e.NodeT?
    ensures EntriesOf(o, a, e.rest, names)
  {
    RestEntries(e, names);
  }

  lemma EntriesBody(o: Tree, a: Address, e: Tree, names: set<bytes>)
    requires Uniform(names) && EntriesOf(o, a, e, names) && e.NodeT? && Known(a, names)
    ensures EntriesOf(o, a + [e.name], e.body, names) && NodeBy(o, a + [e.name]).Some? && Known(a + [e.name], names)
  {
    RestEntries(e, names);
    OneStep(e, e.name);
    assert Known([e.name], names) && NodeBy(e, [e.name]).Some?;
    forall r | Known(r, names) && r != [] && NodeBy(e.body, r).Some? ensures NodeBy(o, a + [e.name] + r).Some? {
      var q := [e.name] + r;
      assert q[1..] == r && NodeBy(e, q) == NodeBy(e.body, r) && Known(q, names);
      assert a + q == a + [e.name] + r;
    }
  }

  lemma TouchedRest(a: Address, e: Tree, names: set<bytes>, z: Address)
    requires e.NodeT? && Uniform(names) && NamesIn(e, names) && Plain(e) && Known(z, names)
    ensures Touched(a, e, z) <==> Touched(a, e.rest, z) || Below(a + [e.name], z)
    ensures !(Touched(a, e.rest, z) && Below(a + [e.name], z))
    ensures Touched(a + [e.name], e.body, z) ==> Below(a + [e.name], z)
  {
    RestEntries(e, names);
    if |a| < |z| {
      assert z[..|a| + 1] == z[..|a|] + [z[|a|]];
      assert (a + [e.name])[..|a|] == a;
    }
    if Below(a + [e.name], z) {
      assert z[..|a| + 1][|a|] == e.name && z[..|a|] == z[..|a| + 1][..|a|] == a;
    }
  }

  lemma KidMax(b: Tree, d: u32, names: set<bytes>, name: bytes)
    requires BaseMax(b, d, names) && name in names && Kid(b, name).Some?
    ensures BaseMax(Kid(b, name).value, d, names)
  {
    forall r | Known(r, names) ensures PhandleAt(Kid(b, name).value, r) <= d {
      var q := [name] + r;
      assert q[1..] == r && Known(q, names) && PhandleAt(b, q) == PhandleAt(Kid(b, name).value, r);
    }
  }

  lemma KidPre(t: Tree, b: Tree, a: Address, e: Tree, o: Tree, d: u32, names: set<bytes>)
    requires WalkPre(t, b, a, e, o, d, names) && e.NodeT? && Kid(b, e.name).Some?
    ensures WalkPre(t, Kid(b, e.name).value, a + [e.name], e.body, o, d, names)
    ensures NodeBy(o, a + [e.name]).Some? && PhandleAt(t, a + [e.name]) == PhandleAt(o, a + [e.name])
  {
    EntriesBody(o, a, e, names);
    KidMax(b, d, names, e.name);
    hide PhandleAt, NodeBy, Between, FixupsOk, Fresh, BaseMax, EntriesOf, Kid;
    EntriesFacts(o, a, e, names);
    forall z | Known(z, names) && Below(a + [e.name], z) ensures PhandleAt(t, z) == PhandleAt(o, z) {
      TouchedRest(a, e, names, z);
    }
    forall z | Known(z, names) && Touched(a + [e.name], e.body, z) ensures PhandleAt(t, z) == PhandleAt(o, z) {
      TouchedRest(a, e, names, z);
    }
  }

  lemma EntriesFacts(o: Tree, a: Address, e: Tree, names: set<bytes>)
    requires EntriesOf(o, a, e, names)
    ensures NamesIn(e, names) && Plain(e)
  {
  }

  lemma RestPre(t: Tree, t1: Tree, b: Tree, a: Address, e: Tree, o: Tree, d: u32, names: set<bytes>)
    requires WalkPre(t, b, a, e, o, d, names) && e.NodeT? && Between(t1, o, d, names)
    requires forall z :: Known(z, names) && !Below(a + [e.name], z) ==> PhandleAt(t1, z) == PhandleAt(t, z)
    ensures WalkPre(t1, b, a, e.rest, o, d, names)
  {
    EntriesRest(o, a, e, names);
    hide PhandleAt, NodeBy, Between, FixupsOk, Fresh, BaseMax, EntriesOf, Kid;
    EntriesFacts(o, a, e, names);
    forall z | Known(z, names) && Touched(a, e.rest, z) ensures PhandleAt(t1, z) == PhandleAt(o, z) {
      TouchedRest(a, e, names, z);
    }
  }

  /** The overlay has taken over the base's phandles in the first child of e. */
  ghost predicate TakenBelow(t: Tree, b: Tree, a: Address, e: Tree, o: Tree, names: set<bytes>)
    requires e.NodeT?
  {
    forall r {:trigger NodeBy(e.body, r)} :: Known(r, names) && NodeBy(e.body, r).Some? ==>
      PhandleAt(t, a + [e.name] + r) == After(b, [e.name] + r, o, a + [e.name] + r)
  }

  lemma JoinTaken(t1: Tree, t': Tree, b: Tree, a: Address, e: Tree, o: Tree, names: set<bytes>, r: Address)
    requires e.NodeT? && Uniform(names) && NamesIn(e, names) && Plain(e) && Known(a, names)
    requires TakenBelow(t1, b, a, e, o, names) && TakenOver(t', b, a, e.rest, o, names)
    requires forall z :: Known(z, names) && !Touched(a, e.rest, z) ==> PhandleAt(t', z) == PhandleAt(t1, z)
    requires Known(r, names) && r != [] && NodeBy(e, r).Some?
    ensures PhandleAt(t', a + r) == After(b, r, o, a + r)
  {
    RestEntries(e, names);
    hide PhandleAt, Kid, NodeBy, NamesIn, Plain, Touched, Below, Known, After;
    if r[0] == e.name {
      HeadTail(a, r, names);
      BodyNode(e, r, names);
      KnownJoin(a, r, names);
      TouchedRest(a, e, names, a + r);
    }
  }

  lemma HeadTail(a: Address, r: Address, names: set<bytes>)
    requires r != [] && Known(r, names)
    ensures r == [r[0]] + r[1..] && a + r == a + [r[0]] + r[1..] && Below(a + [r[0]], a + r) && Known(r[1..], names)
  {
  }

  /** The walk over the first child, then over the others. */
  lemma WalkJoin(t: Tree, t1: Tree, t': Tree, b: Tree, a: Address, e: Tree, o: Tree, d: u32, names: set<bytes>,
                 s: Slot, y: Address)
    requires WalkPre(t, b, a, e, o, d, names) && e.NodeT?
    requires WalkPost(t1, t', b, a, e.rest, o, d, names, s, y)
    requires forall z :: Known(z, names) && !Below(a + [e.name], z) ==> PhandleAt(t1, z) == PhandleAt(t, z)
    requires Refers(Fixups(o), t, s, y) ==> Refers(Fixups(o), t1, s, y)
    requires TakenBelow(t1, b, a, e, o, names)
    ensures WalkPost(t, t', b, a, e, o, d, names, s, y)
  {
    EntriesFacts(o, a, e, names);
    hide PhandleAt, Between, FixupsOk, Fresh, BaseMax, EntriesOf, Kid, Refers, Fixups, Known, Touched, Below, NodeBy,
         NamesIn, TakenBelow;
    forall z | Known(z, names) && !Touched(a, e, z) ensures PhandleAt(t', z) == PhandleAt(t, z) {
      TouchedRest(a, e, names, z);
    }
    forall r | Known(r, names) && r != [] && NodeBy(e, r).Some? ensures PhandleAt(t', a + r) == After(b, r, o, a + r) {
      JoinTaken(t1, t', b, a, e, o, names, r);
    }
  }

  lemma BodyNode(e: Tree, r: Address, names: set<bytes>)
    requires e.NodeT? && Uniform(names) && NamesIn(e, names) && Plain(e) && Known(r, names) && r != [] && r[0] == e.name
    ensures NodeBy(e, r) == NodeBy(e.body, r[1..])
  {
    RestEntries(e, names);
  }

  lemma {:induction false} PreventKidKeeps(t: Tree, b: Tree, a: Address, e: Tree, o: Tree, d: u32, names: set<bytes>,
                                           s: Slot, y: Address)
    requires WalkPre(t, b, a, e, o, d, names) && e.NodeT?
    requires Known(s.node, names) && Known(y, names) && PreventKids(t, b, a, e).Ok?
    ensures WalkPost(t, PreventKids(t, b, a, e).value, b, a, e, o, d, names, s, y)
    decreases e, 0
  {
    hide Between, PhandleAt, NodeBy, Ready, EntriesOf, BaseMax, TakenOver, Refers, Fixups, Touched, Known, WalkPost,
         Kid;
    match Kid(b, e.name)
    case None =>
      RestPre(t, t, b, a, e, o, d, names);
      PreventKidsKeeps(t, b, a, e.rest, o, d, names, s, y);
      AbsentTaken(t, b, a, e, o, d, names);
      WalkJoin(t, t, PreventKids(t, b, a, e.rest).value, b, a, e, o, d, names, s, y);
    case Some(x) =>
      KidPre(t, b, a, e, o, d, names);
      PreventNodeKeeps(t, x, a + [e.name], e.body, o, d, names, s, y);
      var t1 := PreventNode(t, x, a + [e.name], e.body).value;
      RestPre(t, t1, b, a, e, o, d, names);
      PreventKidsKeeps(t1, b, a, e.rest, o, d, names, s, y);
      KidTaken(t1, b, a, e, o, names);
      WalkJoin(t, t1, PreventKids(t1, b, a, e.rest).value, b, a, e, o, d, names, s, y);
  }

  lemma AbsentTaken(t: Tree, b: Tree, a: Address, e: Tree, o: Tree, d: u32, names: set<bytes>)
    requires WalkPre(t, b, a, e, o, d, names) && e.NodeT? && Kid(b, e.name).None?
    ensures TakenBelow(t, b, a, e, o, names)
  {
    EntriesBody(o, a, e, names);
    EntriesFacts(o, a, e, names);
    hide Between, FixupsOk, Fresh, BaseMax, EntriesOf;
    forall r | Known(r, names) && NodeBy(e.body, r).Some?
      ensures PhandleAt(t, a + [e.name] + r) == After(b, [e.name] + r, o, a + [e.name] + r)
    {
      assert PhandleAt(b, [e.name] + r) == 0;
      KnownJoin(a + [e.name], r, names);
      assert Below(a + [e.name], a + [e.name] + r);
      TouchedRest(a, e, names, a + [e.name] + r);
    }
  }

  lemma KidTaken(t1: Tree, b: Tree, a: Address, e: Tree, o: Tree, names: set<bytes>)
    requires e.NodeT? && Kid(b, e.name).Some?
    requires var x := Kid(b, e.name).value;
      TakenOver(t1, x, a + [e.name], e.body, o, names) && PhandleAt(t1, a + [e.name]) == After(x, [], o, a + [e.name])
    ensures TakenBelow(t1, b, a, e, o, names)
  {
    var x := Kid(b, e.name).value;
    forall r | Known(r, names) && NodeBy(e.body, r).Some?
      ensures PhandleAt(t1, a + [e.name] + r) == After(b, [e.name] + r, o, a + [e.name] + r)
    {
      assert ([e.name] + r)[1..] == r;
      assert PhandleAt(b, [e.name] + r) == PhandleAt(x, r);
      if r == [] {
        assert a + [e.name] + r == a + [e.name];
      }
    }
  }

  // ---------- The first two passes ----------

  /**
   * A well-formed overlay: exact and distinct names, well-formed fixups, phandles that are not 0 and
   * carried by one node each.
   */
  ghost predicate WellFormed(o: Tree, names: set<bytes>) {
    && Uniform(names) && NamesIn(o, names) && Plain(o) && FixupsOk(o, names)
    && (forall a :: Known(a, names) ==> Carried(o, a))
    && (forall a, b ::
          Known(a, names) && Known(b, names) && a != b && PhandleAt(o, a) != 0 ==> PhandleAt(o, a) != PhandleAt(o, b))
  }

  /** A node and the nodes below it without phandles are not adjusted. */
  lemma {:induction false} AdjustNone(b: Tree, delta: u32, names: set<bytes>)
    requires Uniform(names) && NamesIn(b, names) && Plain(b)
    requires forall a, name :: Known(a, names) && IsPhandleName(name) ==> Val(b, a, name).None?
    ensures AdjustNode(b, delta) == Ok(b)
    decreases Entries(b), 1
  {
    assert Known([], names) && Val(b, [], PHANDLE) == Get(b, PHANDLE) &&
      Val(b, [], LINUX_PHANDLE) == Get(b, LINUX_PHANDLE);
    AdjustKidsNone(b, delta, names);
  }

  lemma {:induction false} AdjustKidsNone(b: Tree, delta: u32, names: set<bytes>)
    requires Uniform(names) && NamesIn(b, names) && Plain(b)
    requires forall a, name :: Known(a, names) && IsPhandleName(name) && a != [] ==> Val(b, a, name).None?
    ensures AdjustKids(b, delta) == Ok(b)
    decreases Entries(b), 0
  {
    match b
    case Nil =>
    case PropT(_, _, rest) =>
      SkipProp(b);
      forall a, name | Known(a, names) && IsPhandleName(name) && a != [] ensures Val(rest, a, name).None? {
        assert NodeBy(b, a) == NodeBy(rest, a);
      }
      AdjustKidsNone(rest, delta, names);
    case NodeT(n, body, rest) =>
      RestEntries(b, names);
      forall a, name | Known(a, names) && IsPhandleName(name) ensures Val(body, a, name).None? {
        assert Known([n] + a, names) && ([n] + a)[1..] == a && NodeBy(b, [n] + a) == NodeBy(body, a);
        assert Val(b, [n] + a, name) == Val(body, a, name);
      }
      AdjustNone(body, delta, names);
      forall a, name | Known(a, names) && IsPhandleName(name) && a != [] ensures Val(rest, a, name).None? {
        assert Val(b, a, name).None?;
        if a[0] != n {
          assert NodeBy(b, a) == NodeBy(rest, a);
        }
      }
      AdjustKidsNone(rest, delta, names);
  }

  /** The phandle of a node after the shift. */
  lemma ShiftedPhandle(o: Tree, d: u32, a: Address)
    requires Carried(o, a) && AdjustNode(o, d).Ok?
    ensures var o1 := AdjustNode(o, d).value;
      && Carried(o1, a)
      && if PhandleAt(o, a) == 0 then PhandleAt(o1, a) == 0
         else PhandleAt(o, a) + d < MAX_U32 && PhandleAt(o1, a) == PhandleAt(o, a) + d
  {
    var o1 := AdjustNode(o, d).value;
    var w := PhandleAt(o, a);
    AdjustVal(o, d, a, PHANDLE);
    AdjustVal(o, d, a, LINUX_PHANDLE);
    EncWord(w);
    EncWord(U32(w + d));
    if Val(o, a, PHANDLE).Some? || Val(o, a, LINUX_PHANDLE).Some? {
      U32Id(w + d);
    }
  }

  lemma FixupsNotAdjusted(o: Tree, d: u32, names: set<bytes>)
    requires WellFormed(o, names) && AdjustNode(o, d).Ok?
    ensures Fixups(AdjustNode(o, d).value) == Fixups(o)
  {
    var o1 := AdjustNode(o, d).value;
    var b1 := AddOffset(o, PHANDLE, d).value;
    var b2 := AddOffset(b1, LINUX_PHANDLE, d).value;
    AddOffsetGet(o, PHANDLE, d, PHANDLE);
    AddOffsetGet(b1, LINUX_PHANDLE, d, PHANDLE);
    KidOfChildren(b2, o, LOCAL_FIXUPS);
    AdjustKidsMeans(b2, d, LOCAL_FIXUPS);
    OneStep(o, LOCAL_FIXUPS);
    OneStep(o1, LOCAL_FIXUPS);
    if Kid(o, LOCAL_FIXUPS).Some? {
      var f := Fixups(o);
      forall a, name | Known(a, names) && IsPhandleName(name) ensures Val(f, a, name).None? {
        NoFixup(o, names, a, name);
      }
      AdjustNone(f, d, names);
    }
  }

  /** The overlay between the first two passes. */
  lemma AfterShift(o: Tree, d: u32, names: set<bytes>, o1: Tree)
    requires WellFormed(o, names) && AdjustNode(o, d) == Ok(o1)
    ensures NamesIn(o1, names) && Plain(o1) && Fixups(o1) == Fixups(o) && SameShape(o1, o, names) && FixupsOk(o1, names)
  {
    AdjustPlain(o, d, names);
    FixupsNotAdjusted(o, d, names);
    forall a, name | Known(a, names) ensures SameLength(Val(o1, a, name), Val(o, a, name)) {
      AdjustVal(o, d, a, name);
    }
    forall a | Known(a, names) ensures NodeBy(o1, a).Some? == NodeBy(o, a).Some? {
      AdjustVal(o, d, a, PHANDLE);
    }
    forall a, name | Known(a, names) && Val(Fixups(o1), a, name).Some? && Val(o1, a, name).Some?
      ensures SlotsOk(Val(Fixups(o1), a, name).value, |Val(o1, a, name).value|)
    {
      assert SameLength(Val(o1, a, name), Val(o, a, name));
    }
  }

  lemma MapSame(o1: Tree, d: u32, names: set<bytes>, o2: Tree, a: Address, name: bytes)
    requires Uniform(names) && NamesIn(o1, names) && FixupsOk(o1, names) && LocalReferences(o1, d) == Ok(o2)
    requires Known(a, names)
    ensures NodeBy(o2, a).Some? == NodeBy(o1, a).Some? && SameLength(Val(o2, a, name), Val(o1, a, name))
    ensures IsPhandleName(name) ==> Val(o2, a, name) == Val(o1, a, name)
    ensures Val(o2, a, name) == Mapped(Val(o1, a, name), Val(Fixups(o1), a, name), ShiftMap(d))
  {
    LocalMap(o1, d);
    MapVal(o1, Fixups(o1), ShiftMap(d), names, a, name);
    if IsPhandleName(name) {
      NoFixup(o1, names, a, name);
    }
  }

  lemma LocalMap(t: Tree, d: u32)
    ensures LocalReferences(t, d) == MapNode(t, Fixups(t), ShiftMap(d))
  {
  }

  /** The overlay after the first two passes: all phandles shifted, everything ready for the third. */
  lemma Prepared(o: Tree, d: u32, names: set<bytes>, o1: Tree, o2: Tree)
    requires WellFormed(o, names) && AdjustNode(o, d) == Ok(o1) && LocalReferences(o1, d) == Ok(o2)
    ensures Ready(o2, d, names) && Between(o2, o2, d, names) && Fixups(o2) == Fixups(o) && SameShape(o2, o, names)
    ensures OthersStay(o2, o, names)
    ensures forall a :: Known(a, names) ==>
              if PhandleAt(o, a) == 0 then PhandleAt(o2, a) == 0 else PhandleAt(o2, a) == PhandleAt(o, a) + d
  {
    AfterShift(o, d, names, o1);
    LocalMap(o1, d);
    MapNames(o1, Fixups(o1), ShiftMap(d), names);
    PlainMap(o1, Fixups(o1), ShiftMap(d));
    FixupsKept(o1, Fixups(o1), ShiftMap(d), names);
    hide Plain, NamesIn, Val, NodeBy, PhandleAt, Fixups, AdjustNode, LocalReferences, Carried;
    forall a, name | Known(a, names) ensures SameLength(Val(o2, a, name), Val(o, a, name)) {
      MapSame(o1, d, names, o2, a, name);
      assert SameLength(Val(o1, a, name), Val(o, a, name));
    }
    forall a, name | Known(a, names) && !IsPhandleName(name) && Val(Fixups(o), a, name).None?
      ensures Val(o2, a, name) == Val(o, a, name)
    {
      MapSame(o1, d, names, o2, a, name);
      AdjustVal(o, d, a, name);
    }
    forall a | Known(a, names) ensures NodeBy(o2, a).Some? == NodeBy(o, a).Some? {
      MapSame(o1, d, names, o2, a, PHANDLE);
    }
    forall a | Known(a, names)
      ensures if PhandleAt(o, a) == 0 then PhandleAt(o2, a) == 0 else PhandleAt(o2, a) == PhandleAt(o, a) + d
      ensures Carried(o2, a)
    {
      PreparedPhandle(o, d, names, o1, o2, a);
    }
    PreparedFixups(o, names, o2);
    forall a | Known(a, names) ensures OldOrBase(o2, o2, d, a) {
    }
  }

  lemma PreparedPhandle(o: Tree, d: u32, names: set<bytes>, o1: Tree, o2: Tree, a: Address)
    requires WellFormed(o, names) && AdjustNode(o, d) == Ok(o1) && LocalReferences(o1, d) == Ok(o2) && Known(a, names)
    requires NamesIn(o1, names) && FixupsOk(o1, names)
    ensures if PhandleAt(o, a) == 0 then PhandleAt(o2, a) == 0 else PhandleAt(o2, a) == PhandleAt(o, a) + d
    ensures Carried(o2, a)
  {
    ShiftedPhandle(o, d, a);
    MapSame(o1, d, names, o2, a, PHANDLE);
    MapSame(o1, d, names, o2, a, LINUX_PHANDLE);
    PhandleOfVals(o2, a, o1, a);
  }

  lemma PreparedFixups(o: Tree, names: set<bytes>, o2: Tree)
    requires FixupsOk(o, names) && Fixups(o2) == Fixups(o) && SameShape(o2, o, names)
    ensures FixupsOk(o2, names)
  {
    forall a, name | Known(a, names) && Val(Fixups(o2), a, name).Some? && Val(o2, a, name).Some?
      ensures SlotsOk(Val(Fixups(o2), a, name).value, |Val(o2, a, name).value|)
    {
      assert SameLength(Val(o2, a, name), Val(o, a, name));
    }
  }

  /** The first two passes keep every reference. */
  lemma PreparedRefs(o: Tree, d: u32, names: set<bytes>, o1: Tree, o2: Tree, s: Slot, y: Address)
    requires WellFormed(o, names) && AdjustNode(o, d) == Ok(o1) && LocalReferences(o1, d) == Ok(o2)
    requires Known(s.node, names) && Known(y, names) && Refers(Fixups(o), o, s, y) && PhandleAt(o, y) != 0
    ensures Refers(Fixups(o), o2, s, y)
  {
    AfterShift(o, d, names, o1);
    AdjustVal(o, d, s.node, s.prop);
    MapSame(o1, d, names, o2, s.node, s.prop);
    PreparedPhandle(o, d, names, o1, o2, y);
    ShiftedPhandle(o, d, y);
    SlotMapped(o1, Fixups(o), ShiftMap(d), names, s, o2);
    U32Id(PhandleAt(o, y) + d);
  }
}
