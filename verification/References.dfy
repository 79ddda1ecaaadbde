/** libfdt/fdt_overlay.c: updating the references of the overlay, on its blob. */
module References {
  // The fixups are read from the same blob that is changed; they lie in a range of cells that no store touches.

  import opened Bytes
  import opened Tags
  import opened Blob
  import opened Forests
  import opened Edits
  import opened Trees
  import opened Walk
  import opened Merging
  import opened ReadWrite
  import opened Applying
  import opened Overlay
  import opened Renumber
  import Traverse
  import FdtCore
  import ReadOnly
  import NodeEdit
  import Paths

  // ---------- Entries apart from each other ----------

  /** Entries aside from each other are encoded in different places. */
  lemma {:induction false} AsidePos(f: Forest, p: Path, q: Path)
    requires IsPath(f, p) && IsPath(f, q) && At(f, p) != Empty && At(f, q) != Empty && Aside(p, q)
    ensures Pos(f, p) + Width(At(f, p)) <= Pos(f, q) || Pos(f, q) + Width(At(f, q)) <= Pos(f, p)
    decreases p
  {
    match (p, q)
    case (Next(a), Next(b)) => AsidePos(f.rest, a, b);
    case (Into(a), Into(b)) => AsidePos(f.body, a, b);
    case (Into(a), Next(b)) => PosRange(f.body, a);
    case (Next(a), Into(b)) => PosRange(f.body, b);
    case _ =>
  }

  lemma {:induction false} AsideBelow(p: Path, x: Path, q: Path)
    requires Aside(p, q)
    ensures Aside(Inside(p, x), q)
    decreases p
  {
    match (p, q)
    case (Next(a), Next(b)) => AsideBelow(a, x, b);
    case (Into(a), Into(b)) => AsideBelow(a, x, b);
    case _ =>
  }

  lemma {:induction false} FlatAside(a: Path, b: Path)
    requires Flat(a) && Flat(b) && a != b
    ensures Aside(a, b)
    decreases a
  {
    if a.Next? && b.Next? {
      FlatAside(a.tail, b.tail);
    }
  }

  lemma {:induction false} AsideJoin(p: Path, a: Path, b: Path)
    requires Aside(a, b)
    ensures Aside(Join(p, a), Join(p, b))
    decreases p
  {
    if p != Here {
      AsideJoin(p.tail, a, b);
    }
  }

  /** The node at p is aside from the fixups node at x, or the fixups node is its child at c. */
  ghost predicate Clear(p: Path, x: Path, c: Path) {
    Aside(p, x) || (Flat(c) && x == Inside(p, c))
  }

  /** Another entry of such a node is aside from the fixups node. */
  lemma ClearEntry(p: Path, x: Path, c: Path, q: Path)
    requires Clear(p, x, c) && Flat(q) && Inside(p, q) != x
    ensures Aside(Inside(p, q), x)
  {
    if Aside(p, x) {
      AsideBelow(p, q, x);
    } else {
      FlatAside(q, c);
      AsideJoin(p, Into(q), Into(c));
    }
  }

  lemma {:induction false} PropFlat(f: Forest, strs: bytes, name: bytes)
    ensures Traverse.PropPath(f, strs, name).Some? ==> Flat(Traverse.PropPath(f, strs, name).value)
  {
    if f.Leaf? {
      PropFlat(f.rest, strs, name);
    }
  }

  lemma {:induction false} ChildFlat(f: Forest, name: bytes)
    ensures Traverse.ChildPath(f, name).Some? ==> Flat(Traverse.ChildPath(f, name).value)
    decreases f
  {
    if f != Empty {
      ChildFlat(f.rest, name);
    }
  }

  // ---------- Fixups that fit ----------

  /** The offsets that the fixups f list lie in the values of t that they are for. */
  ghost predicate Fits(t: Tree, f: Tree)
    decreases f, 1
  {
    FitsProps(t, f) && FitsKids(t, f)
  }

  ghost predicate FitsProps(t: Tree, f: Tree) {
    f.PropT? ==> (Get(t, f.name).Some? ==> SlotsIn(f.value, |Get(t, f.name).value|)) && FitsProps(t, f.rest)
  }

  ghost predicate FitsKids(t: Tree, f: Tree)
    decreases f, 0
  {
    match f
    case Nil => true
    case PropT(_, _, rest) => FitsKids(t, rest)
    case NodeT(name, body, rest) => (Kid(t, name).Some? ==> Fits(Kid(t, name).value, body)) && FitsKids(t, rest)
  }

  /** A node called x answers to the name of no child of f. */
  ghost predicate Unreached(f: Tree, x: bytes) {
    match f
    case Nil => true
    case PropT(_, _, rest) => Unreached(rest, x)
    case NodeT(name, _, rest) => !NameEq(x, name) && Unreached(rest, x)
  }

  /** u is t with other values of the same lengths. */
  ghost predicate Like(t: Tree, u: Tree) {
    match t
    case Nil => u == Nil
    case PropT(name, value, rest) => u.PropT? && u.name == name && |u.value| == |value| && Like(rest, u.rest)
    case NodeT(name, body, rest) => u.NodeT? && u.name == name && Like(body, u.body) && Like(rest, u.rest)
  }

  lemma {:induction false} LikeGet(t: Tree, u: Tree, name: bytes)
    requires Like(t, u)
    ensures SameLength(Get(t, name), Get(u, name))
    decreases t
  {
    if t.PropT? {
      LikeGet(t.rest, u.rest, name);
    }
  }

  lemma {:induction false} LikeKid(t: Tree, u: Tree, name: bytes)
    requires Like(t, u)
    ensures Kid(t, name).Some? == Kid(u, name).Some?
    ensures Kid(t, name).Some? ==> Like(Kid(t, name).value, Kid(u, name).value)
    decreases t
  {
    if t != Nil && !(t.NodeT? && NameEq(t.name, name)) {
      KidNext(t, name);
      KidNext(u, name);
      LikeKid(t.rest, u.rest, name);
    }
  }

  lemma {:induction false} FitsLike(t: Tree, u: Tree, f: Tree)
    requires Like(t, u)
    ensures Fits(t, f) ==> Fits(u, f)
    decreases f, 1
  {
    FitsPropsLike(t, u, f);
    FitsKidsLike(t, u, f);
  }

  lemma {:induction false} FitsKidsLike(t: Tree, u: Tree, f: Tree)
    requires Like(t, u)
    ensures FitsKids(t, f) ==> FitsKids(u, f)
    decreases f, 0
  {
    match f
    case Nil =>
    case PropT(_, _, rest) => FitsKidsLike(t, u, rest);
    case NodeT(name, body, rest) =>
      LikeKid(t, u, name);
      FitsKidsLike(t, u, rest);
      if Kid(t, name).Some? {
        FitsLike(Kid(t, name).value, Kid(u, name).value, body);
      }
  }

  lemma {:induction false} FitsPropsLike(t: Tree, u: Tree, f: Tree)
    requires Like(t, u)
    ensures FitsProps(t, f) ==> FitsProps(u, f)
    decreases f
  {
    if f.PropT? {
      LikeGet(t, u, f.name);
      FitsPropsLike(t, u, f.rest);
    }
  }

  lemma {:induction false} AlikeAbs(f: Forest, g: Forest, strs: bytes)
    requires Alike(f, g) && Wf(f) && Wf(g) && Named(f, strs) && Named(g, strs)
    ensures Like(Abs(f, strs), Abs(g, strs))
    decreases f
  {
    if f != Empty {
      AlikeAbs(f.rest, g.rest, strs);
      if f.Node? {
        AlikeAbs(f.body, g.body, strs);
      }
    }
  }

  lemma {:induction false} AlikePropPath(f: Forest, g: Forest, strs: bytes, name: bytes)
    requires Alike(f, g)
    ensures Traverse.PropPath(f, strs, name) == Traverse.PropPath(g, strs, name)
    decreases f
  {
    if f.Leaf? {
      AlikePropPath(f.rest, g.rest, strs, name);
    }
  }

  // ---------- The cells of the fixups ----------

  /** The fixups node: its place, its place among the entries of the root, its cells, and its name. */
  datatype Region = Region(x: Path, c: Path, at: nat, n: nat, name: bytes)

  ghost predicate IsRegion(f: Forest, z: Region) {
    && IsPath(f, z.x) && At(f, z.x).Node? && z.at == Pos(f, z.x) && z.n == Width(At(f, z.x))
    && At(f, z.x).item.Begin? && At(f, z.x).item.name == z.name
  }

  /** The cells of the fixups are the same. */
  ghost predicate Untouched(z: Region, a: bytes, b: bytes) {
    SameCells(a, z.at, b, z.at, z.n)
  }

  lemma UntouchedTrans(z: Region, a: bytes, b: bytes, c: bytes)
    requires Untouched(z, a, b) && Untouched(z, b, c)
    ensures Untouched(z, a, c)
  {
  }

  lemma RegionAlike(f: Forest, g: Forest, z: Region)
    requires Alike(f, g) && IsRegion(f, z)
    ensures IsRegion(g, z)
  {
    AlikePlace(f, g, z.x);
    AlikeSize(At(f, z.x), At(g, z.x));
  }

  /** The entries rest of a node body lie in the region, with the end tag behind them. */
  ghost predicate InRegion(z: Region, cp: nat, rest: Forest) {
    z.at <= cp && cp + Size(rest) + 1 <= z.at + z.n
  }

  lemma CursorStays(z: Region, a: bytes, b: bytes, strs: bytes, cp: nat, rest: Forest)
    requires Cursor(a, strs, cp, rest) && InRegion(z, cp, rest) && Untouched(z, a, b)
    ensures Cursor(b, strs, cp, rest)
  {
    hide Has, HasFirst;
    SameSub(a, z.at, b, z.at, z.n, cp - z.at, Size(rest));
    HasMove(a, cp, b, cp, rest);
    SameSub(a, z.at, b, z.at, z.n, cp + Size(rest) - z.at, 1);
    MoveTag(a, cp + Size(rest), b, cp + Size(rest), FDT_END_NODE);
  }

  /** A store into a property outside the fixups leaves the fixups alone. */
  lemma StoreOutside(f: Forest, z: Region, i: Path, a: bytes, b: bytes, y: nat, m: nat)
    requires IsRegion(f, z) && IsPath(f, i) && At(f, i).Leaf? && Aside(i, z.x)
    requires KeptBut(a, b, y, m) && 4 * Pos(f, i) <= y && y + m <= 4 * (Pos(f, i) + Width(At(f, i)))
    requires 4 * (Size(f) + 1) <= |a|
    ensures Untouched(z, a, b)
  {
    AsidePos(f, i, z.x);
    PosRange(f, z.x);
  }

  // ---------- One word ----------

  /** prop is the offset of the property called name of the node at p, and v is its value. */
  ghost predicate HasValue(fdto: Fdt, p: Path, name: bytes, prop: int, v: bytes)
    reads fdto, fdto.mem
  {
    && fdto.Valid() && IsPath(fdto.forest, p) && At(fdto.forest, p).Node?
    && var q := Traverse.PropPath(At(fdto.forest, p).body, fdto.Strs(), name);
       && q.Some? && PropPlace(fdto.forest, Inside(p, q.value)) && prop == 4 * Pos(fdto.forest, Inside(p, q.value))
       && At(fdto.forest, Inside(p, q.value)).item.value == v
  }

  lemma ValueStored(fdto: Fdt, l: Layout, p: Path, name: bytes, q: Path, prop: int, t: Tree, v: bytes)
    requires Keeps(l, fdto) && IsPath(l.forest, p) && At(l.forest, p).Node? && Wf(l.forest) && Named(l.forest, l.strs)
    requires Traverse.PropPath(At(l.forest, p).body, l.strs, name) == Some(q)
    requires PropPlace(l.forest, Inside(p, q)) && prop == 4 * Pos(l.forest, Inside(p, q))
    requires IsNode(t, AbsPath(l.forest, p)) && Get(BodyAt(t, AbsPath(l.forest, p)), name).Some?
    requires fdto.Tree() == WithBody(t, AbsPath(l.forest, p), Replace(BodyAt(t, AbsPath(l.forest, p)), name, v))
    ensures HasValue(fdto, p, name, prop, v)
  {
    hide Fdt.St, Fdt.Strs, Fdt.Front, WithBody, Replace, Abs, Alike, Encodes;
    var f, g, k := l.forest, fdto.forest, AbsPath(l.forest, p);
    AlikePlace(f, g, p);
    AlikeAbsPath(f, g, p);
    AlikeBodies(f, g, p);
    AlikePropPath(At(f, p).body, At(g, p).body, l.strs, name);
    AlikePlace(f, g, Inside(p, q));
    InsideAt(f, p, q, Empty);
    InsideAt(g, p, q, Empty);
    EncodesWf(fdto.St(), g);
    NodeAbs(g, p, l.strs);
    PropPathAbs(At(g, p).body, l.strs, name);
    var b := BodyAt(t, k);
    WithBodyAt(t, k, Replace(b, name, v), b);
    ReplaceMeans(b, name, v, name);
  }

  lemma AlikeBodies(f: Forest, g: Forest, p: Path)
    requires Alike(f, g) && IsPath(f, p) && At(f, p).Node? && IsPath(g, p) && Alike(At(f, p), At(g, p))
    ensures At(g, p).Node? && Alike(At(f, p).body, At(g, p).body)
  {
  }

  /** One round of the loop over the offsets of a fixup: a word of the value is loaded, mapped and stored. */
  method UpdateWord(fdto: Fdt, prop: nat, off: nat, g: u32 -> u32, ghost name: bytes, ghost p: Path, ghost v: bytes,
                    ghost z: Region)
    requires HasValue(fdto, p, name, prop, v) && off + 4 <= |v| && IsRegion(fdto.forest, z) && Clear(p, z.x, z.c)
    modifies fdto, fdto.mem
    ensures Keeps(old(LayoutOf(fdto)), fdto) && Untouched(z, old(fdto.St()), fdto.St())
    ensures HasValue(fdto, p, name, prop, SetWord(v, off, g(Dec32(v, off))))
    ensures fdto.Tree() == old(WithBody(fdto.Tree(), AbsPath(fdto.forest, p),
                                        Replace(BodyOf(fdto, p), name, SetWord(v, off, g(Dec32(v, off))))))
  {
    hide Fdt.St, Fdt.Strs, Fdt.Front, Fdt.Tree, Fdt.Hdr, WithBody, Replace, Abs, Alike, KeptBut, Encodes, Named, Clear,
         IsRegion, Untouched,
         Dec32, SetWord, Traverse.PropPath, PropPlace, BodyAt, AbsPath;
    ghost var f, a, l, t := fdto.forest, fdto.St(), LayoutOf(fdto), fdto.Tree();
    ghost var q := ValueFacts(fdto, p, name, prop, v, z, off);
    var w := FdtCore.StWord(fdto, prop + 12 + off);
    StoreInValue(fdto, prop, off, g(w), name, p, q);
    StoreOutside(f, z, Inside(p, q), a, fdto.St(), prop + 12 + off, 4);
    ValueStored(fdto, l, p, name, q, prop, t, SetWord(v, off, g(w)));
  }

  lemma ValueFacts(fdto: Fdt, p: Path, name: bytes, prop: int, v: bytes, z: Region, off: nat) returns (q: Path)
    requires HasValue(fdto, p, name, prop, v) && off + 4 <= |v| && IsRegion(fdto.forest, z) && Clear(p, z.x, z.c)
    ensures Traverse.PropPath(At(fdto.forest, p).body, fdto.Strs(), name) == Some(q)
    ensures IsPath(fdto.forest, Inside(p, q))
    ensures PropPlace(fdto.forest, Inside(p, q)) && prop == 4 * Pos(fdto.forest, Inside(p, q))
    ensures At(fdto.forest, Inside(p, q)).item.value == v && At(fdto.forest, Inside(p, q)).Leaf?
    ensures prop + 16 + off <= |fdto.St()| && Dec32(fdto.St(), prop + 12 + off) == Dec32(v, off)
    ensures prop + 16 + off <= 4 * (Pos(fdto.forest, Inside(p, q)) + Width(At(fdto.forest, Inside(p, q))))
    ensures Aside(Inside(p, q), z.x) && 4 * (Size(fdto.forest) + 1) <= |fdto.St()|
    ensures Wf(fdto.forest) && Named(fdto.forest, fdto.Strs())
    ensures IsNode(fdto.Tree(), AbsPath(fdto.forest, p))
    ensures Get(BodyAt(fdto.Tree(), AbsPath(fdto.forest, p)), name) == Some(v)
  {
    hide Fdt.St, Fdt.Strs, Fdt.Front, Abs, Alike, Encodes, Dec32, Aside, Clear, Get, Traverse.PropPath, Cells, Named,
         Wf;
    var f, body := fdto.forest, At(fdto.forest, p).body;
    q := Traverse.PropPath(body, fdto.Strs(), name).value;
    EncodesWf(fdto.St(), f);
    NodeAbs(f, p, fdto.Strs());
    PropPathAbs(body, fdto.Strs(), name);
    InsideAt(f, p, q, Empty);
    ValueWord(fdto.St(), f, Inside(p, q), off);
    PropWords(fdto.St(), f, Inside(p, q));
    PropFlat(body, fdto.Strs(), name);
    ClearEntry(p, z.x, z.c, q);
  }

  // ---------- One fixup ----------

  lemma {:induction false} ReplaceSelf(b: Tree, name: bytes, v: bytes)
    requires Get(b, name) == Some(v)
    ensures Replace(b, name, v) == b
  {
    if b.name != name {
      ReplaceSelf(b.rest, name, v);
    }
  }

  lemma {:induction false} ReplaceTwice(b: Tree, name: bytes, v: bytes, w: bytes)
    ensures Replace(Replace(b, name, v), name, w) == Replace(b, name, w)
  {
    if b.PropT? && b.name != name {
      ReplaceTwice(b.rest, name, v, w);
    }
  }

  /**
   * The fixups, to be read from the cells of z: what is said here does not change while values elsewhere are stored.
   */
  ghost predicate Reading(fdto: Fdt, l: Layout, z: Region, a: bytes)
    reads fdto, fdto.mem
  {
    Keeps(l, fdto) && IsRegion(fdto.forest, z) && Untouched(z, a, fdto.St())
  }

  lemma ReadingOn(fdto: Fdt, l: Layout, m: Layout, z: Region, a: bytes, b: bytes)
    requires Changes(l, m) && IsRegion(m.forest, z) && Untouched(z, a, b) && Keeps(m, fdto)
    requires Untouched(z, b, fdto.St())
    ensures Reading(fdto, l, z, a)
  {
    hide Fdt.St, Fdt.Strs, Fdt.Front, Alike, Encodes;
    KeepsTrans(l, m, fdto);
    RegionAlike(m.forest, fdto.forest, z);
    UntouchedTrans(z, a, b, fdto.St());
  }

  /** The value of the property is u; of the tree t, only that has changed. */
  ghost predicate Updated(fdto: Fdt, p: Path, name: bytes, prop: int, u: bytes, t: Tree, k: Path)
    reads fdto, fdto.mem
  {
    && HasValue(fdto, p, name, prop, u) && AbsPath(fdto.forest, p) == k && IsNode(t, k)
    && fdto.Tree() == WithBody(t, k, Replace(BodyAt(t, k), name, u))
  }

  lemma UpdatedSelf(fdto: Fdt, p: Path, name: bytes, prop: int, v: bytes)
    requires HasValue(fdto, p, name, prop, v)
    ensures Updated(fdto, p, name, prop, v, fdto.Tree(), AbsPath(fdto.forest, p))
  {
    hide Fdt.St, Fdt.Strs, Fdt.Front, Alike, Encodes, Get, Replace, Traverse.PropPath, Abs, Named;
    var f, t, k := fdto.forest, fdto.Tree(), AbsPath(fdto.forest, p);
    EncodesWf(fdto.St(), f);
    NodeAbs(f, p, fdto.Strs());
    PropPathAbs(At(f, p).body, fdto.Strs(), name);
    InsideAt(f, p, Traverse.PropPath(At(f, p).body, fdto.Strs(), name).value, Empty);
    ReplaceSelf(BodyAt(t, k), name, v);
    WithBodySelf(t, k);
  }

  lemma UpdatedMore(fdto: Fdt, m: Layout, p: Path, name: bytes, prop: int, u: bytes, w: bytes, t: Tree, k: Path,
                    t1: Tree)
    requires IsPath(m.forest, p) && Keeps(m, fdto) && AbsPath(m.forest, p) == k && IsNode(t, k)
    requires t1 == WithBody(t, k, Replace(BodyAt(t, k), name, u))
    requires HasValue(fdto, p, name, prop, w) && fdto.Tree() == WithBody(t1, k, Replace(BodyAt(t1, k), name, w))
    ensures Updated(fdto, p, name, prop, w, t, k)
  {
    hide Fdt.St, Fdt.Strs, Fdt.Front, Alike, Encodes, Replace, Abs, Named, WithBody, BodyAt;
    var b := BodyAt(t, k);
    AlikeAbsPath(m.forest, fdto.forest, p);
    WithBodyAt(t, k, Replace(b, name, u), Replace(b, name, w));
    ReplaceTwice(b, name, u, w);
  }

  /** An offset listed by a fixup. */
  lemma FixupWord(st: bytes, strs: bytes, cp: nat, rest: Forest, i: nat)
    requires Cursor(st, strs, cp, rest) && rest.Leaf? && rest.item.Prop? && 4 * i + 4 <= |rest.item.value|
    ensures 4 * cp + 16 + 4 * i <= |st| && Dec32(st, 4 * cp + 12 + 4 * i) == Dec32(rest.item.value, 4 * i)
  {
    hide Dec32, Has, NextTag;
    PropCursor(st, strs, cp, rest);
    DecSlice(st, 4 * cp + 12, 4 * cp + 12 + |rest.item.value|, 4 * i);
  }

  // ---------- Fixups that do not fit ----------

  /** The bytes that the loop stores to, counted from the start of the value, from offset number i on. */
  ghost function Stored(offs: bytes, i: nat): set<nat>
    decreases |offs| - 4 * i
  {
    if 4 * i + 4 > |offs| then {}
    else
      var off: nat := Dec32(offs, 4 * i);
      {off, off + 1, off + 2, off + 3} + Stored(offs, i + 1)
  }

  /** The words listed from number i on lie in n bytes. */
  ghost predicate WordsIn(offs: bytes, i: nat, n: nat) {
    forall k: nat :: i <= k && 4 * k + 4 <= |offs| ==> Dec32(offs, 4 * k) + 4 <= n
  }

  lemma WordsStep(offs: bytes, i: nat, n: nat)
    ensures 4 * i + 4 > |offs| ==> WordsIn(offs, i, n)
    ensures 4 * i + 4 <= |offs| ==> (WordsIn(offs, i, n) <==> Dec32(offs, 4 * i) + 4 <= n && WordsIn(offs, i + 1, n))
  {
    hide Dec32;
    if 4 * i + 4 <= |offs| && Dec32(offs, 4 * i) + 4 <= n && WordsIn(offs, i + 1, n) {
      forall k: nat | i <= k && 4 * k + 4 <= |offs| ensures Dec32(offs, 4 * k) + 4 <= n {
        assert k == i || i + 1 <= k;
      }
    }
  }

  /** Every stored byte lies below n. */
  ghost predicate AllUnder(xs: set<nat>, n: nat) {
    forall x :: x in xs ==> x < n
  }

  lemma {:induction false} StoredAll(offs: bytes, i: nat, n: nat)
    ensures AllUnder(Stored(offs, i), n) <==> WordsIn(offs, i, n)
    decreases |offs| - 4 * i
  {
    hide Dec32, WordsIn;
    WordsStep(offs, i, n);
    if 4 * i + 4 <= |offs| {
      StoredAll(offs, i + 1, n);
      var off: nat := Dec32(offs, 4 * i);
      var t := Stored(offs, i + 1);
      assert Stored(offs, i) == {off, off + 1, off + 2, off + 3} + t;
      assert off + 3 in Stored(offs, i);
      assert forall x :: x in t ==> x in Stored(offs, i);
    }
  }

  /** What is not stored to stays; m is the memory from the start of the value on. */
  lemma {:induction false} NotStored(m: bytes, offs: bytes, i: nat, g: u32 -> u32, x: nat)
    requires x < |m| && x !in Stored(offs, i)
    ensures MapWords(m, offs, i, g)[x] == m[x]
    decreases |offs| - 4 * i
  {
    hide Dec32;
    if 4 * i + 4 <= |offs| {
      var off := Dec32(offs, 4 * i);
      if off + 4 <= |m| {
        NotStored(SetWord(m, off, g(Dec32(m, off))), offs, i + 1, g, x);
      }
    }
  }

  /** What is stored to becomes zero if every word does. */
  lemma {:induction false} StoredZero(m: bytes, offs: bytes, i: nat, g: u32 -> u32, x: nat)
    requires x < |m| && (x in Stored(offs, i) || m[x] == 0) && (forall w :: g(w) == 0)
    requires WordsIn(offs, i, |m|)
    ensures MapWords(m, offs, i, g)[x] == 0
    decreases |offs| - 4 * i
  {
    hide Dec32;
    if 4 * i + 4 <= |offs| {
      var off := Dec32(offs, 4 * i);
      var u := SetWord(m, off, g(Dec32(m, off)));
      StoredZero(u, offs, i + 1, g, x);
    }
  }

  /**
   * The code does not look whether a listed offset lies in the value. The loop leaves everything behind a value of n
   * bytes alone, whatever is there and whatever the words become, exactly when every listed word lies in the value.
   */
  lemma StoresStay(offs: bytes, n: nat, size: nat)
    requires n <= size && SlotsIn(offs, size)
    ensures (forall m: bytes, g: u32 -> u32 :: |m| == size ==> MapWords(m, offs, 0, g)[n..] == m[n..]) <==>
              SlotsIn(offs, n)
  {
    hide Dec32, MapWords, Stored;
    StoredAll(offs, 0, n);
    if SlotsIn(offs, n) {
      forall m: bytes, g: u32 -> u32 | |m| == size ensures MapWords(m, offs, 0, g)[n..] == m[n..] {
        forall x | n <= x < size ensures MapWords(m, offs, 0, g)[x] == m[x] {
          NotStored(m, offs, 0, g, x);
        }
      }
    } else {
      var x :| x in Stored(offs, 0) && x >= n;
      StoredAll(offs, 0, size);
      var m: bytes := seq(size, _ => 1);
      var g: u32 -> u32 := _ => 0;
      StoredZero(m, offs, 0, g, x);
      assert MapWords(m, offs, 0, g)[n..][x - n] != m[n..][x - n];
    }
  }

  /** A value of four bytes for which the offset 4 is listed: adding 1 makes the end tag behind it a property tag. */
  lemma StoreBehind()
    ensures var v, tag, offs: bytes := [0, 0, 0, 9], [0, 0, 0, 2], [0, 0, 0, 4];
      !SlotsIn(offs, 4) && Dec32(tag, 0) == FDT_END_NODE &&
      exists u: bytes ::
        MapWords(v + tag, offs, 0, (w: int) => U32(w + 1)) == v + u && |u| == 4 && Dec32(u, 0) == FDT_PROP
  {
    var v, tag, offs, u: bytes := [0, 0, 0, 9], [0, 0, 0, 2], [0, 0, 0, 4], [0, 0, 0, 3];
    assert Dec32(offs, 4 * 0) == 4;
    var m := v + tag;
    assert Dec32(m, 4) == 2 && U32(3) == 3;
    assert SetWord(m, 4, 3) == v + u;
    assert MapWords(SetWord(m, 4, 3), offs, 1, (w: int) => U32(w + 1)) == SetWord(m, 4, 3);
  }

  /** The loop over the offsets listed by a fixup property of 4 * n bytes: every listed word is mapped in place. */
  method UpdateWords(fdto: Fdt, prop: nat, property: nat, n: nat, g: u32 -> u32, ghost name: bytes, ghost p: Path,
                     ghost v: bytes,
                     ghost z: Region, ghost cp: nat, ghost rest: Forest)
    requires HasValue(fdto, p, name, prop, v) && IsRegion(fdto.forest, z) && Clear(p, z.x, z.c)
    requires Cursor(fdto.St(), fdto.Strs(), cp, rest) && property == 4 * cp && InRegion(z, cp, rest)
    requires rest.Leaf? && rest.item.Prop? && |rest.item.value| == 4 * n && SlotsIn(rest.item.value, |v|)
    modifies fdto, fdto.mem
    ensures Reading(fdto, old(LayoutOf(fdto)), z, old(fdto.St()))
    ensures fdto.Tree() == old(WithBody(fdto.Tree(), AbsPath(fdto.forest, p),
                                        Replace(BodyOf(fdto, p), name, MapWords(v, rest.item.value, 0, g))))
  {
    hide Fdt.St, Fdt.Strs, Fdt.Front, Fdt.Tree, Fdt.Hdr, WithBody, Replace, Abs, Alike, Encodes, Named, Clear,
         IsRegion, Untouched,
         Dec32, SetWord, Traverse.PropPath, PropPlace, BodyAt, AbsPath, Cursor, InRegion, IsPath, At, Pos;
    ghost var l, a, t, strs, offs := LayoutOf(fdto), fdto.St(), fdto.Tree(), fdto.Strs(), rest.item.value;
    ghost var k, u := AbsPath(fdto.forest, p), v;
    UpdatedSelf(fdto, p, name, prop, v);
    ReadingSelf(fdto, z);
    var i := 0;
    while i < n
      invariant i <= n && Reading(fdto, l, z, a) && Cursor(fdto.St(), strs, cp, rest)
      invariant Updated(fdto, p, name, prop, u, t, k) && |u| == |v|
      invariant MapWords(u, offs, i, g) == MapWords(v, offs, 0, g)
    {
      ghost var m, b, t1 := LayoutOf(fdto), fdto.St(), fdto.Tree();
      FixupWord(b, strs, cp, rest, i);
      var off := FdtCore.StWord(fdto, property + 12 + 4 * i);
      assert off + 4 <= |u|;
      UpdateWord(fdto, prop, off, g, name, p, u, z);
      ReadingOn(fdto, l, m, z, a, b);
      CursorStays(z, b, fdto.St(), strs, cp, rest);
      UpdatedMore(fdto, m, p, name, prop, u, SetWord(u, off, g(Dec32(u, off))), t, k, t1);
      u := SetWord(u, off, g(Dec32(u, off)));
      i := i + 1;
    }
  }

  lemma ReadingSelf(fdto: Fdt, z: Region)
    requires fdto.Valid() && IsRegion(fdto.forest, z)
    ensures Reading(fdto, LayoutOf(fdto), z, fdto.St())
  {
    hide Fdt.St, Fdt.Strs;
    KeepsSelf(fdto);
    PosRange(fdto.forest, z.x);
    Sized(fdto.St(), fdto.forest);
  }

  lemma Sized(st: bytes, f: Forest)
    requires Encodes(st, f)
    ensures 4 * (Size(f) + 1) <= |st|
  {
  }

  // ---------- The fixups of one node ----------

  lemma RestOf(fdto: Fdt, cp: nat, rest: Forest)
    requires fdto.Valid() && Cursor(fdto.St(), fdto.Strs(), cp, rest)
    ensures Rest(fdto, rest) == Abs(rest, fdto.Strs())
  {
  }

  lemma CursorOf(fdto: Fdt, property: int, cp: nat, rest: Forest)
    requires fdto.Valid() && AtProp(fdto, property, cp, rest)
    ensures Cursor(fdto.St(), fdto.Strs(), cp, rest) && Wf(rest) && Named(rest, fdto.Strs())
    ensures property >= 0 ==> rest.Leaf? && rest.item.Prop? && property == 4 * cp
  {
  }

  /** A round of the first loop of overlay_update_local_node_references. */
  method UpdateProp(fdto: Fdt, treeNode: int, property: nat, g: u32 -> u32, ghost p: Path, ghost z: Region,
                    ghost cp: nat, ghost rest: Forest)
    returns (ret: int, ghost x: Tree)
    requires Target(fdto, treeNode, p) && IsPath(fdto.forest, p) && IsRegion(fdto.forest, z) && Clear(p, z.x, z.c)
    requires AtProp(fdto, property, cp, rest) && InRegion(z, cp, rest) && Fits(BodyOf(fdto, p), Rest(fdto, rest))
    requires rest.Leaf?
    modifies fdto, fdto.mem
    ensures Reading(fdto, old(LayoutOf(fdto)), z, old(fdto.St()))
    ensures ret != 0 ==> ret < 0 && MapProps(old(BodyOf(fdto, p)), old(Rest(fdto, rest)), g) == Err(ret)
    ensures ret == 0 ==>
              && fdto.Tree() == old(WithBody(fdto.Tree(), AbsPath(fdto.forest, p), x))
              && MapProps(old(BodyOf(fdto, p)), old(Rest(fdto, rest)), g) == MapProps(x, old(Rest(fdto, rest.rest)), g)
  {
    hide Fdt.St, Fdt.Strs, Fdt.Front, Fdt.Tree, Fdt.Hdr, WithBody, Replace, Abs, Alike, Encodes, Named, Clear,
         IsRegion, Untouched,
         Dec32, SetWord, BodyAt, AbsPath, Cursor, InRegion, IsPath, At, Pos, AtProp, Rest, Get, Reading, MapWords,
           Keeps, SlotsIn,
         Traverse.PropPath, PropPlace, Walk.GetProperty;
    CursorOf(fdto, property, cp, rest);
    RestOf(fdto, cp, rest);
    PropCursor(fdto.St(), fdto.Strs(), cp, rest);
    ReadingSelf(fdto, z);
    x := Nil;
    var name, val := GetPropByOffset(fdto, property, cp, rest);
    if |val| % 4 != 0 {
      return -BADOVERLAY, x;
    }
    ghost var q := LookupMeans(fdto, treeNode, name, Some(p));
    var treeVal, treeLen := ReadOnly.GetProperty(fdto, treeNode, name);
    if treeVal < 0 {
      if treeLen == -NOTFOUND {
        return -BADOVERLAY, x;
      }
      return treeLen, x;
    }
    ghost var b := BodyOf(fdto, p);
    ghost var v := Get(b, name).value;
    x := Replace(b, name, MapWords(v, val, 0, g));
    UpdateWords(fdto, treeVal, property, |val| / 4, g, name, p, v, z, cp, rest);
    ret := 0;
  }

  /** The overlay in the middle of a pass over the node at p, place k of the tree t: its body is now b. */
  ghost predicate Mapping(fdto: Fdt, l: Layout, z: Region, a: bytes, treeNode: int, p: Path, t: Tree, k: Path, b: Tree)
    reads fdto, fdto.mem
  {
    && Reading(fdto, l, z, a) && Target(fdto, treeNode, p) && IsPath(fdto.forest, p) && AbsPath(fdto.forest, p) == k
    && IsNode(t, k) && fdto.Tree() == WithBody(t, k, b)
  }

  lemma MappingSelf(fdto: Fdt, z: Region, treeNode: int, p: Path)
    requires Target(fdto, treeNode, p) && IsPath(fdto.forest, p) && IsRegion(fdto.forest, z)
    ensures Mapping(fdto, LayoutOf(fdto), z, fdto.St(), treeNode, p, fdto.Tree(), AbsPath(fdto.forest, p),
                    BodyOf(fdto, p))
  {
    hide Fdt.St, Fdt.Strs, Fdt.Front;
    ReadingSelf(fdto, z);
    NodeHere(fdto, treeNode, p);
    WithBodySelf(fdto.Tree(), AbsPath(fdto.forest, p));
  }

  /** What a step starts with. */
  lemma MappingFacts(fdto: Fdt, l: Layout, z: Region, a: bytes, treeNode: int, p: Path, t: Tree, k: Path, b: Tree)
    requires Mapping(fdto, l, z, a, treeNode, p, t, k, b)
    ensures fdto.Valid() && fdto.Laid() && fdto.InBounds() && fdto.StructIn() && Target(fdto, treeNode, p)
    ensures IsPath(fdto.forest, p) && At(fdto.forest, p).Node? && AbsPath(fdto.forest, p) == k
    ensures -INT_MAX - 1 <= treeNode <= INT_MAX && treeNode == 4 * Pos(fdto.forest, p)
    ensures IsRegion(fdto.forest, z) && BodyOf(fdto, p) == b && Reading(fdto, l, z, a) && Changes(l, LayoutOf(fdto))
    ensures Untouched(z, a, fdto.St()) && fdto.Strs() == l.strs && IsNode(t, k) && fdto.Tree() == WithBody(t, k, b)
    ensures IsNode(fdto.Tree(), k)
  {
    hide Fdt.St, Fdt.Strs, Fdt.Front, Untouched, Abs, IsRegion;
    NodeHere(fdto, treeNode, p);
    WithBodyAt(t, k, b, b);
  }

  /** One more step. */
  lemma MappingMore(fdto: Fdt, l: Layout, z: Region, a: bytes, treeNode: int, p: Path, t: Tree, k: Path, b: Tree,
                    m: Layout, a1: bytes, t1: Tree, x: Tree)
    requires Changes(l, m) && IsRegion(m.forest, z) && Untouched(z, a, a1) && Reading(fdto, m, z, a1)
    requires IsPath(m.forest, p) && At(m.forest, p).Node? && AbsPath(m.forest, p) == k
    requires -INT_MAX - 1 <= treeNode <= INT_MAX && treeNode == 4 * Pos(m.forest, p)
    requires IsNode(t, k) && t1 == WithBody(t, k, b) && fdto.Tree() == WithBody(t1, k, x)
    ensures Mapping(fdto, l, z, a, treeNode, p, t, k, x)
  {
    hide Fdt.St, Fdt.Strs, Fdt.Front, Untouched, Abs, IsRegion, WithBody;
    ReadingOn(fdto, l, m, z, a, a1);
    KeepsTarget(m, fdto, treeNode, p);
    WithBodyAt(t, k, b, x);
  }

  /** Offsets that fit still do. */
  lemma FitsStay(fdto: Fdt, m: Layout, p: Path, b: Tree, f: Tree)
    requires Keeps(m, fdto) && IsPath(m.forest, p) && At(m.forest, p).Node? && Wf(m.forest) && Named(m.forest, m.strs)
    requires b == BodyAt(Abs(m.forest, m.strs), AbsPath(m.forest, p))
    ensures IsPath(fdto.forest, p)
    ensures Fits(b, f) ==> Fits(BodyOf(fdto, p), f)
    ensures FitsKids(b, f) ==> FitsKids(BodyOf(fdto, p), f)
  {
    hide Fdt.St, Fdt.Strs, Fdt.Front, Encodes;
    EncodesWf(fdto.St(), fdto.forest);
    AlikePlace(m.forest, fdto.forest, p);
    AlikeBodies(m.forest, fdto.forest, p);
    NodeAbs(m.forest, p, m.strs);
    NodeAbs(fdto.forest, p, m.strs);
    AlikeAbs(At(m.forest, p).body, At(fdto.forest, p).body, m.strs);
    FitsLike(b, BodyOf(fdto, p), f);
    FitsKidsLike(b, BodyOf(fdto, p), f);
  }

  lemma AtPropStays(fdto: Fdt, z: Region, a: bytes, property: int, cp: nat, rest: Forest)
    requires fdto.Valid() && Cursor(a, fdto.Strs(), cp, rest)
    requires (rest.Leaf? ==> rest.item.Prop? && InRegion(z, cp, rest))
    requires Untouched(z, a, fdto.St()) && property == 4 * cp && property <= INT_MAX && rest.Leaf?
    ensures AtProp(fdto, property, cp, rest) && Rest(fdto, rest) == Abs(rest, fdto.Strs())
  {
    CursorStays(z, a, fdto.St(), fdto.Strs(), cp, rest);
  }

  /** The node n of the fixups lies in the region. */
  ghost predicate SourceIn(z: Region, pos: nat, n: Forest) {
    n.Node? && z.at <= pos && pos + Size(n) <= z.at + z.n
  }

  lemma SourceStays(fdto: Fdt, strs: bytes, z: Region, a: bytes, node: int, pos: nat, n: Forest)
    requires fdto.Valid() && fdto.Strs() == strs && SourceIn(z, pos, n) && Untouched(z, a, fdto.St())
    requires node == 4 * pos && Wf(n) && Named(n, strs) && Has(a, pos, n)
    ensures Source(fdto, node, pos, n) && Rest(fdto, n.body) == Abs(n.body, strs)
  {
    hide Has;
    SameSub(a, z.at, fdto.St(), z.at, z.n, pos - z.at, Size(n));
    HasMove(a, pos, fdto.St(), pos, n);
  }

  /** The pass over the properties of a fixup node, between two rounds. */
  ghost predicate AtFixup(fdto: Fdt, z: Region, property: int, cp: nat, rest: Forest, b: Tree)
    reads fdto, fdto.mem
  {
    AtProp(fdto, property, cp, rest) && InRegion(z, cp, rest) && Fits(b, Rest(fdto, rest)) &&
      (property >= 0 ==> rest.Leaf?)
  }

  lemma FixupFacts(fdto: Fdt, z: Region, property: int, cp: nat, rest: Forest, b: Tree)
    requires fdto.Valid() && AtFixup(fdto, z, property, cp, rest, b) && property >= 0
    ensures AtProp(fdto, property, cp, rest) && InRegion(z, cp, rest) && rest.Leaf? && rest.item.Prop?
    ensures Cursor(fdto.St(), fdto.Strs(), cp, rest) && property == 4 * cp && property <= INT_MAX
    ensures Fits(b, Rest(fdto, rest)) && Fits(b, Rest(fdto, rest.rest))
    ensures Rest(fdto, rest) == Abs(rest, fdto.Strs())
  {
    hide Has, HasFirst;
  }

  lemma LayoutWf(fdto: Fdt)
    requires fdto.Valid()
    ensures Wf(LayoutOf(fdto).forest) && Named(LayoutOf(fdto).forest, LayoutOf(fdto).strs)
    ensures LayoutOf(fdto).strs == fdto.Strs() && LayoutOf(fdto).forest == fdto.forest
    ensures fdto.Tree() == Abs(LayoutOf(fdto).forest, LayoutOf(fdto).strs)
  {
    hide Has;
  }

  lemma ReadingFacts(fdto: Fdt, l: Layout, z: Region, a: bytes)
    requires Reading(fdto, l, z, a)
    ensures fdto.Valid() && Keeps(l, fdto) && Untouched(z, a, fdto.St()) && fdto.Strs() == l.strs
    ensures IsRegion(fdto.forest, z)
  {
  }

  lemma BodyOfIs(fdto: Fdt, p: Path)
    requires fdto.Valid() && IsPath(fdto.forest, p)
    ensures BodyOf(fdto, p) == BodyAt(fdto.Tree(), AbsPath(fdto.forest, p))
  {
  }

  /** A round, and what it leaves behind. */
  method PropRound(fdto: Fdt, treeNode: int, property: nat, g: u32 -> u32, ghost p: Path, ghost z: Region,
                   ghost cp: nat, ghost rest: Forest,
                   ghost l: Layout, ghost a: bytes, ghost t: Tree, ghost k: Path, ghost b: Tree)
    returns (ret: int, next: int, ghost cp': nat, ghost rest': Forest, ghost x: Tree)
    requires Mapping(fdto, l, z, a, treeNode, p, t, k, b) && Clear(p, z.x, z.c)
    requires AtFixup(fdto, z, property, cp, rest, b)
    modifies fdto, fdto.mem
    ensures ret != 0 ==> ret < 0 && Reading(fdto, l, z, a) && MapProps(b, old(Rest(fdto, rest)), g) == Err(ret)
    ensures ret == 0 ==>
              && Mapping(fdto, l, z, a, treeNode, p, t, k, x) && AtFixup(fdto, z, next, cp', rest', x)
              && Size(rest') < Size(rest)
              && MapProps(b, old(Rest(fdto, rest)), g) == MapProps(x, Rest(fdto, rest'), g)
  {
    hide *;
    MappingFacts(fdto, l, z, a, treeNode, p, t, k, b);
    FixupFacts(fdto, z, property, cp, rest, b);
    LayoutWf(fdto);
    BodyOfIs(fdto, p);
    ghost var m, a1, t1 := LayoutOf(fdto), fdto.St(), fdto.Tree();
    ghost var o := Rest(fdto, rest.rest);
    SameRest(fdto, m, cp, rest, a1, z);
    next, cp', rest' := property, cp, rest;
    ret, x := UpdateProp(fdto, treeNode, property, g, p, z, cp, rest);
    ReadingFacts(fdto, m, z, a1);
    ReadingOn(fdto, l, m, z, a, a1);
    if ret != 0 {
      return;
    }
    MappingMore(fdto, l, z, a, treeNode, p, t, k, b, m, a1, t1, x);
    MappingFacts(fdto, l, z, a, treeNode, p, t, k, x);
    AtPropStays(fdto, z, a1, property, cp, rest);
    FitsStay(fdto, m, p, b, o);
    next, cp', rest' := NextPropOf(fdto, property, cp, rest);
    SameRest(fdto, m, cp, rest, a1, z);
    FixupNext(fdto, z, next, cp, rest, cp', rest', x);
  }

  lemma SameRest(fdto: Fdt, m: Layout, cp: nat, rest: Forest, a: bytes, z: Region)
    requires fdto.Valid() && fdto.Strs() == m.strs && Cursor(a, m.strs, cp, rest) && rest != Empty
    ensures Rest(fdto, rest) == Abs(rest, m.strs) && Wf(rest.rest) && Named(rest.rest, m.strs)
    ensures Rest(fdto, rest.rest) == Abs(rest.rest, m.strs)
  {
    hide Has;
  }

  lemma FixupNext(fdto: Fdt, z: Region, next: int, cp: nat, rest: Forest, cp': nat, rest': Forest, x: Tree)
    requires AtProp(fdto, next, cp', rest') && InRegion(z, cp, rest) && cp' + Size(rest') == cp + Size(rest)
    requires Size(rest') < Size(rest)
    requires Fits(x, Rest(fdto, rest'))
    ensures AtFixup(fdto, z, next, cp', rest', x)
  {
    hide Cursor;
  }

  lemma NoFixupLeft(fdto: Fdt, z: Region, property: int, cp: nat, rest: Forest, x: Tree, g: u32 -> u32)
    requires AtFixup(fdto, z, property, cp, rest, x) && property < 0
    ensures MapProps(x, Rest(fdto, rest), g) == Ok(x)
  {
    hide Has;
  }

  /**
   * A pass over the fixups node n has to find the node at p apart from all fixups, or it is the root and no name leads
   * to them.
   */
  ghost predicate CanUpdate(fdto: Fdt, treeNode: int, fixupNode: int, p: Path, z: Region, pos: nat, n: Forest)
    reads fdto, fdto.mem
  {
    && Target(fdto, treeNode, p) && IsPath(fdto.forest, p) && IsRegion(fdto.forest, z) && Clear(p, z.x, z.c)
    && Source(fdto, fixupNode, pos, n) && SourceIn(z, pos, n)
    && Fits(BodyOf(fdto, p), Rest(fdto, n.body)) && (!Aside(p, z.x) ==> Unreached(Rest(fdto, n.body), z.name))
  }

  /** The first loop of overlay_update_local_node_references: the properties of a fixup node. */
  method UpdateProps(fdto: Fdt, treeNode: int, fixupNode: int, g: u32 -> u32, ghost p: Path, ghost z: Region,
                     ghost pos: nat, ghost n: Forest)
    returns (ret: int, ghost x: Tree)
    requires CanUpdate(fdto, treeNode, fixupNode, p, z, pos, n) && fdto.Valid() && IsPath(fdto.forest, p) && n.Node?
    modifies fdto, fdto.mem
    ensures Reading(fdto, old(LayoutOf(fdto)), z, old(fdto.St()))
    ensures ret != 0 ==> ret < 0 && MapProps(old(BodyOf(fdto, p)), old(Rest(fdto, n.body)), g) == Err(ret)
    ensures ret == 0 ==> MapProps(old(BodyOf(fdto, p)), old(Rest(fdto, n.body)), g) == Ok(x)
    ensures ret == 0 ==> fdto.Tree() == old(WithBody(fdto.Tree(), AbsPath(fdto.forest, p), x))
  {
    hide *;
    CanUpdateFacts(fdto, treeNode, fixupNode, p, z, pos, n);
    MappingSelf(fdto, z, treeNode, p);
    ghost var l, a, t, k := LayoutOf(fdto), fdto.St(), fdto.Tree(), AbsPath(fdto.forest, p);
    ghost var b, o := BodyOf(fdto, p), Rest(fdto, n.body);
    var property;
    ghost var cp, rest;
    property, cp, rest := FirstProp(fdto, fixupNode, pos, n);
    FixupFirst(fdto, z, property, cp, rest, pos, n, b);
    x, ret := b, 0;
    while property >= 0
      invariant ret == 0 && Mapping(fdto, l, z, a, treeNode, p, t, k, x) && AtFixup(fdto, z, property, cp, rest, x)
      invariant MapProps(x, Rest(fdto, rest), g) == MapProps(b, o, g)
      decreases Size(rest)
    {
      ret, property, cp, rest, x := PropRound(fdto, treeNode, property, g, p, z, cp, rest, l, a, t, k, x);
      if ret != 0 {
        return;
      }
    }
    NoFixupLeft(fdto, z, property, cp, rest, x, g);
    MappingFacts(fdto, l, z, a, treeNode, p, t, k, x);
  }

  lemma CanUpdateFacts(fdto: Fdt, treeNode: int, fixupNode: int, p: Path, z: Region, pos: nat, n: Forest)
    requires CanUpdate(fdto, treeNode, fixupNode, p, z, pos, n)
    ensures fdto.Valid() && fdto.Laid() && fdto.InBounds() && fdto.StructIn() && IsPath(fdto.forest, p) && n.Node?
    ensures Target(fdto, treeNode, p)
    ensures IsRegion(fdto.forest, z) && Clear(p, z.x, z.c) && Source(fdto, fixupNode, pos, n) && SourceIn(z, pos, n)
    ensures Fits(BodyOf(fdto, p), Rest(fdto, n.body)) && (!Aside(p, z.x) ==> Unreached(Rest(fdto, n.body), z.name))
  {
    hide Fdt.St, Fdt.Strs, Has, Encodes, Named;
  }

  lemma FixupFirst(fdto: Fdt, z: Region, property: int, cp: nat, rest: Forest, pos: nat, n: Forest, b: Tree)
    requires n.Node? && AtProp(fdto, property, cp, rest) && pos <= cp
    requires cp + Size(rest) == pos + Len(n.item) + Size(n.body)
    requires SourceIn(z, pos, n) && Fits(b, Rest(fdto, rest))
    ensures AtFixup(fdto, z, property, cp, rest, b)
  {
    hide Cursor;
    assert Size(n) == Len(n.item) + Size(n.body) + 1 + Size(n.rest);
  }

  // ---------- The children of a fixup node ----------

  lemma {:induction false} MapSkipped(t: Tree, f: Tree, g: u32 -> u32)
    ensures MapKids(t, SkipProps(f), g) == MapKids(t, f, g)
    ensures FitsKids(t, f) ==> FitsKids(t, SkipProps(f))
    ensures forall x :: Unreached(f, x) ==> Unreached(SkipProps(f), x)
    decreases f
  {
    if f.PropT? {
      MapSkipped(t, f.rest, g);
    }
  }

  lemma {:induction false} MapErrors(t: Tree, f: Tree, g: u32 -> u32)
    ensures MapNode(t, f, g).Err? ==> MapNode(t, f, g).error == -BADOVERLAY
    decreases f, 1
  {
    PropErrors(t, f, g);
    match MapProps(t, f, g)
    case Err(_) =>
    case Ok(t1) => MapKidsErrors(t1, f, g);
  }

  lemma {:induction false} PropErrors(t: Tree, f: Tree, g: u32 -> u32)
    ensures MapProps(t, f, g).Err? ==> MapProps(t, f, g).error == -BADOVERLAY
    decreases f
  {
    if f.PropT? && Get(t, f.name).Some? {
      PropErrors(Replace(t, f.name, MapWords(Get(t, f.name).value, f.value, 0, g)), f.rest, g);
    }
  }

  lemma {:induction false} MapKidsErrors(t: Tree, f: Tree, g: u32 -> u32)
    ensures MapKids(t, f, g).Err? ==> MapKids(t, f, g).error == -BADOVERLAY
    decreases f, 0
  {
    match f
    case Nil =>
    case PropT(_, _, rest) => MapKidsErrors(t, rest, g);
    case NodeT(name, body, rest) =>
      if Kid(t, name).Some? {
        MapErrors(Kid(t, name).value, body, g);
        match MapNode(Kid(t, name).value, body, g)
        case Err(_) =>
        case Ok(x) => MapKidsErrors(PutKid(t, name, x), rest, g);
      }
  }

  /** The pass over the children of a fixup node, between two rounds. */
  ghost predicate AtFixupKid(fdto: Fdt, p: Path, z: Region, subnode: int, cp: nat, rest: Forest, b: Tree)
    reads fdto, fdto.mem
  {
    && AtKid(fdto, subnode, cp, rest) && InRegion(z, cp, rest) && FitsKids(b, Rest(fdto, rest))
    && (!Aside(p, z.x) ==> Unreached(Rest(fdto, rest), z.name))
  }

  /** The child of the tree node for a fixup child: apart from the fixups. */
  lemma KidClear(f: Forest, p: Path, z: Region, c: Path, name: bytes)
    requires IsPath(f, p) && At(f, p).Node? && Traverse.ChildPath(At(f, p).body, name) == Some(c)
    requires IsRegion(f, z) && Clear(p, z.x, z.c) && (!Aside(p, z.x) ==> !NameEq(z.name, name))
    ensures Clear(Inside(p, c), z.x, z.c) && Aside(Inside(p, c), z.x)
  {
    hide NameEq;
    ChildFlat(At(f, p).body, name);
    InsideAt(f, p, c, Empty);
    if Aside(p, z.x) {
      AsideBelow(p, c, z.x);
    } else {
      ClearEntry(p, z.x, z.c, c);
    }
  }

  /** The node to be updated for a fixup child. */
  lemma KidReady(fdto: Fdt, treeNode: int, p: Path, z: Region, subnode: int, cp: nat, rest: Forest, b: Tree,
                 name: bytes)
    returns (c: Path)
    requires Target(fdto, treeNode, p) && IsPath(fdto.forest, p) && IsRegion(fdto.forest, z) && Clear(p, z.x, z.c)
    requires AtFixupKid(fdto, p, z, subnode, cp, rest, b) && subnode >= 0 && b == BodyOf(fdto, p)
    requires rest.Node? && rest.item.Begin? && rest.item.name == name && Kid(b, name).Some?
    ensures IsPath(fdto.forest, Inside(p, c)) && fdto.Valid()
    ensures CanUpdate(fdto, Walk.SubnodeOffset(fdto.St(), treeNode, name), subnode, Inside(p, c), z, cp, rest)
    ensures ChildAt(b, name).Some?
    ensures AbsPath(fdto.forest, Inside(p, c)) == Inside(AbsPath(fdto.forest, p), ChildAt(b, name).value)
    ensures BodyOf(fdto, Inside(p, c)) == Kid(b, name).value && Walk.SubnodeOffset(fdto.St(), treeNode, name) >= 0
  {
    hide Fdt.St, Fdt.Strs, Has, Encodes, Named, NameEq, Walk.SubnodeOffset, Clear, IsRegion, Aside, Abs, Unreached,
         Fits, FitsKids;
    var t, k := fdto.Tree(), AbsPath(fdto.forest, p);
    NodeHere(fdto, treeNode, p);
    c := ChildOffset(fdto, treeNode, p, name);
    var w := ChildAt(b, name).value;
    KidEntry(fdto, z, p, cp, rest, b);
    KidClear(fdto.forest, p, z, c, name);
    KidSource(fdto, subnode, cp, rest);
    ChildIsNode(b, name);
    WithBodyInside(t, k, w, Nil);
  }

  lemma KidEntry(fdto: Fdt, z: Region, p: Path, cp: nat, rest: Forest, b: Tree)
    requires fdto.Valid() && rest.Node? && Cursor(fdto.St(), fdto.Strs(), cp, rest) && FitsKids(b, Rest(fdto, rest))
    requires InRegion(z, cp, rest)
    requires !Aside(p, z.x) ==> Unreached(Rest(fdto, rest), z.name)
    ensures rest.item.Begin? && Rest(fdto, rest) == NodeT(rest.item.name, Rest(fdto, rest.body), Rest(fdto, rest.rest))
    ensures Kid(b, rest.item.name).Some? ==> Fits(Kid(b, rest.item.name).value, Rest(fdto, rest.body))
    ensures FitsKids(b, Rest(fdto, rest.rest)) && SourceIn(z, cp, rest)
    ensures !Aside(p, z.x) ==> Unreached(Rest(fdto, rest.rest), z.name) && !NameEq(z.name, rest.item.name)
  {
    hide Has, HasFirst, NameEq, Kid, Fdt.St, Fdt.Strs;
  }

  /** The tree after a pass over the node at p, or the error. */
  ghost function MapGoal(fdto: Fdt, p: Path, n: Forest, g: u32 -> u32): Result<Tree>
    requires fdto.Valid() && IsPath(fdto.forest, p) && n.Node?
    reads fdto, fdto.mem
  {
    InTree(fdto, p, MapNode(BodyOf(fdto, p), Rest(fdto, n.body), g))
  }

  lemma MapGoalIs(fdto: Fdt, p: Path, n: Forest, g: u32 -> u32)
    requires fdto.Valid() && IsPath(fdto.forest, p) && n.Node?
    ensures MapGoal(fdto, p, n, g) == Within(fdto.Tree(), AbsPath(fdto.forest, p),
                                             MapNode(BodyOf(fdto, p), Rest(fdto, n.body), g))
  {
  }

  lemma KidFacts(fdto: Fdt, p: Path, z: Region, subnode: int, cp: nat, rest: Forest, b: Tree)
    requires AtFixupKid(fdto, p, z, subnode, cp, rest, b) && subnode >= 0
    ensures fdto.Valid() && rest.Node? && rest.item.Begin? && Source(fdto, subnode, cp, rest)
    ensures AtKid(fdto, subnode, cp, rest)
    ensures Cursor(fdto.St(), fdto.Strs(), cp, rest) && subnode == 4 * cp && subnode <= INT_MAX && InRegion(z, cp, rest)
    ensures Rest(fdto, rest) == NodeT(rest.item.name, Rest(fdto, rest.body), Rest(fdto, rest.rest))
    ensures FitsKids(b, Rest(fdto, rest.rest)) && (!Aside(p, z.x) ==> Unreached(Rest(fdto, rest.rest), z.name))
  {
    hide Fdt.St, Fdt.Strs, Has, Encodes, Named, NameEq;
    KidSource(fdto, subnode, cp, rest);
    KidEntry(fdto, z, p, cp, rest, b);
  }

  /** What child lookup says about the node at p. */
  lemma KidOffset(fdto: Fdt, treeNode: int, p: Path, name: bytes)
    requires Target(fdto, treeNode, p) && IsPath(fdto.forest, p)
    ensures if Kid(BodyOf(fdto, p), name).Some? then Walk.SubnodeOffset(fdto.St(), treeNode, name) >= 0
            else Walk.SubnodeOffset(fdto.St(), treeNode, name) == -NOTFOUND
  {
    hide Fdt.St, Fdt.Strs, Has, Encodes, Named, NameEq, Walk.SubnodeOffset, Abs;
    NodeEdit.ChildLookedUp(fdto.St(), fdto.Strs(), fdto.forest, p, name);
  }

  lemma AtKidStays(fdto: Fdt, strs: bytes, z: Region, a: bytes, subnode: int, cp: nat, rest: Forest)
    requires fdto.Valid() && fdto.Strs() == strs && Cursor(a, strs, cp, rest) && rest.Node? && InRegion(z, cp, rest)
    requires Untouched(z, a, fdto.St()) && subnode == 4 * cp && subnode <= INT_MAX
    ensures AtKid(fdto, subnode, cp, rest) && Rest(fdto, rest.rest) == Abs(rest.rest, strs)
  {
    hide Has;
    CursorStays(z, a, fdto.St(), strs, cp, rest);
  }

  /** A pass over a child, as a step of the pass over the node. */
  lemma KidMapped(t1: Tree, k: Path, b: Tree, name: bytes, body: Tree, rest: Tree, g: u32 -> u32)
    requires IsNode(t1, k) && BodyAt(t1, k) == b && ChildAt(b, name).Some? && Kid(b, name).Some?
    ensures IsNode(t1, Inside(k, ChildAt(b, name).value))
    ensures match MapNode(Kid(b, name).value, body, g)
      case Err(e) => MapKids(b, NodeT(name, body, rest), g) == Err(e)
      case Ok(y) =>
        && MapKids(b, NodeT(name, body, rest), g) == MapKids(PutKid(b, name, y), rest, g)
        && WithBody(t1, Inside(k, ChildAt(b, name).value), y) == WithBody(t1, k, PutKid(b, name, y))
  {
    hide MapNode;
    var c := ChildAt(b, name).value;
    ChildIsNode(b, name);
    match MapNode(Kid(b, name).value, body, g)
    case Err(_) => WithBodyInside(t1, k, c, Nil);
    case Ok(y) => WithBodyInside(t1, k, c, y);
  }

  lemma NoKidMapped(b: Tree, name: bytes, body: Tree, rest: Tree, g: u32 -> u32)
    requires Kid(b, name).None?
    ensures MapKids(b, NodeT(name, body, rest), g) == Err(-BADOVERLAY)
  {
  }

  lemma FixupKidNext(fdto: Fdt, p: Path, z: Region, next: int, cp: nat, rest: Forest, cp': nat, rest': Forest, x: Tree,
                     o: Tree, g: u32 -> u32)
    requires AtKid(fdto, next, cp', rest') && InRegion(z, cp, rest) && cp' + Size(rest') == cp + Size(rest)
    requires Size(rest') < Size(rest)
    requires Rest(fdto, rest') == SkipProps(o) && FitsKids(x, o) && (!Aside(p, z.x) ==> Unreached(o, z.name))
    ensures AtFixupKid(fdto, p, z, next, cp', rest', x) && MapKids(x, Rest(fdto, rest'), g) == MapKids(x, o, g)
  {
    hide Cursor;
    MapSkipped(x, o, g);
  }

  /** A round of the second loop, and what it leaves behind. */
  method KidRound(fdto: Fdt, treeNode: int, subnode: nat, g: u32 -> u32, ghost p: Path, ghost z: Region, ghost cp: nat,
                  ghost rest: Forest,
                  ghost l: Layout, ghost a: bytes, ghost t: Tree, ghost k: Path, ghost b: Tree)
    returns (ret: int, next: int, ghost cp': nat, ghost rest': Forest, ghost x: Tree)
    requires Mapping(fdto, l, z, a, treeNode, p, t, k, b) && Clear(p, z.x, z.c)
    requires AtFixupKid(fdto, p, z, subnode, cp, rest, b)
    modifies fdto, fdto.mem
    ensures ret != 0 ==> ret < 0 && Reading(fdto, l, z, a) && MapKids(b, old(Rest(fdto, rest)), g) == Err(ret)
    ensures ret == 0 ==>
              && Mapping(fdto, l, z, a, treeNode, p, t, k, x) && AtFixupKid(fdto, p, z, next, cp', rest', x)
              && Size(rest') < Size(rest)
              && MapKids(b, old(Rest(fdto, rest)), g) == MapKids(x, Rest(fdto, rest'), g)
    decreases Size(rest), 3
  {
    hide *;
    MappingFacts(fdto, l, z, a, treeNode, p, t, k, b);
    KidFacts(fdto, p, z, subnode, cp, rest, b);
    LayoutWf(fdto);
    BodyOfIs(fdto, p);
    ghost var m, a1, t1, o := LayoutOf(fdto), fdto.St(), fdto.Tree(), Rest(fdto, rest.rest);
    ghost var body := Rest(fdto, rest.body);
    SameRest(fdto, m, cp, rest, a1, z);
    next, cp', rest', x := subnode, cp, rest, b;
    var name := NodeName(fdto, subnode, cp, rest);
    KidOffset(fdto, treeNode, p, name);
    ErrorCodes();
    var treeChild := ReadOnly.SubnodeOffset(fdto, treeNode, name);
    if treeChild == -NOTFOUND {
      NoKidMapped(b, name, body, o, g);
      return -BADOVERLAY, next, cp', rest', x;
    }
    if treeChild < 0 {
      return treeChild, next, cp', rest', x;
    }
    ghost var c := KidReady(fdto, treeNode, p, z, subnode, cp, rest, b, name);
    KidMapped(t1, k, b, name, body, o, g);
    MapGoalIs(fdto, Inside(p, c), rest, g);
    ret := UpdateNode(fdto, treeChild, subnode, g, Inside(p, c), z, cp, rest);
    ghost var r := MapNode(Kid(b, name).value, body, g);
    ReadingFacts(fdto, m, z, a1);
    ReadingOn(fdto, l, m, z, a, a1);
    AnswerWithin(fdto, m, t1, AbsPath(m.forest, Inside(p, c)), r, ret);
    if ret != 0 {
      return;
    }
    x := PutKid(b, name, r.value);
    MappingMore(fdto, l, z, a, treeNode, p, t, k, b, m, a1, t1, x);
    MappingFacts(fdto, l, z, a, treeNode, p, t, k, x);
    FitsStay(fdto, m, p, b, o);
    AtKidStays(fdto, m.strs, z, a1, subnode, cp, rest);
    next, cp', rest' := NextKid(fdto, subnode, cp, rest);
    FixupKidNext(fdto, p, z, next, cp, rest, cp', rest', x, o, g);
  }

  lemma ErrorCodes()
    ensures 0 < NOTFOUND && 0 < BADOVERLAY
  {
  }

  lemma AnswerWithin(fdto: Fdt, m: Layout, t: Tree, k: Path, r: Result<Tree>, ret: int)
    requires Answers(fdto, m, Within(t, k, r), ret)
    ensures Keeps(m, fdto) && fdto.Valid()
    ensures ret != 0 ==> r == Err(ret) && ret < 0
    ensures ret == 0 ==> r.Ok? && fdto.Tree() == WithBody(t, k, r.value)
  {
  }

  /** The second loop of overlay_update_local_node_references: the children of a fixup node. */
  method UpdateKids(fdto: Fdt, treeNode: int, fixupNode: int, g: u32 -> u32, ghost p: Path, ghost z: Region,
                    ghost pos: nat, ghost n: Forest)
    returns (ret: int, ghost x: Tree)
    requires CanUpdate(fdto, treeNode, fixupNode, p, z, pos, n) && fdto.Valid() && IsPath(fdto.forest, p) && n.Node?
    modifies fdto, fdto.mem
    ensures Reading(fdto, old(LayoutOf(fdto)), z, old(fdto.St()))
    ensures ret != 0 ==> ret < 0 && MapKids(old(BodyOf(fdto, p)), old(Rest(fdto, n.body)), g) == Err(ret)
    ensures ret == 0 ==> MapKids(old(BodyOf(fdto, p)), old(Rest(fdto, n.body)), g) == Ok(x)
    ensures ret == 0 ==> fdto.Tree() == old(WithBody(fdto.Tree(), AbsPath(fdto.forest, p), x))
    decreases Size(n), 1
  {
    hide *;
    CanUpdateFacts(fdto, treeNode, fixupNode, p, z, pos, n);
    MappingSelf(fdto, z, treeNode, p);
    ghost var l, a, t, k := LayoutOf(fdto), fdto.St(), fdto.Tree(), AbsPath(fdto.forest, p);
    ghost var b, o := BodyOf(fdto, p), Rest(fdto, n.body);
    var subnode;
    ghost var cp, rest;
    subnode, cp, rest := Applying.FirstKid(fdto, fixupNode, pos, n);
    FixupKidFirst(fdto, p, z, subnode, cp, rest, pos, n, b, o, g);
    x, ret := b, 0;
    while subnode >= 0
      invariant ret == 0 && Mapping(fdto, l, z, a, treeNode, p, t, k, x) && AtFixupKid(fdto, p, z, subnode, cp, rest, x)
      invariant MapKids(x, Rest(fdto, rest), g) == MapKids(b, o, g) && Size(rest) < Size(n)
      decreases Size(rest)
    {
      ret, subnode, cp, rest, x := KidRound(fdto, treeNode, subnode, g, p, z, cp, rest, l, a, t, k, x);
      if ret != 0 {
        return;
      }
    }
    NoFixupKidLeft(fdto, p, z, subnode, cp, rest, x, g);
    MappingFacts(fdto, l, z, a, treeNode, p, t, k, x);
  }

  lemma FixupKidFirst(fdto: Fdt, p: Path, z: Region, subnode: int, cp: nat, rest: Forest, pos: nat, n: Forest, b: Tree,
                      o: Tree, g: u32 -> u32)
    requires n.Node? && AtKid(fdto, subnode, cp, rest) && pos <= cp
    requires cp + Size(rest) == pos + Len(n.item) + Size(n.body)
    requires SourceIn(z, pos, n) && Rest(fdto, rest) == SkipProps(o) && Fits(b, o)
    requires (!Aside(p, z.x) ==> Unreached(o, z.name))
    ensures AtFixupKid(fdto, p, z, subnode, cp, rest, b) && MapKids(b, Rest(fdto, rest), g) == MapKids(b, o, g)
  {
    hide Cursor;
    assert Size(n) == Len(n.item) + Size(n.body) + 1 + Size(n.rest);
    MapSkipped(b, o, g);
  }

  lemma NoFixupKidLeft(fdto: Fdt, p: Path, z: Region, subnode: int, cp: nat, rest: Forest, x: Tree, g: u32 -> u32)
    requires AtFixupKid(fdto, p, z, subnode, cp, rest, x) && subnode < 0
    ensures MapKids(x, Rest(fdto, rest), g) == Ok(x)
  {
    hide Has;
  }

  /**
   * overlay_update_local_node_references with g the shift, and overlay_update_node_conflicting_references with g the
   * exchange of one phandle for another.
   */
  method UpdateNode(fdto: Fdt, treeNode: int, fixupNode: int, g: u32 -> u32, ghost p: Path, ghost z: Region,
                    ghost pos: nat, ghost n: Forest)
    returns (ret: int)
    requires CanUpdate(fdto, treeNode, fixupNode, p, z, pos, n) && fdto.Valid() && IsPath(fdto.forest, p) && n.Node?
    modifies fdto, fdto.mem
    ensures Reading(fdto, old(LayoutOf(fdto)), z, old(fdto.St()))
    ensures Answers(fdto, old(LayoutOf(fdto)), old(MapGoal(fdto, p, n, g)), ret)
    decreases Size(n), 2
  {
    hide *;
    CanUpdateFacts(fdto, treeNode, fixupNode, p, z, pos, n);
    MappingSelf(fdto, z, treeNode, p);
    MapGoalIs(fdto, p, n, g);
    LayoutWf(fdto);
    BodyOfIs(fdto, p);
    ghost var l, a, t, k := LayoutOf(fdto), fdto.St(), fdto.Tree(), AbsPath(fdto.forest, p);
    ghost var b, o := BodyOf(fdto, p), Rest(fdto, n.body);
    MappingFacts(fdto, l, z, a, treeNode, p, t, k, b);
    SourceHas(fdto, fixupNode, pos, n);
    ghost var x, y;
    ret, x := UpdateProps(fdto, treeNode, fixupNode, g, p, z, pos, n);
    MapNodeIs(b, o, g);
    if ret != 0 {
      AnswerFrom(fdto, l, z, a, t, k, b, o, g, ret);
      return;
    }
    CanUpdateStill(fdto, l, a, t, k, b, o, x, treeNode, fixupNode, p, z, pos, n);
    ghost var m, a1, t1 := LayoutOf(fdto), fdto.St(), fdto.Tree();
    ret, y := UpdateKids(fdto, treeNode, fixupNode, g, p, z, pos, n);
    ReadingFacts(fdto, m, z, a1);
    ReadingOn(fdto, l, m, z, a, a1);
    UpdatedTwice(t, k, x, if ret == 0 then y else x);
    AnswerFrom(fdto, l, z, a, t, k, b, o, g, ret);
  }

  lemma SourceHas(fdto: Fdt, node: int, pos: nat, n: Forest)
    requires Source(fdto, node, pos, n)
    ensures fdto.Valid() && n.Node? && node == 4 * pos && Wf(n) && Named(n, fdto.Strs()) && Has(fdto.St(), pos, n)
    ensures Rest(fdto, n.body) == Abs(n.body, fdto.Strs())
  {
    hide Has;
  }

  lemma MapNodeIs(b: Tree, o: Tree, g: u32 -> u32)
    ensures MapNode(b, o, g) == match MapProps(b, o, g) case Err(e) => Err(e) case Ok(x) => MapKids(x, o, g)
  {
  }

  lemma UpdatedTwice(t: Tree, k: Path, x: Tree, y: Tree)
    requires IsNode(t, k)
    ensures WithBody(WithBody(t, k, x), k, y) == WithBody(t, k, y)
  {
    WithBodyAt(t, k, x, y);
  }

  lemma AnswerFrom(fdto: Fdt, l: Layout, z: Region, a: bytes, t: Tree, k: Path, b: Tree, o: Tree, g: u32 -> u32,
                   ret: int)
    requires Reading(fdto, l, z, a)
    requires var r := MapNode(b, o, g);
      if ret != 0 then ret < 0 && r == Err(ret) else r.Ok? && fdto.Tree() == WithBody(t, k, r.value)
    ensures Answers(fdto, l, Within(t, k, MapNode(b, o, g)), ret)
  {
    hide MapNode, WithBody;
  }

  lemma CanUpdateStill(fdto: Fdt, l: Layout, a: bytes, t: Tree, k: Path, b: Tree, o: Tree, x: Tree,
                       treeNode: int, fixupNode: int, p: Path, z: Region, pos: nat, n: Forest)
    requires Reading(fdto, l, z, a) && IsNode(t, k) && fdto.Tree() == WithBody(t, k, x)
    requires Wf(l.forest) && Named(l.forest, l.strs) && t == Abs(l.forest, l.strs) && b == BodyAt(t, k)
    requires IsPath(l.forest, p) && At(l.forest, p).Node? && AbsPath(l.forest, p) == k && Fits(b, o)
    requires -INT_MAX - 1 <= treeNode <= INT_MAX && treeNode == 4 * Pos(l.forest, p)
    requires Clear(p, z.x, z.c) && (!Aside(p, z.x) ==> Unreached(o, z.name)) && n.Node?
    requires SourceIn(z, pos, n) && fixupNode == 4 * pos && Wf(n) && Named(n, l.strs) && Has(a, pos, n)
    requires o == Abs(n.body, l.strs)
    ensures fdto.Valid() && fdto.StructIn() && IsPath(fdto.forest, p)
    ensures CanUpdate(fdto, treeNode, fixupNode, p, z, pos, n)
    ensures Changes(l, LayoutOf(fdto)) && IsRegion(LayoutOf(fdto).forest, z) && Untouched(z, a, fdto.St())
    ensures AbsPath(fdto.forest, p) == k && BodyOf(fdto, p) == x && Rest(fdto, n.body) == o
  {
    hide Fdt.St, Fdt.Strs, Fdt.Front, Has, Encodes, Untouched, Clear, Aside, Fits, Unreached, WithBody, Abs, IsRegion;
    ReadingFacts(fdto, l, z, a);
    KeepsTarget(l, fdto, treeNode, p);
    SourceStays(fdto, l.strs, z, a, fixupNode, pos, n);
    FitsStay(fdto, l, p, b, o);
    WithBodyAt(t, k, x, x);
  }

  // ---------- All references ----------

  /** The pass over all references of the overlay body t. */
  ghost function MapAll(t: Tree, g: u32 -> u32): Result<Tree> {
    match Kid(t, LOCAL_FIXUPS)
    case None => Ok(t)
    case Some(f) => MapNode(t, f, g)
  }

  /** The fixups of t list words of its values, and do not list themselves. */
  ghost predicate FixupsFit(t: Tree) {
    match ChildAt(t, LOCAL_FIXUPS)
    case None => true
    case Some(c) => Fits(t, BodyAt(t, c)) && Unreached(BodyAt(t, c), TreeAt(t, c).name)
  }

  ghost function ReferencesGoal(fdto: Fdt, g: u32 -> u32): Result<Tree>
    requires fdto.Valid()
    reads fdto, fdto.mem
  {
    InTree(fdto, Here, MapAll(BodyOf(fdto, Here), g))
  }

  /** A path of one component. */
  lemma OneComponent(st: bytes, name: bytes)
    requires name != [] && SLASH !in name
    ensures Paths.PathFrom(st, [SLASH] + name, 0) == SubnodeOffset(st, 0, name)
  {
    hide SubnodeOffset;
    assert ([SLASH] + name)[1..] == name;
    assert name[0] in name;
    assert Paths.PathFrom(st, [SLASH] + name, 0) == Paths.PathFrom(st, name, 0);
    var k := Paths.FirstSlash(name);
    assert k == |name| && name[..k] == name && name[k..] == [];
  }

  /** The region of the fixups, found as the child at c of the root. */
  ghost function RegionAt(f: Forest, c: Path): Region
    requires f.Node? && IsPath(f.body, c) && At(f.body, c).Node? && At(f.body, c).item.Begin?
  {
    Region(Inside(Here, c), c, Len(f.item) + Pos(f.body, c), Width(At(f.body, c)), At(f.body, c).item.name)
  }

  /** The fixups node alone. */
  ghost function Alone(n: Forest): Forest
    requires n.Node?
  {
    Node(n.item, n.body, Empty)
  }

  lemma AloneHas(st: bytes, strs: bytes, pos: nat, n: Forest)
    requires n.Node? && Wf(n) && Named(n, strs) && Has(st, pos, n)
    ensures Wf(Alone(n)) && Named(Alone(n), strs) && Has(st, pos, Alone(n)) && Size(Alone(n)) == Width(n)
  {
    FirstOnly(st, pos, n, Empty);
    assert Has(st, pos + Width(n), Empty);
  }

  /** The fixups node, a child of the root at c. */
  lemma FixupsNode(st: bytes, strs: bytes, f: Forest, c: Path)
    requires Encodes(st, f) && Named(f, strs) && f.Node? && IsPath(f.body, c) && At(f.body, c).Node? && Flat(c)
    ensures At(f.body, c).item.Begin? && IsRegion(f, RegionAt(f, c))
    ensures SourceIn(RegionAt(f, c), RegionAt(f, c).at, Alone(At(f.body, c)))
    ensures Clear(Here, RegionAt(f, c).x, RegionAt(f, c).c)
    ensures var n := Alone(At(f.body, c));
      && Wf(n) && Named(n, strs) && Has(st, RegionAt(f, c).at, n) && Wf(At(f.body, c)) && Named(At(f.body, c), strs)
      && Wf(n.body) && Named(n.body, strs)
      && Abs(At(f.body, c), strs) == NodeT(n.item.name, Abs(n.body, strs), Abs(At(f.body, c).rest, strs))
  {
    hide Has, Abs, Wf, Named;
    EncodesWf(st, f);
    InsideAt(f, Here, c, Empty);
    NodeAbs(f, Inside(Here, c), strs);
    EncodesAt(st, f, Inside(Here, c));
    NodeParts(At(f.body, c), strs);
    AloneHas(st, strs, RegionAt(f, c).at, At(f.body, c));
  }

  /** What the pass over all references starts with. */
  lemma AllReady(fdto: Fdt) returns (c: Path)
    requires Target(fdto, 0, Here) && FixupsFit(BodyOf(fdto, Here)) && Kid(BodyOf(fdto, Here), LOCAL_FIXUPS).Some?
    ensures var f := fdto.forest;
      && fdto.Valid() && f.Node? && IsPath(f.body, c) && At(f.body, c).Node? && At(f.body, c).item.Begin?
      && CanUpdate(fdto, 0, SubnodeOffset(fdto.St(), 0, LOCAL_FIXUPS), Here, RegionAt(f, c), RegionAt(f, c).at,
                   Alone(At(f.body, c)))
      && Rest(fdto, At(f.body, c).body) == Kid(BodyOf(fdto, Here), LOCAL_FIXUPS).value
  {
    hide Fdt.St, Fdt.Strs, Has, Encodes, Named, NameEq, SubnodeOffset, Abs, Unreached, Fits, Wf, Clear, SourceIn,
         IsRegion;
    var f, t := fdto.forest, fdto.Tree();
    EncodesWf(fdto.St(), f);
    c := ChildOffset(fdto, 0, Here, LOCAL_FIXUPS);
    ChildFlat(f.body, LOCAL_FIXUPS);
    FixupsNode(fdto.St(), fdto.Strs(), f, c);
    InsideAt(f, Here, c, Empty);
    NodeAbs(f, Inside(Here, c), fdto.Strs());
    NodeAbs(f, Here, fdto.Strs());
    ChildIsNode(BodyOf(fdto, Here), LOCAL_FIXUPS);
    WithBodyInside(t, Here, ChildAt(BodyOf(fdto, Here), LOCAL_FIXUPS).value, Nil);
  }

  /** overlay_update_local_references and overlay_update_local_conflicting_references */
  method UpdateReferences(fdto: Fdt, g: u32 -> u32) returns (ret: int)
    requires Target(fdto, 0, Here) && fdto.Valid() && FixupsFit(BodyOf(fdto, Here))
    modifies fdto, fdto.mem
    ensures Answers(fdto, old(LayoutOf(fdto)), old(ReferencesGoal(fdto, g)), ret)
  {
    hide Fdt.St, Fdt.Strs, Fdt.Front, Fdt.Tree, Fdt.Hdr, Has, Encodes, Named, NameEq, SubnodeOffset, Abs, Unreached,
         Fits, CanUpdate, MapNode, WithBody,
         BodyAt, IsNode, Keeps, Paths.PathFrom, FixupsFit, Rest, Reading;
    NodeHere(fdto, 0, Here);
    KeepsSelf(fdto);
    KidOffset(fdto, 0, Here, LOCAL_FIXUPS);
    OneComponent(fdto.St(), LOCAL_FIXUPS);
    var fixups := Paths.PathOffset(fdto, [SLASH] + LOCAL_FIXUPS);
    if fixups < 0 {
      WithBodySelf(fdto.Tree(), Here);
      if fixups == -NOTFOUND {
        return 0;
      }
      return fixups;
    }
    ghost var f := fdto.forest;
    ghost var c := AllReady(fdto);
    ret := UpdateNode(fdto, 0, fixups, g, Here, RegionAt(f, c), RegionAt(f, c).at, Alone(At(f.body, c)));
  }

  lemma MapAllIs(t: Tree, delta: u32)
    ensures MapAll(t, ShiftMap(delta)) == LocalReferences(t, delta)
    ensures forall x: u32, y: u32 :: MapAll(t, ConflictMap(x, y)) == ConflictingReferences(t, x, y)
  {
    OneStep(t, LOCAL_FIXUPS);
  }
}
