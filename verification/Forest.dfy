/** Concrete syntax of a structure block: the list of entries of one node body. */
module Forests {
  // NOPs and padding bytes are kept, so that a forest determines its bytes. Sizes and positions are
  // counted in 4-byte cells; position p is the structure offset 4 * p.

  import opened Bytes
  import opened Tags

  /** A tag with its payload. */
  datatype Item =
    | Nop
    | Prop(nameoff: u32, value: bytes, pad: bytes)
    | Begin(name: bytes, padding: bytes)

  datatype Forest =
    | Empty
    | Leaf(item: Item, rest: Forest)
    | Node(item: Item, body: Forest, rest: Forest)

  /** A place in a forest: go to the next entry of the body, or into the body of the first one. */
  datatype Path = Here | Next(tail: Path) | Into(tail: Path)

  /** pad fills n bytes up to a whole number of cells. */
  predicate PadOk(n: nat, pad: bytes) {
    n + |pad| == 4 * Cells(n)
  }

  ghost predicate WfItem(it: Item) {
    match it
    case Nop => true
    case Prop(_, value, pad) => |value| <= INT_MAX && PadOk(|value|, pad)
    case Begin(name, padding) => 0 !in name && PadOk(|name| + 1, padding)
  }

  ghost predicate Wf(f: Forest) {
    match f
    case Empty => true
    case Leaf(item, rest) => !item.Begin? && WfItem(item) && Wf(rest)
    case Node(item, body, rest) => item.Begin? && WfItem(item) && Wf(body) && Wf(rest)
  }

  /** The number of cells of an item. */
  function Len(it: Item): (r: nat)
    ensures r >= 1
  {
    match it
    case Nop => 1
    case Prop(_, value, _) => 3 + Cells(|value|)
    case Begin(name, _) => 1 + Cells(|name| + 1)
  }

  /** The number of cells taken by the first entry of f. */
  ghost function Width(f: Forest): (r: nat)
    requires f != Empty
    ensures r >= 1
    decreases f, 0
  {
    if f.Leaf? then Len(f.item) else Len(f.item) + Size(f.body) + 1
  }

  /** The number of cells taken by f. */
  ghost function Size(f: Forest): nat
    decreases f, 1
  {
    if f == Empty then 0 else Width(f) + Size(f.rest)
  }

  /** The word at position p is tag. */
  predicate TagAt(st: bytes, p: nat, tag: u32) {
    4 * p + 4 <= |st| && Dec32(st, 4 * p) == tag
  }

  predicate PropAt(st: bytes, p: nat, nameoff: u32, value: bytes, pad: bytes) {
    var o := 4 * p;
    && TagAt(st, p, FDT_PROP)
    && o + 12 + |value| + |pad| <= |st|
    && Dec32(st, o + 4) == |value| && Dec32(st, o + 8) == nameoff
    && st[o + 12..o + 12 + |value|] == value
    && st[o + 12 + |value|..o + 12 + |value| + |pad|] == pad
  }

  predicate BeginAt(st: bytes, p: nat, name: bytes, pad: bytes) {
    var o := 4 * p;
    && TagAt(st, p, FDT_BEGIN_NODE)
    && o + 5 + |name| + |pad| <= |st|
    && st[o + 4..o + 4 + |name|] == name
    && st[o + 4 + |name|] == 0
    && st[o + 5 + |name|..o + 5 + |name| + |pad|] == pad
  }

  ghost predicate ItemAt(st: bytes, p: nat, it: Item) {
    match it
    case Nop => TagAt(st, p, FDT_NOP)
    case Prop(nameoff, value, pad) => PropAt(st, p, nameoff, value, pad)
    case Begin(name, padding) => BeginAt(st, p, name, padding)
  }

  /** The first entry of f is encoded in st from position p on. */
  ghost predicate HasFirst(st: bytes, p: nat, f: Forest)
    requires f != Empty
    decreases f, 0
  {
    ItemAt(st, p, f.item) &&
    (f.Node? ==>
       Has(st, p + Len(f.item), f.body) && TagAt(st, p + Len(f.item) + Size(f.body), FDT_END_NODE))
  }

  /** f is encoded in st from position p on. */
  ghost predicate Has(st: bytes, p: nat, f: Forest)
    decreases f, 1
  {
    f != Empty ==> HasFirst(st, p, f) && Has(st, p + Width(f), f.rest)
  }

  // ---------- fdt_next_tag on an encoding ----------

  lemma FindNulAt(st: bytes, i: nat, k: nat)
    requires i <= k < |st| && st[k] == 0 && 0 !in st[i..k]
    ensures FindNul(st, i) == k
  {
    forall m | i <= m < k ensures st[m] != 0 {
      assert st[m] == st[i..k][m - i];
    }
  }

  lemma NameEnds(st: bytes, p: nat, name: bytes, pad: bytes)
    requires BeginAt(st, p, name, pad) && 0 !in name
    ensures FindNul(st, 4 * p + 4) == 4 * p + 4 + |name|
  {
    hide Dec32, FindNul;
    var i := 4 * p + 4;
    assert 0 !in st[i..i + |name|];
    FindNulAt(st, i, i + |name|);
  }

  lemma NextTagNamed(st: bytes, p: nat, n: nat)
    requires TagAt(st, p, FDT_BEGIN_NODE) && FindNul(st, 4 * p + 4) == 4 * p + 4 + n
    ensures NextTag(st, 4 * p) == (FDT_BEGIN_NODE, 4 * (p + 1 + Cells(n + 1)))
  {
    hide Dec32, Cells, NextTag, FindNul;
    NextTagOfBegin(st, 4 * p);
    AlignPlus(p + 1, 1 + n);
  }

  lemma NextTagBegin(st: bytes, p: nat, name: bytes, pad: bytes)
    requires BeginAt(st, p, name, pad) && 0 !in name
    ensures NextTag(st, 4 * p) == (FDT_BEGIN_NODE, 4 * (p + 1 + Cells(|name| + 1)))
    ensures FindNul(st, 4 * p + 4) == 4 * p + 4 + |name|
  {
    hide Dec32, Cells, NextTag, FindNul;
    NameEnds(st, p, name, pad);
    NextTagNamed(st, p, |name|);
  }

  lemma NextTagProp(st: bytes, p: nat, nameoff: u32, value: bytes, pad: bytes)
    requires PropAt(st, p, nameoff, value, pad) && PadOk(|value|, pad)
    ensures NextTag(st, 4 * p) == (FDT_PROP, 4 * (p + 3 + Cells(|value|)))
  {
    hide Dec32, Cells, NextTag;
    NextTagOfProp(st, 4 * p);
    AlignPlus(p + 3, |value|);
  }

  lemma NextTagWord(st: bytes, p: nat, tag: u32)
    requires TagAt(st, p, tag)
    requires tag == FDT_NOP || tag == FDT_END_NODE || tag == FDT_END
    ensures NextTag(st, 4 * p) == (tag, 4 * (p + 1))
  {
    AlignPlus(p + 1, 0);
  }

  function TagOf(it: Item): u32 {
    match it
    case Nop => FDT_NOP
    case Prop(_, _, _) => FDT_PROP
    case Begin(_, _) => FDT_BEGIN_NODE
  }

  /** fdt_next_tag on an encoded item. */
  lemma NextTagItem(st: bytes, p: nat, it: Item)
    requires WfItem(it) && ItemAt(st, p, it)
    ensures NextTag(st, 4 * p) == (TagOf(it), 4 * (p + Len(it)))
  {
    match it
    case Nop => NextTagWord(st, p, FDT_NOP);
    case Prop(nameoff, value, pad) => NextTagProp(st, p, nameoff, value, pad);
    case Begin(name, pad) => NextTagBegin(st, p, name, pad);
  }

  // ---------- Places ----------

  ghost predicate IsPath(f: Forest, p: Path) {
    match p
    case Here => true
    case Next(q) => f != Empty && IsPath(f.rest, q)
    case Into(q) => f.Node? && IsPath(f.body, q)
  }

  /** The rest of the body from place p on. */
  ghost function At(f: Forest, p: Path): Forest
    requires IsPath(f, p)
  {
    match p
    case Here => f
    case Next(q) => At(f.rest, q)
    case Into(q) => At(f.body, q)
  }

  /** The position of place p, from the start of f. */
  ghost function Pos(f: Forest, p: Path): nat
    requires IsPath(f, p)
  {
    match p
    case Here => 0
    case Next(q) => Width(f) + Pos(f.rest, q)
    case Into(q) => Len(f.item) + Pos(f.body, q)
  }

  /** f with the rest of the body from place p on replaced by g. */
  ghost function Put(f: Forest, p: Path, g: Forest): Forest
    requires IsPath(f, p)
  {
    match p
    case Here => g
    case Next(q) => f.(rest := Put(f.rest, q, g))
    case Into(q) => f.(body := Put(f.body, q, g))
  }

  lemma {:induction false} PosRange(f: Forest, p: Path)
    requires IsPath(f, p)
    ensures Pos(f, p) + Size(At(f, p)) <= Size(f)
  {
    match p
    case Here =>
    case Next(q) => PosRange(f.rest, q);
    case Into(q) => PosRange(f.body, q);
  }

  lemma {:induction false} AtWf(f: Forest, p: Path)
    requires IsPath(f, p) && Wf(f)
    ensures Wf(At(f, p))
  {
    match p
    case Here =>
    case Next(q) => AtWf(f.rest, q);
    case Into(q) => AtWf(f.body, q);
  }

  /** Replacing keeps the padding rules. */
  lemma {:induction false} PutWf(f: Forest, p: Path, g: Forest)
    requires IsPath(f, p) && Wf(f) && Wf(g)
    ensures Wf(Put(f, p, g))
  {
    match p
    case Here =>
    case Next(q) => PutWf(f.rest, q, g);
    case Into(q) => PutWf(f.body, q, g);
  }

  /** Replacing changes the size by the difference of the parts. */
  lemma {:induction false} PutSize(f: Forest, p: Path, g: Forest)
    requires IsPath(f, p)
    ensures Size(Put(f, p, g)) == Size(f) - Size(At(f, p)) + Size(g)
  {
    match p
    case Here =>
    case Next(q) => PutSize(f.rest, q, g);
    case Into(q) => PutSize(f.body, q, g);
  }

  /** Reading back what was put, at the same position. */
  lemma {:induction false} PutAt(f: Forest, p: Path, g: Forest)
    requires IsPath(f, p)
    ensures IsPath(Put(f, p, g), p) && At(Put(f, p, g), p) == g && Pos(Put(f, p, g), p) == Pos(f, p)
  {
    match p
    case Here =>
    case Next(q) => PutAt(f.rest, q, g);
    case Into(q) => PutAt(f.body, q, g);
  }

  lemma {:induction false} PutPut(f: Forest, p: Path, g: Forest, h: Forest)
    requires IsPath(f, p)
    ensures IsPath(Put(f, p, g), p) && Put(Put(f, p, g), p, h) == Put(f, p, h)
  {
    match p
    case Here =>
    case Next(q) => PutPut(f.rest, q, g, h);
    case Into(q) => PutPut(f.body, q, g, h);
  }

  function Join(p: Path, q: Path): Path {
    match p
    case Here => q
    case Next(r) => Next(Join(r, q))
    case Into(r) => Into(Join(r, q))
  }

  /** A place below a place. */
  lemma {:induction false} JoinAt(f: Forest, p: Path, q: Path, g: Forest)
    requires IsPath(f, p) && IsPath(At(f, p), q)
    ensures IsPath(f, Join(p, q))
    ensures At(f, Join(p, q)) == At(At(f, p), q)
    ensures Pos(f, Join(p, q)) == Pos(f, p) + Pos(At(f, p), q)
    ensures Put(f, Join(p, q), g) == Put(f, p, Put(At(f, p), q, g))
  {
    match p
    case Here =>
    case Next(r) => JoinAt(f.rest, r, q, g);
    case Into(r) => JoinAt(f.body, r, q, g);
  }

  lemma {:induction false} HasAt(st: bytes, s: nat, f: Forest, p: Path)
    requires IsPath(f, p) && Has(st, s, f)
    ensures Has(st, s + Pos(f, p), At(f, p))
    decreases p
  {
    hide ItemAt, TagAt, Len;
    match p
    case Here =>
    case Next(q) => HasAt(st, s + Width(f), f.rest, q);
    case Into(q) => HasAt(st, s + Len(f.item), f.body, q);
  }

  // ---------- Moving encodings ----------

  /** The n bytes of a from i on are those of b from j on. */
  ghost predicate Same(a: bytes, i: nat, b: bytes, j: nat, n: nat) {
    i + n <= |a| && j + n <= |b| && forall k :: j <= k < j + n ==> b[k] == a[k - j + i]
  }

  lemma SameSlices(a: bytes, i: nat, b: bytes, j: nat, n: nat)
    requires i + n <= |a| && j + n <= |b|
    ensures Same(a, i, b, j, n) <==> a[i..i + n] == b[j..j + n]
  {
    if a[i..i + n] == b[j..j + n] {
      forall k | j <= k < j + n ensures b[k] == a[k - j + i] {
        assert b[k] == b[j..j + n][k - j];
      }
    }
  }

  /** The n cells of a from i on are those of b from j on. */
  ghost predicate SameCells(a: bytes, i: nat, b: bytes, j: nat, n: nat) {
    Same(a, 4 * i, b, 4 * j, 4 * n)
  }

  lemma SameSub(a: bytes, i: nat, b: bytes, j: nat, n: nat, x: nat, m: nat)
    requires SameCells(a, i, b, j, n) && x + m <= n
    ensures SameCells(a, i + x, b, j + x, m)
  {
  }

  lemma MoveWord(a: bytes, i: nat, b: bytes, j: nat, n: nat, x: nat)
    requires Same(a, i, b, j, n) && x + 4 <= n
    ensures Dec32(a, i + x) == Dec32(b, j + x)
  {
  }

  lemma MoveSlice(a: bytes, i: nat, b: bytes, j: nat, n: nat, x: nat, m: nat)
    requires Same(a, i, b, j, n) && x + m <= n
    ensures a[i + x..i + x + m] == b[j + x..j + x + m]
  {
    SameSlices(a, i + x, b, j + x, m);
  }

  lemma MoveTag(a: bytes, i: nat, b: bytes, j: nat, tag: u32)
    requires SameCells(a, i, b, j, 1) && TagAt(a, i, tag)
    ensures TagAt(b, j, tag)
  {
  }

  lemma MoveProp(a: bytes, i: nat, b: bytes, j: nat, nameoff: u32, value: bytes, pad: bytes)
    requires Same(a, 4 * i, b, 4 * j, 12 + |value| + |pad|) && PropAt(a, i, nameoff, value, pad)
    ensures PropAt(b, j, nameoff, value, pad)
  {
    hide Dec32, Same;
    var x, y := 4 * i, 4 * j;
    var n := 12 + |value| + |pad|;
    assert y + n <= |b| && x + n <= |a| by {
      SameBounds(a, x, b, y, n);
    }
    MoveWord(a, x, b, y, n, 0);
    MoveWord(a, x, b, y, n, 4);
    MoveWord(a, x, b, y, n, 8);
    MoveSlice(a, x, b, y, n, 12, |value|);
    MoveSlice(a, x, b, y, n, 12 + |value|, |pad|);
  }

  lemma MoveBegin(a: bytes, i: nat, b: bytes, j: nat, name: bytes, pad: bytes)
    requires Same(a, 4 * i, b, 4 * j, 5 + |name| + |pad|) && BeginAt(a, i, name, pad)
    ensures BeginAt(b, j, name, pad)
  {
    hide Dec32, Same;
    var x, y := 4 * i, 4 * j;
    var n := 5 + |name| + |pad|;
    assert y + n <= |b| && x + n <= |a| by {
      SameBounds(a, x, b, y, n);
    }
    MoveWord(a, x, b, y, n, 0);
    MoveSlice(a, x, b, y, n, 4, |name|);
    MoveSlice(a, x, b, y, n, 4 + |name|, 1);
    MoveSlice(a, x, b, y, n, 5 + |name|, |pad|);
    assert a[x + 4 + |name|] == a[x + 4 + |name|..x + 5 + |name|][0];
    assert b[y + 4 + |name|] == b[y + 4 + |name|..y + 5 + |name|][0];
  }

  lemma SameBounds(a: bytes, i: nat, b: bytes, j: nat, n: nat)
    requires Same(a, i, b, j, n)
    ensures i + n <= |a| && j + n <= |b|
  {
  }

  lemma MoveItem(a: bytes, i: nat, b: bytes, j: nat, it: Item)
    requires WfItem(it) && SameCells(a, i, b, j, Len(it)) && ItemAt(a, i, it)
    ensures ItemAt(b, j, it)
  {
    hide TagAt, PropAt, BeginAt, Same;
    match it
    case Nop => MoveTag(a, i, b, j, FDT_NOP);
    case Prop(nameoff, value, pad) => MoveProp(a, i, b, j, nameoff, value, pad);
    case Begin(name, pad) => MoveBegin(a, i, b, j, name, pad);
  }

  /** An encoding may be moved. */
  lemma {:induction false} HasMove(a: bytes, i: nat, b: bytes, j: nat, f: Forest)
    requires Wf(f) && Has(a, i, f) && SameCells(a, i, b, j, Size(f))
    ensures Has(b, j, f)
    decreases f, 1
  {
    hide ItemAt, TagAt, WfItem, Len, SameCells, HasFirst, Width;
    if f != Empty {
      SameSub(a, i, b, j, Size(f), 0, Width(f));
      FirstMove(a, i, b, j, f);
      SameSub(a, i, b, j, Size(f), Width(f), Size(f.rest));
      HasMove(a, i + Width(f), b, j + Width(f), f.rest);
    }
  }

  lemma {:induction false} FirstMove(a: bytes, i: nat, b: bytes, j: nat, f: Forest)
    requires f != Empty && Wf(f) && HasFirst(a, i, f) && SameCells(a, i, b, j, Width(f))
    ensures HasFirst(b, j, f)
    decreases f, 0
  {
    hide ItemAt, TagAt, WfItem, Len, SameCells;
    var n, h := Width(f), Len(f.item);
    SameSub(a, i, b, j, n, 0, h);
    MoveItem(a, i, b, j, f.item);
    if f.Node? {
      var m := Size(f.body);
      SameSub(a, i, b, j, n, h, m);
      HasMove(a, i + h, b, j + h, f.body);
      SameSub(a, i, b, j, n, h + m, 1);
      MoveTag(a, i + h + m, b, j + h + m, FDT_END_NODE);
    }
  }

  /**
   * b is a with the cells from i + pos to i + end replaced by k cells, and what follows,
   * up to i + n, moved along.
   */
  ghost predicate Spliced(a: bytes, b: bytes, i: nat, pos: nat, end: nat, k: nat, n: nat) {
    pos <= end <= n && SameCells(a, i, b, i, pos) && SameCells(a, i + end, b, i + pos + k, n - end)
  }

  /** What a splice does to a part that contains the spliced range. */
  lemma SplicedSub(a: bytes, b: bytes, i: nat, pos: nat, end: nat, k: nat, n: nat, x: nat, m: nat)
    requires Spliced(a, b, i, pos, end, k, n) && x <= pos && end <= x + m <= n
    ensures Spliced(a, b, i + x, pos - x, end - x, k, m)
  {
    hide SameCells;
    SameSub(a, i, b, i, pos, x, pos - x);
    SameSub(a, i + end, b, i + pos + k, n - end, 0, x + m - end);
  }

  /** What a splice does to a part before the spliced range. */
  lemma SplicedBefore(a: bytes, b: bytes, i: nat, pos: nat, end: nat, k: nat, n: nat, x: nat, m: nat)
    requires Spliced(a, b, i, pos, end, k, n) && x + m <= pos
    ensures SameCells(a, i + x, b, i + x, m)
  {
    hide SameCells;
    SameSub(a, i, b, i, pos, x, m);
  }

  /** What a splice does to a part after the spliced range. */
  lemma SplicedAfter(a: bytes, b: bytes, i: nat, pos: nat, end: nat, k: nat, n: nat, x: nat, m: nat)
    requires Spliced(a, b, i, pos, end, k, n) && end <= x && x + m <= n
    ensures SameCells(a, i + x, b, i + x - end + pos + k, m)
  {
    hide SameCells;
    SameSub(a, i + end, b, i + pos + k, n - end, x - end, m);
  }

  /** A splice may be seen as one of a wider range, in a shorter whole. */
  lemma SplicedGrow(a: bytes, b: bytes, i: nat, pos: nat, end: nat, k: nat, n: nat, w: nat, m: nat)
    requires Spliced(a, b, i, pos, end, k, n) && end + w <= m <= n
    ensures Spliced(a, b, i, pos, end + w, k + w, m)
  {
    hide SameCells;
    SameSub(a, i + end, b, i + pos + k, n - end, w, m - end - w);
  }

  /** Splicing the encoding of a part replaces that part. */
  lemma {:induction false} PutHas(a: bytes, i: nat, b: bytes, f: Forest, p: Path, g: Forest)
    requires IsPath(f, p) && Wf(f)
    requires Has(a, i, f) && Has(b, i + Pos(f, p), g)
    requires Spliced(a, b, i, Pos(f, p), Pos(f, p) + Size(At(f, p)), Size(g), Size(f))
    ensures Has(b, i, Put(f, p, g))
    decreases p, 1
  {
    hide Has, HasFirst, Spliced, Wf, Size, Width;
    match p
    case Here =>
    case Next(q) => PutNext(a, i, b, f, q, g);
    case Into(q) => PutInto(a, i, b, f, q, g);
  }

  lemma {:induction false} PutNext(a: bytes, i: nat, b: bytes, f: Forest, q: Path, g: Forest)
    requires f != Empty && IsPath(f.rest, q) && Wf(f)
    requires Has(a, i, f) && Has(b, i + Width(f) + Pos(f.rest, q), g)
    requires
      var pos := Width(f) + Pos(f.rest, q);
      Spliced(a, b, i, pos, pos + Size(At(f.rest, q)), Size(g), Size(f))
    ensures Has(b, i, f.(rest := Put(f.rest, q, g)))
    decreases Next(q), 0
  {
    hide ItemAt, TagAt, WfItem, Len, Spliced, SameCells;
    var w := Width(f);
    var pos := w + Pos(f.rest, q);
    var end := pos + Size(At(f.rest, q));
    PosRange(f.rest, q);
    SplicedBefore(a, b, i, pos, end, Size(g), Size(f), 0, w);
    FirstMove(a, i, b, i, f);
    SplicedSub(a, b, i, pos, end, Size(g), Size(f), w, Size(f.rest));
    PutHas(a, i + w, b, f.rest, q, g);
    FirstOnly(b, i, f, Put(f.rest, q, g));
  }

  lemma FirstOnly(st: bytes, i: nat, f: Forest, g: Forest)
    requires f != Empty && HasFirst(st, i, f)
    ensures HasFirst(st, i, f.(rest := g)) && Width(f.(rest := g)) == Width(f)
  {
  }

  lemma {:induction false} PutInto(a: bytes, i: nat, b: bytes, f: Forest, q: Path, g: Forest)
    requires f.Node? && IsPath(f.body, q) && Wf(f)
    requires Has(a, i, f) && Has(b, i + Len(f.item) + Pos(f.body, q), g)
    requires
      var pos := Len(f.item) + Pos(f.body, q);
      Spliced(a, b, i, pos, pos + Size(At(f.body, q)), Size(g), Size(f))
    ensures Has(b, i, f.(body := Put(f.body, q, g)))
    decreases Into(q), 0
  {
    hide ItemAt, TagAt, WfItem, Len, Spliced, SameCells;
    var h, m := Len(f.item), Size(f.body);
    var pos := h + Pos(f.body, q);
    var end := pos + Size(At(f.body, q));
    PosRange(f.body, q);
    PutSize(f.body, q, g);
    SplicedBefore(a, b, i, pos, end, Size(g), Size(f), 0, h);
    MoveItem(a, i, b, i, f.item);
    SplicedSub(a, b, i, pos, end, Size(g), Size(f), h, m);
    PutHas(a, i + h, b, f.body, q, g);
    var m' := m - (end - pos) + Size(g);
    SplicedAfter(a, b, i, pos, end, Size(g), Size(f), h + m, 1);
    MoveTag(a, i + h + m, b, i + h + m', FDT_END_NODE);
    SplicedAfter(a, b, i, pos, end, Size(g), Size(f), h + m + 1, Size(f.rest));
    HasMove(a, i + h + m + 1, b, i + h + m' + 1, f.rest);
  }
}
