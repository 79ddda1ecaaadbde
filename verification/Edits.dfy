/** What splicing an encoded structure block does to the forest it encodes. */
module Edits {
  import opened Bytes
  import opened Tags
  import opened Forests

  /** st encodes f, closed by an end tag; anything may follow. */
  ghost predicate Encodes(st: bytes, f: Forest) {
    Wf(f) && Has(st, 0, f) && TagAt(st, Size(f), FDT_END)
  }

  /** The entries that follow a spliced range are still encoded. */
  lemma AfterSplice(a: bytes, b: bytes, f: Forest, p: Path, u: nat, v: nat, r: Forest)
    requires Encodes(a, f) && IsPath(f, p) && Wf(r)
    requires u + Size(r) == Size(At(f, p)) && Has(a, Pos(f, p) + u, r)
    requires Spliced(a, b, 0, Pos(f, p), Pos(f, p) + u, v, Size(f) + 1)
    ensures Has(b, Pos(f, p) + v, r)
  {
    hide Has, HasFirst, SameCells, Spliced;
    var pos := Pos(f, p);
    PosRange(f, p);
    SplicedAfter(a, b, 0, pos, pos + u, v, Size(f) + 1, pos + u, Size(r));
    HasMove(a, pos + u, b, pos + v, r);
  }

  /** A splice that puts an encoding of g at place p puts g into the forest. */
  lemma FinishSplice(a: bytes, b: bytes, f: Forest, p: Path, u: nat, v: nat, g: Forest)
    requires Encodes(a, f) && IsPath(f, p) && Wf(g) && Has(b, Pos(f, p), g)
    requires u <= Size(At(f, p)) && Size(g) == v + Size(At(f, p)) - u
    requires Spliced(a, b, 0, Pos(f, p), Pos(f, p) + u, v, Size(f) + 1)
    ensures Encodes(b, Put(f, p, g))
  {
    hide Has, HasFirst, SameCells, Wf, Spliced, TagAt, At, IsPath, Pos, Put, Size, Width;
    var pos, n := Pos(f, p), Size(f) + 1;
    PosRange(f, p);
    PutWf(f, p, g);
    PutSize(f, p, g);
    SplicedGrow(a, b, 0, pos, pos + u, v, n, Size(At(f, p)) - u, Size(f));
    PutHas(a, 0, b, f, p, g);
    SplicedAfter(a, b, 0, pos, pos + u, v, n, Size(f), 1);
    MoveTag(a, Size(f), b, Size(f) - u + v, FDT_END);
  }

  /** An entry is put at place p, in front of the entries r that follow the u cells it replaces. */
  lemma EntryEncodes(a: bytes, b: bytes, f: Forest, p: Path, u: nat, g: Forest)
    requires Encodes(a, f) && IsPath(f, p) && g != Empty && Wf(g)
    requires u + Size(g.rest) == Size(At(f, p)) && Has(a, Pos(f, p) + u, g.rest)
    requires HasFirst(b, Pos(f, p), g)
    requires Spliced(a, b, 0, Pos(f, p), Pos(f, p) + u, Width(g), Size(f) + 1)
    ensures Encodes(b, Put(f, p, g))
  {
    hide HasFirst, Spliced, Width, Encodes;
    AfterSplice(a, b, f, p, u, Width(g), g.rest);
    FinishSplice(a, b, f, p, u, Width(g), g);
  }

  /** A property tag with its length, name offset and value. */
  predicate PropWritten(b: bytes, x: nat, nameoff: u32, val: bytes) {
    && x + 12 + Align4(|val|) <= |b|
    && Dec32(b, x) == FDT_PROP && Dec32(b, x + 4) == |val| && Dec32(b, x + 8) == nameoff
    && b[x + 12..x + 12 + |val|] == val
  }

  /** The property at x, with the padding found there. */
  function PropItem(b: bytes, x: nat, nameoff: u32, val: bytes): Item
    requires x + 12 + Align4(|val|) <= |b|
  {
    Prop(nameoff, val, b[x + 12 + |val|..x + 12 + Align4(|val|)])
  }

  lemma PropItemAt(b: bytes, p: nat, nameoff: u32, val: bytes)
    requires PropWritten(b, 4 * p, nameoff, val) && |val| <= INT_MAX
    ensures WfItem(PropItem(b, 4 * p, nameoff, val)) && ItemAt(b, p, PropItem(b, 4 * p, nameoff, val))
  {
    hide Dec32, Cells;
  }

  /** A property written at place p, over the u cells in front of the entries rest, what follows moved. */
  lemma LeafEncodes(a: bytes, b: bytes, f: Forest, p: Path, u: nat, it: Item, rest: Forest)
    requires Encodes(a, f) && IsPath(f, p)
    requires (u == 0 && rest == At(f, p)) || (At(f, p).Leaf? && u == Width(At(f, p)) && rest == At(f, p).rest)
    requires it.Prop? && WfItem(it) && ItemAt(b, Pos(f, p), it)
    requires Spliced(a, b, 0, Pos(f, p), Pos(f, p) + u, Len(it), Size(f) + 1)
    ensures Encodes(b, Put(f, p, Leaf(it, rest)))
  {
    hide Spliced, ItemAt, WfItem;
    AtWf(f, p);
    HasAt(a, 0, f, p);
    EntryEncodes(a, b, f, p, u, Leaf(it, rest));
  }

  /** Taking out the entry at place p, what follows moved. */
  lemma DeleteEncodes(a: bytes, b: bytes, f: Forest, p: Path)
    requires Encodes(a, f) && IsPath(f, p) && At(f, p) != Empty
    requires Spliced(a, b, 0, Pos(f, p), Pos(f, p) + Width(At(f, p)), 0, Size(f) + 1)
    ensures Encodes(b, Put(f, p, At(f, p).rest))
  {
    hide Spliced, HasFirst, Width;
    AtWf(f, p);
    HasAt(a, 0, f, p);
    AfterSplice(a, b, f, p, Width(At(f, p)), 0, At(f, p).rest);
    FinishSplice(a, b, f, p, Width(At(f, p)), 0, At(f, p).rest);
  }

  /** A node with a new begin tag: its body, its end tag and what follows are moved. */
  lemma RenameEncodes(a: bytes, b: bytes, f: Forest, p: Path, it: Item)
    requires Encodes(a, f) && IsPath(f, p) && At(f, p).Node?
    requires it.Begin? && WfItem(it) && ItemAt(b, Pos(f, p), it)
    requires Spliced(a, b, 0, Pos(f, p), Pos(f, p) + Len(At(f, p).item), Len(it), Size(f) + 1)
    ensures Encodes(b, Put(f, p, Node(it, At(f, p).body, At(f, p).rest)))
  {
    hide Spliced, SameCells, ItemAt, WfItem, Len, Encodes, At, IsPath, Put;
    var g, pos, n := At(f, p), Pos(f, p), Size(f) + 1;
    var h, h', m := Len(g.item), Len(it), Size(g.body);
    EncodesAt(a, f, p);
    PosRange(f, p);
    SplicedAfter(a, b, 0, pos, pos + h, h', n, pos + h, m);
    HasMove(a, pos + h, b, pos + h', g.body);
    SplicedAfter(a, b, 0, pos, pos + h, h', n, pos + h + m, 1);
    MoveTag(a, pos + h + m, b, pos + h' + m, FDT_END_NODE);
    SplicedGrow(a, b, 0, pos, pos + h, h', n, m + 1, n);
    NodeFirst(b, pos, Node(it, g.body, g.rest));
    EntryEncodes(a, b, f, p, Width(g), Node(it, g.body, g.rest));
  }

  lemma NodeFirst(b: bytes, pos: nat, g: Forest)
    requires g.Node? && ItemAt(b, pos, g.item) && Has(b, pos + Len(g.item), g.body)
    requires TagAt(b, pos + Len(g.item) + Size(g.body), FDT_END_NODE)
    ensures HasFirst(b, pos, g)
  {
  }

  lemma EncodesAt(a: bytes, f: Forest, p: Path)
    requires Encodes(a, f) && IsPath(f, p)
    ensures Wf(At(f, p)) && Has(a, Pos(f, p), At(f, p))
  {
    hide Has, Wf, Pos, At, IsPath, TagAt;
    AtWf(f, p);
    HasAt(a, 0, f, p);
  }

  /** A childless node put in at place p. */
  lemma NewNodeEncodes(a: bytes, b: bytes, f: Forest, p: Path, it: Item)
    requires Encodes(a, f) && IsPath(f, p)
    requires it.Begin? && WfItem(it) && ItemAt(b, Pos(f, p), it) && TagAt(b, Pos(f, p) + Len(it), FDT_END_NODE)
    requires Spliced(a, b, 0, Pos(f, p), Pos(f, p), Len(it) + 1, Size(f) + 1)
    ensures Encodes(b, Put(f, p, Node(it, Empty, At(f, p))))
  {
    hide Spliced, SameCells, ItemAt, WfItem, Len, TagAt, Encodes;
    EncodesAt(a, f, p);
    EntryEncodes(a, b, f, p, 0, Node(it, Empty, At(f, p)));
  }

  // ---------- From bytes to cells ----------

  lemma SameTrans(a: bytes, i: nat, b: bytes, j: nat, c: bytes, k: nat, n: nat)
    requires Same(a, i, b, j, n) && Same(b, j, c, k, n)
    ensures Same(a, i, c, k, n)
  {
  }

  lemma SameShorter(a: bytes, i: nat, b: bytes, j: nat, n: nat, x: nat, m: nat)
    requires Same(a, i, b, j, n) && x + m <= n
    ensures Same(a, i + x, b, j + x, m)
  {
  }

  /** b is a with everything but the n bytes at y kept. */
  ghost predicate KeptBut(a: bytes, b: bytes, y: nat, n: nat) {
    |a| == |b| && y + n <= |a| && Same(a, 0, b, 0, y) && Same(a, y + n, b, y + n, |a| - y - n)
  }

  /** A write inside the spliced-in range leaves the splice a splice. */
  lemma SplicedWrite(a: bytes, b: bytes, c: bytes, pos: nat, end: nat, k: nat, n: nat, y: nat, m: nat)
    requires Spliced(a, b, 0, pos, end, k, n) && KeptBut(b, c, y, m)
    requires 4 * pos <= y && y + m <= 4 * (pos + k)
    ensures Spliced(a, c, 0, pos, end, k, n)
  {
    hide Same;
    SameShorter(b, 0, c, 0, y, 0, 4 * pos);
    SameTrans(a, 0, b, 0, c, 0, 4 * pos);
    var t, l := 4 * (pos + k), 4 * (n - end);
    assert t + l <= |b| by {
      SameBounds(a, 4 * end, b, t, l);
    }
    SameShorter(b, y + m, c, y + m, |b| - y - m, t - y - m, l);
    SameTrans(a, 4 * end, b, t, c, t, l);
    assert 4 * (0 + pos + k) == t;
  }

  lemma KeptWord(a: bytes, b: bytes, y: nat, n: nat, x: nat)
    requires KeptBut(a, b, y, n) && (x + 4 <= y || y + n <= x) && x + 4 <= |a|
    ensures Dec32(a, x) == Dec32(b, x)
  {
  }

  /** b is a with newlen bytes in place of oldlen bytes at x; the bytes there are kept as far as both go. */
  ghost predicate SpliceOf(a: bytes, b: bytes, x: nat, oldlen: nat, newlen: nat) {
    && x + oldlen <= |a| && |b| == |a| - oldlen + newlen
    && Same(a, 0, b, 0, x + Min(oldlen, newlen))
    && Same(a, x + oldlen, b, x + newlen, |a| - x - oldlen)
  }

  /** A splice of bytes at cell boundaries, h cells behind position pos, is a splice of cells at pos. */
  lemma SplicedCells(a: bytes, b: bytes, pos: nat, h: nat, u: nat, v: nat, n: nat)
    requires SpliceOf(a, b, 4 * (pos + h), 4 * u, 4 * v)
    requires pos + h + u <= n && 4 * n <= |a|
    ensures Spliced(a, b, 0, pos, pos + (h + u), h + v, n)
  {
    hide Same;
    var x := 4 * (pos + h);
    SameShorter(a, 0, b, 0, x + Min(4 * u, 4 * v), 0, 4 * pos);
    var y, z := 4 * (pos + (h + u)), 4 * (pos + (h + v));
    assert y == x + 4 * u && z == x + 4 * v;
    SameShorter(a, y, b, z, |a| - x - 4 * u, 0, 4 * (n - (pos + (h + u))));
    assert SameCells(a, 0, b, 0, pos);
  }

  // ---------- Values of the same length ----------

  /** g is f with other values of the same lengths: every entry is where it was. */
  ghost predicate Alike(f: Forest, g: Forest) {
    match f
    case Empty => g == Empty
    case Leaf(item, rest) =>
      && g.Leaf? && Alike(rest, g.rest)
      && (g.item == item ||
          (item.Prop? && g.item.Prop? && g.item.nameoff == item.nameoff && |g.item.value| == |item.value|))
    case Node(item, body, rest) => g.Node? && g.item == item && Alike(body, g.body) && Alike(rest, g.rest)
  }

  lemma {:induction false} AlikeSelf(f: Forest)
    ensures Alike(f, f)
  {
    if f != Empty {
      AlikeSelf(f.rest);
      if f.Node? {
        AlikeSelf(f.body);
      }
    }
  }

  lemma {:induction false} AlikeTrans(f: Forest, g: Forest, h: Forest)
    requires Alike(f, g) && Alike(g, h)
    ensures Alike(f, h)
    decreases f
  {
    if f != Empty {
      AlikeTrans(f.rest, g.rest, h.rest);
      if f.Node? {
        AlikeTrans(f.body, g.body, h.body);
      }
    }
  }

  lemma {:induction false} AlikeSize(f: Forest, g: Forest)
    requires Alike(f, g)
    ensures Size(f) == Size(g) && (f != Empty ==> Width(f) == Width(g))
    decreases f
  {
    if f != Empty {
      AlikeSize(f.rest, g.rest);
      if f.Node? {
        AlikeSize(f.body, g.body);
      }
    }
  }

  /** Places and positions are the same. */
  lemma {:induction false} AlikePlace(f: Forest, g: Forest, p: Path)
    requires Alike(f, g) && IsPath(f, p)
    ensures IsPath(g, p) && Alike(At(f, p), At(g, p)) && Pos(g, p) == Pos(f, p)
    decreases p
  {
    AlikeSize(f, g);
    match p
    case Here =>
    case Next(q) => AlikePlace(f.rest, g.rest, q);
    case Into(q) => AlikePlace(f.body, g.body, q);
  }

  /** A property gets a value of the same length. */
  lemma {:induction false} AlikePut(f: Forest, p: Path, it: Item)
    requires IsPath(f, p) && At(f, p).Leaf? && At(f, p).item.Prop?
    requires it.Prop? && it.nameoff == At(f, p).item.nameoff && |it.value| == |At(f, p).item.value|
    ensures Alike(f, Put(f, p, Leaf(it, At(f, p).rest)))
    decreases p
  {
    match p
    case Here => AlikeSelf(f.rest);
    case Next(q) =>
      AlikePut(f.rest, q, it);
      if f.Node? {
        AlikeSelf(f.body);
      }
    case Into(q) =>
      AlikePut(f.body, q, it);
      AlikeSelf(f.rest);
  }
}
