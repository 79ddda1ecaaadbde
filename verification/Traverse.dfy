/** The walks over an encoded forest visit exactly its nodes and properties. */
module Traverse {
  import opened Bytes
  import opened Tags
  import opened Forests
  import opened Walk

  lemma HasHead(st: bytes, p: nat, f: Forest)
    requires Has(st, p, f) && Wf(f) && f != Empty
    ensures HasFirst(st, p, f) && Has(st, p + Width(f), f.rest)
    ensures NextTag(st, 4 * p) == (TagOf(f.item), 4 * (p + Len(f.item)))
  {
    NextTagItem(st, p, f.item);
  }

  lemma HasBody(st: bytes, p: nat, f: Forest)
    requires f.Node? && HasFirst(st, p, f)
    ensures Has(st, p + Len(f.item), f.body)
    ensures TagAt(st, p + Len(f.item) + Size(f.body), FDT_END_NODE)
    ensures NextTag(st, 4 * (p + Len(f.item) + Size(f.body))) == (FDT_END_NODE, 4 * (p + Width(f)))
  {
    NextTagWord(st, p + Len(f.item) + Size(f.body), FDT_END_NODE);
  }

  // ---------- Properties ----------

  /** The place of the property called name among the properties that come first in the body f. */
  ghost function PropPath(f: Forest, strs: bytes, name: bytes): (r: Option<Path>)
    ensures r.Some? ==> IsPath(f, r.value) && At(f, r.value).Leaf? && At(f, r.value).item.Prop?
  {
    if !f.Leaf? then None
    else if f.item.Prop? && StrAt(strs, f.item.nameoff) == Some(name) then Some(Here)
    else
      match PropPath(f.rest, strs, name)
      case None => None
      case Some(p) => Some(Next(p))
  }

  lemma NameoffAt(st: bytes, p: nat, f: Forest)
    requires f.Leaf? && f.item.Prop? && HasFirst(st, p, f)
    ensures WordAt(st, 4 * p + 8) == f.item.nameoff
  {
  }

  /** Property lookup in an encoded body finds exactly the first property of that name. */
  lemma {:induction false} FindPropHas(st: bytes, strs: bytes, p: nat, f: Forest, name: bytes)
    requires Wf(f) && Has(st, p, f) && TagAt(st, p + Size(f), FDT_END_NODE)
    ensures FindProp(st, strs, NextProp(st, 4 * p), name) ==
            (match PropPath(f, strs, name)
             case None => -NOTFOUND
             case Some(q) => 4 * (p + Pos(f, q)))
    decreases f
  {
    hide NextTag, HasFirst, Has, WordAt, StrAt, Len;
    if f == Empty {
      NextTagWord(st, p, FDT_END_NODE);
    } else {
      HasHead(st, p, f);
      if f.Leaf? {
        FindPropHas(st, strs, p + Width(f), f.rest, name);
        if f.item.Prop? {
          NameoffAt(st, p, f);
        }
      }
    }
  }

  /** Property lookup on an encoded node. */
  lemma GetPropertyHas(st: bytes, strs: bytes, p: nat, f: Forest, name: bytes)
    requires f.Node? && Wf(f) && Has(st, p, f)
    ensures GetProperty(st, strs, 4 * p, name) ==
            (match PropPath(f.body, strs, name)
             case None => -NOTFOUND
             case Some(q) => 4 * (p + Len(f.item) + Pos(f.body, q)))
  {
    hide NextTag, HasFirst, Has;
    HasHead(st, p, f);
    HasBody(st, p, f);
    FindPropHas(st, strs, p + Len(f.item), f.body, name);
  }

  // ---------- Nodes ----------

  /** The nodes visited from the tag at off on. */
  function NodesFrom(st: bytes, off: int, depth: int): seq<(int, int)>
    requires off >= 0
  {
    var (o, d) := ScanNode(st, off, depth);
    Nodes(st, o, d)
  }

  function EndFrom(st: bytes, off: int, depth: int): (int, int)
    requires off >= 0
  {
    var (o, d) := ScanNode(st, off, depth);
    NodesEnd(st, o, d)
  }

  /** The offsets and depths of the nodes of f in preorder, f encoded from position p on, at depth d. */
  ghost function Preorder(f: Forest, p: nat, d: int): seq<(int, int)>
  {
    match f
    case Empty => []
    case Leaf(item, rest) => Preorder(rest, p + Width(f), d)
    case Node(item, body, rest) =>
      [(4 * p, d)] + Preorder(body, p + Len(item), d + 1) + Preorder(rest, p + Width(f), d)
  }

  lemma NodesAt(st: bytes, off: int, depth: int)
    requires off >= 0 && depth >= 0 && off % 4 == 0 && NextTag(st, off).0 == FDT_BEGIN_NODE
    ensures NextTag(st, off).1 >= 0
    ensures Nodes(st, off, depth) == [(off, depth)] + NodesFrom(st, NextTag(st, off).1, depth)
    ensures NodesEnd(st, off, depth) == EndFrom(st, NextTag(st, off).1, depth)
  {
    hide NextTag, ScanNode;
    assert CheckNode(st, off) == NextTag(st, off).1;
    var (next, d) := NextNode(st, off, depth);
    assert (next, d) == ScanNode(st, NextTag(st, off).1, depth);
    if next < 0 || d < 0 {
      assert Nodes(st, next, d) == [];
    }
  }

  lemma Regroup(x: seq<(int, int)>, a: seq<(int, int)>, b: seq<(int, int)>, n: seq<(int, int)>)
    ensures x + a + (b + n) == x + a + b + n && [] + n == n
  {
  }

  lemma PreorderIs(f: Forest, p: nat, d: int)
    ensures Preorder(f, p, d) ==
            if f == Empty then []
            else if f.Leaf? then Preorder(f.rest, p + Width(f), d)
            else [(4 * p, d)] + Preorder(f.body, p + Len(f.item), d + 1) + Preorder(f.rest, p + Width(f), d)
  {
  }

  /** Walking over an encoded forest visits its nodes in preorder, with their depth, and comes out behind it. */
  lemma {:induction false} WalkHas(st: bytes, p: nat, f: Forest, d: nat)
    requires Wf(f) && Has(st, p, f)
    ensures NodesFrom(st, 4 * p, d) == Preorder(f, p, d + 1) + NodesFrom(st, 4 * (p + Size(f)), d)
    ensures EndFrom(st, 4 * p, d) == EndFrom(st, 4 * (p + Size(f)), d)
    decreases f, 1
  {
    hide *;
    PreorderIs(f, p, d + 1);
    Parts(f);
    var n := NodesFrom(st, 4 * (p + Size(f)), d);
    if f == Empty {
      Regroup([], [], [], n);
    } else {
      HasHead(st, p, f);
      WalkHas(st, p + Width(f), f.rest, d);
      if f.Leaf? {
        LeafTag(f);
        ScanLeaf(st, 4 * p, 4 * (p + Width(f)), d);
      } else {
        NodeTag(f);
        WalkNode(st, p, f, d);
        Regroup([(4 * p, d + 1)], Preorder(f.body, p + Len(f.item), d + 2), Preorder(f.rest, p + Width(f), d + 1), n);
      }
    }
  }

  lemma Parts(f: Forest)
    requires Wf(f)
    ensures if f == Empty then Size(f) == 0
            else Wf(f.rest) && Size(f) == Width(f) + Size(f.rest)
  {
  }

  lemma LeafTag(f: Forest)
    requires f.Leaf? && Wf(f)
    ensures Width(f) == Len(f.item) && (TagOf(f.item) == FDT_PROP || TagOf(f.item) == FDT_NOP)
  {
  }

  lemma NodeTag(f: Forest)
    requires f.Node? && Wf(f)
    ensures TagOf(f.item) == FDT_BEGIN_NODE
  {
  }

  lemma ScanLeaf(st: bytes, off: nat, next: nat, d: nat)
    requires NextTag(st, off) == (FDT_PROP, next) || NextTag(st, off) == (FDT_NOP, next)
    ensures NodesFrom(st, off, d) == NodesFrom(st, next, d) && EndFrom(st, off, d) == EndFrom(st, next, d)
  {
    hide NextTag, Nodes, NodesEnd;
  }

  lemma ScanEnd(st: bytes, off: nat, next: nat, d: nat)
    requires NextTag(st, off) == (FDT_END_NODE, next)
    ensures NodesFrom(st, off, d + 1) == NodesFrom(st, next, d) && EndFrom(st, off, d + 1) == EndFrom(st, next, d)
    ensures NodesFrom(st, off, 0) == [] && EndFrom(st, off, 0) == (next, -1)
  {
    hide NextTag;
  }

  lemma ScanBegin(st: bytes, off: nat, next: nat, d: nat)
    requires NextTag(st, off) == (FDT_BEGIN_NODE, next) && off % 4 == 0
    ensures NodesFrom(st, off, d) == [(off, d + 1)] + NodesFrom(st, next, d + 1)
    ensures EndFrom(st, off, d) == EndFrom(st, next, d + 1)
  {
    hide NextTag, Nodes, NodesEnd;
    NodesAt(st, off, d + 1);
  }

  lemma {:induction false} WalkNode(st: bytes, p: nat, f: Forest, d: nat)
    requires f.Node? && Wf(f) && HasFirst(st, p, f) && NextTag(st, 4 * p) == (FDT_BEGIN_NODE, 4 * (p + Len(f.item)))
    ensures NodesFrom(st, 4 * p, d) ==
            [(4 * p, d + 1)] + Preorder(f.body, p + Len(f.item), d + 2) + NodesFrom(st, 4 * (p + Width(f)), d)
    ensures EndFrom(st, 4 * p, d) == EndFrom(st, 4 * (p + Width(f)), d)
    decreases f, 0
  {
    hide NextTag, HasFirst, Has, NodesFrom, EndFrom, Preorder, Len;
    var h := p + Len(f.item);
    HasBody(st, p, f);
    ScanBegin(st, 4 * p, 4 * h, d);
    WalkHas(st, h, f.body, d + 1);
    ScanEnd(st, 4 * (h + Size(f.body)), 4 * (p + Width(f)), d);
  }

  /** The nodes of the subtree at p, and the end of its bytes. */
  lemma SubtreeHas(st: bytes, p: nat, f: Forest)
    requires f.Node? && Wf(f) && Has(st, p, f)
    ensures Nodes(st, 4 * p, 0) == [(4 * p, 0)] + Preorder(f.body, p + Len(f.item), 1)
    ensures NodesEnd(st, 4 * p, 0) == (4 * (p + Width(f)), -1)
  {
    hide NextTag, HasFirst, Has, Nodes, NodesEnd, NodesFrom, EndFrom, Preorder;
    var h := p + Len(f.item);
    HasHead(st, p, f);
    HasBody(st, p, f);
    NodesAt(st, 4 * p, 0);
    WalkHas(st, h, f.body, 0);
    ScanEnd(st, 4 * (h + Size(f.body)), 4 * (p + Width(f)), 0);
    assert Preorder(f.body, h, 1) + [] == Preorder(f.body, h, 1);
  }

  lemma NameOfHas(st: bytes, p: nat, f: Forest)
    requires f.Node? && Wf(f) && HasFirst(st, p, f)
    ensures CheckNode(st, 4 * p) == 4 * (p + Len(f.item))
    ensures NameOf(st, 4 * p) == Some(f.item.name)
  {
    hide Has;
    NextTagBegin(st, p, f.item.name, f.item.padding);
  }

  // ---------- Children ----------

  /** The place of the first child among the entries f that answers to name. */
  ghost function ChildPath(f: Forest, name: bytes): (r: Option<Path>)
    ensures r.Some? ==>
              IsPath(f, r.value) && At(f, r.value).Node? && At(f, r.value).item.Begin? &&
              NameEq(At(f, r.value).item.name, name)
    decreases f
  {
    if f == Empty then None
    else if f.Node? && f.item.Begin? && NameEq(f.item.name, name) then Some(Here)
    else
      match ChildPath(f.rest, name)
      case None => None
      case Some(p) => Some(Next(p))
  }

  /** Nodes deeper than the children do not answer. */
  lemma FindSubCons(st: bytes, x: (int, int), t: seq<(int, int)>, name: bytes)
    ensures FindSub(st, [x] + t, name) ==
            var n := NameOf(st, x.0);
            if x.1 == 1 && n.Some? && NameEq(n.value, name) then Some(x.0) else FindSub(st, t, name)
  {
    assert ([x] + t)[1..] == t;
  }

  lemma {:induction false} FindSubDeep(st: bytes, f: Forest, p: nat, d: int, tail: seq<(int, int)>, name: bytes)
    requires d >= 2
    ensures FindSub(st, Preorder(f, p, d) + tail, name) == FindSub(st, tail, name)
    decreases f
  {
    hide Width, Len, Size, FindSub, NameOf, NameEq;
    match f
    case Empty =>
      assert [] + tail == tail;
    case Leaf(_, rest) => FindSubDeep(st, rest, p + Width(f), d, tail, name);
    case Node(item, body, rest) =>
      var a, b := Preorder(body, p + Len(item), d + 1), Preorder(rest, p + Width(f), d);
      FindSubDeep(st, body, p + Len(item), d + 1, b + tail, name);
      FindSubDeep(st, rest, p + Width(f), d, tail, name);
      FindSubCons(st, (4 * p, d), a + (b + tail), name);
      assert Preorder(f, p, d) + tail == [(4 * p, d)] + (a + (b + tail));
  }

  lemma {:induction false} FindSubHas(st: bytes, f: Forest, p: nat, tail: seq<(int, int)>, name: bytes)
    requires Wf(f) && Has(st, p, f)
    ensures FindSub(st, Preorder(f, p, 1) + tail, name) ==
            (match ChildPath(f, name)
             case None => FindSub(st, tail, name)
             case Some(q) => Some(4 * (p + Pos(f, q))))
    decreases f
  {
    hide NameOf, NameEq, Has, HasFirst, NextTag, FindSub, Len, Width;
    if f == Empty {
      assert [] + tail == tail;
    } else {
      HasHead(st, p, f);
      FindSubHas(st, f.rest, p + Width(f), tail, name);
      if f.Node? {
        NameOfHas(st, p, f);
        var a, b := Preorder(f.body, p + Len(f.item), 2), Preorder(f.rest, p + Width(f), 1);
        FindSubDeep(st, f.body, p + Len(f.item), 2, b + tail, name);
        FindSubCons(st, (4 * p, 1), a + (b + tail), name);
        assert Preorder(f, p, 1) + tail == [(4 * p, 1)] + (a + (b + tail));
      }
    }
  }

  /** Child lookup on an encoded node finds exactly the first child that answers to the name. */
  lemma SubnodeOffsetHas(st: bytes, p: nat, f: Forest, name: bytes)
    requires f.Node? && Wf(f) && Has(st, p, f)
    ensures SubnodeOffset(st, 4 * p, name) ==
            (match ChildPath(f.body, name)
             case None => -NOTFOUND
             case Some(q) => 4 * (p + Len(f.item) + Pos(f.body, q)))
  {
    hide NameOf, NameEq, Has, HasFirst, NextTag;
    var h := p + Len(f.item);
    SubtreeHas(st, p, f);
    HasHead(st, p, f);
    HasBody(st, p, f);
    var a := Preorder(f.body, h, 1);
    FindSubHas(st, f.body, h, [], name);
    assert a + [] == a;
    assert ([(4 * p, 0)] + a)[1..] == a;
  }

  /** The place of the first node among the entries f. */
  ghost function FirstNode(f: Forest): (r: Option<Path>)
    ensures r.Some? ==> IsPath(f, r.value) && At(f, r.value).Node?
  {
    if f == Empty then None
    else if f.Node? then Some(Here)
    else
      match FirstNode(f.rest)
      case None => None
      case Some(p) => Some(Next(p))
  }

  /** A child whose name has a unit address is found by the name without it. */
  lemma UnitFound(st: bytes, p: nat, f: Forest, s: bytes, u: bytes)
    requires f.Node? && Wf(f) && Has(st, p, f) && 0x40 !in s && FirstNode(f.body).Some?
    requires var c := At(f.body, FirstNode(f.body).value); c.item.Begin? && c.item.name == s + [0x40] + u
    ensures SubnodeOffset(st, 4 * p, s) == 4 * (p + Len(f.item) + Pos(f.body, FirstNode(f.body).value))
  {
    hide SubnodeOffset, Has, NameEq;
    UnitAnswers(s, u);
    FirstAnswers(f.body, s);
    SubnodeOffsetHas(st, p, f, s);
  }

  lemma {:induction false} FirstAnswers(f: Forest, name: bytes)
    requires FirstNode(f).Some? && At(f, FirstNode(f).value).item.Begin?
    requires NameEq(At(f, FirstNode(f).value).item.name, name)
    ensures ChildPath(f, name) == FirstNode(f)
  {
    hide NameEq;
    if !f.Node? {
      FirstAnswers(f.rest, name);
    }
  }

  /** Scanning the entries f, d nodes deep, stops at their first node or behind them. */
  lemma {:induction false} ScanHas(st: bytes, p: nat, f: Forest, d: nat)
    requires Wf(f) && Has(st, p, f)
    ensures ScanNode(st, 4 * p, d) ==
            (match FirstNode(f)
             case None => ScanNode(st, 4 * (p + Size(f)), d)
             case Some(q) => (4 * (p + Pos(f, q)), d + 1))
    decreases f
  {
    hide Has, HasFirst, NextTag, Len;
    if f != Empty {
      HasHead(st, p, f);
      if f.Leaf? {
        ScanHas(st, p + Width(f), f.rest, d);
      }
    }
  }

  /** fdt_first_subnode finds the first child. */
  lemma FirstSubnodeHas(st: bytes, p: nat, f: Forest)
    requires f.Node? && Wf(f) && Has(st, p, f)
    ensures FirstSubnode(st, 4 * p) ==
            (match FirstNode(f.body)
             case None => -NOTFOUND
             case Some(q) => 4 * (p + Len(f.item) + Pos(f.body, q)))
  {
    hide Has, HasFirst, NextTag;
    var h := p + Len(f.item);
    HasHead(st, p, f);
    HasBody(st, p, f);
    ScanHas(st, h, f.body, 0);
    assert CheckNode(st, 4 * p) == 4 * h;
    assert ScanNode(st, 4 * (h + Size(f.body)), 0) == (4 * (p + Width(f)), -1);
  }

  lemma ShallowSkip(x: (int, int), t: seq<(int, int)>)
    requires x.1 >= 2
    ensures Shallow([x] + t) == Shallow(t)
  {
    assert ([x] + t)[1..] == t;
  }

  lemma {:induction false} ShallowDeep(f: Forest, p: nat, d: int, tail: seq<(int, int)>)
    requires d >= 2
    ensures Shallow(Preorder(f, p, d) + tail) == Shallow(tail)
    decreases f
  {
    hide Width, Len, Size, Shallow;
    match f
    case Empty =>
      assert [] + tail == tail;
    case Leaf(_, rest) => ShallowDeep(rest, p + Width(f), d, tail);
    case Node(item, body, rest) =>
      var a, b := Preorder(body, p + Len(item), d + 1), Preorder(rest, p + Width(f), d);
      ShallowDeep(body, p + Len(item), d + 1, b + tail);
      ShallowDeep(rest, p + Width(f), d, tail);
      ShallowSkip((4 * p, d), a + (b + tail));
      assert Preorder(f, p, d) + tail == [(4 * p, d)] + (a + (b + tail));
  }

  lemma {:induction false} ShallowHas(f: Forest, p: nat)
    ensures Shallow(Preorder(f, p, 1)) ==
            (match FirstNode(f) case None => -NOTFOUND case Some(q) => 4 * (p + Pos(f, q)))
    decreases f
  {
    match f
    case Empty =>
    case Leaf(_, rest) => ShallowHas(rest, p + Width(f));
    case Node(item, body, rest) =>
  }

  /** The nodes visited from a node on, up to the end of its siblings. */
  lemma SiblingsHas(st: bytes, p: nat, f: Forest)
    requires f.Node? && Wf(f) && Has(st, p, f) && TagAt(st, p + Size(f), FDT_END_NODE)
    ensures Nodes(st, 4 * p, 1) ==
            [(4 * p, 1)] + (Preorder(f.body, p + Len(f.item), 2) + Preorder(f.rest, p + Width(f), 1))
  {
    hide NextTag, HasFirst, Has, Nodes, NodesEnd, NodesFrom, EndFrom, Preorder, TagAt, Len;
    var h, w, e := p + Len(f.item), p + Width(f), p + Size(f);
    HasHead(st, p, f);
    HasBody(st, p, f);
    NodesAt(st, 4 * p, 1);
    WalkHas(st, h, f.body, 1);
    ScanEnd(st, 4 * (h + Size(f.body)), 4 * w, 0);
    WalkHas(st, w, f.rest, 0);
    NextTagWord(st, e, FDT_END_NODE);
    ScanEnd(st, 4 * e, 4 * (e + 1), 0);
    var a, b := Preorder(f.body, h, 2), Preorder(f.rest, w, 1);
    assert b + [] == b;
  }

  /** fdt_next_subnode finds the next node among the entries that follow. */
  lemma NextSubnodeHas(st: bytes, p: nat, f: Forest)
    requires f.Node? && Wf(f) && Has(st, p, f) && TagAt(st, p + Size(f), FDT_END_NODE)
    ensures NextSubnode(st, 4 * p) ==
            (match FirstNode(f.rest)
             case None => -NOTFOUND
             case Some(q) => 4 * (p + Width(f) + Pos(f.rest, q)))
  {
    hide NextTag, HasFirst, Has, Nodes, NodesEnd, Preorder, TagAt;
    SiblingsHas(st, p, f);
    var a, b := Preorder(f.body, p + Len(f.item), 2), Preorder(f.rest, p + Width(f), 1);
    ShallowDeep(f.body, p + Len(f.item), 2, b);
    ShallowHas(f.rest, p + Width(f));
    assert ([(4 * p, 1)] + (a + b))[1..] == a + b;
  }
}
