/** libfdt/fdt_ro.c: ancestors and paths of nodes. */
module Paths {
  import opened Bytes
  import opened Tags
  import opened Blob
  import opened Forests
  import opened Edits
  import opened Walk
  import FdtCore
  import ReadOnly
  import ReadWrite
  import Traverse

  /** There is a node at place p of f. */
  ghost predicate NodePlace(f: Forest, p: Path) {
    IsPath(f, p) && At(f, p).Node?
  }

  /** The offsets of the nodes that lead to the node at p, itself included; f is encoded at position pos. */
  ghost function Chain(f: Forest, pos: nat, p: Path): (r: seq<int>)
    requires NodePlace(f, p)
    ensures |r| >= 1 && r[|r| - 1] == 4 * (pos + Pos(f, p))
  {
    match p
    case Here => [4 * pos]
    case Next(q) => Chain(f.rest, pos + Width(f), q)
    case Into(q) => [4 * pos] + Chain(f.body, pos + Len(f.item), q)
  }

  // ---------- fdt_supernode_atdepth_offset ----------

  /**
   * The loop of fdt_supernode_atdepth_offset over the visited nodes: the last one at depth k when the node at off is
   * reached, and the depth of that; None if it is not reached.
   */
  function Super(nodes: seq<(int, int)>, off: int, k: int, acc: int): Option<(int, int)> {
    if nodes == [] || nodes[0].0 > off then None
    else
      var acc' := if nodes[0].1 == k then nodes[0].0 else acc;
      if nodes[0].0 == off then Some((acc', nodes[0].1)) else Super(nodes[1..], off, k, acc')
  }

  lemma SuperCons(x: (int, int), t: seq<(int, int)>, off: int, k: int, acc: int)
    ensures Super([x] + t, off, k, acc) ==
            if x.0 > off then None
            else
              var acc' := if x.1 == k then x.0 else acc;
              if x.0 == off then Some((acc', x.1)) else Super(t, off, k, acc')
  {
    assert ([x] + t)[1..] == t;
  }

  /** The visited nodes of f, its first entry being a node, in front of others. */
  lemma NodeList(f: Forest, pos: nat, d: int, tail: seq<(int, int)>)
    requires f.Node?
    ensures Traverse.Preorder(f, pos, d) + tail ==
            [(4 * pos, d)] + (Traverse.Preorder(f.body, pos + Len(f.item), d + 1) +
                              (Traverse.Preorder(f.rest, pos + Width(f), d) + tail))
  {
  }

  /** Passing over nodes that come before the one looked for. */
  lemma {:induction false} SuperSkip(f: Forest, pos: nat, d: int, tail: seq<(int, int)>, off: int, k: int, acc: int)
    returns (acc': int)
    requires 4 * (pos + Size(f)) <= off
    ensures Super(Traverse.Preorder(f, pos, d) + tail, off, k, acc) == Super(tail, off, k, acc')
    ensures k < d ==> acc' == acc
    decreases f
  {
    hide Super, Len, Width;
    match f
    case Empty =>
      assert [] + tail == tail;
      acc' := acc;
    case Leaf(_, rest) => acc' := SuperSkip(rest, pos + Width(f), d, tail, off, k, acc);
    case Node(item, body, rest) =>
      NodeSizes(f);
      NodeList(f, pos, d, tail);
      var a, b := Traverse.Preorder(body, pos + Len(item), d + 1), Traverse.Preorder(rest, pos + Width(f), d);
      SuperCons((4 * pos, d), a + (b + tail), off, k, acc);
      acc' := SuperSkip(body, pos + Len(item), d + 1, b + tail, off, k, if d == k then 4 * pos else acc);
      acc' := SuperSkip(rest, pos + Width(f), d, tail, off, k, acc');
  }

  lemma NodeSizes(f: Forest)
    requires f.Node?
    ensures Width(f) == Len(f.item) + Size(f.body) + 1 && Size(f) == Width(f) + Size(f.rest) && Len(f.item) >= 1
  {
  }

  /** How a place below or behind a node lies in the parts of the forest. */
  lemma PlaceParts(f: Forest, pos: nat, p: Path)
    requires f.Node? && NodePlace(f, p)
    ensures match p
      case Here => 4 * (pos + Pos(f, p)) == 4 * pos && Chain(f, pos, p) == [4 * pos]
      case Into(q) =>
        && NodePlace(f.body, q) && 4 * (pos + Pos(f, p)) == 4 * (pos + Len(f.item) + Pos(f.body, q)) && Len(f.item) > 0
        && Chain(f, pos, p) == [4 * pos] + Chain(f.body, pos + Len(f.item), q)
      case Next(q) =>
        && NodePlace(f.rest, q) && 4 * (pos + Pos(f, p)) == 4 * (pos + Width(f) + Pos(f.rest, q))
        && Chain(f, pos, p) == Chain(f.rest, pos + Width(f), q)
        && pos + Len(f.item) + Size(f.body) <= pos + Width(f) + Pos(f.rest, q)
    ensures 4 * (pos + Pos(f, p)) >= 4 * pos && (p != Here ==> 4 * (pos + Pos(f, p)) > 4 * pos)
  {
  }

  lemma LeafParts(f: Forest, pos: nat, p: Path)
    requires f.Leaf? && NodePlace(f, p)
    ensures p.Next? && NodePlace(f.rest, p.tail) && 4 * (pos + Pos(f, p)) == 4 * (pos + Width(f) + Pos(f.rest, p.tail))
    ensures Chain(f, pos, p) == Chain(f.rest, pos + Width(f), p.tail)
    ensures forall d: int :: Traverse.Preorder(f, pos, d) == Traverse.Preorder(f.rest, pos + Width(f), d)
  {
  }

  /** The last visited node at depth k is the true ancestor at that depth. */
  lemma {:induction false} SuperIn(f: Forest, pos: nat, d: int, p: Path, tail: seq<(int, int)>, k: int, acc: int)
    requires NodePlace(f, p)
    ensures Found(f, pos, d, p, k, acc, Super(Traverse.Preorder(f, pos, d) + tail, 4 * (pos + Pos(f, p)), k, acc))
    decreases p, 1
  {
    hide *;
    KindOf(f, p);
    var off := 4 * (pos + Pos(f, p));
    if f.Leaf? {
      LeafParts(f, pos, p);
      SuperIn(f.rest, pos + Width(f), d, p.tail, tail, k, acc);
      FoundLeaf(f, pos, d, p, k, acc, Super(Traverse.Preorder(f, pos, d) + tail, off, k, acc));
    } else {
      match p
      case Here => SuperHere(f, pos, d, tail, k, acc);
      case Into(_) => SuperInto(f, pos, d, p, tail, k, acc);
      case Next(_) => SuperNext(f, pos, d, p, tail, k, acc);
    }
  }

  lemma SuperHere(f: Forest, pos: nat, d: int, tail: seq<(int, int)>, k: int, acc: int)
    requires NodePlace(f, Here)
    ensures Found(f, pos, d, Here, k, acc, Super(Traverse.Preorder(f, pos, d) + tail, 4 * (pos + Pos(f, Here)), k, acc))
  {
    PlaceParts(f, pos, Here);
    FoundHere(f, pos, d, k, acc);
    hide *;
    NodeList(f, pos, d, tail);
    var a, b := Traverse.Preorder(f.body, pos + Len(f.item), d + 1), Traverse.Preorder(f.rest, pos + Width(f), d);
    SuperCons((4 * pos, d), a + (b + tail), 4 * pos, k, acc);
  }

  lemma {:induction false} SuperInto(f: Forest, pos: nat, d: int, p: Path, tail: seq<(int, int)>, k: int, acc: int)
    requires f.Node? && p.Into? && NodePlace(f, p)
    ensures Found(f, pos, d, p, k, acc, Super(Traverse.Preorder(f, pos, d) + tail, 4 * (pos + Pos(f, p)), k, acc))
    decreases p, 0
  {
    hide *;
    KindOf(f, p);
    PlaceParts(f, pos, p);
    NodeList(f, pos, d, tail);
    var q, off := p.tail, 4 * (pos + Pos(f, p));
    var a, b := Traverse.Preorder(f.body, pos + Len(f.item), d + 1), Traverse.Preorder(f.rest, pos + Width(f), d);
    SuperCons((4 * pos, d), a + (b + tail), off, k, acc);
    var acc1 := if d == k then 4 * pos else acc;
    SuperIn(f.body, pos + Len(f.item), d + 1, q, b + tail, k, acc1);
    FoundInto(f, pos, d, p, k, acc, Super(a + (b + tail), off, k, acc1));
  }

  lemma {:induction false} SuperNext(f: Forest, pos: nat, d: int, p: Path, tail: seq<(int, int)>, k: int, acc: int)
    requires f.Node? && p.Next? && NodePlace(f, p)
    ensures Found(f, pos, d, p, k, acc, Super(Traverse.Preorder(f, pos, d) + tail, 4 * (pos + Pos(f, p)), k, acc))
    decreases p, 0
  {
    hide *;
    KindOf(f, p);
    PlaceParts(f, pos, p);
    NodeList(f, pos, d, tail);
    var q, off := p.tail, 4 * (pos + Pos(f, p));
    var a, b := Traverse.Preorder(f.body, pos + Len(f.item), d + 1), Traverse.Preorder(f.rest, pos + Width(f), d);
    SuperCons((4 * pos, d), a + (b + tail), off, k, acc);
    var acc2 := SuperSkip(f.body, pos + Len(f.item), d + 1, b + tail, off, k, if d == k then 4 * pos else acc);
    SuperIn(f.rest, pos + Width(f), d, q, tail, k, acc2);
    FoundNext(f, pos, d, p, k, acc, acc2, Super(b + tail, off, k, acc2));
  }

  lemma KindOf(f: Forest, p: Path)
    requires NodePlace(f, p)
    ensures IsPath(f, p) && (f.Leaf? || f.Node?)
  {
  }

  /** r is the ancestor at depth k of the node at p, if that is d or more, and the depth of the node. */
  ghost predicate Found(f: Forest, pos: nat, d: int, p: Path, k: int, acc: int, r: Option<(int, int)>)
    requires NodePlace(f, p)
  {
    var c := Chain(f, pos, p);
    && r.Some? && r.value.1 == d + |c| - 1
    && (k < d ==> r.value.0 == acc) && (d <= k < d + |c| ==> r.value.0 == c[k - d])
  }

  lemma FoundLeaf(f: Forest, pos: nat, d: int, p: Path, k: int, acc: int, r: Option<(int, int)>)
    requires f.Leaf? && NodePlace(f, p) && NodePlace(f.rest, p.tail)
    requires Found(f.rest, pos + Width(f), d, p.tail, k, acc, r)
    ensures Found(f, pos, d, p, k, acc, r)
  {
  }

  lemma FoundHere(f: Forest, pos: nat, d: int, k: int, acc: int)
    requires NodePlace(f, Here)
    ensures Found(f, pos, d, Here, k, acc, Some((if d == k then 4 * pos else acc, d)))
  {
  }

  lemma FoundInto(f: Forest, pos: nat, d: int, p: Path, k: int, acc: int, r: Option<(int, int)>)
    requires p.Into? && NodePlace(f, p) && NodePlace(f.body, p.tail)
    requires Found(f.body, pos + Len(f.item), d + 1, p.tail, k, if d == k then 4 * pos else acc, r)
    ensures Found(f, pos, d, p, k, acc, r)
  {
  }

  lemma FoundNext(f: Forest, pos: nat, d: int, p: Path, k: int, acc: int, acc2: int, r: Option<(int, int)>)
    requires f.Node? && p.Next? && NodePlace(f, p) && NodePlace(f.rest, p.tail)
    requires Found(f.rest, pos + Width(f), d, p.tail, k, acc2, r) && (k < d ==> acc2 == acc)
    ensures Found(f, pos, d, p, k, acc, r)
  {
  }

  /** The node at place p lies in the tree with its root at offset 0. */
  ghost predicate InRoot(f: Forest, p: Path) {
    f.Node? && NodePlace(f, p) && !p.Next?
  }

  /** What the loop finds for a node of the tree. */
  lemma SuperHas(st: bytes, f: Forest, p: Path, k: int, acc: int)
    requires Encodes(st, f) && InRoot(f, p)
    ensures var c := Chain(f, 0, p);
      var r := Super(Nodes(st, 0, 0), 4 * Pos(f, p), k, acc);
      r.Some? && r.value.1 == |c| - 1 && (0 <= k < |c| ==> r.value.0 == c[k])
  {
    hide *;
    ChainRoot(f, p);
    RootNodes(st, f);
    SuperCons((0, 0), Traverse.Preorder(f.body, Len(f.item), 1), 4 * Pos(f, p), k, acc);
    match p
    case Here =>
    case Into(q) => SuperBody(f.body, Len(f.item), q, k, if k == 0 then 0 else acc);
  }

  lemma SuperBody(f: Forest, pos: nat, q: Path, k: int, acc: int)
    requires NodePlace(f, q)
    ensures var c := Chain(f, pos, q);
      var r := Super(Traverse.Preorder(f, pos, 1), 4 * (pos + Pos(f, q)), k, acc);
      && r.Some? && r.value.1 == |c|
      && (k < 1 ==> r.value.0 == acc) && (1 <= k < 1 + |c| ==> r.value.0 == c[k - 1])
  {
    hide Super, Traverse.Preorder, Chain, Pos;
    var a := Traverse.Preorder(f, pos, 1);
    assert a + [] == a;
    SuperIn(f, pos, 1, q, [], k, acc);
  }

  lemma RootNodes(st: bytes, f: Forest)
    requires Encodes(st, f) && f.Node?
    ensures Nodes(st, 0, 0) == [(0, 0)] + Traverse.Preorder(f.body, Len(f.item), 1)
  {
    hide Nodes, Has, Traverse.Preorder, TagAt;
    Traverse.SubtreeHas(st, 0, f);
  }

  lemma ChainRoot(f: Forest, p: Path)
    requires InRoot(f, p)
    ensures f.Node? && IsPath(f, p) && NodePlace(f, p)
    ensures match p
      case Here => Chain(f, 0, p) == [0] && Pos(f, p) == 0
      case Into(q) =>
        && NodePlace(f.body, q) && Chain(f, 0, p) == [0] + Chain(f.body, Len(f.item), q)
        && Pos(f, p) == Len(f.item) + Pos(f.body, q) && Pos(f, p) > 0
      case Next(_) => false
  {
  }

  lemma NodesHere(st: bytes, off: int, depth: int, target: int, k: int, acc: int)
    requires off >= 0 && depth >= 0
    ensures Nodes(st, off, depth) != []
    ensures Super(Nodes(st, off, depth), target, k, acc) ==
            if off > target then None
            else
              var acc' := if depth == k then off else acc;
              var (next, d) := NextNode(st, off, depth);
              if off == target then Some((acc', depth)) else Super(Nodes(st, next, d), target, k, acc')
  {
    hide NextNode, Nodes, Super;
    NodesStep(st, off, depth);
    var (next, d) := NextNode(st, off, depth);
    SuperCons((off, depth), Nodes(st, next, d), target, k, acc);
  }

  /** fdt_supernode_atdepth_offset for a node of the tree: its true ancestor at the given depth. */
  method SupernodeAtdepthOffset(fdt: Fdt, nodeoffset: int, supernodedepth: int, ghost p: Path)
    returns (supernodeoffset: int, nodedepth: int)
    requires fdt.Valid() && InRoot(fdt.forest, p) && nodeoffset == 4 * Pos(fdt.forest, p) && nodeoffset <= INT_MAX
    ensures var c := Chain(fdt.forest, 0, p);
      && supernodeoffset == (if 0 <= supernodedepth < |c| then c[supernodedepth] else -NOTFOUND)
      && (supernodedepth >= 0 ==> nodedepth == |c| - 1)
  {
    hide Fdt.St, Nodes, NextNode, Super, Encodes, Pos, Chain, IsPath, At;
    nodedepth := 0;
    if supernodedepth < 0 {
      return -NOTFOUND, nodedepth;
    }
    ghost var st := fdt.St();
    var offset, depth := 0, 0;
    supernodeoffset := -INTERNAL;
    SuperHas(st, fdt.forest, p, supernodedepth, supernodeoffset);
    ghost var want := Super(Nodes(st, 0, 0), nodeoffset, supernodedepth, supernodeoffset);
    while offset >= 0 && offset <= nodeoffset
      invariant offset <= INT_MAX && want.Some?
      invariant want == Super(Nodes(st, offset, depth), nodeoffset, supernodedepth, supernodeoffset)
      decreases if offset < 0 then 0 else 1 + INT_MAX - offset
    {
      Visited(st, offset, depth, nodeoffset, supernodedepth, supernodeoffset);
      NodesHere(st, offset, depth, nodeoffset, supernodedepth, supernodeoffset);
      NodesStep(st, offset, depth);
      if depth == supernodedepth {
        supernodeoffset := offset;
      }
      if offset == nodeoffset {
        nodedepth := depth;
        if supernodedepth > depth {
          return -NOTFOUND, nodedepth;
        }
        return supernodeoffset, nodedepth;
      }
      offset, depth := FdtCore.NextNode(fdt, offset, depth);
      Visited(st, offset, depth, nodeoffset, supernodedepth, supernodeoffset);
    }
    Passed(st, offset, depth, nodeoffset, supernodedepth, supernodeoffset);
  }

  /** As long as the node is still to come, the walk is in the tree. */
  lemma Visited(st: bytes, off: int, depth: int, target: int, k: int, acc: int)
    requires Super(Nodes(st, off, depth), target, k, acc).Some?
    ensures off >= 0 && depth >= 0
  {
    hide NextNode;
    NodesHead(st, off, depth);
  }

  lemma Passed(st: bytes, off: int, depth: int, target: int, k: int, acc: int)
    requires !(0 <= off <= target)
    ensures Super(Nodes(st, off, depth), target, k, acc).None?
  {
    hide NextNode;
    NodesHead(st, off, depth);
  }

  /** fdt_parent_offset for a node of the tree. */
  method ParentOffset(fdt: Fdt, nodeoffset: int, ghost p: Path) returns (parent: int)
    requires fdt.Valid() && InRoot(fdt.forest, p) && nodeoffset == 4 * Pos(fdt.forest, p) && nodeoffset <= INT_MAX
    ensures var c := Chain(fdt.forest, 0, p); parent == if |c| >= 2 then c[|c| - 2] else -NOTFOUND
  {
    hide Fdt.St, Encodes, Pos, Chain, IsPath, At;
    var err, nodedepth := SupernodeAtdepthOffset(fdt, nodeoffset, 0, p);
    RootFirst(fdt.forest, p);
    if err != 0 {
      return if err < 0 then err else -INTERNAL;
    }
    var depth;
    parent, depth := SupernodeAtdepthOffset(fdt, nodeoffset, nodedepth - 1, p);
  }

  lemma RootFirst(f: Forest, p: Path)
    requires InRoot(f, p)
    ensures Chain(f, 0, p)[0] == 0
  {
  }

  // ---------- Path strings ----------

  /** The names on the way to the node at p, its own included. */
  ghost function NamesTo(f: Forest, p: Path): (r: seq<bytes>)
    requires Wf(f) && NodePlace(f, p)
    ensures |r| >= 1
  {
    match p
    case Here => [f.item.name]
    case Next(q) => NamesTo(f.rest, q)
    case Into(q) => [f.item.name] + NamesTo(f.body, q)
  }

  /** Every name followed by a slash. */
  function Joined(names: seq<bytes>): bytes {
    if names == [] then [] else Joined(names[..|names| - 1]) + (names[|names| - 1] + [SLASH])
  }

  /** The path of a node: a single slash for the root, else no slash at the end. */
  function PathString(names: seq<bytes>): bytes {
    var j := Joined(names);
    if |j| > 1 then j[..|j| - 1] else j
  }

  lemma JoinedSnoc(names: seq<bytes>, name: bytes)
    ensures Joined(names + [name]) == Joined(names) + (name + [SLASH])
  {
    assert (names + [name])[..|names|] == names;
  }

  /** The components that are pushed while they and a slash fit into n bytes; None if one does not. */
  function Pushed(base: seq<bytes>, names: seq<bytes>, n: int): Option<seq<bytes>>
    decreases |names|
  {
    if names == [] then Some(base)
    else if |Joined(base)| + |names[0]| + 1 <= n then Pushed(base + [names[0]], names[1..], n)
    else None
  }

  lemma {:induction false} JoinedGrows(base: seq<bytes>, names: seq<bytes>)
    ensures |Joined(base + names)| >= |Joined(base)|
    decreases |names|
  {
    if names == [] {
      assert base + names == base;
    } else {
      assert base + names == base + [names[0]] + names[1..];
      JoinedSnoc(base, names[0]);
      JoinedGrows(base + [names[0]], names[1..]);
    }
  }

  /** Pushing all components succeeds exactly when the whole path fits. */
  lemma {:induction false} PushedAll(base: seq<bytes>, names: seq<bytes>, n: int)
    requires |Joined(base)| <= n
    ensures Pushed(base, names, n) == if |Joined(base + names)| <= n then Some(base + names) else None
    decreases |names|
  {
    if names == [] {
      assert base + names == base;
    } else {
      assert base + names == base + [names[0]] + names[1..];
      JoinedSnoc(base, names[0]);
      if |Joined(base)| + |names[0]| + 1 <= n {
        PushedAll(base + [names[0]], names[1..], n);
      } else {
        JoinedGrows(base + [names[0]], names[1..]);
      }
    }
  }

  // ---------- fdt_get_path ----------

  /** The components that are on the stack when a node at the given depth is visited: deeper ones are popped first. */
  function Popped(stack: seq<bytes>, depth: int): seq<bytes> {
    if 0 <= depth < |stack| then stack[..depth] else stack
  }

  /** The stack after a node has been visited. */
  function Visit(stack: seq<bytes>, depth: int, name: bytes, n: int): seq<bytes> {
    var s := Popped(stack, depth);
    if |s| >= depth && |Joined(s)| + |name| + 1 <= n then s + [name] else s
  }

  /** The loop of fdt_get_path over the visited nodes: the components when the node at off is reached, if all fit. */
  function Scan(st: bytes, nodes: seq<(int, int)>, off: int, stack: seq<bytes>, n: int): Option<seq<bytes>> {
    if nodes == [] || nodes[0].0 > off then None
    else
      var s := Visit(stack, nodes[0].1, NameOf(st, nodes[0].0).GetOr([]), n);
      if nodes[0].0 == off then if |s| >= nodes[0].1 + 1 then Some(s) else None
      else Scan(st, nodes[1..], off, s, n)
  }

  lemma ScanCons(st: bytes, x: (int, int), t: seq<(int, int)>, off: int, stack: seq<bytes>, n: int)
    ensures Scan(st, [x] + t, off, stack, n) ==
            if x.0 > off then None
            else
              var s := Visit(stack, x.1, NameOf(st, x.0).GetOr([]), n);
              if x.0 == off then if |s| >= x.1 + 1 then Some(s) else None else Scan(st, t, off, s, n)
  {
    assert ([x] + t)[1..] == t;
  }

  /** Nodes at depth d or deeper leave the first d components alone. */
  ghost predicate SameBase(s: seq<bytes>, s': seq<bytes>, d: nat) {
    (|s| >= d ==> |s'| >= d && s'[..d] == s[..d]) && (|s| < d ==> s' == s)
  }

  lemma VisitBase(stack: seq<bytes>, d: nat, e: nat, name: bytes, n: int)
    requires d <= e
    ensures SameBase(stack, Visit(stack, e, name, n), d)
  {
    var s := Popped(stack, e);
    if |stack| >= d {
      assert s[..d] == stack[..d];
      assert |s| >= d ==> (s + [name])[..d] == s[..d];
    }
  }

  lemma {:induction false} ScanSkip(st: bytes, f: Forest, pos: nat, d: nat, tail: seq<(int, int)>, off: int,
                                    stack: seq<bytes>, n: int)
    returns (s': seq<bytes>)
    requires 4 * (pos + Size(f)) <= off
    ensures Scan(st, Traverse.Preorder(f, pos, d) + tail, off, stack, n) == Scan(st, tail, off, s', n)
    ensures SameBase(stack, s', d)
    decreases f
  {
    hide Scan, Len, Width, Visit, NameOf;
    match f
    case Empty =>
      assert [] + tail == tail;
      s' := stack;
    case Leaf(_, rest) => s' := ScanSkip(st, rest, pos + Width(f), d, tail, off, stack, n);
    case Node(item, body, rest) =>
      NodeSizes(f);
      NodeList(f, pos, d, tail);
      var a, b := Traverse.Preorder(body, pos + Len(item), d + 1), Traverse.Preorder(rest, pos + Width(f), d);
      ScanCons(st, (4 * pos, d), a + (b + tail), off, stack, n);
      var name := NameOf(st, 4 * pos).GetOr([]);
      VisitBase(stack, d, d, name, n);
      var s1 := Visit(stack, d, name, n);
      var s2 := ScanSkip(st, body, pos + Len(item), d + 1, b + tail, off, s1, n);
      BaseDown(s1, s2, d);
      s' := ScanSkip(st, rest, pos + Width(f), d, tail, off, s2, n);
      BaseTrans(stack, s1, s2, s', d);
  }

  lemma BaseDown(s: seq<bytes>, s': seq<bytes>, d: nat)
    requires SameBase(s, s', d + 1)
    ensures SameBase(s, s', d)
  {
    if |s| >= d + 1 {
      assert s'[..d] == s'[..d + 1][..d] && s[..d] == s[..d + 1][..d];
    }
  }

  lemma BaseTrans(a: seq<bytes>, b: seq<bytes>, c: seq<bytes>, e: seq<bytes>, d: nat)
    requires SameBase(a, b, d) && SameBase(b, c, d) && SameBase(c, e, d)
    ensures SameBase(a, e, d)
  {
  }

  /** The components of d ancestors and further names, if the ancestors are on the stack and all of it fits. */
  function Expect(stack: seq<bytes>, d: nat, names: seq<bytes>, n: int): Option<seq<bytes>> {
    if |stack| >= d then Pushed(stack[..d], names, n) else None
  }

  /** What the loop finds for a node of f: the components of its ancestors on the stack, then its own names. */
  lemma {:induction false} ScanIn(st: bytes, f: Forest, pos: nat, d: nat, p: Path, tail: seq<(int, int)>,
                                  stack: seq<bytes>, n: int)
    requires Wf(f) && Has(st, pos, f) && NodePlace(f, p)
    ensures Scan(st, Traverse.Preorder(f, pos, d) + tail, 4 * (pos + Pos(f, p)), stack, n) ==
            Expect(stack, d, NamesTo(f, p), n)
    decreases p, 2
  {
    hide Scan, Len, Width, Visit, NameOf, Has, HasFirst, Pushed, WfItem;
    Traverse.HasHead(st, pos, f);
    if f.Leaf? {
      ScanIn(st, f.rest, pos + Width(f), d, p.tail, tail, stack, n);
    } else {
      ScanAtNode(st, f, pos, d, p, tail, stack, n);
    }
  }

  lemma {:induction false} ScanAtNode(st: bytes, f: Forest, pos: nat, d: nat, p: Path, tail: seq<(int, int)>,
                                      stack: seq<bytes>, n: int)
    requires Wf(f) && Has(st, pos, f) && NodePlace(f, p) && f.Node?
    ensures Scan(st, Traverse.Preorder(f, pos, d) + tail, 4 * (pos + Pos(f, p)), stack, n) ==
            Expect(stack, d, NamesTo(f, p), n)
    decreases p, 1
  {
    match p
    case Here => ScanHere(st, f, pos, d, tail, stack, n);
    case Into(_) => ScanInto(st, f, pos, d, p, tail, stack, n);
    case Next(_) => ScanNext(st, f, pos, d, p, tail, stack, n);
  }

  /** The first node of f has been visited. */
  lemma ScanFirst(st: bytes, f: Forest, pos: nat, d: nat, tail: seq<(int, int)>, off: int, stack: seq<bytes>, n: int)
    requires f.Node? && f.item.Begin? && NameOf(st, 4 * pos) == Some(f.item.name)
    ensures var t := Traverse.Preorder(f.body, pos + Len(f.item),
                                       d + 1) + (Traverse.Preorder(f.rest, pos + Width(f), d) + tail);
      var s := Visit(stack, d, f.item.name, n);
      Scan(st, Traverse.Preorder(f, pos, d) + tail, off, stack, n) ==
      if 4 * pos > off then None
      else if 4 * pos == off then if |s| >= d + 1 then Some(s) else None
      else Scan(st, t, off, s, n)
  {
    hide *;
    NodeList(f, pos, d, tail);
    NameGot(st, 4 * pos, f.item.name);
    ScanCons(st, (4 * pos, d),
             Traverse.Preorder(f.body, pos + Len(f.item),
                               d + 1) + (Traverse.Preorder(f.rest, pos + Width(f), d) + tail),
             off, stack, n);
  }

  lemma IntoNames(st: bytes, pos: nat, f: Forest, p: Path)
    requires Wf(f) && Has(st, pos, f) && f.Node? && p.Into? && NodePlace(f, p)
    ensures IsPath(f, p) && Wf(f.body) && NodePlace(f.body, p.tail) && Has(st, pos + Len(f.item), f.body)
    ensures NamesTo(f, p) == [f.item.name] + NamesTo(f.body, p.tail)
    ensures 4 * (pos + Pos(f, p)) == 4 * (pos + Len(f.item) + Pos(f.body, p.tail)) && 4 * (pos + Pos(f, p)) > 4 * pos
    ensures f.item.Begin? && NameOf(st, 4 * pos) == Some(f.item.name)
  {
    NodeNamed(st, pos, f, p);
    PlaceParts(f, pos, p);
  }

  lemma NextNames(st: bytes, pos: nat, f: Forest, p: Path)
    requires Wf(f) && Has(st, pos, f) && f.Node? && p.Next? && NodePlace(f, p)
    ensures IsPath(f, p) && Wf(f.rest) && NodePlace(f.rest, p.tail) && Has(st, pos + Width(f), f.rest)
    ensures NamesTo(f, p) == NamesTo(f.rest, p.tail)
    ensures 4 * (pos + Pos(f, p)) == 4 * (pos + Width(f) + Pos(f.rest, p.tail)) && 4 * (pos + Pos(f, p)) > 4 * pos
    ensures pos + Len(f.item) + Size(f.body) <= pos + Width(f) + Pos(f.rest, p.tail)
    ensures f.item.Begin? && NameOf(st, 4 * pos) == Some(f.item.name)
  {
    NodeNamed(st, pos, f, p);
    PlaceParts(f, pos, p);
  }

  lemma ScanHere(st: bytes, f: Forest, pos: nat, d: nat, tail: seq<(int, int)>, stack: seq<bytes>, n: int)
    requires Wf(f) && Has(st, pos, f) && NodePlace(f, Here) && f.Node?
    ensures Scan(st, Traverse.Preorder(f, pos, d) + tail, 4 * (pos + Pos(f, Here)), stack, n) ==
            Expect(stack, d, NamesTo(f, Here), n)
  {
    hide *;
    NodeNamed(st, pos, f, Here);
    PlaceParts(f, pos, Here);
    ScanFirst(st, f, pos, d, tail, 4 * pos, stack, n);
    VisitHere(stack, d, f.item.name, n);
  }

  lemma {:induction false} ScanInto(st: bytes, f: Forest, pos: nat, d: nat, p: Path, tail: seq<(int, int)>,
                                    stack: seq<bytes>, n: int)
    requires Wf(f) && Has(st, pos, f) && NodePlace(f, p) && f.Node? && p.Into?
    ensures Scan(st, Traverse.Preorder(f, pos, d) + tail, 4 * (pos + Pos(f, p)), stack, n) ==
            Expect(stack, d, NamesTo(f, p), n)
    decreases p, 0
  {
    hide *;
    IntoNames(st, pos, f, p);
    var q, off := p.tail, 4 * (pos + Pos(f, p));
    ScanFirst(st, f, pos, d, tail, off, stack, n);
    ScanIn(st, f.body, pos + Len(f.item), d + 1, q, Traverse.Preorder(f.rest, pos + Width(f), d) + tail,
           Visit(stack, d, f.item.name, n), n);
    PushedInto(stack, d, f.item.name, NamesTo(f.body, q), n);
  }

  lemma {:induction false} ScanNext(st: bytes, f: Forest, pos: nat, d: nat, p: Path, tail: seq<(int, int)>,
                                    stack: seq<bytes>, n: int)
    requires Wf(f) && Has(st, pos, f) && NodePlace(f, p) && f.Node? && p.Next?
    ensures Scan(st, Traverse.Preorder(f, pos, d) + tail, 4 * (pos + Pos(f, p)), stack, n) ==
            Expect(stack, d, NamesTo(f, p), n)
    decreases p, 0
  {
    hide *;
    NextNames(st, pos, f, p);
    var q, off := p.tail, 4 * (pos + Pos(f, p));
    ScanFirst(st, f, pos, d, tail, off, stack, n);
    var s1 := Visit(stack, d, f.item.name, n);
    var s2 := ScanSkip(st, f.body, pos + Len(f.item), d + 1, Traverse.Preorder(f.rest, pos + Width(f), d) + tail, off,
                       s1, n);
    VisitBase(stack, d, d, f.item.name, n);
    BaseDown(s1, s2, d);
    BaseTwo(stack, s1, s2, d, NamesTo(f, p), n);
    ScanIn(st, f.rest, pos + Width(f), d, q, tail, s2, n);
  }

  lemma NameGot(st: bytes, off: int, name: bytes)
    requires NameOf(st, off) == Some(name)
    ensures NameOf(st, off).GetOr([]) == name
  {
  }

  lemma BaseTwo(a: seq<bytes>, b: seq<bytes>, c: seq<bytes>, d: nat, names: seq<bytes>, n: int)
    requires SameBase(a, b, d) && SameBase(b, c, d)
    ensures Expect(c, d, names, n) == Expect(a, d, names, n)
  {
  }

  lemma NodeNamed(st: bytes, pos: nat, f: Forest, p: Path)
    requires Wf(f) && Has(st, pos, f) && f.Node? && NodePlace(f, p)
    ensures IsPath(f, p) && Wf(f.body) && Wf(f.rest)
    ensures match p
      case Here => NamesTo(f, p) == [f.item.name]
      case Into(q) => NodePlace(f.body, q) && NamesTo(f, p) == [f.item.name] + NamesTo(f.body, q)
      case Next(q) => NodePlace(f.rest, q) && NamesTo(f, p) == NamesTo(f.rest, q)
    ensures Has(st, pos + Len(f.item), f.body) && Has(st, pos + Width(f), f.rest)
    ensures f.item.Begin? && NameOf(st, 4 * pos) == Some(f.item.name)
  {
    hide Tags.NextTag, NameOf, Has, HasFirst;
    Traverse.HasHead(st, pos, f);
    Traverse.HasBody(st, pos, f);
    Traverse.NameOfHas(st, pos, f);
  }

  /** Visiting the node itself. */
  lemma VisitHere(stack: seq<bytes>, d: nat, name: bytes, n: int)
    ensures var s := Visit(stack, d, name, n);
      (if |s| >= d + 1 then Some(s) else None) == Expect(stack, d, [name], n)
  {
    VisitFirst(stack, d, name, n);
  }

  /** Visiting a node pushes its name onto its ancestors' names, if they are there and it fits. */
  lemma VisitFirst(stack: seq<bytes>, d: nat, name: bytes, n: int)
    ensures var s := Visit(stack, d, name, n);
      if |stack| >= d && |Joined(stack[..d])| + |name| + 1 <= n then s == stack[..d] + [name]
      else |s| <= d
    ensures Pushed(stack[..if |stack| >= d then d else 0], [name], n) ==
            var b := stack[..if |stack| >= d then d else 0];
            if |Joined(b)| + |name| + 1 <= n then Some(b + [name]) else None
  {
    if |stack| >= d {
      assert Popped(stack, d) == stack[..d];
    }
  }

  lemma PushedInto(stack: seq<bytes>, d: nat, name: bytes, names: seq<bytes>, n: int)
    ensures var s := Visit(stack, d, name, n);
      Expect(s, d + 1, names, n) == Expect(stack, d, [name] + names, n)
  {
    VisitFirst(stack, d, name, n);
    var s := Visit(stack, d, name, n);
    assert ([name] + names)[1..] == names;
    if |stack| >= d && |Joined(stack[..d])| + |name| + 1 <= n {
      assert s[..d + 1] == s;
    }
  }

  /** The walk from the root: all names of the way, if they fit. */
  lemma ScanHas(st: bytes, f: Forest, p: Path, n: int)
    requires Encodes(st, f) && InRoot(f, p) && n >= 0
    ensures Wf(f) && Scan(st, Nodes(st, 0, 0), 4 * Pos(f, p), [], n) ==
            if |Joined(NamesTo(f, p))| <= n then Some(NamesTo(f, p)) else None
  {
    hide *;
    RootFacts(st, f, p);
    RootNodes(st, f);
    ScanCons(st, (0, 0), Traverse.Preorder(f.body, Len(f.item), 1), 4 * Pos(f, p), [], n);
    NameGot(st, 0, f.item.name);
    ExpectAll(NamesTo(f, p), n);
    match p
    case Here =>
      VisitHere([], 0, f.item.name, n);
    case Into(q) =>
      ScanBody(st, f.body, Len(f.item), q, Visit([], 0, f.item.name, n), n);
      PushedInto([], 0, f.item.name, NamesTo(f.body, q), n);
  }

  lemma RootFacts(st: bytes, f: Forest, p: Path)
    requires Encodes(st, f) && InRoot(f, p)
    ensures f.Node? && Wf(f) && IsPath(f, p) && NodePlace(f, p) && f.item.Begin? && NameOf(st, 0) == Some(f.item.name)
    ensures Wf(f.body) && Has(st, Len(f.item), f.body)
    ensures match p
      case Here => NamesTo(f, p) == [f.item.name] && 4 * Pos(f, p) == 0
      case Into(q) =>
        && IsPath(f.body, q) && NodePlace(f.body, q) && NamesTo(f, p) == [f.item.name] + NamesTo(f.body, q)
        && 4 * Pos(f, p) == 4 * (Len(f.item) + Pos(f.body, q)) && 4 * Pos(f, p) > 0
      case Next(_) => false
  {
    hide Has, HasFirst, NameOf, TagAt;
    NodeNamed(st, 0, f, p);
    PlaceParts(f, 0, p);
  }

  lemma ScanBody(st: bytes, f: Forest, pos: nat, q: Path, stack: seq<bytes>, n: int)
    requires Wf(f) && Has(st, pos, f) && NodePlace(f, q) && IsPath(f, q)
    ensures Scan(st, Traverse.Preorder(f, pos, 1), 4 * (pos + Pos(f, q)), stack, n) ==
              Expect(stack, 1, NamesTo(f, q), n)
  {
    hide *;
    var a := Traverse.Preorder(f, pos, 1);
    assert a + [] == a;
    ScanIn(st, f, pos, 1, q, [], stack, n);
  }

  lemma ExpectAll(names: seq<bytes>, n: int)
    requires n >= 0
    ensures Expect([], 0, names, n) == if |Joined(names)| <= n then Some(names) else None
  {
    PushedAll([], names, n);
    assert [] + names == names;
  }

  /** All visited nodes have names without slashes, and only the root is at depth 0. */
  ghost predicate Tidy(st: bytes, nodes: seq<(int, int)>) {
    forall x :: x in nodes ==> NameOf(st, x.0).Some? && SLASH !in NameOf(st, x.0).value && (x.0 == 0 || x.1 >= 1)
  }

  /** No node of f has a slash in its name. */
  ghost predicate NoSlash(f: Forest) {
    match f
    case Empty => true
    case Leaf(_, rest) => NoSlash(rest)
    case Node(item, body, rest) => (item.Begin? ==> SLASH !in item.name) && NoSlash(body) && NoSlash(rest)
  }

  lemma {:induction false} TidyList(st: bytes, f: Forest, pos: nat, d: nat)
    requires Wf(f) && Has(st, pos, f) && NoSlash(f) && d >= 1
    ensures Tidy(st, Traverse.Preorder(f, pos, d))
    decreases f
  {
    hide Has, HasFirst, NameOf, Len;
    match f
    case Empty =>
    case Leaf(_, rest) =>
      Traverse.HasHead(st, pos, f);
      TidyList(st, rest, pos + Width(f), d);
    case Node(item, body, rest) =>
      NodeNamed(st, pos, f, Here);
      TidyList(st, body, pos + Len(item), d + 1);
      TidyList(st, rest, pos + Width(f), d);
  }

  lemma TidyRoot(st: bytes, f: Forest)
    requires Encodes(st, f) && f.Node? && NoSlash(f)
    ensures Tidy(st, Nodes(st, 0, 0))
  {
    hide Has, HasFirst, NameOf, Traverse.Preorder, Nodes, TagAt;
    RootFacts(st, f, Here);
    RootNodes(st, f);
    TidyList(st, f.body, Len(f.item), 1);
  }

  /** The buffer holds the components of the stack. */
  ghost predicate Holds(buf: bytes, p: nat, stack: seq<bytes>) {
    p <= |buf| && buf[..p] == Joined(stack) && forall x :: x in stack ==> SLASH !in x
  }

  /** The inner loop of fdt_get_path, on the buffer from start on: the last component is popped. */
  method PopComponent(buf: array<byte>, start: nat, p: nat, ghost stack: seq<bytes>) returns (r: nat)
    requires start <= buf.Length && Holds(buf[start..], p, stack) && |stack| >= 2
    ensures Holds(buf[start..], r, stack[..|stack| - 1])
  {
    ghost var t, last := stack[..|stack| - 1], stack[|stack| - 1];
    PopFacts(buf[start..], p, stack);
    r := p - 1;
    while buf[start + r - 1] != SLASH
      invariant |Joined(t)| <= r < p
      decreases r
    {
      NotYet(buf[start..], p, stack, r);
      r := r - 1;
    }
    AtSlash(buf[start..], p, stack, r);
  }

  lemma JoinedEnds(names: seq<bytes>)
    requires names != []
    ensures |Joined(names)| >= 1 && Joined(names)[|Joined(names)| - 1] == SLASH
  {
  }

  lemma PopFacts(buf: bytes, p: nat, stack: seq<bytes>)
    requires Holds(buf, p, stack) && |stack| >= 2
    ensures 1 <= |Joined(stack[..|stack| - 1])| < p
    ensures buf[|Joined(stack[..|stack| - 1])| - 1] == SLASH
  {
    var t := stack[..|stack| - 1];
    JoinedEnds(t);
    assert buf[..p] == Joined(t) + (stack[|stack| - 1] + [SLASH]);
    assert buf[|Joined(t)| - 1] == buf[..p][|Joined(t)| - 1];
  }

  lemma NotYet(buf: bytes, p: nat, stack: seq<bytes>, r: nat)
    requires Holds(buf, p, stack) && |stack| >= 2 && |Joined(stack[..|stack| - 1])| <= r < p && buf[r - 1] != SLASH
    ensures r > |Joined(stack[..|stack| - 1])|
  {
    PopFacts(buf, p, stack);
  }

  /** Only the slash in front of the last component stops the loop. */
  lemma AtSlash(buf: bytes, p: nat, stack: seq<bytes>, r: nat)
    requires Holds(buf, p, stack) && |stack| >= 2 && |Joined(stack[..|stack| - 1])| <= r < p && r >= 1
    requires buf[r - 1] == SLASH
    ensures Holds(buf, r, stack[..|stack| - 1])
  {
    var t := stack[..|stack| - 1];
    if r > |Joined(t)| {
      InComponent(buf, p, stack, r);
    }
    assert buf[..p] == Joined(t) + (stack[|stack| - 1] + [SLASH]);
    assert buf[..|Joined(t)|] == buf[..p][..|Joined(t)|];
    forall x | x in t ensures SLASH !in x {
      assert x in stack;
    }
  }

  lemma InComponent(buf: bytes, p: nat, stack: seq<bytes>, r: nat)
    requires Holds(buf, p, stack) && |stack| >= 2 && |Joined(stack[..|stack| - 1])| < r < p
    ensures buf[r - 1] != SLASH
  {
    var t, last := stack[..|stack| - 1], stack[|stack| - 1];
    var j := |Joined(t)|;
    assert buf[..p] == Joined(t) + (last + [SLASH]);
    assert buf[r - 1] == buf[..p][r - 1] == last[r - 1 - j];
    assert last in stack && last[r - 1 - j] in last;
  }

  /** Popping down to the depth of the next node. */
  method PopTo(buf: array<byte>, start: nat, p: nat, pdepth: nat, depth: nat, ghost stack: seq<bytes>)
    returns (r: nat, rdepth: nat)
    requires start <= buf.Length && Holds(buf[start..], p, stack) && pdepth == |stack|
    requires (pdepth > depth ==> depth >= 1)
    ensures Holds(buf[start..], r, Popped(stack, depth)) && rdepth == |Popped(stack, depth)|
  {
    r, rdepth := p, pdepth;
    ghost var s := stack;
    while rdepth > depth
      invariant Holds(buf[start..], r, s) && rdepth == |s| && (rdepth >= depth || s == stack)
      invariant Popped(s, depth) == Popped(stack, depth)
    {
      r := PopComponent(buf, start, r, s);
      assert s[..|s| - 1][..depth] == s[..depth] || |s| - 1 <= depth;
      assert |s| - 1 == depth ==> s[..|s| - 1] == s[..depth];
      s := s[..|s| - 1];
      rdepth := rdepth - 1;
    }
  }

  /** A component is pushed. */
  method PushComponent(buf: array<byte>, p: nat, name: bytes, ghost stack: seq<bytes>)
    requires Holds(buf[..], p, stack) && p + |name| + 1 <= buf.Length && SLASH !in name
    modifies buf
    ensures Holds(buf[..], p + |name| + 1, stack + [name])
    ensures forall i :: p + |name| + 1 <= i < buf.Length ==> buf[i] == old(buf[i])
  {
    forall k | p <= k < p + |name| {
      buf[k] := name[k - p];
    }
    buf[p + |name|] := SLASH;
    JoinedSnoc(stack, name);
    assert buf[..p] == old(buf[..p]);
    assert buf[p..p + |name|] == name;
    assert buf[..p + |name| + 1] == buf[..p] + (buf[p..p + |name|] + [buf[p + |name|]]);
    forall x | x in stack + [name] ensures SLASH !in x {
    }
  }

  /** What holds of the nodes that are still to be visited. */
  lemma TidyStep(st: bytes, off: int, depth: int)
    requires off >= 0 && depth >= 0 && Tidy(st, Nodes(st, off, depth))
    ensures NameOf(st, off).Some? && SLASH !in NameOf(st, off).value && (off == 0 || depth >= 1)
    ensures var (next, d) := NextNode(st, off, depth); Tidy(st, Nodes(st, next, d))
  {
    hide NextNode, Nodes, NameOf;
    NodesStep(st, off, depth);
    var (next, d) := NextNode(st, off, depth);
    var t := Nodes(st, next, d);
    assert ([(off, depth)] + t)[0] in [(off, depth)] + t;
    forall x | x in t ensures x in [(off, depth)] + t {
    }
  }

  lemma ScanStep(st: bytes, off: int, depth: int, target: int, stack: seq<bytes>, n: int)
    requires 0 <= off <= target && depth >= 0
    ensures Scan(st, Nodes(st, off, depth), target, stack, n) ==
            var (next, d) := NextNode(st, off, depth);
            var s := Visit(stack, depth, NameOf(st, off).GetOr([]), n);
            if off == target then if |s| >= depth + 1 then Some(s) else None
            else Scan(st, Nodes(st, next, d), target, s, n)
  {
    hide NextNode, Nodes, Scan, Visit, NameOf;
    NodesStep(st, off, depth);
    var (next, d) := NextNode(st, off, depth);
    ScanCons(st, (off, depth), Nodes(st, next, d), target, stack, n);
  }

  /** One round of the loop of fdt_get_path, up to the test whether the node has been reached. */
  method VisitNode(fdt: Fdt, offset: nat, depth: nat, buf: array<byte>, n: nat, p: nat, pdepth: nat,
                   ghost stack: seq<bytes>)
    returns (r: nat, rdepth: nat, err: int)
    requires fdt.InBounds() && offset <= INT_MAX && buf != fdt.mem && n <= buf.Length && p <= n
    requires Holds(buf[..], p, stack) && pdepth == |stack| && (pdepth > depth ==> depth >= 1)
    requires NameOf(fdt.St(), offset).Some? && SLASH !in NameOf(fdt.St(), offset).value
    modifies buf
    ensures err == 0 && r <= n
    ensures var s := Visit(stack, depth, NameOf(fdt.St(), offset).value, n); Holds(buf[..], r, s) && rdepth == |s|
    ensures forall i :: n <= i < buf.Length ==> buf[i] == old(buf[i])
  {
    hide Fdt.St, NameOf, Joined, CheckNode;
    err := 0;
    assert buf[0..] == buf[..];
    r, rdepth := PopTo(buf, 0, p, pdepth, depth, stack);
    HoldsLength(buf[..], r, Popped(stack, depth));
    HoldsLength(buf[..], p, stack);
    PoppedLength(stack, depth);
    if rdepth >= depth {
      var namelen := ReadOnly.GetName(fdt, offset);
      if namelen < 0 {
        return r, rdepth, namelen;
      }
      if r + namelen + 1 <= n {
        var name := FdtCore.StSlice(fdt, offset + 4, namelen);
        PushComponent(buf, r, name, Popped(stack, depth));
        r, rdepth := r + namelen + 1, rdepth + 1;
      }
    }
  }

  lemma HoldsLength(buf: bytes, p: nat, stack: seq<bytes>)
    requires Holds(buf, p, stack)
    ensures |Joined(stack)| == p
  {
  }

  lemma PoppedLength(stack: seq<bytes>, depth: nat)
    ensures |Joined(Popped(stack, depth))| <= |Joined(stack)|
  {
    if depth < |stack| {
      assert stack[..depth] + stack[depth..] == stack;
      JoinedGrows(stack[..depth], stack[depth..]);
    }
  }

  lemma HoldsNone(buf: bytes)
    ensures Holds(buf, 0, [])
  {
  }

  lemma PathLength(names: seq<bytes>, n: int)
    requires names != []
    ensures n >= 2 ==> (|PathString(names)| + 1 <= n <==> |Joined(names)| <= n)
    ensures |PathString(names)| == if |Joined(names)| > 1 then |Joined(names)| - 1 else |Joined(names)|
  {
    JoinedEnds(names);
  }

  /** The buffer holds the path when its last slash, if it is not the only character, is dropped. */
  lemma PathHeld(buf: bytes, x: nat, names: seq<bytes>)
    requires Holds(buf, x, names) && names != []
    ensures |Joined(names)| == x >= 1 && |PathString(names)| <= x <= |buf|
    ensures buf[..|PathString(names)|] == PathString(names)
  {
    JoinedEnds(names);
    assert buf[..x - 1] == buf[..x][..x - 1];
  }

  /**
   * The node at an offset of the tree with its root at offset 0, if one begins there; the offset lies before the root's
   * end.
   */
  ghost predicate OffsetInRoot(f: Forest, off: int, place: Option<Path>) {
    && f.Node? && off <= INT_MAX
    && match place
       case Some(p) => InRoot(f, p) && off == 4 * Pos(f, p)
       case None => off < 4 * Width(f) && forall p :: InRoot(f, p) ==> off != 4 * Pos(f, p)
  }

  /** No visited node is at the offset. */
  ghost predicate Unvisited(nodes: seq<(int, int)>, off: int) {
    forall x :: x in nodes ==> x.0 != off
  }

  /** The visited nodes are nodes of the forest. */
  lemma {:induction false} VisitedPlaces(f: Forest, pos: nat, d: int, x: (int, int)) returns (p: Path)
    requires x in Traverse.Preorder(f, pos, d)
    ensures NodePlace(f, p) && x.0 == 4 * (pos + Pos(f, p))
    decreases f
  {
    match f
    case Leaf(_, rest) =>
      p := VisitedPlaces(rest, pos + Width(f), d, x);
      p := Next(p);
    case Node(item, body, rest) =>
      if x == (4 * pos, d) {
        p := Here;
      } else if x in Traverse.Preorder(body, pos + Len(item), d + 1) {
        p := VisitedPlaces(body, pos + Len(item), d + 1, x);
        p := Into(p);
      } else {
        p := VisitedPlaces(rest, pos + Width(f), d, x);
        p := Next(p);
      }
  }

  lemma RootUnvisited(st: bytes, f: Forest, off: int)
    requires Encodes(st, f) && OffsetInRoot(f, off, None)
    ensures Unvisited(Nodes(st, 0, 0), off)
  {
    hide Nodes, Traverse.Preorder, Len, Width, Has;
    RootNodes(st, f);
    forall x | x in Nodes(st, 0, 0) ensures x.0 != off {
      if x == (0, 0) {
        assert InRoot(f, Here) && Pos(f, Here) == 0;
      } else {
        var p := VisitedPlaces(f.body, Len(f.item), 1, x);
        assert InRoot(f, Into(p)) && Pos(f, Into(p)) == Len(f.item) + Pos(f.body, p);
      }
    }
  }

  /** What the loop of fdt_get_path knows of the rest of its walk, when it is for a node and when it is not. */
  ghost predicate Ahead(st: bytes, f: Forest, off: int, depth: int, target: int, place: Option<Path>) {
    && f.Node? && NodesEnd(st, off, depth) == (4 * Width(f), -1)
    && match place
       case Some(_) => Super(Nodes(st, off, depth), target, -1, 0).Some?
       case None => Unvisited(Nodes(st, off, depth), target) && target < 4 * Width(f)
  }

  lemma AheadFirst(st: bytes, f: Forest, target: int, place: Option<Path>)
    requires Encodes(st, f) && OffsetInRoot(f, target, place)
    ensures Ahead(st, f, 0, 0, target, place)
  {
    hide Nodes, NodesEnd, Super, Has, Len, Width, Traverse.Preorder, TagAt, Pos;
    Traverse.SubtreeHas(st, 0, f);
    match place
    case Some(p) => SuperHas(st, f, p, -1, 0);
    case None => RootUnvisited(st, f, target);
  }

  /** A round takes place at a node. */
  lemma AheadHere(st: bytes, f: Forest, off: int, depth: int, target: int, place: Option<Path>)
    requires Ahead(st, f, off, depth, target, place)
    ensures 0 <= off <= target ==> depth >= 0 && (place.None? ==> off != target)
    ensures off >= 0 && (place.Some? ==> depth >= 0 && off <= target)
  {
    hide Nodes, NodesEnd, Super, NextNode, Width;
    NodesHead(st, off, depth);
    if place.Some? {
      Visited(st, off, depth, target, -1, 0);
      if off > target {
        Passed(st, off, depth, target, -1, 0);
      }
    } else if 0 <= off && depth >= 0 {
      assert Nodes(st, off, depth)[0] in Nodes(st, off, depth);
    }
  }

  lemma AheadStep(st: bytes, f: Forest, off: int, depth: int, target: int, place: Option<Path>)
    requires Ahead(st, f, off, depth, target, place) && 0 <= off <= target && depth >= 0 && off != target
    ensures var (next, d) := NextNode(st, off, depth); Ahead(st, f, next, d, target, place)
  {
    hide Nodes, NodesEnd, Super, NextNode, Width;
    NodesStep(st, off, depth);
    if place.Some? {
      NodesHere(st, off, depth, target, -1, 0);
    }
  }

  /** The components found for a node, if all fit. */
  ghost predicate Finds(st: bytes, f: Forest, off: int, depth: int, target: int, place: Option<Path>,
                        stack: seq<bytes>, n: int)
    requires Wf(f) && (place.Some? ==> NodePlace(f, place.value))
  {
    place.Some? ==>
      var names := NamesTo(f, place.value);
      Scan(st, Nodes(st, off, depth), target, stack, n) == if |Joined(names)| <= n then Some(names) else None
  }

  /**
   * fdt_get_path in a tree without slashes in its names, for every offset before the end of the root: for a node it
   * succeeds exactly when the path and its terminator fit (and buflen is at least 2), and it never writes behind the
   * buffer; offsets at which no node begins are refused.
   */
  method GetPath(fdt: Fdt, nodeoffset: int, buf: array<byte>, buflen: int, ghost place: Option<Path>) returns (err: int)
    requires fdt.Valid() && OffsetInRoot(fdt.forest, nodeoffset, place) && NoSlash(fdt.forest)
    requires buflen <= buf.Length && buf != fdt.mem
    modifies buf
    ensures Wf(fdt.forest)
    ensures buflen < 2 ==> err == -NOSPACE
    ensures place.None? && buflen >= 2 ==> err == -BADOFFSET
    ensures place.Some? ==>
              var path := PathString(NamesTo(fdt.forest, place.value));
              && err == (if buflen < 2 || (|path| + 1 > buflen) then -NOSPACE else 0)
              && (err == 0 ==> buf[..|path|] == path && buf[|path|] == 0)
    ensures forall i :: buflen <= i < buf.Length && 0 <= i ==> buf[i] == old(buf[i])
  {
    hide Fdt.St, Nodes, NextNode, Super, Encodes, Pos, IsPath, At, Scan, Visit, NameOf, Tidy, Wf, NamesTo, Joined,
         NoSlash, Holds,
      Ahead, OffsetInRoot;
    ReadWrite.EncodesWf(fdt.St(), fdt.forest);
    PlaceOf(fdt.forest, nodeoffset, place);
    if buflen < 2 {
      return -NOSPACE;
    }
    ghost var st := fdt.St();
    var pdepth: nat, x: nat := 0, 0;
    var offset, depth := 0, 0;
    ghost var stack: seq<bytes> := [];
    if place.Some? {
      PathLength(NamesTo(fdt.forest, place.value), buflen);
      ScanHas(st, fdt.forest, place.value, buflen);
    }
    AheadFirst(st, fdt.forest, nodeoffset, place);
    TidyRoot(st, fdt.forest);
    HoldsNone(buf[..]);
    while offset >= 0 && offset <= nodeoffset
      invariant offset <= INT_MAX && fdt.Valid() && fdt.St() == st
      invariant Ahead(st, fdt.forest, offset, depth, nodeoffset, place)
      invariant Finds(st, fdt.forest, offset, depth, nodeoffset, place, stack, buflen)
      invariant Tidy(st, Nodes(st, offset, depth)) && Holds(buf[..], x, stack) && pdepth == |stack| && x <= buflen
      invariant offset == 0 ==> stack == []
      invariant forall i :: buflen <= i < buf.Length ==> buf[i] == old(buf[i])
      decreases if offset < 0 then 0 else 1 + INT_MAX - offset
    {
      AheadHere(st, fdt.forest, offset, depth, nodeoffset, place);
      NodesStep(st, offset, depth);
      TidyStep(st, offset, depth);
      ScanStep(st, offset, depth, nodeoffset, stack, buflen);
      ghost var name := NameOf(st, offset).value;
      var e;
      x, pdepth, e := VisitNode(fdt, offset, depth, buf, buflen, x, pdepth, stack);
      stack := Visit(stack, depth, name, buflen);
      if e < 0 {
        return e;
      }
      if offset == nodeoffset {
        if pdepth < depth + 1 {
          return -NOSPACE;
        }
        PathHeld(buf[..], x, NamesTo(fdt.forest, place.value));
        if x > 1 {
          x := x - 1;
        }
        buf[x] := 0;
        return 0;
      }
      AheadStep(st, fdt.forest, offset, depth, nodeoffset, place);
      offset, depth := FdtCore.NextNode(fdt, offset, depth);
      AheadHere(st, fdt.forest, offset, depth, nodeoffset, place);
    }
    AheadHere(st, fdt.forest, offset, depth, nodeoffset, place);
    if offset == -NOTFOUND || offset >= 0 {
      return -BADOFFSET;
    } else if offset == -BADOFFSET {
      return -BADSTRUCTURE;
    }
    return offset;
  }

  lemma PlaceOf(f: Forest, off: int, place: Option<Path>)
    requires OffsetInRoot(f, off, place)
    ensures f.Node? && off <= INT_MAX
    ensures place.Some? ==> InRoot(f, place.value) && NodePlace(f, place.value) && off == 4 * Pos(f, place.value)
  {
  }

  // Behind the end of the root fdt_get_path leaves its buffer.

  /**
   * The rounds of the loop of fdt_get_path that reach the offset, with their depths, up to the first at a depth below
   * 0.
   */
  function Rounds(st: bytes, off: int, depth: int, target: int): seq<(int, int)>
    decreases depth >= 0, |st| - off
  {
    if off < 0 || off > target then []
    else if depth < 0 || off == target then [(off, depth)]
    else
      var (next, d) := NextNode(st, off, depth);
      if next < 0 then [(off, depth)] else [(off, depth)] + Rounds(st, next, d, target)
  }

  ghost predicate Leaves(rounds: seq<(int, int)>) {
    exists x :: x in rounds && x.1 < 0
  }

  lemma {:induction false} ScanLeaves(st: bytes, off: int, depth: int)
    requires off >= 0 && depth >= 0
    ensures ScanNode(st, off, depth).1 < 0 ==> ScanNode(st, off, depth).0 > off
    decreases |st| - off
  {
    hide NextTag;
    var (tag, next) := NextTag(st, off);
    if tag == FDT_END_NODE {
      if depth > 0 {
        ScanLeaves(st, next, depth - 1);
      }
    } else if tag != FDT_BEGIN_NODE && tag != FDT_END {
      ScanLeaves(st, next, depth);
    }
  }

  lemma NextLeaves(st: bytes, off: int, depth: int)
    requires off >= 0 && depth >= 0
    ensures NextNode(st, off, depth).1 < 0 ==> NextNode(st, off, depth).0 > off
  {
    hide NextTag, ScanNode;
    var first := CheckNode(st, off);
    if first >= 0 {
      ScanLeaves(st, first, depth);
    }
  }

  lemma {:induction false} RoundsLeave(st: bytes, off: int, depth: int, target: int)
    requires off >= 0 && depth >= 0 && NodesEnd(st, off, depth).0 >= 0
    ensures NodesEnd(st, off, depth).0 > off
    ensures Leaves(Rounds(st, off, depth, target)) <==> target >= NodesEnd(st, off, depth).0
    decreases |st| - off
  {
    hide NextNode;
    NextLeaves(st, off, depth);
    var (next, d) := NextNode(st, off, depth);
    var t := Rounds(st, next, d, target);
    if next >= 0 && d >= 0 {
      RoundsLeave(st, next, d, target);
      if off < target {
        assert Rounds(st, off, depth, target) == [(off, depth)] + t;
        if Leaves(t) {
          var x :| x in t && x.1 < 0;
          assert x in [(off, depth)] + t;
        }
      }
    } else if off < target && next <= target {
      assert Rounds(st, off, depth, target) == [(off, depth)] + [(next, d)];
      assert (next, d) in [(off, depth)] + [(next, d)];
    }
  }

  /**
   * A round at a depth below 0, in which the root's component is popped, takes place exactly for offsets from the
   * root's end on.
   */
  lemma PopsRoot(st: bytes, f: Forest, target: int)
    requires Encodes(st, f) && f.Node?
    ensures Leaves(Rounds(st, 0, 0, target)) <==> target >= 4 * Width(f)
  {
    hide Nodes, NodesEnd, Rounds, Has, TagAt, Traverse.Preorder;
    Traverse.SubtreeHas(st, 0, f);
    RoundsLeave(st, 0, 0, target);
  }

  /**
   * The search for a slash in front of the last component stays in the buffer exactly when there are two components.
   */
  lemma PopStays(buf: bytes, p: nat, stack: seq<bytes>)
    requires Holds(buf, p, stack)
    ensures (exists k :: 0 <= k < p - 1 && buf[k] == SLASH) <==> |stack| >= 2
  {
    if |stack| >= 2 {
      PopFacts(buf, p, stack);
      assert buf[|Joined(stack[..|stack| - 1])| - 1] == SLASH;
    } else if |stack| == 1 {
      assert stack[..0] == [] && Joined(stack) == stack[0] + [SLASH];
      forall k | 0 <= k < p - 1 ensures buf[k] != SLASH {
        assert buf[k] == buf[..p][k] == stack[0][k];
        assert stack[0][k] in stack[0] && stack[0] in stack;
      }
    }
  }

  /**
   * The smallest tree: for the offset behind its root, the root's component is popped, and no slash comes before it.
   */
  lemma RootPopped()
    ensures Leaves(Rounds(ROOT_ONLY, 0, 0, 12)) && Holds([SLASH, 0], 1, [[]])
  {
    var f := Node(Begin([], [0, 0, 0]), Empty, Empty);
    RootEncodes(f);
    PopsRoot(ROOT_ONLY, f, 12);
    assert [SLASH as byte, 0][..1] == [SLASH] && Joined([[]]) == Joined([]) + ([] + [SLASH]);
  }

  const ROOT_ONLY: bytes := [0, 0, 0, 1, 0, 0, 0, 0, 0, 0, 0, 2, 0, 0, 0, 9]

  lemma RootEncodes(f: Forest)
    requires f == Node(Begin([], [0, 0, 0]), Empty, Empty)
    ensures Encodes(ROOT_ONLY, f) && Width(f) == 3
  {
    hide Dec32;
    assert Cells(1) == 1 + Cells(-3);
    RootWords();
    assert ItemAt(ROOT_ONLY, 0, f.item);
    assert HasFirst(ROOT_ONLY, 0, f);
  }

  lemma RootWords()
    ensures Dec32(ROOT_ONLY, 0) == FDT_BEGIN_NODE && Dec32(ROOT_ONLY, 8) == FDT_END_NODE
    ensures Dec32(ROOT_ONLY, 12) == FDT_END
  {
  }

  // ---------- fdt_path_offset ----------

  /** The index of the first slash of s, or its length. */
  function FirstSlash(s: bytes): (r: nat)
    ensures r <= |s| && SLASH !in s[..r] && (r < |s| ==> s[r] == SLASH)
  {
    if s == [] || s[0] == SLASH then 0
    else
      var k := FirstSlash(s[1..]);
      assert s[..k + 1] == [s[0]] + s[1..][..k];
      k + 1
  }

  /** The loop of fdt_path_offset_namelen over the rest of a path, from the node at offset. */
  function PathFrom(st: bytes, path: bytes, offset: int): int
    decreases |path|
  {
    if path == [] then offset
    else if path[0] == SLASH then PathFrom(st, path[1..], offset)
    else
      var k := FirstSlash(path);
      var next := SubnodeOffset(st, offset, path[..k]);
      if next < 0 then next else if k == 0 then next else PathFrom(st, path[k..], next)
  }

  /** What a path means: slashes are passed over, and a component leads from a node to its child. */
  lemma PathSteps(st: bytes, component: bytes, rest: bytes, offset: int)
    requires component != [] && 0x2f !in component && (rest != [] ==> rest[0] == 0x2f)
    ensures PathFrom(st, [], offset) == offset
    ensures PathFrom(st, [0x2f] + rest, offset) == PathFrom(st, rest, offset)
    ensures var next := SubnodeOffset(st, offset, component);
      PathFrom(st, component + rest, offset) == if next < 0 then next else PathFrom(st, rest, next)
  {
    hide SubnodeOffset;
    assert ([0x2f] + rest)[1..] == rest;
    var path := component + rest;
    var k := FirstSlash(path);
    SlashBehind(component, rest);
    assert path[..|component|] == component && path[|component|..] == rest;
  }

  lemma SlashBehind(component: bytes, rest: bytes)
    requires 0x2f !in component && (rest != [] ==> rest[0] == 0x2f)
    ensures FirstSlash(component + rest) == |component|
  {
    var path := component + rest;
    assert forall i :: 0 <= i < |component| ==> path[i] == component[i];
    assert rest != [] ==> path[|component|] == 0x2f && path[|component|] in path[..|component| + 1];
  }

  /** memchr for a slash. */
  method FindSlash(path: bytes, p: nat) returns (q: nat)
    requires p <= |path|
    ensures q == p + FirstSlash(path[p..])
  {
    q := p;
    while q < |path| && path[q] != SLASH
      invariant p <= q <= |path| && q + FirstSlash(path[q..]) == p + FirstSlash(path[p..])
    {
      assert path[q..][1..] == path[q + 1..];
      q := q + 1;
    }
  }

  /** fdt_path_offset for a path that does not start with an alias. */
  method PathOffset(fdt: Fdt, path: bytes) returns (offset: int)
    requires fdt.InBounds() && (path != [] ==> path[0] == SLASH)
    ensures offset == if path == [] then -BADPATH else PathFrom(fdt.St(), path, 0)
    ensures offset <= INT_MAX
  {
    hide Fdt.St, SubnodeOffset, FirstSlash;
    var probe := ReadOnly.RoProbe(fdt);
    if probe < 0 {
      return probe;
    }
    if |path| <= 0 {
      return -BADPATH;
    }
    offset := 0;
    var p := 0;
    assert path[0..] == path;
    while p < |path|
      invariant p <= |path| && 0 <= offset <= INT_MAX
      invariant PathFrom(fdt.St(), path[p..], offset) == PathFrom(fdt.St(), path, 0)
      decreases |path| - p
    {
      ghost var p0 := p;
      while path[p] == SLASH
        invariant p0 <= p < |path| && PathFrom(fdt.St(), path[p..], offset) == PathFrom(fdt.St(), path, 0)
        decreases |path| - p
      {
        assert path[p..][1..] == path[p + 1..];
        p := p + 1;
        if p == |path| {
          return;
        }
      }
      var q := FindSlash(path, p);
      ghost var k := FirstSlash(path[p..]);
      SlashAfter(path[p..]);
      assert path[p..][..k] == path[p..q] && path[p..][k..] == path[q..];
      offset := ReadOnly.SubnodeOffset(fdt, offset, path[p..q]);
      if offset < 0 {
        return;
      }
      p := q;
    }
  }

  lemma SlashAfter(s: bytes)
    ensures s != [] && s[0] != SLASH ==> FirstSlash(s) > 0
  {
  }

  /** The place of the child through which q goes, and what is left of q below it. */
  ghost function Level(q: Path): (Path, Option<Path>) {
    match q
    case Here => (Here, None)
    case Into(r) => (Here, Some(r))
    case Next(r) => (Next(Level(r).0), Level(r).1)
  }

  /** On the way to q, every name is not empty, has no slash, and finds its node, not an earlier sibling. */
  ghost predicate Reachable(f: Forest, q: Path)
    requires NodePlace(f, q)
    decreases f
  {
    LevelPlace(f, q);
    var (c, r) := Level(q);
    var n := At(f, c);
    && n.item.Begin? && n.item.name != [] && SLASH !in n.item.name
    && Traverse.ChildPath(f, n.item.name) == Some(c)
    && (r.Some? ==> n.body < f && Reachable(n.body, r.value))
  }

  lemma {:induction false} LevelPlace(f: Forest, q: Path)
    requires NodePlace(f, q)
    ensures var (c, r) := Level(q);
      && NodePlace(f, c) && At(f, c).body < f
      && (r.Some? ==> NodePlace(At(f, c).body, r.value) && r.value < q)
      && Pos(f, q) == Pos(f, c) + (if r.Some? then Len(At(f, c).item) + Pos(At(f, c).body, r.value) else 0)
  {
    if q.Next? {
      LevelPlace(f.rest, q.tail);
    }
  }

  lemma {:induction false} LevelNames(f: Forest, q: Path)
    requires Wf(f) && NodePlace(f, q)
    ensures var (c, r) := Level(q);
      && NodePlace(f, c) && Wf(At(f, c)) && (r.Some? ==> NodePlace(At(f, c).body, r.value))
      && NamesTo(f, q) == [At(f, c).item.name] + (if r.Some? then NamesTo(At(f, c).body, r.value) else [])
  {
    LevelPlace(f, q);
    if q.Next? {
      LevelNames(f.rest, q.tail);
    }
  }

  /** Every name behind a slash. */
  function Slashed(names: seq<bytes>): bytes {
    if names == [] then [] else [SLASH] + names[0] + Slashed(names[1..])
  }

  lemma ComponentSplit(name: bytes, names: seq<bytes>)
    requires name != [] && SLASH !in name
    ensures var s := name + Slashed(names);
      FirstSlash(s) == |name| && s[..|name|] == name && s[|name|..] == Slashed(names)
  {
    var s := name + Slashed(names);
    assert s[..|name|] == name && s[|name|..] == Slashed(names);
    if names != [] {
      assert s[|name|] == Slashed(names)[0];
    }
    FirstSlashIs(s, |name|);
  }

  lemma {:induction false} FirstSlashIs(s: bytes, k: nat)
    requires k <= |s| && SLASH !in s[..k] && (k < |s| ==> s[k] == SLASH)
    ensures FirstSlash(s) == k
  {
    if k > 0 {
      assert s[..k] == [s[0]] + s[1..][..k - 1];
      FirstSlashIs(s[1..], k - 1);
    }
  }

  /** One component of a path. */
  lemma PathStep(st: bytes, name: bytes, names: seq<bytes>, offset: int)
    requires name != [] && SLASH !in name
    ensures var next := SubnodeOffset(st, offset, name);
      PathFrom(st, Slashed([name] + names), offset) == if next < 0 then next else PathFrom(st, Slashed(names), next)
  {
    hide SubnodeOffset, FirstSlash;
    ComponentSplit(name, names);
    var s := name + Slashed(names);
    assert ([name] + names)[1..] == names;
    assert Slashed([name] + names) == [SLASH] + s && ([SLASH] + s)[1..] == s;
    assert s[0] == name[0] != SLASH;
  }

  /** Following the names from the parent node of f leads to the node at q. */
  lemma {:induction false} PathReaches(st: bytes, pos: nat, f: Forest, q: Path)
    requires f.Node? && Wf(f) && Has(st, pos, f) && NodePlace(f.body, q) && Reachable(f.body, q)
    ensures PathFrom(st, Slashed(NamesTo(f.body, q)), 4 * pos) == 4 * (pos + Len(f.item) + Pos(f.body, q))
    decreases q
  {
    hide Has, HasFirst, SubnodeOffset, FirstSlash, Len, PathFrom, Slashed;
    var (c, r) := Level(q);
    LevelPlace(f.body, q);
    LevelNames(f.body, q);
    var n := At(f.body, c);
    var rest := if r.Some? then NamesTo(n.body, r.value) else [];
    PathStep(st, n.item.name, rest, 4 * pos);
    Traverse.SubnodeOffsetHas(st, pos, f, n.item.name);
    if r.Some? {
      ChildHas(st, pos, f, c);
      PathReaches(st, pos + Len(f.item) + Pos(f.body, c), n, r.value);
    } else {
      PathEnd(st, 4 * (pos + Len(f.item) + Pos(f.body, c)));
    }
  }

  lemma PathEnd(st: bytes, offset: int)
    ensures PathFrom(st, Slashed([]), offset) == offset
  {
  }

  lemma ChildHas(st: bytes, pos: nat, f: Forest, c: Path)
    requires f.Node? && Wf(f) && Has(st, pos, f) && IsPath(f.body, c)
    ensures Has(st, pos + Len(f.item) + Pos(f.body, c), At(f.body, c))
  {
    hide HasFirst, Tags.NextTag;
    Traverse.HasHead(st, pos, f);
    Traverse.HasBody(st, pos, f);
    HasAt(st, pos + Len(f.item), f.body, c);
  }

  lemma {:induction false} JoinedSlashed(names: seq<bytes>)
    ensures [SLASH] + Joined(names) == Slashed(names) + [SLASH]
    decreases |names|
  {
    if names != [] {
      var t, x := names[..|names| - 1], names[|names| - 1];
      JoinedSlashed(t);
      SlashedSnoc(t, x);
      assert names == t + [x];
      assert [SLASH] + Joined(names) == ([SLASH] + Joined(t)) + (x + [SLASH]);
      assert Slashed(t) + [SLASH] + (x + [SLASH]) == Slashed(t) + ([SLASH] + x) + [SLASH];
    }
  }

  lemma {:induction false} SlashedSnoc(names: seq<bytes>, x: bytes)
    ensures Slashed(names + [x]) == Slashed(names) + ([SLASH] + x)
    decreases |names|
  {
    if names == [] {
      assert [x][1..] == [];
    } else {
      assert (names + [x])[1..] == names[1..] + [x];
      SlashedSnoc(names[1..], x);
    }
  }

  lemma {:induction false} JoinedCons(x: bytes, names: seq<bytes>)
    ensures Joined([x] + names) == x + [SLASH] + Joined(names)
    decreases |names|
  {
    if names == [] {
      assert [x] + names == [x] && [x][..0] == [];
      assert Joined([x]) == Joined([x][..0]) + ([x][0] + [SLASH]);
    } else {
      var t, y := names[..|names| - 1], names[|names| - 1];
      var l := [x] + names;
      assert l[..|l| - 1] == [x] + t && l[|l| - 1] == y;
      JoinedCons(x, t);
    }
  }

  /** The path of a node below a root with an empty name. */
  lemma PathBelow(names: seq<bytes>)
    requires names != []
    ensures PathString([[]] + names) == Slashed(names)
  {
    JoinedCons([], names);
    JoinedSlashed(names);
    var j := Joined([[]] + names);
    assert j == [SLASH] + Joined(names) == Slashed(names) + [SLASH];
    JoinedEnds(names);
  }

  /** Printing the path of a node and looking it up leads back to the node. */
  lemma PathInverse(st: bytes, f: Forest, p: Path)
    requires Encodes(st, f) && InRoot(f, p) && Wf(f) && f.item.Begin? && f.item.name == []
    requires p.Into? ==> NodePlace(f.body, p.tail) && Reachable(f.body, p.tail)
    ensures PathFrom(st, PathString(NamesTo(f, p)), 0) == 4 * Pos(f, p)
  {
    hide Has, HasFirst, SubnodeOffset, FirstSlash, Reachable, Joined, TagAt;
    match p
    case Here =>
      RootPath();
      assert [SLASH][1..] == [];
    case Into(q) =>
      PathBelow(NamesTo(f.body, q));
      PathReaches(st, 0, f, q);
  }

  lemma RootPath()
    ensures PathString([[]]) == [SLASH]
  {
    var root: seq<bytes> := [[]];
    assert root[..0] == [] && Joined(root) == Joined(root[..0]) + (root[0] + [SLASH]);
  }
}
