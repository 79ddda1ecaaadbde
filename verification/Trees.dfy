/** Device trees, their edits, and the tree that a forest stands for. */
module Trees {
  // A tree has entries with their names and values, without NOPs, padding and string offsets.

  import opened Bytes
  import opened Tags
  import opened Forests
  import opened Walk
  import opened Traverse

  /** The list of entries of a node body. */
  datatype Tree =
    | Nil
    | PropT(name: bytes, value: bytes, rest: Tree)
    | NodeT(name: bytes, body: Tree, rest: Tree)

  // ---------- Places ----------

  ghost predicate IsPlace(t: Tree, p: Path) {
    match p
    case Here => true
    case Next(q) => t != Nil && IsPlace(t.rest, q)
    case Into(q) => t.NodeT? && IsPlace(t.body, q)
  }

  ghost function TreeAt(t: Tree, p: Path): Tree
    requires IsPlace(t, p)
  {
    match p
    case Here => t
    case Next(q) => TreeAt(t.rest, q)
    case Into(q) => TreeAt(t.body, q)
  }

  /** t with the rest of the body from place p on replaced by u; everything else is kept. */
  ghost function TreePut(t: Tree, p: Path, u: Tree): Tree
    requires IsPlace(t, p)
  {
    match p
    case Here => u
    case Next(q) => t.(rest := TreePut(t.rest, q, u))
    case Into(q) => t.(body := TreePut(t.body, q, u))
  }

  // ---------- Properties and children of a body ----------

  /** The value of the first property called name among the properties that come first. */
  function Get(t: Tree, name: bytes): Option<bytes> {
    if !t.PropT? then None
    else if t.name == name then Some(t.value)
    else Get(t.rest, name)
  }

  /** The first property called name gets a new value. */
  function Replace(t: Tree, name: bytes, value: bytes): Tree {
    if !t.PropT? then t
    else if t.name == name then PropT(name, value, t.rest)
    else PropT(t.name, t.value, Replace(t.rest, name, value))
  }

  /** fdt_setprop: replace the value, or add the property in front. */
  function Set(t: Tree, name: bytes, value: bytes): Tree {
    if Get(t, name).Some? then Replace(t, name, value) else PropT(name, value, t)
  }

  /** fdt_appendprop */
  function Append(t: Tree, name: bytes, value: bytes): Tree {
    match Get(t, name)
    case Some(v) => Replace(t, name, v + value)
    case None => PropT(name, value, t)
  }

  /** The first property called name is removed. */
  function Remove(t: Tree, name: bytes): Tree {
    if !t.PropT? then t
    else if t.name == name then t.rest
    else PropT(t.name, t.value, Remove(t.rest, name))
  }

  /** A new childless node comes after the properties that come first. */
  function AddChild(t: Tree, name: bytes): Tree {
    if t.PropT? then PropT(t.name, t.value, AddChild(t.rest, name)) else NodeT(name, Nil, t)
  }

  /** The place of the first child that answers to name. */
  function ChildAt(t: Tree, name: bytes): (r: Option<Path>)
    ensures r.Some? ==> IsPlace(t, r.value) && TreeAt(t, r.value).NodeT? && NameEq(TreeAt(t, r.value).name, name)
  {
    if t == Nil then None
    else if t.NodeT? && NameEq(t.name, name) then Some(Here)
    else
      match ChildAt(t.rest, name)
      case None => None
      case Some(p) => Some(Next(p))
  }

  /** The child nodes of a body, in order. */
  function Children(t: Tree): seq<(bytes, Tree)> {
    match t
    case Nil => []
    case PropT(_, _, rest) => Children(rest)
    case NodeT(name, body, rest) => [(name, body)] + Children(rest)
  }

  /** The child called s, or s with a unit address. */
  ghost predicate Called(name: bytes, s: bytes) {
    name == s || (0x40 !in s && exists u: bytes :: name == s + [0x40] + u)
  }

  ghost predicate SomeCalled(children: seq<(bytes, Tree)>, s: bytes) {
    exists i :: 0 <= i < |children| && Called(children[i].0, s)
  }

  /** A child answers to s exactly when one is called s, or s with a unit address. */
  lemma {:induction false} ChildExact(t: Tree, s: bytes)
    ensures ChildAt(t, s).Some? <==> SomeCalled(Children(t), s)
  {
    hide NameEq, Called;
    match t
    case Nil =>
    case PropT(_, _, rest) => ChildExact(rest, s);
    case NodeT(name, body, rest) =>
      ChildExact(rest, s);
      AnswersCalled(name, s);
      FirstCalled(name, body, Children(rest), s);
  }

  lemma AnswersCalled(name: bytes, s: bytes)
    ensures NameEq(name, s) <==> Called(name, s)
  {
    AnswersExact(name, s);
  }

  lemma FirstCalled(name: bytes, body: Tree, rest: seq<(bytes, Tree)>, s: bytes)
    ensures SomeCalled([(name, body)] + rest, s) <==> Called(name, s) || SomeCalled(rest, s)
  {
    hide Called;
    var c := [(name, body)] + rest;
    assert c[0] == (name, body);
    if SomeCalled(rest, s) {
      var i :| 0 <= i < |rest| && Called(rest[i].0, s);
      assert c[i + 1] == rest[i];
    }
  }

  // ---------- What the edits mean ----------

  lemma {:induction false} ReplaceMeans(t: Tree, name: bytes, value: bytes, other: bytes)
    ensures Get(Replace(t, name, value), other) ==
            if other == name && Get(t, name).Some? then Some(value) else Get(t, other)
    ensures Children(Replace(t, name, value)) == Children(t)
  {
    if t.PropT? {
      ReplaceMeans(t.rest, name, value, other);
    }
  }

  /** Setting a property sets its value, and no other value and no child changes. */
  lemma SetMeans(t: Tree, name: bytes, value: bytes, other: bytes)
    ensures Get(Set(t, name, value), other) == if other == name then Some(value) else Get(t, other)
    ensures Children(Set(t, name, value)) == Children(t)
  {
    ReplaceMeans(t, name, value, other);
  }

  /** Appending extends the value, an absent property counting as empty. */
  lemma AppendMeans(t: Tree, name: bytes, value: bytes, other: bytes)
    ensures Get(Append(t, name, value), other) ==
            if other != name then Get(t, other)
            else Some((match Get(t, name) case Some(v) => v case None => []) + value)
    ensures Children(Append(t, name, value)) == Children(t)
  {
    match Get(t, name)
    case Some(v) => ReplaceMeans(t, name, v + value, other);
    case None => assert [] + value == value;
  }

  /** No two of the properties that come first have the same name. */
  ghost predicate DistinctProps(t: Tree) {
    t.PropT? ==> Get(t.rest, t.name).None? && DistinctProps(t.rest)
  }

  /** Removing a property makes it absent (when no second one of its name follows), and nothing else changes. */
  lemma {:induction false} RemoveMeans(t: Tree, name: bytes, other: bytes)
    ensures other != name ==> Get(Remove(t, name), other) == Get(t, other)
    ensures DistinctProps(t) ==> Get(Remove(t, name), name).None?
    ensures Children(Remove(t, name)) == Children(t)
  {
    if t.PropT? {
      RemoveMeans(t.rest, name, other);
    }
  }

  /** Adding a child puts it before the other children and keeps the properties. */
  lemma {:induction false} AddChildMeans(t: Tree, name: bytes, other: bytes)
    ensures Get(AddChild(t, name), other) == Get(t, other)
    ensures Children(AddChild(t, name)) == [(name, Nil)] + Children(t)
  {
    if t.PropT? {
      AddChildMeans(t.rest, name, other);
    }
  }

  // ---------- The tree of a forest ----------

  /** Every property name of f is in the string table. */
  ghost predicate Named(f: Forest, strs: bytes) {
    match f
    case Empty => true
    case Leaf(item, rest) => (item.Prop? ==> StrAt(strs, item.nameoff).Some?) && Named(rest, strs)
    case Node(item, body, rest) => Named(body, strs) && Named(rest, strs)
  }

  /** The tree that f stands for. */
  ghost function Abs(f: Forest, strs: bytes): Tree
    requires Wf(f) && Named(f, strs)
  {
    match f
    case Empty => Nil
    case Leaf(item, rest) =>
      if item.Nop? then Abs(rest, strs)
      else PropT(StrAt(strs, item.nameoff).value, item.value, Abs(rest, strs))
    case Node(item, body, rest) => NodeT(item.name, Abs(body, strs), Abs(rest, strs))
  }

  lemma EmptyHas(st: bytes, p: nat, strs: bytes)
    ensures Has(st, p, Empty) && Wf(Empty) && Size(Empty) == 0 && Named(Empty, strs) && Abs(Empty, strs) == Nil
  {
  }

  /** One entry in front of the others. */
  lemma LeafHas(st: bytes, p: nat, it: Item, rest: Forest, strs: bytes)
    requires !it.Begin? && WfItem(it) && ItemAt(st, p, it) && Wf(rest) && Has(st, p + Len(it), rest)
    requires Named(rest, strs) && (it.Prop? ==> StrAt(strs, it.nameoff).Some?)
    ensures Wf(Leaf(it, rest)) && Has(st, p, Leaf(it, rest)) && Size(Leaf(it, rest)) == Len(it) + Size(rest)
    ensures Named(Leaf(it, rest), strs)
    ensures it.Prop? ==> Abs(Leaf(it, rest), strs) == PropT(StrAt(strs, it.nameoff).value, it.value, Abs(rest, strs))
  {
  }

  /** One node in front of the others. */
  lemma NodeHas(st: bytes, p: nat, it: Item, body: Forest, rest: Forest, strs: bytes)
    requires Named(body, strs) && Named(rest, strs)
    requires it.Begin? && WfItem(it) && ItemAt(st, p, it) && Wf(body) && Has(st, p + Len(it), body)
    requires TagAt(st, p + Len(it) + Size(body), FDT_END_NODE)
    requires Wf(rest) && Has(st, p + Len(it) + Size(body) + 1, rest)
    ensures Wf(Node(it, body, rest)) && Has(st, p, Node(it, body, rest))
    ensures Size(Node(it, body, rest)) == Len(it) + Size(body) + 1 + Size(rest) && Named(Node(it, body, rest), strs)
    ensures Abs(Node(it, body, rest), strs) == NodeT(it.name, Abs(body, strs), Abs(rest, strs))
  {
    hide ItemAt, TagAt, WfItem, Len, StrAt;
  }

  /** The place in the tree that corresponds to a place in the forest. */
  ghost function AbsPath(f: Forest, p: Path): Path
    requires IsPath(f, p)
  {
    match p
    case Here => Here
    case Next(q) => if f.item.Nop? then AbsPath(f.rest, q) else Next(AbsPath(f.rest, q))
    case Into(q) => Into(AbsPath(f.body, q))
  }

  /** Replacing a part of the forest replaces the corresponding part of the tree. */
  lemma {:induction false} AbsPut(f: Forest, p: Path, g: Forest, strs: bytes)
    requires IsPath(f, p) && Wf(f) && Named(f, strs) && Wf(g) && Named(g, strs)
    ensures Wf(At(f, p)) && Named(At(f, p), strs)
    ensures IsPlace(Abs(f, strs), AbsPath(f, p))
    ensures TreeAt(Abs(f, strs), AbsPath(f, p)) == Abs(At(f, p), strs)
    ensures Wf(Put(f, p, g)) && Named(Put(f, p, g), strs)
    ensures Abs(Put(f, p, g), strs) == TreePut(Abs(f, strs), AbsPath(f, p), Abs(g, strs))
  {
    match p
    case Here =>
    case Next(q) => AbsPut(f.rest, q, g, strs);
    case Into(q) => AbsPut(f.body, q, g, strs);
  }

  lemma StrAtAppend(strs: bytes, more: bytes, off: int)
    requires StrAt(strs, off).Some?
    ensures StrAt(strs + more, off) == StrAt(strs, off)
  {
    var k := FindNul(strs, off);
    var all := strs + more;
    assert all[k] == 0;
    var j := FindNul(all, off);
    assert j == k;
    assert all[off..k] == strs[off..k];
  }

  /** Growing the string table at its end changes no name. */
  lemma {:induction false} AbsAppend(f: Forest, strs: bytes, more: bytes)
    requires Wf(f) && Named(f, strs)
    ensures Named(f, strs + more) && Abs(f, strs + more) == Abs(f, strs)
  {
    match f
    case Empty =>
    case Leaf(item, rest) =>
      AbsAppend(rest, strs, more);
      if item.Prop? {
        StrAtAppend(strs, more, item.nameoff);
      }
    case Node(item, body, rest) =>
      AbsAppend(body, strs, more);
      AbsAppend(rest, strs, more);
  }

  // ---------- Edits of a forest body ----------

  /** Property lookup in the forest is property lookup in the tree. */
  lemma {:induction false} PropPathAbs(f: Forest, strs: bytes, name: bytes)
    requires Wf(f) && Named(f, strs)
    ensures Get(Abs(f, strs), name) ==
            (match PropPath(f, strs, name) case None => None case Some(q) => Some(At(f, q).item.value))
  {
    if f.Leaf? {
      PropPathAbs(f.rest, strs, name);
    }
  }

  /** Giving the property found at q a new value replaces its value in the tree. */
  lemma {:induction false} ReplaceAbs(f: Forest, strs: bytes, name: bytes, q: Path, it: Item)
    requires Wf(f) && Named(f, strs) && PropPath(f, strs, name) == Some(q)
    requires it.Prop? && WfItem(it) && it.nameoff == At(f, q).item.nameoff
    ensures var g := Put(f, q, Leaf(it, At(f, q).rest));
      Wf(g) && Named(g, strs) && Abs(g, strs) == Replace(Abs(f, strs), name, it.value)
  {
    match q
    case Here =>
    case Next(r) => ReplaceAbs(f.rest, strs, name, r, it);
  }

  ghost function Nops(n: nat, rest: Forest): Forest {
    if n == 0 then rest else Leaf(Nop, Nops(n - 1, rest))
  }

  lemma {:induction false} NopsAbs(n: nat, rest: Forest, strs: bytes)
    requires Wf(rest) && Named(rest, strs)
    ensures Wf(Nops(n, rest)) && Named(Nops(n, rest), strs) && Abs(Nops(n, rest), strs) == Abs(rest, strs)
    ensures Size(Nops(n, rest)) == n + Size(rest)
  {
    if n > 0 {
      NopsAbs(n - 1, rest, strs);
    }
  }

  /** Deleting the property found at q, and turning it into n NOPs, both remove it from the tree. */
  lemma {:induction false} RemoveAbs(f: Forest, strs: bytes, name: bytes, q: Path, n: nat)
    requires Wf(f) && Named(f, strs) && PropPath(f, strs, name) == Some(q)
    ensures var g := Put(f, q, Nops(n, At(f, q).rest));
      Wf(g) && Named(g, strs) && Abs(g, strs) == Remove(Abs(f, strs), name)
  {
    match q
    case Here => NopsAbs(n, f.rest, strs);
    case Next(r) => RemoveAbs(f.rest, strs, name, r, n);
  }

  /** The place behind the properties and NOPs that come first. */
  ghost function ChildrenPath(f: Forest): (r: Path)
    ensures IsPath(f, r) && !At(f, r).Leaf?
  {
    if f.Leaf? then Next(ChildrenPath(f.rest)) else Here
  }

  lemma {:induction false} AddChildAbs(f: Forest, strs: bytes, it: Item)
    requires Wf(f) && Named(f, strs) && it.Begin? && WfItem(it)
    ensures var g := Put(f, ChildrenPath(f), Node(it, Empty, At(f, ChildrenPath(f))));
      Wf(g) && Named(g, strs) && Abs(g, strs) == AddChild(Abs(f, strs), it.name)
  {
    if f.Leaf? {
      AddChildAbs(f.rest, strs, it);
    }
  }

  /** Child lookup in the forest is child lookup in the tree. */
  lemma {:induction false} ChildPathAbs(f: Forest, strs: bytes, name: bytes)
    requires Wf(f) && Named(f, strs)
    ensures ChildAt(Abs(f, strs), name) ==
            (match ChildPath(f, name) case None => None case Some(q) => Some(AbsPath(f, q)))
  {
    if f != Empty {
      ChildPathAbs(f.rest, strs, name);
    }
  }

  // ---------- Edits inside one node of a tree ----------

  /** There is a node at place p. */
  ghost predicate IsNode(t: Tree, p: Path) {
    IsPlace(t, p) && TreeAt(t, p).NodeT?
  }

  /** The body of the node at place p. */
  ghost function BodyAt(t: Tree, p: Path): Tree {
    if IsNode(t, p) then TreeAt(t, p).body else Nil
  }

  /** t with the body of the node at place p replaced. */
  ghost function WithBody(t: Tree, p: Path, body: Tree): Tree {
    if IsNode(t, p) then TreePut(t, p, NodeT(TreeAt(t, p).name, body, TreeAt(t, p).rest)) else t
  }

  /** The place of the entry q of the node at place p. */
  ghost function Inside(p: Path, q: Path): Path {
    Join(p, Into(q))
  }

  lemma InsideAt(f: Forest, p: Path, q: Path, g: Forest)
    requires IsPath(f, p) && At(f, p).Node? && IsPath(At(f, p).body, q)
    ensures IsPath(f, Inside(p, q)) && At(f, Inside(p, q)) == At(At(f, p).body, q)
    ensures Pos(f, Inside(p, q)) == Pos(f, p) + Len(At(f, p).item) + Pos(At(f, p).body, q)
    ensures Put(f, Inside(p, q), g) == Put(f, p, At(f, p).(body := Put(At(f, p).body, q, g)))
  {
    JoinAt(f, p, Into(q), g);
  }

  /** Changing the body of a node of the forest changes the body of the node of the tree. */
  lemma InsideAbs(f: Forest, p: Path, q: Path, g: Forest, strs: bytes)
    requires Wf(f) && Named(f, strs) && IsPath(f, p) && At(f, p).Node? && IsPath(At(f, p).body, q)
    requires var b := Put(At(f, p).body, q, g); Wf(b) && Named(b, strs)
    ensures IsPath(f, Inside(p, q))
    ensures var h := Put(f, Inside(p, q), g);
      && Wf(h) && Named(h, strs)
      && IsNode(Abs(f, strs), AbsPath(f, p))
      && Abs(h, strs) == WithBody(Abs(f, strs), AbsPath(f, p), Abs(Put(At(f, p).body, q, g), strs))
  {
    var n := At(f, p);
    InsideAt(f, p, q, g);
    AbsPut(f, p, Empty, strs);
    AbsPut(f, p, n.(body := Put(n.body, q, g)), strs);
  }

  lemma NodeAbs(f: Forest, p: Path, strs: bytes)
    requires Wf(f) && Named(f, strs) && IsPath(f, p) && At(f, p).Node?
    ensures Wf(At(f, p)) && Named(At(f, p), strs)
    ensures IsPlace(Abs(f, strs), AbsPath(f, p))
    ensures TreeAt(Abs(f, strs), AbsPath(f, p)) ==
            NodeT(At(f, p).item.name, Abs(At(f, p).body, strs), Abs(At(f, p).rest, strs))
  {
    AtWf(f, p);
    AbsPut(f, p, Empty, strs);
  }

  /** The nodes at p and q are different, and neither lies below the other. */
  predicate Aside(p: Path, q: Path) {
    match (p, q)
    case (Here, Next(_)) => true
    case (Next(_), Here) => true
    case (Next(a), Next(b)) => Aside(a, b)
    case (Into(a), Into(b)) => Aside(a, b)
    case (Next(_), Into(_)) => true
    case (Into(_), Next(_)) => true
    case _ => false
  }

  /** Changing the body of one node leaves every node aside from it as it is. */
  lemma {:induction false} OthersKept(t: Tree, p: Path, body: Tree, q: Path)
    requires IsNode(t, p) && IsNode(t, q) && Aside(p, q)
    ensures IsNode(WithBody(t, p, body), q)
    ensures TreeAt(WithBody(t, p, body), q).name == TreeAt(t, q).name && BodyAt(WithBody(t, p, body), q) == BodyAt(t, q)
  {
    match (p, q)
    case (Next(a), Next(b)) => OthersKept(t.rest, a, body, b);
    case (Into(a), Into(b)) => OthersKept(t.body, a, body, b);
    case _ =>
  }

  /** g is f with only the body of the node at p changed. */
  ghost predicate NodeEdited(f: Forest, g: Forest, p: Path) {
    && IsPath(f, p) && At(f, p).Node? && IsPath(g, p) && At(g, p).Node?
    && At(g, p).item == At(f, p).item && At(g, p).rest == At(f, p).rest
    && g == Put(f, p, At(g, p))
  }

  lemma PutEdited(f: Forest, p: Path, q: Path, x: Forest)
    requires IsPath(f, p) && At(f, p).Node? && IsPath(At(f, p).body, q)
    ensures IsPath(f, Inside(p, q)) && NodeEdited(f, Put(f, Inside(p, q), x), p)
  {
    InsideAt(f, p, q, x);
    PutAt(f, p, At(f, p).(body := Put(At(f, p).body, q, x)));
  }

  lemma EditedTrans(f: Forest, g: Forest, h: Forest, p: Path)
    requires NodeEdited(f, g, p) && NodeEdited(g, h, p)
    ensures NodeEdited(f, h, p)
  {
    PutPut(f, p, At(g, p), At(h, p));
  }

  lemma {:induction false} EditedSelf(f: Forest, p: Path)
    requires IsPath(f, p) && At(f, p).Node?
    ensures NodeEdited(f, f, p)
  {
    match p
    case Here =>
    case Next(q) => EditedSelf(f.rest, q);
    case Into(q) => EditedSelf(f.body, q);
  }

  /** The node is still at the same offset, and at the same place of the tree. */
  lemma {:induction false} EditedPlace(f: Forest, g: Forest, p: Path)
    requires NodeEdited(f, g, p)
    ensures Pos(g, p) == Pos(f, p) && AbsPath(g, p) == AbsPath(f, p)
  {
    PutAt(f, p, At(g, p));
    AbsPathPut(f, p, At(g, p));
  }

  lemma {:induction false} AbsPathPut(f: Forest, p: Path, x: Forest)
    requires IsPath(f, p)
    ensures IsPath(Put(f, p, x), p) && AbsPath(Put(f, p, x), p) == AbsPath(f, p)
  {
    match p
    case Here =>
    case Next(q) => AbsPathPut(f.rest, q, x);
    case Into(q) => AbsPathPut(f.body, q, x);
  }

  /** A change below a node changes the body of that node only. */
  lemma EditedUp(f: Forest, g: Forest, p: Path, c: Path)
    requires IsPath(f, p) && At(f, p).Node? && IsPath(At(f, p).body, c) && NodeEdited(f, g, Inside(p, c))
    ensures NodeEdited(f, g, p)
  {
    PutEdited(f, p, c, At(g, Inside(p, c)));
  }

  /** Giving a property of the node at p a new value. */
  lemma ReplaceInside(f: Forest, p: Path, strs: bytes, name: bytes, q: Path, it: Item)
    requires Wf(f) && Named(f, strs) && IsPath(f, p) && At(f, p).Node?
    requires PropPath(At(f, p).body, strs, name) == Some(q)
    requires it.Prop? && WfItem(it) && it.nameoff == At(At(f, p).body, q).item.nameoff
    ensures IsPath(f, Inside(p, q))
    ensures var h := Put(f, Inside(p, q), Leaf(it, At(At(f, p).body, q).rest));
      && Wf(h) && Named(h, strs)
      && IsNode(Abs(f, strs), AbsPath(f, p))
      && Get(BodyAt(Abs(f, strs), AbsPath(f, p)), name) == Some(At(At(f, p).body, q).item.value)
      && Abs(h, strs) == WithBody(Abs(f, strs), AbsPath(f, p),
                                  Replace(BodyAt(Abs(f, strs), AbsPath(f, p)), name, it.value))
  {
    var b := At(f, p).body;
    InsideAt(f, p, q, Empty);
    NodeAbs(f, p, strs);
    PropPathAbs(b, strs, name);
    ReplaceAbs(b, strs, name, q, it);
    InsideAbs(f, p, q, Leaf(it, At(b, q).rest), strs);
  }

  /** Adding a property in front of the node at p. */
  lemma InsertInside(f: Forest, p: Path, strs: bytes, name: bytes, it: Item)
    requires Wf(f) && Named(f, strs) && IsPath(f, p) && At(f, p).Node?
    requires it.Prop? && WfItem(it) && StrAt(strs, it.nameoff) == Some(name)
    ensures IsPath(f, Inside(p, Here))
    ensures var h := Put(f, Inside(p, Here), Leaf(it, At(f, p).body));
      && Wf(h) && Named(h, strs)
      && IsNode(Abs(f, strs), AbsPath(f, p))
      && Abs(h, strs) == WithBody(Abs(f, strs), AbsPath(f, p),
                                  PropT(name, it.value, BodyAt(Abs(f, strs), AbsPath(f, p))))
  {
    InsideAt(f, p, Here, Empty);
    NodeAbs(f, p, strs);
    InsideAbs(f, p, Here, Leaf(it, At(f, p).body), strs);
  }

  /** Removing a property of the node at p, n NOPs taking its place. */
  lemma RemoveInside(f: Forest, p: Path, strs: bytes, name: bytes, q: Path, n: nat)
    requires Wf(f) && Named(f, strs) && IsPath(f, p) && At(f, p).Node?
    requires PropPath(At(f, p).body, strs, name) == Some(q)
    ensures IsPath(f, Inside(p, q))
    ensures var h := Put(f, Inside(p, q), Nops(n, At(At(f, p).body, q).rest));
      && Wf(h) && Named(h, strs)
      && IsNode(Abs(f, strs), AbsPath(f, p))
      && Abs(h, strs) == WithBody(Abs(f, strs), AbsPath(f, p),
                                  Remove(BodyAt(Abs(f, strs), AbsPath(f, p)), name))
  {
    var b := At(f, p).body;
    InsideAt(f, p, q, Empty);
    NodeAbs(f, p, strs);
    RemoveAbs(b, strs, name, q, n);
    InsideAbs(f, p, q, Nops(n, At(b, q).rest), strs);
  }

  /** Adding a child to the node at p. */
  lemma AddChildInside(f: Forest, p: Path, strs: bytes, it: Item)
    requires Wf(f) && Named(f, strs) && IsPath(f, p) && At(f, p).Node?
    requires it.Begin? && WfItem(it)
    ensures IsPath(f, Inside(p, ChildrenPath(At(f, p).body)))
    ensures var b := At(f, p).body;
      var q := ChildrenPath(b);
      var h := Put(f, Inside(p, q), Node(it, Empty, At(b, q)));
      && Wf(h) && Named(h, strs)
      && IsNode(Abs(f, strs), AbsPath(f, p))
      && Abs(h, strs) == WithBody(Abs(f, strs), AbsPath(f, p),
                                  AddChild(BodyAt(Abs(f, strs), AbsPath(f, p)), it.name))
  {
    var b := At(f, p).body;
    InsideAt(f, p, ChildrenPath(b), Empty);
    NodeAbs(f, p, strs);
    AddChildAbs(b, strs, it);
    InsideAbs(f, p, ChildrenPath(b), Node(it, Empty, At(b, ChildrenPath(b))), strs);
  }

  // ---------- Places below places ----------

  lemma {:induction false} JoinPlace(t: Tree, p: Path, q: Path, u: Tree)
    requires IsPlace(t, p) && IsPlace(TreeAt(t, p), q)
    ensures IsPlace(t, Join(p, q)) && TreeAt(t, Join(p, q)) == TreeAt(TreeAt(t, p), q)
    ensures TreePut(t, Join(p, q), u) == TreePut(t, p, TreePut(TreeAt(t, p), q, u))
  {
    match p
    case Here =>
    case Next(r) => JoinPlace(t.rest, r, q, u);
    case Into(r) => JoinPlace(t.body, r, q, u);
  }

  lemma {:induction false} TreePutAt(t: Tree, p: Path, u: Tree, v: Tree)
    requires IsPlace(t, p)
    ensures IsPlace(TreePut(t, p, u), p) && TreeAt(TreePut(t, p, u), p) == u
    ensures TreePut(TreePut(t, p, u), p, v) == TreePut(t, p, v)
  {
    match p
    case Here =>
    case Next(r) => TreePutAt(t.rest, r, u, v);
    case Into(r) => TreePutAt(t.body, r, u, v);
  }

  /** Reading back a body that was replaced, and replacing it again. */
  lemma WithBodyAt(t: Tree, p: Path, x: Tree, y: Tree)
    requires IsNode(t, p)
    ensures IsNode(WithBody(t, p, x), p) && BodyAt(WithBody(t, p, x), p) == x
    ensures TreeAt(WithBody(t, p, x), p) == NodeT(TreeAt(t, p).name, x, TreeAt(t, p).rest)
    ensures WithBody(WithBody(t, p, x), p, y) == WithBody(t, p, y)
  {
    var n := TreeAt(t, p);
    TreePutAt(t, p, NodeT(n.name, x, n.rest), NodeT(n.name, y, n.rest));
  }

  lemma {:induction false} WithBodySelf(t: Tree, p: Path)
    requires IsNode(t, p)
    ensures WithBody(t, p, BodyAt(t, p)) == t
  {
    match p
    case Here =>
    case Next(q) => WithBodySelf(t.rest, q);
    case Into(q) => WithBodySelf(t.body, q);
  }

  /** Replacing the body of a node below a node. */
  lemma WithBodyInside(t: Tree, p: Path, c: Path, x: Tree)
    requires IsNode(t, p) && IsNode(BodyAt(t, p), c)
    ensures IsNode(t, Inside(p, c)) && BodyAt(t, Inside(p, c)) == BodyAt(BodyAt(t, p), c)
    ensures TreeAt(t, Inside(p, c)).name == TreeAt(BodyAt(t, p), c).name
    ensures WithBody(t, Inside(p, c), x) == WithBody(t, p, WithBody(BodyAt(t, p), c, x))
  {
    var n := TreeAt(BodyAt(t, p), c);
    JoinPlace(t, p, Into(c), NodeT(n.name, x, n.rest));
  }

  lemma {:induction false} AbsPathJoin(f: Forest, p: Path, q: Path)
    requires IsPath(f, p) && IsPath(At(f, p), q)
    ensures IsPath(f, Join(p, q)) && AbsPath(f, Join(p, q)) == Join(AbsPath(f, p), AbsPath(At(f, p), q))
  {
    match p
    case Here =>
    case Next(r) => AbsPathJoin(f.rest, r, q);
    case Into(r) => AbsPathJoin(f.body, r, q);
  }

  /** The child that answers to name, in the forest and in the tree. */
  lemma ChildPlaces(f: Forest, strs: bytes, p: Path, name: bytes)
    requires Wf(f) && Named(f, strs) && IsPath(f, p) && At(f, p).Node? && ChildPath(At(f, p).body, name).Some?
    ensures var c := ChildPath(At(f, p).body, name).value;
      var t, q := Abs(f, strs), AbsPath(f, p);
      && IsPath(f, Inside(p, c)) && At(f, Inside(p, c)).Node?
      && IsNode(t, q) && ChildAt(BodyAt(t, q), name).Some?
      && AbsPath(f, Inside(p, c)) == Inside(q, ChildAt(BodyAt(t, q), name).value)
  {
    var c := ChildPath(At(f, p).body, name).value;
    NodeAbs(f, p, strs);
    ChildPathAbs(At(f, p).body, strs, name);
    InsideAt(f, p, c, Empty);
    AbsPathJoin(f, p, Into(c));
  }

  /** A new child is the first that answers to its name. */
  lemma {:induction false} ChildPathNew(f: Forest, it: Item)
    requires it.Begin? && Wf(f)
    ensures var c := ChildrenPath(f);
      ChildPath(Put(f, c, Node(it, Empty, At(f, c))), it.name) == Some(c)
  {
    if f.Leaf? {
      ChildPathNew(f.rest, it);
    } else {
      assert it.name[..|it.name|] == it.name;
    }
  }
}
