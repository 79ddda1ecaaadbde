/** libfdt/fdt_overlay.c: merging an overlay node into a node of the base tree. */
module Merging {
  import opened Bytes
  import opened Blob
  import opened Forests
  import opened Trees
  import opened Walk

  // ---------- The merge of trees ----------

  /** b with the properties that come first in o set. */
  function MergeProps(b: Tree, o: Tree): Tree
    decreases o
  {
    if o.PropT? then MergeProps(Set(b, o.name, o.value), o.rest) else b
  }

  /** b with a child that answers to name. */
  function WithChild(b: Tree, name: bytes): Tree {
    if ChildAt(b, name).Some? then b else AddChild(b, name)
  }

  lemma {:induction false} AddedChild(b: Tree, name: bytes)
    ensures ChildAt(AddChild(b, name), name).Some?
  {
    if b.PropT? {
      AddedChild(b.rest, name);
    } else {
      assert name[..|name|] == name;
    }
  }

  /** The merge of the overlay body o into the base body b: its properties first, then its children. */
  ghost function Merge(b: Tree, o: Tree): Tree
    decreases o, 1
  {
    MergeKids(MergeProps(b, o), o)
  }

  ghost function MergeKids(b: Tree, o: Tree): Tree
    decreases o, 0
  {
    match o
    case Nil => b
    case PropT(_, _, rest) => MergeKids(b, rest)
    case NodeT(name, body, rest) =>
      AddedChild(b, name);
      var w := WithChild(b, name);
      var c := ChildAt(w, name).value;
      MergeKids(WithBody(w, c, Merge(BodyAt(w, c), body)), rest)
  }

  // ---------- What the merge means ----------

  /** The body of the first child that answers to name. */
  ghost function Kid(t: Tree, name: bytes): Option<Tree> {
    match ChildAt(t, name)
    case None => None
    case Some(c) => Some(BodyAt(t, c))
  }

  lemma {:induction false} SetDistinct(b: Tree, o: Tree, name: bytes)
    requires DistinctProps(o)
    ensures Get(MergeProps(b, o), name) == (if Get(o, name).Some? then Get(o, name) else Get(b, name))
    ensures Children(MergeProps(b, o)) == Children(b)
    decreases o
  {
    if o.PropT? {
      SetMeans(b, o.name, o.value, name);
      SetDistinct(Set(b, o.name, o.value), o.rest, name);
    }
  }

  /** Changing the body of a child changes no property. */
  lemma {:induction false} ChildBodyGet(t: Tree, name: bytes, x: Tree, prop: bytes)
    requires ChildAt(t, name).Some?
    ensures Get(WithBody(t, ChildAt(t, name).value, x), prop) == Get(t, prop)
  {
    if !(t.NodeT? && NameEq(t.name, name)) {
      NextBody(t, ChildAt(t.rest, name).value, x);
      ChildBodyGet(t.rest, name, x, prop);
    }
  }

  lemma NextBody(t: Tree, c: Path, x: Tree)
    requires t != Nil && IsNode(t.rest, c)
    ensures IsNode(t, Next(c)) && BodyAt(t, Next(c)) == BodyAt(t.rest, c)
    ensures WithBody(t, Next(c), x) == t.(rest := WithBody(t.rest, c, x))
  {
  }

  lemma {:induction false} KidsGet(b: Tree, o: Tree, prop: bytes)
    ensures Get(MergeKids(b, o), prop) == Get(b, prop)
    decreases o
  {
    match o
    case Nil =>
    case PropT(_, _, rest) => KidsGet(b, rest, prop);
    case NodeT(name, body, rest) =>
      AddedChild(b, name);
      AddChildMeans(b, name, prop);
      var w := WithChild(b, name);
      var c := ChildAt(w, name).value;
      ChildBodyGet(w, name, Merge(BodyAt(w, c), body), prop);
      KidsGet(WithBody(w, c, Merge(BodyAt(w, c), body)), rest, prop);
  }

  /** The overlay's properties override those of the same name, and the others are kept. */
  lemma MergedProps(b: Tree, o: Tree, name: bytes)
    requires DistinctProps(o)
    ensures Get(Merge(b, o), name) == if Get(o, name).Some? then Get(o, name) else Get(b, name)
  {
    KidsGet(MergeProps(b, o), o, name);
    SetDistinct(b, o, name);
  }

  /** Neither of two names answers to the other. */
  predicate Unlike(a: bytes, b: bytes) {
    !NameEq(a, b) && !NameEq(b, a)
  }

  /** No child of t answers to name, nor name to a child of t. */
  ghost predicate NoneLike(t: Tree, name: bytes) {
    match t
    case Nil => true
    case PropT(_, _, rest) => NoneLike(rest, name)
    case NodeT(n, _, rest) => Unlike(n, name) && NoneLike(rest, name)
  }

  /** The names of the children are exact: none answers to another. */
  ghost predicate DistinctKids(t: Tree) {
    match t
    case Nil => true
    case PropT(_, _, rest) => DistinctKids(rest)
    case NodeT(name, _, rest) => NoneLike(rest, name) && DistinctKids(rest)
  }

  /** Adding a child and changing the body of a child leave the children of unlike names alone. */
  lemma {:induction false} OtherKid(t: Tree, name: bytes, x: Tree, other: bytes)
    requires ChildAt(t, name).Some?
    requires !NameEq(TreeAt(t, ChildAt(t, name).value).name, other)
    ensures Kid(WithBody(t, ChildAt(t, name).value, x), other) == Kid(t, other)
    ensures Kid(WithBody(t, ChildAt(t, name).value, x), name) == Some(x)
  {
    if !(t.NodeT? && NameEq(t.name, name)) {
      NextBody(t, ChildAt(t.rest, name).value, x);
      OtherKid(t.rest, name, x, other);
      var r := WithBody(t.rest, ChildAt(t.rest, name).value, x);
      KidNext(t.(rest := r), name);
      if !(t.NodeT? && NameEq(t.name, other)) {
        KidNext(t, other);
        KidNext(t.(rest := r), other);
      }
    }
  }

  lemma KidNext(t: Tree, name: bytes)
    requires t != Nil && !(t.NodeT? && NameEq(t.name, name))
    ensures Kid(t, name) == Kid(t.rest, name)
  {
  }

  lemma {:induction false} AddedKid(b: Tree, name: bytes, other: bytes)
    ensures !NameEq(name, other) ==> Kid(AddChild(b, name), other) == Kid(b, other)
    ensures Kid(AddChild(b, name), name) == Some(Nil)
  {
    if b.PropT? {
      AddedKid(b.rest, name, other);
      KidNext(b, other);
      KidNext(AddChild(b, name), other);
      KidNext(AddChild(b, name), name);
    } else {
      assert name[..|name|] == name;
      if !NameEq(name, other) {
        KidNext(NodeT(name, Nil, b), other);
      }
    }
  }

  /** A node answers to at most one of two unlike names. */
  lemma AnswersOne(p: bytes, a: bytes, b: bytes)
    requires NameEq(p, a) && NameEq(p, b)
    ensures !Unlike(a, b)
  {
    if |a| < |b| {
      assert b[..|a|] == p[..|a|] && b[|a|] == p[|a|];
    } else if |b| < |a| {
      assert a[..|b|] == p[..|b|] && a[|b|] == p[|b|];
    } else {
      assert a == b && a[..|a|] == a;
    }
  }

  /** One child of the overlay is merged. */
  ghost function MergeKid(b: Tree, name: bytes, body: Tree): Tree {
    AddedChild(b, name);
    var w := WithChild(b, name);
    var c := ChildAt(w, name).value;
    WithBody(w, c, Merge(BodyAt(w, c), body))
  }

  lemma KidMerged(b: Tree, name: bytes, body: Tree, other: bytes)
    ensures Kid(MergeKid(b, name, body), name) == Some(Merge(Kid(b, name).GetOr(Nil), body))
    ensures Unlike(name, other) ==> Kid(MergeKid(b, name, body), other) == Kid(b, other)
  {
    AddedChild(b, name);
    AddedKid(b, name, other);
    var w := WithChild(b, name);
    var c := ChildAt(w, name).value;
    assert BodyAt(w, c) == Kid(w, name).value;
    if Unlike(name, other) {
      if NameEq(TreeAt(w, c).name, other) {
        AnswersOne(TreeAt(w, c).name, name, other);
      }
      OtherKid(w, name, Merge(BodyAt(w, c), body), other);
    } else {
      NeverAnswers(w, c);
      OtherKid(w, name, Merge(BodyAt(w, c), body), TreeAt(w, c).name + [0]);
    }
  }

  lemma NeverAnswers(t: Tree, c: Path)
    requires IsNode(t, c)
    ensures !NameEq(TreeAt(t, c).name, TreeAt(t, c).name + [0])
  {
  }

  /** Children whose names are unlike those of the overlay are kept as they are. */
  lemma {:induction false} KidsOther(b: Tree, o: Tree, name: bytes)
    requires NoneLike(o, name)
    ensures Kid(MergeKids(b, o), name) == Kid(b, name)
    decreases o
  {
    match o
    case Nil =>
    case PropT(_, _, rest) => KidsOther(b, rest, name);
    case NodeT(n, body, rest) =>
      KidMerged(b, n, body, name);
      KidsOther(MergeKid(b, n, body), rest, name);
  }

  /** t has a child with exactly this name and body. */
  ghost predicate HasChild(t: Tree, name: bytes, body: Tree) {
    match t
    case Nil => false
    case PropT(_, _, rest) => HasChild(rest, name, body)
    case NodeT(n, x, rest) => (n == name && x == body) || HasChild(rest, name, body)
  }

  lemma {:induction false} ChildUnlike(t: Tree, name: bytes, body: Tree, other: bytes)
    requires HasChild(t, name, body) && NoneLike(t, other)
    ensures Unlike(name, other)
  {
    match t
    case PropT(_, _, rest) => ChildUnlike(rest, name, body, other);
    case NodeT(n, x, rest) =>
      if !(n == name && x == body) {
        ChildUnlike(rest, name, body, other);
      }
  }

  /** A child of the overlay is merged into the child of the base that answers to its name, or into a new one. */
  lemma {:induction false} KidsOwn(b: Tree, o: Tree, name: bytes, body: Tree)
    requires DistinctKids(o) && HasChild(o, name, body)
    ensures Kid(MergeKids(b, o), name) == Some(Merge(Kid(b, name).GetOr(Nil), body))
    decreases o
  {
    match o
    case PropT(_, _, rest) => KidsOwn(b, rest, name, body);
    case NodeT(n, x, rest) =>
      KidMerged(b, n, x, name);
      if n == name && x == body {
        KidsOther(MergeKid(b, n, x), rest, name);
      } else {
        ChildUnlike(rest, name, body, n);
        KidsOwn(MergeKid(b, n, x), rest, name, body);
      }
  }

  lemma {:induction false} KidOfChildren(s: Tree, t: Tree, name: bytes)
    requires Children(s) == Children(t)
    ensures Kid(s, name) == Kid(t, name)
    decreases s, t
  {
    if s.PropT? {
      KidOfChildren(s.rest, t, name);
      KidNext(s, name);
    } else if t.PropT? {
      KidOfChildren(s, t.rest, name);
      KidNext(t, name);
    } else if s.NodeT? {
      assert Children(s)[0] == (s.name, s.body) && Children(t)[0] == (t.name, t.body);
      assert Children(s)[1..] == Children(s.rest) && Children(t)[1..] == Children(t.rest);
      if !NameEq(s.name, name) {
        KidOfChildren(s.rest, t.rest, name);
        KidNext(s, name);
        KidNext(t, name);
      }
    }
  }

  lemma {:induction false} PropsKeepKids(b: Tree, o: Tree)
    ensures Children(MergeProps(b, o)) == Children(b)
    decreases o
  {
    if o.PropT? {
      SetMeans(b, o.name, o.value, o.name);
      PropsKeepKids(Set(b, o.name, o.value), o.rest);
    }
  }

  /** The merge is the recursive merge of trees by name. */
  lemma MergedKids(b: Tree, o: Tree, name: bytes, body: Tree)
    requires DistinctKids(o)
    ensures HasChild(o, name, body) ==> Kid(Merge(b, o), name) == Some(Merge(Kid(b, name).GetOr(Nil), body))
    ensures NoneLike(o, name) ==> Kid(Merge(b, o), name) == Kid(b, name)
  {
    var m := MergeProps(b, o);
    PropsKeepKids(b, o);
    KidOfChildren(m, b, name);
    if HasChild(o, name, body) {
      KidsOwn(m, o, name, body);
    }
    if NoneLike(o, name) {
      KidsOther(m, o, name);
    }
  }
}
