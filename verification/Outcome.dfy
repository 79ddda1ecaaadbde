/** libfdt/fdt_overlay.c: what is true of the base after fdt_overlay_apply. */
module Outcome {
  import opened Bytes
  import opened Tags
  import opened Blob
  import opened Forests
  import opened Trees
  import opened Walk
  import opened Merging
  import opened Overlay
  import opened OverlayApply
  import opened Renumber
  import opened Conflicts
  import opened Targets
  import opened Fragments
  import opened Symbols
  import opened Survival
  import opened Success
  import Applying
  import Paths

  // ---------- What the symbols leave alone ----------

  /** The tree while symbols are being set: but for values of the node of the symbols, it is the tree m. */
  ghost predicate Kept(t: Tree, m: Tree, names: set<bytes>) {
    && OneRoot(m, names) && OneRoot(t, names) && t.name == m.name && SYMBOLS in names
    && (forall z :: Known(z, names) ==> PhandleAt(t.body, z) == PhandleAt(m.body, z))
    && (forall z :: Known(z, names) && NodeBy(m.body, z).Some? ==> NodeBy(t.body, z).Some?)
    && (forall z, prop :: Known(z, names) && z != [SYMBOLS] ==> Val(t.body, z, prop) == Val(m.body, z, prop))
  }

  lemma PlainSetKid(t: Tree, n: bytes, name: bytes, v: bytes, names: set<bytes>)
    requires Uniform(names) && NamesIn(t, names) && Plain(t) && n in names && Kid(t, n).Some?
    ensures var u := PutKid(t, n, Set(Kid(t, n).value, name, v)); NamesIn(u, names) && Plain(u)
  {
    var k := Kid(t, n).value;
    KidNames(t, names, n);
    PlainKid(t, n);
    PlainSetProp(k, name, v);
    ReplaceNames(k, name, v, names);
    PutKidNames(t, names, n, Set(k, name, v));
    PlainPut(t, n, Set(k, name, v));
  }

  /** Setting a property of a child changes that value only. */
  lemma SetKidVal(t: Tree, n: bytes, name: bytes, v: bytes, names: set<bytes>, z: Address, prop: bytes)
    requires Uniform(names) && NamesIn(t, names) && n in names && Kid(t, n).Some? && Known(z, names)
    ensures var u := PutKid(t, n, Set(Kid(t, n).value, name, v));
      && NodeBy(u, z).Some? == NodeBy(t, z).Some?
      && Val(u, z, prop) == if z == [n] && prop == name then Some(v) else Val(t, z, prop)
  {
    var k := Kid(t, n).value;
    var x := Set(k, name, v);
    PutKidGet(t, n, x, prop);
    if z != [] {
      PutKidMeans(t, names, n, x, z[0]);
      if z[0] == n {
        SetMeans(k, name, v, prop);
        if z[1..] != [] {
          KidOfChildren(x, k, z[1]);
        } else {
          assert z == [n];
        }
      }
    }
  }

  lemma SetKidPhandle(t: Tree, n: bytes, name: bytes, v: bytes, names: set<bytes>, z: Address)
    requires Uniform(names) && NamesIn(t, names) && n in names && Kid(t, n).Some? && Known(z, names)
    requires !IsPhandleName(name)
    ensures PhandleAt(PutKid(t, n, Set(Kid(t, n).value, name, v)), z) == PhandleAt(t, z)
  {
    SetKidVal(t, n, name, v, names, z, PHANDLE);
    SetKidVal(t, n, name, v, names, z, LINUX_PHANDLE);
    PhandleOfVals(PutKid(t, n, Set(Kid(t, n).value, name, v)), z, t, z);
  }

  /** The node of the symbols is there, at place sk. */
  ghost predicate SymbolsAt(t: Tree, sk: Path) {
    t.NodeT? && ChildAt(t.body, SYMBOLS).Some? && sk == Inside(Here, ChildAt(t.body, SYMBOLS).value)
  }

  /** One symbol is set. */
  lemma KeptSet(t: Tree, m: Tree, names: set<bytes>, sk: Path, name: bytes, v: bytes)
    requires Kept(t, m, names) && SymbolsAt(t, sk) && !IsPhandleName(name)
    ensures var u := WithBody(t, sk, Set(BodyAt(t, sk), name, v));
      && Kept(u, m, names) && SymbolsAt(u, sk)
      && Val(u.body, [SYMBOLS], name) == Some(v)
      && (forall prop :: prop != name ==> Val(u.body, [SYMBOLS], prop) == Val(t.body, [SYMBOLS], prop))
  {
    hide PhandleAt, NodeBy, Val, NamesIn, Plain, Set;
    var x := Set(BodyAt(t, sk), name, v);
    ChildInside(t, Here, SYMBOLS, x);
    var u := WithBody(t, sk, x);
    assert u == NodeT(t.name, PutKid(t.body, SYMBOLS, x), t.rest);
    PlainSetKid(t.body, SYMBOLS, name, v, names);
    forall z | Known(z, names) ensures PhandleAt(u.body, z) == PhandleAt(m.body, z) {
      SetKidPhandle(t.body, SYMBOLS, name, v, names, z);
    }
    forall z | Known(z, names) && NodeBy(m.body, z).Some? ensures NodeBy(u.body, z).Some? {
      SetKidVal(t.body, SYMBOLS, name, v, names, z, PHANDLE);
    }
    forall z, prop | Known(z, names) && z != [SYMBOLS] ensures Val(u.body, z, prop) == Val(m.body, z, prop) {
      SetKidVal(t.body, SYMBOLS, name, v, names, z, prop);
    }
    assert Known([SYMBOLS], names);
    SetKidVal(t.body, SYMBOLS, name, v, names, [SYMBOLS], name);
    OneStep(t.body, SYMBOLS);
    forall prop | prop != name ensures Val(u.body, [SYMBOLS], prop) == Val(t.body, [SYMBOLS], prop) {
      SetKidVal(t.body, SYMBOLS, name, v, names, [SYMBOLS], prop);
    }
    ChildAtFlat(t.body, SYMBOLS);
    ChildIsThere(t.body, SYMBOLS);
    NamesKept(t.body, ChildAt(t.body, SYMBOLS).value, x, SYMBOLS);
  }

  lemma ChildIsThere(t: Tree, name: bytes)
    requires ChildAt(t, name).Some?
    ensures IsNode(t, ChildAt(t, name).value)
  {
  }

  /** A node for symbols is there, or added. */
  lemma KeptAdded(m: Tree, names: set<bytes>)
    requires OneRoot(m, names) && SYMBOLS in names
    ensures Kept(WithSymbols(m), m, names) && SymbolsAt(WithSymbols(m), SymbolsPlace(WithSymbols(m)))
    ensures forall prop :: Val(WithSymbols(m).body, [SYMBOLS], prop) == Val(m.body, [SYMBOLS], prop)
  {
    hide PhandleAt, NodeBy, Val, NamesIn, Plain, AddChild, NameEq;
    var b, c := m.body, AddChild(m.body, SYMBOLS);
    if ChildAt(b, SYMBOLS).None? {
      AddedFine(b, names);
      AddedChild(b, SYMBOLS);
      AddedVals(b, names);
      assert Known([SYMBOLS], names);
      assert WithSymbols(m) == NodeT(m.name, c, m.rest);
    }
  }

  lemma AddedFine(b: Tree, names: set<bytes>)
    requires Uniform(names) && NamesIn(b, names) && Plain(b) && SYMBOLS in names && ChildAt(b, SYMBOLS).None?
    ensures NamesIn(AddChild(b, SYMBOLS), names) && Plain(AddChild(b, SYMBOLS))
  {
    NoneNoKid(b, SYMBOLS);
    PlainAdd(b, SYMBOLS);
    AddChildNames(b, names, SYMBOLS);
  }

  lemma AddedVals(b: Tree, names: set<bytes>)
    requires Uniform(names) && NamesIn(b, names) && SYMBOLS in names && ChildAt(b, SYMBOLS).None?
    ensures var c := AddChild(b, SYMBOLS);
      && (forall z, prop :: Known(z, names) ==> Val(c, z, prop) == Val(b, z, prop))
      && (forall z :: Known(z, names) && NodeBy(b, z).Some? ==> NodeBy(c, z).Some?)
      && (forall z :: Known(z, names) ==> PhandleAt(c, z) == PhandleAt(b, z))
  {
    hide PhandleAt, NodeBy, Val, NamesIn, AddChild, NameEq, Known, Uniform, ChildAt;
    var c := AddChild(b, SYMBOLS);
    forall z, prop | Known(z, names) ensures Val(c, z, prop) == Val(b, z, prop) {
      AddedVal(b, names, z, prop);
    }
    forall z | Known(z, names)
      ensures NodeBy(b, z).Some? ==> NodeBy(c, z).Some?
      ensures PhandleAt(c, z) == PhandleAt(b, z)
    {
      AddedVal(b, names, z, PHANDLE);
      AddedVal(b, names, z, LINUX_PHANDLE);
      PhandleOfVals(c, z, b, z);
    }
  }

  lemma AddedVal(b: Tree, names: set<bytes>, z: Address, prop: bytes)
    requires Uniform(names) && NamesIn(b, names) && SYMBOLS in names && Known(z, names) && ChildAt(b, SYMBOLS).None?
    ensures Val(AddChild(b, SYMBOLS), z, prop) == Val(b, z, prop)
    ensures NodeBy(b, z).Some? ==> NodeBy(AddChild(b, SYMBOLS), z).Some?
  {
    AddChildMeans(b, SYMBOLS, prop);
    if z != [] {
      AddedKid(b, SYMBOLS, z[0]);
      if z[0] == SYMBOLS {
        NilVal(z[1..], prop);
      } else {
        assert Unlike(SYMBOLS, z[0]);
      }
    }
  }

  // ---------- Paths and addresses ----------

  /** A path in front of a relative path. */
  lemma {:induction false} ComponentsJoin(s: bytes, rel: bytes)
    ensures Components(s + [SLASH] + rel) == Components(s) + Components(rel)
    decreases |s|
  {
    var p := s + [SLASH] + rel;
    if s == [] {
      assert p[0] == SLASH && p[1..] == rel;
    } else if s[0] == SLASH {
      assert p[0] == SLASH && p[1..] == s[1..] + [SLASH] + rel;
      ComponentsJoin(s[1..], rel);
    } else {
      var n := Paths.FirstSlash(s);
      Paths.SlashAfter(s);
      assert p[..n] == s[..n] && p[n] == SLASH;
      Paths.FirstSlashIs(p, n);
      assert p[n..] == s[n..] + [SLASH] + rel;
      ComponentsJoin(s[n..], rel);
    }
  }

  /** The names of the address are components of paths. */
  predicate PathNames(a: Address) {
    forall i :: 0 <= i < |a| ==> a[i] != [] && SLASH !in a[i]
  }

  /** The components of a printed path. */
  lemma {:induction false} ComponentsSlashed(a: Address)
    requires PathNames(a)
    ensures Components(Paths.Slashed(a)) == a
    decreases |a|
  {
    if a != [] {
      var p, x, r := Paths.Slashed(a), a[0], Paths.Slashed(a[1..]);
      assert p == [SLASH] + x + r && p[1..] == x + r;
      assert x[0] in x;
      assert (x + r)[0] == x[0];
      assert (x + r)[..|x|] == x && (x + r)[|x|..] == r;
      Paths.FirstSlashIs(x + r, |x|);
      ComponentsSlashed(a[1..]);
      assert a == [x] + a[1..];
    }
  }

  /** The path by which a symbol names its target: that of the fragment, or the printed one. */
  function SymText(frag: Tree, target: Address): bytes {
    TargetString(frag).GetOr(Paths.PathString([[]] + target))
  }

  /** What a symbol says after it has been rewritten, as a path. */
  function SymPath(frag: Tree, target: Address, rel: bytes): bytes {
    var text := SymText(frag, target);
    (if |text| > 1 then text else []) + [SLASH] + rel
  }

  lemma SymPathIs(frag: Tree, target: Address, rel: bytes)
    ensures NewValue(SymText(frag, target), rel) == SymPath(frag, target, rel) + [0]
  {
  }

  /** Its components are those of the target, and the relative ones. */
  lemma SymComponents(frag: Tree, b: Tree, target: Address, rel: bytes)
    requires Aims(frag, b, target) && PathNames(target)
    ensures Components(SymPath(frag, target, rel)) == target + Components(rel)
  {
    hide TargetWord, PhandleAt;
    var text := SymText(frag, target);
    TextComponents(frag, b, target);
    if |text| > 1 {
      ComponentsJoin(text, rel);
    } else {
      ShortText(text);
      ComponentsJoin([], rel);
      assert [] + [SLASH] + rel == [SLASH] + rel;
    }
  }

  lemma ShortText(text: bytes)
    requires |text| <= 1 && (text != [] ==> text[0] == SLASH)
    ensures Components(text) == []
  {
  }

  lemma TextComponents(frag: Tree, b: Tree, target: Address)
    requires Aims(frag, b, target) && PathNames(target)
    ensures Components(SymText(frag, target)) == target && SymText(frag, target) != []
    ensures SymText(frag, target)[0] == SLASH
  {
    if TargetString(frag).None? {
      if target == [] {
        var root: Address := [[]];
        assert root + target == root && root[..0] == [];
        assert Paths.Joined(root) == [SLASH];
      } else {
        Paths.PathBelow(target);
        ComponentsSlashed(target);
      }
    }
  }

  /** The names on the way to the node at an address are those of the address. */
  lemma {:induction false} NamesOfPlace(t: Tree, k: Path, a: Address, q: Path, names: set<bytes>)
    requires IsNode(t, k) && PlaceBy(t, k, a) == Some(q) && Known(a, names) && Uniform(names)
    requires NamesIn(BodyAt(t, k), names)
    ensures IsNode(t, q) && NamesAt(t, q) == NamesAt(t, k) + a
    decreases |a|
  {
    hide IsNode, BodyAt, NamesAt, NamesIn, NameEq, Uniform;
    if a == [] {
      PlaceHere(t, k);
      assert NamesAt(t, k) + a == NamesAt(t, k);
    } else {
      var c := ChildAt(BodyAt(t, k), a[0]).value;
      ChildInside(t, k, a[0], Nil);
      FoundExact(BodyAt(t, k), names, a[0]);
      ChildIsThere(BodyAt(t, k), a[0]);
      ChildAtFlat(BodyAt(t, k), a[0]);
      NamesInside(t, k, c);
      NamesOfPlace(t, Inside(k, c), a[1..], q, names);
      assert NamesAt(t, k) + [a[0]] + a[1..] == NamesAt(t, k) + a;
    }
  }

  lemma PlaceHere(t: Tree, k: Path)
    ensures PlaceBy(t, k, []) == Some(k)
  {
  }

  lemma {:induction false} NamesInside(t: Tree, k: Path, c: Path)
    requires IsNode(t, k) && IsNode(BodyAt(t, k), c) && Flat(c)
    ensures IsNode(t, Inside(k, c)) && NamesAt(t, Inside(k, c)) == NamesAt(t, k) + [TreeAt(BodyAt(t, k), c).name]
    decreases k
  {
    match k
    case Here => FlatName(t.body, c);
    case Next(q) =>
      BesideBody(t, q, Nil);
      NamesInside(t.rest, q, c);
    case Into(q) =>
      BelowBody(t, q, Nil);
      NamesInside(t.body, q, c);
  }

  lemma {:induction false} FlatName(t: Tree, c: Path)
    requires IsNode(t, c) && Flat(c)
    ensures NamesAt(t, c) == [TreeAt(t, c).name]
    decreases c
  {
    if c.Next? {
      FlatName(t.rest, c.tail);
    }
  }

  // ---------- The symbols ----------

  /** The base m after the merge, and the overlay t whose symbols are to be rewritten; frags are its fragments. */
  ghost predicate SymScene(m: Tree, t: Tree, frags: seq<Fragment>, names: set<bytes>) {
    && OneRoot(m, names) && m.name == [] && SYMBOLS in names && FragmentsOk(frags, names)
    && AllAim(t, m.body, frags)
    && forall i :: 0 <= i < |frags| && TargetWord(NodeBy(t, [frags[i].name]).value) != 0 ==>
         OnlyAt(m.body, TargetWord(NodeBy(t, [frags[i].name]).value), frags[i].target, names)
  }

  /** The fragment called by a symbol. */
  ghost function FragBy(t: Tree, fr: Fragment): Tree {
    NodeBy(t, [fr.name]).GetOr(Nil)
  }

  /** A step leaves the tree as it is, or sets the symbol. */
  lemma StepShape(u: Tree, sk: Path, o: Tree, name: bytes, v: bytes)
    requires SymbolStep(u, sk, o, name, v).Ok?
    ensures SymbolStep(u, sk, o, name, v).value == u ||
            exists x :: SymbolStep(u, sk, o, name, v).value == WithBody(u, sk, Set(BodyAt(u, sk), name, x))
  {
    hide TargetOf, Parse;
  }

  /** The target of a fragment, looked up while symbols are being set. */
  lemma SymTarget(u: Tree, m: Tree, t: Tree, frags: seq<Fragment>, names: set<bytes>, i: nat)
    requires SymScene(m, t, frags, names) && Kept(u, m, names) && i < |frags|
    ensures TargetOf(u, FragBy(t, frags[i])) == Found(PlaceBy(u, Here, frags[i].target))
    ensures PlaceBy(u, Here, frags[i].target).Some? ==>
              && IsNode(u, PlaceBy(u, Here, frags[i].target).value)
              && TargetText(u, FragBy(t, frags[i]), PlaceBy(u, Here, frags[i].target).value) ==
                SymText(FragBy(t, frags[i]), frags[i].target)
  {
    hide PhandleAt, TargetWord, NodeBy, Val, NamesIn, Plain, TargetString, NamesAt;
    var fr, frag := frags[i], FragBy(t, frags[i]);
    assert Known(fr.target, names);
    TargetFound(u, frag, fr.target, names);
    if PlaceBy(u, Here, fr.target).Some? {
      NamesOfPlace(u, Here, fr.target, PlaceBy(u, Here, fr.target).value, names);
      RootNamesAt(u);
    }
  }

  lemma RootNamesAt(u: Tree)
    requires u.NodeT?
    ensures IsNode(u, Here) && NamesAt(u, Here) == [u.name] && BodyAt(u, Here) == u.body
  {
  }

  /** A symbol of a fragment is rewritten. */
  lemma StepRewrites(u: Tree, m: Tree, t: Tree, sk: Path, frags: seq<Fragment>, names: set<bytes>, i: nat, name: bytes,
                     v: bytes, rel: bytes)
    requires SymScene(m, t, frags, names) && Kept(u, m, names) && i < |frags| && Parse(v) == In(frags[i].name, rel)
    requires SymbolStep(u, sk, t, name, v).Ok?
    ensures SymbolStep(u, sk, t, name, v).value ==
            WithBody(u, sk, Set(BodyAt(u, sk), name, NewValue(SymText(FragBy(t, frags[i]), frags[i].target), rel)))
  {
    hide TargetOf, Parse, PhandleAt, TargetWord, NodeBy, Val, NamesIn, Plain, Kept, SymScene, TargetText, SymText;
    SymTarget(u, m, t, frags, names, i);
    OneStep(t, frags[i].name);
    StepIs(u, sk, t, name, v);
  }

  /** A pass over the symbols e: those of fragments are rewritten, and nothing else changes. */
  lemma {:induction false} StepsRewrite(u: Tree, m: Tree, t: Tree, sk: Path, e: Tree, frags: seq<Fragment>,
                                        names: set<bytes>, name: bytes)
    requires SymScene(m, t, frags, names) && Kept(u, m, names) && SymbolsAt(u, sk) && NamesOk(e) && DistinctProps(e)
    requires SymbolSteps(u, sk, t, e).Ok?
    ensures var u' := SymbolSteps(u, sk, t, e).value;
      && Kept(u', m, names) && SymbolsAt(u', sk)
      && (Get(e, name).None? ==> Val(u'.body, [SYMBOLS], name) == Val(u.body, [SYMBOLS], name))
      && (forall i: nat, rel ::
            i < |frags| && Get(e, name).Some? && Parse(Get(e, name).value) == In(frags[i].name, rel) ==>
            Val(u'.body, [SYMBOLS], name) == Some(NewValue(SymText(FragBy(t, frags[i]), frags[i].target), rel)))
    decreases e
  {
    hide SymbolStep, Parse, PhandleAt, NodeBy, Val, Kept, SymScene, SymbolsAt, SymText, FragBy;
    if e.PropT? {
      KeptNode(u, m, names);
      var u1 := SymbolStep(u, sk, t, e.name, e.value).value;
      StepShape(u, sk, t, e.name, e.value);
      if u1 != u {
        var x :| u1 == WithBody(u, sk, Set(BodyAt(u, sk), e.name, x));
        KeptSet(u, m, names, sk, e.name, x);
      }
      KeptNode(u1, m, names);
      StepsRewrite(u1, m, t, sk, e.rest, frags, names, name);
      if e.name == name {
        forall i: nat, rel | i < |frags| && Parse(e.value) == In(frags[i].name, rel)
          ensures Val(u1.body, [SYMBOLS], name) == Some(NewValue(SymText(FragBy(t, frags[i]), frags[i].target), rel))
        {
          StepRewrites(u, m, t, sk, frags, names, i, name, e.value, rel);
          KeptSet(u, m, names, sk, name, NewValue(SymText(FragBy(t, frags[i]), frags[i].target), rel));
        }
      }
    }
  }

  lemma KeptNode(u: Tree, m: Tree, names: set<bytes>)
    requires Kept(u, m, names)
    ensures u.NodeT?
  {
  }

  lemma {:induction false} NamesOkFrom(e: Tree)
    requires forall name :: Get(e, name).Some? ==> !IsPhandleName(name)
    ensures NamesOk(e)
  {
    if e.PropT? {
      assert Get(e, e.name).Some?;
      forall name | Get(e.rest, name).Some? ensures !IsPhandleName(name) {
        assert Get(e, name).Some?;
      }
      NamesOkFrom(e.rest);
    }
  }

  lemma {:induction false} NamesOkGet(e: Tree, name: bytes)
    requires NamesOk(e) && Get(e, name).Some?
    ensures !IsPhandleName(name)
  {
    if e.name != name {
      NamesOkGet(e.rest, name);
    }
  }

  // ---------- The outcome ----------

  /** With symbols: the names are components of paths, the root has none, and the fixups do not list the symbols. */
  ghost predicate SymbolsSound(base: Tree, o: Tree, names: set<bytes>) {
    && SYMBOLS in names
    && (Kid(o, SYMBOLS).Some? ==>
          && base.NodeT? && base.name == [] && SymbolNamesOk(o)
          && (forall n :: n in names ==> n != [] && SLASH !in n)
          && (forall name :: Val(Fixups(o), [SYMBOLS], name).None?))
  }

  lemma PassesOfSound(base: Tree, o: Tree, frags: seq<Fragment>, names: set<bytes>) returns (o2: Tree, t: Tree)
    requires Sound(base, o, frags, names) && MergeTree(base, o).Ok?
    ensures Passes(base, o) == Ok(t) && MergeFrags(base, t) == MergeTree(base, o)
    ensures Stage(MergeTree(base, o).value, base, t, frags, o2, names) && OthersStay(o2, o, names)
    ensures SameShape(o2, o, names)
    ensures base.NodeT? && Between(t, o2, MaxPhandle(base.body), names) && Fixups(o2) == Fixups(o)
    ensures AllAim(t, base.body, frags)
  {
    hide WellFormed, AdjustNode, LocalReferences, PreventFrags, PreventAll, MergeFrags, MergeAll, MaxPhandle,
         Enumerates, AllAim, OneRoot, NamesIn,
         Carried, FragmentsOk;
    SoundRoot(base, o, frags, names);
    OneRootMax(base);
    var d := MaxPhandle(base.body);
    var o1 := AdjustNode(o, d).value;
    o2 := LocalReferences(o1, d).value;
    t := PreventFrags(o2, base, o2).value;
    ReferencesLinked(base, o, frags, names, o1, o2);
    MergeLinked(base, o, frags, names, o1, o2, t);
  }

  /** The scene in which the symbols are rewritten. */
  lemma SceneOf(base: Tree, o: Tree, frags: seq<Fragment>, names: set<bytes>, m: Tree, o2: Tree, t: Tree)
    requires Stage(m, base, t, frags, o2, names) && AllAim(t, base.body, frags) && base.name == [] && SYMBOLS in names
    ensures SymScene(m, t, frags, names)
  {
    hide PhandleAt, TargetWord, NodeBy, Val, NamesIn, Plain, Between, Fresh, AllTaken, Carried, MergeAll;
    StageRoot(m, base, t, frags, o2, names);
    forall i | 0 <= i < |frags|
      ensures NodeBy(t, [frags[i].name]).Some? && Aims(NodeBy(t, [frags[i].name]).value, m.body, frags[i].target)
      ensures var w := TargetWord(NodeBy(t, [frags[i].name]).value);
                w != 0 ==> OnlyAt(m.body, w, frags[i].target, names)
    {
      assert Known(frags[i].target, names);
      assert Aims(NodeBy(t, [frags[i].name]).value, base.body, frags[i].target);
      if TargetWord(NodeBy(t, [frags[i].name]).value) != 0 {
        StagePhandles(m, base, t, frags, o2, names, frags[i].target);
      }
    }
  }

  lemma ApplyParts(base: Tree, o: Tree, t: Tree)
    requires Passes(base, o) == Ok(t)
    ensures MergeTree(base, o) == MergeFrags(base, t)
    ensures MergeFrags(base, t).Err? ==> ApplyTree(base, o) == MergeFrags(base, t)
    ensures MergeFrags(base, t).Ok? ==> ApplyTree(base, o) == SymbolsTree(MergeFrags(base, t).value, t)
  {
  }

  lemma ApplyOk(base: Tree, o: Tree)
    requires ApplyTree(base, o).Ok?
    ensures MergeTree(base, o).Ok?
  {
  }

  /** The symbols of the overlay after the passes are what they were. */
  lemma SymbolsSame(o: Tree, o2: Tree, t: Tree, d: u32, names: set<bytes>, name: bytes)
    requires OthersStay(o2, o, names) && SameShape(o2, o, names) && Between(t, o2, d, names) && Fixups(o2) == Fixups(o)
    requires SYMBOLS in names && !IsPhandleName(name) && Val(Fixups(o), [SYMBOLS], name).None?
    ensures Val(t, [SYMBOLS], name) == Val(o, [SYMBOLS], name)
  {
    assert Known([SYMBOLS], names);
  }

  lemma SymbolNodes(base: Tree, o: Tree, o2: Tree, t: Tree, d: u32, names: set<bytes>)
    requires SameShape(o2, o, names) && Between(t, o2, d, names) && SymbolsSound(base, o, names)
    ensures Kid(t, SYMBOLS).Some? == Kid(o, SYMBOLS).Some?
    ensures Kid(o, SYMBOLS).Some? ==> NamesOk(Kid(t, SYMBOLS).value) && DistinctProps(Kid(t, SYMBOLS).value)
  {
    assert Known([SYMBOLS], names);
    OneStep(o, SYMBOLS);
    OneStep(o2, SYMBOLS);
    OneStep(t, SYMBOLS);
    if Kid(o, SYMBOLS).Some? {
      var e, e0 := Kid(t, SYMBOLS).value, Kid(o, SYMBOLS).value;
      forall name | Get(e, name).Some? ensures !IsPhandleName(name) {
        assert SameLength(Val(t, [SYMBOLS], name), Val(o2, [SYMBOLS], name));
        assert SameLength(Val(o2, [SYMBOLS], name), Val(o, [SYMBOLS], name));
        NamesOkGet(e0, name);
      }
      NamesOkFrom(e);
      PlainKid(t, SYMBOLS);
      PlainProps(e);
    }
  }

  lemma {:induction false} PlainProps(t: Tree)
    requires Plain(t)
    ensures DistinctProps(t)
  {
    if t.PropT? {
      PlainProps(t.rest);
    }
  }

  lemma KeptSelf(m: Tree, names: set<bytes>)
    requires OneRoot(m, names) && SYMBOLS in names
    ensures Kept(m, m, names)
  {
  }

  /** Symbols change nothing of the merged tree but their own values. */
  lemma OutcomeKept(base: Tree, o: Tree, frags: seq<Fragment>, names: set<bytes>)
    requires Sound(base, o, frags, names) && SymbolsSound(base, o, names) && ApplyTree(base, o).Ok?
    ensures MergeTree(base, o).Ok? && Kept(ApplyTree(base, o).value, MergeTree(base, o).value, names)
  {
    hide ApplyTree, MergeTree, Passes, MergeFrags, SymbolSteps, Sound, SymbolsSound, Kept, Stage, AllAim, Between,
         OthersStay, SameShape, SymScene, WithSymbols,
         SymbolsAt, NamesOk, DistinctProps;
    ApplyOk(base, o);
    var m := MergeTree(base, o).value;
    var o2, t := PassesOfSound(base, o, frags, names);
    ApplyParts(base, o, t);
    SoundSymbols(base, o, names);
    SymbolNodes(base, o, o2, t, MaxPhandle(base.body), names);
    StageOne(m, base, t, frags, o2, names);
    KeptSelf(m, names);
    SymbolsTreeIs(m, t);
    if Kid(o, SYMBOLS).Some? {
      SceneOf(base, o, frags, names, m, o2, t);
      KeptAdded(m, names);
      StepsRewrite(WithSymbols(m), m, t, SymbolsPlace(WithSymbols(m)), Kid(t, SYMBOLS).value, frags, names, []);
    }
  }

  lemma SoundSymbols(base: Tree, o: Tree, names: set<bytes>)
    requires SymbolsSound(base, o, names)
    ensures SYMBOLS in names && (Kid(o, SYMBOLS).Some? ==> base.NodeT? && base.name == [])
  {
  }

  lemma StageOne(m: Tree, base: Tree, t: Tree, frags: seq<Fragment>, o2: Tree, names: set<bytes>)
    requires Stage(m, base, t, frags, o2, names)
    ensures OneRoot(m, names) && m.name == base.name
  {
  }

  /** Every reference of the overlay leads to what its node has become. */
  lemma ReferenceLeads(base: Tree, o: Tree, frags: seq<Fragment>, names: set<bytes>,
                       i: nat, j: nat, g: Address, h: Address, prop: bytes, k: nat)
    requires Sound(base, o, frags, names) && SymbolsSound(base, o, names) && ApplyTree(base, o).Ok? && base.NodeT?
    requires Reference(base.body, o, frags, names, i, j, g, h, prop, k) && g != [SYMBOLS]
    ensures ApplyTree(base, o).value.NodeT?
    ensures LeadsTo(ApplyTree(base, o).value, g, prop, SlotOffset(o, frags[i], g, prop, k), h)
  {
    OutcomeKept(base, o, frags, names);
    ReferenceResolves(base, o, frags, names, i, j, g, h, prop, k);
    hide ApplyTree, MergeTree, Sound, SymbolsSound, PhandleAt, OneRoot, NodeBy;
    KeptNames(ApplyTree(base, o).value, MergeTree(base, o).value, names, g, prop, SlotOffset(o, frags[i], g, prop, k),
              h);
  }

  lemma KeptNames(u: Tree, m: Tree, names: set<bytes>, g: Address, prop: bytes, off: nat, h: Address)
    requires Kept(u, m, names) && Known(g, names) && Known(h, names) && g != [SYMBOLS]
    requires NamesOnly(m.body, g, prop, off, h, names)
    ensures u.NodeT? && LeadsTo(u, g, prop, off, h)
  {
    hide PhandleAt, NodeBy, NamesIn, Plain;
    assert NamesOnly(u.body, g, prop, off, h, names);
    NamedLeads(u, g, prop, off, h, names);
  }

  // ---------- Where symbols lead ----------

  /** A node of a fragment has a node in the merged tree. */
  lemma {:induction false} MergedExists(b: Tree, t: Tree, frags: seq<Fragment>, names: set<bytes>, g: Address)
    requires Mergeable(b, t, frags, names) && Known(g, names)
    ensures NodeBy(b, g).Some? ==> NodeBy(MergeAll(b, t, frags).value, g).Some?
    ensures forall i :: 0 <= i < |frags| && Below(frags[i].target, g) && NodeBy(t, Origin(frags[i], g)).Some? ==>
              NodeBy(MergeAll(b, t, frags).value, g).Some?
    decreases |frags|
  {
    if frags != [] {
      var b1 := FirstMerged(b, t, frags);
      FirstExists(b, t, frags, names, g);
      MergeFirst(b, t, frags, names, g, PHANDLE);
      MergedExists(b1, t, frags[1..], names, g);
      forall i | 0 <= i < |frags| && Below(frags[i].target, g) && NodeBy(t, Origin(frags[i], g)).Some?
        ensures NodeBy(MergeAll(b, t, frags).value, g).Some?
      {
        if i > 0 {
          assert frags[1..][i - 1] == frags[i];
        }
      }
    }
  }

  lemma FirstExists(b: Tree, t: Tree, frags: seq<Fragment>, names: set<bytes>, g: Address)
    requires Mergeable(b, t, frags, names) && frags != [] && Known(g, names)
    ensures var fr, b1 := frags[0], FirstMerged(b, t, frags);
      && (NodeBy(b, g).Some? ==> NodeBy(b1, g).Some?)
      && (Below(fr.target, g) && NodeBy(t, Origin(fr, g)).Some? ==> NodeBy(b1, g).Some?)
  {
    hide Plain, NamesIn;
    var fr := frags[0];
    var a := OverlayApply.Source(fr);
    FragmentsRest(frags, names);
    assert Known(a, names);
    if Below(fr.target, g) {
      var r := g[|fr.target|..];
      assert g == fr.target + r && Known(r, names);
      NodeByJoin(t, a, r);
      NodeByJoin(b, fr.target, r);
    }
    if NodeBy(t, a).Some? {
      var ov, x := NodeBy(t, a).value, NodeBy(b, fr.target).value;
      NodeNames(t, names, a);
      NodeNames(b, names, fr.target);
      PlainNode(t, a);
      MergeNames(x, ov, names);
      SetByVal(b, names, fr.target, Merge(x, ov), g, PHANDLE);
      if Below(fr.target, g) {
        MergeVal(x, ov, names, g[|fr.target|..], PHANDLE);
      }
    }
  }

  /** The symbol called name of the overlay lies in fragment i, at a relative path. */
  ghost predicate SymbolOf(o: Tree, frags: seq<Fragment>, i: nat, name: bytes, rel: bytes) {
    i < |frags| && Val(o, [SYMBOLS], name).Some? && IsSymbol(Val(o, [SYMBOLS], name).value) &&
      Spells(Val(o, [SYMBOLS], name).value, frags[i].name, rel)
  }

  /** The symbol called name of the tree u is the path to the node at address a, with a terminator. */
  ghost predicate SymbolTo(u: Tree, name: bytes, a: Address)
    requires u.NodeT?
  {
    match Val(u.body, [SYMBOLS], name)
    case None => false
    case Some(v) => v != [] && v[|v| - 1] == 0 && PathPlace(u, Here, v[..|v| - 1]) == PlaceBy(u, Here, a)
  }

  /** Every symbol of a fragment becomes the path to the node that the symbol's node has been merged into. */
  lemma SymbolLeads(base: Tree, o: Tree, frags: seq<Fragment>, names: set<bytes>, i: nat, name: bytes, rel: bytes)
    requires Sound(base, o, frags, names) && SymbolsSound(base, o, names) && ApplyTree(base, o).Ok?
    requires SymbolOf(o, frags, i, name, rel)
    ensures ApplyTree(base, o).value.NodeT?
    ensures SymbolTo(ApplyTree(base, o).value, name, frags[i].target + Components(rel))
    ensures Known(Components(rel), names) && NodeBy(o, OverlayApply.Source(frags[i]) + Components(rel)).Some? ==>
              PlaceBy(ApplyTree(base, o).value, Here, frags[i].target + Components(rel)).Some?
  {
    hide *;
    OutcomeKept(base, o, frags, names);
    var o2, t := PassesOfSound(base, o, frags, names);
    SymbolBounds(o, frags, i, name, rel);
    SymbolSet(base, o, frags, names, o2, t, i, name, rel);
    var u, a := ApplyTree(base, o).value, frags[i].target + Components(rel);
    ValueLeads(u, name, FragBy(t, frags[i]), frags[i].target, rel);
    if Known(Components(rel), names) && NodeBy(o, OverlayApply.Source(frags[i]) + Components(rel)).Some? {
      SymbolNodeThere(base, o, frags, names, o2, t, i, Components(rel));
      RootNamesAt(u);
      PlaceExists(u, Here, a);
    }
  }

  lemma SymbolBounds(o: Tree, frags: seq<Fragment>, i: nat, name: bytes, rel: bytes)
    requires SymbolOf(o, frags, i, name, rel)
    ensures i < |frags|
  {
  }

  lemma ValueLeads(u: Tree, name: bytes, frag: Tree, target: Address, rel: bytes)
    requires u.NodeT? && Val(u.body, [SYMBOLS], name) == Some(NewValue(SymText(frag, target), rel))
    requires Components(SymPath(frag, target, rel)) == target + Components(rel)
    ensures SymbolTo(u, name, target + Components(rel))
  {
    hide Components, Val, SymText, SymPath, NewValue;
    var path := SymPath(frag, target, rel);
    SymPathIs(frag, target, rel);
    PathIsAddress(u, Here, path);
    assert (path + [0])[..|path|] == path;
  }

  lemma SymbolNodeThere(base: Tree, o: Tree, frags: seq<Fragment>, names: set<bytes>, o2: Tree, t: Tree, i: nat,
                        c: Address)
    requires MergeTree(base, o).Ok? && base.NodeT? && Stage(MergeTree(base, o).value, base, t, frags, o2, names)
    requires Between(t, o2, MaxPhandle(base.body), names) && SameShape(o2, o, names)
    requires i < |frags| && Known(c, names) && NodeBy(o, OverlayApply.Source(frags[i]) + c).Some?
    requires ApplyTree(base, o).Ok? && Kept(ApplyTree(base, o).value, MergeTree(base, o).value, names)
    ensures ApplyTree(base, o).value.NodeT? && NodeBy(ApplyTree(base, o).value.body, frags[i].target + c).Some?
  {
    hide ApplyTree, MergeTree, OthersStay, PhandleAt, NodeBy, AllTaken, Fresh, Carried;
    var g, a := frags[i].target + c, OverlayApply.Source(frags[i]) + c;
    assert Known(frags[i].target, names) && Known(OverlayApply.Source(frags[i]), names);
    KnownJoin(frags[i].target, c, names);
    KnownJoin(OverlayApply.Source(frags[i]), c, names);
    assert g[|frags[i].target|..] == c && g[..|frags[i].target|] == frags[i].target;
    assert NodeBy(t, a).Some?;
    MergedExists(base.body, t, frags, names, g);
  }

  /** The value of the symbol. */
  lemma SymbolSet(base: Tree, o: Tree, frags: seq<Fragment>, names: set<bytes>, o2: Tree, t: Tree, i: nat, name: bytes,
                  rel: bytes)
    requires SymbolsSound(base, o, names) && ApplyTree(base, o).Ok? && MergeTree(base, o).Ok?
    requires SymbolOf(o, frags, i, name, rel)
    requires Passes(base, o) == Ok(t) && MergeFrags(base, t) == MergeTree(base, o)
    requires Stage(MergeTree(base, o).value, base, t, frags, o2, names) && OthersStay(o2, o, names)
    requires SameShape(o2, o, names)
    requires base.NodeT? && Between(t, o2, MaxPhandle(base.body), names) && Fixups(o2) == Fixups(o)
    requires AllAim(t, base.body, frags)
    ensures ApplyTree(base, o).value.NodeT?
    ensures Val(ApplyTree(base, o).value.body, [SYMBOLS], name) ==
              Some(NewValue(SymText(FragBy(t, frags[i]), frags[i].target), rel))
    ensures Components(SymPath(FragBy(t, frags[i]), frags[i].target, rel)) == frags[i].target + Components(rel)
  {
    hide ApplyTree, MergeTree, Passes, MergeFrags, SymbolSteps, Kept, AllAim, Between, OthersStay, SameShape, SymScene,
         WithSymbols,
         SymbolsAt, NamesOk, DistinctProps, Parse, IsSymbol, Spells, SymText, NewValue, Aims, Components;
    var m := MergeTree(base, o).value;
    ApplyParts(base, o, t);
    OneStep(o, SYMBOLS);
    OneStep(t, SYMBOLS);
    SymbolNodes(base, o, o2, t, MaxPhandle(base.body), names);
    StageOne(m, base, t, frags, o2, names);
    SymbolsTreeIs(m, t);
    SceneOf(base, o, frags, names, m, o2, t);
    KeptAdded(m, names);
    NamesOkGet(Kid(o, SYMBOLS).value, name);
    SymbolsSame(o, o2, t, MaxPhandle(base.body), names, name);
    ParseExact(Val(o, [SYMBOLS], name).value, frags[i].name, rel);
    StepsRewrite(WithSymbols(m), m, t, SymbolsPlace(WithSymbols(m)), Kid(t, SYMBOLS).value, frags, names, name);
    KeptNode(ApplyTree(base, o).value, m, names);
    AimOf(m, t, frags, names, i);
    TargetNames(frags, names, i);
    SymComponents(FragBy(t, frags[i]), m.body, frags[i].target, rel);
  }

  lemma AimOf(m: Tree, t: Tree, frags: seq<Fragment>, names: set<bytes>, i: nat)
    requires SymScene(m, t, frags, names) && i < |frags|
    ensures m.NodeT? && Aims(FragBy(t, frags[i]), m.body, frags[i].target) && Known(frags[i].target, names)
  {
    hide Aims;
  }

  lemma TargetNames(frags: seq<Fragment>, names: set<bytes>, i: nat)
    requires i < |frags| && Known(frags[i].target, names) && forall n :: n in names ==> n != [] && SLASH !in n
    ensures PathNames(frags[i].target)
  {
  }

  // ---------- When there is no error ----------

  lemma {:induction false} EnumeratesThere(e: Tree, o: Tree, frags: seq<Fragment>)
    requires Enumerates(e, o, frags)
    ensures forall i :: 0 <= i < |frags| ==> NodeBy(o, OverlayApply.Source(frags[i])).Some?
    decreases e
  {
    match e
    case Nil =>
    case PropT(_, _, rest) => EnumeratesThere(rest, o, frags);
    case NodeT(name, _, rest) =>
      if NodeBy(o, [name, OVERLAY]).None? {
        EnumeratesThere(rest, o, frags);
      } else {
        EnumeratesThere(rest, o, frags[1..]);
        forall i | 0 <= i < |frags| ensures NodeBy(o, OverlayApply.Source(frags[i])).Some? {
          if i > 0 {
            assert frags[i] == frags[1..][i - 1];
          }
        }
      }
  }

  /** The passes and the merge meet no error: phandles can be shifted, fixups are answered, and targets are there. */
  ghost predicate Faultless(base: Tree, o: Tree, frags: seq<Fragment>, names: set<bytes>)
    requires base.NodeT?
  {
    && PhandlesFit(o, MaxPhandle(base.body)) && Answered(Fixups(o), o, names) && TargetsThere(base.body, o, frags)
  }

  /** Targets depend on the nodes of the overlay only. */
  lemma TargetsSame(b: Tree, t: Tree, o: Tree, frags: seq<Fragment>, names: set<bytes>)
    requires SameParts(t, o, names) && FragmentsOk(frags, names)
    ensures TargetsThere(b, t, frags) <==> TargetsThere(b, o, frags)
  {
    hide NodeBy, Val;
    forall i: nat | i < |frags| ensures TargetThere(b, t, frags, i) <==> TargetThere(b, o, frags, i) {
      var a := frags[i].target;
      forall j | 0 <= j < i && Below(frags[j].target, a)
        ensures NodeBy(t, Origin(frags[j], a)).Some? == NodeBy(o, Origin(frags[j], a)).Some?
      {
        assert Known(Origin(frags[j], a), names);
      }
    }
  }

  lemma OverlayParts(o: Tree, names: set<bytes>)
    requires WellFormed(o, names)
    ensures Uniform(names) && NamesIn(o, names) && Plain(o) && FixupsOk(o, names)
    ensures NamesIn(Fixups(o), names) && Plain(Fixups(o))
  {
  }

  lemma SoundParts(base: Tree, o: Tree, frags: seq<Fragment>, names: set<bytes>)
    requires Sound(base, o, frags, names)
    ensures base.NodeT? && OneRoot(base, names) && NamesIn(base.body, names) && WellFormed(o, names)
    ensures FragmentsOk(frags, names) && Enumerates(o, o, frags) && AllAim(o, base.body, frags)
  {
    hide WellFormed, FragmentsOk, Enumerates, AllAim, NamesIn, Plain, DistinctPhandles, Carried;
  }

  /** The first two passes. */
  lemma ReferencesOk(o: Tree, d: u32, names: set<bytes>)
    requires WellFormed(o, names) && AdjustNode(o, d).Ok?
    ensures LocalReferences(AdjustNode(o, d).value, d).Ok? <==> Answered(Fixups(o), o, names)
  {
    var o1 := AdjustNode(o, d).value;
    AfterShift(o, d, names, o1);
    OverlayParts(o, names);
    hide *;
    LocalMap(o1, d);
    ShapeParts(o1, o, names);
    AnsweredSame(Fixups(o), o1, o, names);
    MapExact(o1, Fixups(o), ShiftMap(d), names);
  }

  /** The third pass and the merge. */
  lemma RestOk(base: Tree, o: Tree, frags: seq<Fragment>, names: set<bytes>, o1: Tree, o2: Tree)
    requires Sound(base, o, frags, names) && base.NodeT? && Answered(Fixups(o), o, names)
    requires AdjustNode(o, MaxPhandle(base.body)) == Ok(o1) && LocalReferences(o1, MaxPhandle(base.body)) == Ok(o2)
    ensures PreventAll(o2, base.body, frags).Ok?
    ensures MergeAll(base.body, PreventAll(o2, base.body, frags).value, frags).Ok? <==>
              TargetsThere(base.body, o, frags)
  {
    hide *;
    var d := MaxPhandle(base.body);
    SoundParts(base, o, frags, names);
    OverlayParts(o, names);
    Prepared(o, d, names, o1, o2);
    ShapeParts(o2, o, names);
    AnsweredSame(Fixups(o), o2, o, names);
    assert forall z :: Known(z, names) && !Outside(frags, z) ==> PhandleAt(o2, z) == PhandleAt(o2, z);
    PreventAllOk(o2, base.body, frags, o2, d, names);
    NoName(names);
    PreventAllKeeps(o2, base.body, frags, o2, d, names, Slot([], PHANDLE, 0), []);
    var t := PreventAll(o2, base.body, frags).value;
    BetweenParts(t, o2, d, names);
    EnumeratesThere(o, o, frags);
    PartsTwice(t, o2, o, names);
    SourcesThere(t, o, frags, names);
    MergeAllExact(base.body, t, frags, names);
    TargetsSame(base.body, t, o, frags, names);
  }

  lemma BetweenParts(t: Tree, o2: Tree, d: u32, names: set<bytes>)
    requires Between(t, o2, d, names)
    ensures NamesIn(t, names) && Plain(t) && SameParts(t, o2, names)
  {
    hide NamesIn, Plain, NodeBy, Val, OldOrBase, Carried, OthersStay;
    ShapeParts(t, o2, names);
  }

  lemma PartsTwice(t: Tree, o2: Tree, o: Tree, names: set<bytes>)
    requires SameParts(t, o2, names) && SameParts(o2, o, names)
    ensures SameParts(t, o, names)
  {
    hide NodeBy, Val;
  }

  lemma SourcesThere(t: Tree, o: Tree, frags: seq<Fragment>, names: set<bytes>)
    requires SameParts(t, o, names) && FragmentsOk(frags, names)
    requires forall i :: 0 <= i < |frags| ==> NodeBy(o, OverlayApply.Source(frags[i])).Some?
    ensures forall i :: 0 <= i < |frags| ==> NodeBy(t, OverlayApply.Source(frags[i])).Some?
  {
    hide NodeBy, Val;
    forall i | 0 <= i < |frags| ensures NodeBy(t, OverlayApply.Source(frags[i])).Some? {
      assert Known(OverlayApply.Source(frags[i]), names);
    }
  }

  /**
   * Up to the symbols, fdt_overlay_apply has no error exactly when the overlay is faultless: every phandle is a word
   * that
   * the largest phandle of the base can be added to, the fixups name nodes and properties that are there, with whole
   * words as offsets, and the targets are there when they are merged into.
   */
  lemma MergeExact(base: Tree, o: Tree, frags: seq<Fragment>, names: set<bytes>)
    requires Sound(base, o, frags, names)
    ensures base.NodeT? && (MergeTree(base, o).Ok? <==> Faultless(base, o, frags, names))
  {
    hide MergeTree, Sound, WellFormed, AdjustNode, LocalReferences, PreventAll, MergeAll, PhandlesFit, Answered,
         TargetsThere, FragmentsOk, OneRoot, NamesIn, Enumerates, AllAim;
    SoundParts(base, o, frags, names);
    ApplyLinked(base, o, frags, names);
    var d := MaxPhandle(base.body);
    AdjustExact(o, d);
    match AdjustNode(o, d)
    case Err(_) =>
    case Ok(o1) =>
      ReferencesOk(o, d, names);
      match LocalReferences(o1, d)
      case Err(_) =>
      case Ok(o2) => RestOk(base, o, frags, names, o1, o2);
  }

  /** Every symbol of the overlay is the path of a place in a fragment, or of one outside all fragments. */
  ghost predicate SymbolsGood(o: Tree, frags: seq<Fragment>) {
    forall name :: Val(o, [SYMBOLS], name).Some? ==> SymbolGood(Val(o, [SYMBOLS], name).value, frags)
  }

  ghost predicate SymbolGood(v: bytes, frags: seq<Fragment>) {
    IsSymbol(v) && forall fragment, rel :: Spells(v, fragment, rel) ==> exists i ::
      0 <= i < |frags| && frags[i].name == fragment
  }

  /** Such a symbol can be set. */
  lemma StepOk(u: Tree, m: Tree, t: Tree, sk: Path, frags: seq<Fragment>, names: set<bytes>, name: bytes, v: bytes)
    requires SymScene(m, t, frags, names) && Kept(u, m, names) && SymbolGood(v, frags)
    requires forall i :: 0 <= i < |frags| ==>
               NodeBy(t, OverlayApply.Source(frags[i])).Some? && NodeBy(m.body, frags[i].target).Some?
    ensures SymbolStep(u, sk, t, name, v).Ok?
  {
    hide TargetOf, Parse, PhandleAt, TargetWord, NodeBy, Val, NamesIn, Plain, TargetText, SymText, IsSymbol, Spells;
    ParseMeans(v);
    StepIs(u, sk, t, name, v);
    if Parse(v).In? {
      ParseExact(v, Parse(v).fragment, Parse(v).rel);
      var i :| 0 <= i < |frags| && frags[i].name == Parse(v).fragment;
      assert Known(frags[i].target, names);
      OverlayBy(t, frags[i].name);
      OneStep(t, frags[i].name);
      RootNamesAt(u);
      PlaceExists(u, Here, frags[i].target);
      SymTarget(u, m, t, frags, names, i);
    }
  }

  lemma {:induction false} StepsOk(u: Tree, m: Tree, t: Tree, sk: Path, e: Tree, frags: seq<Fragment>,
                                   names: set<bytes>)
    requires SymScene(m, t, frags, names) && Kept(u, m, names) && SymbolsAt(u, sk) && NamesOk(e) && DistinctProps(e)
    requires forall name :: Get(e, name).Some? ==> SymbolGood(Get(e, name).value, frags)
    requires forall i :: 0 <= i < |frags| ==>
               NodeBy(t, OverlayApply.Source(frags[i])).Some? && NodeBy(m.body, frags[i].target).Some?
    ensures SymbolSteps(u, sk, t, e).Ok?
    decreases e
  {
    hide SymbolStep, SymbolGood, PhandleAt, NodeBy, Val, Kept, SymScene, SymbolsAt;
    if e.PropT? {
      assert Get(e, e.name) == Some(e.value);
      StepOk(u, m, t, sk, frags, names, e.name, e.value);
      KeptNode(u, m, names);
      var u1 := SymbolStep(u, sk, t, e.name, e.value).value;
      StepShape(u, sk, t, e.name, e.value);
      if u1 != u {
        var x :| u1 == WithBody(u, sk, Set(BodyAt(u, sk), e.name, x));
        KeptSet(u, m, names, sk, e.name, x);
      }
      forall name | Get(e.rest, name).Some? ensures SymbolGood(Get(e.rest, name).value, frags) {
        assert Get(e, name) == Get(e.rest, name);
      }
      StepsOk(u1, m, t, sk, e.rest, frags, names);
    }
  }

  /** Every target has a node in the merged tree. */
  lemma TargetsMerged(base: Tree, o: Tree, t: Tree, frags: seq<Fragment>, o2: Tree, m: Tree, names: set<bytes>)
    requires Sound(base, o, frags, names) && base.NodeT? && Stage(m, base, t, frags, o2, names)
    requires SameShape(o2, o, names) && Between(t, o2, MaxPhandle(base.body), names)
    ensures m.NodeT? && forall i :: 0 <= i < |frags| ==>
              NodeBy(t, OverlayApply.Source(frags[i])).Some? && NodeBy(m.body, frags[i].target).Some?
  {
    SoundParts(base, o, frags, names);
    hide Sound, PhandleAt, NodeBy, Val, NamesIn, Plain, Fresh, AllTaken, Carried, MergeAll, Enumerates, AllAim, Below,
         OneRoot, Between, SameShape, WellFormed;
    EnumeratesThere(o, o, frags);
    BetweenParts(t, o2, MaxPhandle(base.body), names);
    ShapeParts(o2, o, names);
    PartsTwice(t, o2, o, names);
    SourcesThere(t, o, frags, names);
    StageOne(m, base, t, frags, o2, names);
    RootIs(m, names);
    forall i | 0 <= i < |frags| ensures NodeBy(m.body, frags[i].target).Some? {
      var g := frags[i].target;
      assert Known(g, names);
      BelowSelf(frags[i]);
      MergedExists(base.body, t, frags, names, g);
    }
  }

  lemma RootIs(m: Tree, names: set<bytes>)
    requires OneRoot(m, names)
    ensures m.NodeT?
  {
  }

  lemma BelowSelf(fr: Fragment)
    ensures Below(fr.target, fr.target) && Origin(fr, fr.target) == OverlayApply.Source(fr)
  {
    assert fr.target[|fr.target|..] == [] && OverlayApply.Source(fr) + [] == OverlayApply.Source(fr);
  }

  /** On a faultless overlay with good symbols, fdt_overlay_apply has no error. */
  lemma ApplySucceeds(base: Tree, o: Tree, frags: seq<Fragment>, names: set<bytes>)
    requires Sound(base, o, frags, names) && SymbolsSound(base, o, names) && SymbolsGood(o, frags)
    ensures base.NodeT? && (ApplyTree(base, o).Ok? <==> Faultless(base, o, frags, names))
  {
    hide ApplyTree, MergeTree, Passes, MergeFrags, SymbolSteps, Sound, SymbolsSound, Kept, Stage, AllAim, Between,
         OthersStay, SameShape, SymScene, WithSymbols, SymbolsAt, NamesOk, DistinctProps, Faultless, SymbolGood;
    MergeExact(base, o, frags, names);
    if ApplyTree(base, o).Ok? {
      ApplyOk(base, o);
    }
    if Faultless(base, o, frags, names) {
      var m := MergeTree(base, o).value;
      var o2, t := PassesOfSound(base, o, frags, names);
      ApplyParts(base, o, t);
      SoundSymbols(base, o, names);
      SymbolNodes(base, o, o2, t, MaxPhandle(base.body), names);
      StageOne(m, base, t, frags, o2, names);
      SymbolsTreeIs(m, t);
      if Kid(o, SYMBOLS).Some? {
        SceneOf(base, o, frags, names, m, o2, t);
        KeptAdded(m, names);
        TargetsMerged(base, o, t, frags, o2, m, names);
        GoodAfter(base, o, o2, t, frags, names);
        StepsOk(WithSymbols(m), m, t, SymbolsPlace(WithSymbols(m)), Kid(t, SYMBOLS).value, frags, names);
      }
    }
  }

  /** The passes leave good symbols good. */
  lemma GoodAfter(base: Tree, o: Tree, o2: Tree, t: Tree, frags: seq<Fragment>, names: set<bytes>)
    requires SymbolsSound(base, o, names) && SymbolsGood(o, frags) && Kid(o, SYMBOLS).Some? && Kid(t, SYMBOLS).Some?
    requires OthersStay(o2, o, names) && SameShape(o2, o, names) && base.NodeT? && Fixups(o2) == Fixups(o)
    requires Between(t, o2, MaxPhandle(base.body), names) && NamesOk(Kid(t, SYMBOLS).value)
    ensures forall name ::
              Get(Kid(t, SYMBOLS).value, name).Some? ==> SymbolGood(Get(Kid(t, SYMBOLS).value, name).value, frags)
  {
    hide SymbolGood, Between, OthersStay, SameShape;
    OneStep(t, SYMBOLS);
    forall name | Get(Kid(t, SYMBOLS).value, name).Some?
      ensures SymbolGood(Get(Kid(t, SYMBOLS).value, name).value, frags) {
      NamesOkGet(Kid(t, SYMBOLS).value, name);
      SymbolsSame(o, o2, t, MaxPhandle(base.body), names, name);
      assert Val(t, [SYMBOLS], name) == Get(Kid(t, SYMBOLS).value, name);
    }
  }

  // ---------- fdt_overlay_apply ----------

  /** Every reference of the overlay leads to its node in the merged tree. */
  ghost predicate ReferencesLead(base: Tree, o: Tree, merged: Tree, frags: seq<Fragment>, names: set<bytes>)
    requires base.NodeT? && merged.NodeT?
  {
    forall i: nat, j: nat, g, h, prop, k: nat ::
      Reference(base.body, o, frags, names, i, j, g, h, prop, k) && g != [SYMBOLS] ==>
      LeadsTo(merged, g, prop, SlotOffset(o, frags[i], g, prop, k), h)
  }

  /** The nodes of the base have their phandles in the merged tree. */
  ghost predicate PhandlesKept(base: Tree, merged: Tree, names: set<bytes>)
    requires base.NodeT? && merged.NodeT?
  {
    forall g :: Known(g, names) && PhandleAt(base.body, g) != 0 ==> PhandleAt(merged.body, g) == PhandleAt(base.body, g)
  }

  /** Every symbol of a fragment is a path to what its node has become. */
  ghost predicate SymbolsLead(o: Tree, merged: Tree, frags: seq<Fragment>, names: set<bytes>)
    requires merged.NodeT?
  {
    forall i: nat, name, rel :: SymbolOf(o, frags, i, name, rel) ==>
      && SymbolTo(merged, name, frags[i].target + Components(rel))
      && (Known(Components(rel), names) && NodeBy(o, OverlayApply.Source(frags[i]) + Components(rel)).Some? ==>
            PlaceBy(merged, Here, frags[i].target + Components(rel)).Some?)
  }

  lemma AllLead(base: Tree, o: Tree, frags: seq<Fragment>, names: set<bytes>)
    requires Sound(base, o, frags, names) && SymbolsSound(base, o, names) && ApplyTree(base, o).Ok?
    ensures base.NodeT? && ApplyTree(base, o).value.NodeT?
    ensures ReferencesLead(base, o, ApplyTree(base, o).value, frags, names)
    ensures PhandlesKept(base, ApplyTree(base, o).value, names)
    ensures SymbolsLead(o, ApplyTree(base, o).value, frags, names)
  {
    hide ApplyTree, MergeTree, LeadsTo, Reference, Sound, SymbolsSound, PhandleAt, OneRoot, SlotOffset, SymbolOf,
         SymbolTo, Components, PlaceBy, NodeBy;
    SoundRoot(base, o, frags, names);
    OutcomeKept(base, o, frags, names);
    var u, m := ApplyTree(base, o).value, MergeTree(base, o).value;
    KeptNode(u, m, names);
    forall i: nat, j: nat, g, h, prop, k: nat | Reference(base.body, o, frags, names, i, j, g, h, prop, k) &&
      g != [SYMBOLS]
      ensures i < |frags| && Below(frags[i].target, g) && LeadsTo(u, g, prop, SlotOffset(o, frags[i], g, prop, k), h)
    {
      ReferenceBounds(base.body, o, frags, names, i, j, g, h, prop, k);
      ReferenceLeads(base, o, frags, names, i, j, g, h, prop, k);
    }
    forall g | Known(g, names) && PhandleAt(base.body, g) != 0 ensures PhandleAt(u.body, g) == PhandleAt(base.body, g) {
      BaseKeeps(base, o, frags, names, g);
    }
    forall i: nat, name, rel | SymbolOf(o, frags, i, name, rel)
      ensures i < |frags| && SymbolTo(u, name, frags[i].target + Components(rel))
      ensures Known(Components(rel), names) && NodeBy(o, OverlayApply.Source(frags[i]) + Components(rel)).Some? ==>
                PlaceBy(u, Here, frags[i].target + Components(rel)).Some?
    {
      SymbolBounds(o, frags, i, name, rel);
      SymbolLeads(base, o, frags, names, i, name, rel);
    }
  }

  lemma ReferenceBounds(b: Tree, o: Tree, frags: seq<Fragment>, names: set<bytes>,
                        i: nat, j: nat, g: Address, h: Address, prop: bytes, k: nat)
    requires Reference(b, o, frags, names, i, j, g, h, prop, k)
    ensures i < |frags| && Below(frags[i].target, g)
  {
  }

  /** An overlay blob in good order can be applied. */
  lemma SoundAppliable(fdto: Fdt, base: Tree, frags: seq<Fragment>, names: set<bytes>)
    requires Applying.Target(fdto, 0, Here) && IsPath(fdto.forest, Here)
    requires Sound(base, BodyOf(fdto, Here), frags, names)
    ensures Appliable(fdto)
  {
    hide Fdt.St, Fdt.Strs;
    WellFormedFits(BodyOf(fdto, Here), names);
    OneStep(BodyOf(fdto, Here), LOCAL_FIXUPS);
  }

  /**
   * fdt_overlay_apply on a base and an overlay in good order. On success, every reference of the overlay leads to what
   * its node has become, the base's nodes have kept their phandles, and the symbols of fragments are paths to the
   * merged
   * nodes. With room for the fragments and symbols, it succeeds exactly when phandles, fixups and targets are
   * faultless.
   */
  method ApplyOverlay(fdt: Fdt, fdto: Fdt, ghost frags: seq<Fragment>, ghost names: set<bytes>) returns (ret: int)
    requires fdt != fdto && fdt.mem != fdto.mem && fdt.Valid() && Applying.Target(fdt, 0, Here)
    requires IsPath(fdt.forest, Here)
    requires fdto.Valid() && Applying.Target(fdto, 0, Here) && IsPath(fdto.forest, Here)
    requires Kid(BodyOf(fdto, Here), FIXUPS).None?
    requires Sound(fdt.Tree(), BodyOf(fdto, Here), frags, names) && SymbolsSound(fdt.Tree(), BodyOf(fdto, Here), names)
    requires SymbolsFine(fdt, fdto)
    modifies fdt, fdt.mem, fdto, fdto.mem
    ensures old(fdt.Tree().NodeT?)
    ensures ret == 0 ==>
              && fdt.Valid() && fdt.Tree().NodeT? && fdt.Front() == old(fdt.Front())
              && ReferencesLead(old(fdt.Tree()), old(BodyOf(fdto, Here)), fdt.Tree(), frags, names)
              && PhandlesKept(old(fdt.Tree()), fdt.Tree(), names)
              && SymbolsLead(old(BodyOf(fdto, Here)), fdt.Tree(), frags, names)
    ensures ret != 0 ==>
              || ApplyTree(old(fdt.Tree()), old(BodyOf(fdto, Here))) == Err(ret)
              || (ret == -NOSPACE && old(fdt.DataEnd() + OverlayRoom(fdt.Tree(), BodyOf(fdto, Here)) > fdt.totalsize))
    ensures old(fdt.DataEnd() + OverlayRoom(fdt.Tree(), BodyOf(fdto, Here)) <= fdt.totalsize) ==>
              (ret == 0 <==> ApplyTree(old(fdt.Tree()), old(BodyOf(fdto, Here))).Ok?)
    ensures old(fdt.DataEnd() + OverlayRoom(fdt.Tree(), BodyOf(fdto, Here)) <= fdt.totalsize) &&
            SymbolsGood(old(BodyOf(fdto, Here)), frags) ==>
              (ret == 0 <==> Faultless(old(fdt.Tree()), old(BodyOf(fdto, Here)), frags, names))
  {
    hide SymbolsGood, Faultless, OverlayRoom, Fdt.DataEnd, Fdt.St, Fdt.Strs, Fdt.Tree, Fdt.Front, Sound, SymbolsSound,
         SymbolsFine, ApplyTree,
         ReferencesLead, PhandlesKept, SymbolsLead, BodyOf, Appliable;
    ghost var base, o := fdt.Tree(), BodyOf(fdto, Here);
    SoundAppliable(fdto, base, frags, names);
    SoundRoot(base, o, frags, names);
    if SymbolsGood(o, frags) {
      ApplySucceeds(base, o, frags, names);
    }
    ret := FdtOverlayApply(fdt, fdto);
    if ret == 0 {
      AllLead(base, o, frags, names);
    }
  }
}
