/** libfdt/fdt_overlay.c: a base and an overlay in good order, with a reference. */
module Witness {
  import opened Bytes
  import opened Trees
  import opened Walk
  import Paths
  import opened Merging
  import opened Overlay
  import opened OverlayApply
  import opened Targets
  import opened Symbols
  import opened Survival
  import opened Fragments
  import opened Outcome
  import opened Success

  const A: bytes := [0x61]
  const B: bytes := [0x62]
  const F: bytes := [0x66]
  const REF: bytes := [0x72]
  const ONE: bytes := [0, 0, 0, 1]
  const NULL: bytes := [0, 0, 0, 0]

  const NAMES: set<bytes> := {A, B, F, LOCAL_FIXUPS, OVERLAY, SYMBOLS}

  /** A root with one node, which has a phandle. */
  const BASE: Tree := NodeT([], NodeT(A, PropT(PHANDLE, ONE, Nil), Nil), Nil)

  /** A fragment for that node. It refers to the new node that it brings along, and a symbol names that node. */
  const NEW: Tree := NodeT(B, PropT(PHANDLE, ONE, Nil), Nil)
  const FRAGMENT: Tree := PropT(TARGET, ONE, NodeT(OVERLAY, PropT(REF, ONE, NEW), Nil))
  const LISTED: Tree := NodeT(F, NodeT(OVERLAY, PropT(REF, NULL, Nil), Nil), Nil)
  const SYM: bytes := [0x73]
  const TEXT: bytes := [SLASH] + F + OVERLAY_DIR + [SLASH] + B + [0]
  const NAMED: Tree := PropT(SYM, TEXT, Nil)
  const EXTRAS: Tree := NodeT(LOCAL_FIXUPS, LISTED, NodeT(SYMBOLS, NAMED, Nil))
  const BODY: Tree := NodeT(F, FRAGMENT, EXTRAS)

  const FRAGS: seq<Fragment> := [Fragment(F, [A])]

  lemma NoAt(a: bytes, b: bytes)
    requires AT !in a && AT !in b && a != b
    ensures Unlike(a, b)
  {
    if |b| <= |a| && a[..|b|] == b && |a| != |b| {
      assert a[|b|] in a;
    }
    if |a| <= |b| && b[..|a|] == a && |a| != |b| {
      assert b[|a|] in b;
    }
  }

  lemma NamesUniform()
    ensures Uniform(NAMES)
  {
    forall a, b | a in NAMES && b in NAMES && a != b ensures Unlike(a, b) {
      assert AT !in A && AT !in B && AT !in F && AT !in LOCAL_FIXUPS && AT !in OVERLAY && AT !in SYMBOLS;
      NoAt(a, b);
    }
  }

  lemma Different()
    ensures A != B && A != F && B != F && |A| == |B| == |F| == 1 && |LOCAL_FIXUPS| == 16 && |OVERLAY| == 11
    ensures |SYMBOLS| == 11
    ensures |SYM| == 1 && SYM != REF && OVERLAY != SYMBOLS && |PHANDLE| == 7 && |LINUX_PHANDLE| == 13 && |REF| == 1
    ensures |TARGET| == 6 && |TARGET_PATH| == 11
    ensures Dec32(ONE, 0) == 1 && Dec32(NULL, 0) == 0 && Enc32(1) == ONE
  {
    assert OVERLAY[2] == 0x6f && SYMBOLS[2] == 0x73;
    DecAt(ONE, 0, 1);
    assert ONE[0..4] == ONE;
  }

  /** The children of a node with one child. */
  lemma OneChild(n: bytes, body: Tree, m: bytes)
    requires n in NAMES && m in NAMES && NamesIn(body, NAMES) && Plain(body)
    ensures Kid(NodeT(n, body, Nil), m) == if m == n then Some(body) else None
  {
    NamesUniform();
    FirstKid(NodeT(n, body, Nil), NAMES, m);
  }

  lemma PropShape(n: bytes, v: bytes, rest: Tree)
    requires NamesIn(rest, NAMES) && Plain(rest) && Get(rest, n).None?
    ensures NamesIn(PropT(n, v, rest), NAMES) && Plain(PropT(n, v, rest))
  {
  }

  lemma NodeShape(n: bytes, body: Tree, rest: Tree)
    requires n in NAMES && NamesIn(body, NAMES) && Plain(body) && NamesIn(rest, NAMES) && Plain(rest) && NoKid(rest, n)
    ensures NamesIn(NodeT(n, body, rest), NAMES) && Plain(NodeT(n, body, rest))
  {
  }

  lemma Shapes()
    ensures NamesIn(BASE.body, NAMES) && Plain(BASE.body)
    ensures NamesIn(NEW, NAMES) && Plain(NEW) && NamesIn(FRAGMENT, NAMES) && Plain(FRAGMENT)
    ensures NamesIn(PropT(REF, ONE, NEW), NAMES) && Plain(PropT(REF, ONE, NEW))
    ensures NamesIn(LISTED, NAMES) && Plain(LISTED) && NamesIn(LISTED.body, NAMES) && Plain(LISTED.body)
    ensures NamesIn(NAMED, NAMES) && Plain(NAMED) && NamesIn(EXTRAS, NAMES) && Plain(EXTRAS)
    ensures NamesIn(BODY, NAMES) && Plain(BODY)
  {
    Different();
    hide NamesIn, Plain;
    NilShape();
    var p := PropT(PHANDLE, ONE, Nil);
    PropShape(PHANDLE, ONE, Nil);
    NodeShape(A, p, Nil);
    NodeShape(B, p, Nil);
    PropShape(REF, ONE, NEW);
    NodeShape(OVERLAY, PropT(REF, ONE, NEW), Nil);
    PropShape(TARGET, ONE, NodeT(OVERLAY, PropT(REF, ONE, NEW), Nil));
    PropShape(REF, NULL, Nil);
    NodeShape(OVERLAY, PropT(REF, NULL, Nil), Nil);
    NodeShape(F, LISTED.body, Nil);
    PropShape(SYM, TEXT, Nil);
    NodeShape(SYMBOLS, NAMED, Nil);
    NodeShape(LOCAL_FIXUPS, LISTED, NodeT(SYMBOLS, NAMED, Nil));
    NodeShape(F, FRAGMENT, EXTRAS);
  }

  lemma NilShape()
    ensures NamesIn(Nil, NAMES) && Plain(Nil)
  {
  }

  // ---------- What there is ----------

  /** All values of the fixups. */
  lemma ListedVals(a: Address, name: bytes)
    requires Known(a, NAMES)
    ensures Val(LISTED, a, name) == if a == [F, OVERLAY] && name == REF then Some(NULL) else None
  {
    Shapes();
    if a != [] {
      OneChild(F, LISTED.body, a[0]);
      if a[0] == F {
        assert a == [F] + a[1..];
        ListedBelow(a[1..], name);
      }
    }
  }

  lemma ListedBelow(a: Address, name: bytes)
    requires Known(a, NAMES)
    ensures Val(LISTED.body, a, name) == if a == [OVERLAY] && name == REF then Some(NULL) else None
  {
    Shapes();
    if a != [] {
      OneChild(OVERLAY, PropT(REF, NULL, Nil), a[0]);
      if a[0] == OVERLAY {
        assert a == [OVERLAY] + a[1..];
        LeafVals(REF, NULL, a[1..], name);
      }
    }
  }

  lemma LeafVals(n: bytes, v: bytes, a: Address, name: bytes)
    ensures Val(PropT(n, v, Nil), a, name) == if a == [] && name == n then Some(v) else None
  {
    OneGet(n, v, Nil, name);
    if a != [] {
      KidNext(PropT(n, v, Nil), a[0]);
      assert ChildAt(Nil, a[0]) == None;
    }
  }

  /** A property in front of nodes. */
  lemma OneGet(n: bytes, v: bytes, rest: Tree, name: bytes)
    requires !rest.PropT?
    ensures Get(PropT(n, v, rest), name) == if name == n then Some(v) else None
  {
    assert Get(rest, name) == None;
  }

  /** All values of the new node of the fragment. */
  lemma NewVals(a: Address, name: bytes)
    requires Known(a, NAMES)
    ensures Val(PropT(REF, ONE, NEW), a, name) ==
            if a == [] && name == REF then Some(ONE) else if a == [B] && name == PHANDLE then Some(ONE) else None
  {
    Different();
    Shapes();
    OneGet(REF, ONE, NEW, name);
    if a != [] {
      SkipProp(PropT(REF, ONE, NEW));
      OneChild(B, NEW.body, a[0]);
      if a[0] == B {
        assert a == [B] + a[1..];
        LeafVals(PHANDLE, ONE, a[1..], name);
      }
    }
  }

  lemma FragmentVals(a: Address, name: bytes)
    requires Known(a, NAMES)
    ensures Val(FRAGMENT, a, name) ==
            if a == [] && name == TARGET then Some(ONE)
            else if a == [OVERLAY] && name == REF then Some(ONE)
            else if a == [OVERLAY, B] && name == PHANDLE then Some(ONE) else None
  {
    Different();
    Shapes();
    OneGet(TARGET, ONE, FRAGMENT.rest, name);
    if a != [] {
      SkipProp(FRAGMENT);
      OneChild(OVERLAY, PropT(REF, ONE, NEW), a[0]);
      if a[0] == OVERLAY {
        assert a == [OVERLAY] + a[1..];
        NewVals(a[1..], name);
      }
    }
  }

  /** The children of the overlay's root. */
  lemma BodyKids(m: bytes)
    requires m in NAMES
    ensures Kid(BODY, m) ==
            if m == F then
              Some(FRAGMENT) else if m == LOCAL_FIXUPS then Some(LISTED) else if m == SYMBOLS then Some(NAMED) else None
  {
    Different();
    Shapes();
    NamesUniform();
    FirstKid(BODY, NAMES, m);
    FirstKid(EXTRAS, NAMES, m);
    OneChild(SYMBOLS, NAMED, m);
  }

  /** All values of the overlay. */
  lemma BodyVals(a: Address, name: bytes)
    requires Known(a, NAMES)
    ensures Val(BODY, a, name) ==
            if a == [F] && name == TARGET then Some(ONE)
            else if a == [F, OVERLAY] && name == REF then Some(ONE)
            else if a == [F, OVERLAY, B] && name == PHANDLE then Some(ONE)
            else if a == [LOCAL_FIXUPS, F, OVERLAY] && name == REF then Some(NULL)
            else if a == [SYMBOLS] && name == SYM then Some(TEXT) else None
  {
    Different();
    if a != [] {
      BodyKids(a[0]);
      assert a == [a[0]] + a[1..];
      if a[0] == F {
        FragmentVals(a[1..], name);
      } else if a[0] == LOCAL_FIXUPS {
        ListedVals(a[1..], name);
      } else if a[0] == SYMBOLS {
        LeafVals(SYM, TEXT, a[1..], name);
      }
    }
  }

  lemma BaseVals(a: Address, name: bytes)
    requires Known(a, NAMES)
    ensures Val(BASE.body, a, name) == if a == [A] && name == PHANDLE then Some(ONE) else None
  {
    Different();
    Shapes();
    if a != [] {
      OneChild(A, BASE.body.body, a[0]);
      if a[0] == A {
        assert a == [A] + a[1..];
        LeafVals(PHANDLE, ONE, a[1..], name);
      }
    }
  }

  /** The phandle of a node is the word of its property. */
  lemma PhandleFromVal(t: Tree, a: Address)
    requires Val(t, a, LINUX_PHANDLE).None?
    ensures PhandleAt(t, a) == match Val(t, a, PHANDLE) case None => 0 case Some(v) => if |v| ==
              4 then Dec32(v, 0) else 0
  {
  }

  lemma BodyPhandles(a: Address)
    requires Known(a, NAMES)
    ensures PhandleAt(BODY, a) == (if a == [F, OVERLAY, B] then 1 else 0) && Carried(BODY, a)
  {
    Different();
    BodyVals(a, PHANDLE);
    BodyVals(a, LINUX_PHANDLE);
    PhandleFromVal(BODY, a);
  }

  lemma BasePhandles(a: Address)
    requires Known(a, NAMES)
    ensures PhandleAt(BASE.body, a) == (if a == [A] then 1 else 0) && Carried(BASE.body, a)
  {
    Different();
    BaseVals(a, PHANDLE);
    BaseVals(a, LINUX_PHANDLE);
    PhandleFromVal(BASE.body, a);
  }

  // ---------- In good order ----------

  lemma FixupsAre()
    ensures Fixups(BODY) == LISTED && Kid(BODY, SYMBOLS) == Some(NAMED) && Kid(LISTED, LOCAL_FIXUPS).None?
    ensures Kid(LISTED, OVERLAY).None?
  {
    Different();
    Shapes();
    BodyKids(LOCAL_FIXUPS);
    BodyKids(SYMBOLS);
    OneStep(BODY, LOCAL_FIXUPS);
    OneChild(F, LISTED.body, LOCAL_FIXUPS);
    OneChild(F, LISTED.body, OVERLAY);
  }

  lemma OneSlot()
    ensures SlotsOk(NULL, |ONE|)
  {
    Different();
  }

  lemma OverlayWellFormed()
    ensures WellFormed(BODY, NAMES)
  {
    Different();
    NamesUniform();
    Shapes();
    FixupsAre();
    OneSlot();
    hide PhandleAt, Val, Plain, NamesIn, SlotsOk, Carried, Fixups;
    forall a, name | Known(a, NAMES) && Val(Fixups(BODY), a, name).Some?
      ensures !IsPhandleName(name)
      ensures Val(BODY, a, name).Some? ==> SlotsOk(Val(Fixups(BODY), a, name).value, |Val(BODY, a, name).value|)
    {
      ListedVals(a, name);
      BodyVals(a, name);
    }
    forall a | Known(a, NAMES) ensures Carried(BODY, a) {
      BodyPhandles(a);
    }
    forall a, b | Known(a, NAMES) && Known(b, NAMES) && a != b && PhandleAt(BODY, a) != 0
      ensures PhandleAt(BODY, a) != PhandleAt(BODY, b) {
      BodyPhandles(a);
      BodyPhandles(b);
    }
  }

  lemma FragmentsAre()
    ensures FragmentsOk(FRAGS, NAMES) && Enumerates(BODY, BODY, FRAGS) && AllAim(BODY, BASE.body, FRAGS)
    ensures TargetsUnlisted(LISTED, FRAGS)
  {
    Different();
    FixupsAre();
    hide NodeBy, Val, Known, PhandleAt;
    KnownNames();
    assert FRAGS[1..] == [];
    OverlayBy(BODY, F);
    OverlayBy(BODY, LOCAL_FIXUPS);
    OverlayBy(BODY, SYMBOLS);
    OneStep(BODY, SYMBOLS);
    BodyKids(SYMBOLS);
    NoChild(SYM, TEXT, OVERLAY);
    OneStep(BODY, F);
    BodyKids(F);
    OneStep(BODY, LOCAL_FIXUPS);
    FragmentKid();
    ListedVals([F], TARGET);
    ListedVals([F], TARGET_PATH);
    OneGet(TARGET, ONE, FRAGMENT.rest, TARGET);
    BasePhandles([A]);
    assert TargetWord(FRAGMENT) == 1;
    assert Enumerates(Nil, BODY, []);
    assert Enumerates(NodeT(SYMBOLS, NAMED, Nil), BODY, []);
    assert Enumerates(EXTRAS, BODY, []);
  }

  lemma KnownNames()
    ensures Known([A], NAMES) && Known([F], NAMES) && Known([A, B], NAMES) && Known([F, OVERLAY], NAMES)
    ensures Known([F, OVERLAY, B], NAMES)
  {
  }

  lemma FragmentKid()
    ensures Kid(FRAGMENT, OVERLAY) == Some(PropT(REF, ONE, NEW))
  {
    Shapes();
    SkipProp(FRAGMENT);
    OneChild(OVERLAY, PropT(REF, ONE, NEW), OVERLAY);
  }

  lemma NoChild(n: bytes, v: bytes, m: bytes)
    ensures Kid(PropT(n, v, Nil), m) == None
  {
    KidNext(PropT(n, v, Nil), m);
    assert ChildAt(Nil, m) == None;
  }

  lemma SymbolsInOrder()
    ensures SymbolsSound(BASE, BODY, NAMES)
  {
    Different();
    FixupsAre();
    hide Val, Fixups;
    assert SLASH !in A && SLASH !in B && SLASH !in F && SLASH !in LOCAL_FIXUPS && SLASH !in OVERLAY &&
      SLASH !in SYMBOLS;
    assert NamesOk(Nil) && NamesOk(NAMED);
    forall name ensures Val(Fixups(BODY), [SYMBOLS], name).None? {
      ListedVals([SYMBOLS], name);
    }
  }

  /** The symbol is one of the fragment, for the new node. */
  lemma OneSymbol()
    ensures SymbolOf(BODY, FRAGS, 0, SYM, B) && Components(B) == [B] && Known([B], NAMES)
    ensures NodeBy(BODY, OverlayApply.Source(FRAGS[0]) + [B]).Some?
  {
    Different();
    KnownNames();
    hide Val;
    BodyVals([SYMBOLS], SYM);
    BodyPhandles([F, OVERLAY, B]);
    assert OverlayApply.Source(FRAGS[0]) + [B] == [F, OVERLAY, B];
    assert B[1..] == [] && B[..1] == B && Paths.FirstSlash(B[1..]) == 0 && Paths.FirstSlash(B) == 1;
    assert Components(B[1..]) == [];
  }

  lemma WordFits(n: bytes, b: Tree, rest: Tree, delta: u32)
    requires n == PHANDLE || n == TARGET || n == REF
    requires b == PropT(n, ONE, rest) && !rest.PropT? && delta == 1
    ensures NodeFits(b, delta)
  {
    Different();
    OneGet(n, ONE, rest, PHANDLE);
    OneGet(n, ONE, rest, LINUX_PHANDLE);
  }

  lemma PlainFits(b: Tree, delta: u32)
    requires !b.PropT? || (b.name == SYM && b.rest == Nil) || (b.name == REF && b.rest == Nil)
    ensures NodeFits(b, delta)
  {
    Different();
    if b.PropT? {
      OneGet(b.name, b.value, Nil, PHANDLE);
      OneGet(b.name, b.value, Nil, LINUX_PHANDLE);
    }
  }

  /** The phandle 1 of the new node can be shifted by 1. */
  lemma BodyFits()
    ensures PhandlesFit(BODY, 1)
  {
    hide NodeFits, BelowFits;
    BelowStep(Nil, 1);
    var p := PropT(PHANDLE, ONE, Nil);
    BelowStep(p, 1);
    BelowStep(NEW, 1);
    WordFits(PHANDLE, p, Nil, 1);
    var r := PropT(REF, ONE, NEW);
    BelowStep(r, 1);
    WordFits(REF, r, NEW, 1);
    BelowStep(FRAGMENT.rest, 1);
    BelowStep(FRAGMENT, 1);
    WordFits(TARGET, FRAGMENT, FRAGMENT.rest, 1);
    BelowStep(LISTED.body.body, 1);
    PlainFits(LISTED.body.body, 1);
    BelowStep(LISTED.body, 1);
    PlainFits(LISTED.body, 1);
    BelowStep(LISTED, 1);
    PlainFits(LISTED, 1);
    BelowStep(NAMED, 1);
    PlainFits(NAMED, 1);
    BelowStep(EXTRAS.rest, 1);
    BelowStep(EXTRAS, 1);
    BelowStep(BODY, 1);
    PlainFits(BODY, 1);
  }

  /** All nodes of the fixups. */
  lemma ListedNodes(a: Address)
    requires Known(a, NAMES) && NodeBy(LISTED, a).Some?
    ensures a == [] || a == [F] || a == [F, OVERLAY]
  {
    Shapes();
    if a != [] {
      OneChild(F, LISTED.body, a[0]);
      var r := a[1..];
      assert a == [F] + r && NodeBy(LISTED.body, r).Some?;
      if r != [] {
        OneChild(OVERLAY, PropT(REF, NULL, Nil), r[0]);
        var q := r[1..];
        assert r == [OVERLAY] + q && NodeBy(PropT(REF, NULL, Nil), q).Some?;
        if q != [] {
          NoChild(REF, NULL, q[0]);
        }
      }
    }
  }

  lemma BodyAnswers()
    ensures Answered(Fixups(BODY), BODY, NAMES)
  {
    FixupsAre();
    KnownNames();
    BodyKids(F);
    OneStep(BODY, F);
    OverlayBy(BODY, F);
    FragmentKid();
    hide Val, Fixups;
    forall a | Known(a, NAMES) && NodeBy(LISTED, a).Some? ensures NodeBy(BODY, a).Some? {
      ListedNodes(a);
    }
    forall a, name | Known(a, NAMES) && Val(LISTED, a, name).Some?
      ensures Val(BODY, a, name).Some? && |Val(LISTED, a, name).value| % 4 == 0
    {
      ListedVals(a, name);
      BodyVals(a, name);
    }
  }

  lemma TextSpells()
    ensures IsSymbol(TEXT) && Spells(TEXT, F, B)
  {
    Different();
  }

  lemma BodySymbols()
    ensures SymbolsGood(BODY, FRAGS)
  {
    KnownNames();
    hide Val, IsSymbol, Spells, Parse;
    forall name | Val(BODY, [SYMBOLS], name).Some? ensures SymbolGood(Val(BODY, [SYMBOLS], name).value, FRAGS) {
      BodyVals([SYMBOLS], name);
      Different();
      TextSpells();
      ParseExact(TEXT, F, B);
      forall fragment, rel | Spells(TEXT, fragment, rel) ensures FRAGS[0].name == fragment {
        ParseExact(TEXT, fragment, rel);
      }
    }
  }

  lemma BaseIs()
    ensures MaxPhandle(BASE.body) == 1 && NodeBy(BASE.body, [A]).Some?
  {
    Different();
    Shapes();
    OneGet(PHANDLE, ONE, Nil, PHANDLE);
    OneStep(BASE.body, A);
    OneChild(A, BASE.body.body, A);
    assert MaxKids(Nil) == 0 && Get(BASE.body, PHANDLE) == None && Get(BASE.body, LINUX_PHANDLE) == None;
  }

  /** fdt_overlay_apply has no error on that base and that overlay. */
  lemma Succeeds()
    ensures ApplyTree(BASE, BODY).Ok?
  {
    hide ApplyTree, Sound, SymbolsSound, PhandlesFit, Answered, MaxPhandle;
    InGoodOrder();
    BodyFits();
    BodyAnswers();
    BodySymbols();
    BaseIs();
    ApplySucceeds(BASE, BODY, FRAGS, NAMES);
  }

  /** The hypotheses about base and overlay can be met together, and there are a reference and a symbol to be kept. */
  lemma InGoodOrder()
    ensures Sound(BASE, BODY, FRAGS, NAMES) && SymbolsSound(BASE, BODY, NAMES)
    ensures Reference(BASE.body, BODY, FRAGS, NAMES, 0, 0, [A], [A, B], REF, 0)
    ensures SymbolOf(BODY, FRAGS, 0, SYM, B) && Components(B) == [B] && Known([B], NAMES)
    ensures NodeBy(BODY, OverlayApply.Source(FRAGS[0]) + [B]).Some?
  {
    Different();
    NamesUniform();
    Shapes();
    FixupsAre();
    OverlayWellFormed();
    FragmentsAre();
    hide PhandleAt, Val, Plain, NamesIn, Carried, Fixups, NodeBy, WellFormed, Enumerates, AllAim, TargetsUnlisted,
         FragmentsOk;
    forall a | Known(a, NAMES) ensures Carried(BASE.body, a) {
      BasePhandles(a);
    }
    forall a, z | Known(a, NAMES) && Known(z, NAMES) && a != z && PhandleAt(BASE.body, a) != 0
      ensures PhandleAt(BASE.body, a) != PhandleAt(BASE.body, z)
    {
      BasePhandles(a);
      BasePhandles(z);
    }
    OneReference();
    SymbolsInOrder();
    OneSymbol();
  }

  lemma OneReference()
    ensures Reference(BASE.body, BODY, FRAGS, NAMES, 0, 0, [A], [A, B], REF, 0)
  {
    Different();
    FixupsAre();
    KnownNames();
    hide PhandleAt, Val, NodeBy, Fixups;
    var g, h: Address := [A], [A, B];
    assert Below(FRAGS[0].target, g) && Below(FRAGS[0].target, h);
    assert g[1..] == [] && h[1..] == [B];
    assert Origin(FRAGS[0], g) == [F, OVERLAY] && Origin(FRAGS[0], h) == [F, OVERLAY, B];
    ListedVals([F, OVERLAY], REF);
    BodyVals([F, OVERLAY], REF);
    BodyPhandles([F, OVERLAY, B]);
  }
}
