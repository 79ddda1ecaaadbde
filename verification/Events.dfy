/** The tags that the sequential writer emits, one behind the other, and the trees they make up. */
module Events {
  import opened Bytes
  import opened Tags
  import opened Forests
  import opened Edits
  import opened Trees
  import opened Walk

  datatype Event = BeginE(name: bytes) | PropE(name: bytes, value: bytes) | EndE

  /** The number of cells an event takes. */
  function Ext(e: Event): (r: nat)
    ensures r >= 1
  {
    match e
    case BeginE(name) => 1 + Cells(|name| + 1)
    case PropE(_, value) => 3 + Cells(|value|)
    case EndE => 1
  }

  /** The position of event i. */
  function Place(es: seq<Event>, i: nat): nat
    requires i <= |es|
  {
    if i == 0 then 0 else Place(es, i - 1) + Ext(es[i - 1])
  }

  /**
   * w denotes name in the string table strs: by its offset from the start (fixed), or, while the tree
   * is being written, by its negative offset from the end.
   */
  predicate NameRef(strs: bytes, fixed: bool, w: u32, name: bytes) {
    if fixed then StrAt(strs, w) == Some(name)
    else w + |strs| >= TWO_32 && StrAt(strs, w + |strs| - TWO_32) == Some(name)
  }

  predicate EventAt(st: bytes, strs: bytes, fixed: bool, p: nat, e: Event) {
    var o := 4 * p;
    && o + 4 * Ext(e) <= |st|
    && match e
       case BeginE(name) => Dec32(st, o) == FDT_BEGIN_NODE && st[o + 4..o + 5 + |name|] == name + [0] && 0 !in name
       case PropE(name, value) =>
         PropWritten(st, o, Dec32(st, o + 8), value) && NameRef(strs, fixed, Dec32(st, o + 8), name) &&
           |value| <= INT_MAX
       case EndE => Dec32(st, o) == FDT_END_NODE
  }

  /** The first j of the events es have their names by fixed offsets, the others do not. */
  ghost predicate EventsAt(st: bytes, strs: bytes, j: int, es: seq<Event>) {
    forall i :: 0 <= i < |es| ==> EventAt(st, strs, i < j, Place(es, i), es[i])
  }

  lemma {:induction false} PlaceAppend(es: seq<Event>, more: seq<Event>, i: nat)
    requires i <= |es|
    ensures Place(es + more, i) == Place(es, i)
  {
    if i > 0 {
      PlaceAppend(es, more, i - 1);
    }
  }

  lemma PlaceStep(es: seq<Event>, i: nat)
    requires i < |es|
    ensures Place(es, i + 1) == Place(es, i) + Ext(es[i])
  {
  }

  lemma {:induction false} PlaceGrows(es: seq<Event>, i: nat, j: nat)
    requires i <= j <= |es|
    ensures Place(es, i) + j - i <= Place(es, j)
    decreases j
  {
    hide Place, Ext;
    if i < j {
      PlaceStep(es, j - 1);
      PlaceGrows(es, i, j - 1);
    }
  }

  /** An event may be moved. */
  lemma EventMove(a: bytes, b: bytes, strs: bytes, fixed: bool, p: nat, e: Event)
    requires EventAt(a, strs, fixed, p, e) && Same(a, 4 * p, b, 4 * p, 4 * Ext(e))
    ensures EventAt(b, strs, fixed, p, e)
  {
    hide Dec32, NameRef, Cells;
    var o, n := 4 * p, 4 * Ext(e);
    MoveWord(a, o, b, o, n, 0);
    match e
    case BeginE(name) => MoveSlice(a, o, b, o, n, 4, |name| + 1);
    case PropE(_, value) =>
      MoveWord(a, o, b, o, n, 4);
      MoveWord(a, o, b, o, n, 8);
      MoveSlice(a, o, b, o, n, 12, |value|);
    case EndE =>
  }

  lemma EventKept(a: bytes, b: bytes, strs: bytes, es: seq<Event>, i: nat)
    requires i < |es| && EventAt(a, strs, false, Place(es, i), es[i])
    requires |a| == 4 * Place(es, |es|) && Same(a, 0, b, 0, |a|)
    ensures EventAt(b, strs, false, Place(es, i), es[i])
  {
    hide EventAt, Same, Ext, Place;
    PlaceStep(es, i);
    PlaceGrows(es, i + 1, |es|);
    SameShorter(a, 0, b, 0, |a|, 4 * Place(es, i), 4 * Ext(es[i]));
    EventMove(a, b, strs, false, Place(es, i), es[i]);
  }

  /** One more event behind the others. */
  lemma EventsSnoc(a: bytes, b: bytes, strs: bytes, es: seq<Event>, e: Event)
    requires EventsAt(a, strs, 0, es) && |a| == 4 * Place(es, |es|) && Same(a, 0, b, 0, |a|)
    requires EventAt(b, strs, false, Place(es, |es|), e)
    ensures EventsAt(b, strs, 0, es + [e]) && Place(es + [e], |es| + 1) == Place(es, |es|) + Ext(e)
  {
    var es' := es + [e];
    PlaceAppend(es, [e], |es|);
    assert Place(es', |es| + 1) == Place(es', |es|) + Ext(es'[|es|]);
    hide EventAt, Same, Place, Ext;
    forall i | 0 <= i < |es'| ensures EventAt(b, strs, i < 0, Place(es', i), es'[i]) {
      PlaceAppend(es, [e], i);
      if i < |es| {
        assert EventAt(a, strs, i < 0, Place(es, i), es[i]);
        EventKept(a, b, strs, es, i);
      }
    }
  }

  // ---------- The string table, growing downwards ----------

  /** A string added in front leaves the other strings where they are, counted from the end. */
  lemma NameRefGrow(strs: bytes, more: bytes, w: u32, name: bytes)
    requires NameRef(strs, false, w, name)
    ensures NameRef(more + strs, false, w, name)
  {
    StrAtBehind(more, strs, w + |strs| - TWO_32);
  }

  lemma StrAtBehind(more: bytes, strs: bytes, off: nat)
    ensures StrAt(more + strs, |more| + off) == StrAt(strs, off)
  {
    var t := more + strs;
    if off < |strs| {
      var k := FindNul(strs, off);
      var j := FindNul(t, |more| + off);
      if k >= 0 {
        assert t[|more| + k] == 0;
        forall i | |more| + off <= i < |more| + k ensures t[i] != 0 {
          assert t[i] == strs[i - |more|];
        }
        assert j == |more| + k;
        assert t[|more| + off..|more| + k] == strs[off..k];
      } else {
        forall i | |more| + off <= i < |t| ensures t[i] != 0 {
          assert t[i] == strs[i - |more|];
        }
      }
    }
  }

  lemma EventsGrow(st: bytes, strs: bytes, more: bytes, es: seq<Event>)
    requires EventsAt(st, strs, 0, es)
    ensures EventsAt(st, more + strs, 0, es)
  {
    hide Dec32, NameRef, PropWritten, Cells;
    forall i | 0 <= i < |es| ensures EventAt(st, more + strs, i < 0, Place(es, i), es[i]) {
      assert EventAt(st, strs, i < 0, Place(es, i), es[i]);
      if es[i].PropE? {
        NameRefGrow(strs, more, Dec32(st, 4 * Place(es, i) + 8), es[i].name);
      }
    }
  }

  /** fdt_finish turns an offset from the end into one from the start. */
  lemma NameRefFixed(strs: bytes, w: u32, name: bytes)
    requires NameRef(strs, false, w, name) && |strs| <= INT_MAX
    ensures NameRef(strs, true, U32(w + |strs|), name)
  {
    assert U32(w + |strs|) == w + |strs| - TWO_32;
  }

  // ---------- The events of a tree ----------

  /** The calls that write t. */
  function Flat(t: Tree): seq<Event> {
    match t
    case Nil => []
    case PropT(name, value, rest) => [PropE(name, value)] + Flat(rest)
    case NodeT(name, body, rest) => [BeginE(name)] + Flat(body) + [EndE] + Flat(rest)
  }

  /** es holds fs from index i on. */
  predicate Part(es: seq<Event>, i: nat, fs: seq<Event>) {
    i + |fs| <= |es| && es[i..i + |fs|] == fs
  }

  lemma PartSplit(es: seq<Event>, i: nat, fs: seq<Event>, gs: seq<Event>)
    requires Part(es, i, fs + gs)
    ensures Part(es, i, fs) && Part(es, i + |fs|, gs)
  {
    assert es[i..i + |fs|] == es[i..i + |fs + gs|][..|fs|];
    assert es[i + |fs|..i + |fs| + |gs|] == es[i..i + |fs + gs|][|fs|..];
  }

  lemma PropAtEvent(st: bytes, strs: bytes, p: nat, e: Event) returns (it: Item)
    requires EventAt(st, strs, true, p, e) && e.PropE?
    ensures it.Prop? && WfItem(it) && ItemAt(st, p, it) && Len(it) == Ext(e)
    ensures StrAt(strs, it.nameoff) == Some(e.name) && it.value == e.value
  {
    hide Dec32, Cells, StrAt;
    var w := Dec32(st, 4 * p + 8);
    PropItemAt(st, p, w, e.value);
    it := PropItem(st, 4 * p, w, e.value);
  }

  lemma BeginAtEvent(st: bytes, strs: bytes, fixed: bool, p: nat, e: Event) returns (it: Item)
    requires EventAt(st, strs, fixed, p, e) && e.BeginE?
    ensures it.Begin? && WfItem(it) && ItemAt(st, p, it) && Len(it) == Ext(e) && it.name == e.name
  {
    hide Dec32, Cells;
    var x := 4 * p + 4;
    var n := |e.name|;
    assert st[x..x + n] == st[x..x + n + 1][..n];
    assert st[x + n] == st[x..x + n + 1][n];
    it := Begin(e.name, st[x + n + 1..x + Align4(n + 1)]);
  }

  /** Event i of es, which is event fs[0] of a part of es. */
  lemma EventOf(st: bytes, strs: bytes, es: seq<Event>, i: nat, e: Event)
    requires EventsAt(st, strs, |es|, es) && Part(es, i, [e])
    ensures EventAt(st, strs, true, Place(es, i), e) && Place(es, i + 1) == Place(es, i) + Ext(e)
  {
    hide EventAt;
    assert es[i] == es[i..i + 1][0];
    assert EventAt(st, strs, i < |es|, Place(es, i), es[i]);
  }

  /** The events of a tree encode a forest that stands for it. */
  lemma {:induction false} FlatHas(st: bytes, strs: bytes, es: seq<Event>, i: nat, t: Tree) returns (f: Forest)
    requires EventsAt(st, strs, |es|, es) && Part(es, i, Flat(t))
    ensures Wf(f) && Has(st, Place(es, i), f) && Named(f, strs) && Abs(f, strs) == t
    ensures i + |Flat(t)| <= |es| && Place(es, i) + Size(f) == Place(es, i + |Flat(t)|)
    decreases t, 1
  {
    hide *;
    match t
    case Nil =>
      FlatParts(es, i, t);
      f := Empty;
      EmptyHas(st, Place(es, i), strs);
    case PropT(_, _, _) => f := FlatProp(st, strs, es, i, t);
    case NodeT(_, _, _) => f := FlatNode(st, strs, es, i, t);
  }

  lemma {:induction false} FlatProp(st: bytes, strs: bytes, es: seq<Event>, i: nat, t: Tree) returns (f: Forest)
    requires EventsAt(st, strs, |es|, es) && Part(es, i, Flat(t)) && t.PropT?
    ensures Wf(f) && Has(st, Place(es, i), f) && Named(f, strs) && Abs(f, strs) == t
    ensures i + |Flat(t)| <= |es| && Place(es, i) + Size(f) == Place(es, i + |Flat(t)|)
    decreases t, 0
  {
    hide *;
    FlatParts(es, i, t);
    var e := PropE(t.name, t.value);
    EventOf(st, strs, es, i, e);
    var it := PropAtEvent(st, strs, Place(es, i), e);
    PropKind(it);
    var r := FlatHas(st, strs, es, i + 1, t.rest);
    LeafHas(st, Place(es, i), it, r, strs);
    f := Leaf(it, r);
  }

  lemma PropKind(it: Item)
    requires it.Prop?
    ensures !it.Begin?
  {
  }

  lemma {:induction false} FlatNode(st: bytes, strs: bytes, es: seq<Event>, i: nat, t: Tree) returns (f: Forest)
    requires EventsAt(st, strs, |es|, es) && Part(es, i, Flat(t)) && t.NodeT?
    ensures Wf(f) && Has(st, Place(es, i), f) && Named(f, strs) && Abs(f, strs) == t
    ensures i + |Flat(t)| <= |es| && Place(es, i) + Size(f) == Place(es, i + |Flat(t)|)
    decreases t, 0
  {
    hide *;
    FlatParts(es, i, t);
    var x := BeginE(t.name);
    EventOf(st, strs, es, i, x);
    var it := BeginAtEvent(st, strs, true, Place(es, i), x);
    var b := FlatHas(st, strs, es, i + 1, t.body);
    var e := i + 1 + |Flat(t.body)|;
    EventOf(st, strs, es, e, EndE);
    EndAtEvent(st, strs, true, Place(es, e), EndE);
    var r := FlatHas(st, strs, es, e + 1, t.rest);
    NodeHas(st, Place(es, i), it, b, r, strs);
    f := Node(it, b, r);
  }

  /** Where the events of the parts of a tree are. */
  lemma FlatParts(es: seq<Event>, i: nat, t: Tree)
    requires Part(es, i, Flat(t))
    ensures i + |Flat(t)| <= |es|
    ensures match t
      case Nil => |Flat(t)| == 0
      case PropT(name, value, rest) =>
        Part(es, i, [PropE(name, value)]) && Part(es, i + 1, Flat(rest)) && |Flat(t)| == 1 + |Flat(rest)|
      case NodeT(name, body, rest) =>
        var e := i + 1 + |Flat(body)|;
        && Part(es, i, [BeginE(name)]) && Part(es, i + 1, Flat(body)) && Part(es, e, [EndE])
        && Part(es, e + 1, Flat(rest))
        && |Flat(t)| == |Flat(body)| + 2 + |Flat(rest)|
  {
    PartBounds(es, i, Flat(t));
    hide Part;
    match t
    case Nil =>
    case PropT(name, value, rest) =>
      PartSplit(es, i, [PropE(name, value)], Flat(rest));
    case NodeT(name, body, rest) =>
      var x, y := [BeginE(name)], Flat(body);
      PartSplit(es, i, x + y + [EndE], Flat(rest));
      PartSplit(es, i, x + y, [EndE]);
      PartSplit(es, i, x, y);
  }

  lemma PartBounds(es: seq<Event>, i: nat, fs: seq<Event>)
    requires Part(es, i, fs)
    ensures i + |fs| <= |es|
  {
  }

  lemma EndAtEvent(st: bytes, strs: bytes, fixed: bool, p: nat, e: Event)
    requires EventAt(st, strs, fixed, p, e) && e.EndE?
    ensures TagAt(st, p, FDT_END_NODE) && Ext(e) == 1
  {
  }

  /** fdt_next_tag on an event. */
  lemma NextTagEvent(st: bytes, strs: bytes, fixed: bool, p: nat, e: Event)
    requires EventAt(st, strs, fixed, p, e)
    ensures NextTag(st, 4 * p) ==
            (match e case BeginE(_) => FDT_BEGIN_NODE case PropE(_, _) => FDT_PROP case EndE => FDT_END_NODE,
             4 * (p + Ext(e)))
  {
    hide NextTag, Dec32, Cells, NameRef;
    match e
    case BeginE(_) =>
      var it := BeginAtEvent(st, strs, fixed, p, e);
      NextTagBegin(st, p, it.name, it.padding);
    case PropE(_, value) =>
      var w := Dec32(st, 4 * p + 8);
      PropItemAt(st, p, w, value);
      NextTagItem(st, p, PropItem(st, 4 * p, w, value));
    case EndE => NextTagWord(st, p, FDT_END_NODE);
  }
}
