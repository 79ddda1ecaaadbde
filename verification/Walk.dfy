/** The walks over the tag stream: properties of a node, nodes in order, as functions of the structure bytes. */
module Walk {
  import opened Bytes
  import opened Tags

  datatype Option<+T> = None | Some(value: T) {
    function GetOr(default: T): T {
      match this
      case Some(v) => v
      case None => default
    }
  }

  /** The string at off of a string table, if it is there and terminated. */
  function StrAt(strs: bytes, off: int): Option<bytes> {
    if off < 0 || off >= |strs| then None
    else
      var k := FindNul(strs, off);
      if k < 0 then None else Some(strs[off..k])
  }

  /** The word at off, if it is there. */
  function WordAt(st: bytes, off: int): u32 {
    if 0 <= off && off + 4 <= |st| then Dec32(st, off) else 0
  }

  // ---------- Properties ----------

  /** nextprop_ */
  function NextProp(st: bytes, off: int): (r: int)
    ensures r >= 0 ==> r >= off && NextTag(st, r).0 == FDT_PROP
    decreases |st| - off
  {
    var (tag, next) := NextTag(st, off);
    if tag == FDT_END then if next >= 0 then -BADSTRUCTURE else next
    else if tag == FDT_PROP then off
    else if tag == FDT_NOP then NextProp(st, next)
    else -NOTFOUND
  }

  /** The loop of fdt_get_property_namelen_, from the property at off on (or the error off). */
  function FindProp(st: bytes, strs: bytes, off: int, name: bytes): (r: int)
    requires off >= 0 ==> NextTag(st, off).0 == FDT_PROP
    ensures r >= 0 ==> r >= off && NextTag(st, r).0 == FDT_PROP && StrAt(strs, WordAt(st, r + 8)) == Some(name)
    decreases if off < 0 then 0 else |st| - off + 1
  {
    hide NextTag, StrAt, WordAt;
    if off < 0 then off
    else if StrAt(strs, WordAt(st, off + 8)) == Some(name) then off
    else FindProp(st, strs, NextProp(st, NextTag(st, off).1), name)
  }

  /** A property tag is followed by its length, its name offset and its value. */
  lemma PropTagBounds(st: bytes, off: int)
    requires NextTag(st, off).0 == FDT_PROP
    ensures 0 <= off && off + 12 <= |st| && off + 12 + Dec32(st, off + 4) <= |st|
  {
  }

  /** fdt_check_node_offset_: the offset after the begin tag at off, or an error. */
  function CheckNode(st: bytes, off: int): (r: int)
    ensures r >= 0 ==> off >= 0 && off + 4 <= r && off + 4 <= |st| && NextTag(st, off) == (FDT_BEGIN_NODE, r)
  {
    if off < 0 || off % 4 != 0 || NextTag(st, off).0 != FDT_BEGIN_NODE then -BADOFFSET
    else NextTag(st, off).1
  }

  /** fdt_get_property_namelen_ on the node at off. */
  function GetProperty(st: bytes, strs: bytes, off: int, name: bytes): (r: int)
    ensures r >= 0 ==> NextTag(st, r).0 == FDT_PROP && StrAt(strs, WordAt(st, r + 8)) == Some(name)
  {
    var first := CheckNode(st, off);
    if first < 0 then first else FindProp(st, strs, NextProp(st, first), name)
  }

  // ---------- Nodes ----------

  /** The loop of fdt_next_node with a depth, from the tag at off on. */
  function ScanNode(st: bytes, off: int, depth: int): (r: (int, int))
    requires off >= 0
    ensures r.0 >= 0 && r.1 >= 0 ==> r.0 >= off && NextTag(st, r.0).0 == FDT_BEGIN_NODE
    decreases |st| - off
  {
    var (tag, next) := NextTag(st, off);
    if tag == FDT_BEGIN_NODE then (off, depth + 1)
    else if tag == FDT_END_NODE then
      if depth - 1 < 0 then (next, depth - 1) else ScanNode(st, next, depth - 1)
    else if tag == FDT_END then (if next >= 0 then -NOTFOUND else next, depth)
    else ScanNode(st, next, depth)
  }

  /** fdt_next_node with a depth. */
  function NextNode(st: bytes, off: int, depth: int): (r: (int, int))
    ensures r.0 >= 0 && r.1 >= 0 && off >= 0 ==> r.0 > off && off + 4 <= |st|
  {
    if off < 0 then ScanNode(st, 0, depth)
    else
      var first := CheckNode(st, off);
      if first < 0 then (first, depth) else ScanNode(st, first, depth)
  }

  /** The nodes visited by a loop that starts at the node at off and calls fdt_next_node until it leaves. */
  function Nodes(st: bytes, off: int, depth: int): (r: seq<(int, int)>)
    decreases |st| - off
  {
    if off < 0 || depth < 0 then []
    else
      var (next, d) := NextNode(st, off, depth);
      if next >= 0 && d >= 0 then [(off, depth)] + Nodes(st, next, d) else [(off, depth)]
  }

  /** The offset and depth with which that loop ends. */
  function NodesEnd(st: bytes, off: int, depth: int): (r: (int, int))
    ensures r.0 < 0 || r.1 < 0
    decreases |st| - off
  {
    if off < 0 || depth < 0 then (off, depth)
    else
      var (next, d) := NextNode(st, off, depth);
      if next >= 0 && d >= 0 then NodesEnd(st, next, d) else (next, d)
  }

  /** One step of such a loop. */
  lemma NodesStep(st: bytes, off: int, depth: int)
    requires off >= 0 && depth >= 0
    ensures var (next, d) := NextNode(st, off, depth);
      && Nodes(st, off, depth) == [(off, depth)] + Nodes(st, next, d)
      && NodesEnd(st, off, depth) == NodesEnd(st, next, d)
      && (next >= 0 && d >= 0 ==> next > off && off + 4 <= |st|)
  {
    hide NextNode;
    var (next, d) := NextNode(st, off, depth);
    if next < 0 || d < 0 {
      assert Nodes(st, next, d) == [];
    }
  }

  lemma NodesHead(st: bytes, off: int, depth: int)
    ensures if off < 0 || depth < 0 then Nodes(st, off, depth) == [] && NodesEnd(st, off, depth) == (off, depth)
            else Nodes(st, off, depth) != [] && Nodes(st, off, depth)[0] == (off, depth)
  {
  }

  /** fdt_node_end_offset_ */
  function NodeEnd(st: bytes, off: int): int {
    NodesEnd(st, off, 0).0
  }

  // ---------- Names ----------

  /** The name of the node at off. */
  function NameOf(st: bytes, off: int): Option<bytes>
  {
    if CheckNode(st, off) < 0 then None
    else
      var k := FindNul(st, off + 4);
      if k < 0 then None else Some(st[off + 4..k])
  }

  const AT: byte := 0x40  // '@'
  const SLASH: byte := 0x2F  // '/'

  /** fdt_nodename_eq_: the node name p answers to s, possibly without its unit address. */
  predicate NameEq(p: bytes, s: bytes) {
    |s| <= |p| && p[..|s|] == s &&
    (|p| == |s| || (AT !in s && p[|s|] == AT))
  }

  /** A name with a unit address answers to the part in front of it. */
  lemma UnitAnswers(s: bytes, u: bytes)
    requires 0x40 !in s
    ensures NameEq(s + [0x40] + u, s)
  {
    assert (s + [0x40] + u)[..|s|] == s;
  }

  /** The names that answer to s: s itself and, if s has no unit address, s with any unit address. */
  lemma AnswersExact(p: bytes, s: bytes)
    ensures NameEq(p, s) <==> p == s || (0x40 !in s && exists u: bytes :: p == s + [0x40] + u)
  {
    if NameEq(p, s) && p != s {
      var u := p[|s| + 1..];
      assert p[|s|] == 0x40 && p == p[..|s|] + [p[|s|]] + u;
    }
    if p == s {
      assert p[..|s|] == s;
    }
    if 0x40 !in s && exists u: bytes :: p == s + [0x40] + u {
      var u: bytes :| p == s + [0x40] + u;
      UnitAnswers(s, u);
    }
  }

  /** The first node at depth 1 among the visited ones that answers to name. */
  function FindSub(st: bytes, nodes: seq<(int, int)>, name: bytes): Option<int>
  {
    if nodes == [] then None
    else
      var (off, depth) := nodes[0];
      var n := NameOf(st, off);
      if depth == 1 && n.Some? && NameEq(n.value, name) then Some(off)
      else FindSub(st, nodes[1..], name)
  }

  /** The loop of fdt_subnode_offset_namelen, from the node at off and a depth on. */
  function SubFrom(st: bytes, off: int, depth: int, name: bytes): int {
    var r := FindSub(st, Nodes(st, off, depth), name);
    var (end, d) := NodesEnd(st, off, depth);
    if r.Some? then r.value
    else if d < 0 then -NOTFOUND else end
  }

  lemma SubStep(st: bytes, off: int, depth: int, name: bytes)
    requires off >= 0 && depth >= 0
    ensures var n := NameOf(st, off);
      var (next, d) := NextNode(st, off, depth);
      SubFrom(st, off, depth, name) ==
      if depth == 1 && n.Some? && NameEq(n.value, name) then off else SubFrom(st, next, d, name)
  {
    hide NextNode, Nodes, NodesEnd, NameOf, NameEq;
    NodesStep(st, off, depth);
    var (next, d) := NextNode(st, off, depth);
    assert Nodes(st, off, depth)[1..] == Nodes(st, next, d);
  }

  /** fdt_subnode_offset_namelen */
  function SubnodeOffset(st: bytes, off: int, name: bytes): int {
    SubFrom(st, off, 0, name)
  }

  /** fdt_first_subnode */
  function FirstSubnode(st: bytes, off: int): int {
    var (o, d) := NextNode(st, off, 0);
    if o < 0 || d != 1 then -NOTFOUND else o
  }

  /** The first visited node at depth 1, if none less deep comes before it. */
  function Shallow(nodes: seq<(int, int)>): int {
    if nodes == [] then -NOTFOUND
    else if nodes[0].1 <= 1 then if nodes[0].1 < 1 then -NOTFOUND else nodes[0].0
    else Shallow(nodes[1..])
  }

  /** fdt_next_subnode */
  function NextSubnode(st: bytes, off: int): int
    requires off >= 0
  {
    Shallow(Nodes(st, off, 1)[1..])
  }

  /** The offset behind the properties and NOPs from off on: the loop of fdt_add_subnode. */
  function SkipEntries(st: bytes, off: int): (r: int)
    decreases |st| - off
  {
    var (tag, next) := NextTag(st, off);
    if tag == FDT_PROP || tag == FDT_NOP then SkipEntries(st, next) else off
  }
}
