/** A device tree blob: the header fields and the memory that holds the blocks. */
module Blob {
  import opened Bytes
  import opened Forests
  import opened Edits
  import opened Trees

  const FDT_MAGIC: u32 := 0xd00dfeed
  const FDT_SW_MAGIC: u32 := 0x2ff20112  // ~FDT_MAGIC
  const FDT_V17_SIZE := 40
  const FDT_FIRST_SUPPORTED_VERSION := 2
  const FDT_LAST_COMPATIBLE_VERSION: u32 := 16
  const FDT_LAST_SUPPORTED_VERSION: u32 := 17

  /**
   * The header is kept in fields; the first 40 bytes of mem are its place and hold no block.
   * All offsets count from the start of mem.
   */
  class Fdt {
    const mem: array<byte>
    var magic: u32
    var totalsize: u32
    var offDtStruct: u32
    var offDtStrings: u32
    var offMemRsvmap: u32
    var version: u32
    var lastCompVersion: u32
    var bootCpuid: u32
    var sizeDtStrings: u32
    var sizeDtStruct: u32

    /** The entries of the structure block. */
    ghost var forest: Forest

    constructor (mem: array<byte>)
      ensures this.mem == mem
    {
      this.mem := mem;
    }

    /** The structure block lies in the blob, and the blob in memory. */
    ghost predicate StructIn()
      reads this
    {
      && totalsize <= mem.Length && totalsize < INT_MAX && version >= 17
      && FDT_V17_SIZE <= offDtStruct && offDtStruct + sizeDtStruct <= totalsize
    }

    /** The structure block. */
    ghost function St(): bytes
      requires StructIn()
      reads this, mem
    {
      mem[offDtStruct..offDtStruct + sizeDtStruct]
    }

    /** A complete tree with all blocks in the blob. */
    ghost predicate InBounds()
      reads this
    {
      StructIn() && magic == FDT_MAGIC && lastCompVersion <= FDT_LAST_SUPPORTED_VERSION &&
      offDtStrings + sizeDtStrings <= totalsize
    }

    /** The strings block. */
    ghost function Strs(): bytes
      requires InBounds()
      reads this, mem
    {
      mem[offDtStrings..offDtStrings + sizeDtStrings]
    }

    /** Where the last block ends. */
    function DataEnd(): int
      reads this
    {
      offDtStrings + sizeDtStrings
    }

    /** The blocks in the order reserve map, structure, strings, all in the blob. */
    ghost predicate Laid()
      reads this
    {
      && InBounds() && version == FDT_LAST_SUPPORTED_VERSION
      && FDT_V17_SIZE <= offMemRsvmap && offMemRsvmap + 16 <= offDtStruct
      && offDtStruct + sizeDtStruct <= offDtStrings
    }

    /** The blob encodes a device tree. */
    ghost predicate Valid()
      reads this, mem
    {
      Laid() && Encodes(St(), forest) && Named(forest, Strs())
    }

    /** The device tree: names, values and nesting. */
    ghost function Tree(): Tree
      requires Valid()
      reads this, mem
    {
      Abs(forest, Strs())
    }

    function Hdr(): Header
      reads this
    {
      Header(magic, totalsize, offDtStruct, offDtStrings, offMemRsvmap,
             version, lastCompVersion, bootCpuid, sizeDtStrings, sizeDtStruct)
    }

    /** What no edit of the structure block changes: the other header fields, and what lies before the block. */
    ghost function Front(): Kept
      requires Laid()
      reads this, mem
    {
      Kept(magic, totalsize, offDtStruct, offMemRsvmap, version, lastCompVersion, bootCpuid, mem[..offDtStruct])
    }

    /** Records the entries that the structure block now encodes. */
    ghost method Adopt(f: Forest)
      requires Laid()
      modifies this`forest
      ensures forest == f
      ensures St() == old(St()) && Strs() == old(Strs()) && Front() == old(Front()) && Laid()
    {
      forest := f;
    }

    /** The blocks, as parts of the memory. */
    lemma Blocks()
      requires Laid()
      ensures InBounds() && StructIn()
      ensures offDtStruct + sizeDtStruct <= offDtStrings && offDtStrings + sizeDtStrings <= |mem[..]|
      ensures St() == Block(mem[..], offDtStruct, sizeDtStruct)
      ensures Strs() == Block(mem[..], offDtStrings, sizeDtStrings)
      ensures Front() == Kept(magic, totalsize, offDtStruct, offMemRsvmap, version, lastCompVersion, bootCpuid,
                              Block(mem[..], 0, offDtStruct))
    {
    }

    lemma StSize()
      requires StructIn()
      ensures |St()| == sizeDtStruct && |St()| < INT_MAX - FDT_V17_SIZE
    {
    }
  }

  datatype Header = Header(magic: u32, totalsize: u32, offDtStruct: u32, offDtStrings: u32, offMemRsvmap: u32,
                           version: u32, lastCompVersion: u32, bootCpuid: u32, sizeDtStrings: u32, sizeDtStruct: u32)

  datatype Kept = Kept(magic: u32, totalsize: u32, offDtStruct: u32, offMemRsvmap: u32, version: u32,
                       lastCompVersion: u32, bootCpuid: u32, front: bytes)

  // ---------- The C library on the memory of a blob ----------

  /** memmove: the two ranges may overlap. */
  method Memmove(mem: array<byte>, dst: nat, src: nat, n: nat)
    requires dst + n <= mem.Length && src + n <= mem.Length
    modifies mem
    ensures forall k :: dst <= k < dst + n ==> mem[k] == old(mem[k - dst + src])
    ensures forall k :: 0 <= k < mem.Length && !(dst <= k < dst + n) ==> mem[k] == old(mem[k])
  {
    forall k | dst <= k < dst + n {
      mem[k] := mem[k - dst + src];
    }
  }

  /** memcpy from elsewhere into the blob. */
  method Memcpy(mem: array<byte>, dst: nat, src: bytes)
    requires dst + |src| <= mem.Length
    modifies mem
    ensures forall k :: dst <= k < dst + |src| ==> mem[k] == src[k - dst]
    ensures forall k :: 0 <= k < mem.Length && !(dst <= k < dst + |src|) ==> mem[k] == old(mem[k])
  {
    forall k | dst <= k < dst + |src| {
      mem[k] := src[k - dst];
    }
  }

  method Store32(mem: array<byte>, i: nat, v: u32)
    requires i + 4 <= mem.Length
    modifies mem
    ensures Dec32(mem[..], i) == v
    ensures forall k :: 0 <= k < mem.Length && !(i <= k < i + 4) ==> mem[k] == old(mem[k])
  {
    var w := v / 0x100;
    var x := w / 0x100;
    mem[i] := x / 0x100;
    mem[i + 1] := x % 0x100;
    mem[i + 2] := w % 0x100;
    mem[i + 3] := v % 0x100;
  }

  method Load32(mem: array<byte>, i: nat) returns (r: u32)
    requires i + 4 <= mem.Length
    ensures r == Dec32(mem[..], i)
  {
    r := mem[i] as int * 0x100_0000 + mem[i + 1] as int * 0x1_0000 + mem[i + 2] as int * 0x100 + mem[i + 3] as int;
  }

  lemma DecSlice(s: bytes, a: nat, b: nat, i: nat)
    requires a <= b <= |s| && a + i + 4 <= b
    ensures Dec32(s[a..b], i) == Dec32(s, a + i)
  {
  }
}
