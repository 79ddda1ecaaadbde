/** libfdt/fdt_rw.c: packing. */
module Packing {
  import opened Bytes
  import opened Blob
  import opened Forests
  import opened Edits
  import opened Trees
  import opened ReadWrite
  import opened Reserve

  /** The ranges of n bytes at i and of m bytes at j have no byte in common. */
  predicate Disjoint(i: int, n: int, j: int, m: int) {
    i + n <= j || j + m <= i
  }

  lemma MovedBlock(a: bytes, b: bytes, dst: nat, src: nat, n: nat)
    requires |a| == |b| && dst + n <= |a| && src + n <= |a|
    requires forall k {:trigger b[k]} :: dst <= k < dst + n ==> b[k] == a[k - dst + src]
    ensures Block(b, dst, n) == Block(a, src, n)
  {
  }

  lemma KeptBlock(a: bytes, b: bytes, dst: nat, n: nat, i: nat, m: nat)
    requires |a| == |b| && i + m <= |a| && Disjoint(dst, n, i, m)
    requires forall k {:trigger b[k]} :: 0 <= k < |b| && !(dst <= k < dst + n) ==> b[k] == a[k]
    ensures Block(b, i, m) == Block(a, i, m)
  {
  }

  /** memmove in terms of blocks. */
  method MoveBlock(mem: array<byte>, dst: nat, src: nat, n: nat)
    requires dst + n <= mem.Length && src + n <= mem.Length
    modifies mem
    ensures Block(mem[..], dst, n) == old(Block(mem[..], src, n))
    ensures forall i: nat, m: nat :: i + m <= mem.Length && Disjoint(dst, n, i, m) ==>
              Block(mem[..], i, m) == old(Block(mem[..], i, m))
    ensures dst == src ==> mem[..] == old(mem[..])
  {
    hide Block;
    ghost var a := mem[..];
    Memmove(mem, dst, src, n);
    MovedBlock(a, mem[..], dst, src, n);
    forall i: nat, m: nat | i + m <= mem.Length && Disjoint(dst, n, i, m)
      ensures Block(mem[..], i, m) == Block(a, i, m) {
      KeptBlock(a, mem[..], dst, n, i, m);
    }
  }

  /** Where the three blocks of a tree are, and how long they are. */
  datatype Places = Places(rsv: nat, rsvSize: nat, st: nat, stSize: nat, strs: nat, strsSize: nat)

  /** The blocks one behind the other from newb + 40 on. */
  function PackedAt(newb: nat, p: Places): Places {
    var st := newb + FDT_V17_SIZE + p.rsvSize;
    Places(newb + FDT_V17_SIZE, p.rsvSize, st, p.stSize, st + p.stSize, p.strsSize)
  }

  predicate PlacesIn(p: Places, length: nat) {
    p.rsv + p.rsvSize <= length && p.st + p.stSize <= length && p.strs + p.strsSize <= length
  }

  /** No move of a block to its packed place overwrites a block that is still to be moved. */
  predicate SafeToPack(p: Places, q: Places) {
    && Disjoint(q.rsv, q.rsvSize, p.st, p.stSize)
    && Disjoint(q.rsv, q.rsvSize, p.strs, p.strsSize)
    && Disjoint(q.st, q.stSize, p.strs, p.strsSize)
  }

  /** The three moves of fdt_packblocks_. */
  method PackBlocks(mem: array<byte>, p: Places, newb: nat)
    requires PlacesIn(p, mem.Length) && PlacesIn(PackedAt(newb, p), mem.Length) && SafeToPack(p, PackedAt(newb, p))
    modifies mem
    ensures
      var q := PackedAt(newb, p);
      && Block(mem[..], q.rsv, q.rsvSize) == old(Block(mem[..], p.rsv, p.rsvSize))
      && Block(mem[..], q.st, q.stSize) == old(Block(mem[..], p.st, p.stSize))
      && Block(mem[..], q.strs, q.strsSize) == old(Block(mem[..], p.strs, p.strsSize))
    ensures
      var q := PackedAt(newb, p);
      forall i: nat, m: nat :: i + m <= mem.Length && Disjoint(q.rsv, q.strs + q.strsSize - q.rsv, i, m) ==>
        Block(mem[..], i, m) == old(Block(mem[..], i, m))
    ensures p == PackedAt(newb, p) ==> mem[..] == old(mem[..])
  {
    hide Block;
    var q := PackedAt(newb, p);
    MoveBlock(mem, q.rsv, p.rsv, p.rsvSize);
    MoveBlock(mem, q.st, p.st, p.stSize);
    MoveBlock(mem, q.strs, p.strs, p.strsSize);
  }

  /** In a blob with its blocks in order, packing in place is safe. */
  lemma InPlaceSafe(p: Places)
    requires FDT_V17_SIZE <= p.rsv && p.rsv + p.rsvSize <= p.st && p.st + p.stSize <= p.strs
    ensures SafeToPack(p, PackedAt(0, p))
    ensures PackedAt(0, p).rsv <= p.rsv && PackedAt(0, p).st <= p.st && PackedAt(0, p).strs <= p.strs
  {
  }

  /** The blocks of fdt, the reserve map with n entries. */
  function PlacesOf(fdt: Fdt, n: nat): Places
    reads fdt
  {
    Places(fdt.offMemRsvmap, 16 * n + 16, fdt.offDtStruct, fdt.sizeDtStruct, fdt.offDtStrings, fdt.sizeDtStrings)
  }

  /** Nothing in fdt but the header and the blocks, one behind the other. */
  ghost predicate Packed(fdt: Fdt)
    requires fdt.Laid()
    reads fdt, fdt.mem
  {
    && Reserved(fdt).Some?
    && PlacesOf(fdt, |Reserved(fdt).value|) == PackedAt(0, PlacesOf(fdt, |Reserved(fdt).value|))
    && fdt.totalsize == fdt.offDtStrings + fdt.sizeDtStrings
  }

  lemma RsvOfBlock(a: bytes, i: nat, ea: nat, b: bytes, j: nat, eb: nat, n: nat)
    requires ea <= |a| && eb <= |b| && Rsv(a, i, ea).Some? && |Rsv(a, i, ea).value| == n && j + 16 * n + 16 <= eb
    requires Block(a, i, 16 * n + 16) == Block(b, j, 16 * n + 16)
    ensures Rsv(b, j, eb) == Rsv(a, i, ea)
  {
    SameSlices(a, i, b, j, 16 * n + 16);
    RsvMove(a, i, ea, b, j, eb, n);
  }

  /** The moves and the header updates of fdt_pack, for a reserve map of n entries. */
  method PackInPlace(fdt: Fdt, n: nat)
    requires fdt.Laid() && fdt.offMemRsvmap + 16 * n + 16 <= fdt.offDtStruct
    modifies fdt, fdt.mem
    ensures fdt.Laid() && fdt.forest == old(fdt.forest)
    ensures PlacesOf(fdt, n) == PackedAt(0, old(PlacesOf(fdt, n)))
    ensures fdt.totalsize == fdt.offDtStrings + fdt.sizeDtStrings <= old(fdt.totalsize)
    ensures fdt.Hdr() == old(fdt.Hdr()).(totalsize := fdt.totalsize, offMemRsvmap := fdt.offMemRsvmap,
                                         offDtStruct := fdt.offDtStruct, offDtStrings := fdt.offDtStrings)
    ensures fdt.St() == old(fdt.St()) && fdt.Strs() == old(fdt.Strs())
    ensures Block(fdt.mem[..], fdt.offMemRsvmap, 16 * n + 16) == old(Block(fdt.mem[..], fdt.offMemRsvmap, 16 * n + 16))
    ensures old(PlacesOf(fdt, n)) == PackedAt(0, old(PlacesOf(fdt, n))) ==> fdt.mem[..] == old(fdt.mem[..])
  {
    hide Block, Fdt.St, Fdt.Strs, SafeToPack;
    fdt.Blocks();
    var p := PlacesOf(fdt, n);
    var q := PackedAt(0, p);
    InPlaceSafe(p);
    PackBlocks(fdt.mem, p, 0);
    fdt.offMemRsvmap := q.rsv;
    fdt.offDtStruct := q.st;
    fdt.offDtStrings := q.strs;
    fdt.totalsize := q.strs + q.strsSize;
    fdt.Blocks();
  }

  /**
   * fdt_pack, for a blob whose reserve map ends before the structure block: tree and reserve
   * entries are kept, and nothing is left between and behind the blocks. Packing again changes nothing.
   */
  method Pack(fdt: Fdt) returns (err: int)
    requires RwError(fdt.Hdr()) == 0 ==> fdt.Valid() && Reserved(fdt).Some?
    modifies fdt, fdt.mem
    ensures err == old(RwError(fdt.Hdr()))
    ensures err != 0 ==> fdt.Hdr() == old(fdt.Hdr()) && fdt.mem[..] == old(fdt.mem[..])
    ensures err == 0 ==>
      && fdt.Valid() && Packed(fdt)
      && fdt.Tree() == old(fdt.Tree()) && Reserved(fdt) == old(Reserved(fdt))
      && fdt.St() == old(fdt.St()) && fdt.Strs() == old(fdt.Strs())
      && fdt.totalsize == 40 + 16 * (|Reserved(fdt).value| + 1) + fdt.sizeDtStruct + fdt.sizeDtStrings
      && fdt.bootCpuid == old(fdt.bootCpuid) && fdt.lastCompVersion == old(fdt.lastCompVersion)
    ensures err == 0 && old(Packed(fdt)) ==> fdt.Hdr() == old(fdt.Hdr()) && fdt.mem[..] == old(fdt.mem[..])
  {
    hide Fdt.St, Fdt.Strs, Encodes, Abs, Named, Rsv, RwError, Block;
    err := RwProbe(fdt);
    if err != 0 {
      return;
    }
    ghost var a, so, off := fdt.mem[..], fdt.offDtStruct, fdt.offMemRsvmap;
    RsvWiden(a, off, so, fdt.totalsize);
    RsvEnd(a, off, so);
    var n := NumMemRsv(fdt);
    PackInPlace(fdt, n);
    RsvOfBlock(a, off, so, fdt.mem[..], fdt.offMemRsvmap, fdt.offDtStruct, n);
  }
}
